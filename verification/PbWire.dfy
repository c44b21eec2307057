/** The Protocol Buffers wire format as nanopb reads and writes it (pb_encode.c, pb_decode.c): varints,
    zigzag, sign extension and field tags, as functions. */
module PbWire {
  import opened Coding
  import opened Options

  const TWO31: int := 0x8000_0000
  const TWO32: int := 0x1_0000_0000
  const TWO63: int := 0x8000_0000_0000_0000
  const TWO64: int := 0x1_0000_0000_0000_0000

  // ----- Two's complement and zigzag ---------------------------------------------------

  function ToUnsigned64(v: int): (r: nat)
    requires -TWO63 <= v < TWO63
    ensures r < TWO64
  {
    if v < 0 then v + TWO64 else v
  }

  function ToSigned64(u: nat): (r: int)
    requires u < TWO64
    ensures -TWO63 <= r < TWO63
  {
    if u < TWO63 then u else u - TWO64
  }

  /** The cast to int32_t: the low word as a signed number. */
  function ToSigned32(u: nat): (r: int)
    ensures -TWO31 <= r < TWO31
  {
    var low := u % TWO32;
    if low < TWO31 then low else low - TWO32
  }

  /** pb_encode_svarint. The left shift drops the top bit, and the complement is taken in 64 bits. */
  function ZigZag(v: int): (r: nat)
    requires -TWO63 <= v < TWO63
    ensures r < TWO64
  {
    if v < 0 then TWO64 - 1 - (2 * ToUnsigned64(v)) % TWO64 else 2 * v
  }

  /** pb_decode_svarint. */
  function UnZigZag(u: nat): (r: int)
    requires u < TWO64
    ensures -TWO63 <= r < TWO63
  {
    if u % 2 == 1 then ToSigned64(TWO64 - 1 - u / 2) else u / 2
  }

  /** Zigzag is a bijection between the signed and the unsigned 64-bit numbers. */
  lemma ZigZagRoundTrip(v: int, u: nat)
    ensures -TWO63 <= v < TWO63 ==> UnZigZag(ZigZag(v)) == v
    ensures u < TWO64 ==> ZigZag(UnZigZag(u)) == u
  {
  }

  /** Small magnitudes get small codes: the numbers -n and n - 1 take the codes 2n - 1 and 2n - 2. */
  lemma ZigZagIsSmall(n: int)
    requires 0 < n <= TWO63
    ensures ZigZag(-n) == 2 * n - 1 && ZigZag(n - 1) == 2 * n - 2
  {
  }

  /** Negative 32-bit values survive being sent as 64-bit ones. */
  lemma SignExtension(v: int)
    requires -TWO31 <= v < TWO31
    ensures ToSigned32(ToUnsigned64(v)) == v
  {
  }

  // ----- 64-bit varints ----------------------------------------------------------------

  /** pb_decode_varint: at most ten bytes, and bits beyond the 64th are dropped. */
  function DecodeVarint(b: bytes): (r: Option<(nat, nat)>)
    ensures r.Some? ==> r.value.0 < TWO64 && 1 <= r.value.1 <= |b|
  {
    match ReadVarint(b, 10)
    case None => None
    case Some((v, n)) => Some((v % TWO64, n))
  }

  lemma Pow128Of10()
    ensures Pow128(10) == 0x4000_0000_0000_0000 * 256
  {
    assert Pow128(5) == 128 * 128 * 128 * 128 * 128;
    assert Pow128(10) == 128 * Pow128(9) && Pow128(9) == 128 * Pow128(8) && Pow128(8) == 128 * Pow128(7)
        && Pow128(7) == 128 * Pow128(6) && Pow128(6) == 128 * Pow128(5);
  }

  /** Every 64-bit number takes at most ten bytes, and reading them back gives it and nothing more. */
  lemma Varint64RoundTrip(v: nat, rest: bytes)
    requires v < TWO64
    ensures |EncodeVarint(v)| <= 10
    ensures DecodeVarint(EncodeVarint(v) + rest) == Some((v, |EncodeVarint(v)|))
  {
    Pow128Of10();
    VarintRoundTrip(v, 10, rest);
  }

  // ----- 32-bit varints ----------------------------------------------------------------

  /** The result of pb_decode_varint32_eof; `eof` only when not even the first byte was there. */
  datatype Varint32 = Got(v: nat, length: nat) | EndOfStream | Failed

  function Pow2(n: nat): (r: nat)
    ensures r > 0
  {
    if n == 0 then 1 else 2 * Pow2(n - 1)
  }

  function Or(a: nat, b: nat): nat
    decreases a
  {
    if a == 0 then b
    else 2 * Or(a / 2, b / 2) + (if a % 2 == 1 || b % 2 == 1 then 1 else 0)
  }

  lemma {:induction false} OrFits(a: nat, b: nat, n: nat)
    requires a < Pow2(n) && b < Pow2(n)
    ensures Or(a, b) < Pow2(n)
    decreases n
  {
    if a > 0 {
      OrFits(a / 2, b / 2, n - 1);
    }
  }

  /** Bits that are not yet set are added. */
  lemma {:induction false} OrIsSum(a: nat, c: nat, n: nat)
    requires a < Pow2(n)
    ensures Or(a, c * Pow2(n)) == a + c * Pow2(n)
    decreases n
  {
    hide Or;
    if a == 0 {
      OrZero(c * Pow2(n));
    } else {
      Halved(c, n);
      OrIsSum(a / 2, c, n - 1);
      OrHalves(a, c * Pow2(n), c * Pow2(n - 1));
    }
  }

  lemma OrZero(b: nat)
    ensures Or(0, b) == b
  {
  }

  lemma Halved(c: nat, n: nat)
    requires n > 0
    ensures c * Pow2(n) == 2 * (c * Pow2(n - 1))
  {
    var p := Pow2(n - 1);
    assert c * (2 * p) == 2 * (c * p);
  }

  lemma OrHalves(a: nat, b: nat, half: nat)
    requires a > 0 && b == 2 * half && Or(a / 2, half) == a / 2 + half
    ensures Or(a, b) == a + b
  {
    assert b / 2 == half && b % 2 == 0;
  }

  lemma Pow2Of32()
    ensures Pow2(7) == 0x80 && Pow2(14) == 0x4000 && Pow2(21) == 0x20_0000 && Pow2(28) == 0x1000_0000
            && Pow2(32) == TWO32
  {
    assert Pow2(7) == 128 * Pow2(0) by { assert Pow2(4) == 16; }
    assert Pow2(14) == 128 * Pow2(7) by { assert Pow2(11) == 16 * Pow2(7); }
    assert Pow2(21) == 128 * Pow2(14) by { assert Pow2(18) == 16 * Pow2(14); }
    assert Pow2(28) == 128 * Pow2(21) by { assert Pow2(25) == 16 * Pow2(21); }
    assert Pow2(32) == 16 * Pow2(28);
  }

  /** The decoder's bit position, an eight-bit number, at byte `n`. */
  function BitPos(n: nat): nat
  {
    (7 * n) % 256
  }

  /** result |= (uint32_t)low << bitpos. */
  function Joined(result: nat, low: nat, bitpos: nat): (r: nat)
    requires result < TWO32
    ensures r < TWO32
  {
    Pow2Of32();
    OrFits(result, (low * Pow2(bitpos)) % TWO32, 32);
    Or(result, (low * Pow2(bitpos)) % TWO32)
  }

  /** The bytes from number `n` on. Bits beyond the 32nd must repeat the sign, as far as the decoder
      looks; after 36 bytes its bit position starts over. */
  function MoreOf32(b: bytes, n: nat, result: nat): (r: Varint32)
    requires result < TWO32
    ensures !r.EndOfStream? && (r.Got? ==> r.v < TWO32 && n < r.length <= n + |b|)
  {
    if b == [] then Failed
    else
      var low: nat := b[0] % 128;
      var bitpos := BitPos(n);
      if bitpos >= 32 && low != 0 && (result < TWO31 || b[0] != (if bitpos < 63 then 0xff else 1)) then Failed
      else
        var result' := if bitpos >= 32 then result else Joined(result, low, bitpos);
        if b[0] >= 128 then MoreOf32(b[1..], n + 1, result')
        else if bitpos == 28 && (b[0] / 16) % 8 != 0 then Failed
        else Got(result', n + 1)
  }

  lemma SmallPowers()
    ensures Pow128(1) == 0x80 && Pow128(2) == 0x4000 && Pow128(3) == 0x20_0000 && Pow128(4) == 0x1000_0000
  {
    assert Pow128(4) == 128 * Pow128(3) && Pow128(3) == 128 * Pow128(2) && Pow128(2) == 128 * Pow128(1);
  }

  /** In the first bytes the bits are all new. */
  lemma JoinedIsSum(result: nat, low: nat, n: nat)
    requires 1 <= n <= 4 && result < Pow128(n) && result < TWO32 && low < 128
    ensures Joined(result, low, BitPos(n)) == (result + low * Pow128(n)) % TWO32
  {
    hide Or, Pow2, Pow128;
    Pow2Of32();
    SmallPowers();
    var p := Pow128(n);
    if n < 4 {
      ShortShift(result, low, p);
      OrIsSum(result, low, BitPos(n));
    } else {
      LongShift(result, low);
      OrIsSum(result, low % 16, BitPos(n));
    }
  }

  lemma ShortShift(result: nat, low: nat, p: nat)
    requires result < p <= 0x20_0000 && low < 128
    ensures (low * p) % TWO32 == low * p && (result + low * p) % TWO32 == result + low * p
  {
    DigitBound(low, p);
    NoWrap(low * p);
    NoWrap(result + low * p);
  }

  lemma LongShift(result: nat, low: nat)
    requires result < 0x1000_0000 && low < 128
    ensures (low * 0x1000_0000) % TWO32 == (low % 16) * 0x1000_0000
    ensures (result + low * 0x1000_0000) % TWO32 == result + (low % 16) * 0x1000_0000
  {
    assert low * 0x1000_0000 == (low % 16) * 0x1000_0000 + (low / 16) * TWO32;
  }

  function DecodeVarint32(b: bytes): (r: Varint32)
    ensures r.Got? ==> r.v < TWO32 && 1 <= r.length <= |b|
    ensures r.EndOfStream? <==> b == []
  {
    if b == [] then EndOfStream
    else if b[0] < 128 then Got(b[0], 1)
    else MoreOf32(b[1..], 1, b[0] % 128)
  }

  lemma MoreUnfolds(b: bytes, n: nat, result: nat)
    requires result < TWO32
    ensures MoreOf32(b, n, result)
            == (if b == [] then Failed
                else if BitPos(n) >= 32 && b[0] % 128 != 0
                  && (result < TWO31 || b[0] != (if BitPos(n) < 63 then 0xff else 1)) then Failed
                else
                  var result' := if BitPos(n) >= 32 then result else Joined(result, b[0] % 128, BitPos(n));
                  if b[0] >= 128 then MoreOf32(b[1..], n + 1, result')
                  else if BitPos(n) == 28 && (b[0] / 16) % 8 != 0 then Failed
                  else Got(result', n + 1))
  {
    hide Joined, BitPos;
  }

  /** One byte of an encoded number. */
  lemma OneByteMore(w: nat, n: nat, result: nat, rest: bytes)
    requires result < TWO32 && 1 <= n <= 9 && (n <= 4 ==> result < Pow128(n))
    ensures |EncodeVarint(w)| == (if w < 128 then 1 else 1 + |EncodeVarint(w / 128)|)
    ensures var low, b := w % 128, if w < 128 then w else w % 128 + 128;
            var result' := if 7 * n >= 32 then result else (result + low * Pow128(n)) % TWO32;
            MoreOf32(EncodeVarint(w) + rest, n, result)
            == (if 7 * n >= 32 && low != 0 && (result < TWO31 || b != (if 7 * n < 63 then 0xff else 1)) then Failed
                else if w >= 128 then MoreOf32(EncodeVarint(w / 128) + rest, n + 1, result')
                else if n == 4 && w >= 16 then Failed
                else Got(result', n + 1))
  {
    hide Pow128, Joined, MoreOf32, EncodeVarint, BitPos;
    MoreUnfolds(EncodeVarint(w) + rest, n, result);
    FirstByte(w, rest);
    EarlyBitPos(n);
    if n <= 4 {
      JoinedIsSum(result, w % 128, n);
    }
  }

  lemma FirstByte(w: nat, rest: bytes)
    ensures |EncodeVarint(w)| == (if w < 128 then 1 else 1 + |EncodeVarint(w / 128)|)
    ensures var b := EncodeVarint(w) + rest;
            && b != [] && b[0] == (if w < 128 then w else w % 128 + 128)
            && b[0] % 128 == w % 128 && (b[0] >= 128 <==> w >= 128)
            && (w < 128 ==> ((b[0] / 16) % 8 != 0 <==> w >= 16))
            && (w >= 128 ==> b[1..] == EncodeVarint(w / 128) + rest)
  {
    var b := EncodeVarint(w) + rest;
    SevenBits(w % 128);
    if w >= 128 {
      assert EncodeVarint(w)[0] == w % 128 + 128;
      assert b[1..] == EncodeVarint(w)[1..] + rest;
    } else {
      SevenBits(w);
    }
  }

  lemma SevenBits(d: nat)
    requires d < 128
    ensures d % 128 == d && (d + 128) % 128 == d && ((d / 16) % 8 != 0 <==> d >= 16)
  {
  }

  lemma EarlyBitPos(n: nat)
    requires 1 <= n <= 9
    ensures BitPos(n) == 7 * n && (BitPos(n) == 28 <==> n == 4)
  {
  }

  /** Bits 35 to 62 as the decoder checks them: each group of seven all zeros or all ones. */
  predicate UniformGroups(w: nat, n: nat)
    decreases 9 - n
  {
    n >= 9 || ((w % 128 == 0 || w % 128 == 127) && UniformGroups(w / 128, n + 1))
  }

  /** The fifth and later bytes of a number that takes ten. `w` is what is left of it at byte `n`. */
  lemma {:induction false} SignBytes(w: nat, n: nat, result: nat, rest: bytes)
    requires 5 <= n <= 9 && 0 < w && result < TWO32
    requires n == 5 ==> w < 128 * 128 * 128 * 128 * 2
    requires n == 6 ==> w < 128 * 128 * 128 * 2
    requires n == 7 ==> w < 128 * 128 * 2
    requires n == 8 ==> w < 128 * 2
    requires n == 9 ==> w < 2
    ensures var top := if n == 5 then 128 * 128 * 128 * 128 else if n == 6 then 128 * 128 * 128
            else if n == 7 then 128 * 128
                       else if n == 8 then 128 else 1;
            MoreOf32(EncodeVarint(w) + rest, n, result)
            == (if result >= TWO31 && w >= top && UniformGroups(w, n) then Got(result, n + |EncodeVarint(w)|)
              else Failed)
    decreases 9 - n
  {
    hide EncodeVarint, MoreOf32, Pow128;
    OneByteMore(w, n, result, rest);
    if w >= 128 {
      SignBytes(w / 128, n + 1, result, rest);
    }
  }

  /** The numbers pb_decode_varint32 accepts when the encoder wrote them. */
  predicate Accepts32(v: nat)
  {
    v < TWO32 || (v >= TWO63 && (v / TWO31) % 2 == 1 && UniformGroups(v / 0x8_0000_0000, 5))
  }

  lemma FifthByte(w: nat, result: nat, rest: bytes)
    requires 0 < w && result < 0x1000_0000 && result + w * 0x1000_0000 < TWO64
    ensures var v := result + w * 0x1000_0000;
            MoreOf32(EncodeVarint(w) + rest, 4, result)
              == (if Accepts32(v) then Got(v % TWO32, 4 + |EncodeVarint(w)|) else Failed)
  {
    hide EncodeVarint, MoreOf32, Pow128, UniformGroups;
    var v := result + w * 0x1000_0000;
    SmallPowers();
    OneByteMore(w, 4, result, rest);
    assert v / 0x1000_0000 == w && v / 0x8_0000_0000 == w / 128;
    FourBits(w, result);
    if w >= 128 {
      SignBytes(w / 128, 5, v % TWO32, rest);
    }
  }

  lemma FourBits(w: nat, result: nat)
    requires result < 0x1000_0000
    ensures var v := result + w * 0x1000_0000;
            && (result + (w % 128) * 0x1000_0000) % TWO32 == v % TWO32
            && (v % TWO32 >= TWO31 <==> (v / TWO31) % 2 == 1)
  {
    var q, r := w / 16, w % 16;
    LowWord(result + r * 0x1000_0000, q);
    assert w == 16 * q + r;
    assert w % 128 == 16 * (q % 8) + r by { Digits(q, r); }
    LowWord(result + r * 0x1000_0000, q % 8);
  }

  lemma Digits(q: nat, r: nat)
    requires r < 16
    ensures (16 * q + r) % 128 == 16 * (q % 8) + r
  {
    assert 16 * q + r == 128 * (q / 8) + (16 * (q % 8) + r);
  }

  lemma LowWord(a: nat, q: nat)
    requires a < TWO32
    ensures (a + q * TWO32) % TWO32 == a
    ensures a >= TWO31 <==> ((a + q * TWO32) / TWO31) % 2 == 1
  {
    assert (a + q * TWO32) / TWO31 == 2 * q + a / TWO31;
  }

  lemma Distribute(d: nat, e: nat, p: nat)
    ensures (d + e * 128) * p == d * p + e * (128 * p)
  {
    assert (d + e * 128) * p == d * p + (e * 128) * p;
    assert (e * 128) * p == e * (128 * p);
  }

  lemma DigitBound(d: nat, p: nat)
    requires d < 128
    ensures d * p <= 127 * p
  {
  }

  lemma NextDigit(w: nat, p: nat, result: nat)
    requires result < p <= 0x20_0000
    ensures result + w * p == (result + (w % 128) * p) + (w / 128) * (128 * p)
    ensures result + (w % 128) * p < 128 * p && (result + (w % 128) * p) % TWO32 == result + (w % 128) * p
  {
    var d, e := w % 128, w / 128;
    assert w == d + e * 128;
    Distribute(d, e, p);
    DigitBound(d, p);
    NoWrap(result + d * p);
  }

  lemma NoWrap(x: nat)
    requires x < TWO32
    ensures x % TWO32 == x
  {
  }

  lemma {:induction false} LowBytes(w: nat, n: nat, result: nat, rest: bytes)
    requires 1 <= n <= 4 && 0 < w && result < TWO32 && result < Pow128(n) && result + w * Pow128(n) < TWO64
    ensures var v := result + w * Pow128(n);
            MoreOf32(EncodeVarint(w) + rest, n, result)
              == (if Accepts32(v) then Got(v % TWO32, n + |EncodeVarint(w)|) else Failed)
    decreases 4 - n
  {
    hide Accepts32, EncodeVarint, MoreOf32, Pow128;
    SmallPowers();
    if n == 4 {
      FifthByte(w, result, rest);
    } else {
      var p := Pow128(n);
      OneByteMore(w, n, result, rest);
      NextDigit(w, p, result);
      assert Pow128(n + 1) == 128 * p;
      if w >= 128 {
        LowBytes(w / 128, n + 1, result + (w % 128) * p, rest);
      } else {
        SmallAccepted(result + w * p);
      }
    }
  }

  lemma SmallAccepted(v: nat)
    requires v < TWO32
    ensures Accepts32(v)
  {
  }

  lemma FromSecond(d: nat, q: nat, rest: bytes)
    requires d < 128 && q > 0 && d + q * 128 < TWO64
    ensures var v := d + q * 128;
            MoreOf32(EncodeVarint(q) + rest, 1, d)
            == (if Accepts32(v) then Got(v % TWO32, 1 + |EncodeVarint(q)|) else Failed)
  {
    hide Accepts32, MoreOf32, Pow128, EncodeVarint;
    SmallPowers();
    LowBytes(q, 1, d, rest);
  }

  /** On what the encoder writes, the 32-bit decoder succeeds exactly on the accepted numbers, and
      returns their low word. */
  lemma Varint32Decodes(v: nat, rest: bytes)
    requires v < TWO64
    ensures DecodeVarint32(EncodeVarint(v) + rest)
            == (if Accepts32(v) then Got(v % TWO32, |EncodeVarint(v)|) else Failed)
  {
    hide Accepts32, MoreOf32;
    if v < 128 {
      SmallAccepted(v);
    } else {
      hide EncodeVarint, DecodeVarint32;
      FromSecond(v % 128, v / 128, rest);
      FirstOfMany(v, rest);
    }
  }

  lemma FirstOfMany(v: nat, rest: bytes)
    requires v >= 128
    ensures |EncodeVarint(v)| == 1 + |EncodeVarint(v / 128)|
    ensures DecodeVarint32(EncodeVarint(v) + rest) == MoreOf32(EncodeVarint(v / 128) + rest, 1, v % 128)
  {
    hide MoreOf32;
    assert (EncodeVarint(v) + rest)[1..] == EncodeVarint(v / 128) + rest;
  }

  /** In particular: 32-bit numbers and sign-extended negative ones are accepted, positive numbers that
      do not fit are not. */
  lemma Accepts32Is(v: nat)
    requires v < TWO64
    ensures v < TWO32 ==> Accepts32(v)
    ensures TWO32 <= v < TWO63 ==> !Accepts32(v)
    ensures v >= TWO64 - TWO31 ==> Accepts32(v) && ToSigned32(v % TWO32) == ToSigned64(v)
  {
    if v >= TWO64 - TWO31 {
      var w := v / 0x8_0000_0000;
      assert w == 0x1FFF_FFFF;
      assert UniformGroups(w / 128 / 128 / 128 / 128, 9) && UniformGroups(w / 128 / 128 / 128, 8);
      assert UniformGroups(w / 128 / 128, 7) && UniformGroups(w / 128, 6);
    }
  }

  /** But not only those: a number that is no sign extension can be taken for one. */
  lemma FalselyAccepted()
    ensures var v := TWO63 + TWO31; v < TWO64 - TWO31 && Accepts32(v) && v % TWO32 == TWO31
  {
    var w := (TWO63 + TWO31) / 0x8_0000_0000;
    assert w == 0x1000_0000;
    assert UniformGroups(w / 128 / 128 / 128 / 128, 9) && UniformGroups(w / 128 / 128 / 128, 8);
    assert UniformGroups(w / 128 / 128, 7) && UniformGroups(w / 128, 6);
  }

  /** A 64-bit number has ten bytes at most. */
  lemma TenAtMost(b: bytes)
    ensures DecodeVarint(b) == None <==> forall i :: 0 <= i < |b| && i < 10 ==> b[i] >= 128
  {
    VarintEnds(b, 10);
  }

  /** Bytes that only say there is more. */
  function Padding(k: nat): (r: bytes)
    ensures |r| == k
  {
    if k == 0 then [] else [128] + Padding(k - 1)
  }

  lemma {:induction false} PaddingIsRead(k: nat, tail: bytes, n: nat, result: nat)
    requires result < TWO32
    ensures MoreOf32(Padding(k) + tail, n, result) == MoreOf32(tail, n + k, result)
    decreases k
  {
    hide MoreOf32, BitPos, Joined;
    var b := Padding(k) + tail;
    if k == 0 {
      assert b == tail;
    } else {
      MoreUnfolds(b, n, result);
      NothingJoined(result, BitPos(n));
      assert b[0] == 128 && b[1..] == Padding(k - 1) + tail;
      PaddingIsRead(k - 1, tail, n + 1, result);
    }
  }

  lemma NothingJoined(result: nat, bitpos: nat)
    requires result < TWO32
    ensures Joined(result, 0, bitpos) == result
  {
    OrNothing(result);
    assert 0 * Pow2(bitpos) == 0;
  }

  lemma {:induction false} OrNothing(a: nat)
    ensures Or(a, 0) == a
  {
    if a > 0 {
      OrNothing(a / 2);
    }
  }

  /** A number may be padded to any length and is still read as itself. */
  lemma PaddedIsItself(v: nat, k: nat, rest: bytes)
    requires v < 128
    ensures DecodeVarint32([v + 128] + Padding(k) + [0] + rest) == Got(v, k + 2)
  {
    hide MoreOf32, BitPos, Joined, Padding;
    var b := [v + 128] + Padding(k) + [0] + rest;
    assert b[0] == v + 128 && b[1..] == Padding(k) + ([0] + rest);
    PaddingIsRead(k, [0] + rest, 1, v);
    MoreUnfolds([0] + rest, k + 1, v);
    NothingJoined(v, BitPos(k + 1));
  }

  /** But bits behind 36 bytes of padding come back in at the bottom, where the bit position has wrapped around. */
  lemma BitsWrapAround(d: nat, k: nat, rest: bytes)
    requires d < 128 && k == 36
    ensures DecodeVarint32([128] + Padding(k) + [d] + rest) == Got(8 * d, 38)
  {
    hide MoreOf32, BitPos, Joined, Padding;
    var b := [128] + Padding(k) + [d] + rest;
    assert b[0] == 128 && b[1..] == Padding(k) + ([d] + rest);
    PaddingIsRead(k, [d] + rest, 1, 0);
    MoreUnfolds([d] + rest, 37, 0);
    WrappedPlace(d);
  }

  lemma WrappedPlace(d: nat)
    requires d < 128
    ensures BitPos(37) == 3 && Joined(0, d, 3) == 8 * d
  {
    assert Pow2(3) == 8;
  }
}
