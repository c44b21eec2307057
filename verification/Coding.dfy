/** Byte-level encodings shared by the log, the write batch and the memtable (util/coding.cc,
    util/crc32c.h). */
module Coding {
  import opened Options

  type byte = x: int | 0 <= x < 256
  type bytes = seq<byte>
  type uint32 = x: int | 0 <= x < 0x1_0000_0000

  function Zeros(n: nat): (r: bytes)
    ensures |r| == n
  {
    seq(n, i => 0)
  }

  // ----- Little-endian fixed-width integers --------------------------------------------

  function Pow256(n: nat): (r: nat)
    ensures r > 0
  {
    if n == 0 then 1 else 256 * Pow256(n - 1)
  }

  lemma Pow256Of4()
    ensures Pow256(4) == 0x1_0000_0000
  {
    assert Pow256(4) == 256 * 256 * 256 * 256;
  }

  lemma Pow256Of8()
    ensures Pow256(8) == 0x1_0000_0000_0000_0000
  {
    assert Pow256(8) == 256 * 256 * 256 * 256 * Pow256(4);
    Pow256Of4();
  }

  function EncodeFixed(v: nat, n: nat): (r: bytes)
    ensures |r| == n
  {
    if n == 0 then [] else [v % 256] + EncodeFixed(v / 256, n - 1)
  }

  function DecodeFixed(b: bytes): (r: nat)
  {
    if b == [] then 0 else b[0] + 256 * DecodeFixed(b[1..])
  }

  lemma {:induction false} FixedRoundTrip(v: nat, n: nat)
    requires v < Pow256(n)
    ensures DecodeFixed(EncodeFixed(v, n)) == v
  {
    if n > 0 {
      FixedRoundTrip(v / 256, n - 1);
      assert EncodeFixed(v, n)[1..] == EncodeFixed(v / 256, n - 1);
    }
  }

  lemma {:induction false} FixedRoundTripBack(b: bytes)
    ensures DecodeFixed(b) < Pow256(|b|) && EncodeFixed(DecodeFixed(b), |b|) == b
  {
    if b != [] {
      FixedRoundTripBack(b[1..]);
      var d, lo: nat := DecodeFixed(b[1..]), b[0];
      assert (lo + 256 * d) % 256 == lo && (lo + 256 * d) / 256 == d;
      assert b == [b[0]] + b[1..];
    }
  }

  /** The bytes go from the least significant to the most significant. */
  lemma {:induction false} FixedIsLittleEndian(v: nat, n: nat, i: nat)
    requires i < n
    ensures EncodeFixed(v, n)[i] == (v / Pow256(i)) % 256
  {
    if i > 0 {
      FixedIsLittleEndian(v / 256, n - 1, i - 1);
      DivideTwice(v, 256, Pow256(i - 1));
    }
  }

  lemma DivideTwice(v: nat, a: nat, b: nat)
    requires a > 0 && b > 0
    ensures a * b > 0 && v / a / b == v / (a * b)
  {
    var w := v / a;
    Parts(v, a);
    Parts(w, b);
    Combined(v, a, b, w, v % a, w / b, w % b);
  }

  lemma Parts(v: nat, d: nat)
    requires d > 0
    ensures v == d * (v / d) + v % d && v % d < d
  {
  }

  lemma Combined(v: nat, a: nat, b: nat, w: nat, s: nat, q: nat, r: nat)
    requires v == a * w + s && w == b * q + r && r < b && s < a
    ensures a * b > 0 && v / (a * b) == q
  {
    Regroup(a, b, q, r);
    SmallRemainder(a, b, r, s);
    Quotient(v, a * b, q, a * r + s);
  }

  lemma Regroup(a: nat, b: nat, q: nat, r: nat)
    ensures a * (q * b + r) == q * (a * b) + a * r
  {
    assert a * (q * b + r) == a * (q * b) + a * r;
    assert a * (q * b) == q * (a * b);
  }

  lemma SmallRemainder(a: nat, b: nat, r: nat, s: nat)
    requires r < b && s < a
    ensures 0 < a * b && a * r + s < a * b
  {
    TimesGrows(r + 1, b, a);
    assert (r + 1) * a == a * r + a && b * a == a * b;
  }

  lemma Quotient(v: nat, d: nat, q: nat, low: nat)
    requires d > 0 && low < d && v == q * d + low
    ensures v / d == q
  {
    TimesGrows(q + 1, v / d, d);
    TimesGrows(v / d + 1, q, d);
  }

  lemma TimesGrows(a: nat, b: nat, d: nat)
    ensures a <= b ==> a * d <= b * d
  {
  }

  // ----- Varints -----------------------------------------------------------------------

  /** Base-128 varint: seven bits a byte, least significant first, high bit on all but the last. */
  function EncodeVarint(v: nat): (r: bytes)
    ensures |r| >= 1
  {
    if v < 128 then [v] else [v % 128 + 128] + EncodeVarint(v / 128)
  }

  /** Reads at most `limit` bytes: the accumulated value and the number of bytes read. */
  function ReadVarint(b: bytes, limit: nat): (r: Option<(nat, nat)>)
    ensures r.Some? ==> 1 <= r.value.1 <= |b| && r.value.1 <= limit
  {
    if limit == 0 || b == [] then None
    else if b[0] < 128 then Some((b[0], 1))
    else match ReadVarint(b[1..], limit - 1)
      case None => None
      case Some((v, n)) => Some((b[0] - 128 + 128 * v, n + 1))
  }

  function Pow128(n: nat): (r: nat)
    ensures r > 0
  {
    if n == 0 then 1 else 128 * Pow128(n - 1)
  }

  lemma {:induction false} VarintRoundTrip(v: nat, limit: nat, rest: bytes)
    requires limit > 0 && v < Pow128(limit)
    ensures |EncodeVarint(v)| <= limit
    ensures ReadVarint(EncodeVarint(v) + rest, limit) == Some((v, |EncodeVarint(v)|))
  {
    var e := EncodeVarint(v);
    if v >= 128 {
      assert Pow128(1) == 128 * Pow128(0);
      VarintRoundTrip(v / 128, limit - 1, rest);
      assert (e + rest)[1..] == EncodeVarint(v / 128) + rest;
    }
  }

  /** A proper prefix of an encoded varint is not a varint. */
  lemma {:induction false} VarintPrefixFree(v: nat, limit: nat, n: nat)
    requires n < |EncodeVarint(v)|
    ensures ReadVarint(EncodeVarint(v)[..n], limit) == None
  {
    var e, b := EncodeVarint(v), EncodeVarint(v)[..n];
    if n > 0 && limit > 0 {
      assert v >= 128 && e == [v % 128 + 128] + EncodeVarint(v / 128);
      assert b[0] == e[0] && b[1..] == EncodeVarint(v / 128)[..n - 1];
      VarintPrefixFree(v / 128, limit - 1, n - 1);
    }
  }

  /** Seven bits a byte, the least significant first; all but the last byte have the top bit, and the last byte is
      not zero unless it is the only one. */
  lemma {:induction false} VarintIsSevenBits(v: nat, i: nat)
    requires i < |EncodeVarint(v)|
    ensures var e := EncodeVarint(v);
            && e[i] == (v / Pow128(i)) % 128 + (if i < |e| - 1 then 128 else 0)
            && (i == |e| - 1 && i > 0 ==> e[i] != 0)
  {
    if v >= 128 && i > 0 {
      VarintIsSevenBits(v / 128, i - 1);
      DivideTwice(v, 128, Pow128(i - 1));
    }
  }

  /** On any bytes: a number ends with the first byte below 128, and there is none if that is not among the first
      `limit`. */
  lemma {:induction false} VarintEnds(b: bytes, limit: nat)
    ensures ReadVarint(b, limit) == None <==> forall i :: 0 <= i < |b| && i < limit ==> b[i] >= 128
    ensures ReadVarint(b, limit).Some? ==>
              var (v, n) := ReadVarint(b, limit).value;
              v < Pow128(n) && b[n - 1] < 128 && forall i :: 0 <= i < n - 1 ==> b[i] >= 128
    decreases limit
  {
    if limit > 0 && b != [] && b[0] >= 128 {
      VarintEnds(b[1..], limit - 1);
      forall i | 1 <= i < |b|
        ensures b[i] == b[1..][i - 1]
      {
      }
    }
  }

  /** And each of its bytes has seven bits of it, the least significant ones first. */
  lemma {:induction false} VarintDigits(b: bytes, limit: nat, i: nat)
    requires ReadVarint(b, limit).Some? && i < ReadVarint(b, limit).value.1
    ensures (ReadVarint(b, limit).value.0 / Pow128(i)) % 128 == b[i] % 128
    decreases limit
  {
    hide Pow128;
    var v := ReadVarint(b, limit).value.0;
    FirstDigit(b, limit);
    Pow128Step(i);
    if i > 0 {
      VarintDigits(b[1..], limit - 1, i - 1);
      DivideTwice(v, 128, Pow128(i - 1));
    }
  }

  lemma FirstDigit(b: bytes, limit: nat)
    requires ReadVarint(b, limit).Some?
    ensures var (v, n) := ReadVarint(b, limit).value;
            && v % 128 == b[0] % 128
            && (n > 1 ==> ReadVarint(b[1..], limit - 1) == Some((v / 128, n - 1)))
  {
  }

  lemma Pow128Step(i: nat)
    ensures Pow128(0) == 1 && (i > 0 ==> Pow128(i) == 128 * Pow128(i - 1))
  {
  }

  /** GetVarint32: five bytes at most, bits above 32 fall off the end of the fifth. */
  function GetVarint32(b: bytes): (r: Option<(uint32, nat)>)
    ensures r.Some? ==> 1 <= r.value.1 <= |b|
  {
    match ReadVarint(b, 5)
    case None => None
    case Some((v, n)) => Some((v % 0x1_0000_0000, n))
  }

  lemma FiveAtMost(b: bytes)
    ensures GetVarint32(b) == None <==> forall i :: 0 <= i < |b| && i < 5 ==> b[i] >= 128
  {
    VarintEnds(b, 5);
  }

  function PutLengthPrefixed(s: bytes): bytes
  {
    EncodeVarint(|s|) + s
  }

  function GetLengthPrefixed(b: bytes): (r: Option<(bytes, nat)>)
    ensures r.Some? ==> 1 <= r.value.1 <= |b|
  {
    match GetVarint32(b)
    case None => None
    case Some((len, n)) => if |b| - n >= len then Some((b[n..n + len], n + len)) else None
  }

  lemma LengthPrefixedRoundTrip(s: bytes, rest: bytes)
    requires |s| < 0x1_0000_0000
    ensures GetLengthPrefixed(PutLengthPrefixed(s) + rest) == Some((s, |PutLengthPrefixed(s)|))
  {
    assert Pow128(5) == 128 * 128 * 128 * 128 * 128;
    VarintRoundTrip(|s|, 5, s + rest);
    assert PutLengthPrefixed(s) + rest == EncodeVarint(|s|) + (s + rest);
  }

  // ----- CRC ---------------------------------------------------------------------------

  /** A checksum that consumes a string byte by byte. CRC32C is one: its initial and final
      complement cancel between consecutive calls of Extend. */
  type CrcStep = (uint32, byte) -> uint32

  function Extend(step: CrcStep, crc: uint32, data: bytes): uint32
    decreases data
  {
    if data == [] then crc else Extend(step, step(crc, data[0]), data[1..])
  }

  function Crc(step: CrcStep, data: bytes): uint32
  {
    Extend(step, 0, data)
  }

  lemma {:induction false} ExtendConcat(step: CrcStep, crc: uint32, a: bytes, b: bytes)
    ensures Extend(step, crc, a + b) == Extend(step, Extend(step, crc, a), b)
    decreases a
  {
    if a == [] {
      assert a + b == b;
    } else {
      ExtendConcat(step, step(crc, a[0]), a[1..], b);
      assert (a + b)[1..] == a[1..] + b;
    }
  }

  const MASK_DELTA: uint32 := 0xa282ead8

  /** Rotate right by 15 bits and add a constant. */
  function Mask(crc: uint32): uint32
  {
    (crc / 0x8000 + (crc % 0x8000) * 0x2_0000 + MASK_DELTA) % 0x1_0000_0000
  }

  function Unmask(masked: uint32): uint32
  {
    var rot := (masked - MASK_DELTA) % 0x1_0000_0000;
    rot / 0x2_0000 + (rot % 0x2_0000) * 0x8000
  }

  /** The low fifteen bits come to the top. */
  lemma MaskIs(hi: nat, lo: nat)
    requires hi < 0x2_0000 && lo < 0x8000
    ensures hi * 0x8000 + lo < 0x1_0000_0000
    ensures Mask(hi * 0x8000 + lo) == (lo * 0x2_0000 + hi + 0xa282ead8) % 0x1_0000_0000
  {
    assert (hi * 0x8000 + lo) / 0x8000 == hi && (hi * 0x8000 + lo) % 0x8000 == lo;
  }

  lemma AddThenSubtract(r: nat, d: nat)
    requires r < 0x1_0000_0000 && d < 0x1_0000_0000
    ensures ((r + d) % 0x1_0000_0000 - d) % 0x1_0000_0000 == r
  {
    if r + d < 0x1_0000_0000 {
      assert (r + d) % 0x1_0000_0000 == r + d;
    } else {
      assert (r + d) % 0x1_0000_0000 == r + d - 0x1_0000_0000;
      assert (r - 0x1_0000_0000) % 0x1_0000_0000 == r;
    }
  }

  lemma RotateBack(hi: nat, lo: nat)
    requires hi < 0x2_0000 && lo < 0x8000
    ensures (hi + lo * 0x2_0000) / 0x2_0000 == lo && (hi + lo * 0x2_0000) % 0x2_0000 == hi
  {
  }

  lemma UnmaskMask(crc: uint32)
    ensures Unmask(Mask(crc)) == crc
  {
    var hi, lo := crc / 0x8000, crc % 0x8000;
    AddThenSubtract(hi + lo * 0x2_0000, MASK_DELTA);
    RotateBack(hi, lo);
  }
}
