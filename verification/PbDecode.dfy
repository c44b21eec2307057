/** The decoder of nanopb (pb_decode.c): every operation on a stream proved against what the bytes mean. */
module PbDecode {
  import opened Coding
  import opened Options
  import opened PbWire
  import opened PbMessage
  import opened PbParse
  import opened PbRequired
  import opened PbIter

  class IStream {
    const buf: bytes
    var state: nat
    var bytesLeft: nat

    ghost predicate Valid()
      reads this
    {
      state + bytesLeft <= |buf|
    }

    /** The bytes this stream can still deliver. */
    ghost function Visible(): bytes
      requires Valid()
      reads this
    {
      buf[state..state + bytesLeft]
    }

    constructor (buf: bytes, state: nat, bytesLeft: nat)
      requires state + bytesLeft <= |buf|
      ensures Valid() && this.buf == buf && this.state == state && this.bytesLeft == bytesLeft
    {
      this.buf := buf;
      this.state := state;
      this.bytesLeft := bytesLeft;
    }

    /** The stream has moved on by `n` bytes and still ends where it did. */
    twostate predicate Advanced(n: nat)
      reads this
    {
      Valid() && state == old(state) + n && bytesLeft + n == old(bytesLeft)
    }

    method Read(count: nat) returns (ok: bool, b: bytes)
      requires Valid()
      modifies this
      ensures Valid() && (ok <==> count <= old(bytesLeft))
      ensures ok ==> Advanced(count) && b == old(Visible())[..count]
      ensures !ok ==> Advanced(0)
    {
      if bytesLeft < count {
        return false, [];
      }
      b := buf[state..state + count];
      state := state + count;
      bytesLeft := bytesLeft - count;
      return true, b;
    }

    method ReadByte() returns (ok: bool, b: byte)
      requires Valid()
      modifies this
      ensures Valid() && (ok <==> old(bytesLeft) > 0)
      ensures ok ==> Advanced(1) && b == old(Visible())[0]
      ensures !ok ==> Advanced(0)
    {
      if bytesLeft == 0 {
        return false, 0;
      }
      b := buf[state];
      state := state + 1;
      bytesLeft := bytesLeft - 1;
      return true, b;
    }

    /** pb_decode_varint32_eof. */
    method DecodeVarint32() returns (ok: bool, dest: nat, eof: bool)
      requires Valid()
      modifies this
      ensures Valid() && state + bytesLeft == old(state + bytesLeft)
      ensures var r := PbWire.DecodeVarint32(old(Visible()));
              && (ok <==> r.Got?) && (eof <==> r.EndOfStream?)
              && (r.Got? ==> dest == r.v && Advanced(r.length))
    {
      hide MoreOf32, BitPos;
      FirstBitPos();
      eof, dest := false, 0;
      var b;
      ok, b := ReadByte();
      if !ok {
        eof := true;
        return;
      }
      if b < 128 {
        dest := b;
        return;
      }
      var bitpos: nat, result: nat := 7, b % 128;
      ghost var n: nat := 1;
      assert Visible() == old(Visible())[1..];
      while true
        invariant Valid() && state == old(state) + n && bytesLeft + n == old(bytesLeft)
        invariant bitpos == BitPos(n) && n >= 1 && result < TWO32
        invariant PbWire.DecodeVarint32(old(Visible())) == MoreOf32(Visible(), n, result)
        decreases bytesLeft
      {
        var more;
        ok, result, more, b := NextOf32(bitpos, result, n);
        if !ok {
          return;
        }
        NextBitPos(n);
        bitpos := (bitpos + 7) % 256;
        n := n + 1;
        if !more {
          break;
        }
      }
      if bitpos == 35 && (b / 16) % 8 != 0 {
        ok := false;
        return;
      }
      dest := result;
    }

    /** pb_decode_varint: bits beyond the 64th are shifted out. */
    method DecodeVarint() returns (ok: bool, dest: nat)
      requires Valid()
      modifies this
      ensures Valid() && state + bytesLeft == old(state + bytesLeft)
      ensures var r := PbWire.DecodeVarint(old(Visible()));
              (ok <==> r.Some?) && (ok ==> dest == r.value.0 && Advanced(r.value.1))
    {
      hide ReadVarint, Pow128;
      dest := 0;
      var bitpos: nat, result: nat := 0, 0;
      ghost var low: nat, n: nat := 0, 0;
      var b := 128;
      NothingOf64(Visible());
      while b >= 128
        invariant Valid() && state == old(state) + n && bytesLeft + n == old(bytesLeft)
        invariant bitpos == 7 * n && n <= 10 && result == low % TWO64
        invariant b >= 128 ==> PbWire.DecodeVarint(old(Visible())) == Rest64(low, n, ReadVarint(Visible(), 10 - n))
        invariant b < 128 ==> PbWire.DecodeVarint(old(Visible())) == Some((result, n))
        decreases if b >= 128 then bytesLeft + 1 else 0
      {
        NextOf64(low, n, Visible());
        if bitpos >= 64 {
          return false, 0;
        }
        ok, b := ReadByte();
        if !ok {
          return;
        }
        AddBits(low, (b % 128) * Pow128(bitpos / 7));
        result := (result + (b % 128) * Pow128(bitpos / 7)) % TWO64;
        low := low + (b % 128) * Pow128(n);
        bitpos := bitpos + 7;
        n := n + 1;
      }
      return true, result;
    }

    /** One turn of the loop: `more` when the byte is not the last. */
    method NextOf32(bitpos: nat, result: nat, ghost n: nat) returns (ok: bool, result': nat, more: bool, b: byte)
      requires Valid() && bitpos == BitPos(n) && result < TWO32
      modifies this
      ensures Valid() && state + bytesLeft == old(state + bytesLeft) && result' < TWO32
      ensures ok ==> Advanced(1)
      ensures MoreOf32(old(Visible()), n, result)
              == (if !ok then Failed
                  else if more then MoreOf32(Visible(), n + 1, result')
                  else if bitpos == 28 && (b / 16) % 8 != 0 then Failed
                  else Got(result', n + 1))
    {
      hide MoreOf32, Joined, BitPos;
      MoreUnfolds(Visible(), n, result);
      result', more := result, false;
      ok, b := ReadByte();
      if !ok {
        return;
      }
      assert Visible() == old(Visible())[1..];
      more := b >= 128;
      if bitpos >= 32 {
        var signExtension := if bitpos < 63 then 0xff else 0x01;
        if b % 128 != 0 && (result < TWO31 || b != signExtension) {
          ok := false;
        }
      } else {
        result' := Joined(result, b % 128, bitpos);
      }
    }

    method DecodeTag() returns (ok: bool, wireType: nat, tag: nat, eof: bool)
      requires Valid()
      modifies this
      ensures Valid() && state + bytesLeft == old(state + bytesLeft)
      ensures var r := PbParse.DecodeTag(old(Visible()));
              && (ok <==> r.Tag?) && (!ok ==> (eof <==> r.End?))
              && (ok ==> wireType == r.wireType && tag == r.tag && Advanced(r.length))
    {
      wireType, tag := 0, 0;
      var temp;
      ok, temp, eof := DecodeVarint32();
      if !ok {
        return;
      }
      if temp == 0 {
        return false, 0, 0, true;
      }
      tag := temp / 8;
      wireType := temp % 8;
    }

    method SkipVarint() returns (ok: bool)
      requires Valid()
      modifies this
      ensures Valid() && state + bytesLeft == old(state + bytesLeft)
      ensures var r := PbParse.SkipVarint(old(Visible())); (ok <==> r.Some?) && (ok ==> Advanced(r.value))
    {
      var b := 128;
      ghost var n: nat := 0;
      assert Visible() == old(Visible())[0..];
      while b >= 128
        invariant Valid() && state == old(state) + n && bytesLeft + n == old(bytesLeft)
        invariant b >= 128 ==> PbParse.SkipVarint(old(Visible())) ==
                                 (match PbParse.SkipVarint(Visible()) case None => None case Some(k) => Some(n + k))
        invariant b < 128 ==> PbParse.SkipVarint(old(Visible())) == Some(n)
        decreases if b >= 128 then bytesLeft + 1 else 0
      {
        ghost var before := Visible();
        ok, b := ReadByte();
        if !ok {
          return;
        }
        assert Visible() == before[1..];
        n := n + 1;
      }
      return true;
    }

    method SkipField(wireType: nat) returns (ok: bool)
      requires Valid()
      modifies this
      ensures Valid() && state + bytesLeft == old(state + bytesLeft)
      ensures var r := PbParse.SkipField(old(Visible()), wireType); (ok <==> r.Some?) && (ok ==> Advanced(r.value))
    {
      hide PbWire.DecodeVarint32, PbParse.SkipVarint;
      var skipped;
      if wireType == WT_VARINT {
        ok := SkipVarint();
      } else if wireType == WT_64BIT {
        ok, skipped := Read(8);
      } else if wireType == WT_STRING {
        var length, eof;
        ok, length, eof := DecodeVarint32();
        if !ok {
          return;
        }
        ok, skipped := Read(length);
      } else if wireType == WT_32BIT {
        ok, skipped := Read(4);
      } else {
        ok := false;
      }
    }

    /** pb_make_string_substream: the substream starts where this one is and hides the rest; closing it
        moves this one past its end. */
    method MakeSubstream() returns (substream: IStream?)
      requires Valid()
      modifies this
      ensures Valid() && (substream == null ==> state + bytesLeft == old(state + bytesLeft))
      ensures var r := PbParse.MakeSubstream(old(Visible()));
              && (substream != null <==> r.Substream?)
              && (substream != null ==> fresh(substream) && substream.Valid() && substream.buf == buf
                                        && substream.Visible() == old(Visible())[r.start..r.start + r.size]
                                        && substream.state + substream.bytesLeft == old(state) + r.start + r.size
                                        && state == old(state) + r.start
                                          && bytesLeft + r.start + r.size == old(bytesLeft)
                                        && state + r.size + bytesLeft <= |buf|)
    {
      hide PbWire.DecodeVarint32;
      var ok, size, eof := DecodeVarint32();
      if !ok || bytesLeft < size {
        return null;
      }
      SliceOfSlice(buf, old(state), old(bytesLeft), state - old(state), size);
      substream := new IStream(buf, state, size);
      bytesLeft := bytesLeft - size;
    }

    method CloseSubstream(substream: IStream)
      requires Valid() && substream != this && substream.Valid() && substream.buf == buf
      requires substream.state + substream.bytesLeft + bytesLeft <= |buf|
      modifies this, substream
      ensures Valid() && state == old(substream.state + substream.bytesLeft) && bytesLeft == old(bytesLeft)
    {
      if substream.bytesLeft > 0 {
        var ok, skipped := substream.Read(substream.bytesLeft);
      }
      state := substream.state;
    }
  }

  lemma SliceOfSlice(b: bytes, from: nat, length: nat, start: nat, size: nat)
    requires from + length <= |b| && start + size <= length
    ensures b[from..from + length][start..start + size] == b[from + start..from + start + size]
  {
    var x, y := b[from..from + length][start..start + size], b[from + start..from + start + size];
    assert |x| == |y| && forall k :: 0 <= k < |x| ==> x[k] == y[k];
  }

  lemma FirstBitPos()
    ensures BitPos(1) == 7
  {
  }

  lemma NextBitPos(n: nat)
    ensures BitPos(n + 1) == (BitPos(n) + 7) % 256
    ensures BitPos(n + 1) == 35 <==> BitPos(n) == 28
  {
    var q, r := (7 * n) / 256, (7 * n) % 256;
    Around(q, r + 7);
    assert 7 * (n + 1) == 256 * q + (r + 7);
  }

  lemma Around(q: nat, x: nat)
    requires x < 512
    ensures (256 * q + x) % 256 == if x < 256 then x else x - 256
  {
    assert x < 256 ==> (256 * q + x) / 256 == q;
    assert x >= 256 ==> (256 * q + x) / 256 == q + 1;
  }

  /** What a 64-bit varint comes to when `low` has been read from its first `n` bytes. */
  function Rest64(low: nat, n: nat, r: Option<(nat, nat)>): Option<(nat, nat)>
  {
    match r
    case None => None
    case Some((v, k)) => Some(((low + Pow128(n) * v) % TWO64, n + k))
  }

  lemma NothingOf64(b: bytes)
    ensures PbWire.DecodeVarint(b) == Rest64(0, 0, ReadVarint(b, 10))
  {
    hide ReadVarint;
  }

  lemma AddBits(low: nat, bits: nat)
    ensures (low % TWO64 + bits) % TWO64 == (low + bits) % TWO64
  {
  }

  lemma NextOf64(low: nat, n: nat, b: bytes)
    requires n <= 10
    ensures n == 10 || b == [] ==> Rest64(low, n, ReadVarint(b, 10 - n)) == None
    ensures n < 10 && b != [] ==>
              Rest64(low, n, ReadVarint(b, 10 - n))
              == (if b[0] < 128 then Some(((low + (b[0] % 128) * Pow128(n)) % TWO64, n + 1))
                  else Rest64(low + (b[0] % 128) * Pow128(n), n + 1, ReadVarint(b[1..], 10 - n - 1)))
  {
    hide ReadVarint, Pow128;
    ReadVarintUnfolds(b, 10 - n);
    if n < 10 && b != [] {
      var p, d: nat := Pow128(n), b[0] % 128;
      if b[0] < 128 {
        MoreBits(p, d, 0);
      } else {
        var r := ReadVarint(b[1..], 10 - n - 1);
        NextPower(n);
        if r.Some? {
          MoreBits(p, d, r.value.0);
        }
      }
    }
  }

  lemma NextPower(n: nat)
    ensures Pow128(n + 1) == 128 * Pow128(n)
  {
  }

  lemma ReadVarintUnfolds(b: bytes, limit: nat)
    ensures ReadVarint(b, limit) ==
              (if limit == 0 || b == [] then None
               else if b[0] < 128 then Some((b[0] as nat, 1))
               else match ReadVarint(b[1..], limit - 1)
                 case None => None
                 case Some((v, n)) => Some((b[0] - 128 + 128 * v, n + 1)))
  {
  }

  lemma MoreBits(p: nat, d: nat, v: nat)
    ensures p * (d + 128 * v) == d * p + (128 * p) * v
  {
    assert p * (d + 128 * v) == p * d + p * (128 * v);
    assert p * (128 * v) == (128 * p) * v;
  }

  // ----- Fields and messages -----------------------------------------------------------

  /** The decoders of the scalar fields. */
  method DecScalar(stream: IStream, f: Field) returns (ok: bool, v: Value)
    requires stream.Valid() && !f.ltype.LSubmessage?
    modifies stream
    ensures stream.Valid() && stream.state + stream.bytesLeft == old(stream.state + stream.bytesLeft)
    ensures var r := ParseScalar(f, old(stream.Visible()));
            (ok <==> r.Some?) && (ok ==> v == r.value.0 && stream.Advanced(r.value.1))
  {
    hide PbWire.DecodeVarint32, PbWire.DecodeVarint, DecodeFixed, UnZigZag, ToSigned32, ToSigned64, FitsSigned,
         FitsUnsigned;
    v := Int(0);
    var u, b, eof;
    match f.ltype
    case LBool =>
      ok, u, eof := stream.DecodeVarint32();
      v := Int(if u != 0 then 1 else 0);
    case LVarint =>
      ok, u := stream.DecodeVarint();
      if !ok {
        return;
      }
      var svalue := if f.dataSize == 8 then ToSigned64(u) else ToSigned32(u);
      ok := FitsSigned(svalue, f.dataSize);
      v := Int(svalue);
    case LUVarint =>
      ok, u := stream.DecodeVarint();
      if !ok {
        return;
      }
      ok := FitsUnsigned(u, f.dataSize);
      v := Int(u);
    case LSVarint =>
      ok, u := stream.DecodeVarint();
      if !ok {
        return;
      }
      ok := FitsSigned(UnZigZag(u), f.dataSize);
      v := Int(UnZigZag(u));
    case LFixed32 =>
      ok, b := stream.Read(4);
      v := Int(DecodeFixed(b));
    case LFixed64 =>
      ok, b := stream.Read(8);
      v := Int(DecodeFixed(b));
    case LBytes | LString | LFixedLengthBytes =>
      ok, v := DecText(stream, f);
  }

  /** pb_dec_bytes, pb_dec_string and pb_dec_fixed_length_bytes. */
  method DecText(stream: IStream, f: Field) returns (ok: bool, v: Value)
    requires stream.Valid() && (f.ltype == LBytes || f.ltype == LString || f.ltype == LFixedLengthBytes)
    modifies stream
    ensures stream.Valid() && stream.state + stream.bytesLeft == old(stream.state + stream.bytesLeft)
    ensures var r := ParseScalar(f, old(stream.Visible()));
            (ok <==> r.Some?) && (ok ==> v == r.value.0 && stream.Advanced(r.value.1))
  {
    hide PbWire.DecodeVarint32, PbWire.DecodeVarint;
    v := Int(0);
    var size, eof, b;
    ok, size, eof := stream.DecodeVarint32();
    if !ok {
      return;
    }
    if f.ltype == LBytes {
      if size + BYTES_OFFSET > f.dataSize {
        return false, v;
      }
    } else if f.ltype == LString {
      if size + 1 > f.dataSize {
        return false, v;
      }
    } else {
      if size == 0 {
        return true, Raw(Zeros(f.dataSize));
      }
      if size != f.dataSize {
        return false, v;
      }
    }
    ok, b := stream.Read(size);
    v := Raw(b);
  }

  method DecValue(stream: IStream, f: Field, dest: Value) returns (ok: bool, v: Value)
    requires stream.Valid()
    modifies stream
    ensures stream.Valid() && stream.state + stream.bytesLeft <= old(stream.state + stream.bytesLeft)
    ensures ok ==> stream.state + stream.bytesLeft == old(stream.state + stream.bytesLeft)
    ensures var r := ParseValue(f, old(stream.Visible()), dest);
            (ok <==> r.Some?) && (ok ==> v == r.value.0 && stream.Advanced(r.value.1))
    decreases 1 + Depth(f.sub), 0, 0
  {
    hide ParseScalar, ParseMessage, Defaults, PbParse.MakeSubstream;
    if !f.ltype.LSubmessage? {
      ok, v := DecScalar(stream, f);
      return;
    }
    v := Int(0);
    var substream := stream.MakeSubstream();
    if substream == null {
      return false, v;
    }
    var m0 := if f.htype.HRepeated? || !dest.Sub? then Defaults(f.sub) else dest.m;
    var m;
    ok, m := DecodeNoinit(substream, f.sub, m0);
    stream.CloseSubstream(substream);
    v := Sub(m);
  }

  /** The items of a packed array, from a substream of their own. */
  method DecPacked(stream: IStream, f: Field, count0: nat, items0: seq<Value>)
    returns (ok: bool, count: nat, items: seq<Value>)
    requires stream.Valid() && Packable(f.ltype)
    modifies stream
    ensures stream.Valid() && stream.state + stream.bytesLeft <= old(stream.state + stream.bytesLeft)
    ensures ok ==> stream.state + stream.bytesLeft == old(stream.state + stream.bytesLeft)
    ensures var r := ParsePacked(f, old(stream.Visible()), count0, items0);
            (ok <==> r.Some?) && (ok ==> count == r.value.0 && items == r.value.1 && stream.bytesLeft == 0)
  {
    hide ParseScalar;
    count, items := count0, items0;
    while stream.bytesLeft > 0 && count < f.arraySize && count < |items|
      invariant stream.Valid() && stream.state + stream.bytesLeft == old(stream.state + stream.bytesLeft)
      invariant ParsePacked(f, old(stream.Visible()), count0, items0) == ParsePacked(f, stream.Visible(), count, items)
      decreases stream.bytesLeft
    {
      ghost var before := stream.Visible();
      var v;
      ok, v := DecScalar(stream, f);
      if !ok {
        return;
      }
      assert stream.Visible() == before[ParseScalar(f, before).value.1..];
      items := items[count := v];
      count := count + 1;
    }
    ok := stream.bytesLeft == 0;
  }

  /** decode_static_field. That the slot is of the other kind, or an array shorter than its field says,
      cannot happen to a message in memory. */
  method DecodeStaticField(stream: IStream, f: Field, wireType: nat, slot: Slot, which: map<nat, nat>)
    returns (ok: bool, slot': Slot, which': map<nat, nat>)
    requires stream.Valid()
    modifies stream
    ensures stream.Valid() && stream.state + stream.bytesLeft <= old(stream.state + stream.bytesLeft)
    ensures ok ==> stream.state + stream.bytesLeft == old(stream.state + stream.bytesLeft)
    ensures var r := ParseField(f, wireType, old(stream.Visible()), slot, which);
            (ok <==> r.Parsed?) && (ok ==> slot' == r.slot && which' == r.which && stream.Advanced(r.length))
    decreases 1 + Depth(f.sub), 1, 0
  {
    hide ParseValue, ParsePacked, PbParse.MakeSubstream, Defaults;
    ok, slot', which' := false, slot, which;
    var v;
    if f.htype.HRepeated? != slot.Many? {
      return;
    }
    if f.htype.HRequired? || f.htype.HOptional? {
      ok, v := DecValue(stream, f, slot.value);
      slot' := One(if f.htype == HOptional(true) then true else slot.has, v);
    } else if f.htype.HRepeated? {
      if wireType == WT_STRING && Packable(f.ltype) {
        var substream := stream.MakeSubstream();
        if substream == null {
          return;
        }
        var count, items;
        ok, count, items := DecPacked(substream, f, slot.count, slot.items);
        if !ok {
          return;
        }
        stream.CloseSubstream(substream);
        slot' := Many(count, items);
      } else {
        if slot.count >= f.arraySize || slot.count >= |slot.items| {
          return;
        }
        ok, v := DecValue(stream, f, slot.items[slot.count]);
        slot' := Many(slot.count + 1, slot.items[slot.count := v]);
      }
    } else {
      var active := if f.htype.union in which then which[f.htype.union] else 0;
      var dest := if f.ltype.LSubmessage? && active != f.tag then Sub(Defaults(f.sub)) else slot.value;
      which' := which[f.htype.union := f.tag];
      ok, v := DecValue(stream, f, dest);
      slot' := One(slot.has, v);
    }
  }

  ghost predicate Marks(fields: seq<Field>, words: seq<nat>, seen: set<nat>)
  {
    IsMask(words, seen) && forall k :: k in seen ==> k < RequiredBefore(fields, |fields|)
  }

  /** The bit of the field the iterator stands on. */
  method MarkField(iter: FieldIter, words: seq<nat>, ghost seen: set<nat>) returns (r: seq<nat>)
    requires iter.Valid() && iter.fields != [] && Marks(iter.fields, words, seen)
    ensures Marks(iter.fields, r, Seen(iter.fields, iter.pos, seen))
  {
    hide RequiredBefore, IsMask;
    r := words;
    if iter.fields[iter.pos].htype == HRequired && iter.requiredIndex < MAX_REQUIRED_FIELDS {
      IndexesDiffer(iter.fields, iter.pos, |iter.fields|);
      r := MarkSeen(words, iter.requiredIndex, seen);
    }
  }

  method CheckFields(iter: FieldIter, words: seq<nat>, ghost seen: set<nat>) returns (ok: bool)
    requires iter.Valid() && Marks(iter.fields, words, seen)
    modifies iter
    ensures ok <==> AllRequiredSeen(iter.fields, seen)
  {
    hide RequiredBefore, IsMask, AllRequiredSeen;
    var count := RequiredCount(iter);
    ok := CheckRequired(words, count, seen);
    TestMeansSeen(iter.fields, seen);
  }

  /** Where the members lie in memory plays no part here, as the slots of a message stand for them,
      except that every array has a count of its own. */
  function Anywhere(fields: seq<Field>): (r: seq<Place>)
    ensures |r| == |fields| && forall i :: 0 <= i < |r| ==> !r[i].extension
  {
    seq(|fields|, i => Place(Static, false, 0, -1))
  }

  /** The iterator's search is the one of the specification. */
  lemma {:induction false} FirstFrom(fields: seq<Field>, tag: nat, start: nat, pos: nat)
    requires start < |fields| && pos < |fields| && fields[pos].tag == tag
    requires forall i :: 0 <= i < |fields| && Between(start, i, pos) ==> fields[i].tag != tag
    ensures FindFrom(fields, tag, start) == pos
  {
    hide Find;
  }

  method FindField(iter: FieldIter, tag: nat) returns (found: bool)
    requires iter.Valid() && iter.places == Anywhere(iter.fields)
    modifies iter
    ensures iter.Valid()
    ensures var i := FindFrom(iter.fields, tag, old(iter.pos));
            if i < |iter.fields| then found && iter.pos == i else !found && iter.pos == old(iter.pos)
  {
    hide Find;
    var fields := iter.fields;
    ghost var start := iter.pos;
    found := iter.Find(tag);
    if found {
      assert forall i :: 0 <= i < |fields| && Between(start, i, iter.pos) ==> !Matches(fields, iter.places, i, tag);
      FirstFrom(fields, tag, start, iter.pos);
    } else {
      assert forall i :: 0 <= i < |fields| ==> (fields[i].tag == tag <==> Matches(fields, iter.places, i, tag));
    }
  }

  /** pb_decode_noinit: merges the fields of the stream into the message. */
  method DecodeNoinit(stream: IStream, fields: seq<Field>, m0: Message) returns (ok: bool, m: Message)
    requires stream.Valid()
    modifies stream
    ensures stream.Valid() && stream.state + stream.bytesLeft <= old(stream.state + stream.bytesLeft)
    ensures ok ==> stream.state + stream.bytesLeft == old(stream.state + stream.bytesLeft)
    ensures var r := ParseMessage(fields, old(stream.Visible()), m0, {}, 0); (ok <==> r.Some?) && (ok ==> m == r.value)
    decreases Depth(fields), 3, 0
  {
    hide ParseMessage, ParseField, PbParse.DecodeTag, PbParse.SkipField, AllRequiredSeen, RequiredBefore, FindFrom,
         Marks, Depth, Seen;
    m := m0;
    ghost var seen: set<nat> := {};
    var fieldsSeen := [0, 0];
    assert Marks(fields, fieldsSeen, seen) by { EmptyMask(fields); }
    var iter := new FieldIter(fields, Anywhere(fields), 0);
    while stream.bytesLeft > 0
      invariant stream.Valid() && stream.state + stream.bytesLeft == old(stream.state + stream.bytesLeft)
      invariant iter.Valid() && fresh(iter) && iter.fields == fields && iter.places == Anywhere(fields)
      invariant Marks(fields, fieldsSeen, seen)
      invariant ParseMessage(fields, old(stream.Visible()), m0, {}, 0)
                == ParseMessage(fields, stream.Visible(), m, seen, iter.pos)
      decreases stream.bytesLeft
    {
      ParseUnfolds(fields, stream.Visible(), m, seen, iter.pos);
      var wireType, tag, eof;
      ok, wireType, tag, eof := stream.DecodeTag();
      if !ok {
        if eof {
          ok := CheckFields(iter, fieldsSeen, seen);
        }
        return;
      }
      ok, m, fieldsSeen, seen := DecodeField(stream, iter, wireType, tag, m, fieldsSeen, seen);
      if !ok {
        return;
      }
    }
    ParseUnfolds(fields, stream.Visible(), m, seen, iter.pos);
    ok := CheckFields(iter, fieldsSeen, seen);
  }

  /** What the loop does with one field once its tag has been read. */
  method DecodeField(stream: IStream, iter: FieldIter, wireType: nat, tag: nat, m0: Message, words: seq<nat>,
      ghost seen0: set<nat>)
    returns (ok: bool, m: Message, fieldsSeen: seq<nat>, ghost seen: set<nat>)
    requires stream.Valid() && iter.Valid() && iter.places == Anywhere(iter.fields) && Marks(iter.fields, words, seen0)
    modifies stream, iter
    ensures stream.Valid() && stream.state + stream.bytesLeft <= old(stream.state + stream.bytesLeft)
    ensures iter.Valid() && (ok ==> stream.bytesLeft <= old(stream.bytesLeft))
    ensures ok ==>
            stream.state + stream.bytesLeft == old(stream.state + stream.bytesLeft)
            && Marks(iter.fields, fieldsSeen, seen)
    ensures AfterTag(iter.fields, wireType, tag, old(stream.Visible()), m0, seen0, old(iter.pos))
            == (if ok then ParseMessage(iter.fields, stream.Visible(), m, seen, iter.pos) else None)
    decreases Depth(iter.fields), 2, 0
  {
    hide ParseMessage, ParseField, PbParse.SkipField, RequiredBefore, FindFrom, Marks, Depth, Seen;
    m, fieldsSeen, seen := m0, words, seen0;
    var found := FindField(iter, tag);
    if !found {
      ok := stream.SkipField(wireType);
      return;
    }
    if iter.pos >= |m.slots| {
      return false, m, fieldsSeen, seen;
    }
    fieldsSeen := MarkField(iter, words, seen0);
    seen := Seen(iter.fields, iter.pos, seen0);
    DepthOfField(iter.fields, iter.pos);
    var slot, which;
    ok, slot, which := DecodeStaticField(stream, iter.fields[iter.pos], wireType, m.slots[iter.pos], m.which);
    if ok {
      m := Message(m.slots[iter.pos := slot], which);
    }
  }

  ghost function AfterTag(fields: seq<Field>, wireType: nat, tag: nat, b: bytes, m: Message, seen: set<nat>,
      pos: nat): Option<Message>
    requires pos <= |fields|
  {
    var i := FindFrom(fields, tag, pos);
    if i == |fields| then
      var k := PbParse.SkipField(b, wireType);
      if k == None then None else ParseMessage(fields, b[k.value..], m, seen, pos)
    else if i >= |m.slots| then None
    else
      var p := ParseField(fields[i], wireType, b, m.slots[i], m.which);
      if p.Malformed? then None
      else ParseMessage(fields, b[p.length..], Message(m.slots[i := p.slot], p.which), Seen(fields, i, seen), i)
  }

  lemma {:induction false} EmptyMask(fields: seq<Field>)
    ensures Marks(fields, [0, 0], {})
  {
    hide Word;
    EmptyWord(0, 32);
    EmptyWord(32, 32);
  }

  lemma {:induction false} EmptyWord(from: nat, n: nat)
    ensures Word({}, from, n) == 0
  {
    if n > 0 {
      EmptyWord(from, n - 1);
    }
  }

  lemma {:induction false} ParseUnfolds(fields: seq<Field>, b: bytes, m: Message, seen: set<nat>, pos: nat)
    requires pos <= |fields|
    ensures ParseMessage(fields, b, m, seen, pos) ==
              (if b == [] then (if AllRequiredSeen(fields, seen) then Some(m) else None)
               else
                 var t := PbParse.DecodeTag(b);
                 if t.BadTag? then None
                 else if t.End? then (if AllRequiredSeen(fields, seen) then Some(m) else None)
                 else AfterTag(fields, t.wireType, t.tag, b[t.length..], m, seen, pos))
  {
    hide ParseField, PbParse.DecodeTag, PbParse.SkipField, AllRequiredSeen, RequiredBefore, FindFrom, Depth, Seen;
    if b != [] && PbParse.DecodeTag(b).Tag? {
      var n := PbParse.DecodeTag(b).length;
      assert forall k: nat :: n + k <= |b| ==> b[n..][k..] == b[n + k..];
    }
  }

  /** pb_decode: sets the defaults first. */
  method Decode(stream: IStream, fields: seq<Field>) returns (ok: bool, m: Message)
    requires stream.Valid()
    modifies stream
    ensures var r := ParseMessage(fields, old(stream.Visible()), Defaults(fields), {}, 0);
            (ok <==> r.Some?) && (ok ==> m == r.value)
  {
    hide Defaults, ParseMessage;
    ok, m := DecodeNoinit(stream, fields, Defaults(fields));
  }
}
