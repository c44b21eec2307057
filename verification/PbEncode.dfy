/** The encoder of nanopb (pb_encode.c): every operation proved against the bytes of the message, for
    streams that write and for streams that only count. */
module PbEncode {
  import opened Coding
  import opened Options
  import opened PbWire
  import opened PbMessage

  // ----- Stored messages ---------------------------------------------------------------

  /** What the memory of a field can hold. */
  predicate StoredValue(f: Field, v: Value)
    decreases 1 + Depth(f.sub), 0
  {
    match f.ltype
    case LBool => v.Int?
    case LVarint | LSVarint => v.Int? && (IsIntSize(f.dataSize) ==> FitsSigned(v.v, f.dataSize))
    case LUVarint => v.Int? && (IsIntSize(f.dataSize) ==> FitsUnsigned(v.v, f.dataSize))
    case LFixed32 => v.Int? && FitsUnsigned(v.v, 4)
    case LFixed64 => v.Int? && FitsUnsigned(v.v, 8)
    case LBytes => v.Raw?
    case LString => v.Raw? && |v.b| <= f.dataSize
    case LFixedLengthBytes => v.Raw? && |v.b| == f.dataSize
    case LSubmessage => v.Sub? && Stored(f.sub, v.m)
  }

  /** A repeated field has room for `arraySize` items; its count may say anything. */
  predicate StoredSlot(f: Field, slot: Slot)
    decreases 1 + Depth(f.sub), 1
  {
    if f.htype.HRepeated? then slot.Many? && |slot.items| == f.arraySize && forall i :: 0 <= i < |slot.items| ==>
      StoredValue(f, slot.items[i])
    else slot.One? && StoredValue(f, slot.value)
  }

  predicate Stored(fields: seq<Field>, m: Message)
    decreases Depth(fields), 2
  {
    && |m.slots| == |fields|
    && forall i :: 0 <= i < |fields| ==> (DepthOfField(fields, i); StoredSlot(fields[i], m.slots[i]))
  }

  // ----- Streams -----------------------------------------------------------------------

  /** What an operation does that produces `s`, or ends in an error when `s` is None: it succeeds if and
      only if there is something to produce and room for it. `out0` and `n0` are the output and the count
      before, `out1` and `n1` after. */
  ghost predicate Emits(sizing: bool, maxSize: nat, out0: bytes, n0: nat, s: Option<bytes>, ok: bool, out1: bytes,
      n1: nat)
  {
    && (!sizing ==> n0 <= maxSize && n1 <= maxSize)
    && (ok <==> s.Some? && (sizing || n0 + |s.value| <= maxSize))
    && (ok ==> n1 == n0 + |s.value| && out1 == out0 + (if sizing then [] else s.value))
  }

  lemma EmitsBoth(sizing: bool, maxSize: nat, out0: bytes, n0: nat, s: Option<bytes>, out1: bytes, n1: nat,
                  t: Option<bytes>, ok: bool, out2: bytes, n2: nat)
    requires Emits(sizing, maxSize, out0, n0, s, true, out1, n1) && Emits(sizing, maxSize, out1, n1, t, ok, out2, n2)
    ensures Emits(sizing, maxSize, out0, n0, Append(s, t), ok, out2, n2)
  {
    if ok && !sizing {
      assert out0 + s.value + t.value == out0 + (s.value + t.value);
    }
  }

  lemma EmitsNeither(sizing: bool, maxSize: nat, out0: bytes, n0: nat, s: Option<bytes>, out1: bytes, n1: nat,
      t: Option<bytes>)
    requires Emits(sizing, maxSize, out0, n0, s, false, out1, n1)
    ensures Emits(sizing, maxSize, out0, n0, Append(s, t), false, out1, n1)
  {
  }

  lemma EmitsNothing(sizing: bool, maxSize: nat, out: bytes, n: nat)
    requires !sizing ==> n <= maxSize
    ensures Emits(sizing, maxSize, out, n, Some([]), true, out, n)
    ensures Emits(sizing, maxSize, out, n, None, false, out, n)
  {
    assert out + [] == out;
  }

  class OStream {
    // A sizing stream has no callback: it counts and writes nothing.
    const sizing: bool
    const maxSize: nat
    var out: bytes
    var bytesWritten: nat

    ghost predicate Valid()
      reads this
    {
      !sizing ==> bytesWritten <= maxSize
    }

    ghost predicate Emitted(out0: bytes, n0: nat, s: Option<bytes>, ok: bool)
      reads this
    {
      Emits(sizing, maxSize, out0, n0, s, ok, out, bytesWritten)
    }

    constructor (sizing: bool, maxSize: nat, out: bytes)
      ensures Valid() && this.sizing == sizing && this.maxSize == maxSize && this.out == out && bytesWritten == 0
    {
      this.sizing := sizing;
      this.maxSize := maxSize;
      this.out := out;
      bytesWritten := 0;
    }

    method Write(b: bytes) returns (ok: bool)
      requires Valid()
      modifies this
      ensures Valid() && Emitted(old(out), old(bytesWritten), Some(b), ok)
    {
      if |b| > 0 && !sizing {
        if bytesWritten + |b| > maxSize {
          return false;
        }
        out := out + b;
      }
      bytesWritten := bytesWritten + |b|;
      assert old(out) + [] == old(out);
      return true;
    }

    /** pb_encode_varint: seven bits at a time into a buffer, the top bit cleared on the last. */
    method EncodeVarint(value: nat) returns (ok: bool)
      requires Valid()
      modifies this
      ensures Valid() && Emitted(old(out), old(bytesWritten), Some(Coding.EncodeVarint(value)), ok)
    {
      hide Coding.EncodeVarint, Emits;
      VarintUnfolds(value);
      if value <= 0x7f {
        ok := Write([value]);
        return;
      }
      var buffer: bytes := [];
      var v := value;
      assert buffer + Coding.EncodeVarint(v) == Coding.EncodeVarint(v);
      while v != 0
        modifies {}
        invariant v == 0 ==> buffer != [] && buffer[|buffer| - 1] >= 128
        invariant Coding.EncodeVarint(value) ==
                    (if v == 0 then buffer[..|buffer| - 1] + [buffer[|buffer| - 1] - 128]
                      else buffer + Coding.EncodeVarint(v))
      {
        VarintStep(buffer, v);
        buffer := buffer + [v % 128 + 128];
        v := v / 128;
      }
      buffer := buffer[..|buffer| - 1] + [buffer[|buffer| - 1] - 128];
      ok := Write(buffer);
    }

    method EncodeTag(wireType: nat, tag: nat) returns (ok: bool)
      requires Valid()
      modifies this
      ensures Valid() && Emitted(old(out), old(bytesWritten), Some(TagBytes(wireType, tag)), ok)
    {
      ok := EncodeVarint(tag * 8 + wireType);
    }

    method EncodeString(b: bytes) returns (ok: bool)
      requires Valid()
      modifies this
      ensures Valid() && Emitted(old(out), old(bytesWritten), Some(StringBytes(b)), ok)
    {
      hide Coding.EncodeVarint, Emits;
      ghost var out0, n0 := out, bytesWritten;
      ok := EncodeVarint(|b|);
      ghost var out1, n1 := out, bytesWritten;
      if !ok {
        EmitsNeither(sizing, maxSize, out0, n0, Some(Coding.EncodeVarint(|b|)), out1, n1, Some(b));
        return;
      }
      ok := Write(b);
      EmitsBoth(sizing, maxSize, out0, n0, Some(Coding.EncodeVarint(|b|)), out1, n1, Some(b), ok, out, bytesWritten);
    }

    /** pb_enc_string: the length is found by scanning for the terminator. */
    method EncodeCString(f: Field, b: bytes) returns (ok: bool)
      requires Valid() && |b| <= f.dataSize
      modifies this
      ensures Valid() && Emitted(old(out), old(bytesWritten), Some(StringBytes(CString(b))), ok)
    {
      var size := 0;
      while size < |b| && b[size] != 0
        modifies {}
        invariant 0 <= size <= |b| && 0 !in b[..size]
      {
        size := size + 1;
      }
      ScannedString(b, size);
      ok := EncodeString(b[..size]);
    }
  }

  lemma {:induction false} ScannedString(b: bytes, size: nat)
    requires size <= |b| && 0 !in b[..size] && (size < |b| ==> b[size] == 0)
    ensures CString(b) == b[..size]
  {
    if size > 0 {
      assert b[0] == b[..size][0] && b[1..][..size - 1] == b[..size][1..];
      ScannedString(b[1..], size - 1);
    }
  }

  lemma VarintUnfolds(v: nat)
    ensures Coding.EncodeVarint(v) == (if v < 128 then [v] else [v % 128 + 128] + Coding.EncodeVarint(v / 128))
  {
  }

  lemma VarintStep(buffer: bytes, v: nat)
    requires v != 0
    ensures var more := buffer + [v % 128 + 128];
            && more[..|more| - 1] == buffer && more[|more| - 1] == v % 128 + 128
            && buffer + Coding.EncodeVarint(v) ==
                 (if v / 128 == 0 then buffer + [v % 128] else more + Coding.EncodeVarint(v / 128))
  {
    VarintUnfolds(v);
    hide Coding.EncodeVarint;
    if v >= 128 {
      assert buffer + ([v % 128 + 128] + Coding.EncodeVarint(v / 128)) == buffer + [v % 128 + 128]
        + Coding.EncodeVarint(v / 128);
    }
  }

  // ----- Items and arrays --------------------------------------------------------------

  /** If the beginning cannot be produced, neither can the whole. */
  lemma EmitsShort(sizing: bool, maxSize: nat, out0: bytes, n0: nat, s: Option<bytes>, out1: bytes, n1: nat,
      t: Option<bytes>)
    requires Emits(sizing, maxSize, out0, n0, s, false, out1, n1)
    requires t.Some? ==> s.Some? && |s.value| <= |t.value|
    ensures Emits(sizing, maxSize, out0, n0, t, false, out1, n1)
  {
  }

  lemma {:induction false} ItemsGrow(f: Field, items: seq<Value>, i: nat, n: nat, tagged: bool)
    requires i <= n <= |items|
    ensures ItemBytes(f, items, n, tagged).Some? ==>
              ItemBytes(f, items, i, tagged).Some?
                && |ItemBytes(f, items, i, tagged).value| <= |ItemBytes(f, items, n, tagged).value|
    decreases n
  {
    hide ValueBytes;
    if i < n {
      ItemsGrow(f, items, i, n - 1, tagged);
    }
  }

  lemma ItemsUnfold(f: Field, items: seq<Value>, i: nat, tagged: bool)
    requires i < |items|
    ensures ItemBytes(f, items, i + 1, tagged)
            == Append(ItemBytes(f, items, i, tagged),
                      if tagged then TaggedBytes(f, items[i]) else ValueBytes(f, items[i]))
  {
    hide ValueBytes;
    var v := ValueBytes(f, items[i]);
    assert v.Some? ==> [] + v.value == v.value;
  }

  /** pb_encode_tag_for_field and the field encoder. */
  method EncodeTaggedValue(stream: OStream, f: Field, v: Value) returns (ok: bool)
    requires stream.Valid() && StoredValue(f, v)
    modifies stream
    ensures stream.Valid() && stream.Emitted(old(stream.out), old(stream.bytesWritten), TaggedBytes(f, v), ok)
    decreases 1 + Depth(f.sub), 1, 0
  {
    hide ValueBytes, TagBytes, Emits, StoredValue;
    ghost var out0, n0, tag := stream.out, stream.bytesWritten, Some(TagBytes(WireType(f.ltype), f.tag));
    ok := stream.EncodeTag(WireType(f.ltype), f.tag);
    ghost var out1, n1 := stream.out, stream.bytesWritten;
    if !ok {
      EmitsNeither(stream.sizing, stream.maxSize, out0, n0, tag, out1, n1, ValueBytes(f, v));
      return;
    }
    ok := EncodeValue(stream, f, v);
    EmitsBoth(stream.sizing, stream.maxSize, out0, n0, tag, out1, n1, ValueBytes(f, v), ok, stream.out,
      stream.bytesWritten);
  }

  method EncodeItems(stream: OStream, f: Field, items: seq<Value>, count: nat, tagged: bool) returns (ok: bool)
    requires stream.Valid() && count <= |items| && forall i :: 0 <= i < |items| ==> StoredValue(f, items[i])
    modifies stream
    ensures stream.Valid()
            && stream.Emitted(old(stream.out), old(stream.bytesWritten), ItemBytes(f, items, count, tagged), ok)
    decreases 1 + Depth(f.sub), 2, 0
  {
    hide ValueBytes, TaggedBytes, ItemBytes, Emits, StoredValue;
    ghost var out0, n0 := stream.out, stream.bytesWritten;
    NoItems(f, items, tagged);
    EmitsNothing(stream.sizing, stream.maxSize, out0, n0);
    for i := 0 to count
      invariant stream.Valid()
      invariant stream.Emitted(out0, n0, ItemBytes(f, items, i, tagged), true)
    {
      ghost var out1, n1 := stream.out, stream.bytesWritten;
      ItemsUnfold(f, items, i, tagged);
      if tagged {
        ok := EncodeTaggedValue(stream, f, items[i]);
      } else {
        ok := EncodeValue(stream, f, items[i]);
      }
      EmitsBoth(stream.sizing, stream.maxSize, out0, n0, ItemBytes(f, items, i, tagged), out1, n1,
                if tagged then TaggedBytes(f, items[i])
                  else ValueBytes(f, items[i]), ok, stream.out, stream.bytesWritten);
      if !ok {
        ItemsGrow(f, items, i + 1, count, tagged);
        EmitsShort(stream.sizing, stream.maxSize, out0, n0, ItemBytes(f, items, i + 1, tagged), stream.out,
          stream.bytesWritten,
                   ItemBytes(f, items, count, tagged));
        return;
      }
    }
    return true;
  }

  lemma NoItems(f: Field, items: seq<Value>, tagged: bool)
    ensures ItemBytes(f, items, 0, tagged) == Some([])
  {
  }

  // ----- Values and submessages --------------------------------------------------------

  method EncodeScalar(stream: OStream, f: Field, v: Value) returns (ok: bool)
    requires stream.Valid() && StoredValue(f, v) && !f.ltype.LSubmessage?
    modifies stream
    ensures stream.Valid() && stream.Emitted(old(stream.out), old(stream.bytesWritten), ValueBytes(f, v), ok)
  {
    EmitsNothing(stream.sizing, stream.maxSize, stream.out, stream.bytesWritten);
    hide Emits, StringBytes, Coding.EncodeVarint, EncodeFixed, CString, ToUnsigned64, ZigZag;
    match f.ltype
    case LBool =>
      ok := stream.EncodeVarint(if v.v != 0 then 1 else 0);
    case LVarint =>
      if !IsIntSize(f.dataSize) {
        return false;
      }
      ok := stream.EncodeVarint(ToUnsigned64(v.v));
    case LUVarint =>
      if !IsIntSize(f.dataSize) {
        return false;
      }
      ok := stream.EncodeVarint(v.v);
    case LSVarint =>
      if !IsIntSize(f.dataSize) {
        return false;
      }
      ok := stream.EncodeVarint(ZigZag(v.v));
    case LFixed32 =>
      ok := stream.Write(EncodeFixed(v.v, 4));
    case LFixed64 =>
      ok := stream.Write(EncodeFixed(v.v, 8));
    case LBytes =>
      if |v.b| + BYTES_OFFSET > f.dataSize {
        return false;
      }
      ok := stream.EncodeString(v.b);
    case LString =>
      ok := stream.EncodeCString(f, v.b);
    case LFixedLengthBytes =>
      ok := stream.EncodeString(v.b);
  }

  /** What a submessage contributes: its length and its bytes. */
  function SubmessageBytes(fields: seq<Field>, m: Message): Option<bytes>
  {
    match BytesFrom(fields, m, 0)
    case None => None
    case Some(s) => Some(StringBytes(s))
  }

  method EncodeValue(stream: OStream, f: Field, v: Value) returns (ok: bool)
    requires stream.Valid() && StoredValue(f, v)
    modifies stream
    ensures stream.Valid() && stream.Emitted(old(stream.out), old(stream.bytesWritten), ValueBytes(f, v), ok)
    decreases 1 + Depth(f.sub), 0, 0
  {
    hide Emits, Stored, BytesFrom;
    if f.ltype.LSubmessage? {
      ok := EncodeSubmessage(stream, f.sub, v.m);
    } else {
      ok := EncodeScalar(stream, f, v);
    }
  }

  /** A first pass counts, and a second one writes to a substream of exactly that size. That the size
      has changed in between cannot happen. */
  method EncodeSubmessage(stream: OStream, fields: seq<Field>, m: Message) returns (ok: bool)
    requires stream.Valid() && Stored(fields, m)
    modifies stream
    ensures stream.Valid() && stream.Emitted(old(stream.out), old(stream.bytesWritten), SubmessageBytes(fields, m), ok)
    decreases Depth(fields), 6, 0
  {
    hide Stored, BytesFrom, Coding.EncodeVarint;
    ghost var out0, n0, s := stream.out, stream.bytesWritten, BytesFrom(fields, m, 0);
    var sizeStream := new OStream(true, 0, []);
    ok := Encode(sizeStream, fields, m);
    if !ok {
      return;
    }
    var size := sizeStream.bytesWritten;
    assert s.Some? && size == |s.value|;
    ok := stream.EncodeVarint(size);
    ghost var prefix := Coding.EncodeVarint(size);
    if !ok {
      return;
    }
    if stream.sizing {
      stream.bytesWritten := stream.bytesWritten + size;
      return true;
    }
    if stream.bytesWritten + size > stream.maxSize {
      return false;
    }
    var substream := new OStream(false, size, stream.out);
    ok := Encode(substream, fields, m);
    stream.bytesWritten := stream.bytesWritten + substream.bytesWritten;
    stream.out := substream.out;
    assert substream.bytesWritten == size && ok;
    assert out0 + prefix + s.value == out0 + (prefix + s.value);
  }

  // ----- Fields and messages -----------------------------------------------------------

  method EncodeArray(stream: OStream, f: Field, count: nat, items: seq<Value>) returns (ok: bool)
    requires stream.Valid() && |items| == f.arraySize && forall i :: 0 <= i < |items| ==> StoredValue(f, items[i])
    modifies stream
    ensures stream.Valid() && stream.Emitted(old(stream.out), old(stream.bytesWritten), ArrayBytes(f, count, items), ok)
    decreases 1 + Depth(f.sub), 3, 0
  {
    hide ItemBytes, StoredValue, TagBytes, Emits, Coding.EncodeVarint;
    ghost var out0, n0 := stream.out, stream.bytesWritten;
    EmitsNothing(stream.sizing, stream.maxSize, out0, n0);
    if count == 0 {
      return true;
    }
    if count > f.arraySize {
      return false;
    }
    if !Packable(f.ltype) {
      ok := EncodeItems(stream, f, items, count, true);
      return;
    }
    ok := EncodePacked(stream, f, count, items);
  }

  /** A packed array. Items of fixed size need no sizing pass. */
  method EncodePacked(stream: OStream, f: Field, count: nat, items: seq<Value>) returns (ok: bool)
    requires stream.Valid() && Packable(f.ltype) && 0 < count <= |items| && forall i :: 0 <= i < |items| ==>
             StoredValue(f, items[i])
    modifies stream
    ensures stream.Valid()
            && stream.Emitted(old(stream.out), old(stream.bytesWritten), PackedBytes(f, count, items), ok)
    decreases 1 + Depth(f.sub), 2, 1
  {
    hide ItemBytes, StoredValue, TagBytes, Coding.EncodeVarint;
    ghost var out0, n0, s := stream.out, stream.bytesWritten, ItemBytes(f, items, count, false);
    ghost var tag := TagBytes(WT_STRING, f.tag);
    ok := stream.EncodeTag(WT_STRING, f.tag);
    if !ok {
      return;
    }
    var size;
    if f.ltype == LFixed32 {
      size := 4 * count;
      FixedItems(f, items, count, 4);
    } else if f.ltype == LFixed64 {
      size := 8 * count;
      FixedItems(f, items, count, 8);
    } else {
      var sizeStream := new OStream(true, 0, []);
      ok := EncodeItems(sizeStream, f, items, count, false);
      if !ok {
        return;
      }
      size := sizeStream.bytesWritten;
    }
    assert s.Some? && size == |s.value|;
    ghost var prefix := Coding.EncodeVarint(size);
    ok := stream.EncodeVarint(size);
    if !ok {
      return;
    }
    if stream.sizing {
      stream.bytesWritten := stream.bytesWritten + size;
      return true;
    }
    ok := EncodeItems(stream, f, items, count, false);
    assert out0 + tag + prefix + s.value == out0 + (tag + (prefix + s.value));
  }

  function PackedBytes(f: Field, count: nat, items: seq<Value>): Option<bytes>
    requires count <= |items|
  {
    match ItemBytes(f, items, count, false)
    case None => None
    case Some(packed) => Some(TagBytes(WT_STRING, f.tag) + StringBytes(packed))
  }

  lemma {:induction false} FixedItems(f: Field, items: seq<Value>, n: nat, width: nat)
    requires n <= |items| && forall i :: 0 <= i < |items| ==> StoredValue(f, items[i])
    requires (f.ltype == LFixed32 && width == 4) || (f.ltype == LFixed64 && width == 8)
    ensures ItemBytes(f, items, n, false).Some? && |ItemBytes(f, items, n, false).value| == width * n
  {
    hide EncodeFixed;
    if n > 0 {
      FixedItems(f, items, n - 1, width);
    }
  }

  method EncodeBasicField(stream: OStream, f: Field, slot: Slot, m: Message) returns (ok: bool)
    requires stream.Valid() && StoredSlot(f, slot)
    modifies stream
    ensures stream.Valid() && stream.Emitted(old(stream.out), old(stream.bytesWritten), FieldBytes(f, slot, m), ok)
    decreases 1 + Depth(f.sub), 4, 0
  {
    hide TaggedBytes, ArrayBytes, Emits, StoredValue, IsDefault;
    EmitsNothing(stream.sizing, stream.maxSize, stream.out, stream.bytesWritten);
    match f.htype
    case HRequired =>
      ok := EncodeTaggedValue(stream, f, slot.value);
    case HOptional(hasField) =>
      if if hasField then slot.has else !IsDefault(f, slot, m) {
        ok := EncodeTaggedValue(stream, f, slot.value);
      } else {
        ok := true;
      }
    case HRepeated =>
      ok := EncodeArray(stream, f, slot.count, slot.items);
    case HOneof(union) =>
      if Which(m, union) == f.tag {
        ok := EncodeTaggedValue(stream, f, slot.value);
      } else {
        ok := true;
      }
  }

  /** pb_encode: all fields in the order of the descriptor. */
  method Encode(stream: OStream, fields: seq<Field>, m: Message) returns (ok: bool)
    requires stream.Valid() && Stored(fields, m)
    modifies stream
    ensures stream.Valid() && stream.Emitted(old(stream.out), old(stream.bytesWritten), BytesFrom(fields, m, 0), ok)
    decreases Depth(fields), 5, 0
  {
    hide FieldBytes, BytesFrom, Emits, StoredSlot;
    ghost var out0, n0 := stream.out, stream.bytesWritten;
    ghost var done: bytes := [];
    EmitsNothing(stream.sizing, stream.maxSize, out0, n0);
    NothingDone(BytesFrom(fields, m, 0));
    for i := 0 to |fields|
      invariant stream.Valid() && stream.Emitted(out0, n0, Some(done), true)
      invariant BytesFrom(fields, m, 0) == Append(Some(done), BytesFrom(fields, m, i))
    {
      DepthOfField(fields, i);
      ghost var out1, n1, s := stream.out, stream.bytesWritten, FieldBytes(fields[i], m.slots[i], m);
      BytesFromUnfolds(fields, m, i, done);
      ok := EncodeBasicField(stream, fields[i], m.slots[i], m);
      EmitsBoth(stream.sizing, stream.maxSize, out0, n0, Some(done), out1, n1, s, ok, stream.out, stream.bytesWritten);
      if !ok {
        EmitsNeither(stream.sizing, stream.maxSize, out0, n0, Append(Some(done), s), stream.out, stream.bytesWritten,
          BytesFrom(fields, m, i + 1));
        return;
      }
      EmittedSome(stream.sizing, stream.maxSize, out0, n0, Append(Some(done), s), stream.out, stream.bytesWritten);
      done := done + s.value;
    }
    AllDone(fields, m, done);
    return true;
  }

  lemma NothingDone(s: Option<bytes>)
    ensures s == Append(Some([]), s)
  {
    assert s.Some? ==> [] + s.value == s.value;
  }

  lemma {:induction false} AllDone(fields: seq<Field>, m: Message, done: bytes)
    ensures Append(Some(done), BytesFrom(fields, m, |fields|)) == Some(done)
  {
    assert done + [] == done;
  }

  lemma EmittedSome(sizing: bool, maxSize: nat, out0: bytes, n0: nat, s: Option<bytes>, out1: bytes, n1: nat)
    requires Emits(sizing, maxSize, out0, n0, s, true, out1, n1)
    ensures s.Some?
  {
  }

  lemma {:induction false} BytesFromUnfolds(fields: seq<Field>, m: Message, i: nat, done: bytes)
    requires i < |fields| == |m.slots|
    ensures Append(Some(done), BytesFrom(fields, m, i))
            == Append(Append(Some(done), FieldBytes(fields[i], m.slots[i], m)), BytesFrom(fields, m, i + 1))
  {
    hide FieldBytes;
    var a, b := FieldBytes(fields[i], m.slots[i], m), BytesFrom(fields, m, i + 1);
    if a.Some? && b.Some? {
      assert done + (a.value + b.value) == done + a.value + b.value;
    }
  }

  /** pb_get_encoded_size: what the counting stream counts is what a writing stream with room writes. */
  method GetEncodedSize(fields: seq<Field>, m: Message) returns (ok: bool, size: nat)
    requires Stored(fields, m)
    ensures ok <==> BytesFrom(fields, m, 0).Some?
    ensures ok ==> size == |BytesFrom(fields, m, 0).value|
  {
    hide Stored, BytesFrom;
    var stream := new OStream(true, 0, []);
    ok := Encode(stream, fields, m);
    size := stream.bytesWritten;
  }
}
