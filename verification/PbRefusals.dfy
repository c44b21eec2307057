/** What the codec of nanopb refuses, and what it forgets: numbers out of range, strings without room, arrays over
    their capacity, bytes cut short, and the former member of a union. */
module PbRefusals {
  import opened Coding
  import opened Options
  import opened PbWire
  import opened PbMessage
  import opened PbEncode
  import opened PbParse
  import opened PbRoundTrip
  import opened PbCompat

  // ----- Values ------------------------------------------------------------------------

  /** An unsigned number is accepted exactly if the field can hold it. */
  lemma UnsignedInRange(f: Field, v: nat, rest: bytes)
    requires f.ltype == LUVarint && v < TWO64
    ensures ParseScalar(f, EncodeVarint(v) + rest)
            == (if FitsUnsigned(v, f.dataSize) then Some((Int(v), |EncodeVarint(v)|)) else None)
  {
    hide EncodeVarint, DecodeVarint;
    Varint64RoundTrip(v, rest);
  }

  /** So is a signed one in zigzag form. */
  lemma SignedInRange(f: Field, v: int, rest: bytes)
    requires f.ltype == LSVarint && -TWO63 <= v < TWO63
    ensures ParseScalar(f, EncodeVarint(ZigZag(v)) + rest)
            == (if FitsSigned(v, f.dataSize) then Some((Int(v), |EncodeVarint(ZigZag(v))|)) else None)
  {
    hide EncodeVarint, DecodeVarint, ZigZag, UnZigZag;
    Varint64RoundTrip(ZigZag(v), rest);
    ZigZagRoundTrip(v, 0);
  }

  /** A plain signed one is taken modulo 2^32, unless the field has eight bytes, and must fit the field then. */
  lemma PlainInRange(f: Field, u: nat, rest: bytes)
    requires f.ltype == LVarint && u < TWO64
    ensures var v := if f.dataSize == 8 then ToSigned64(u) else ToSigned32(u);
            ParseScalar(f, EncodeVarint(u) + rest)
            == (if FitsSigned(v, f.dataSize) then Some((Int(v), |EncodeVarint(u)|)) else None)
  {
    hide EncodeVarint, DecodeVarint;
    Varint64RoundTrip(u, rest);
  }

  /** Strings and bytes are accepted exactly if there is room, a string with its terminator; bytes of fixed length
      must have just that, or none at all. */
  lemma TextNeedsRoom(f: Field, p: bytes, rest: bytes)
    requires |p| < TWO32
    ensures var r := ParseScalar(f, StringBytes(p) + rest);
            && (f.ltype == LBytes ==> (r.Some? <==> |p| + 4 <= f.dataSize))
            && (f.ltype == LString ==> (r.Some? <==> |p| < f.dataSize))
            && (f.ltype == LFixedLengthBytes ==> (r.Some? <==> p == [] || |p| == f.dataSize))
            && ((f.ltype == LBytes || f.ltype == LString) && r.Some? ==> r.value == (Raw(p), |StringBytes(p)|))
  {
    hide DecodeVarint32, StringBytes;
    ParsesLength(p, rest);
  }

  lemma VarintCutShort(v: nat, n: nat)
    requires v < TWO32 && n < |EncodeVarint(v)|
    ensures !DecodeVarint32(EncodeVarint(v)[..n]).Got?
  {
    hide EncodeVarint, DecodeVarint32, Accepts32;
    var b := EncodeVarint(v)[..n];
    if DecodeVarint32(b).Got? {
      Varint32IsEnough(b, EncodeVarint(v)[n..]);
      assert b + EncodeVarint(v)[n..] == EncodeVarint(v) + [];
      Varint32Decodes(v, []);
      Accepts32Is(v);
    }
  }

  /** A value whose bytes are cut short is refused. */
  lemma CutShortIsRefused(f: Field, v: Value, n: nat)
    requires !f.ltype.LSubmessage? && ValueBytes(f, v).Some? && |ValueBytes(f, v).value| < TWO32
    requires n < |ValueBytes(f, v).value|
    ensures ParseScalar(f, ValueBytes(f, v).value[..n]) == None
  {
    hide EncodeVarint, DecodeVarint32, EncodeFixed, DecodeFixed, CString, ReadVarint, ZigZag, UnZigZag, ToUnsigned64;
    match f.ltype
    case LBool => VarintCutShort(if v.v != 0 then 1 else 0, n);
    case LVarint => VarintPrefixFree(ToUnsigned64(v.v), 10, n);
    case LUVarint => VarintPrefixFree(v.v, 10, n);
    case LSVarint => VarintPrefixFree(ZigZag(v.v), 10, n);
    case LFixed32 =>
    case LFixed64 =>
    case LBytes => TextCutShort(f, v.b, n);
    case LString => TextCutShort(f, CString(v.b), n);
    case LFixedLengthBytes => TextCutShort(f, v.b, n);
  }

  lemma TextCutShort(f: Field, p: bytes, n: nat)
    requires f.ltype == LBytes || f.ltype == LString || f.ltype == LFixedLengthBytes
    requires |p| < TWO32 && n < |StringBytes(p)|
    ensures ParseScalar(f, StringBytes(p)[..n]) == None
  {
    hide EncodeVarint, DecodeVarint32;
    var size := EncodeVarint(|p|);
    var b := StringBytes(p)[..n];
    if n < |size| {
      VarintCutShort(|p|, n);
      assert b == size[..n];
    } else {
      assert b == size + p[..n - |size|];
      Varint32Decodes(|p|, p[..n - |size|]);
      Accepts32Is(|p|);
    }
  }

  // ----- Arrays ------------------------------------------------------------------------

  /** One item more than the array holds is refused, packed or not. */
  lemma FullArrayRefuses(f: Field, wireType: nat, b: bytes, slot: Slot, which: map<nat, nat>)
    requires f.htype.HRepeated? && slot.Many? && slot.count >= f.arraySize
    ensures wireType != WT_STRING || !Packable(f.ltype) ==> ParseField(f, wireType, b, slot, which) == Malformed
    ensures Packable(f.ltype) && wireType == WT_STRING && b != [] && |b| < TWO32 ==>
              ParseField(f, wireType, StringBytes(b), slot, which) == Malformed
  {
    hide DecodeVarint32, StringBytes, ParseValue, ParseScalar;
    if Packable(f.ltype) && wireType == WT_STRING && b != [] && |b| < TWO32 {
      OneString(b);
    }
  }

  /** The array claims more items than it has room for, or the bytes of a required field more bytes. */
  predicate Overfull(f: Field, slot: Slot)
  {
    if f.htype.HRepeated? then slot.Many? && slot.count > f.arraySize
    else
      && f.htype.HRequired? && f.ltype == LBytes
      && slot.One? && slot.value.Raw? && |slot.value.b| + 4 > f.dataSize
  }

  /** And a message that says it has more than it has room for is not encoded. */
  lemma {:induction false} OverfullIsRefused(fields: seq<Field>, m: Message, i: nat)
    requires i < |fields| && |m.slots| == |fields| && Overfull(fields[i], m.slots[i])
    ensures BytesFrom(fields, m, 0) == None
  {
    hide BytesFrom;
    DepthOfField(fields, i);
    OverfullHasNoBytes(fields[i], m.slots[i], m);
    NoneIsNone(fields, m, 0, i);
  }

  lemma OverfullHasNoBytes(f: Field, slot: Slot, m: Message)
    requires Overfull(f, slot)
    ensures FieldBytes(f, slot, m) == None
  {
    if f.htype.HRequired? {
      assert ValueBytes(f, slot.value) == None;
      assert TaggedBytes(f, slot.value) == None;
    }
  }

  lemma {:induction false} NoneIsNone(fields: seq<Field>, m: Message, j: nat, i: nat)
    requires j <= i < |fields| && |m.slots| == |fields| && FieldBytes(fields[i], m.slots[i], m) == None
    ensures BytesFrom(fields, m, j) == None
    decreases i - j
  {
    hide FieldBytes;
    DepthOfField(fields, j);
    if j < i {
      NoneIsNone(fields, m, j + 1, i);
    }
  }

  // ----- Unions ------------------------------------------------------------------------

  /** When another member of the union was active, a submessage starts anew: nothing of what the union held is
      left in it. */
  lemma UnionStartsAnew(f: Field, v: Value, rest: bytes, wireType: nat, slot: Slot, which: map<nat, nat>)
    requires f.htype.HOneof? && f.ltype.LSubmessage? && slot.One? && WellFormed(f.sub)
    requires (if f.htype.union in which then which[f.htype.union] else 0) != f.tag
    requires ValueBytes(f, v).Some? && |ValueBytes(f, v).value| < TWO32 && StoredValue(f, v) && TerminatedValue(f, v)
    ensures var p := ParseField(f, wireType, ValueBytes(f, v).value + rest, slot, which);
            && p.Parsed? && p.length == |ValueBytes(f, v).value| && p.which == which[f.htype.union := f.tag]
            && p.slot.One? && SameValue(f, v, p.slot.value)
  {
    hide ValueBytes, ParseValue, SameValue, WellFormed, StoredValue, TerminatedValue, Defaults;
    ParsesValue(f, v, Sub(Defaults(f.sub)), rest);
  }
}
