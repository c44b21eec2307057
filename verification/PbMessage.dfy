/** Messages and their descriptors (nanopb pb.h, pb_encode.c): the bytes a message encodes to. */
module PbMessage {
  import opened Coding
  import opened Options
  import opened PbWire

  // offsetof(pb_bytes_array_t, bytes) with a 32-bit pb_size_t.
  const BYTES_OFFSET: nat := 4
  const MAX_REQUIRED_FIELDS: nat := 64

  const WT_VARINT: nat := 0
  const WT_64BIT: nat := 1
  const WT_STRING: nat := 2
  const WT_32BIT: nat := 5

  datatype LType = LBool | LVarint | LUVarint | LSVarint | LFixed32 | LFixed64
                 | LBytes | LString | LSubmessage | LFixedLengthBytes

  /** An optional field without a has_ field is a proto3 singular one. */
  datatype HType = HRequired | HOptional(hasField: bool) | HRepeated | HOneof(union: nat)

  /** `initial` is the value ptr points to, for a field that is no submessage. */
  datatype Field = Field(tag: nat, ltype: LType, htype: HType, dataSize: nat, arraySize: nat, sub: seq<Field>,
    initial: Option<Value>)

  /** A string is the buffer up to its data size: what counts of it ends before the first zero. */
  datatype Value = Int(v: int) | Raw(b: bytes) | Sub(m: Message)

  datatype Slot = One(has: bool, value: Value) | Many(count: nat, items: seq<Value>)

  /** One slot for each field of the descriptor; `which` holds the active tag of each union. */
  datatype Message = Message(slots: seq<Slot>, which: map<nat, nat>)

  function Which(m: Message, union: nat): nat
  {
    if union in m.which then m.which[union] else 0
  }

  function Depth(fields: seq<Field>): nat
    decreases fields
  {
    if fields == [] then 0
    else
      var last := fields[|fields| - 1];
      var a, b := Depth(fields[..|fields| - 1]), 1 + Depth(last.sub);
      if a < b then b else a
  }

  lemma {:induction false} DepthOfField(fields: seq<Field>, i: nat)
    requires i < |fields|
    ensures Depth(fields[i].sub) < Depth(fields)
    decreases |fields|
  {
    if i < |fields| - 1 {
      DepthOfField(fields[..|fields| - 1], i);
    }
  }

  predicate Packable(l: LType)
  {
    l == LBool || l == LVarint || l == LUVarint || l == LSVarint || l == LFixed32 || l == LFixed64
  }

  function WireType(l: LType): nat
  {
    match l
    case LBool | LVarint | LUVarint | LSVarint => WT_VARINT
    case LFixed32 => WT_32BIT
    case LFixed64 => WT_64BIT
    case LBytes | LString | LSubmessage | LFixedLengthBytes => WT_STRING
  }

  /** pb_encode_tag, with the field number already widened to 64 bits. */
  function TagBytes(wireType: nat, tag: nat): bytes
  {
    EncodeVarint(tag * 8 + wireType)
  }

  function StringBytes(b: bytes): bytes
  {
    EncodeVarint(|b|) + b
  }

  function CString(b: bytes): (r: bytes)
    ensures r <= b && 0 !in r
    ensures |r| == |b| || b[|r|] == 0
  {
    if b == [] || b[0] == 0 then [] else [b[0]] + CString(b[1..])
  }

  function Append(a: Option<bytes>, b: Option<bytes>): Option<bytes>
  {
    if a.Some? && b.Some? then Some(a.value + b.value) else None
  }

  predicate IsIntSize(n: nat)
  {
    n == 1 || n == 2 || n == 4 || n == 8
  }

  /** The signed values that fit the bytes of a field. */
  predicate FitsSigned(v: int, size: nat)
  {
    match size
    case 1 => -0x80 <= v < 0x80
    case 2 => -0x8000 <= v < 0x8000
    case 4 => -TWO31 <= v < TWO31
    case 8 => -TWO63 <= v < TWO63
    case _ => false
  }

  predicate FitsUnsigned(v: int, size: nat)
  {
    match size
    case 1 => 0 <= v < 0x100
    case 2 => 0 <= v < 0x1_0000
    case 4 => 0 <= v < TWO32
    case 8 => 0 <= v < TWO64
    case _ => false
  }

  /** The field encoders; None for a value the encoder refuses or that cannot be in the field. */
  function ValueBytes(f: Field, v: Value): Option<bytes>
    decreases 1 + Depth(f.sub), 0, 0
  {
    match f.ltype
    case LBool => if v.Int? then Some(EncodeVarint(if v.v != 0 then 1 else 0)) else None
    case LVarint => if v.Int? && FitsSigned(v.v, f.dataSize) then Some(EncodeVarint(ToUnsigned64(v.v))) else None
    case LUVarint => if v.Int? && FitsUnsigned(v.v, f.dataSize) then Some(EncodeVarint(v.v)) else None
    case LSVarint => if v.Int? && FitsSigned(v.v, f.dataSize) then Some(EncodeVarint(ZigZag(v.v))) else None
    case LFixed32 => if v.Int? && FitsUnsigned(v.v, 4) then Some(EncodeFixed(v.v, 4)) else None
    case LFixed64 => if v.Int? && FitsUnsigned(v.v, 8) then Some(EncodeFixed(v.v, 8)) else None
    case LBytes => if v.Raw? && |v.b| + BYTES_OFFSET <= f.dataSize then Some(StringBytes(v.b)) else None
    case LString => if v.Raw? && |v.b| <= f.dataSize then Some(StringBytes(CString(v.b))) else None
    case LFixedLengthBytes => if v.Raw? && |v.b| == f.dataSize then Some(StringBytes(v.b)) else None
    case LSubmessage =>
      if !v.Sub? then None
      else match BytesFrom(f.sub, v.m, 0)
        case None => None
        case Some(s) => Some(StringBytes(s))
  }

  /** The first `n` items one after the other, each with its tag unless they are packed. */
  function ItemBytes(f: Field, items: seq<Value>, n: nat, tagged: bool): Option<bytes>
    requires n <= |items|
    decreases 1 + Depth(f.sub), 1, n
  {
    if n == 0 then Some([])
    else Append(ItemBytes(f, items, n - 1, tagged),
                Append(Some(if tagged then TagBytes(WireType(f.ltype), f.tag) else []), ValueBytes(f, items[n - 1])))
  }

  function TaggedBytes(f: Field, v: Value): Option<bytes>
    decreases 1 + Depth(f.sub), 1, 0
  {
    Append(Some(TagBytes(WireType(f.ltype), f.tag)), ValueBytes(f, v))
  }

  function ArrayBytes(f: Field, count: nat, items: seq<Value>): Option<bytes>
    decreases 1 + Depth(f.sub), 2, 0
  {
    if count == 0 then Some([])
    else if count > f.arraySize || count > |items| then None
    else if Packable(f.ltype) then
      match ItemBytes(f, items, count, false)
      case None => None
      case Some(packed) => Some(TagBytes(WT_STRING, f.tag) + StringBytes(packed))
    else ItemBytes(f, items, count, true)
  }

  /** pb_check_proto3_default_value. */
  predicate IsDefault(f: Field, slot: Slot, m: Message)
    decreases 1 + Depth(f.sub), 1, 0
  {
    match f.htype
    case HRequired => false
    case HRepeated => slot.Many? && slot.count == 0
    case HOneof(union) => Which(m, union) == 0
    case HOptional(true) => slot.One? && !slot.has
    case HOptional(false) =>
      slot.One? &&
      match f.ltype
      case LBytes => slot.value.Raw? && slot.value.b == []
      case LString => slot.value.Raw? && CString(slot.value.b) == []
      case LFixedLengthBytes => f.dataSize == 0
      case LSubmessage => slot.value.Sub? && AllDefault(f.sub, slot.value.m, |f.sub|)
      case _ => slot.value.Int? && slot.value.v == 0
  }

  predicate AllDefault(fields: seq<Field>, m: Message, n: nat)
    requires n <= |fields|
    decreases Depth(fields), 3, n
  {
    n == 0 || (DepthOfField(fields, n - 1); n <= |m.slots| && IsDefault(fields[n - 1], m.slots[n - 1],
      m) && AllDefault(fields, m, n - 1))
  }

  function FieldBytes(f: Field, slot: Slot, m: Message): Option<bytes>
    decreases 1 + Depth(f.sub), 3, 0
  {
    match f.htype
    case HRequired => if slot.One? then TaggedBytes(f, slot.value) else None
    case HOptional(hasField) =>
      if !slot.One? then None
      else if (if hasField then slot.has else !IsDefault(f, slot, m)) then TaggedBytes(f, slot.value)
      else Some([])
    case HRepeated => if slot.Many? then ArrayBytes(f, slot.count, slot.items) else None
    case HOneof(union) =>
      if !slot.One? then None else if Which(m, union) == f.tag then TaggedBytes(f, slot.value) else Some([])
  }

  /** The fields from number `i` on, in the order of the descriptor. */
  function BytesFrom(fields: seq<Field>, m: Message, i: nat): Option<bytes>
    requires i <= |fields|
    decreases Depth(fields), 4, |fields| - i
  {
    if i == |fields| then Some([])
    else if i >= |m.slots| then None
    else
      DepthOfField(fields, i);
      Append(FieldBytes(fields[i], m.slots[i], m), BytesFrom(fields, m, i + 1))
  }
}
