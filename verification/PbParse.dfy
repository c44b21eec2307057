/** What nanopb makes of the bytes of a message (pb_decode.c), as functions of the bytes still visible
    in the stream. */
module PbParse {
  import opened Coding
  import opened Options
  import opened PbWire
  import opened PbMessage

  // ----- Default values ----------------------------------------------------------------

  function ZeroValue(f: Field): Value
  {
    match f.ltype
    case LBytes | LString => Raw([])
    case LFixedLengthBytes => Raw(Zeros(f.dataSize))
    case _ => Int(0)
  }

  /** What pb_field_set_to_default leaves in the slot of a field. The items of arrays and unions are not
      touched by it; here they start as zeros. */
  function DefaultSlot(f: Field): Slot
    decreases 1 + Depth(f.sub), 1
  {
    if f.htype.HRepeated? then Many(0, seq(f.arraySize, i => ZeroItem(f)))
    else if f.htype.HOneof? then One(false, ZeroItem(f))
    else One(false, InitialValue(f))
  }

  function InitialValue(f: Field): Value
    decreases 1 + Depth(f.sub), 0
  {
    if f.ltype.LSubmessage? then Sub(Defaults(f.sub))
    else if f.initial.Some? then f.initial.value
    else ZeroValue(f)
  }

  function ZeroItem(f: Field): Value
    decreases 1 + Depth(f.sub), 0
  {
    if f.ltype.LSubmessage? then Sub(Defaults(f.sub)) else ZeroValue(f)
  }

  /** pb_message_set_to_defaults. */
  function Defaults(fields: seq<Field>): (r: Message)
    ensures |r.slots| == |fields|
    decreases Depth(fields), 2
  {
    Message(seq(|fields|, i requires 0 <= i < |fields| => (DepthOfField(fields, i); DefaultSlot(fields[i]))), map[])
  }

  // ----- Tags and skipping -------------------------------------------------------------

  /** The end of a message may also be marked by a zero. */
  datatype Tag = Tag(wireType: nat, tag: nat, length: nat) | End | BadTag

  function DecodeTag(b: bytes): (r: Tag)
    ensures r.Tag? ==> 1 <= r.length <= |b| && r.wireType < 8
  {
    match DecodeVarint32(b)
    case EndOfStream => End
    case Failed => BadTag
    case Got(v, n) => if v == 0 then End else Tag(v % 8, v / 8, n)
  }

  function SkipVarint(b: bytes): (r: Option<nat>)
    ensures r.Some? ==> r.value <= |b|
  {
    if b == [] then None
    else if b[0] < 128 then Some(1)
    else match SkipVarint(b[1..])
      case None => None
      case Some(n) => Some(n + 1)
  }

  function SkipField(b: bytes, wireType: nat): (r: Option<nat>)
    ensures r.Some? ==> r.value <= |b|
  {
    if wireType == WT_VARINT then SkipVarint(b)
    else if wireType == WT_64BIT then (if |b| < 8 then None else Some(8))
    else if wireType == WT_32BIT then (if |b| < 4 then None else Some(4))
    else if wireType == WT_STRING then
      match DecodeVarint32(b)
      case Got(size, n) => if |b| - n < size then None else Some(n + size)
      case _ => None
    else None
  }

  /** pb_make_string_substream: the bytes of the substream start at `start`. */
  datatype Substream = Substream(start: nat, size: nat) | NoSubstream

  function MakeSubstream(b: bytes): (r: Substream)
    ensures r.Substream? ==> 1 <= r.start && r.start + r.size <= |b|
  {
    match DecodeVarint32(b)
    case Got(size, n) => if |b| - n < size then NoSubstream else Substream(n, size)
    case _ => NoSubstream
  }

  // ----- Values ------------------------------------------------------------------------

  /** The cast of a signed value to the type of the field, and the check that nothing was lost. */
  function CastSigned(v: int, size: nat): Option<Value>
  {
    if FitsSigned(v, size) then Some(Int(v)) else None
  }

  /** The field decoders for everything but submessages: the value and the bytes consumed. */
  function ParseScalar(f: Field, b: bytes): (r: Option<(Value, nat)>)
    ensures r.Some? ==> r.value.1 <= |b| && (Packable(f.ltype) ==> r.value.1 > 0)
  {
    match f.ltype
    case LBool =>
      (match DecodeVarint32(b)
       case Got(v, n) => Some((Int(if v != 0 then 1 else 0), n))
       case _ => None)
    case LVarint =>
      (match DecodeVarint(b)
       case Some((u, n)) =>
         (match CastSigned(if f.dataSize == 8 then ToSigned64(u) else ToSigned32(u), f.dataSize)
          case Some(v) => Some((v, n))
          case None => None)
       case None => None)
    case LUVarint =>
      (match DecodeVarint(b)
       case Some((u, n)) => if FitsUnsigned(u, f.dataSize) then Some((Int(u), n)) else None
       case None => None)
    case LSVarint =>
      (match DecodeVarint(b)
       case Some((u, n)) =>
         (match CastSigned(UnZigZag(u), f.dataSize)
          case Some(v) => Some((v, n))
          case None => None)
       case None => None)
    case LFixed32 => if |b| < 4 then None else Some((Int(DecodeFixed(b[..4])), 4))
    case LFixed64 => if |b| < 8 then None else Some((Int(DecodeFixed(b[..8])), 8))
    case LBytes =>
      (match DecodeVarint32(b)
       case Got(size, n) =>
         if size + BYTES_OFFSET > f.dataSize || |b| - n < size then None else Some((Raw(b[n..n + size]), n + size))
       case _ => None)
    case LString =>
      (match DecodeVarint32(b)
       case Got(size, n) =>
         if size + 1 > f.dataSize || |b| - n < size then None else Some((Raw(b[n..n + size]), n + size))
       case _ => None)
    case LFixedLengthBytes =>
      (match DecodeVarint32(b)
       case Got(size, n) =>
         if size == 0 then Some((Raw(Zeros(f.dataSize)), n))
         else if size != f.dataSize || |b| - n < size then None
         else Some((Raw(b[n..n + size]), n + size))
       case _ => None)
    case LSubmessage => None
  }

  /** Any field decoder. A submessage is merged into what is there, except for array items, which start
      from their defaults. */
  function ParseValue(f: Field, b: bytes, dest: Value): (r: Option<(Value, nat)>)
    ensures r.Some? ==> r.value.1 <= |b|
    decreases 1 + Depth(f.sub), 0, 0
  {
    if !f.ltype.LSubmessage? then ParseScalar(f, b)
    else
      match MakeSubstream(b)
      case NoSubstream => None
      case Substream(start, size) =>
        var m0 := if f.htype.HRepeated? || !dest.Sub? then Defaults(f.sub) else dest.m;
        match ParseMessage(f.sub, b[start..start + size], m0, {}, 0)
        case None => None
        case Some(m) => Some((Sub(m), start + size))
  }

  /** The items of a packed array: as many as fit, which must use up all the bytes. */
  function ParsePacked(f: Field, b: bytes, count: nat, items: seq<Value>): Option<(nat, seq<Value>)>
    requires Packable(f.ltype)
    decreases 1 + Depth(f.sub), 1, |b|
  {
    if b == [] then Some((count, items))
    else if count >= f.arraySize || count >= |items| then None
    else match ParseScalar(f, b)
      case None => None
      case Some((v, n)) => ParsePacked(f, b[n..], count + 1, items[count := v])
  }

  /** decode_static_field: the new slot, the new active tags and the bytes consumed. */
  datatype Parsed = Parsed(slot: Slot, which: map<nat, nat>, length: nat) | Malformed

  function ParseField(f: Field, wireType: nat, b: bytes, slot: Slot, which: map<nat, nat>): (r: Parsed)
    ensures r.Parsed? ==> r.length <= |b|
    decreases 1 + Depth(f.sub), 2, 0
  {
    match f.htype
    case HRequired | HOptional(_) =>
      if !slot.One? then Malformed
      else (match ParseValue(f, b, slot.value)
            case None => Malformed
            case Some((v, n)) => Parsed(One(if f.htype == HOptional(true) then true else slot.has, v), which, n))
    case HRepeated =>
      if !slot.Many? then Malformed
      else if wireType == WT_STRING && Packable(f.ltype) then
        (match MakeSubstream(b)
         case NoSubstream => Malformed
         case Substream(start, size) =>
           match ParsePacked(f, b[start..start + size], slot.count, slot.items)
           case None => Malformed
           case Some((count, items)) => Parsed(Many(count, items), which, start + size))
      else if slot.count >= f.arraySize || slot.count >= |slot.items| then Malformed
      else (match ParseValue(f, b, slot.items[slot.count])
            case None => Malformed
            case Some((v, n)) => Parsed(Many(slot.count + 1, slot.items[slot.count := v]), which, n))
    case HOneof(union) =>
      if !slot.One? then Malformed
      else
        var active := if union in which then which[union] else 0;
        var dest := if f.ltype.LSubmessage? && active != f.tag then Sub(Defaults(f.sub)) else slot.value;
        (match ParseValue(f, b, dest)
         case None => Malformed
         case Some((v, n)) => Parsed(One(slot.has, v), which[union := f.tag], n))
  }

  // ----- Messages ----------------------------------------------------------------------

  /** pb_field_iter_find for a tag that is not zero. */
  function Find(fields: seq<Field>, tag: nat, i: nat): (r: nat)
    requires i <= |fields|
    ensures i <= r <= |fields| && (r < |fields| ==> fields[r].tag == tag)
    ensures forall j :: i <= j < r ==> fields[j].tag != tag
    decreases |fields| - i
  {
    if i == |fields| || fields[i].tag == tag then i else Find(fields, tag, i + 1)
  }

  /** The search from the field the iterator stands on, round to it again. */
  function FindFrom(fields: seq<Field>, tag: nat, pos: nat): (r: nat)
    requires pos <= |fields|
    ensures r <= |fields| && (r < |fields| ==> fields[r].tag == tag)
    ensures r == |fields| ==> forall j :: 0 <= j < |fields| ==> fields[j].tag != tag
  {
    var r := Find(fields, tag, pos);
    if r < |fields| then r else Find(fields, tag, 0)
  }

  function RequiredBefore(fields: seq<Field>, i: nat): nat
    requires i <= |fields|
  {
    if i == 0 then 0 else RequiredBefore(fields, i - 1) + (if fields[i - 1].htype == HRequired then 1 else 0)
  }

  predicate AllRequiredSeen(fields: seq<Field>, seen: set<nat>)
  {
    forall i :: 0 <= i < |fields| && fields[i].htype == HRequired && RequiredBefore(fields, i) < MAX_REQUIRED_FIELDS ==>
      RequiredBefore(fields, i) in seen
  }

  function Seen(fields: seq<Field>, i: nat, seen: set<nat>): set<nat>
    requires i < |fields|
  {
    if fields[i].htype == HRequired
      && RequiredBefore(fields, i) < MAX_REQUIRED_FIELDS then seen + {RequiredBefore(fields, i)} else seen
  }

  /** pb_decode_noinit, in the middle of its loop: `seen` are the numbers of the required fields met, and
      the iterator stands on field `pos`. */
  function ParseMessage(fields: seq<Field>, b: bytes, m: Message, seen: set<nat>, pos: nat): Option<Message>
    requires pos <= |fields|
    decreases Depth(fields), 3, |b|
  {
    if b == [] then (if AllRequiredSeen(fields, seen) then Some(m) else None)
    else match DecodeTag(b)
      case BadTag => None
      case End => if AllRequiredSeen(fields, seen) then Some(m) else None
      case Tag(wireType, tag, n) =>
        var i := FindFrom(fields, tag, pos);
        if i == |fields| then
          match SkipField(b[n..], wireType)
          case None => None
          case Some(k) => ParseMessage(fields, b[n + k..], m, seen, pos)
        else if i >= |m.slots| then None
        else
          DepthOfField(fields, i);
          match ParseField(fields[i], wireType, b[n..], m.slots[i], m.which)
          case Malformed => None
          case Parsed(slot, which, k) =>
            ParseMessage(fields, b[n + k..], Message(m.slots[i := slot], which), Seen(fields, i, seen), i)
  }

  /** When no two fields share a tag it does not matter where the iterator stands. */
  lemma {:induction false} AnyPlaceWillDo(fields: seq<Field>, b: bytes, m: Message, seen: set<nat>, pos: nat)
    requires pos <= |fields| && forall j, k :: 0 <= j < k < |fields| ==> fields[j].tag != fields[k].tag
    ensures ParseMessage(fields, b, m, seen, pos) == ParseMessage(fields, b, m, seen, 0)
    decreases |b|
  {
    hide ParseField, DecodeTag, SkipField, AllRequiredSeen, RequiredBefore, Depth, Seen, Find;
    if b != [] && DecodeTag(b).Tag? {
      var n, tag := DecodeTag(b).length, DecodeTag(b).tag;
      assert FindFrom(fields, tag, pos) == FindFrom(fields, tag, 0);
      if FindFrom(fields, tag, pos) == |fields| {
        var k := SkipField(b[n..], DecodeTag(b).wireType);
        if k.Some? {
          AnyPlaceWillDo(fields, b[n + k.value..], m, seen, pos);
        }
      }
    }
  }
}
