/** Decoding what nanopb encoded gives the message back. */
module PbRoundTrip {
  import opened Coding
  import opened Options
  import opened PbWire
  import opened PbMessage
  import opened PbEncode
  import opened PbParse

  // ----- When two messages say the same ------------------------------------------------

  predicate SameValue(f: Field, a: Value, b: Value)
    decreases 1 + Depth(f.sub), 0, 0
  {
    match f.ltype
    case LBool => a.Int? && b.Int? && (a.v != 0 <==> b.v != 0)
    case LString => a.Raw? && b.Raw? && CString(a.b) == CString(b.b)
    case LSubmessage => a.Sub? && b.Sub? && Same(f.sub, a.m, b.m, |f.sub|)
    case _ => a == b
  }

  /** Equal up to the contents of what is absent. */
  predicate SameSlot(f: Field, a: Slot, m: Message, b: Slot, n: Message)
    decreases 1 + Depth(f.sub), 1, 0
  {
    if f.htype.HRequired? then a.One? && b.One? && SameValue(f, a.value, b.value)
    else if f.htype.HOptional? then
      && a.One? && b.One? && (f.htype.hasField ==> a.has == b.has)
      && (!(f.htype.hasField && !a.has) ==> SameValue(f, a.value, b.value))
    else if f.htype.HRepeated? then
      && a.Many? && b.Many? && a.count == b.count <= |a.items| && b.count <= |b.items|
      && forall i :: 0 <= i < a.count ==> SameValue(f, a.items[i], b.items[i])
    else
      && a.One? && b.One? && (Which(m, f.htype.union) == f.tag <==> Which(n, f.htype.union) == f.tag)
      && (Which(m, f.htype.union) == f.tag ==> SameValue(f, a.value, b.value))
  }

  predicate Same(fields: seq<Field>, m: Message, n: Message, k: nat)
    requires k <= |fields|
    decreases Depth(fields), 2, k
  {
    && k <= |m.slots| && k <= |n.slots|
    && forall i :: 0 <= i < k ==> (DepthOfField(fields, i); SameSlot(fields[i], m.slots[i], m, n.slots[i], n))
  }

  // ----- What is asked of descriptors and messages -------------------------------------

  /** Tags are unique and fit the wire; proto3 singular fields have no default value of their own. */
  predicate WellFormed(fields: seq<Field>)
    decreases Depth(fields)
  {
    && (forall i :: 0 <= i < |fields| ==> 0 < fields[i].tag < 0x2000_0000)
    && (forall i, j :: 0 <= i < j < |fields| ==> fields[i].tag != fields[j].tag)
    && (forall i :: 0 <= i < |fields| && fields[i].htype == HOptional(false) ==> fields[i].initial == None)
    && (forall i :: 0 <= i < |fields| ==> (DepthOfField(fields, i); WellFormed(fields[i].sub)))
  }

  /** Every string leaves room for its terminator. */
  predicate TerminatedValue(f: Field, v: Value)
    decreases 1 + Depth(f.sub), 0
  {
    match f.ltype
    case LString => v.Raw? ==> |CString(v.b)| < f.dataSize
    case LSubmessage => v.Sub? ==> Terminated(f.sub, v.m)
    case _ => true
  }

  predicate Terminated(fields: seq<Field>, m: Message)
    decreases Depth(fields), 1
  {
    forall i :: 0 <= i < |fields| && i < |m.slots| ==>
      (DepthOfField(fields, i);
       match m.slots[i]
       case One(_, v) => TerminatedValue(fields[i], v)
       case Many(_, items) => forall j :: 0 <= j < |items| ==> TerminatedValue(fields[i], items[j]))
  }

  // ----- Scalars -----------------------------------------------------------------------

  lemma ParsesLength(b: bytes, rest: bytes)
    requires |b| < TWO32
    ensures DecodeVarint32(StringBytes(b) + rest) == Got(|b|, |EncodeVarint(|b|)|)
    ensures var n := |EncodeVarint(|b|)|;
            && |StringBytes(b) + rest| - n >= |b|
            && (StringBytes(b) + rest)[n..n + |b|] == b && |StringBytes(b)| == n + |b|
  {
    hide EncodeVarint, DecodeVarint32, Accepts32;
    var n := |EncodeVarint(|b|)|;
    assert StringBytes(b) + rest == EncodeVarint(|b|) + (b + rest);
    Varint32Decodes(|b|, b + rest);
    Accepts32Is(|b|);
  }

  lemma Pow256Is()
    ensures Pow256(4) == TWO32 && Pow256(8) == TWO64
  {
    Pow256Of4();
    assert Pow256(8) == 256 * Pow256(7) && Pow256(7) == 256 * Pow256(6) && Pow256(6) == 256 * Pow256(5);
  }

  lemma FixedPrefix(v: nat, n: nat, rest: bytes)
    requires v < Pow256(n)
    ensures |EncodeFixed(v, n) + rest| >= n && DecodeFixed((EncodeFixed(v, n) + rest)[..n]) == v
  {
    hide DecodeFixed, EncodeFixed;
    FixedRoundTrip(v, n);
    assert (EncodeFixed(v, n) + rest)[..n] == EncodeFixed(v, n);
  }

  /** The decoder of a field undoes its encoder. */
  lemma ParsesNumber(f: Field, v: Value, rest: bytes)
    requires Packable(f.ltype) && ValueBytes(f, v).Some?
    ensures ParseScalar(f, ValueBytes(f, v).value + rest).Some?
    ensures var r := ParseScalar(f, ValueBytes(f, v).value + rest).value;
            r.1 == |ValueBytes(f, v).value| && SameValue(f, v, r.0)
  {
    hide EncodeVarint, DecodeVarint, DecodeVarint32, EncodeFixed, DecodeFixed, Accepts32, ZigZag, UnZigZag, Pow256;
    match f.ltype
    case LBool =>
      Varint32Decodes(if v.v != 0 then 1 else 0, rest);
      Accepts32Is(if v.v != 0 then 1 else 0);
    case LVarint =>
      Varint64RoundTrip(ToUnsigned64(v.v), rest);
      if f.dataSize != 8 {
        SignExtension(v.v);
      }
    case LUVarint =>
      Varint64RoundTrip(v.v, rest);
    case LSVarint =>
      Varint64RoundTrip(ZigZag(v.v), rest);
      ZigZagRoundTrip(v.v, 0);
    case LFixed32 =>
      Pow256Is();
      FixedPrefix(v.v, 4, rest);
    case LFixed64 =>
      Pow256Is();
      FixedPrefix(v.v, 8, rest);
  }

  lemma CStringOfPrefix(b: bytes)
    ensures CString(CString(b)) == CString(b)
  {
    ScannedString(CString(b), |CString(b)|);
    assert CString(b)[..|CString(b)|] == CString(b);
  }

  lemma ParsesText(f: Field, v: Value, rest: bytes)
    requires f.ltype == LBytes || f.ltype == LString || f.ltype == LFixedLengthBytes
    requires ValueBytes(f, v).Some? && |ValueBytes(f, v).value| < TWO32 && TerminatedValue(f, v)
    ensures ParseScalar(f, ValueBytes(f, v).value + rest).Some?
    ensures var r := ParseScalar(f, ValueBytes(f, v).value + rest).value;
            r.1 == |ValueBytes(f, v).value| && SameValue(f, v, r.0)
  {
    hide EncodeVarint, DecodeVarint32, StringBytes, CString;
    match f.ltype
    case LString =>
      StringLonger(CString(v.b));
      ParsesLength(CString(v.b), rest);
      CStringOfPrefix(v.b);
    case LBytes =>
      StringLonger(v.b);
      ParsesLength(v.b, rest);
    case LFixedLengthBytes =>
      StringLonger(v.b);
      ParsesLength(v.b, rest);
      if v.b == [] {
        assert Zeros(0) == [];
      }
  }

  lemma StringLonger(b: bytes)
    ensures |StringBytes(b)| > |b|
  {
  }

  /** A string that fills its buffer is encoded, but cannot be decoded into the same field. */
  lemma StringNeedsRoom(f: Field, v: Value, rest: bytes)
    requires f.ltype == LString && ValueBytes(f, v).Some? && f.dataSize < TWO32
    ensures ParseScalar(f, ValueBytes(f, v).value + rest).Some? <==> |CString(v.b)| < f.dataSize
  {
    hide EncodeVarint, DecodeVarint32, StringBytes, CString;
    ParsesLength(CString(v.b), rest);
  }

  // ----- One field ---------------------------------------------------------------------

  lemma ParsesTag(wireType: nat, tag: nat, rest: bytes)
    requires wireType < 8 && 0 < tag < 0x2000_0000
    ensures DecodeTag(TagBytes(wireType, tag) + rest) == Tag(wireType, tag, |TagBytes(wireType, tag)|)
  {
    hide EncodeVarint, DecodeVarint32, Accepts32;
    Varint32Decodes(tag * 8 + wireType, rest);
    Accepts32Is(tag * 8 + wireType);
  }

  lemma {:induction false} FindsField(fields: seq<Field>, i: nat)
    requires i < |fields| && forall j, k :: 0 <= j < k < |fields| ==> fields[j].tag != fields[k].tag
    ensures Find(fields, fields[i].tag, 0) == i
  {
  }

  /** A field with its tag is read by the decoder of that field. */
  lemma {:induction false} ParsesTagged(fields: seq<Field>, i: nat, wireType: nat, payload: bytes, rest: bytes,
      cur: Message, seen: set<nat>, slot: Slot, which: map<nat, nat>)
    requires WellFormed(fields) && i < |fields| && |cur.slots| == |fields| && wireType < 8
    requires ParseField(fields[i], wireType, payload + rest, cur.slots[i], cur.which) == Parsed(slot, which, |payload|)
    ensures ParseMessage(fields, TagBytes(wireType, fields[i].tag) + payload + rest, cur, seen, 0)
            == ParseMessage(fields, rest, Message(cur.slots[i := slot], which), Seen(fields, i, seen), 0)
  {
    hide TagBytes, DecodeTag, ParseField, WellFormed, Seen;
    var tag := TagBytes(wireType, fields[i].tag);
    var b := tag + payload + rest;
    assert b == tag + (payload + rest);
    TagsOf(fields, i);
    ParsesTag(wireType, fields[i].tag, payload + rest);
    assert b[|tag|..] == payload + rest;
    assert b[|tag| + |payload|..] == rest;
    assert b != [] by {
      ParsesTag(wireType, fields[i].tag, payload + rest);
      TagLength(wireType, fields[i].tag);
    }
    AnyPlaceWillDo(fields, rest, Message(cur.slots[i := slot], which), Seen(fields, i, seen), i);
  }

  lemma TagLength(wireType: nat, tag: nat)
    ensures TagBytes(wireType, tag) != []
  {
  }

  lemma {:induction false} TagsOf(fields: seq<Field>, i: nat)
    requires WellFormed(fields) && i < |fields|
    ensures 0 < fields[i].tag < 0x2000_0000 && Find(fields, fields[i].tag, 0) == i && WellFormed(fields[i].sub)
    ensures forall j, k :: 0 <= j < k < |fields| ==> fields[j].tag != fields[k].tag
  {
    DepthOfField(fields, i);
    FindsField(fields, i);
  }

  lemma NumbersAreBytes(f: Field, v: Value)
    requires Packable(f.ltype) && ValueBytes(f, v).Some?
    ensures ValueBytes(f, v).value != []
  {
  }

  /** A packed array. */
  lemma {:induction false} ParsesPacked(f: Field, items: seq<Value>, n: nat, room: seq<Value>, tail: bytes)
    returns (filled: seq<Value>)
    requires Packable(f.ltype) && n <= |items| && n <= f.arraySize <= |room| && ItemBytes(f, items, n, false).Some?
    ensures |filled| == |room| && forall j :: 0 <= j < n ==> SameValue(f, items[j], filled[j])
    ensures ParsePacked(f, ItemBytes(f, items, n, false).value + tail, 0, room) == ParsePacked(f, tail, n, filled)
    decreases n
  {
    hide ValueBytes, ParseScalar, SameValue;
    filled := room;
    if n == 0 {
      assert [] + tail == tail;
    } else {
      var v := ValueBytes(f, items[n - 1]);
      var front := ItemBytes(f, items, n - 1, false);
      assert [] + v.value == v.value;
      filled := ParsesPacked(f, items, n - 1, room, v.value + tail);
      assert front.value + v.value + tail == front.value + (v.value + tail);
      ParsesNumber(f, items[n - 1], tail);
      NumbersAreBytes(f, items[n - 1]);
      var r := ParseScalar(f, v.value + tail).value;
      assert (v.value + tail)[r.1..] == tail;
      filled := filled[n - 1 := r.0];
    }
  }

  // ----- Messages ----------------------------------------------------------------------

  /** After the fields before `i`: they are there, and the others are as the defaults left them. */
  ghost predicate Filled(fields: seq<Field>, m: Message, cur: Message, i: nat)
  {
    && i <= |fields| == |cur.slots| && i <= |m.slots|
    && (forall j :: 0 <= j < i ==> SameSlot(fields[j], m.slots[j], m, cur.slots[j], cur))
    && (forall j :: i <= j < |fields| ==> cur.slots[j] == DefaultSlot(fields[j]))
    && (forall j :: i <= j < |fields| && fields[j].htype.HOneof? ==> Which(cur, fields[j].htype.union) != fields[j].tag)
  }

  ghost predicate SeenUpTo(fields: seq<Field>, i: nat, seen: set<nat>)
    requires i <= |fields|
  {
    forall j :: 0 <= j < i && fields[j].htype == HRequired && RequiredBefore(fields, j) < MAX_REQUIRED_FIELDS ==>
      RequiredBefore(fields, j) in seen
  }

  /** Field `i` has been read into its slot. */
  lemma {:induction false} FillsNext(fields: seq<Field>, m: Message, cur: Message, i: nat, slot: Slot, which: map<nat,
      nat>)
    requires WellFormed(fields) && i < |fields| && i < |m.slots| && Filled(fields, m, cur, i)
    requires which == cur.which || (fields[i].htype.HOneof? && Which(m, fields[i].htype.union) == fields[i].tag
                                    && which == cur.which[fields[i].htype.union := fields[i].tag])
    requires SameSlot(fields[i], m.slots[i], m, slot, Message(cur.slots[i := slot], which))
    ensures Filled(fields, m, Message(cur.slots[i := slot], which), i + 1)
  {
    hide SameValue;
    var cur' := Message(cur.slots[i := slot], which);
    forall j | 0 <= j < i
      ensures SameSlot(fields[j], m.slots[j], m, cur'.slots[j], cur')
    {
      assert fields[j].tag != fields[i].tag;
      assert SameSlot(fields[j], m.slots[j], m, cur.slots[j], cur);
    }
    forall j | i < j < |fields| && fields[j].htype.HOneof?
      ensures Which(cur', fields[j].htype.union) != fields[j].tag
    {
      assert fields[i].tag != fields[j].tag;
    }
  }

  /** What a proto3 singular field leaves out is what the decoder starts from. */
  lemma ZeroIsSame(f: Field, slot: Slot, m: Message)
    requires f.htype == HOptional(false) && f.initial == None && WellFormed(f.sub)
    requires StoredSlot(f, slot) && IsDefault(f, slot, m)
    ensures SameValue(f, slot.value, InitialValue(f))
    decreases 1 + Depth(f.sub), 0
  {
    hide SameSlot;
    match f.ltype
    case LSubmessage => DefaultsAreSame(f.sub, slot.value.m);
    case LFixedLengthBytes => assert slot.value.b == Zeros(0);
    case _ =>
  }

  lemma {:induction false} DefaultSlotsAre(fields: seq<Field>, i: nat)
    requires i < |fields|
    ensures Defaults(fields).slots[i] == DefaultSlot(fields[i]) && Defaults(fields).which == map[]
  {
    hide DefaultSlot;
  }

  lemma {:induction false} AllDefaultAt(fields: seq<Field>, m: Message, n: nat, i: nat)
    requires i < n <= |fields| && AllDefault(fields, m, n)
    ensures n <= |m.slots| && IsDefault(fields[i], m.slots[i], m)
    decreases n
  {
    hide IsDefault;
    DepthOfField(fields, n - 1);
    if i < n - 1 {
      AllDefaultAt(fields, m, n - 1, i);
    }
  }

  lemma {:induction false} DefaultsAreSame(fields: seq<Field>, m: Message)
    requires WellFormed(fields) && Stored(fields, m) && AllDefault(fields, m, |fields|)
    ensures Same(fields, m, Defaults(fields), |fields|)
    decreases Depth(fields), 2
  {
    hide SameValue, IsDefault, AllDefault, DefaultSlot, InitialValue, StoredSlot, Defaults;
    forall i | 0 <= i < |fields|
      ensures SameSlot(fields[i], m.slots[i], m, Defaults(fields).slots[i], Defaults(fields))
    {
      DepthOfField(fields, i);
      AllDefaultAt(fields, m, |fields|, i);
      DefaultSlotsAre(fields, i);
      TagsOf(fields, i);
      DefaultIsLeftOut(fields[i], m.slots[i], m);
      AbsentIsSame(fields[i], m.slots[i], m, Defaults(fields));
    }
  }

  /** The encoder has nothing to write for the field. */
  predicate LeftOut(f: Field, slot: Slot, m: Message)
    requires StoredSlot(f, slot)
  {
    if f.htype.HRequired? then false
    else if f.htype.HOptional? then (if f.htype.hasField then !slot.has else IsDefault(f, slot, m))
    else if f.htype.HRepeated? then slot.count == 0
    else Which(m, f.htype.union) != f.tag
  }

  lemma DefaultIsLeftOut(f: Field, slot: Slot, m: Message)
    requires f.tag > 0 && StoredSlot(f, slot) && IsDefault(f, slot, m)
    ensures LeftOut(f, slot, m)
  {
    hide StoredValue, AllDefault;
  }

  /** A field that is left out, against the slot the decoder starts from. */
  lemma AbsentIsSame(f: Field, slot: Slot, m: Message, n: Message)
    requires f.tag > 0 && WellFormed(f.sub) && StoredSlot(f, slot)
             && (f.htype == HOptional(false) ==> f.initial == None)
    requires LeftOut(f, slot, m) && (f.htype.HOneof? ==> Which(n, f.htype.union) != f.tag)
    ensures SameSlot(f, slot, m, DefaultSlot(f), n)
    decreases 1 + Depth(f.sub), 1
  {
    hide SameValue, IsDefault, InitialValue, StoredValue;
    if f.htype == HOptional(false) {
      ZeroIsSame(f, slot, m);
    }
  }

  /** The decoder of a field undoes its encoder, submessages included. */
  lemma ParsesValue(f: Field, v: Value, dest: Value, rest: bytes)
    requires ValueBytes(f, v).Some? && |ValueBytes(f, v).value| < TWO32
    requires StoredValue(f, v) && TerminatedValue(f, v) && WellFormed(f.sub)
    requires f.ltype.LSubmessage? ==> f.htype.HRepeated? || dest == Sub(Defaults(f.sub))
    ensures ParseValue(f, ValueBytes(f, v).value + rest, dest).Some?
    ensures var r := ParseValue(f, ValueBytes(f, v).value + rest, dest).value;
            r.1 == |ValueBytes(f, v).value| && SameValue(f, v, r.0)
    decreases 1 + Depth(f.sub), 0, 0
  {
    if f.ltype.LSubmessage? {
      hide EncodeVarint, DecodeVarint32, StringBytes, BytesFrom, ParseMessage, Defaults, Filled, SeenUpTo, Same,
           Stored, Terminated, WellFormed;
      var s := BytesFrom(f.sub, v.m, 0).value;
      StringLonger(s);
      ParsesLength(s, rest);
      NothingFilled(f.sub, v.m);
      var r := ParsesFrom(f.sub, v.m, Defaults(f.sub), 0, {});
    } else if Packable(f.ltype) {
      ParsesNumber(f, v, rest);
    } else {
      ParsesText(f, v, rest);
    }
  }

  lemma {:induction false} NothingFilled(fields: seq<Field>, m: Message)
    requires WellFormed(fields)
    ensures Filled(fields, m, Defaults(fields), 0) && SeenUpTo(fields, 0, {})
  {
    hide DefaultSlot, Defaults;
    forall j | 0 <= j < |fields|
      ensures Defaults(fields).slots[j] == DefaultSlot(fields[j]) && fields[j].tag > 0
              && Defaults(fields).which == map[]
    {
      DefaultSlotsAre(fields, j);
      TagsOf(fields, j);
    }
    assert |fields| == 0 ==> true;
  }

  /** Tagged items one after the other. */
  lemma {:induction false} ParsesItems(fields: seq<Field>, i: nat, items: seq<Value>, n: nat, cur: Message,
      seen: set<nat>, rest: bytes)
    returns (filled: seq<Value>)
    requires WellFormed(fields) && i < |fields| == |cur.slots| && n <= |items|
    requires var f := fields[i];
             && f.htype.HRepeated? && n <= f.arraySize
             && cur.slots[i].Many? && cur.slots[i].count == 0 && |cur.slots[i].items| == f.arraySize
             && ItemBytes(f, items, n, true).Some? && |ItemBytes(f, items, n, true).value| < TWO32
             && (forall j :: 0 <= j < n ==> StoredValue(f, items[j]) && TerminatedValue(f, items[j]))
    ensures |filled| == fields[i].arraySize && forall j :: 0 <= j < n ==> SameValue(fields[i], items[j], filled[j])
    ensures ParseMessage(fields, ItemBytes(fields[i], items, n, true).value + rest, cur, seen, 0)
            == ParseMessage(fields, rest, Message(cur.slots[i := Many(n, filled)], cur.which), seen, 0)
    decreases Depth(fields), 1, n
  {
    hide ValueBytes, ParseValue, SameValue, WellFormed, ParseMessage, TagBytes, StoredValue, TerminatedValue;
    var f := fields[i];
    filled := cur.slots[i].items;
    DepthOfField(fields, i);
    if n == 0 {
      assert [] + rest == rest && cur.slots[i := Many(0, filled)] == cur.slots;
    } else {
      var tag, v, front := TagBytes(WireType(f.ltype), f.tag), ValueBytes(f, items[n - 1]),
        ItemBytes(f, items, n - 1, true);
      TagsOf(fields, i);
      var last := tag + v.value;
      filled := ParsesItems(fields, i, items, n - 1, cur, seen, last + rest);
      assert front.value + last + rest == front.value + (last + rest);
      var mid := Message(cur.slots[i := Many(n - 1, filled)], cur.which);
      ParsesValue(f, items[n - 1], filled[n - 1], rest);
      var r := ParseValue(f, v.value + rest, filled[n - 1]).value;
      ParsesTagged(fields, i, WireType(f.ltype), v.value, rest, mid, seen, Many(n, filled[n - 1 := r.0]), cur.which);
      assert mid.slots[i := Many(n, filled[n - 1 := r.0])] == cur.slots[i := Many(n, filled[n - 1 := r.0])];
      filled := filled[n - 1 := r.0];
    }
  }

  lemma {:induction false} FilledAt(fields: seq<Field>, m: Message, cur: Message, i: nat)
    requires Filled(fields, m, cur, i) && i < |fields|
    ensures |cur.slots| == |fields| && cur.slots[i] == DefaultSlot(fields[i])
    ensures fields[i].htype.HOneof? ==> Which(cur, fields[i].htype.union) != fields[i].tag
  {
    hide DefaultSlot, SameSlot;
  }

  lemma {:induction false} NoInitial(fields: seq<Field>, i: nat)
    requires WellFormed(fields) && i < |fields|
    ensures fields[i].htype == HOptional(false) ==> fields[i].initial == None
  {
  }

  lemma {:induction false} SeenNext(fields: seq<Field>, i: nat, seen: set<nat>)
    requires i < |fields| && SeenUpTo(fields, i, seen)
    ensures SeenUpTo(fields, i + 1, Seen(fields, i, seen))
    ensures fields[i].htype != HRequired ==> SeenUpTo(fields, i + 1, seen) && Seen(fields, i, seen) == seen
  {
    hide RequiredBefore;
  }

  lemma {:induction false} TerminatedAt(fields: seq<Field>, m: Message, i: nat)
    requires Terminated(fields, m) && i < |fields| && i < |m.slots|
    ensures m.slots[i].One? ==> TerminatedValue(fields[i], m.slots[i].value)
    ensures m.slots[i].Many? ==>
            forall j :: 0 <= j < |m.slots[i].items| ==> TerminatedValue(fields[i], m.slots[i].items[j])
  {
    hide TerminatedValue;
    DepthOfField(fields, i);
  }

  lemma LeftOutIsEmpty(f: Field, slot: Slot, m: Message)
    requires StoredSlot(f, slot) && LeftOut(f, slot, m)
    ensures FieldBytes(f, slot, m) == Some([])
  {
    hide StoredValue, IsDefault;
  }

  lemma WrittenBytes(f: Field, slot: Slot, m: Message)
    requires StoredSlot(f, slot) && !LeftOut(f, slot, m)
    ensures FieldBytes(f, slot, m)
            == (if f.htype.HRepeated? then ArrayBytes(f, slot.count, slot.items) else TaggedBytes(f, slot.value))
  {
    hide StoredValue, IsDefault, TaggedBytes, ArrayBytes;
  }

  /** A field that holds one value. */
  lemma {:induction false} ParsesSingle(fields: seq<Field>, m: Message, cur: Message, i: nat, seen: set<nat>,
      rest: bytes)
    returns (slot: Slot, which: map<nat, nat>)
    requires WellFormed(fields) && Stored(fields, m) && Terminated(fields, m) && i < |fields|
    requires !fields[i].htype.HRepeated? && !LeftOut(fields[i], m.slots[i], m)
    requires TaggedBytes(fields[i], m.slots[i].value).Some? && |TaggedBytes(fields[i], m.slots[i].value).value| < TWO32
    requires Filled(fields, m, cur, i)
    ensures |cur.slots| == |fields|
    ensures ParseMessage(fields, TaggedBytes(fields[i], m.slots[i].value).value + rest, cur, seen, 0)
            == ParseMessage(fields, rest, Message(cur.slots[i := slot], which), Seen(fields, i, seen), 0)
    ensures Filled(fields, m, Message(cur.slots[i := slot], which), i + 1)
    decreases Depth(fields), 2, 0
  {
    hide ValueBytes, ParseValue, SameValue, WellFormed, ParseMessage, TagBytes, StoredValue, TerminatedValue, Filled,
         IsDefault, Terminated, Seen;
    var f, v := fields[i], m.slots[i].value;
    DepthOfField(fields, i);
    TagsOf(fields, i);
    FilledAt(fields, m, cur, i);
    TerminatedAt(fields, m, i);
    assert StoredSlot(f, m.slots[i]);
    var payload := ValueBytes(f, v).value;
    var dest := if f.ltype.LSubmessage? then Sub(Defaults(f.sub)) else cur.slots[i].value;
    ParsesValue(f, v, dest, rest);
    var r := ParseValue(f, payload + rest, dest).value;
    slot := One(if f.htype == HOptional(true) then true else cur.slots[i].has, r.0);
    which := if f.htype.HOneof? then cur.which[f.htype.union := f.tag] else cur.which;
    FieldParses(f, payload + rest, cur.slots[i], cur.which, dest, r.0, r.1);
    ParsesTagged(fields, i, WireType(f.ltype), payload, rest, cur, seen, slot, which);
    FillsNext(fields, m, cur, i, slot, which);
  }

  lemma FieldParses(f: Field, b: bytes, slot: Slot, which: map<nat, nat>, dest: Value, v: Value, n: nat)
    requires !f.htype.HRepeated? && slot == DefaultSlot(f)
    requires f.htype.HOneof? ==> (if f.htype.union in which then which[f.htype.union] else 0) != f.tag
    requires dest == (if f.ltype.LSubmessage? then Sub(Defaults(f.sub)) else slot.value)
    requires ParseValue(f, b, dest) == Some((v, n))
    ensures ParseField(f, WireType(f.ltype), b, slot, which)
            == Parsed(One(if f.htype == HOptional(true) then true else slot.has, v),
                      if f.htype.HOneof? then which[f.htype.union := f.tag] else which, n)
  {
    hide ParseValue, Defaults;
  }

  /** A repeated field. */
  lemma {:induction false} ParsesArray(fields: seq<Field>, m: Message, cur: Message, i: nat, seen: set<nat>,
      rest: bytes)
    returns (slot: Slot)
    requires WellFormed(fields) && Stored(fields, m) && Terminated(fields, m) && i < |fields|
    requires fields[i].htype.HRepeated? && !LeftOut(fields[i], m.slots[i], m)
    requires var b := ArrayBytes(fields[i], m.slots[i].count, m.slots[i].items); b.Some? && |b.value| < TWO32
    requires Filled(fields, m, cur, i)
    ensures |cur.slots| == |fields|
    ensures ParseMessage(fields, ArrayBytes(fields[i], m.slots[i].count, m.slots[i].items).value + rest, cur, seen, 0)
            == ParseMessage(fields, rest, Message(cur.slots[i := slot], cur.which), seen, 0)
    ensures Filled(fields, m, Message(cur.slots[i := slot], cur.which), i + 1)
    decreases Depth(fields), 2, 0
  {
    hide ItemBytes, SameValue, WellFormed, ParseMessage, TagBytes, StringBytes, StoredValue, TerminatedValue, Filled,
         Terminated, ParsePacked, ParseValue;
    var f, count, items := fields[i], m.slots[i].count, m.slots[i].items;
    DepthOfField(fields, i);
    TagsOf(fields, i);
    FilledAt(fields, m, cur, i);
    TerminatedAt(fields, m, i);
    assert StoredSlot(f, m.slots[i]);
    var filled;
    if Packable(f.ltype) {
      var packed := ItemBytes(f, items, count, false).value;
      var room := cur.slots[i].items;
      filled := ParsesPacked(f, items, count, room, []);
      assert packed + [] == packed;
      StringLonger(packed);
      ParsesLength(packed, rest);
      PackedEnds(f, count, filled);
      slot := Many(count, filled);
      ParsesTagged(fields, i, WT_STRING, StringBytes(packed), rest, cur, seen, slot, cur.which);
    } else {
      filled := ParsesItems(fields, i, items, count, cur, seen, rest);
      slot := Many(count, filled);
    }
    FillsNext(fields, m, cur, i, slot, cur.which);
  }

  lemma PackedEnds(f: Field, count: nat, filled: seq<Value>)
    requires Packable(f.ltype)
    ensures ParsePacked(f, [], count, filled) == Some((count, filled))
  {
  }

  /** What field `i` contributes leads the decoder to the next field, and rests in its slot. */
  lemma {:induction false} ParsesField(fields: seq<Field>, m: Message, cur: Message, i: nat, seen: set<nat>,
      rest: bytes)
    returns (slot: Slot, which: map<nat, nat>, seen': set<nat>)
    requires WellFormed(fields) && Stored(fields, m) && Terminated(fields, m) && i < |fields|
    requires FieldBytes(fields[i], m.slots[i], m).Some? && |FieldBytes(fields[i], m.slots[i], m).value| < TWO32
    requires Filled(fields, m, cur, i) && SeenUpTo(fields, i, seen)
    ensures |cur.slots| == |fields|
    ensures ParseMessage(fields, FieldBytes(fields[i], m.slots[i], m).value + rest, cur, seen, 0)
            == ParseMessage(fields, rest, Message(cur.slots[i := slot], which), seen', 0)
    ensures Filled(fields, m, Message(cur.slots[i := slot], which), i + 1) && SeenUpTo(fields, i + 1, seen')
    ensures seen' == Seen(fields, i, seen) && (LeftOut(fields[i], m.slots[i], m) ==> slot == cur.slots[i])
    decreases Depth(fields), 3, 0
  {
    hide WellFormed, ParseMessage, Filled, SeenUpTo, TaggedBytes, ArrayBytes, IsDefault, Terminated, FieldBytes,
         StoredValue, Seen, DefaultSlot, SameSlot;
    var f := fields[i];
    DepthOfField(fields, i);
    TagsOf(fields, i);
    FilledAt(fields, m, cur, i);
    SeenNext(fields, i, seen);
    assert StoredSlot(f, m.slots[i]);
    if LeftOut(f, m.slots[i], m) {
      LeftOutIsEmpty(f, m.slots[i], m);
      assert [] + rest == rest;
      NoInitial(fields, i);
      AbsentIsSame(f, m.slots[i], m, cur);
      slot, which, seen' := cur.slots[i], cur.which, seen;
      assert cur.slots[i := slot] == cur.slots;
      FillsNext(fields, m, cur, i, slot, which);
    } else {
      WrittenBytes(f, m.slots[i], m);
      if f.htype.HRepeated? {
        which, seen' := cur.which, seen;
        slot := ParsesArray(fields, m, cur, i, seen, rest);
      } else {
        seen' := Seen(fields, i, seen);
        slot, which := ParsesSingle(fields, m, cur, i, seen, rest);
      }
    }
  }

  lemma {:induction false} ParsesFrom(fields: seq<Field>, m: Message, cur: Message, i: nat, seen: set<nat>)
    returns (r: Message)
    requires WellFormed(fields) && Stored(fields, m) && Terminated(fields, m) && i <= |fields|
    requires BytesFrom(fields, m, i).Some? && |BytesFrom(fields, m, i).value| < TWO32
    requires Filled(fields, m, cur, i) && SeenUpTo(fields, i, seen)
    ensures ParseMessage(fields, BytesFrom(fields, m, i).value, cur, seen, 0) == Some(r)
    ensures Same(fields, m, r, |fields|)
    decreases Depth(fields), 4, |fields| - i
  {
    if i == |fields| {
      hide SameSlot, DefaultSlot, StoredSlot, WellFormed, Terminated;
      r := cur;
    } else {
      hide FieldBytes, ParseMessage, Filled, SeenUpTo, WellFormed, Terminated, StoredSlot, Same;
      DepthOfField(fields, i);
      var rest := BytesFrom(fields, m, i + 1).value;
      var slot, which, seen' := ParsesField(fields, m, cur, i, seen, rest);
      r := ParsesFrom(fields, m, Message(cur.slots[i := slot], which), i + 1, seen');
    }
  }

  /** The message round trip. Whatever the encoder accepts, if its strings leave room for their
      terminators and it takes less than four gigabytes, is decoded, and the result is the message up to
      the contents of absent fields. */
  lemma {:induction false} MessageRoundTrip(fields: seq<Field>, m: Message) returns (r: Message)
    requires WellFormed(fields) && Stored(fields, m) && Terminated(fields, m)
    requires BytesFrom(fields, m, 0).Some? && |BytesFrom(fields, m, 0).value| < TWO32
    ensures ParseMessage(fields, BytesFrom(fields, m, 0).value, Defaults(fields), {}, 0) == Some(r)
    ensures Same(fields, m, r, |fields|)
  {
    NothingFilled(fields, m);
    r := ParsesFrom(fields, m, Defaults(fields), 0, {});
  }
}
