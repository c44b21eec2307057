/** Whatever the bytes, what the decoder stores fits the memory of its fields, and can be encoded again. */
module PbFits {
  import opened Coding
  import opened Options
  import opened PbWire
  import opened PbMessage
  import opened PbEncode
  import opened PbParse
  import opened PbRoundTrip

  predicate FitsValue(f: Field, v: Value)
    decreases 1 + Depth(f.sub), 0
  {
    match f.ltype
    case LBool => v.Int?
    case LVarint | LSVarint => v.Int? && FitsSigned(v.v, f.dataSize)
    case LUVarint => v.Int? && FitsUnsigned(v.v, f.dataSize)
    case LFixed32 => v.Int? && FitsUnsigned(v.v, 4)
    case LFixed64 => v.Int? && FitsUnsigned(v.v, 8)
    case LBytes => v.Raw? && |v.b| + BYTES_OFFSET <= f.dataSize
    case LString => v.Raw? && |v.b| < f.dataSize
    case LFixedLengthBytes => v.Raw? && |v.b| == f.dataSize
    case LSubmessage => v.Sub? && Fits(f.sub, v.m)
  }

  predicate FitsSlot(f: Field, slot: Slot)
    decreases 1 + Depth(f.sub), 1
  {
    if f.htype.HRepeated? then
      && slot.Many? && slot.count <= f.arraySize == |slot.items|
      && forall i :: 0 <= i < |slot.items| ==> FitsValue(f, slot.items[i])
    else slot.One? && FitsValue(f, slot.value)
  }

  /** No array is over its capacity, every string has room for its terminator, and every number is in range. */
  predicate Fits(fields: seq<Field>, m: Message)
    decreases Depth(fields), 2
  {
    && |m.slots| == |fields|
    && forall i :: 0 <= i < |fields| ==> (DepthOfField(fields, i); FitsSlot(fields[i], m.slots[i]))
  }

  /** The fields have room for their default values. */
  predicate Roomy(fields: seq<Field>)
    decreases Depth(fields)
  {
    forall i :: 0 <= i < |fields| ==>
      (DepthOfField(fields, i);
       var f := fields[i];
       if f.ltype.LSubmessage? then Roomy(f.sub)
       else FitsValue(f, ZeroValue(f)) && (f.initial.Some? ==> FitsValue(f, f.initial.value)))
  }

  lemma {:induction false} RoomyAt(fields: seq<Field>, i: nat)
    requires Roomy(fields) && i < |fields|
    ensures var f := fields[i];
            if f.ltype.LSubmessage? then Roomy(f.sub)
            else FitsValue(f, ZeroValue(f)) && (f.initial.Some? ==> FitsValue(f, f.initial.value))
  {
    hide FitsValue;
    DepthOfField(fields, i);
  }

  lemma {:induction false} DefaultsFit(fields: seq<Field>)
    requires Roomy(fields)
    ensures Fits(fields, Defaults(fields))
    decreases Depth(fields)
  {
    hide FitsValue, Roomy, Defaults;
    forall i | 0 <= i < |fields|
      ensures FitsSlot(fields[i], Defaults(fields).slots[i])
    {
      DepthOfField(fields, i);
      DefaultSlotsAre(fields, i);
      RoomyAt(fields, i);
      if fields[i].ltype.LSubmessage? {
        DefaultsFit(fields[i].sub);
        SubFits(fields[i], Defaults(fields[i].sub));
      }
    }
  }

  lemma SubFits(f: Field, m: Message)
    requires f.ltype.LSubmessage?
    ensures FitsValue(f, Sub(m)) <==> Fits(f.sub, m)
  {
  }

  lemma ScalarFits(f: Field, b: bytes)
    requires ParseScalar(f, b).Some?
    ensures FitsValue(f, ParseScalar(f, b).value.0)
  {
    hide DecodeVarint32, ReadVarint, DecodeFixed, UnZigZag, Pow256, FitsSigned;
    Pow256Is();
    if f.ltype == LFixed32 {
      FixedRoundTripBack(b[..4]);
    } else if f.ltype == LFixed64 {
      FixedRoundTripBack(b[..8]);
    }
  }

  lemma ValueFits(f: Field, b: bytes, dest: Value)
    requires ParseValue(f, b, dest).Some? && (f.ltype.LSubmessage? ==> Roomy(f.sub))
    requires f.ltype.LSubmessage? && !f.htype.HRepeated? && dest.Sub? ==> Fits(f.sub, dest.m)
    ensures FitsValue(f, ParseValue(f, b, dest).value.0)
    decreases 1 + Depth(f.sub), 0, 0
  {
    hide MakeSubstream, ParseMessage, ParseScalar, Defaults, Fits, Roomy;
    if f.ltype.LSubmessage? {
      DefaultsFit(f.sub);
      var s := MakeSubstream(b);
      var m0 := if f.htype.HRepeated? || !dest.Sub? then Defaults(f.sub) else dest.m;
      MessageFits(f.sub, b[s.start..s.start + s.size], m0, {}, 0);
    } else {
      ScalarFits(f, b);
    }
  }

  lemma {:induction false} PackedFits(f: Field, b: bytes, count: nat, items: seq<Value>)
    requires Packable(f.ltype) && ParsePacked(f, b, count, items).Some? && count <= f.arraySize == |items|
    requires forall i :: 0 <= i < |items| ==> FitsValue(f, items[i])
    ensures var (n, filled) := ParsePacked(f, b, count, items).value;
            n <= f.arraySize == |filled| && forall i :: 0 <= i < |filled| ==> FitsValue(f, filled[i])
    decreases |b|
  {
    hide ParseScalar, FitsValue;
    if b != [] {
      var (v, n) := ParseScalar(f, b).value;
      ScalarFits(f, b);
      PackedFits(f, b[n..], count + 1, items[count := v]);
    }
  }

  lemma FieldFits(f: Field, wireType: nat, b: bytes, slot: Slot, which: map<nat, nat>)
    requires ParseField(f, wireType, b, slot, which).Parsed? && FitsSlot(f, slot)
    requires f.ltype.LSubmessage? ==> Roomy(f.sub)
    ensures FitsSlot(f, ParseField(f, wireType, b, slot, which).slot)
    decreases 1 + Depth(f.sub), 2, 0
  {
    hide MakeSubstream, ParseValue, ParsePacked, Defaults, Roomy, FitsValue;
    match f.htype
    case HRequired | HOptional(_) =>
      FitsInside(f, slot.value);
      ValueFits(f, b, slot.value);
    case HRepeated =>
      if wireType == WT_STRING && Packable(f.ltype) {
        var s := MakeSubstream(b);
        PackedFits(f, b[s.start..s.start + s.size], slot.count, slot.items);
      } else {
        ValueFits(f, b, slot.items[slot.count]);
      }
    case HOneof(union) =>
      var active := if union in which then which[union] else 0;
      FitsInside(f, slot.value);
      if f.ltype.LSubmessage? {
        DefaultsFit(f.sub);
      }
      ValueFits(f, b, if f.ltype.LSubmessage? && active != f.tag then Sub(Defaults(f.sub)) else slot.value);
  }

  lemma FitsInside(f: Field, v: Value)
    requires FitsValue(f, v)
    ensures f.ltype.LSubmessage? ==> v.Sub? && Fits(f.sub, v.m)
  {
  }

  lemma {:induction false} MessageFits(fields: seq<Field>, b: bytes, m: Message, seen: set<nat>, pos: nat)
    requires pos <= |fields| && Roomy(fields) && Fits(fields, m) && ParseMessage(fields, b, m, seen, pos).Some?
    ensures Fits(fields, ParseMessage(fields, b, m, seen, pos).value)
    decreases Depth(fields), 3, |b|
  {
    hide ParseField, DecodeTag, SkipField, AllRequiredSeen, FindFrom, Seen, FitsSlot, Roomy;
    if b != [] && DecodeTag(b).Tag? {
      var t := DecodeTag(b);
      var i := FindFrom(fields, t.tag, pos);
      if i == |fields| {
        MessageFits(fields, b[t.length + SkipField(b[t.length..], t.wireType).value..], m, seen, pos);
      } else {
        DepthOfField(fields, i);
        RoomyAt(fields, i);
        var p := ParseField(fields[i], t.wireType, b[t.length..], m.slots[i], m.which);
        FieldFits(fields[i], t.wireType, b[t.length..], m.slots[i], m.which);
        MessageFits(fields, b[t.length + p.length..], Message(m.slots[i := p.slot], p.which), Seen(fields, i, seen), i);
      }
    }
  }

  // ----- Encoding what was decoded -----------------------------------------------------

  lemma ValueEncodes(f: Field, v: Value)
    requires FitsValue(f, v)
    ensures ValueBytes(f, v).Some? && StoredValue(f, v) && TerminatedValue(f, v)
    decreases 1 + Depth(f.sub), 0
  {
    hide EncodeVarint, EncodeFixed, ToUnsigned64, ZigZag, Fits, BytesFrom, Stored, Terminated;
    if f.ltype.LSubmessage? {
      MessageEncodes(f.sub, v.m, 0);
    } else if f.ltype == LString {
      assert |CString(v.b)| <= |v.b|;
    }
  }

  lemma {:induction false} ItemsEncode(f: Field, items: seq<Value>, n: nat, tagged: bool)
    requires n <= |items| && forall i :: 0 <= i < |items| ==> FitsValue(f, items[i])
    ensures ItemBytes(f, items, n, tagged).Some?
    decreases 1 + Depth(f.sub), 1, n
  {
    hide FitsValue, ValueBytes;
    if n > 0 {
      ValueEncodes(f, items[n - 1]);
      ItemsEncode(f, items, n - 1, tagged);
    }
  }

  lemma SlotEncodes(f: Field, slot: Slot, m: Message)
    requires FitsSlot(f, slot)
    ensures FieldBytes(f, slot, m).Some? && StoredSlot(f, slot)
    ensures slot.One? ==> TerminatedValue(f, slot.value)
    ensures slot.Many? ==> forall j :: 0 <= j < |slot.items| ==> TerminatedValue(f, slot.items[j])
    decreases 1 + Depth(f.sub), 2
  {
    hide FitsValue, ValueBytes, ItemBytes, StoredValue, TerminatedValue, IsDefault, TagBytes, StringBytes;
    if slot.One? {
      ValueEncodes(f, slot.value);
    } else {
      forall j | 0 <= j < |slot.items|
        ensures StoredValue(f, slot.items[j]) && TerminatedValue(f, slot.items[j])
      {
        ValueEncodes(f, slot.items[j]);
      }
      ItemsEncode(f, slot.items, slot.count, false);
      ItemsEncode(f, slot.items, slot.count, true);
    }
  }

  lemma {:induction false} MessageEncodes(fields: seq<Field>, m: Message, i: nat)
    requires Fits(fields, m) && i <= |fields|
    ensures BytesFrom(fields, m, i).Some? && Stored(fields, m) && Terminated(fields, m)
    decreases Depth(fields), 3, |fields| - i
  {
    hide FitsSlot, FieldBytes, StoredSlot, TerminatedValue;
    forall j | 0 <= j < |fields|
      ensures FieldBytes(fields[j], m.slots[j], m).Some? && StoredSlot(fields[j], m.slots[j])
      ensures m.slots[j].One? ==> TerminatedValue(fields[j], m.slots[j].value)
      ensures m.slots[j].Many? ==>
                forall k :: 0 <= k < |m.slots[j].items| ==> TerminatedValue(fields[j], m.slots[j].items[k])
    {
      DepthOfField(fields, j);
      SlotEncodes(fields[j], m.slots[j], m);
    }
    if i < |fields| {
      MessageEncodes(fields, m, i + 1);
    }
  }

  /** Whatever bytes the decoder accepts, no matter who wrote them: the message fits its memory, and encoding it
      again gives bytes that are decoded to the same message. */
  lemma {:induction false} DecodedIsEncodable(fields: seq<Field>, b: bytes) returns (again: Message)
    requires WellFormed(fields) && Roomy(fields) && ParseMessage(fields, b, Defaults(fields), {}, 0).Some?
    ensures var m := ParseMessage(fields, b, Defaults(fields), {}, 0).value;
            && Fits(fields, m) && BytesFrom(fields, m, 0).Some?
            && (|BytesFrom(fields, m, 0).value| < TWO32 ==>
                  && ParseMessage(fields, BytesFrom(fields, m, 0).value, Defaults(fields), {}, 0) == Some(again)
                  && Same(fields, m, again, |fields|))
  {
    hide WellFormed, Roomy, ParseMessage, Defaults, Fits, BytesFrom, Stored, Terminated, Same;
    DefaultsFit(fields);
    MessageFits(fields, b, Defaults(fields), {}, 0);
    again := ParseMessage(fields, b, Defaults(fields), {}, 0).value;
    var m := again;
    MessageEncodes(fields, m, 0);
    if |BytesFrom(fields, m, 0).value| < TWO32 {
      again := MessageRoundTrip(fields, m);
    }
  }

  // ----- Default values take no bytes --------------------------------------------------

  /** No required fields, and no proto3 fields with a value of their own or of fixed length: those are always
      written. */
  predicate AllOptional(fields: seq<Field>)
    decreases Depth(fields)
  {
    forall i :: 0 <= i < |fields| ==>
      (DepthOfField(fields, i);
       var f := fields[i];
       && f.tag > 0 && f.htype != HRequired
       && (f.htype == HOptional(false) ==>
             f.initial == None && (f.ltype == LFixedLengthBytes ==> f.dataSize == 0)
               && (f.ltype.LSubmessage? ==> AllOptional(f.sub))))
  }

  lemma {:induction false} OptionalAt(fields: seq<Field>, i: nat)
    requires AllOptional(fields) && i < |fields|
    ensures var f := fields[i];
            && f.tag > 0 && f.htype != HRequired
            && (f.htype == HOptional(false) ==>
                  f.initial == None && (f.ltype == LFixedLengthBytes ==> f.dataSize == 0)
                    && (f.ltype.LSubmessage? ==> AllOptional(f.sub)))
  {
    DepthOfField(fields, i);
  }

  lemma DefaultSlotIsDefault(f: Field, m: Message)
    requires f.tag > 0 && f.htype != HRequired && m.which == map[]
    requires f.htype == HOptional(false) ==>
               f.initial == None && (f.ltype == LFixedLengthBytes ==> f.dataSize == 0)
                 && (f.ltype.LSubmessage? ==> AllOptional(f.sub))
    ensures IsDefault(f, DefaultSlot(f), m) && FieldBytes(f, DefaultSlot(f), m) == Some([])
    decreases 1 + Depth(f.sub), 0, 0
  {
    hide AllOptional, AllDefault, Defaults, ValueBytes, TaggedBytes;
    if f.htype == HOptional(false) && f.ltype.LSubmessage? {
      AllDefaults(f.sub, |f.sub|);
    }
  }

  lemma {:induction false} AllDefaults(fields: seq<Field>, n: nat)
    requires AllOptional(fields) && n <= |fields|
    ensures AllDefault(fields, Defaults(fields), n)
    decreases Depth(fields), 1, n
  {
    hide AllOptional, IsDefault, DefaultSlot, Defaults;
    if n > 0 {
      DepthOfField(fields, n - 1);
      OptionalAt(fields, n - 1);
      DefaultSlotsAre(fields, n - 1);
      DefaultSlotIsDefault(fields[n - 1], Defaults(fields));
      AllDefaults(fields, n - 1);
    }
  }

  /** A message that nothing has been set in is encoded as no bytes at all. */
  lemma {:induction false} DefaultsTakeNothing(fields: seq<Field>, i: nat)
    requires AllOptional(fields) && i <= |fields|
    ensures BytesFrom(fields, Defaults(fields), i) == Some([])
    decreases |fields| - i
  {
    hide AllOptional, FieldBytes, DefaultSlot, Defaults;
    if i < |fields| {
      DepthOfField(fields, i);
      OptionalAt(fields, i);
      DefaultSlotsAre(fields, i);
      DefaultSlotIsDefault(fields[i], Defaults(fields));
      DefaultsTakeNothing(fields, i + 1);
      var none: bytes := [];
      assert none + none == none;
    }
  }
}
