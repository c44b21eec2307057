/** What the decoder leaves in fields that are not in the bytes, and what it makes of the end of a message. */
module PbDefaults {
  import opened Coding
  import opened Options
  import opened PbWire
  import opened PbMessage
  import opened PbEncode
  import opened PbParse
  import opened PbRoundTrip
  import opened PbCompat

  /** A value that was never set: the one the descriptor gives, or else zero, or no bytes. */
  ghost predicate Unset(f: Field, v: Value)
  {
    if f.ltype.LSubmessage? then v == Sub(Defaults(f.sub))
    else if f.initial.Some? then v == f.initial.value
    else if Packable(f.ltype) then v == Int(0)
    else v.Raw? && |v.b| == (if f.ltype == LFixedLengthBytes then f.dataSize else 0)
         && forall i :: 0 <= i < |v.b| ==> v.b[i] == 0
  }

  lemma DefaultIsUnset(f: Field)
    ensures f.htype.HRequired? || f.htype.HOptional? ==>
              DefaultSlot(f).One? && !DefaultSlot(f).has && Unset(f, DefaultSlot(f).value)
    ensures f.htype.HRepeated? ==> DefaultSlot(f).Many? && DefaultSlot(f).count == 0
  {
    hide Defaults;
  }

  lemma {:induction false} LeftAlone(fields: seq<Field>, m: Message, cur: Message, i: nat, seen: set<nat>)
    returns (r: Message)
    requires WellFormed(fields) && Stored(fields, m) && Terminated(fields, m) && i <= |fields| == |cur.slots|
    requires BytesFrom(fields, m, i).Some? && |BytesFrom(fields, m, i).value| < TWO32
    requires Filled(fields, m, cur, i) && SeenUpTo(fields, i, seen)
    ensures ParseMessage(fields, BytesFrom(fields, m, i).value, cur, seen, 0) == Some(r)
    ensures |r.slots| == |fields| && forall j :: 0 <= j < i ==> r.slots[j] == cur.slots[j]
    ensures forall j :: i <= j < |fields| && LeftOut(fields[j], m.slots[j], m) ==> r.slots[j] == DefaultSlot(fields[j])
    decreases |fields| - i
  {
    hide FieldBytes, ParseMessage, Filled, SeenUpTo, WellFormed, Terminated, StoredSlot, LeftOut, DefaultSlot;
    if i == |fields| {
      NothingLeft(fields, cur, seen);
      NothingMore(fields, m);
      r := cur;
    } else {
      DepthOfField(fields, i);
      FilledAt(fields, m, cur, i);
      var rest := BytesFrom(fields, m, i + 1).value;
      var slot, which, seen' := ParsesField(fields, m, cur, i, seen, rest);
      r := LeftAlone(fields, m, Message(cur.slots[i := slot], which), i + 1, seen');
    }
  }

  lemma {:induction false} NothingLeft(fields: seq<Field>, cur: Message, seen: set<nat>)
    requires SeenUpTo(fields, |fields|, seen)
    ensures ParseMessage(fields, [], cur, seen, 0) == Some(cur)
  {
  }

  /** A field the sender has not set is afterwards as the descriptor says it should be: not there and holding its
      default, an array of no items, or a member of a union that is not the active one. */
  lemma {:induction false} AbsentIsUnset(fields: seq<Field>, m: Message, i: nat) returns (r: Message)
    requires WellFormed(fields) && Stored(fields, m) && Terminated(fields, m) && i < |fields|
    requires BytesFrom(fields, m, 0).Some? && |BytesFrom(fields, m, 0).value| < TWO32
    requires LeftOut(fields[i], m.slots[i], m)
    ensures ParseMessage(fields, BytesFrom(fields, m, 0).value, Defaults(fields), {}, 0) == Some(r) && i < |r.slots|
    ensures fields[i].htype.HRepeated? ==> r.slots[i].Many? && r.slots[i].count == 0
    ensures fields[i].htype.HOptional? ==>
              r.slots[i].One? && !r.slots[i].has && Unset(fields[i], r.slots[i].value)
    ensures fields[i].htype.HOneof? ==> Which(r, fields[i].htype.union) != fields[i].tag
  {
    hide WellFormed, Terminated, Stored, LeftOut, Filled, SeenUpTo, BytesFrom, ParseMessage, Defaults, Unset;
    NothingFilled(fields, m);
    r := LeftAlone(fields, m, Defaults(fields), 0, {});
    DefaultIsUnset(fields[i]);
    var same := MessageRoundTrip(fields, m);
    UnionIsSame(fields, m, r, i);
  }

  lemma {:induction false} UnionIsSame(fields: seq<Field>, m: Message, r: Message, i: nat)
    requires i < |fields| && Stored(fields, m) && Same(fields, m, r, |fields|)
    ensures fields[i].htype.HOneof? && LeftOut(fields[i], m.slots[i], m) ==>
              Which(r, fields[i].htype.union) != fields[i].tag
  {
    hide SameValue, StoredValue;
  }

  /** A zero where a key is due ends a message as the end of the bytes does, whatever comes after it. */
  lemma {:induction false} ZeroEnds(fields: seq<Field>, a: bytes, m: Message, seen: set<nat>, pos: nat, b: bytes)
    requires pos <= |fields| && ParseMessage(fields, a, m, seen, pos).Some? && b != [] && b[0] == 0
    ensures ParseMessage(fields, a + b, m, seen, pos) == ParseMessage(fields, a, m, seen, pos)
    decreases |a|
  {
    hide ParseField, DecodeTag, SkipField, AllRequiredSeen, Depth, FindFrom, Seen;
    EndTags(a, b);
    if a != [] && DecodeTag(a).Tag? {
      var t := DecodeTag(a);
      TagIsEnough(a, b);
      assert (a + b)[t.length..] == a[t.length..] + b;
      var i := FindFrom(fields, t.tag, pos);
      if i == |fields| {
        SkipIsEnough(a[t.length..], b, t.wireType);
        var k := t.length + SkipField(a[t.length..], t.wireType).value;
        assert (a + b)[k..] == a[k..] + b;
        ZeroEnds(fields, a[k..], m, seen, pos, b);
      } else {
        FieldIsEnough(fields[i], t.wireType, a[t.length..], b, m.slots[i], m.which);
        var p := ParseField(fields[i], t.wireType, a[t.length..], m.slots[i], m.which);
        var k := t.length + p.length;
        assert (a + b)[k..] == a[k..] + b;
        ZeroEnds(fields, a[k..], Message(m.slots[i := p.slot], p.which), Seen(fields, i, seen), i, b);
      }
    }
  }

  lemma EndTags(a: bytes, b: bytes)
    requires b != [] && b[0] == 0
    ensures a == [] || DecodeTag(a).End? ==> DecodeTag(a + b).End?
  {
    if a == [] {
      assert a + b == b;
    } else if DecodeTag(a).End? {
      Varint32IsEnough(a, b);
    }
  }

  /** In a submessage it ends that only: the message around it goes on behind all of the submessage's bytes. */
  lemma ZeroEndsInside(f: Field, a: bytes, b: bytes, dest: Value)
    requires f.ltype.LSubmessage? && b != [] && b[0] == 0 && |a + b| < TWO32
    requires ParseValue(f, StringBytes(a), dest).Some?
    ensures ParseValue(f, StringBytes(a + b), dest)
            == Some((ParseValue(f, StringBytes(a), dest).value.0, |StringBytes(a + b)|))
  {
    hide ParseMessage, StringBytes, Defaults, DecodeVarint32;
    OneString(a);
    OneString(a + b);
    var m0 := if f.htype.HRepeated? || !dest.Sub? then Defaults(f.sub) else dest.m;
    ZeroEnds(f.sub, a, m0, {}, 0, b);
  }

  // ----- What is not sent --------------------------------------------------------------

  /** A required field is always sent, one with a flag whenever that is set, a member of a union while it is the
      active one; any other single field is sent unless its value is zero, its text empty, or its type without
      bytes. */
  lemma SentExactly(f: Field, slot: Slot, m: Message)
    requires slot.One? && !f.htype.HRepeated? && FieldBytes(f, slot, m).Some?
    ensures f.htype == HRequired ==> FieldBytes(f, slot, m) != Some([])
    ensures f.htype == HOptional(true) ==> (FieldBytes(f, slot, m) == Some([]) <==> !slot.has)
    ensures f.htype.HOneof? ==>
              (FieldBytes(f, slot, m) == Some([]) <==>
                 (if f.htype.union in m.which then m.which[f.htype.union] else 0) != f.tag)
    ensures f.htype == HOptional(false) && !f.ltype.LSubmessage? ==>
              (FieldBytes(f, slot, m) == Some([]) <==> IsEmpty(f, slot.value))
  {
    hide ValueBytes, AllDefault, TagBytes;
    if TaggedBytes(f, slot.value).Some? {
      assert |TaggedBytes(f, slot.value).value| > 0 by {
        assert |TagBytes(WireType(f.ltype), f.tag)| > 0 by { TagTakesBytes(WireType(f.ltype), f.tag); }
      }
    }
  }

  lemma TagTakesBytes(wireType: nat, tag: nat)
    ensures |TagBytes(wireType, tag)| > 0
  {
  }

  predicate IsEmpty(f: Field, v: Value)
  {
    if f.ltype == LFixedLengthBytes then f.dataSize == 0
    else if f.ltype == LString then v.Raw? && (v.b == [] || v.b[0] == 0)
    else if f.ltype == LBytes then v.Raw? && v.b == []
    else v == Int(0)
  }

  /** And a submessage is not sent only if nothing in it is. */
  lemma NothingInside(f: Field, slot: Slot, m: Message)
    requires f.htype == HOptional(false) && f.ltype.LSubmessage? && f.tag > 0
    requires slot.One? && slot.value.Sub? && Stored(f.sub, slot.value.m)
    requires FieldBytes(f, slot, m) == Some([]) && forall i :: 0 <= i < |f.sub| ==> f.sub[i].tag > 0
    ensures BytesFrom(f.sub, slot.value.m, 0) == Some([])
  {
    hide ValueBytes, AllDefault, TagBytes, Stored;
    assert IsDefault(f, slot, m) by {
      if TaggedBytes(f, slot.value).Some? {
        TagTakesBytes(WireType(f.ltype), f.tag);
      }
    }
    DefaultIsEmpty(f.sub, slot.value.m, 0);
  }

  lemma {:induction false} DefaultIsEmpty(fields: seq<Field>, m: Message, i: nat)
    requires i <= |fields| && AllDefault(fields, m, |fields|) && Stored(fields, m)
    requires forall j :: 0 <= j < |fields| ==> fields[j].tag > 0
    ensures BytesFrom(fields, m, i) == Some([])
    decreases |fields| - i
  {
    hide FieldBytes, IsDefault, StoredSlot, LeftOut;
    if i < |fields| {
      DefaultAt(fields, m, |fields|, i);
      DefaultIsLeftOut(fields[i], m.slots[i], m);
      LeftOutIsEmpty(fields[i], m.slots[i], m);
      DefaultIsEmpty(fields, m, i + 1);
      var none: bytes := [];
      assert none + none == none;
    }
  }

  lemma {:induction false} DefaultAt(fields: seq<Field>, m: Message, n: nat, i: nat)
    requires i < n <= |fields| && AllDefault(fields, m, n)
    ensures i < |m.slots| && IsDefault(fields[i], m.slots[i], m)
  {
    hide IsDefault;
    if i < n - 1 {
      DefaultAt(fields, m, n - 1, i);
    }
  }
}
