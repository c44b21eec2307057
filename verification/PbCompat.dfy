/** Messages between programs whose descriptors differ, and messages that no encoder writes: what the decoder
    promises about them. */
module PbCompat {
  import opened Coding
  import opened Options
  import opened PbWire
  import opened PbMessage
  import opened PbEncode
  import opened PbParse
  import opened PbRoundTrip
  import opened PbRecords

  // ----- A reader that knows fewer fields ----------------------------------------------

  /** The fields whose tags are in `keep`, among the first `n`. */
  function Only(fields: seq<Field>, keep: set<nat>, n: nat): seq<Field>
    requires n <= |fields|
  {
    if n == 0 then []
    else Only(fields, keep, n - 1) + (if fields[n - 1].tag in keep then [fields[n - 1]] else [])
  }

  function OnlySlots(fields: seq<Field>, slots: seq<Slot>, keep: set<nat>, n: nat): (r: seq<Slot>)
    requires n <= |fields| && n <= |slots|
    ensures |r| == |Only(fields, keep, n)|
  {
    if n == 0 then []
    else OnlySlots(fields, slots, keep, n - 1) + (if fields[n - 1].tag in keep then [slots[n - 1]] else [])
  }

  lemma {:induction false} OnlyAt(fields: seq<Field>, slots: seq<Slot>, keep: set<nat>, n: nat, j: nat)
    returns (k: nat)
    requires n <= |fields| && n <= |slots| && j < |Only(fields, keep, n)|
    ensures k < n && Only(fields, keep, n)[j] == fields[k] && OnlySlots(fields, slots, keep, n)[j] == slots[k]
    ensures fields[k].tag in keep && j <= k
  {
    if j < |Only(fields, keep, n - 1)| {
      k := OnlyAt(fields, slots, keep, n - 1, j);
    } else {
      k := n - 1;
      OnlyShorter(fields, keep, n - 1);
    }
  }

  lemma {:induction false} OnlyShorter(fields: seq<Field>, keep: set<nat>, n: nat)
    requires n <= |fields|
    ensures |Only(fields, keep, n)| <= n
  {
    if n > 0 {
      OnlyShorter(fields, keep, n - 1);
    }
  }

  /** Field `i`, if it is kept, comes after those kept before it. */
  lemma {:induction false} OnlyNext(fields: seq<Field>, slots: seq<Slot>, keep: set<nat>, i: nat, n: nat)
    requires i < n <= |fields| && n <= |slots|
    ensures var j := |Only(fields, keep, i)|;
            && (fields[i].tag in keep ==>
                  && j < |Only(fields, keep, n)| && Only(fields, keep, n)[j] == fields[i]
                  && OnlySlots(fields, slots, keep, n)[j] == slots[i])
            && |Only(fields, keep, i + 1)| == j + (if fields[i].tag in keep then 1 else 0)
    decreases n
  {
    if i < n - 1 {
      OnlyNext(fields, slots, keep, i, n - 1);
    }
  }

  predicate DistinctTags(fields: seq<Field>)
  {
    forall i, j :: 0 <= i < j < |fields| ==> fields[i].tag != fields[j].tag
  }

  lemma {:induction false} OnlyDistinct(fields: seq<Field>, slots: seq<Slot>, keep: set<nat>, n: nat)
    requires n <= |fields| && n <= |slots| && WellFormed(fields)
    ensures DistinctTags(Only(fields, keep, n))
  {
    hide WellFormed;
    if n > 0 {
      OnlyDistinct(fields, slots, keep, n - 1);
      TagsOf(fields, n - 1);
      var front, small := Only(fields, keep, n - 1), Only(fields, keep, n);
      forall i, j | 0 <= i < j < |small|
        ensures small[i].tag != small[j].tag
      {
        var k := OnlyAt(fields, slots, keep, n - 1, i);
        assert small[i] == front[i];
        if j < |front| {
          assert small[j] == front[j];
        }
      }
    }
  }

  predicate FieldOk(f: Field, slot: Slot)
  {
    && 0 < f.tag < 0x2000_0000 && (f.htype == HOptional(false) ==> f.initial == None) && WellFormed(f.sub)
    && StoredSlot(f, slot)
    && (slot.One? ==> TerminatedValue(f, slot.value))
    && (slot.Many? ==> forall i :: 0 <= i < |slot.items| ==> TerminatedValue(f, slot.items[i]))
  }

  lemma {:induction false} OnlyIsWellFormed(fields: seq<Field>, m: Message, keep: set<nat>)
    requires WellFormed(fields) && Stored(fields, m) && Terminated(fields, m)
    ensures var small, part := Only(fields, keep, |fields|), OnlySlots(fields, m.slots, keep, |fields|);
            WellFormed(small) && Stored(small, Message(part, m.which)) && Terminated(small, Message(part, m.which))
  {
    hide WellFormed, StoredSlot, Only, OnlySlots, TerminatedValue, Terminated;
    var n := |fields|;
    var small, part := Only(fields, keep, n), OnlySlots(fields, m.slots, keep, n);
    OnlyDistinct(fields, m.slots, keep, n);
    forall j | 0 <= j < |small|
      ensures FieldOk(small[j], part[j])
    {
      var k := OnlyAt(fields, m.slots, keep, n, j);
      TagsOf(fields, k);
      NoInitial(fields, k);
      TerminatedAt(fields, m, k);
    }
    PartsOk(small, Message(part, m.which));
  }

  lemma {:induction false} PartsOk(fields: seq<Field>, m: Message)
    requires |m.slots| == |fields| && forall j :: 0 <= j < |fields| ==> FieldOk(fields[j], m.slots[j])
    requires DistinctTags(fields)
    ensures WellFormed(fields) && Stored(fields, m) && Terminated(fields, m)
  {
    hide TerminatedValue, StoredSlot;
    forall j | 0 <= j < |fields|
      ensures Depth(fields[j].sub) < Depth(fields)
    {
      DepthOfField(fields, j);
    }
    assert forall j :: 0 <= j < |fields| ==> FieldOk(fields[j], m.slots[j]);
  }

  /** Of the message a field looks at its active tags only. */
  lemma SameWhich(f: Field, slot: Slot, m: Message, n: Message)
    requires m.which == n.which
    ensures FieldBytes(f, slot, m) == FieldBytes(f, slot, n)
  {
    hide TaggedBytes, ArrayBytes, AllDefault, CString;
  }

  lemma {:induction false} OlderReads(fields: seq<Field>, m: Message, keep: set<nat>, cur: Message, i: nat,
      seen: set<nat>) returns (r: Message)
    requires WellFormed(fields) && Stored(fields, m) && Terminated(fields, m) && i <= |fields|
    requires BytesFrom(fields, m, i).Some? && |BytesFrom(fields, m, i).value| < TWO32
    requires var small := Only(fields, keep, |fields|);
             var part := Message(OnlySlots(fields, m.slots, keep, |fields|), m.which);
             var j := |Only(fields, keep, i)|;
             j <= |small| && Filled(small, part, cur, j) && SeenUpTo(small, j, seen)
    ensures var small := Only(fields, keep, |fields|);
            var part := Message(OnlySlots(fields, m.slots, keep, |fields|), m.which);
            && ParseMessage(small, BytesFrom(fields, m, i).value, cur, seen, 0) == Some(r)
            && Same(small, part, r, |small|)
    decreases |fields| - i
  {
    hide FieldBytes, ParseMessage, Filled, SeenUpTo, WellFormed, Terminated, StoredSlot, Same, Only, OnlySlots,
         BytesFrom, FieldRecords, AllBytes, IsRecord;
    var small := Only(fields, keep, |fields|);
    var part := Message(OnlySlots(fields, m.slots, keep, |fields|), m.which);
    var j := |Only(fields, keep, i)|;
    OnlyIsWellFormed(fields, m, keep);
    if i == |fields| {
      NothingMore(fields, m);
      NothingMore(small, part);
      r := ParsesFrom(small, part, cur, j, seen);
    } else {
      FieldsEncode(fields, m, i);
      TagsOf(fields, i);
      OnlyNext(fields, m.slots, keep, i, |fields|);
      var rest := BytesFrom(fields, m, i + 1).value;
      if fields[i].tag in keep {
        SameWhich(fields[i], m.slots[i], m, part);
        var slot, which, seen' := ParsesField(small, part, cur, j, seen, rest);
        r := OlderReads(fields, m, keep, Message(cur.slots[j := slot], which), i + 1, seen');
      } else {
        FieldIsRecords(fields[i], m.slots[i], m);
        NotKept(fields, m.slots, keep, fields[i].tag);
        UnknownAreSkipped(small, FieldRecords(fields[i], m.slots[i], m), rest, cur, seen, 0);
        r := OlderReads(fields, m, keep, cur, i + 1, seen);
      }
    }
  }

  lemma {:induction false} NothingMore(fields: seq<Field>, m: Message)
    ensures BytesFrom(fields, m, |fields|) == Some([])
  {
  }

  lemma {:induction false} NotKept(fields: seq<Field>, slots: seq<Slot>, keep: set<nat>, tag: nat)
    requires tag !in keep && |slots| == |fields|
    ensures forall j :: 0 <= j < |Only(fields, keep, |fields|)| ==> Only(fields, keep, |fields|)[j].tag != tag
  {
    var small := Only(fields, keep, |fields|);
    forall j | 0 <= j < |small|
      ensures small[j].tag != tag
    {
      var k := OnlyAt(fields, slots, keep, |fields|, j);
    }
  }

  /** A program that knows only some of the fields reads these as they were written, whatever else the message
      holds and wherever it stands. */
  lemma {:induction false} OlderReaderReads(fields: seq<Field>, m: Message, keep: set<nat>) returns (r: Message)
    requires WellFormed(fields) && Stored(fields, m) && Terminated(fields, m)
    requires BytesFrom(fields, m, 0).Some? && |BytesFrom(fields, m, 0).value| < TWO32
    ensures var small := Only(fields, keep, |fields|);
            var part := Message(OnlySlots(fields, m.slots, keep, |fields|), m.which);
            && ParseMessage(small, BytesFrom(fields, m, 0).value, Defaults(small), {}, 0) == Some(r)
            && Same(small, part, r, |small|)
  {
    hide FieldBytes, ParseMessage, Filled, SeenUpTo, WellFormed, Terminated, Same, BytesFrom;
    OnlyIsWellFormed(fields, m, keep);
    var small := Only(fields, keep, |fields|);
    NothingFilled(small, Message(OnlySlots(fields, m.slots, keep, |fields|), m.which));
    r := OlderReads(fields, m, keep, Defaults(small), 0, {});
  }

  // ----- Messages in parts -------------------------------------------------------------

  /** The fields before number `n`. */
  function BytesBefore(fields: seq<Field>, m: Message, n: nat): Option<bytes>
    requires n <= |fields|
  {
    if n == 0 then Some([])
    else if n > |m.slots| then None
    else Append(BytesBefore(fields, m, n - 1), FieldBytes(fields[n - 1], m.slots[n - 1], m))
  }

  lemma {:induction false} BeforeAndFrom(fields: seq<Field>, m: Message, n: nat)
    requires n <= |fields| && BytesFrom(fields, m, 0).Some?
    ensures BytesBefore(fields, m, n).Some? && BytesFrom(fields, m, n).Some?
    ensures BytesBefore(fields, m, n).value + BytesFrom(fields, m, n).value == BytesFrom(fields, m, 0).value
  {
    hide FieldBytes;
    if n > 0 {
      BeforeAndFrom(fields, m, n - 1);
      var a, b, c := BytesBefore(fields, m, n - 1).value, FieldBytes(fields[n - 1], m.slots[n - 1], m).value,
        BytesFrom(fields, m, n).value;
      assert a + (b + c) == a + b + c;
    }
  }

  /** The numbers of the required fields among the first `n`. */
  ghost predicate SeenOnly(fields: seq<Field>, n: nat, seen: set<nat>)
    requires n <= |fields|
  {
    forall x :: x in seen ==> exists j :: 0 <= j < n && fields[j].htype == HRequired && RequiredBefore(fields, j) == x
  }

  /** What has been decoded after the first `n` fields, whatever follows. */
  lemma {:induction false} ParsesBefore(fields: seq<Field>, m: Message, n: nat, rest: bytes)
    returns (cur: Message, seen: set<nat>)
    requires WellFormed(fields) && Stored(fields, m) && Terminated(fields, m) && n <= |fields|
    requires BytesBefore(fields, m, n).Some? && |BytesBefore(fields, m, n).value| < TWO32
    ensures ParseMessage(fields, BytesBefore(fields, m, n).value + rest, Defaults(fields), {}, 0)
            == ParseMessage(fields, rest, cur, seen, 0)
    ensures Filled(fields, m, cur, n) && SeenUpTo(fields, n, seen) && SeenOnly(fields, n, seen)
  {
    hide FieldBytes, ParseMessage, Filled, SeenUpTo, WellFormed, Terminated, StoredSlot, Seen, SeenOnly, Defaults;
    if n == 0 {
      cur, seen := Defaults(fields), {};
      NothingFilled(fields, m);
      assert [] + rest == rest;
      assert SeenOnly(fields, 0, {}) by { NoneSeen(fields); }
    } else {
      var a, b := BytesBefore(fields, m, n - 1).value, FieldBytes(fields[n - 1], m.slots[n - 1], m).value;
      assert a + b + rest == a + (b + rest);
      cur, seen := ParsesBefore(fields, m, n - 1, b + rest);
      SeenMore(fields, n - 1, seen);
      var slot, which;
      slot, which, seen := ParsesField(fields, m, cur, n - 1, seen, rest);
      cur := Message(cur.slots[n - 1 := slot], which);
    }
  }

  lemma {:induction false} NoneSeen(fields: seq<Field>)
    ensures SeenOnly(fields, 0, {})
  {
  }

  lemma {:induction false} SeenMore(fields: seq<Field>, n: nat, seen: set<nat>)
    requires n < |fields| && SeenOnly(fields, n, seen)
    ensures SeenOnly(fields, n + 1, Seen(fields, n, seen))
  {
    hide RequiredBefore;
    forall x | x in Seen(fields, n, seen)
      ensures exists j :: 0 <= j < n + 1 && fields[j].htype == HRequired && RequiredBefore(fields, j) == x
    {
      if x in seen {
        var j :| 0 <= j < n && fields[j].htype == HRequired && RequiredBefore(fields, j) == x;
      } else {
        assert RequiredBefore(fields, n) == x;
      }
    }
  }

  lemma {:induction false} NumbersGrow(fields: seq<Field>, i: nat, j: nat)
    requires i < j <= |fields| && fields[i].htype == HRequired
    ensures RequiredBefore(fields, i) < RequiredBefore(fields, j)
    decreases j
  {
    if i < j - 1 {
      NumbersGrow(fields, i, j - 1);
    }
  }

  /** A message that ends before one of its required fields is refused, whether the bytes stop there or a zero
      key ends it; the decoder keeps count of the first 64. */
  lemma {:induction false} RequiredIsMissed(fields: seq<Field>, m: Message, n: nat, i: nat, junk: bytes)
    requires WellFormed(fields) && Stored(fields, m) && Terminated(fields, m) && n <= i < |fields|
    requires BytesBefore(fields, m, n).Some? && |BytesBefore(fields, m, n).value| < TWO32
    requires fields[i].htype == HRequired && RequiredBefore(fields, i) < 64
    ensures ParseMessage(fields, BytesBefore(fields, m, n).value, Defaults(fields), {}, 0) == None
    ensures ParseMessage(fields, BytesBefore(fields, m, n).value + [0] + junk, Defaults(fields), {}, 0) == None
  {
    hide WellFormed, Terminated, Stored, Filled, SeenUpTo, BytesBefore, RequiredBefore, Defaults;
    var b := BytesBefore(fields, m, n).value;
    var cur, seen := ParsesBefore(fields, m, n, []);
    assert b + [] == b;
    NotYetSeen(fields, n, i, seen);
    var cur', seen' := ParsesBefore(fields, m, n, [0] + junk);
    assert b + ([0] + junk) == b + [0] + junk;
    NotYetSeen(fields, n, i, seen');
    assert ([0] + junk)[0] == 0;
  }

  lemma {:induction false} NotYetSeen(fields: seq<Field>, n: nat, i: nat, seen: set<nat>)
    requires n <= i < |fields| && SeenOnly(fields, n, seen)
    requires fields[i].htype == HRequired && RequiredBefore(fields, i) < MAX_REQUIRED_FIELDS
    ensures !AllRequiredSeen(fields, seen)
  {
    hide RequiredBefore;
    if RequiredBefore(fields, i) in seen {
      var j :| 0 <= j < n && fields[j].htype == HRequired && RequiredBefore(fields, j) == RequiredBefore(fields, i);
      NumbersGrow(fields, j, i);
    }
  }

  // ----- Fields that come twice --------------------------------------------------------

  lemma {:induction false} SeenTwice(fields: seq<Field>, i: nat, seen: set<nat>)
    requires i < |fields|
    ensures Seen(fields, i, Seen(fields, i, seen)) == Seen(fields, i, seen)
  {
  }

  /** What a field decoder leaves in the slot of a field that is no array and no submessage does not depend on
      what was there. */
  lemma FieldOverwrites(f: Field, b: bytes, slot: Slot, which: map<nat, nat>)
    requires !f.htype.HRepeated? && !f.ltype.LSubmessage? && slot.One? && ParseScalar(f, b).Some?
    ensures var (v, n) := ParseScalar(f, b).value;
            ParseField(f, WireType(f.ltype), b, slot, which)
            == Parsed(One(if f.htype == HOptional(true) then true else slot.has, v),
                      if f.htype.HOneof? then which[f.htype.union := f.tag] else which, n)
  {
    hide ParseScalar;
  }

  lemma ParsesScalar(f: Field, v: Value, rest: bytes)
    requires !f.ltype.LSubmessage? && ValueBytes(f, v).Some? && |ValueBytes(f, v).value| < TWO32
    requires TerminatedValue(f, v)
    ensures ParseScalar(f, ValueBytes(f, v).value + rest).Some?
    ensures ParseScalar(f, ValueBytes(f, v).value + rest).value.1 == |ValueBytes(f, v).value|
    ensures SameValue(f, v, ParseScalar(f, ValueBytes(f, v).value + rest).value.0)
  {
    hide ParseScalar, ValueBytes;
    if Packable(f.ltype) {
      ParsesNumber(f, v, rest);
    } else {
      ParsesText(f, v, rest);
    }
  }

  /** Of several values of one field the last counts. */
  lemma {:induction false} LastValueCounts(fields: seq<Field>, i: nat, v: Value, w: Value, rest: bytes, cur: Message,
      seen: set<nat>)
    requires WellFormed(fields) && i < |fields| == |cur.slots| && cur.slots[i].One?
    requires !fields[i].htype.HRepeated? && !fields[i].ltype.LSubmessage?
    requires TaggedBytes(fields[i], v).Some? && |TaggedBytes(fields[i], v).value| < TWO32
    requires TaggedBytes(fields[i], w).Some? && |TaggedBytes(fields[i], w).value| < TWO32
    requires TerminatedValue(fields[i], v) && TerminatedValue(fields[i], w)
    ensures ParseMessage(fields, TaggedBytes(fields[i], v).value + TaggedBytes(fields[i], w).value + rest, cur, seen, 0)
            == ParseMessage(fields, TaggedBytes(fields[i], w).value + rest, cur, seen, 0)
  {
    hide ValueBytes, TagBytes, ParseScalar, ParseField, ParseMessage, WellFormed, Seen, SameValue, TerminatedValue;
    var f, kind := fields[i], WireType(fields[i].ltype);
    TaggedSome(f, v);
    TaggedSome(f, w);
    var tag, a, b := TagBytes(kind, f.tag), ValueBytes(f, v).value, ValueBytes(f, w).value;
    var more := tag + b + rest;
    assert tag + a + (tag + b) + rest == tag + a + more;
    ParsesScalar(f, v, more);
    FieldOverwrites(f, a + more, cur.slots[i], cur.which);
    var x := ParseScalar(f, a + more).value.0;
    var slot := One(if f.htype == HOptional(true) then true else cur.slots[i].has, x);
    var which := if f.htype.HOneof? then cur.which[f.htype.union := f.tag] else cur.which;
    ParsesTagged(fields, i, kind, a, more, cur, seen, slot, which);
    ParsesScalar(f, w, rest);
    var y := ParseScalar(f, b + rest).value.0;
    var mid, after := Message(cur.slots[i := slot], which), slot.(value := y);
    FieldOverwrites(f, b + rest, slot, which);
    FieldOverwrites(f, b + rest, cur.slots[i], cur.which);
    assert f.htype.HOneof? ==> which[f.htype.union := f.tag] == which;
    ParsesTagged(fields, i, kind, b, rest, mid, Seen(fields, i, seen), after, which);
    ParsesTagged(fields, i, kind, b, rest, cur, seen, after, which);
    SeenTwice(fields, i, seen);
    assert mid.slots[i := after] == cur.slots[i := after];
  }

  lemma {:induction false} MoreSeen(fields: seq<Field>, b: bytes, m: Message, seen: set<nat>, more: set<nat>, pos: nat)
    requires pos <= |fields| && seen <= more && ParseMessage(fields, b, m, seen, pos).Some?
    ensures ParseMessage(fields, b, m, more, pos) == ParseMessage(fields, b, m, seen, pos)
    decreases |b|
  {
    hide ParseField, DecodeTag, SkipField, RequiredBefore, Depth, FindFrom;
    if b != [] && DecodeTag(b).Tag? {
      var n, i := DecodeTag(b).length, FindFrom(fields, DecodeTag(b).tag, pos);
      if i == |fields| {
        var k := SkipField(b[n..], DecodeTag(b).wireType).value;
        MoreSeen(fields, b[n + k..], m, seen, more, pos);
      } else {
        var p := ParseField(fields[i], DecodeTag(b).wireType, b[n..], m.slots[i], m.which);
        MoreSeen(fields, b[n + p.length..], Message(m.slots[i := p.slot], p.which), Seen(fields, i, seen),
          Seen(fields, i, more), i);
      }
    }
  }

  // ----- Decoders look at no more than they take ---------------------------------------

  lemma {:induction false} VarintIsEnough(b: bytes, x: bytes, limit: nat)
    requires ReadVarint(b, limit).Some?
    ensures ReadVarint(b + x, limit) == ReadVarint(b, limit)
  {
    if b[0] >= 128 {
      assert (b + x)[1..] == b[1..] + x;
      VarintIsEnough(b[1..], x, limit - 1);
    }
  }

  lemma {:induction false} MoreIsEnough(b: bytes, x: bytes, n: nat, result: nat)
    requires result < TWO32 && MoreOf32(b, n, result).Got?
    ensures MoreOf32(b + x, n, result) == MoreOf32(b, n, result)
    decreases |b|
  {
    hide Joined, BitPos;
    assert (b + x)[1..] == b[1..] + x;
    if b[0] >= 128 {
      MoreIsEnough(b[1..], x, n + 1, if BitPos(n) >= 32 then result else Joined(result, b[0] % 128, BitPos(n)));
    }
  }

  lemma Varint32IsEnough(b: bytes, x: bytes)
    requires DecodeVarint32(b).Got?
    ensures DecodeVarint32(b + x) == DecodeVarint32(b)
  {
    hide MoreOf32;
    assert (b + x)[1..] == b[1..] + x;
    if b[0] >= 128 {
      MoreIsEnough(b[1..], x, 1, b[0] % 128);
    }
  }

  lemma {:induction false} SkippedIsEnough(b: bytes, x: bytes)
    requires SkipVarint(b).Some?
    ensures SkipVarint(b + x) == SkipVarint(b)
  {
    assert (b + x)[1..] == b[1..] + x;
    if b[0] >= 128 {
      SkippedIsEnough(b[1..], x);
    }
  }

  lemma SkipIsEnough(b: bytes, x: bytes, wireType: nat)
    requires SkipField(b, wireType).Some?
    ensures SkipField(b + x, wireType) == SkipField(b, wireType)
  {
    hide SkipVarint, DecodeVarint32;
    if wireType == WT_VARINT {
      SkippedIsEnough(b, x);
    } else if wireType == WT_STRING {
      Varint32IsEnough(b, x);
    }
  }

  lemma TagIsEnough(b: bytes, x: bytes)
    requires DecodeTag(b).Tag?
    ensures DecodeTag(b + x) == DecodeTag(b)
  {
    hide DecodeVarint32;
    Varint32IsEnough(b, x);
  }

  lemma SliceIsEnough(b: bytes, x: bytes, from: nat, to: nat)
    requires from <= to <= |b|
    ensures (b + x)[from..to] == b[from..to]
  {
  }

  lemma ScalarIsEnough(f: Field, b: bytes, x: bytes)
    requires ParseScalar(f, b).Some?
    ensures ParseScalar(f, b + x) == ParseScalar(f, b)
  {
    hide DecodeVarint32, ReadVarint, DecodeFixed, CastSigned, FitsUnsigned, UnZigZag;
    if f.ltype == LVarint || f.ltype == LUVarint || f.ltype == LSVarint {
      VarintIsEnough(b, x, 10);
    } else if f.ltype == LFixed32 || f.ltype == LFixed64 {
      SliceIsEnough(b, x, 0, if f.ltype == LFixed32 then 4 else 8);
    } else {
      Varint32IsEnough(b, x);
      var d := DecodeVarint32(b);
      if f.ltype != LBool && d.length + d.v <= |b| {
        SliceIsEnough(b, x, d.length, d.length + d.v);
      }
    }
  }

  lemma SubstreamIsEnough(b: bytes, x: bytes)
    requires MakeSubstream(b).Substream?
    ensures MakeSubstream(b + x) == MakeSubstream(b)
    ensures var s := MakeSubstream(b); (b + x)[s.start..s.start + s.size] == b[s.start..s.start + s.size]
  {
    hide DecodeVarint32;
    Varint32IsEnough(b, x);
  }

  lemma ValueIsEnough(f: Field, b: bytes, x: bytes, dest: Value)
    requires ParseValue(f, b, dest).Some?
    ensures ParseValue(f, b + x, dest) == ParseValue(f, b, dest)
  {
    hide MakeSubstream, ParseMessage, ParseScalar, Defaults;
    if f.ltype.LSubmessage? {
      SubstreamIsEnough(b, x);
    } else {
      ScalarIsEnough(f, b, x);
    }
  }

  lemma FieldIsEnough(f: Field, wireType: nat, b: bytes, x: bytes, slot: Slot, which: map<nat, nat>)
    requires ParseField(f, wireType, b, slot, which).Parsed?
    ensures ParseField(f, wireType, b + x, slot, which) == ParseField(f, wireType, b, slot, which)
  {
    hide MakeSubstream, ParseValue, ParsePacked, Defaults;
    match f.htype
    case HRequired | HOptional(_) => ValueIsEnough(f, b, x, slot.value);
    case HRepeated =>
      if wireType == WT_STRING && Packable(f.ltype) {
        SubstreamIsEnough(b, x);
      } else {
        ValueIsEnough(f, b, x, slot.items[slot.count]);
      }
    case HOneof(union) =>
      var active := if union in which then which[union] else 0;
      ValueIsEnough(f, b, x, if f.ltype.LSubmessage? && active != f.tag then Sub(Defaults(f.sub)) else slot.value);
  }

  // ----- Messages one after the other --------------------------------------------------

  /** The decoder gets to the end of the bytes: nothing is malformed, and no key of zero ends the message before. */
  predicate ReadToEnd(fields: seq<Field>, b: bytes, m: Message, pos: nat)
    requires pos <= |fields|
    decreases |b|
  {
    b == [] ||
    var t := DecodeTag(b);
    && t.Tag?
    && var i := FindFrom(fields, t.tag, pos);
       if i == |fields| then
         var k := SkipField(b[t.length..], t.wireType);
         k.Some? && ReadToEnd(fields, b[t.length + k.value..], m, pos)
       else
         && i < |m.slots|
         && var p := ParseField(fields[i], t.wireType, b[t.length..], m.slots[i], m.which);
            p.Parsed? && ReadToEnd(fields, b[t.length + p.length..], Message(m.slots[i := p.slot], p.which), i)
  }

  /** Two encodings one after the other are decoded as the first one, merged with the second: that is how a
      submessage that comes in parts is put together. */
  lemma {:induction false} PartsAreMerged(fields: seq<Field>, a: bytes, b: bytes, m: Message, seen: set<nat>, pos: nat,
      r: Message)
    requires pos <= |fields| && DistinctTags(fields) && ReadToEnd(fields, a, m, pos)
    requires ParseMessage(fields, a, m, seen, pos) == Some(r) && ParseMessage(fields, b, r, {}, 0).Some?
    ensures ParseMessage(fields, a + b, m, seen, pos) == ParseMessage(fields, b, r, {}, 0)
    decreases |a|
  {
    hide ParseField, DecodeTag, SkipField, AllRequiredSeen, Depth, FindFrom, Seen;
    if a == [] {
      assert a + b == b;
      MoreSeen(fields, b, r, {}, seen, 0);
      AnyPlaceWillDo(fields, b, r, seen, pos);
    } else {
      var t := DecodeTag(a);
      TagIsEnough(a, b);
      assert (a + b)[t.length..] == a[t.length..] + b;
      var i := FindFrom(fields, t.tag, pos);
      if i == |fields| {
        SkipIsEnough(a[t.length..], b, t.wireType);
        var k := t.length + SkipField(a[t.length..], t.wireType).value;
        assert (a + b)[k..] == a[k..] + b;
        PartsAreMerged(fields, a[k..], b, m, seen, pos, r);
      } else {
        FieldIsEnough(fields[i], t.wireType, a[t.length..], b, m.slots[i], m.which);
        var p := ParseField(fields[i], t.wireType, a[t.length..], m.slots[i], m.which);
        var k := t.length + p.length;
        assert (a + b)[k..] == a[k..] + b;
        PartsAreMerged(fields, a[k..], b, Message(m.slots[i := p.slot], p.which), Seen(fields, i, seen), i, r);
      }
    }
  }

  /** In a field: the second occurrence of a submessage goes on from what the first one left. */
  lemma SubmessageInParts(f: Field, a: bytes, b: bytes, dest: Value, r: Value)
    requires f.ltype.LSubmessage? && !f.htype.HRepeated? && dest.Sub? && DistinctTags(f.sub) && |a + b| < TWO32
    requires ReadToEnd(f.sub, a, dest.m, 0) && ParseValue(f, StringBytes(a), dest) == Some((r, |StringBytes(a)|))
    requires ParseValue(f, StringBytes(b), r).Some?
    ensures ParseValue(f, StringBytes(a + b), dest).Some?
    ensures ParseValue(f, StringBytes(a + b), dest).value.0 == ParseValue(f, StringBytes(b), r).value.0
  {
    hide ParseMessage, ReadToEnd, StringBytes, DecodeVarint32, Defaults;
    OneString(a);
    OneString(b);
    OneString(a + b);
    PartsAreMerged(f.sub, a, b, dest.m, {}, 0, r.m);
  }

  lemma OneString(b: bytes)
    requires |b| < TWO32
    ensures var s := MakeSubstream(StringBytes(b));
            s.Substream? && StringBytes(b)[s.start..s.start + s.size] == b && s.start + s.size == |StringBytes(b)|
  {
    hide DecodeVarint32, StringBytes;
    ParsesLength(b, []);
    assert StringBytes(b) + [] == StringBytes(b);
  }
}
