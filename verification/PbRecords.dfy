/** The wire format of Protocol Buffers by its own description: a message is a list of records, each a key and a
    payload whose extent the key tells. What the encoder writes is such a list, and records the decoder's
    descriptor does not know leave no trace. */
module PbRecords {
  import opened Coding
  import opened Options
  import opened PbWire
  import opened PbMessage
  import opened PbEncode
  import opened PbParse
  import opened PbRoundTrip

  datatype Record =
    | Varint(number: nat, value: nat)
    | Fixed64(number: nat, value: nat)
    | Bytes(number: nat, payload: bytes)
    | Fixed32(number: nat, value: nat)

  /** The guide's reader: the low three bits of the key tell how far the payload goes. */
  function ReadRecord(b: bytes): (r: Option<(Record, nat)>)
    ensures r.Some? ==> 1 <= r.value.1 <= |b|
  {
    match ReadVarint(b, 10)
    case None => None
    case Some((key, n)) =>
      if key % 8 == 0 then
        match ReadVarint(b[n..], 10)
        case None => None
        case Some((value, k)) => Some((Varint(key / 8, value), n + k))
      else if key % 8 == 1 then
        if |b| < n + 8 then None else Some((Fixed64(key / 8, DecodeFixed(b[n..n + 8])), n + 8))
      else if key % 8 == 2 then
        match ReadVarint(b[n..], 10)
        case None => None
        case Some((size, k)) =>
          if |b| < n + k + size then None
          else Some((Bytes(key / 8, b[n + k..n + k + size]), n + k + size))
      else if key % 8 == 5 then
        if |b| < n + 4 then None else Some((Fixed32(key / 8, DecodeFixed(b[n..n + 4])), n + 4))
      else None
  }

  function ReadRecords(b: bytes): Option<seq<Record>>
    decreases |b|
  {
    if b == [] then Some([])
    else match ReadRecord(b)
      case None => None
      case Some((r, n)) =>
        match ReadRecords(b[n..])
        case None => None
        case Some(more) => Some([r] + more)
  }

  /** Numbers of fields have 29 bits. */
  predicate IsRecord(r: Record)
  {
    && 0 < r.number < 0x2000_0000
    && match r
       case Varint(_, value) => value < TWO64
       case Fixed64(_, value) => value < TWO64
       case Bytes(_, payload) => |payload| < TWO32
       case Fixed32(_, value) => value < TWO32
  }

  function KeyOf(r: Record): nat
  {
    match r
    case Varint(number, _) => 8 * number
    case Fixed64(number, _) => 8 * number + 1
    case Bytes(number, _) => 8 * number + 2
    case Fixed32(number, _) => 8 * number + 5
  }

  function PayloadOf(r: Record): bytes
  {
    match r
    case Varint(_, value) => EncodeVarint(value)
    case Fixed64(_, value) => EncodeFixed(value, 8)
    case Bytes(_, payload) => StringBytes(payload)
    case Fixed32(_, value) => EncodeFixed(value, 4)
  }

  function RecordBytes(r: Record): bytes
  {
    EncodeVarint(KeyOf(r)) + PayloadOf(r)
  }

  function AllBytes(rs: seq<Record>): bytes
  {
    if rs == [] then [] else RecordBytes(rs[0]) + AllBytes(rs[1..])
  }

  lemma ReadsNumber(v: nat, rest: bytes)
    requires v < TWO64
    ensures ReadVarint(EncodeVarint(v) + rest, 10) == Some((v, |EncodeVarint(v)|))
  {
    Pow128Of10();
    VarintRoundTrip(v, 10, rest);
  }

  lemma KeyIs(number: nat, kind: nat)
    requires kind < 8
    ensures (8 * number + kind) % 8 == kind && (8 * number + kind) / 8 == number
  {
  }

  /** A record is read back with its length, whatever follows. */
  lemma ReadsRecord(r: Record, rest: bytes)
    requires IsRecord(r)
    ensures ReadRecord(RecordBytes(r) + rest) == Some((r, |RecordBytes(r)|))
  {
    hide EncodeVarint, ReadVarint, EncodeFixed, DecodeFixed, Pow256;
    var key, payload := EncodeVarint(KeyOf(r)), PayloadOf(r);
    var b := RecordBytes(r) + rest;
    assert b == key + (payload + rest);
    ReadsNumber(KeyOf(r), payload + rest);
    assert b[|key|..] == payload + rest;
    KeyIs(r.number, if r.Varint? then 0 else if r.Fixed64? then 1 else if r.Bytes? then 2 else 5);
    match r
    case Varint(_, value) => ReadsNumber(value, rest);
    case Fixed64(_, value) =>
      Pow256Is();
      FixedPrefix(value, 8, rest);
      assert b[|key|..|key| + 8] == (payload + rest)[..8];
    case Bytes(_, s) =>
      var size := EncodeVarint(|s|);
      assert payload + rest == size + (s + rest);
      ReadsNumber(|s|, s + rest);
      assert b[|key| + |size|..|key| + |size| + |s|] == s;
    case Fixed32(_, value) =>
      Pow256Is();
      FixedPrefix(value, 4, rest);
      assert b[|key|..|key| + 4] == (payload + rest)[..4];
  }

  lemma {:induction false} ReadsRecords(rs: seq<Record>)
    requires forall i :: 0 <= i < |rs| ==> IsRecord(rs[i])
    ensures ReadRecords(AllBytes(rs)) == Some(rs)
  {
    hide ReadRecord, RecordBytes;
    if rs != [] {
      var b, rest := AllBytes(rs), AllBytes(rs[1..]);
      ReadsRecord(rs[0], rest);
      ReadsRecords(rs[1..]);
      assert b[|RecordBytes(rs[0])|..] == rest;
      assert [rs[0]] + rs[1..] == rs;
    }
  }

  // ----- What the encoder writes -------------------------------------------------------

  /** A value as a record of its field. */
  function RecordOf(f: Field, v: Value): Record
    requires ValueBytes(f, v).Some?
  {
    match f.ltype
    case LBool => Varint(f.tag, if v.v != 0 then 1 else 0)
    case LVarint => Varint(f.tag, ToUnsigned64(v.v))
    case LUVarint => Varint(f.tag, v.v)
    case LSVarint => Varint(f.tag, ZigZag(v.v))
    case LFixed32 => Fixed32(f.tag, v.v)
    case LFixed64 => Fixed64(f.tag, v.v)
    case LBytes => Bytes(f.tag, v.b)
    case LString => Bytes(f.tag, CString(v.b))
    case LFixedLengthBytes => Bytes(f.tag, v.b)
    case LSubmessage => Bytes(f.tag, BytesFrom(f.sub, v.m, 0).value)
  }

  /** One record for each item, or one for all of them when they are packed. */
  function ItemRecords(f: Field, items: seq<Value>, n: nat): seq<Record>
    requires n <= |items| && forall i :: 0 <= i < n ==> ValueBytes(f, items[i]).Some?
  {
    if n == 0 then [] else ItemRecords(f, items, n - 1) + [RecordOf(f, items[n - 1])]
  }

  predicate Encodable(f: Field, slot: Slot)
  {
    if slot.One? then ValueBytes(f, slot.value).Some?
    else slot.count <= |slot.items| && forall i :: 0 <= i < slot.count ==> ValueBytes(f, slot.items[i]).Some?
  }

  function FieldRecords(f: Field, slot: Slot, m: Message): seq<Record>
    requires StoredSlot(f, slot) && (!LeftOut(f, slot, m) ==> Encodable(f, slot))
  {
    if LeftOut(f, slot, m) then []
    else if slot.One? then [RecordOf(f, slot.value)]
    else if Packable(f.ltype) then
      ItemsEncode(f, slot.items, slot.count, false);
      [Bytes(f.tag, ItemBytes(f, slot.items, slot.count, false).value)]
    else ItemRecords(f, slot.items, slot.count)
  }

  lemma {:induction false} ItemsEncode(f: Field, items: seq<Value>, n: nat, tagged: bool)
    requires n <= |items|
    ensures ItemBytes(f, items, n, tagged).Some? <==> forall i :: 0 <= i < n ==> ValueBytes(f, items[i]).Some?
    decreases n
  {
    hide ValueBytes;
    if n > 0 {
      ItemsEncode(f, items, n - 1, tagged);
    }
  }

  lemma TaggedIsRecord(f: Field, v: Value)
    requires ValueBytes(f, v).Some?
    ensures TaggedBytes(f, v) == Some(RecordBytes(RecordOf(f, v)))
  {
    hide EncodeVarint, EncodeFixed, CString, BytesFrom;
    assert f.tag * 8 == 8 * f.tag;
  }

  lemma RecordFits(f: Field, v: Value)
    requires ValueBytes(f, v).Some? && 0 < f.tag < 0x2000_0000 && |ValueBytes(f, v).value| < TWO32
    ensures IsRecord(RecordOf(f, v)) && RecordOf(f, v).number == f.tag
  {
    hide EncodeVarint, EncodeFixed, CString, BytesFrom, ZigZag, ToUnsigned64;
  }

  lemma {:induction false} AllBytesConcat(a: seq<Record>, b: seq<Record>)
    ensures AllBytes(a + b) == AllBytes(a) + AllBytes(b)
    decreases |a|
  {
    hide RecordBytes;
    if a == [] {
      assert a + b == b;
    } else {
      AllBytesConcat(a[1..], b);
      assert (a + b)[0] == a[0] && (a + b)[1..] == a[1..] + b;
    }
  }

  lemma OneRecord(r: Record)
    ensures AllBytes([r]) == RecordBytes(r)
  {
    assert [r][1..] == [] && RecordBytes(r) + [] == RecordBytes(r);
  }

  lemma {:induction false} ItemsAreRecords(f: Field, items: seq<Value>, n: nat)
    requires n <= |items| && ItemBytes(f, items, n, true).Some? && |ItemBytes(f, items, n, true).value| < TWO32
    requires 0 < f.tag < 0x2000_0000
    ensures forall i :: 0 <= i < n ==> ValueBytes(f, items[i]).Some?
    ensures var rs := ItemRecords(f, items, n);
            && ItemBytes(f, items, n, true).value == AllBytes(rs)
            && forall i :: 0 <= i < |rs| ==> IsRecord(rs[i]) && rs[i].number == f.tag
    decreases n
  {
    hide ValueBytes, RecordBytes, RecordOf, TagBytes, AllBytes;
    ItemsEncode(f, items, n, true);
    if n == 0 {
      NoRecords();
    } else {
      ItemsAreRecords(f, items, n - 1);
      var front, last := ItemRecords(f, items, n - 1), RecordOf(f, items[n - 1]);
      TaggedIsRecord(f, items[n - 1]);
      RecordFits(f, items[n - 1]);
      AllBytesConcat(front, [last]);
      OneRecord(last);
    }
  }

  lemma NoRecords()
    ensures AllBytes([]) == []
  {
  }

  /** What a field contributes is its records. */
  lemma FieldIsRecords(f: Field, slot: Slot, m: Message)
    requires StoredSlot(f, slot) && FieldBytes(f, slot, m).Some? && |FieldBytes(f, slot, m).value| < TWO32
    requires 0 < f.tag < 0x2000_0000
    ensures !LeftOut(f, slot, m) ==> Encodable(f, slot)
    ensures var rs := FieldRecords(f, slot, m);
            && FieldBytes(f, slot, m).value == AllBytes(rs)
            && forall i :: 0 <= i < |rs| ==> IsRecord(rs[i]) && rs[i].number == f.tag
  {
    hide ValueBytes, RecordBytes, RecordOf, AllBytes, StoredValue, IsDefault, TaggedBytes, ItemBytes;
    if LeftOut(f, slot, m) {
      LeftOutIsEmpty(f, slot, m);
      NoRecords();
    } else {
      WrittenBytes(f, slot, m);
      if slot.One? {
        TaggedSome(f, slot.value);
        TaggedIsRecord(f, slot.value);
        RecordFits(f, slot.value);
        OneRecord(RecordOf(f, slot.value));
      } else if Packable(f.ltype) {
        ItemsEncode(f, slot.items, slot.count, false);
        PackedIsRecord(f, slot);
      } else {
        ItemsEncode(f, slot.items, slot.count, true);
        ItemsAreRecords(f, slot.items, slot.count);
      }
    }
  }

  lemma TaggedSome(f: Field, v: Value)
    requires TaggedBytes(f, v).Some?
    ensures ValueBytes(f, v).Some? && |ValueBytes(f, v).value| <= |TaggedBytes(f, v).value|
  {
  }

  lemma PackedIsRecord(f: Field, slot: Slot)
    requires slot.Many? && slot.count > 0 && Packable(f.ltype) && 0 < f.tag < 0x2000_0000
    requires ArrayBytes(f, slot.count, slot.items).Some? && |ArrayBytes(f, slot.count, slot.items).value| < TWO32
    ensures slot.count <= |slot.items| && ItemBytes(f, slot.items, slot.count, false).Some?
    ensures var r := Bytes(f.tag, ItemBytes(f, slot.items, slot.count, false).value);
            IsRecord(r) && ArrayBytes(f, slot.count, slot.items).value == AllBytes([r])
  {
    hide ItemBytes, AllBytes;
    var packed := ItemBytes(f, slot.items, slot.count, false).value;
    OneRecord(Bytes(f.tag, packed));
    StringLonger(packed);
    assert f.tag * 8 + 2 == 8 * f.tag + 2;
  }

  lemma {:induction false} FieldsEncode(fields: seq<Field>, m: Message, i: nat)
    requires i < |fields| && Stored(fields, m) && BytesFrom(fields, m, i).Some?
    ensures StoredSlot(fields[i], m.slots[i])
    ensures FieldBytes(fields[i], m.slots[i], m).Some? && BytesFrom(fields, m, i + 1).Some?
    ensures BytesFrom(fields, m, i).value
            == FieldBytes(fields[i], m.slots[i], m).value + BytesFrom(fields, m, i + 1).value
  {
    hide FieldBytes, StoredSlot;
    DepthOfField(fields, i);
  }

  /** The records of a message, from field `i` on. */
  function RecordsFrom(fields: seq<Field>, m: Message, i: nat): seq<Record>
    requires i <= |fields| && WellFormed(fields) && Stored(fields, m)
    requires BytesFrom(fields, m, i).Some? && |BytesFrom(fields, m, i).value| < TWO32
    decreases |fields| - i
  {
    if i == |fields| then []
    else
      FieldsEncode(fields, m, i);
      TagsOf(fields, i);
      FieldIsRecords(fields[i], m.slots[i], m);
      FieldRecords(fields[i], m.slots[i], m) + RecordsFrom(fields, m, i + 1)
  }

  lemma {:induction false} MessageIsRecords(fields: seq<Field>, m: Message, i: nat)
    requires i <= |fields| && WellFormed(fields) && Stored(fields, m)
    requires BytesFrom(fields, m, i).Some? && |BytesFrom(fields, m, i).value| < TWO32
    ensures BytesFrom(fields, m, i).value == AllBytes(RecordsFrom(fields, m, i))
    ensures forall j :: 0 <= j < |RecordsFrom(fields, m, i)| ==> IsRecord(RecordsFrom(fields, m, i)[j])
    decreases |fields| - i
  {
    hide FieldBytes, FieldRecords, AllBytes, WellFormed, Stored;
    if i == |fields| {
      NoRecords();
    } else {
      FieldsEncode(fields, m, i);
      TagsOf(fields, i);
      FieldIsRecords(fields[i], m.slots[i], m);
      MessageIsRecords(fields, m, i + 1);
      AllBytesConcat(FieldRecords(fields[i], m.slots[i], m), RecordsFrom(fields, m, i + 1));
    }
  }

  /** Any reader of the format finds in an encoded message the records of its fields: each key tells the extent
      and the kind of what follows, and numbers, strings and submessages are those of the message. */
  lemma {:induction false} EncodedIsReadable(fields: seq<Field>, m: Message)
    requires WellFormed(fields) && Stored(fields, m)
    requires BytesFrom(fields, m, 0).Some? && |BytesFrom(fields, m, 0).value| < TWO32
    ensures ReadRecords(BytesFrom(fields, m, 0).value) == Some(RecordsFrom(fields, m, 0))
  {
    MessageIsRecords(fields, m, 0);
    ReadsRecords(RecordsFrom(fields, m, 0));
  }

  // ----- Records the decoder does not know ---------------------------------------------

  lemma {:induction false} SkipsVarint(v: nat, rest: bytes)
    ensures SkipVarint(EncodeVarint(v) + rest) == Some(|EncodeVarint(v)|)
  {
    var b := EncodeVarint(v) + rest;
    if v >= 128 {
      SkipsVarint(v / 128, rest);
      assert b[1..] == EncodeVarint(v / 128) + rest;
    }
  }

  /** Skipping goes to the end of the payload. */
  lemma SkipsPayload(r: Record, rest: bytes)
    requires IsRecord(r)
    ensures SkipField(PayloadOf(r) + rest, KeyOf(r) % 8) == Some(|PayloadOf(r)|)
  {
    hide EncodeVarint, DecodeVarint32, EncodeFixed, SkipVarint;
    KeyIs(r.number, if r.Varint? then 0 else if r.Fixed64? then 1 else if r.Bytes? then 2 else 5);
    match r
    case Varint(_, value) => SkipsVarint(value, rest);
    case Fixed64(_, value) =>
    case Bytes(_, payload) => ParsesLength(payload, rest);
    case Fixed32(_, value) =>
  }

  /** In particular over every value a field of another descriptor may have been written with. */
  lemma SkipsValue(f: Field, v: Value, rest: bytes)
    requires ValueBytes(f, v).Some? && |ValueBytes(f, v).value| < TWO32
    ensures SkipField(ValueBytes(f, v).value + rest, WireType(f.ltype)) == Some(|ValueBytes(f, v).value|)
  {
    hide EncodeVarint, EncodeFixed, SkipField, CString, BytesFrom;
    var g := f.(tag := 1);
    assert ValueBytes(g, v) == ValueBytes(f, v);
    RecordFits(g, v);
    SkipsPayload(RecordOf(g, v), rest);
  }

  /** And over a packed array. */
  lemma SkipsPacked(f: Field, items: seq<Value>, n: nat, rest: bytes)
    requires n <= |items| && ItemBytes(f, items, n, false).Some? && |ItemBytes(f, items, n, false).value| < TWO32
    ensures var b := StringBytes(ItemBytes(f, items, n, false).value);
            SkipField(b + rest, WT_STRING) == Some(|b|)
  {
    hide ItemBytes, SkipField;
    SkipsPayload(Bytes(1, ItemBytes(f, items, n, false).value), rest);
  }

  lemma {:induction false} NotFound(fields: seq<Field>, tag: nat, pos: nat)
    requires pos <= |fields| && forall i :: 0 <= i < |fields| ==> fields[i].tag != tag
    ensures FindFrom(fields, tag, pos) == |fields|
  {
  }

  /** A record whose number is no tag of the descriptor leaves no trace, wherever in the message it comes. */
  lemma {:induction false} UnknownIsSkipped(fields: seq<Field>, r: Record, rest: bytes, m: Message, seen: set<nat>,
      pos: nat)
    requires IsRecord(r) && pos <= |fields| && forall i :: 0 <= i < |fields| ==> fields[i].tag != r.number
    ensures ParseMessage(fields, RecordBytes(r) + rest, m, seen, pos) == ParseMessage(fields, rest, m, seen, pos)
  {
    hide EncodeVarint, DecodeVarint32, Accepts32, PayloadOf, SkipField, FindFrom, ParseField;
    var key, payload := EncodeVarint(KeyOf(r)), PayloadOf(r);
    var b := RecordBytes(r) + rest;
    assert b == key + (payload + rest);
    KeyIs(r.number, if r.Varint? then 0 else if r.Fixed64? then 1 else if r.Bytes? then 2 else 5);
    Varint32Decodes(KeyOf(r), payload + rest);
    Accepts32Is(KeyOf(r));
    assert DecodeTag(b) == Tag(KeyOf(r) % 8, r.number, |key|);
    NotFound(fields, r.number, pos);
    assert b[|key|..] == payload + rest;
    SkipsPayload(r, rest);
    assert b[|key| + |payload|..] == rest;
  }

  /** Nor do several. */
  lemma {:induction false} UnknownAreSkipped(fields: seq<Field>, rs: seq<Record>, rest: bytes, m: Message,
      seen: set<nat>, pos: nat)
    requires pos <= |fields|
    requires forall j :: 0 <= j < |rs| ==> IsRecord(rs[j]) && forall i :: 0 <= i < |fields| ==>
               fields[i].tag != rs[j].number
    ensures ParseMessage(fields, AllBytes(rs) + rest, m, seen, pos) == ParseMessage(fields, rest, m, seen, pos)
    decreases |rs|
  {
    hide ParseMessage, RecordBytes;
    if rs == [] {
      assert [] + rest == rest;
    } else {
      assert AllBytes(rs) + rest == RecordBytes(rs[0]) + (AllBytes(rs[1..]) + rest);
      UnknownIsSkipped(fields, rs[0], AllBytes(rs[1..]) + rest, m, seen, pos);
      UnknownAreSkipped(fields, rs[1..], rest, m, seen, pos);
    }
  }
}
