/** Internal keys as bytes (db/dbformat.cc, db/dbformat.h, util/comparator.cc) and the entries of the
    memtable's arena (db/memtable.cc). */
module DbFormat {
  import opened Coding
  import InternalKeys
  import opened Options

  type UserBytes = bytes

  datatype Parsed = Parsed(userKey: UserBytes, sn: nat, kind: InternalKeys.ValueType)

  // ----- The bytewise order ------------------------------------------------------------

  /** Slice::compare: the first difference decides, then the length. */
  function CompareBytes(a: bytes, b: bytes): (r: int)
  {
    if a == [] then (if b == [] then 0 else -1)
    else if b == [] then 1
    else if a[0] < b[0] then -1
    else if a[0] > b[0] then 1
    else CompareBytes(a[1..], b[1..])
  }

  lemma {:induction false} CompareIsTotal(a: bytes, b: bytes)
    ensures CompareBytes(a, b) == 0 <==> a == b
    ensures CompareBytes(a, b) == -CompareBytes(b, a)
  {
    if a != [] && b != [] && a[0] == b[0] {
      CompareIsTotal(a[1..], b[1..]);
      assert a == [a[0]] + a[1..] && b == [b[0]] + b[1..];
    }
  }

  lemma {:induction false} CompareIsTransitive(a: bytes, b: bytes, c: bytes)
    requires CompareBytes(a, b) < 0 && CompareBytes(b, c) <= 0
    ensures CompareBytes(a, c) < 0
  {
    if a != [] && b != [] && c != [] && a[0] == b[0] && b[0] == c[0] {
      CompareIsTransitive(a[1..], b[1..], c[1..]);
    }
  }

  /** Strings that agree up to `n` and differ there. */
  lemma {:induction false} DifferAt(a: bytes, b: bytes, n: nat)
    requires n < |a| && n < |b| && a[..n] == b[..n] && a[n] != b[n]
    ensures CompareBytes(a, b) < 0 <==> a[n] < b[n]
  {
    if n > 0 {
      assert a[0] == a[..n][0] == b[..n][0] == b[0];
      assert a[1..][..n - 1] == a[..n][1..] == b[..n][1..] == b[1..][..n - 1];
      DifferAt(a[1..], b[1..], n - 1);
    }
  }

  /** The two differ first at `d`, with room for another byte in between. */
  predicate Splits(start: bytes, limit: bytes, d: nat)
  {
    && d < |start| && d < |limit| && start[..d] == limit[..d]
    && start[d] < 0xff && start[d] + 1 < limit[d]
  }

  function Raised(b: bytes, d: nat): bytes
    requires d < |b| && b[d] < 0xff
  {
    b[..d] + [b[d] + 1]
  }

  /** The bytewise comparator's shortcut: `start` itself, or a string no longer that lies strictly between it and
      `limit`. It is cut after the first difference whenever a byte fits in there. */
  method ShortestSeparator(start: bytes, limit: bytes) returns (r: bytes)
    ensures |r| <= |start| && (r == start || (CompareBytes(start, r) < 0 && CompareBytes(r, limit) < 0))
    ensures forall d :: 0 <= d && Splits(start, limit, d) ==> r == Raised(start, d)
    ensures (forall d :: 0 <= d ==> !Splits(start, limit, d)) ==> r == start
  {
    var minLength := if |start| < |limit| then |start| else |limit|;
    var diffIndex := 0;
    while diffIndex < minLength && start[diffIndex] == limit[diffIndex]
      invariant 0 <= diffIndex <= minLength && start[..diffIndex] == limit[..diffIndex]
    {
      diffIndex := diffIndex + 1;
    }
    r := start;
    forall d | 0 <= d && Splits(start, limit, d)
      ensures d == diffIndex
    {
      OneDifference(start, limit, diffIndex, d);
    }
    if diffIndex < minLength {
      var diffByte := start[diffIndex];
      if diffByte < 0xff && diffByte + 1 < limit[diffIndex] {
        assert Splits(start, limit, diffIndex);
        r := start[..diffIndex] + [diffByte + 1];
        assert r[..diffIndex] == start[..diffIndex];
        DifferAt(start, r, diffIndex);
        DifferAt(r, limit, diffIndex);
      }
    }
  }

  lemma OneDifference(a: bytes, b: bytes, n: nat, d: nat)
    requires n <= |a| && n <= |b| && a[..n] == b[..n] && (n < |a| && n < |b| ==> a[n] != b[n])
    requires d < |a| && d < |b| && a[..d] == b[..d] && a[d] != b[d]
    ensures d == n
  {
    Agree(a, b, n, d);
    Agree(a, b, d, n);
  }

  lemma Agree(a: bytes, b: bytes, n: nat, d: nat)
    requires n <= |a| && n <= |b| && a[..n] == b[..n]
    ensures d < n ==> a[d] == b[d]
  {
    if d < n {
      assert a[..n][d] == b[..n][d];
    }
  }

  /** The first byte that can be raised. */
  ghost predicate Rises(key: bytes, d: nat)
  {
    d < |key| && key[d] < 0xff && forall i :: 0 <= i < d ==> key[i] == 0xff
  }

  /** The bytewise comparator's shortcut: a string at least `key`, cut after the first byte that can be raised. */
  method ShortSuccessor(key: bytes) returns (r: bytes)
    ensures |r| <= |key| && (r == key || CompareBytes(key, r) < 0)
    ensures r == key <==> forall i :: 0 <= i < |key| ==> key[i] == 0xff
    ensures forall d :: 0 <= d && Rises(key, d) ==> r == Raised(key, d)
    ensures (forall d :: 0 <= d ==> !Rises(key, d)) ==> r == key
  {
    for i := 0 to |key|
      invariant forall j :: 0 <= j < i ==> key[j] == 0xff
    {
      if key[i] != 0xff {
        assert Rises(key, i);
        r := key[..i] + [key[i] + 1];
        assert r[..i] == key[..i];
        DifferAt(key, r, i);
        return;
      }
    }
    return key;
  }

  // ----- Encoded internal keys ---------------------------------------------------------

  const VALUE_TYPE_FOR_SEEK := InternalKeys.TypeValue

  /** AppendInternalKey. */
  function Encode(p: Parsed): (r: bytes)
  {
    p.userKey + EncodeFixed(InternalKeys.Tag(p.sn, p.kind), 8)
  }

  function ExtractUserKey(key: bytes): bytes
    requires |key| >= 8
  {
    key[..|key| - 8]
  }

  function TagOf(key: bytes): nat
    requires |key| >= 8
  {
    DecodeFixed(key[|key| - 8..])
  }

  /** ParseInternalKey. */
  function Parse(key: bytes): Option<Parsed>
  {
    if |key| < 8 || TagOf(key) % 256 > 1 then None
    else Some(Parsed(ExtractUserKey(key), TagOf(key) / 256,
                     if TagOf(key) % 256 == 1 then InternalKeys.TypeValue else InternalKeys.TypeDeletion))
  }

  lemma FieldsOfEncoded(p: Parsed)
    requires p.sn <= InternalKeys.MAX_SEQUENCE_NUMBER
    ensures |Encode(p)| == |p.userKey| + 8 && ExtractUserKey(Encode(p)) == p.userKey
    ensures TagOf(Encode(p)) == InternalKeys.Tag(p.sn, p.kind)
  {
    Pow256Of8();
    FixedRoundTrip(InternalKeys.Tag(p.sn, p.kind), 8);
    assert Encode(p)[|p.userKey|..] == EncodeFixed(InternalKeys.Tag(p.sn, p.kind), 8);
  }

  /** After the user key come the type, 1 for a value and 0 for a deletion, and the sequence number in seven bytes,
      the least significant first. */
  lemma KeyLayout(p: Parsed, i: nat)
    requires p.sn <= InternalKeys.MAX_SEQUENCE_NUMBER && i < 7
    ensures |Encode(p)| == |p.userKey| + 8 && Encode(p)[..|p.userKey|] == p.userKey
    ensures Encode(p)[|p.userKey|] == (if p.kind == InternalKeys.TypeDeletion then 0 else 1)
    ensures Encode(p)[|p.userKey| + 1 + i] == (p.sn / Pow256(i)) % 256
  {
    hide EncodeFixed, Pow256;
    var tag := InternalKeys.Tag(p.sn, p.kind);
    FixedIsLittleEndian(tag, 8, 0);
    FixedIsLittleEndian(tag, 8, i + 1);
    FirstPower();
    NextPower(i);
    DivideTwice(tag, 256, Pow256(i));
    assert tag / 256 == p.sn && tag % 256 == (if p.kind == InternalKeys.TypeDeletion then 0 else 1);
  }

  lemma FirstPower()
    ensures Pow256(0) == 1
  {
  }

  lemma NextPower(i: nat)
    ensures Pow256(i + 1) == 256 * Pow256(i)
  {
  }

  /** Encoding and parsing are inverse to each other: what parses is exactly what was encoded. */
  lemma InternalKeyRoundTrip(p: Parsed, key: bytes)
    ensures p.sn <= InternalKeys.MAX_SEQUENCE_NUMBER ==> Parse(Encode(p)) == Some(p)
    ensures Parse(key).Some? ==>
            Encode(Parse(key).value) == key && Parse(key).value.sn <= InternalKeys.MAX_SEQUENCE_NUMBER
  {
    hide EncodeFixed, DecodeFixed;
    if p.sn <= InternalKeys.MAX_SEQUENCE_NUMBER {
      FieldsOfEncoded(p);
    }
    if Parse(key).Some? {
      Pow256Of8();
      FixedRoundTripBack(key[|key| - 8..]);
      assert key == key[..|key| - 8] + key[|key| - 8..];
    }
  }

  /** InternalKeyComparator::Compare. */
  function Compare(a: bytes, b: bytes): int
    requires |a| >= 8 && |b| >= 8
  {
    var r := CompareBytes(ExtractUserKey(a), ExtractUserKey(b));
    if r != 0 then r
    else if TagOf(a) > TagOf(b) then -1
    else if TagOf(a) < TagOf(b) then 1
    else 0
  }

  /** The first of all entries of a user key. */
  function ForSeek(userKey: UserBytes): bytes
  {
    Encode(Parsed(userKey, InternalKeys.MAX_SEQUENCE_NUMBER, VALUE_TYPE_FOR_SEEK))
  }

  method FindShortestSeparator(start: bytes, limit: bytes) returns (r: bytes)
    requires |start| >= 8 && |limit| >= 8
    ensures r == start || (8 <= |r| < |start| && Compare(start, r) < 0 && Compare(r, limit) < 0)
    ensures forall d :: 0 <= d && Splits(ExtractUserKey(start), ExtractUserKey(limit), d) ==>
              r == (if d + 9 < |start| then ForSeek(Raised(ExtractUserKey(start), d)) else start)
    ensures (forall d :: 0 <= d ==> !Splits(ExtractUserKey(start), ExtractUserKey(limit), d)) ==> r == start
  {
    var userStart, userLimit := ExtractUserKey(start), ExtractUserKey(limit);
    var tmp := ShortestSeparator(userStart, userLimit);
    r := start;
    if |tmp| < |userStart| && CompareBytes(userStart, tmp) < 0 {
      FieldsOfEncoded(Parsed(tmp, InternalKeys.MAX_SEQUENCE_NUMBER, VALUE_TYPE_FOR_SEEK));
      r := Encode(Parsed(tmp, InternalKeys.MAX_SEQUENCE_NUMBER, VALUE_TYPE_FOR_SEEK));
    }
  }

  method FindShortSuccessor(key: bytes) returns (r: bytes)
    requires |key| >= 8
    ensures 8 <= |r| <= |key| && (r == key || Compare(key, r) < 0)
    ensures forall d :: 0 <= d && Rises(ExtractUserKey(key), d) ==>
              r == (if d + 9 < |key| then ForSeek(Raised(ExtractUserKey(key), d)) else key)
    ensures (forall d :: 0 <= d ==> !Rises(ExtractUserKey(key), d)) ==> r == key
  {
    var userKey := ExtractUserKey(key);
    var tmp := ShortSuccessor(userKey);
    r := key;
    if |tmp| < |userKey| && CompareBytes(userKey, tmp) < 0 {
      FieldsOfEncoded(Parsed(tmp, InternalKeys.MAX_SEQUENCE_NUMBER, VALUE_TYPE_FOR_SEEK));
      r := Encode(Parsed(tmp, InternalKeys.MAX_SEQUENCE_NUMBER, VALUE_TYPE_FOR_SEEK));
    }
  }

  // ----- User keys as ranks ------------------------------------------------------------

  ghost function Below(keys: set<UserBytes>, k: UserBytes): set<UserBytes>
  {
    set x | x in keys && CompareBytes(x, k) < 0
  }

  /** The number of a user key among all those in use. */
  ghost function Rank(keys: set<UserBytes>, k: UserBytes): int
  {
    |Below(keys, k)|
  }

  lemma ProperSubset(a: set<UserBytes>, b: set<UserBytes>, x: UserBytes)
    requires a <= b && x in b && x !in a
    ensures |a| < |b|
  {
    assert a <= b - {x};
    FewerIn(a, b - {x});
  }

  lemma {:induction false} FewerIn(a: set<UserBytes>, b: set<UserBytes>)
    requires a <= b
    ensures |a| <= |b|
    decreases a
  {
    if a != {} {
      var x :| x in a;
      FewerIn(a - {x}, b - {x});
    }
  }

  lemma RankFollowsOrder(keys: set<UserBytes>, a: UserBytes, b: UserBytes)
    requires a in keys && b in keys && CompareBytes(a, b) < 0
    ensures Rank(keys, a) < Rank(keys, b)
  {
    forall x | x in Below(keys, a)
      ensures x in Below(keys, b)
    {
      CompareIsTransitive(x, a, b);
    }
    CompareIsTotal(a, a);
    ProperSubset(Below(keys, a), Below(keys, b), a);
  }

  /** Comparing encoded internal keys is comparing ranks and tags: the order used by the rest of the
      model is the comparator's, for any finite set of user keys. */
  lemma RanksCompareAlike(keys: set<UserBytes>, p: Parsed, q: Parsed)
    requires p.userKey in keys && q.userKey in keys
    requires p.sn <= InternalKeys.MAX_SEQUENCE_NUMBER && q.sn <= InternalKeys.MAX_SEQUENCE_NUMBER
    ensures |Encode(p)| >= 8 && |Encode(q)| >= 8
    ensures var c := InternalKeys.Compare(Rank(keys, p.userKey), InternalKeys.Tag(p.sn, p.kind),
                                          Rank(keys, q.userKey), InternalKeys.Tag(q.sn, q.kind));
            (Compare(Encode(p), Encode(q)) < 0 <==> c < 0) && (Compare(Encode(p), Encode(q)) == 0 <==> c == 0)
    ensures Compare(Encode(p), Encode(q)) == 0 <==> p == q
  {
    hide Encode, TagOf, ExtractUserKey, Rank, CompareBytes;
    FieldsOfEncoded(p);
    FieldsOfEncoded(q);
    CompareIsTotal(p.userKey, q.userKey);
    if CompareBytes(p.userKey, q.userKey) < 0 {
      RankFollowsOrder(keys, p.userKey, q.userKey);
    } else if CompareBytes(p.userKey, q.userKey) > 0 {
      RankFollowsOrder(keys, q.userKey, p.userKey);
    }
  }

  // ----- Lookup keys and memtable entries ----------------------------------------------

  /** The bytes a LookupKey lays out, and where its three views start and end. */
  datatype LookupKey = LookupKey(space: bytes, kstart: nat)
  {
    predicate Valid() { kstart + 8 <= |space| }
    function MemtableKey(): bytes { space }
    function InternalKey(): bytes requires Valid() { space[kstart..] }
    function UserKey(): bytes requires Valid() { space[kstart..|space| - 8] }
  }

  function NewLookupKey(userKey: UserBytes, s: nat): (r: LookupKey)
    ensures r.Valid()
  {
    var size := EncodeVarint(|userKey| + 8);
    LookupKey(size + userKey + EncodeFixed(InternalKeys.Tag(s, VALUE_TYPE_FOR_SEEK), 8), |size|)
  }

  /** The bytes MemTable::Add puts into the arena. */
  function ArenaEntry(p: Parsed, value: bytes): bytes
  {
    PutLengthPrefixed(Encode(p)) + PutLengthPrefixed(value)
  }

  /** The key and the value behind a pointer into the arena, which goes on with other bytes. */
  function KeyAt(b: bytes): Option<bytes>
  {
    match GetLengthPrefixed(b)
    case None => None
    case Some((key, _)) => Some(key)
  }

  function ValueAt(b: bytes): Option<bytes>
  {
    match GetLengthPrefixed(b)
    case None => None
    case Some((_, n)) => KeyAt(b[n..])
  }

  /** Whatever follows an entry in the arena, its key and its value are read back as they were added. */
  lemma EntryRoundTrip(p: Parsed, value: bytes, rest: bytes)
    requires p.sn <= InternalKeys.MAX_SEQUENCE_NUMBER && |p.userKey| + 8 < 0x1_0000_0000 && |value| < 0x1_0000_0000
    ensures KeyAt(ArenaEntry(p, value) + rest) == Some(Encode(p)) && Parse(Encode(p)) == Some(p)
    ensures ValueAt(ArenaEntry(p, value) + rest) == Some(value)
  {
    hide GetLengthPrefixed, PutLengthPrefixed, Encode, Parse;
    FieldsOfEncoded(p);
    InternalKeyRoundTrip(p, []);
    var b := ArenaEntry(p, value) + rest;
    var key := PutLengthPrefixed(Encode(p));
    LengthPrefixedRoundTrip(Encode(p), PutLengthPrefixed(value) + rest);
    assert b == key + (PutLengthPrefixed(value) + rest);
    assert b[|key|..] == PutLengthPrefixed(value) + rest;
    LengthPrefixedRoundTrip(value, rest);
  }

  /** A lookup key reads as the internal key that precedes everything its reader may see: seeking with
      its memtable key compares, against any entry, as its internal key does. */
  lemma LookupKeyReads(userKey: UserBytes, s: nat, p: Parsed, value: bytes, rest: bytes)
    requires s <= InternalKeys.MAX_SEQUENCE_NUMBER && p.sn <= InternalKeys.MAX_SEQUENCE_NUMBER
    requires |userKey| + 8 < 0x1_0000_0000 && |p.userKey| + 8 < 0x1_0000_0000
    ensures var key := NewLookupKey(userKey, s);
            && key.UserKey() == userKey && key.InternalKey() == Encode(Parsed(userKey, s, VALUE_TYPE_FOR_SEEK))
            && KeyAt(key.MemtableKey() + rest) == Some(key.InternalKey())
            && |Encode(p)| >= 8
            && (p.userKey == userKey ==> (Compare(Encode(p), key.InternalKey()) < 0 <==> p.sn > s))
  {
    hide Encode, GetLengthPrefixed, TagOf, ExtractUserKey, CompareBytes;
    var p0 := Parsed(userKey, s, VALUE_TYPE_FOR_SEEK);
    LookupKeyLayout(userKey, s);
    LengthPrefixedRoundTrip(Encode(p0), rest);
    FieldsOfEncoded(p);
    FieldsOfEncoded(p0);
    CompareIsTotal(userKey, userKey);
  }

  lemma LookupKeyLayout(userKey: UserBytes, s: nat)
    ensures var key, p0 := NewLookupKey(userKey, s), Parsed(userKey, s, VALUE_TYPE_FOR_SEEK);
            && key.UserKey() == userKey && key.InternalKey() == Encode(p0)
              && key.MemtableKey() == PutLengthPrefixed(Encode(p0))
  {
    hide EncodeFixed, EncodeVarint;
    var key, p0 := NewLookupKey(userKey, s), Parsed(userKey, s, VALUE_TYPE_FOR_SEEK);
    assert |Encode(p0)| == |userKey| + 8;
    assert key.space == EncodeVarint(|userKey| + 8) + Encode(p0);
  }
}
