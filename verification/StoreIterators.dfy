/** What a user's cursor goes over: the merged entries of everything a reader has pinned
    (db/db_impl.cc, NewInternalIterator and NewIterator), and what its visible list is. */
module StoreIterators {
  import opened InternalKeys
  import opened Options
  import opened Stores
  import opened StoreRuns
  import opened StoreInvariant
  import opened StoreReads
  import opened StoreSorted
  import opened StoreTheorems
  import DbIter
  import Levels = StoreLevels

  /** The list is in order and has just the entries of the files. */
  ghost predicate IsMerged(es: seq<Entry>, fs: set<File>)
  {
    && Sorted(es)
    && (forall e :: e in es ==> HasEntry(fs, e))
    && (forall f, p :: f in fs && p in f.table ==> exists e :: e in es && (e.key, e.sn) == p)
  }

  ghost predicate HasEntry(fs: set<File>, e: Entry)
  {
    exists f :: f in fs && (e.key, e.sn) in f.table && f.table[(e.key, e.sn)] == Levels.CellOfEntry(e)
  }

  // ----- What the list shows -----------------------------------------------------------

  function CellFound(e: Option<Entry>): Option<Cell>
  {
    if e == None then None else Some(Levels.CellOfEntry(e.value))
  }

  lemma HeldIsListed(es: seq<Entry>, fs: set<File>, k: UserKey, m: nat) returns (e: Entry)
    requires IsMerged(es, fs) && Holds(fs, k, m)
    ensures e in es && e.key == k && e.sn == m
  {
    hide Sorted, HasEntry;
    var f :| f in fs && (k, m) in f.table;
    e :| e in es && (e.key, e.sn) == (k, m);
  }

  lemma ListedIsHeld(es: seq<Entry>, fs: set<File>, history: Table, e: Entry)
    requires IsMerged(es, fs) && PartOf(fs, history) && e in es
    ensures Holds(fs, e.key, e.sn) && (e.key, e.sn) in history && history[(e.key, e.sn)] == Levels.CellOfEntry(e)
  {
    hide Sorted;
    assert HasEntry(fs, e);
  }

  /** Its newest visible entry is the one a search of all files finds. */
  lemma NewestIsFound(es: seq<Entry>, fs: set<File>, history: Table, k: UserKey, s: nat)
    requires IsMerged(es, fs) && PartOf(fs, history)
    ensures Finds(fs, history, k, s, CellFound(Newest(es, k, s)))
  {
    hide Newest, IsMerged, PartOf, Holds, Sorted;
    MergedIsSorted(es, fs);
    NewestIsLargest(es, k, s);
    forall m: nat | m <= s && Holds(fs, k, m)
      ensures Newest(es, k, s) != None && m <= Newest(es, k, s).value.sn
    {
      var e := HeldIsListed(es, fs, k, m);
      assert Matches(e, k, s);
    }
    if Newest(es, k, s) != None {
      var e := Newest(es, k, s).value;
      ListedIsHeld(es, fs, history, e);
      assert NewestHeld(fs, k, e.sn, s);
    }
  }

  /** What the cursor shows is the history at the snapshot: its keys increase, and it has a pair exactly
      when the history says the key has that value. */
  lemma ShowsHistory(es: seq<Entry>, fs: set<File>, history: Table, s: nat)
    requires IsMerged(es, fs) && PartOf(fs, history) && forall k :: ReadsRight(fs, history, k, s)
    ensures var shown := DbIter.VisibleList(es, s);
            && (forall i, j :: 0 <= i < j < |shown| ==> shown[i].0 < shown[j].0)
            && (forall k, v :: (k, v) in shown <==> ValueOf(ReadAt(history, k, s)) == Some(v))
  {
    hide IsMerged, Newest, Finds, NewestIn, DbIter.VisibleList, ReadAt, PartOf;
    DbIter.VisibleListIsSnapshot(es, s) by { assert IsMerged(es, fs); MergedIsSorted(es, fs); }
    forall k, v
      ensures (k, v) in DbIter.VisibleList(es, s) <==> ValueOf(ReadAt(history, k, s)) == Some(v)
    {
      NewestIsFound(es, fs, history, k, s);
      PartOfSome(fs, fs, history, s);
      NewestInIs(fs, history, k, s);
      SameFound(fs, history, k, s, CellFound(Newest(es, k, s)), NewestIn(fs, k, s));
      assert ReadsRight(fs, history, k, s);
    }
  }

  lemma MergedIsSorted(es: seq<Entry>, fs: set<File>)
    requires IsMerged(es, fs)
    ensures Sorted(es)
  {
  }

  /** A cursor made for a read goes over the snapshot for as long as it lives: any number of events after the
      read began, the merged entries of what it pinned show what the history said when it began. */
  lemma CursorShowsSnapshot(states: seq<Store>, events: seq<Event>, i: nat, j: nat, id: nat, snapshot: nat,
      es: seq<Entry>)
    requires IsRun(states, events) && NothingUncovered(states, events, Running) && i < j < |states|
    requires events[i] == BeginGetEvent(id, snapshot)
    requires id in states[j].readers && states[j].readers[id] == states[i + 1].readers[id]
    requires IsMerged(es, Pinned(states[j], states[j].readers[id]))
    ensures var shown := DbIter.VisibleList(es, snapshot);
            && (forall m, n :: 0 <= m < n < |shown| ==> shown[m].0 < shown[n].0)
            && (forall k, v :: (k, v) in shown <==> ValueOf(ReadAt(states[i].history, k, snapshot)) == Some(v))
  {
    hide ReadsRight, ReadAt, CompactionOk, DiskOk, FlushOk, LogsOk, LiveOk, SequencesOk, Shape, SnapshotsOk,
         LiveRight, NothingUncovered, IsMerged, DbIter.VisibleList, AgeOrdered, WithinBounds;
    RunKeeps(states, events, i);
    RunKeeps(states, events, j);
    RunKeepsRight(states, events, j, Running);
    var s, r := states[j], states[j].readers[id];
    assert r.snapshot == snapshot <= states[i].last by {
      SnapshotReached(states[i], snapshot, id);
    }
    assert ReaderOk(s, r);
    ShowsHistory(es, Pinned(s, r), s.history, snapshot);
    forall k
      ensures ReadAt(s.history, k, snapshot) == ReadAt(states[i].history, k, snapshot)
    {
      HistoryIsFixed(states, events, i, j, k, snapshot);
    }
  }

  // ----- There is one such list --------------------------------------------------------

  function EntryOf(p: InternalKey, c: Cell): Entry
  {
    match c
    case Del => Entry(p.0, p.1, TypeDeletion, [])
    case Put(v) => Entry(p.0, p.1, TypeValue, v)
  }

  lemma OneMoreInList(t: Table, p: InternalKey, u: Table, rest: seq<Entry>)
    requires p in t && IsSmallest(t, p) && u == t - {p} && Sorted(rest) && Levels.IsTableOf(u, rest)
    ensures Sorted([EntryOf(p, t[p])] + rest)
  {
    forall i | 0 <= i < |rest|
      ensures Precedes(EntryOf(p, t[p]), rest[i])
    {
      assert rest[i] in rest && (rest[i].key, rest[i].sn) in u;
      assert (rest[i].key, rest[i].sn) in t;
    }
  }

  lemma OneMoreInTable(t: Table, p: InternalKey, u: Table, rest: seq<Entry>)
    requires p in t && u == t - {p} && Levels.IsTableOf(u, rest)
    ensures Levels.IsTableOf(t, [EntryOf(p, t[p])] + rest)
  {
    var first := EntryOf(p, t[p]);
    var es := [first] + rest;
    assert (first.key, first.sn) == p && Levels.CellOfEntry(first) == t[p] && first in es;
    forall q | q in t
      ensures exists d :: d in es && (d.key, d.sn) == q
    {
      if q != p {
        var d := Levels.HasEntry(u, rest, q);
        assert d in es;
      }
    }
    forall e | e in es
      ensures (e.key, e.sn) in t && t[(e.key, e.sn)] == Levels.CellOfEntry(e)
    {
      assert e == first || e in rest;
    }
  }

  lemma {:induction false} InOneList(t: Table) returns (es: seq<Entry>)
    ensures Sorted(es) && Levels.IsTableOf(t, es)
    decreases t.Keys
  {
    if t == map[] {
      es := [];
    } else {
      hide Sorted, Levels.IsTableOf, Smallest;
      SmallestExists(t);
      var p := Smallest(t);
      var u := t - {p};
      assert p in t && u.Keys == t.Keys - {p};
      var rest := InOneList(u);
      es := [EntryOf(p, t[p])] + rest;
      OneMoreInList(t, p, u, rest);
      OneMoreInTable(t, p, u, rest);
    }
  }

  lemma MergedExists(fs: set<File>, history: Table) returns (es: seq<Entry>)
    requires PartOf(fs, history)
    ensures IsMerged(es, fs)
  {
    hide Sorted;
    var keys := set f, p | f in fs && p in f.table :: p;
    forall f, p | f in fs && p in f.table
      ensures p in history && f.table[p] == history[p]
    {
      var (k, n) := p;
      assert (k, n) in f.table;
    }
    var t := map p | p in keys :: history[p];
    es := InOneList(t);
    forall e | e in es
      ensures HasEntry(fs, e)
    {
      assert (e.key, e.sn) in t;
      var f :| f in fs && (e.key, e.sn) in f.table;
    }
    forall f, p | f in fs && p in f.table
      ensures exists e :: e in es && (e.key, e.sn) == p
    {
      assert p in t;
      var e := Levels.HasEntry(t, es, p);
    }
  }

  /** No two sources hold the same internal key, so merging them meets each entry once. */
  lemma NoKeyTwice(states: seq<Store>, events: seq<Event>, i: nat, id: nat, f: File, g: File, p: InternalKey)
    requires IsRun(states, events) && GapsKept(states, events) && i < |states| && id in states[i].readers
    requires f in Pinned(states[i], states[i].readers[id]) && g in Pinned(states[i], states[i].readers[id])
    requires p in f.table && p in g.table
    ensures f == g
  {
    hide CompactionOk, FlushOk, LogsOk, LiveOk, SequencesOk, Shape, SnapshotsOk, GapsKept, SortedLevels, RangesOk,
         PartOf, WithinBounds, AgeOrdered;
    RunKeeps(states, events, i);
    RunKeepsSorted(states, events, i);
    var s, r := states[i], states[i].readers[id];
    assert ReaderOk(s, r);
    PinnedSorted(s, r);
    if f.level == g.level {
      PinnedNumbers(s, r, id, f, g);
    }
    OneHolder(Pinned(s, r), f, g, p);
  }

  lemma PinnedNumbers(s: Store, r: Reader, id: nat, f: File, g: File)
    requires DiskOk(s) && id in s.readers && r == s.readers[id] && InLevels(r.version)
    requires f in Pinned(s, r) && g in Pinned(s, r) && f.level == g.level
    ensures f.level < 0 || f.number == g.number ==> f == g
  {
    assert f in r.version ==> IsLive(s, f);
    assert g in r.version ==> IsLive(s, g);
  }

  lemma OneHolder(fs: set<File>, f: File, g: File, p: InternalKey)
    requires AgeOrdered(fs) && SortedLevels(fs) && f in fs && g in fs && p in f.table && p in g.table
    requires f.level == g.level && (f.level < 0 || f.number == g.number) ==> f == g
    ensures f == g
  {
    var (k, n) := p;
    assert (k, n) in f.table && (k, n) in g.table;
    assert !Above(f, g) && !Above(g, f);
    assert !WhollyBefore(f.table, g.table) && !WhollyBefore(g.table, f.table);
  }
}
