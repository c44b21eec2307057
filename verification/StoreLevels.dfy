/** The levels of a version as lists of files with recorded bounds, and as the engine's state has them: the
    inputs the source chooses may begin a compaction there, the loop's drop rule is the one of its events, and
    the file its lookups read is the one FindFile returns. */
module StoreLevels {
  import opened InternalKeys
  import opened Options
  import opened Stores
  import opened StoreRuns
  import Inputs = CompactionInputs
  import Loop = Compaction
  import Placement = FlushPlacement
  import VersionBuilder

  type FileMeta = Inputs.FileMeta

  function CellOfEntry(e: Entry): Cell
  {
    if e.kind == TypeDeletion then Del else Put(e.value)
  }

  ghost predicate IsTableOf(t: Table, es: seq<Entry>)
  {
    && (forall e :: e in es ==> (e.key, e.sn) in t && t[(e.key, e.sn)] == CellOfEntry(e))
    && (forall p :: p in t ==> exists e :: e in es && (e.key, e.sn) == p)
  }

  /** File `i` of the list is file `s[i]` of the state. */
  ghost predicate IsLevel(version: set<File>, level: int, files: seq<FileMeta>, s: seq<File>)
  {
    && |s| == |files|
    && (forall i :: 0 <= i < |s| ==> s[i] in version && s[i].level == level && IsTableOf(s[i].table, files[i].entries))
    && (forall f :: f in version && f.level == level ==> f in s)
    && (forall i, j :: 0 <= i < j < |s| ==> s[i] != s[j])
  }

  /** The files of the state that are in the list `taken`. */
  ghost function FilesOf(files: seq<FileMeta>, s: seq<File>, taken: seq<FileMeta>): set<File>
    requires |s| == |files|
  {
    set i | 0 <= i < |s| && files[i] in taken :: s[i]
  }

  lemma HasEntry(t: Table, es: seq<Entry>, p: InternalKey) returns (e: Entry)
    requires IsTableOf(t, es) && p in t
    ensures e in es && (e.key, e.sn) == p && t[p] == CellOfEntry(e)
  {
    e :| e in es && (e.key, e.sn) == p;
  }

  // ----- The inputs of a compaction ----------------------------------------------------

  lemma TakenIndex(version: set<File>, level: int, files: seq<FileMeta>, s: seq<File>, taken: seq<FileMeta>, f: File)
    returns (i: nat)
    requires IsLevel(version, level, files, s) && f in version && f.level == level
    ensures i < |s| && s[i] == f && (f in FilesOf(files, s, taken) <==> files[i] in taken)
  {
    i :| 0 <= i < |s| && s[i] == f;
    if f in FilesOf(files, s, taken) {
      var j :| 0 <= j < |s| && files[j] in taken && s[j] == f;
    }
  }

  lemma TakenAreThere(version: set<File>, level: int, files: seq<FileMeta>, s: seq<File>, taken: seq<FileMeta>)
    requires IsLevel(version, level, files, s)
    ensures FilesOf(files, s, taken) <= version && forall f :: f in FilesOf(files, s, taken) ==> f.level == level
  {
  }

  /** What stays behind at the level of the inputs is newer, file by file. */
  lemma KeptIsAbove(version: set<File>, level: nat, l0: seq<FileMeta>, s0: seq<File>, inputs0: seq<FileMeta>,
      f: File, g: File)
    requires IsLevel(version, level, l0, s0) && Inputs.LevelOk(l0, level) && Inputs.FilesOk(l0)
             && Inputs.ChosenAbove(l0, level, inputs0)
    requires f in FilesOf(l0, s0, inputs0) && g in version && g.level == level && g !in FilesOf(l0, s0, inputs0)
    ensures Above(g, f)
  {
    hide Inputs.LevelOk, Inputs.FilesOk, Inputs.ChosenAbove, IsTableOf;
    TakenAreThere(version, level, l0, s0, inputs0);
    var i := TakenIndex(version, level, l0, s0, inputs0, f);
    var j := TakenIndex(version, level, l0, s0, inputs0, g);
    forall k, m, n | (k, m) in g.table && (k, n) in f.table
      ensures m > n
    {
      var d := HasEntry(g.table, l0[j].entries, (k, m));
      var e := HasEntry(f.table, l0[i].entries, (k, n));
      Inputs.KeptAboveIsNewer(l0, level, inputs0, l0[j], l0[i], d, e);
    }
  }

  /** The inputs the source chooses at any level meet the conditions under which a compaction may begin. */
  lemma ChosenMayBegin(version: set<File>, level: nat, l0: seq<FileMeta>, s0: seq<File>, l1: seq<FileMeta>,
      s1: seq<File>, inputs0: seq<FileMeta>, a: nat, b: nat)
    requires AgeOrdered(version) && level < NUM_LEVELS - 1
    requires IsLevel(version, level, l0, s0) && IsLevel(version, level + 1, l1, s1)
    requires Inputs.LevelOk(l0, level) && Inputs.FilesOk(l0) && Inputs.WellFormed(l1)
             && Inputs.Chosen(l0, l1, level, inputs0, a, b) && a <= b <= |l1|
    ensures var inputs := FilesOf(l0, s0, inputs0) + FilesOf(l1, s1, l1[a..b]);
            InputsOk(version, level, inputs) && TakesOverlapping(version, level, inputs)
  {
    hide Inputs.LevelOk, Inputs.FilesOk, Inputs.ChosenAbove, Inputs.WellFormed, Inputs.Takes, IsTableOf, Above, Reaches;
    var upper, lower := FilesOf(l0, s0, inputs0), FilesOf(l1, s1, l1[a..b]);
    var inputs := upper + lower;
    TakenAreThere(version, level, l0, s0, inputs0);
    TakenAreThere(version, level + 1, l1, s1, l1[a..b]);
    forall f, g | f in inputs && g in version && g !in inputs && g.level <= level
      ensures Above(g, f)
    {
      if f in upper && g.level == level {
        KeptIsAbove(version, level, l0, s0, inputs0, f, g);
      } else {
        assert Newer(g, f);
      }
    }
    forall g | g in version && g.level == level + 1
      ensures g in inputs <==> Reaches(inputs, level, g.table)
    {
      var m := TakenIndex(version, level + 1, l1, s1, l1[a..b], g);
      MetaOk(l1, m);
      InRunByIndex(l1, a, b, m);
      assert g in inputs <==> a <= m < b;
      OverlapIsReach(version, level, l0, s0, l1, s1, inputs0, a, b, m);
    }
  }

  lemma Differ(l1: seq<FileMeta>, i: nat, j: nat)
    requires Inputs.LevelSorted(l1) && i < |l1| && j < |l1| && i != j
    ensures l1[i] != l1[j]
  {
    if i < j {
      assert Precedes(l1[i].largest, l1[j].smallest);
    } else {
      assert Precedes(l1[j].largest, l1[i].smallest);
    }
  }

  lemma InRunByIndex(l1: seq<FileMeta>, a: nat, b: nat, m: nat)
    requires Inputs.LevelSorted(l1) && a <= b <= |l1| && m < |l1|
    ensures l1[m] in l1[a..b] <==> a <= m < b
  {
    hide Inputs.LevelSorted;
    if a <= m < b {
      assert l1[a..b][m - a] == l1[m];
    } else {
      forall j | 0 <= j < b - a
        ensures l1[a..b][j] != l1[m]
      {
        Differ(l1, a + j, m);
      }
    }
  }

  lemma MetaOk(files: seq<FileMeta>, m: nat)
    requires Inputs.WellFormed(files) && m < |files|
    ensures Inputs.LevelSorted(files) && Inputs.FilesOk(files) && Sorted(files[m].entries) && Loop.ExactBounds(files[m])
  {
  }

  lemma BoundsAreKeys(t: Table, f: FileMeta)
    requires IsTableOf(t, f.entries) && Sorted(f.entries) && Loop.ExactBounds(f)
    ensures (f.smallest.key, f.smallest.sn) in t && (f.largest.key, f.largest.sn) in t
    ensures forall p :: p in t ==> f.smallest.key <= p.0 <= f.largest.key
  {
    assert f.smallest in f.entries && f.largest in f.entries;
    forall p | p in t
      ensures f.smallest.key <= p.0 <= f.largest.key
    {
      var e := HasEntry(t, f.entries, p);
      Inputs.EntryInFile(f, e);
    }
  }

  lemma IndexOf(l0: seq<FileMeta>, inputs0: seq<FileMeta>, m: nat) returns (i: nat)
    requires m < |inputs0| && forall f :: f in inputs0 ==> f in l0
    ensures i < |l0| && l0[i] == inputs0[m]
  {
    assert inputs0[m] in inputs0;
    i :| 0 <= i < |l0| && l0[i] == inputs0[m];
  }

  lemma InputKeys(version: set<File>, level: nat, l0: seq<FileMeta>, s0: seq<File>, inputs0: seq<FileMeta>,
      lo: UserKey, hi: UserKey)
    requires IsLevel(version, level, l0, s0) && Inputs.FilesOk(l0) && Inputs.Spans(inputs0, lo, hi)
             && (forall f :: f in inputs0 ==> f in l0)
    ensures forall f, p :: f in FilesOf(l0, s0, inputs0) && p in f.table ==> lo <= p.0 <= hi
    ensures exists f, p :: f in FilesOf(l0, s0, inputs0) && p in f.table && p.0 == lo
    ensures exists f, p :: f in FilesOf(l0, s0, inputs0) && p in f.table && p.0 == hi
  {
    hide IsTableOf;
    forall f, p | f in FilesOf(l0, s0, inputs0) && p in f.table
      ensures lo <= p.0 <= hi
    {
      var i :| 0 <= i < |s0| && l0[i] in inputs0 && s0[i] == f;
      BoundsAreKeys(f.table, l0[i]);
      var m :| 0 <= m < |inputs0| && inputs0[m] == l0[i];
    }
    var m :| 0 <= m < |inputs0| && inputs0[m].smallest.key == lo;
    var i := IndexOf(l0, inputs0, m);
    BoundsAreKeys(s0[i].table, l0[i]);
    assert s0[i] in FilesOf(l0, s0, inputs0) && (l0[i].smallest.key, l0[i].smallest.sn) in s0[i].table;
    var n :| 0 <= n < |inputs0| && inputs0[n].largest.key == hi;
    var j := IndexOf(l0, inputs0, n);
    BoundsAreKeys(s0[j].table, l0[j]);
    assert s0[j] in FilesOf(l0, s0, inputs0) && (l0[j].largest.key, l0[j].largest.sn) in s0[j].table;
  }

  lemma ChosenAreThere(l0: seq<FileMeta>, level: nat, inputs0: seq<FileMeta>)
    requires Inputs.ChosenAbove(l0, level, inputs0)
    ensures forall f :: f in inputs0 ==> f in l0
  {
    if level == 0 {
      var lo, hi :| Inputs.Spans(inputs0, lo, hi) && inputs0 == Inputs.Overlapping(l0, Some(lo), Some(hi));
      Inputs.OverlappingMembers(l0, Some(lo), Some(hi));
    } else {
      var i: nat, n: nat :| Inputs.IsWholeRun(l0, i, n, inputs0);
      assert forall m :: 0 <= m < |inputs0| ==> inputs0[m] == l0[i + m];
    }
  }

  /** Overlapping the recorded bounds is reaching the keys. */
  lemma OverlapIsReach(version: set<File>, level: nat, l0: seq<FileMeta>, s0: seq<File>, l1: seq<FileMeta>,
      s1: seq<File>, inputs0: seq<FileMeta>, a: nat, b: nat, m: nat)
    requires IsLevel(version, level, l0, s0) && IsLevel(version, level + 1, l1, s1) && Inputs.FilesOk(l0)
             && Inputs.WellFormed(l1)
    requires Inputs.Chosen(l0, l1, level, inputs0, a, b) && a <= b <= |l1| && m < |l1|
    ensures a <= m < b <==> Reaches(FilesOf(l0, s0, inputs0) + FilesOf(l1, s1, l1[a..b]), level, s1[m].table)
  {
    hide IsTableOf, Inputs.ChosenAbove, Inputs.WellFormed, Inputs.FilesOk, Inputs.Spans, Reaches, FilesOf;
    var lo, hi :| Inputs.Spans(inputs0, lo, hi) && Inputs.IsRun(l1, |l1|, a, b, lo, hi);
    ChosenAreThere(l0, level, inputs0);
    InputKeys(version, level, l0, s0, inputs0, lo, hi);
    MetaOk(l1, m);
    BoundsAreKeys(s1[m].table, l1[m]);
    var upper, lower, u := FilesOf(l0, s0, inputs0), FilesOf(l1, s1, l1[a..b]), s1[m].table;
    TakenAreThere(version, level, l0, s0, inputs0);
    TakenAreThere(version, level + 1, l1, s1, l1[a..b]);
    ReachOf(upper, lower, level, u, lo, hi, (l1[m].smallest.key, l1[m].smallest.sn),
      (l1[m].largest.key, l1[m].largest.sn));
  }

  lemma ReachOf(upper: set<File>, lower: set<File>, level: int, u: Table, lo: UserKey, hi: UserKey, p: InternalKey,
      q: InternalKey)
    requires (forall f :: f in upper ==> f.level == level) && (forall f :: f in lower ==> f.level == level + 1)
    requires forall f, r :: f in upper && r in f.table ==> lo <= r.0 <= hi
    requires exists f, r :: f in upper && r in f.table && r.0 == lo
    requires exists f, r :: f in upper && r in f.table && r.0 == hi
    requires p in u && q in u && forall r :: r in u ==> p.0 <= r.0 <= q.0
    ensures Reaches(upper + lower, level, u) <==> lo <= q.0 && p.0 <= hi
  {
    var f, r :| f in upper && r in f.table && r.0 == lo;
    var g, t :| g in upper && t in g.table && t.0 == hi;
    assert lo <= q.0 ==> SomeUpTo(f.table, u);
    assert p.0 <= hi ==> SomeUpTo(u, g.table);
  }

  /** IsBaseLevelForKey, which looks at the ranges of the deeper levels, answers as the events ask. */
  lemma BaseKeysAreBase(version: set<File>, level: nat, inputs: set<File>, levels: seq<seq<Loop.FileRange>>,
      base: set<UserKey>)
    requires forall g, p :: g in version && g.level > level + 1 && p in g.table ==>
               exists l :: 0 <= l < |levels| && Loop.InSomeFile(levels[l], p.0)
    requires forall k :: k in base ==> Loop.IsBase(levels, k)
    ensures BaseOk(version, level, inputs, base)
  {
    forall g, p | g in version && g.level > level + 1 && p in g.table
      ensures p.0 !in base
    {
      var l :| 0 <= l < |levels| && Loop.InSomeFile(levels[l], p.0);
      assert !Loop.IsBase(levels, p.0);
    }
    forall k, g, n: nat | k in base && g in version && g.level > level + 1
      ensures (k, n) !in g.table
    {
      var p := (k, n);
      assert p in g.table ==> p.0 !in base;
    }
  }

  // ----- The loop of a compaction ------------------------------------------------------

  /** The entries the loop keeps are those the events of the engine do not drop. */
  lemma LoopKeepsTheRest(c: Compaction, es: seq<Entry>, levels: seq<seq<Loop.FileRange>>, i: nat)
    requires Sorted(es) && i < |es|
    requires forall e, n :: e in es && n == e.sn ==> Holds(c.inputs, e.key, n)
    requires forall f, k, n: nat :: f in c.inputs && (k, n) in f.table ==>
             exists e :: e in es && e.key == k && e.sn == n
    requires forall e :: e in es ==> (e.key in c.base <==> Loop.IsBase(levels, e.key))
    ensures es[i] in Loop.Kept(es, |es|, c.smallestSnapshot, levels)
            <==> !Dropped(c, es[i].key, es[i].sn, CellOfEntry(es[i]))
  {
    hide Loop.IsBase;
    var e := es[i];
    Loop.KeptMembers(es, |es|, c.smallestSnapshot, levels);
    forall j | 0 <= j < |es| && j != i
      ensures es[j] != e
    {
      if j < i {
        assert Precedes(es[j], es[i]);
      } else {
        assert Precedes(es[i], es[j]);
      }
    }
    HiddenIsHeld(c, es, i);
  }

  lemma NewerIsEarlier(es: seq<Entry>, j: nat, i: nat)
    requires Sorted(es) && i < |es| && j < |es| && es[j].key == es[i].key && es[j].sn > es[i].sn
    ensures j < i
  {
  }

  lemma HiddenIsHeld(c: Compaction, es: seq<Entry>, i: nat)
    requires Sorted(es) && i < |es|
    requires forall e, n :: e in es && n == e.sn ==> Holds(c.inputs, e.key, n)
    requires forall f, k, n: nat :: f in c.inputs && (k, n) in f.table ==>
             exists e :: e in es && e.key == k && e.sn == n
    ensures Loop.Hidden(es, i, c.smallestSnapshot) <==>
              exists m: nat :: es[i].sn < m <= c.smallestSnapshot && Holds(c.inputs, es[i].key, m)
  {
    if j :| 0 <= j < i && es[j].key == es[i].key && es[j].sn <= c.smallestSnapshot {
      assert Precedes(es[j], es[i]) && es[j] in es;
      assert Holds(c.inputs, es[i].key, es[j].sn);
    }
    if m: nat :| es[i].sn < m <= c.smallestSnapshot && Holds(c.inputs, es[i].key, m) {
      var f :| f in c.inputs && (es[i].key, m) in f.table;
      var e :| e in es && e.key == es[i].key && e.sn == m;
      var j :| 0 <= j < |es| && es[j] == e;
      NewerIsEarlier(es, j, i);
    }
  }

  // ----- Lookups -----------------------------------------------------------------------

  lemma EndsAsItsLargest(t: Table, f: FileMeta, p: InternalKey, key: Entry)
    requires IsTableOf(t, f.entries) && Sorted(f.entries) && Loop.ExactBounds(f) && p == (key.key, key.sn)
    ensures EndsBefore(t, p) <==> Precedes(f.largest, key)
  {
    assert f.largest in f.entries;
    assert KeyBefore((f.largest.key, f.largest.sn), p) <==> Precedes(f.largest, key);
    if Precedes(f.largest, key) {
      forall q | q in t
        ensures KeyBefore(q, p)
      {
        var e := HasEntry(t, f.entries, q);
        Inputs.EntryInFile(f, e);
      }
    }
  }

  /** The list is in the order in which a version keeps its files. */
  ghost predicate AsListed(files: seq<FileMeta>, s: seq<File>)
    requires |files| == |s|
  {
    forall i, j :: 0 <= i < j < |s| ==>
      var d, e := files[i].smallest, files[j].smallest;
      Precedes(d, e) || ((d.key, d.sn) == (e.key, e.sn) && s[i].number < s[j].number)
  }

  /** The list SaveTo makes is in that order, as no two files have the same number. */
  lemma SavedAsListed(list: seq<VersionBuilder.Listed>, files: seq<FileMeta>, s: seq<File>)
    requires VersionBuilder.InOrder(list) && |list| == |files| == |s|
    requires forall i :: 0 <= i < |s| ==> list[i] == VersionBuilder.Listed(s[i].number, files[i])
    requires forall i, j :: 0 <= i < j < |s| ==> s[i].number != s[j].number
    ensures AsListed(files, s)
  {
    forall i, j | 0 <= i < j < |s|
      ensures VersionBuilder.Before(list[i], list[j])
    {
      assert !VersionBuilder.Before(list[j], list[i]);
    }
  }

  lemma SmallestIsBound(t: Table, f: FileMeta)
    requires IsTableOf(t, f.entries) && Sorted(f.entries) && Loop.ExactBounds(f)
    ensures Smallest(t) == (f.smallest.key, f.smallest.sn)
  {
    var p := (f.smallest.key, f.smallest.sn);
    assert f.smallest in f.entries;
    forall q | q in t
      ensures q == p || KeyBefore(p, q)
    {
      var e := HasEntry(t, f.entries, q);
      var i :| 0 <= i < |f.entries| && f.entries[i] == e;
      assert i > 0 ==> Precedes(f.entries[0], f.entries[i]);
    }
    assert IsSmallest(t, p);
  }

  lemma SameFirst(run: set<File>, s: seq<File>)
    requires (forall f :: f in run <==> f in s) && s != []
    requires forall i, j :: 0 <= i < j < |s| ==> ListedBefore(s[i], s[j])
    ensures run != {} && Listing(run)[0] == s[0]
  {
    hide ListedBefore, Listing;
    var list := Listing(run);
    assert s[0] in run;
    var j :| 0 <= j < |list| && list[j] == s[0];
    assert list[0] in run && list[0] in s;
    var i :| 0 <= i < |s| && s[i] == list[0];
  }

  lemma RestOf(run: set<File>, s: seq<File>)
    requires (forall f :: f in run <==> f in s) && s != []
    requires forall i, j :: 0 <= i < j < |s| ==> s[i] != s[j] && ListedBefore(s[i], s[j])
    ensures forall f :: f in run - {s[0]} <==> f in s[1..]
    ensures forall i, j :: 0 <= i < j < |s[1..]| ==> s[1..][i] != s[1..][j] && ListedBefore(s[1..][i], s[1..][j])
  {
    hide ListedBefore;
    forall f | f in run - {s[0]}
      ensures f in s[1..]
    {
      var i :| 0 <= i < |s| && s[i] == f;
      assert s[1..][i - 1] == f;
    }
  }

  /** There is one list in that order. */
  lemma {:induction false} ListingIs(run: set<File>, s: seq<File>)
    requires forall f :: f in run <==> f in s
    requires forall i, j :: 0 <= i < j < |s| ==> s[i] != s[j] && ListedBefore(s[i], s[j])
    ensures Listing(run) == s
    decreases |s|
  {
    hide ListedBefore, IsListing;
    if s == [] {
      assert run == {};
    } else {
      SameFirst(run, s);
      RestOf(run, s);
      ListingIs(run - {s[0]}, s[1..]);
      assert Listing(run) == [s[0]] + Listing(run - {s[0]});
    }
  }

  lemma {:induction false} SearchesAgree(files: seq<FileMeta>, s: seq<File>, key: Entry, left: nat, right: nat)
    requires |s| == |files| && left <= right <= |s|
    requires forall i :: 0 <= i < |s| ==>
             (EndsBefore(s[i].table, (key.key, key.sn)) <==> Precedes(files[i].largest, key))
    ensures FindIn(s, (key.key, key.sn), left, right) == Placement.FindFileIn(files, key, left, right)
    decreases right - left
  {
    hide EndsBefore, Precedes;
    if left < right {
      var mid := (left + right) / 2;
      if Precedes(files[mid].largest, key) {
        SearchesAgree(files, s, key, mid + 1, right);
      } else {
        SearchesAgree(files, s, key, left, mid);
      }
    }
  }

  lemma ListedAsSaved(version: set<File>, level: int, files: seq<FileMeta>, s: seq<File>)
    requires IsLevel(version, level, files, s) && Inputs.FilesOk(files) && AsListed(files, s)
    ensures Listing(set f | f in version && f.level == level) == s
  {
    hide IsTableOf, Listing, Smallest;
    forall i, j | 0 <= i < j < |s|
      ensures ListedBefore(s[i], s[j])
    {
      SmallestIsBound(s[i].table, files[i]);
      SmallestIsBound(s[j].table, files[j]);
    }
    ListingIs((set f | f in version && f.level == level), s);
  }

  /** On any level, sorted or not, the engine's lookups read the file FindFile returns for the list of the
      level's files. */
  lemma FileIsFound(version: set<File>, level: int, files: seq<FileMeta>, s: seq<File>, k: UserKey, sn: nat)
    requires IsLevel(version, level, files, s) && Inputs.FilesOk(files) && AsListed(files, s)
    ensures var r := Placement.FindFileIn(files, Entry(k, sn, TypeValue, []), 0, |files|);
            FileFor(set f | f in version && f.level == level, (k, sn)) == if r < |s| then {s[r]} else {}
  {
    hide IsTableOf, Placement.FindFileIn, EndsBefore, FindIn, Listing, Smallest;
    var key := Entry(k, sn, TypeValue, []);
    forall i | 0 <= i < |s|
      ensures EndsBefore(s[i].table, (k, sn)) <==> Precedes(files[i].largest, key)
    {
      EndsAsItsLargest(s[i].table, files[i], (k, sn), key);
    }
    ListedAsSaved(version, level, files, s);
    SearchesAgree(files, s, key, 0, |s|);
  }

  // ----- The level of a flush ----------------------------------------------------------

  lemma OverlapIsMeeting(t: Table, f: FileMeta, u: Table, m: FileMeta)
    requires IsTableOf(t, f.entries) && Sorted(f.entries) && Loop.ExactBounds(f)
    requires IsTableOf(u, m.entries) && Sorted(m.entries) && Loop.ExactBounds(m)
    ensures Inputs.Overlaps(f, Some(m.smallest.key), Some(m.largest.key)) <==> RangesMeet(t, u)
  {
    hide IsTableOf;
    BoundsAreKeys(t, f);
    BoundsAreKeys(u, m);
  }

  lemma SomeOverlapIsMeeting(version: set<File>, level: int, files: seq<FileMeta>, s: seq<File>, u: Table, m: FileMeta)
    requires IsLevel(version, level, files, s) && Inputs.FilesOk(files)
    requires IsTableOf(u, m.entries) && Sorted(m.entries) && Loop.ExactBounds(m)
    ensures Placement.SomeOverlap(files, Some(m.smallest.key), Some(m.largest.key)) <==> MeetsLevel(version, level, u)
  {
    hide IsTableOf, RangesMeet, Inputs.Overlaps;
    forall i | 0 <= i < |s|
      ensures Inputs.Overlaps(files[i], Some(m.smallest.key), Some(m.largest.key)) <==> RangesMeet(s[i].table, u)
    {
      OverlapIsMeeting(s[i].table, files[i], u, m);
    }
    if MeetsLevel(version, level, u) {
      var g :| g in version && g.level == level && RangesMeet(g.table, u);
      var i :| 0 <= i < |s| && s[i] == g;
    }
  }

  /** The lists are the version's levels. */
  ghost predicate AreLevels(version: set<File>, levels: seq<seq<FileMeta>>, lists: seq<seq<File>>)
  {
    && |levels| == |lists| == 7 && (forall f :: f in version ==> f.level >= 0)
    && forall l :: 0 <= l < 7 ==> IsLevel(version, l, levels[l], lists[l]) && Inputs.FilesOk(levels[l])
  }

  /** A level can only be crowded by files that overlap. */
  ghost predicate CrowdedOk(levels: seq<seq<FileMeta>>, m: FileMeta, crowded: seq<bool>)
  {
    |crowded| == |levels| && forall l :: 0 <= l < |levels| && crowded[l] ==>
      Placement.SomeOverlap(levels[l], Some(m.smallest.key), Some(m.largest.key))
  }

  /** The levels a flush may be placed in are those PickLevelForMemTableOutput can return. */
  lemma PlacedAsPicked(version: set<File>, levels: seq<seq<FileMeta>>, lists: seq<seq<File>>, u: Table, m: FileMeta,
      level: nat)
    requires AreLevels(version, levels, lists) && IsTableOf(u, m.entries) && Sorted(m.entries) && Loop.ExactBounds(m)
    ensures PlacementOk(version, level, u) <==>
              exists crowded :: CrowdedOk(levels, m, crowded)
                                && Placement.IsPicked(levels, m.smallest.key, m.largest.key, crowded, level)
  {
    hide IsTableOf, RangesMeet, IsLevel, Inputs.FilesOk, Placement.SomeOverlap, MeetsLevel;
    forall l | 0 <= l < 7
      ensures Placement.SomeOverlap(levels[l], Some(m.smallest.key), Some(m.largest.key)) <==> MeetsLevel(version, l, u)
    {
      SomeOverlapIsMeeting(version, l, levels[l], lists[l], u, m);
    }
    BoundsAreKeys(u, m);
    NoneMeets(version, level, u);
    if PlacementOk(version, level, u) {
      var crowded := seq(7, l => l == level + 2 && MeetsLevel(version, l, u));
      assert CrowdedOk(levels, m, crowded);
      assert Placement.IsPicked(levels, m.smallest.key, m.largest.key, crowded, level);
    }
  }

  lemma NoneMeets(version: set<File>, level: nat, u: Table)
    requires forall f :: f in version ==> f.level >= 0
    ensures (forall g :: g in version && g.level <= level ==> !RangesMeet(g.table, u))
            <==> forall l :: 0 <= l <= level ==> !MeetsLevel(version, l, u)
  {
    hide RangesMeet;
    if forall l :: 0 <= l <= level ==> !MeetsLevel(version, l, u) {
      forall g | g in version && g.level <= level
        ensures !RangesMeet(g.table, u)
      {
        assert !MeetsLevel(version, g.level, u);
      }
    }
  }
}
