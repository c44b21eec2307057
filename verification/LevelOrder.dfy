/** What a sorted level is for, and when the level a compaction writes to stays one: reading it by the one
    file FindFile leads to, and arranging what is left, the outputs and the files flushed meanwhile. */
module LevelOrder {
  import opened InternalKeys
  import opened Compaction
  import opened CompactionInputs
  import opened FlushPlacement
  import opened Options

  // ----- Reading a level ---------------------------------------------------------------

  /** Version::Get on a level below the first. */
  function LevelLookup(files: seq<FileMeta>, k: UserKey, s: nat): Option<Entry>
  {
    var r := FindFileIn(files, Entry(k, s, TypeValue, []), 0, |files|);
    if r == |files| || k < files[r].smallest.key then None else Newest(files[r].entries, k, s)
  }

  lemma {:induction false} FindsFirst(files: seq<FileMeta>, key: Entry, left: nat, right: nat)
    requires LevelSorted(files) && left <= right <= |files|
    requires forall i :: 0 <= i < left ==> Precedes(files[i].largest, key)
    requires right < |files| ==> !Precedes(files[right].largest, key)
    ensures var r := FindFileIn(files, key, left, right);
            (forall i :: 0 <= i < r ==> Precedes(files[i].largest, key))
              && (r < |files| ==> !Precedes(files[r].largest, key))
    decreases right - left
  {
    hide LevelSorted, Precedes;
    if left < right {
      var mid := (left + right) / 2;
      if Precedes(files[mid].largest, key) {
        AllBeforeKey(files, mid, key);
        FindsFirst(files, key, mid + 1, right);
      } else {
        FindsFirst(files, key, left, mid);
      }
    }
  }

  lemma {:induction false} FlattenMembers(files: seq<FileMeta>)
    ensures forall e :: e in Flatten(files) <==> exists m :: 0 <= m < |files| && e in files[m].entries
  {
    if files != [] {
      var n := |files| - 1;
      FlattenMembers(files[..n]);
      forall e
        ensures e in Flatten(files) <==> exists m :: 0 <= m < |files| && e in files[m].entries
      {
        if m :| 0 <= m < |files| && e in files[m].entries {
          assert m < n ==> e in files[..n][m].entries;
        }
      }
    }
  }

  lemma {:induction false} FlattenSorted(files: seq<FileMeta>)
    requires WellFormed(files)
    ensures Sorted(Flatten(files))
  {
    if files != [] {
      var n := |files| - 1;
      var front := files[..n];
      assert WellFormed(front);
      FlattenSorted(front);
      FlattenMembers(front);
      var a, b := Flatten(front), files[n].entries;
      forall i, j | 0 <= i < |a| && 0 <= j < |b|
        ensures Precedes(a[i], b[j])
      {
        assert a[i] in a && b[j] in b;
        var m :| 0 <= m < n && a[i] in front[m].entries;
        FilesInOrder(files, m, n, a[i], b[j]);
      }
      SortedConcat(a, b);
    }
  }

  lemma SortedConcat(a: seq<Entry>, b: seq<Entry>)
    requires Sorted(a) && Sorted(b) && forall i, j :: 0 <= i < |a| && 0 <= j < |b| ==> Precedes(a[i], b[j])
    ensures Sorted(a + b)
  {
  }

  /** The newest visible entry can only be in the file the search leads to. */
  lemma HitIsThere(files: seq<FileMeta>, k: UserKey, s: nat, r: nat, m: nat, e: Entry)
    requires WellFormed(files) && r <= |files| && m < |files| && e in files[m].entries && Matches(e, k, s)
    requires forall i :: 0 <= i < r ==> Precedes(files[i].largest, Entry(k, s, TypeValue, []))
    requires r < |files| ==> !Precedes(files[r].largest, Entry(k, s, TypeValue, []))
    requires r < |files| && Matches(files[r].largest, k, s) ==> files[r].largest.sn <= e.sn
    ensures m == r && files[r].smallest.key <= k
  {
    hide WellFormed;
    FoundFileHolds(files, Entry(k, s, TypeValue, []), r, m, e);
    WellFormedIsOk(files);
    EntryInBounds(files, m, e);
  }

  /** Reading the one file the binary search leads to is reading the whole level, if the level is sorted. */
  lemma LookupIsNewest(files: seq<FileMeta>, k: UserKey, s: nat)
    requires WellFormed(files)
    ensures LevelLookup(files, k, s) == Newest(Flatten(files), k, s)
  {
    hide FindFileIn, LevelSorted, Newest, Flatten, Sorted, Precedes;
    var key, all := Entry(k, s, TypeValue, []), Flatten(files);
    var r := FindFileIn(files, key, 0, |files|);
    FindsFirst(files, key, 0, |files|);
    FlattenSorted(files);
    FlattenMembers(files);
    assert r < |files| ==> files[r].largest in files[r].entries && files[r].largest in all;
    NewestIsLargest(all, k, s);
    if Newest(all, k, s).Some? {
      var e := Newest(all, k, s).value;
      var m :| 0 <= m < |files| && e in files[m].entries;
      HitIsThere(files, k, s, r, m, e);
      assert forall d :: d in files[r].entries ==> d in all;
      NewestUnique(files[r].entries, k, s, e);
    } else if r < |files| {
      assert forall d :: d in files[r].entries ==> d in all;
      NewestNone(files[r].entries, k, s);
    }
  }

  // ----- Arranging a level -------------------------------------------------------------

  predicate InOrder(f: FileMeta, g: FileMeta)
  {
    Precedes(f.largest, g.smallest) || Precedes(g.largest, f.smallest)
  }

  /** The files can be put in the order of a sorted level. */
  ghost predicate CanArrange(files: seq<FileMeta>)
  {
    exists level :: LevelSorted(level) && multiset(level) == multiset(files)
  }

  ghost predicate AllInOrder(files: seq<FileMeta>)
  {
    && (forall i :: 0 <= i < |files| ==> !Precedes(files[i].largest, files[i].smallest))
    && (forall i, j :: 0 <= i < j < |files| ==> InOrder(files[i], files[j]))
  }

  lemma {:induction false} OnceEach(level: seq<FileMeta>)
    requires LevelSorted(level)
    ensures forall x :: multiset(level)[x] <= 1
  {
    if level != [] {
      var n := |level| - 1;
      OnceEach(level[..n]);
      assert level == level[..n] + [level[n]];
      forall m | 0 <= m < n
        ensures level[m] != level[n]
      {
        assert Precedes(level[m].largest, level[n].smallest);
      }
      assert level[n] !in level[..n];
    }
  }

  lemma Twice(files: seq<FileMeta>, i: nat, j: nat)
    requires i < j < |files| && files[i] == files[j]
    ensures multiset(files)[files[i]] >= 2
  {
    assert files == files[..i] + [files[i]] + files[i + 1..j] + [files[j]] + files[j + 1..];
  }

  lemma PlaceOf(level: seq<FileMeta>, files: seq<FileMeta>, i: nat) returns (p: nat)
    requires multiset(level) == multiset(files) && i < |files|
    ensures p < |level| && level[p] == files[i]
  {
    assert files[i] in multiset(files);
    assert files[i] in level;
    p :| 0 <= p < |level| && level[p] == files[i];
  }

  lemma ArrangedIsInOrder(files: seq<FileMeta>, level: seq<FileMeta>)
    requires LevelSorted(level) && multiset(level) == multiset(files)
    ensures AllInOrder(files)
  {
    OnceEach(level);
    forall i | 0 <= i < |files|
      ensures !Precedes(files[i].largest, files[i].smallest)
    {
      var p := PlaceOf(level, files, i);
    }
    forall i, j | 0 <= i < j < |files|
      ensures InOrder(files[i], files[j])
    {
      var p := PlaceOf(level, files, i);
      var q := PlaceOf(level, files, j);
      if p == q {
        Twice(files, i, j);
      }
    }
  }

  /** Where a file that is in order with all of a sorted level belongs. */
  lemma {:induction false} PlaceFor(level: seq<FileMeta>, f: FileMeta) returns (p: nat)
    requires LevelSorted(level) && !Precedes(f.largest, f.smallest) && forall i :: 0 <= i < |level| ==>
             InOrder(level[i], f)
    ensures p <= |level| && LevelSorted(level[..p] + [f] + level[p..])
  {
    p := 0;
    while p < |level| && Precedes(level[p].largest, f.smallest)
      invariant p <= |level| && forall i :: 0 <= i < p ==> Precedes(level[i].largest, f.smallest)
    {
      p := p + 1;
    }
    forall i | p <= i < |level|
      ensures Precedes(f.largest, level[i].smallest)
    {
      assert i > p ==> Precedes(level[p].largest, level[i].smallest);
    }
  }

  lemma {:induction false} InOrderArranges(files: seq<FileMeta>) returns (level: seq<FileMeta>)
    requires AllInOrder(files)
    ensures LevelSorted(level) && multiset(level) == multiset(files)
  {
    hide InOrder, Precedes, LevelSorted;
    if files == [] {
      level := [];
      assert LevelSorted([]) by { NoFiles(); }
    } else {
      var n := |files| - 1;
      var front := InOrderArranges(files[..n]);
      var f := files[n];
      forall i | 0 <= i < |front|
        ensures InOrder(front[i], f)
      {
        var q := PlaceOf(files[..n], front, i);
      }
      var p := PlaceFor(front, f);
      level := front[..p] + [f] + front[p..];
      assert front == front[..p] + front[p..] && files == files[..n] + [f];
    }
  }

  lemma NoFiles()
    ensures LevelSorted([]) && WellFormed([])
  {
  }

  lemma ArrangeIsOrder(files: seq<FileMeta>)
    ensures CanArrange(files) <==> AllInOrder(files)
  {
    hide LevelSorted, AllInOrder;
    if CanArrange(files) {
      var level :| LevelSorted(level) && multiset(level) == multiset(files);
      ArrangedIsInOrder(files, level);
    }
    if AllInOrder(files) {
      var level := InOrderArranges(files);
    }
  }

  // ----- After a compaction ------------------------------------------------------------

  /** The ranges of user keys of two files meet. */
  predicate RangesMeet(f: FileMeta, g: FileMeta)
  {
    f.smallest.key <= g.largest.key && g.smallest.key <= f.largest.key
  }

  /** The files flushed to the next level while the compaction ran: PickLevelForMemTableOutput saw that each
      overlapped no file, nor the ones flushed before it. */
  ghost predicate FlushedMeanwhile(inputs0: seq<FileMeta>, l1: seq<FileMeta>, flushed: seq<FileMeta>)
  {
    && FilesOk(flushed)
    && (forall i, g :: 0 <= i < |flushed| && g in inputs0 ==> !RangesMeet(g, flushed[i]))
    && (forall i, g :: 0 <= i < |flushed| && g in l1 ==> !RangesMeet(g, flushed[i]))
    && (forall i, j :: 0 <= i < j < |flushed| ==> !RangesMeet(flushed[i], flushed[j]))
  }

  /** The kept entries, cut into files. */
  ghost predicate CutFrom(outputs: seq<FileMeta>, es: seq<Entry>, ss: nat, levels: seq<seq<FileRange>>)
  {
    Flatten(outputs) == Kept(es, |es|, ss, levels) && forall o :: 0 <= o < |outputs| ==> ExactBounds(outputs[o])
  }

  lemma BoundsInOrder(f: FileMeta)
    requires Sorted(f.entries) && ExactBounds(f)
    ensures f.smallest in f.entries && f.largest in f.entries && f.smallest.key <= f.largest.key
            && !Precedes(f.largest, f.smallest)
  {
    assert |f.entries| > 1 ==> Precedes(f.entries[0], f.entries[|f.entries| - 1]);
  }

  lemma ApartIsInOrder(f: FileMeta, g: FileMeta)
    requires !RangesMeet(f, g)
    ensures InOrder(f, g) && InOrder(g, f)
  {
  }

  lemma OneMoreFile(front: seq<FileMeta>, f: FileMeta)
    requires WellFormed(front) && Sorted(f.entries) && ExactBounds(f)
    requires forall i :: 0 <= i < |front| ==> Precedes(front[i].largest, f.smallest)
    ensures WellFormed(front + [f])
  {
    BoundsInOrder(f);
  }

  /** Files cut from sorted entries are in order. */
  lemma {:induction false} OutputsInOrder(outputs: seq<FileMeta>, all: seq<Entry>)
    requires Flatten(outputs) == all && Sorted(all) && forall o :: 0 <= o < |outputs| ==> ExactBounds(outputs[o])
    ensures WellFormed(outputs)
    decreases |outputs|
  {
    hide WellFormed, Sorted, Precedes;
    if outputs == [] {
      assert WellFormed([]) by { NoFiles(); }
    } else {
      var n := |outputs| - 1;
      var front, f := outputs[..n], outputs[n];
      var a, b := Flatten(front), f.entries;
      assert all == a + b;
      SortedParts(a, b);
      OutputsInOrder(front, a);
      FlattenMembers(front);
      forall i | 0 <= i < n
        ensures Precedes(front[i].largest, f.smallest)
      {
        assert front[i] == outputs[i] && front[i].largest in front[i].entries;
        assert front[i].largest in a && f.smallest in b;
      }
      OneMoreFile(front, f);
      assert outputs == front + [f];
    }
  }

  lemma SortedParts(a: seq<Entry>, b: seq<Entry>)
    requires Sorted(a + b)
    ensures Sorted(a) && Sorted(b) && forall d, e :: d in a && e in b ==> Precedes(d, e)
  {
    var all := a + b;
    forall i, j | 0 <= i < j < |a|
      ensures Precedes(a[i], a[j])
    {
      assert Precedes(all[i], all[j]);
    }
    forall i, j | 0 <= i < j < |b|
      ensures Precedes(b[i], b[j])
    {
      assert Precedes(all[|a| + i], all[|a| + j]);
    }
    forall d, e | d in a && e in b
      ensures Precedes(d, e)
    {
      var i :| 0 <= i < |a| && a[i] == d;
      var j :| 0 <= j < |b| && b[j] == e;
      assert Precedes(all[i], all[|a| + j]);
    }
  }

  lemma BoundsOf(files: seq<FileMeta>, m: nat)
    requires FilesOk(files) && m < |files|
    ensures files[m].smallest in files[m].entries && files[m].largest in files[m].entries
    ensures files[m].smallest.key <= files[m].largest.key && !Precedes(files[m].largest, files[m].smallest)
  {
    BoundsInOrder(files[m]);
  }

  lemma Before(l1: seq<FileMeta>, m: nat, x: nat)
    requires WellFormed(l1) && m < x < |l1|
    ensures Precedes(l1[m].largest, l1[x].smallest)
  {
  }

  /** An entry of an input lies on the same side of a kept file as the span of the inputs. */
  lemma EntryBeside(inputs0: seq<FileMeta>, l1: seq<FileMeta>, a: nat, b: nat, lo: UserKey, hi: UserKey,
      es: seq<Entry>, m: nat, e: Entry)
    requires FilesOk(inputs0) && WellFormed(l1) && Spans(inputs0, lo, hi) && IsRun(l1, |l1|, a, b, lo, hi)
             && Merges(inputs0, l1, a, b, es)
    requires m < |l1| && !(a <= m < b) && e in es
    ensures l1[m].largest.key < lo ==> Precedes(l1[m].largest, e)
    ensures l1[m].largest.key >= lo ==> Precedes(e, l1[m].smallest)
  {
    hide WellFormed, FilesOk;
    assert !Overlaps(l1[m], Some(lo), Some(hi));
    if i :| 0 <= i < |inputs0| && e in inputs0[i].entries {
      EntryInBounds(inputs0, i, e);
    } else {
      var x :| a <= x < b && e in l1[x].entries;
      assert Overlaps(l1[x], Some(lo), Some(hi));
      WellFormedIsOk(l1);
      EntryInBounds(l1, x, e);
      BoundsOf(l1, m);
      if m < x {
        Before(l1, m, x);
      } else {
        Before(l1, x, m);
      }
    }
  }

  lemma WellFormedIsOk(files: seq<FileMeta>)
    requires WellFormed(files)
    ensures FilesOk(files)
  {
  }

  /** What the next level keeps lies before all inputs or after all of them. */
  lemma KeptBeside(inputs0: seq<FileMeta>, l1: seq<FileMeta>, a: nat, b: nat, es: seq<Entry>, m: nat)
    requires FilesOk(inputs0) && WellFormed(l1) && Takes(inputs0, l1, a, b) && a <= b <= |l1|
             && Merges(inputs0, l1, a, b, es)
    requires m < |l1| && !(a <= m < b)
    ensures (forall e :: e in es ==> Precedes(l1[m].largest, e))
            || (forall e :: e in es ==> Precedes(e, l1[m].smallest))
  {
    hide WellFormed, FilesOk;
    var lo, hi :| Spans(inputs0, lo, hi) && IsRun(l1, |l1|, a, b, lo, hi);
    forall e | e in es
      ensures l1[m].largest.key < lo ==> Precedes(l1[m].largest, e)
      ensures l1[m].largest.key >= lo ==> Precedes(e, l1[m].smallest)
    {
      EntryBeside(inputs0, l1, a, b, lo, hi, es, m, e);
    }
  }

  /** Every entry of an output was in the inputs. */
  lemma OutputFacts(outputs: seq<FileMeta>, es: seq<Entry>, ss: nat, levels: seq<seq<FileRange>>)
    requires Sorted(es) && CutFrom(outputs, es, ss, levels)
    ensures WellFormed(outputs)
    ensures forall o, e :: 0 <= o < |outputs| && e in outputs[o].entries ==> e in es
  {
    KeptSorted(es, |es|, ss, levels);
    KeptMembers(es, |es|, ss, levels);
    OutputsInOrder(outputs, Kept(es, |es|, ss, levels));
    FlattenMembers(outputs);
    forall o, e | 0 <= o < |outputs| && e in outputs[o].entries
      ensures e in es
    {
      assert e in Flatten(outputs);
    }
  }

  /** A flushed file and an output that are in order cannot meet: they share no user key. */
  lemma InOrderIsApart(inputs0: seq<FileMeta>, l1: seq<FileMeta>, a: nat, b: nat, es: seq<Entry>, o: FileMeta,
      f: FileMeta)
    requires FilesOk(inputs0) && WellFormed(l1) && a <= b <= |l1| && Merges(inputs0, l1, a, b, es)
    requires Sorted(o.entries) && ExactBounds(o) && (forall e :: e in o.entries ==> e in es)
    requires Sorted(f.entries) && ExactBounds(f)
    requires (forall g :: g in inputs0 ==> !RangesMeet(g, f)) && (forall g :: g in l1 ==> !RangesMeet(g, f))
    requires InOrder(o, f)
    ensures !RangesMeet(o, f)
  {
    hide WellFormed, FilesOk;
    BoundsInOrder(o);
    BoundsInOrder(f);
    forall e | e in o.entries
      ensures e.key < f.smallest.key || e.key > f.largest.key
    {
      assert e in es;
      if i :| 0 <= i < |inputs0| && e in inputs0[i].entries {
        EntryInBounds(inputs0, i, e);
        assert inputs0[i] in inputs0;
      } else {
        var x :| a <= x < b && e in l1[x].entries;
        WellFormedIsOk(l1);
        EntryInBounds(l1, x, e);
        assert l1[x] in l1;
      }
    }
  }

  /** When a compaction is installed, what the next level keeps, the outputs, and the files flushed to it
      meanwhile can be ordered as a sorted level if and only if no flushed file's range meets an output's. */
  lemma NextLevelArranges(inputs0: seq<FileMeta>, l1: seq<FileMeta>, a: nat, b: nat, es: seq<Entry>, ss: nat,
      levels: seq<seq<FileRange>>, outputs: seq<FileMeta>, flushed: seq<FileMeta>)
    requires FilesOk(inputs0) && WellFormed(l1) && Takes(inputs0, l1, a, b) && a <= b <= |l1|
             && Merges(inputs0, l1, a, b, es)
    requires CutFrom(outputs, es, ss, levels) && FlushedMeanwhile(inputs0, l1, flushed)
    ensures CanArrange(l1[..a] + l1[b..] + outputs + flushed)
            <==> forall o, f :: o in outputs && f in flushed ==> !RangesMeet(o, f)
  {
    hide CanArrange, AllInOrder, Merges, CutFrom, Takes, WellFormed, FilesOk, FlushedMeanwhile, RangesMeet, InOrder;
    var files := l1[..a] + l1[b..] + outputs + flushed;
    ArrangeIsOrder(files);
    SortedEntries(inputs0, l1, a, b, es);
    OutputFacts(outputs, es, ss, levels);
    if AllInOrder(files) {
      forall o, f | o in outputs && f in flushed
        ensures !RangesMeet(o, f)
      {
        var i :| 0 <= i < |outputs| && outputs[i] == o;
        var j :| 0 <= j < |flushed| && flushed[j] == f;
        OrderedOutput(inputs0, l1, a, b, es, outputs, flushed, i, j);
      }
    }
    if forall o, f :: o in outputs && f in flushed ==> !RangesMeet(o, f) {
      PairsInOrder(inputs0, l1, a, b, es, outputs, flushed);
    }
  }

  lemma SortedEntries(inputs0: seq<FileMeta>, l1: seq<FileMeta>, a: nat, b: nat, es: seq<Entry>)
    requires a <= b <= |l1| && Merges(inputs0, l1, a, b, es)
    ensures Sorted(es)
  {
  }

  lemma OrderedOutput(inputs0: seq<FileMeta>, l1: seq<FileMeta>, a: nat, b: nat, es: seq<Entry>,
      outputs: seq<FileMeta>, flushed: seq<FileMeta>, i: nat, j: nat)
    requires FilesOk(inputs0) && WellFormed(l1) && a <= b <= |l1| && Merges(inputs0, l1, a, b, es)
             && FlushedMeanwhile(inputs0, l1, flushed)
    requires WellFormed(outputs) && (forall o, e :: 0 <= o < |outputs| && e in outputs[o].entries ==> e in es)
    requires AllInOrder(l1[..a] + l1[b..] + outputs + flushed) && i < |outputs| && j < |flushed|
    ensures !RangesMeet(outputs[i], flushed[j])
  {
    hide RangesMeet, InOrder, Merges;
    var files := l1[..a] + l1[b..] + outputs + flushed;
    var n := a + |l1| - b;
    assert files[n + i] == outputs[i] && files[n + |outputs| + j] == flushed[j];
    InOrderIsApart(inputs0, l1, a, b, es, outputs[i], flushed[j]);
  }

  /** The four kinds of files, pair by pair. */
  lemma PairsInOrder(inputs0: seq<FileMeta>, l1: seq<FileMeta>, a: nat, b: nat, es: seq<Entry>,
      outputs: seq<FileMeta>, flushed: seq<FileMeta>)
    requires FilesOk(inputs0) && WellFormed(l1) && Takes(inputs0, l1, a, b) && a <= b <= |l1|
             && Merges(inputs0, l1, a, b, es)
    requires FlushedMeanwhile(inputs0, l1, flushed)
    requires WellFormed(outputs) && (forall o, e :: 0 <= o < |outputs| && e in outputs[o].entries ==> e in es)
    requires forall o, f :: o in outputs && f in flushed ==> !RangesMeet(o, f)
    ensures AllInOrder(l1[..a] + l1[b..] + outputs + flushed)
  {
    hide RangesMeet, Merges, Takes, WellFormed, FilesOk;
    var left := l1[..a] + l1[b..];
    LeftInOrder(l1, a, b);
    assert AllInOrder(outputs) by { SortedInOrder(outputs); }
    assert AllInOrder(flushed) by { FlushedInOrder(flushed, inputs0, l1); }
    forall i, j | 0 <= i < |left| && 0 <= j < |outputs|
      ensures InOrder(left[i], outputs[j])
    {
      var m := if i < a then i else i - a + b;
      assert left[i] == l1[m];
      KeptBeside(inputs0, l1, a, b, es, m);
      WellFormedIsOk(outputs);
      BoundsOf(outputs, j);
    }
    JoinInOrder(left, outputs);
    forall i, j | 0 <= i < |left + outputs| && 0 <= j < |flushed|
      ensures InOrder((left + outputs)[i], flushed[j])
    {
      var f := (left + outputs)[i];
      assert flushed[j] in flushed;
      if i < |left| {
        assert f in l1;
      } else {
        assert f == outputs[i - |left|] && f in outputs;
      }
      ApartIsInOrder(f, flushed[j]);
    }
    JoinInOrder(left + outputs, flushed);
  }

  lemma JoinInOrder(a: seq<FileMeta>, b: seq<FileMeta>)
    requires AllInOrder(a) && AllInOrder(b) && forall i, j :: 0 <= i < |a| && 0 <= j < |b| ==> InOrder(a[i], b[j])
    ensures AllInOrder(a + b)
  {
    hide InOrder, Precedes;
  }

  lemma SortedInOrder(files: seq<FileMeta>)
    requires WellFormed(files)
    ensures AllInOrder(files)
  {
  }

  lemma FlushedInOrder(flushed: seq<FileMeta>, inputs0: seq<FileMeta>, l1: seq<FileMeta>)
    requires FlushedMeanwhile(inputs0, l1, flushed)
    ensures AllInOrder(flushed)
  {
    forall i | 0 <= i < |flushed|
      ensures !Precedes(flushed[i].largest, flushed[i].smallest)
    {
      BoundsInOrder(flushed[i]);
    }
  }

  lemma LeftInOrder(l1: seq<FileMeta>, a: nat, b: nat)
    requires WellFormed(l1) && a <= b <= |l1|
    ensures AllInOrder(l1[..a] + l1[b..])
  {
  }

  /** A check before the flush: a memtable whose range keeps clear of the range from the smallest to the
      largest input key meets no output, however the outputs are cut. */
  lemma ClearOfSpan(inputs0: seq<FileMeta>, l1: seq<FileMeta>, a: nat, b: nat, es: seq<Entry>, ss: nat,
      levels: seq<seq<FileRange>>, outputs: seq<FileMeta>, smallest: UserKey, largest: UserKey, f: FileMeta)
    requires FilesOk(inputs0) && WellFormed(l1) && a <= b <= |l1| && Merges(inputs0, l1, a, b, es)
             && CutFrom(outputs, es, ss, levels)
    requires forall g :: g in inputs0 || g in l1[a..b] ==> smallest <= g.smallest.key && g.largest.key <= largest
    requires f.largest.key < smallest || largest < f.smallest.key
    ensures forall o :: o in outputs ==> !RangesMeet(o, f)
  {
    hide Merges, CutFrom, WellFormed, FilesOk;
    SortedEntries(inputs0, l1, a, b, es);
    OutputFacts(outputs, es, ss, levels);
    forall o | o in outputs
      ensures !RangesMeet(o, f)
    {
      var i :| 0 <= i < |outputs| && outputs[i] == o;
      WellFormedIsOk(outputs);
      BoundsOf(outputs, i);
      WithinSpan(inputs0, l1, a, b, es, smallest, largest, o.smallest);
      WithinSpan(inputs0, l1, a, b, es, smallest, largest, o.largest);
    }
  }

  lemma WithinSpan(inputs0: seq<FileMeta>, l1: seq<FileMeta>, a: nat, b: nat, es: seq<Entry>, smallest: UserKey,
      largest: UserKey, e: Entry)
    requires FilesOk(inputs0) && WellFormed(l1) && a <= b <= |l1| && Merges(inputs0, l1, a, b, es) && e in es
    requires forall g :: g in inputs0 || g in l1[a..b] ==> smallest <= g.smallest.key && g.largest.key <= largest
    ensures smallest <= e.key <= largest
  {
    hide WellFormed, FilesOk;
    if i :| 0 <= i < |inputs0| && e in inputs0[i].entries {
      EntryInBounds(inputs0, i, e);
      assert inputs0[i] in inputs0;
    } else {
      var x :| a <= x < b && e in l1[x].entries;
      WellFormedIsOk(l1);
      EntryInBounds(l1, x, e);
      assert l1[a..b][x - a] == l1[x];
    }
  }
}
