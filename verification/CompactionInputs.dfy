/** Choosing the inputs of a compaction (db/version_set.cc: GetOverlappingInputs, AddBoundaryInputs,
    SetupOtherInputs), and what the choice means for reads. */
module CompactionInputs {
  import opened InternalKeys
  import opened Options
  import opened Compaction

  type FileMeta = OutputFile

  // ----- Overlapping files -------------------------------------------------------------

  predicate Overlaps(f: FileMeta, begin: Option<UserKey>, end: Option<UserKey>)
  {
    && !(begin.Some? && f.largest.key < begin.value)
    && !(end.Some? && f.smallest.key > end.value)
  }

  function Overlapping(files: seq<FileMeta>, begin: Option<UserKey>, end: Option<UserKey>): (r: seq<FileMeta>)
  {
    if files == [] then []
    else
      var n := |files| - 1;
      Overlapping(files[..n], begin, end) + (if Overlaps(files[n], begin, end) then [files[n]] else [])
  }

  lemma {:induction false} OverlappingMembers(files: seq<FileMeta>, begin: Option<UserKey>, end: Option<UserKey>)
    ensures forall f :: f in Overlapping(files, begin, end) <==> f in files && Overlaps(f, begin, end)
  {
    if files != [] {
      var n := |files| - 1;
      OverlappingMembers(files[..n], begin, end);
      assert files == files[..n] + [files[n]];
    }
  }

  /** The range (begin, end) lies within (lo, hi); None stands for no bound. */
  predicate Covers(lo: Option<UserKey>, hi: Option<UserKey>, begin: Option<UserKey>, end: Option<UserKey>)
  {
    && (lo.Some? <==> begin.Some?) && (hi.Some? <==> end.Some?)
    && (lo.Some? ==> lo.value <= begin.value) && (hi.Some? ==> end.value <= hi.value)
  }

  predicate Inside(f: FileMeta, lo: Option<UserKey>, hi: Option<UserKey>)
  {
    (lo.Some? ==> lo.value <= f.smallest.key) && (hi.Some? ==> f.largest.key <= hi.value)
  }

  /** No file sticks out of the range: those outside do not overlap it at all. */
  ghost predicate Closed(files: seq<FileMeta>, lo: Option<UserKey>, hi: Option<UserKey>)
  {
    forall i :: 0 <= i < |files| && Overlaps(files[i], lo, hi) ==> Inside(files[i], lo, hi)
  }

  /** Files that could still widen the range. */
  function StickingOut(files: seq<FileMeta>, lo: Option<UserKey>, hi: Option<UserKey>): nat
  {
    if files == [] then 0
    else
      var f := files[|files| - 1];
      StickingOut(files[..|files| - 1], lo, hi)
      + (if lo.Some? && f.smallest.key < lo.value then 1 else 0)
      + (if hi.Some? && f.largest.key > hi.value then 1 else 0)
  }

  lemma {:induction false} FewerStickOut(files: seq<FileMeta>, lo: Option<UserKey>, hi: Option<UserKey>,
                                         lo': Option<UserKey>, hi': Option<UserKey>)
    requires Covers(lo', hi', lo, hi)
    ensures StickingOut(files, lo', hi') <= StickingOut(files, lo, hi)
    ensures (exists f :: f in files && ((lo.Some? && f.smallest.key < lo.value && f.smallest.key == lo'.value)
                                        || (hi.Some? && f.largest.key > hi.value && f.largest.key == hi'.value)))
            ==> StickingOut(files, lo', hi') < StickingOut(files, lo, hi)
  {
    if files != [] {
      FewerStickOut(files[..|files| - 1], lo, hi, lo', hi');
      assert files == files[..|files| - 1] + [files[|files| - 1]];
    }
  }

  /** Every closed range that covers (begin, end) covers (lo, hi). */
  ghost predicate Needed(files: seq<FileMeta>, begin: Option<UserKey>, end: Option<UserKey>, lo: Option<UserKey>,
      hi: Option<UserKey>)
  {
    forall lo', hi' :: Covers(lo', hi', begin, end) && Closed(files, lo', hi') ==> Covers(lo', hi', lo, hi)
  }

  lemma NeededAtFirst(files: seq<FileMeta>, begin: Option<UserKey>, end: Option<UserKey>)
    ensures Needed(files, begin, end, begin, end) && Closed([], begin, end)
  {
  }

  /** Growing the range to take in the file `i`, which overlaps it and sticks out. */
  lemma Grows(files: seq<FileMeta>, begin: Option<UserKey>, end: Option<UserKey>, lo: Option<UserKey>,
      hi: Option<UserKey>, i: nat, lo': Option<UserKey>, hi': Option<UserKey>)
    requires Needed(files, begin, end, lo, hi) && i < |files| && Overlaps(files[i], lo, hi) && Covers(lo', hi', lo, hi)
    requires lo' == lo || lo' == Some(files[i].smallest.key)
    requires hi' == hi || hi' == Some(files[i].largest.key)
    ensures Needed(files, begin, end, lo', hi') && Closed([], lo', hi')
  {
  }

  lemma OneMoreClosed(files: seq<FileMeta>, i: nat, lo: Option<UserKey>, hi: Option<UserKey>)
    requires i < |files| && Closed(files[..i], lo, hi) && (Overlaps(files[i], lo, hi) ==> Inside(files[i], lo, hi))
    ensures Closed(files[..i + 1], lo, hi)
  {
    assert files[..i + 1] == files[..i] + [files[i]];
  }

  /** At level 0 the range grows until no file sticks out of it, and it grows no further than needed. */
  method GetOverlappingInputs(files: seq<FileMeta>, level: nat, begin: Option<UserKey>, end: Option<UserKey>)
    returns (inputs: seq<FileMeta>, userBegin: Option<UserKey>, userEnd: Option<UserKey>)
    requires forall i :: 0 <= i < |files| ==> files[i].smallest.key <= files[i].largest.key
    ensures inputs == Overlapping(files, userBegin, userEnd)
    ensures level > 0 ==> userBegin == begin && userEnd == end
    ensures level == 0 ==> Covers(userBegin, userEnd, begin, end) && Closed(files, userBegin, userEnd)
    ensures level == 0 ==> Needed(files, begin, end, userBegin, userEnd)
  {
    hide Closed, Needed, StickingOut;
    inputs, userBegin, userEnd := [], begin, end;
    var i := 0;
    NeededAtFirst(files, begin, end);
    while i < |files|
      invariant 0 <= i <= |files| && inputs == Overlapping(files[..i], userBegin, userEnd)
      invariant if level == 0 then Covers(userBegin, userEnd, begin, end) else userBegin == begin && userEnd == end
      invariant level == 0 ==> Closed(files[..i], userBegin, userEnd) && Needed(files, begin, end, userBegin, userEnd)
      decreases StickingOut(files, userBegin, userEnd), |files| - i
    {
      var f := files[i];
      assert files[..i + 1][..i] == files[..i];
      i := i + 1;
      if Overlaps(f, userBegin, userEnd) {
        inputs := inputs + [f];
        if level == 0 {
          if userBegin.Some? && f.smallest.key < userBegin.value {
            FewerStickOut(files, userBegin, userEnd, Some(f.smallest.key), userEnd);
            Grows(files, begin, end, userBegin, userEnd, i - 1, Some(f.smallest.key), userEnd);
            userBegin := Some(f.smallest.key);
            inputs := [];
            i := 0;
            continue;
          } else if userEnd.Some? && f.largest.key > userEnd.value {
            FewerStickOut(files, userBegin, userEnd, userBegin, Some(f.largest.key));
            Grows(files, begin, end, userBegin, userEnd, i - 1, userBegin, Some(f.largest.key));
            userEnd := Some(f.largest.key);
            inputs := [];
            i := 0;
            continue;
          }
        }
      }
      if level == 0 {
        OneMoreClosed(files, i - 1, userBegin, userEnd);
      }
    }
    assert files[..i] == files;
  }

  // ----- Boundary files ----------------------------------------------------------------

  /** A level below the first: files in order, none sharing an internal key with another. */
  ghost predicate LevelSorted(files: seq<FileMeta>)
  {
    && (forall i :: 0 <= i < |files| ==> !Precedes(files[i].largest, files[i].smallest))
    && (forall i, j :: 0 <= i < j < |files| ==> Precedes(files[i].largest, files[j].smallest))
  }

  /** `f` starts after `largest` but with the same user key. */
  predicate IsBoundary(f: FileMeta, largest: Entry)
  {
    Precedes(largest, f.smallest) && f.smallest.key == largest.key
  }

  method FindSmallestBoundaryFile(files: seq<FileMeta>, largest: Entry) returns (r: Option<FileMeta>)
    ensures r == None ==> forall i :: 0 <= i < |files| ==> !IsBoundary(files[i], largest)
    ensures r.Some? ==> r.value in files && IsBoundary(r.value, largest)
                        && forall i :: 0 <= i < |files| && IsBoundary(files[i], largest) ==>
                          !Precedes(files[i].smallest, r.value.smallest)
  {
    r := None;
    for i := 0 to |files|
      invariant r == None ==> forall j :: 0 <= j < i ==> !IsBoundary(files[j], largest)
      invariant r.Some? ==> r.value in files && IsBoundary(r.value, largest)
                            && forall j :: 0 <= j < i && IsBoundary(files[j], largest) ==>
                              !Precedes(files[j].smallest, r.value.smallest)
    {
      var f := files[i];
      if IsBoundary(f, largest) {
        if r == None || Precedes(f.smallest, r.value.smallest) {
          r := Some(f);
        }
      }
    }
  }

  method FindLargestKey(files: seq<FileMeta>) returns (largest: Entry)
    requires files != []
    ensures exists i :: 0 <= i < |files| && largest == files[i].largest
    ensures forall i :: 0 <= i < |files| ==> !Precedes(largest, files[i].largest)
  {
    largest := files[0].largest;
    for i := 1 to |files|
      invariant exists j :: 0 <= j < i && largest == files[j].largest
      invariant forall j :: 0 <= j < i ==> !Precedes(largest, files[j].largest)
    {
      if Precedes(largest, files[i].largest) {
        largest := files[i].largest;
      }
    }
  }

  /** Files `j` to `n` each continue the user key the file before them ends with. */
  ghost predicate Continues(files: seq<FileMeta>, j: nat, n: nat)
    requires 0 < j <= n <= |files|
  {
    forall m :: j <= m < n ==> files[m].smallest.key == files[m - 1].largest.key
  }

  /** A file that continues the user key the run before it ends with. */
  ghost predicate ContinuesAt(files: seq<FileMeta>, n: nat)
    requires n > 0
  {
    n < |files| && files[n].smallest.key == files[n - 1].largest.key
  }

  function FilesAfter(files: seq<FileMeta>, largest: Entry): nat
  {
    if files == [] then 0
    else FilesAfter(files[..|files| - 1], largest) + (if Precedes(largest, files[|files| - 1].smallest) then 1 else 0)
  }

  lemma {:induction false} FewerAfter(files: seq<FileMeta>, a: Entry, b: Entry)
    requires Precedes(a, b)
    ensures FilesAfter(files, b) <= FilesAfter(files, a)
    ensures (exists f :: f in files && Precedes(a, f.smallest) && !Precedes(b, f.smallest)) ==>
            FilesAfter(files, b) < FilesAfter(files, a)
  {
    if files != [] {
      FewerAfter(files[..|files| - 1], a, b);
      assert files == files[..|files| - 1] + [files[|files| - 1]];
    }
  }

  /** In a sorted level the next boundary file of a run is the file right after it. */
  lemma NextBoundary(files: seq<FileMeta>, n: nat, r: Option<FileMeta>)
    requires LevelSorted(files) && 0 < n <= |files|
    requires r == None ==> forall i :: 0 <= i < |files| ==> !IsBoundary(files[i], files[n - 1].largest)
    requires r.Some? ==> r.value in files && IsBoundary(r.value, files[n - 1].largest)
                         && forall i :: 0 <= i < |files| && IsBoundary(files[i], files[n - 1].largest) ==>
                           !Precedes(files[i].smallest, r.value.smallest)
    ensures r.Some? <==> ContinuesAt(files, n)
    ensures r.Some? ==> r.value == files[n]
  {
    assert n < |files| ==> Precedes(files[n - 1].largest, files[n].smallest);
    assert forall m :: 0 <= m < n - 1 ==> Precedes(files[m].largest, files[n - 1].smallest);
    assert forall m :: n < m < |files| ==> Precedes(files[n].largest, files[m].smallest);
    if r.Some? {
      var i :| 0 <= i < |files| && files[i] == r.value;
    }
  }

  lemma RunGrows(files: seq<FileMeta>, i: nat, j: nat, n: nat)
    requires i < j <= n <= |files| && Continues(files, j, n) && ContinuesAt(files, n)
    ensures n < |files| && Continues(files, j, n + 1) && files[i..n] + [files[n]] == files[i..n + 1]
  {
  }

  /** `lo` and `hi` are the least and the greatest user key of the files. */
  ghost predicate Spans(files: seq<FileMeta>, lo: UserKey, hi: UserKey)
  {
    && (forall m :: 0 <= m < |files| ==> lo <= files[m].smallest.key && files[m].largest.key <= hi)
    && (exists m :: 0 <= m < |files| && files[m].smallest.key == lo)
    && (exists m :: 0 <= m < |files| && files[m].largest.key == hi)
  }

  /** At level 0, where files may overlap: all files that overlap the user keys of the inputs. */
  ghost predicate ChosenClosed(files: seq<FileMeta>, inputs: seq<FileMeta>)
  {
    exists lo, hi :: Spans(inputs, lo, hi) && inputs == Overlapping(files, Some(lo), Some(hi))
  }

  lemma NoBoundaryOutside(files: seq<FileMeta>, inputs: seq<FileMeta>, largest: Entry)
    requires ChosenClosed(files, inputs)
    requires forall f :: 0 <= f < |files| ==> !Precedes(files[f].largest, files[f].smallest)
    requires exists m :: 0 <= m < |inputs| && largest == inputs[m].largest
    requires forall m :: 0 <= m < |inputs| ==> !Precedes(largest, inputs[m].largest)
    ensures forall f :: f in files ==> !IsBoundary(f, largest)
  {
    var lo, hi :| Spans(inputs, lo, hi) && inputs == Overlapping(files, Some(lo), Some(hi));
    OverlappingMembers(files, Some(lo), Some(hi));
    var m :| 0 <= m < |inputs| && largest == inputs[m].largest;
    assert inputs[m] in inputs && lo <= largest.key <= hi;
    forall f | f in files
      ensures !IsBoundary(f, largest)
    {
      var q :| 0 <= q < |files| && files[q] == f;
      if Overlaps(f, Some(lo), Some(hi)) {
        var p :| 0 <= p < |inputs| && inputs[p] == f;
      }
    }
  }

  /** `inputs0` is some of a level's files. In a sorted level, where it is the run of files `i` to `j`, the
      run is extended up to the first file that starts with a new user key. At level 0, where it is all
      files that overlap it, nothing is added. */
  method AddBoundaryInputs(files: seq<FileMeta>, inputs0: seq<FileMeta>, ghost i: nat, ghost j: nat)
    returns (inputs: seq<FileMeta>, ghost n: nat)
    requires forall f :: 0 <= f < |files| ==> !Precedes(files[f].largest, files[f].smallest)
    ensures inputs0 <= inputs && (inputs0 == [] ==> inputs == [])
    ensures LevelSorted(files) && i < j <= |files| && inputs0 == files[i..j] ==>
              j <= n <= |files| && inputs == files[i..n] && Continues(files, j, n) && !ContinuesAt(files, n)
    ensures ChosenClosed(files, inputs0) ==> inputs == inputs0
  {
    hide LevelSorted, Continues, ContinuesAt, FilesAfter, ChosenClosed;
    inputs, n := inputs0, j;
    if inputs0 == [] {
      return;
    }
    ghost var isRun := LevelSorted(files) && i < j <= |files| && inputs0 == files[i..j];
    var largest := FindLargestKey(inputs0);
    ghost var largest0 := largest;
    if isRun {
      LargestOfRun(files, i, j, largest);
      assert Continues(files, j, j) by { NothingContinues(files, j); }
    }
    var continueSearching := true;
    while continueSearching
      invariant inputs0 <= inputs
      invariant isRun ==>
                j <= n <= |files| && inputs == files[i..n] && Continues(files, j, n) && largest == files[n - 1].largest
      invariant isRun && !continueSearching ==> !ContinuesAt(files, n)
      invariant ChosenClosed(files, inputs0) ==> inputs == inputs0 && largest == largest0
      decreases continueSearching, FilesAfter(files, largest)
    {
      if ChosenClosed(files, inputs0) {
        NoBoundaryOutside(files, inputs0, largest);
      }
      var boundary := FindSmallestBoundaryFile(files, largest);
      if isRun {
        NextBoundary(files, n, boundary);
      }
      if boundary.Some? {
        FewerAfter(files, largest, boundary.value.largest);
        if isRun {
          RunGrows(files, i, j, n);
        }
        inputs := inputs + [boundary.value];
        largest := boundary.value.largest;
        n := n + 1;
      } else {
        continueSearching := false;
      }
    }
  }

  lemma NothingContinues(files: seq<FileMeta>, j: nat)
    requires 0 < j <= |files|
    ensures Continues(files, j, j)
  {
  }

  lemma BoundsIncrease(files: seq<FileMeta>, p: nat, q: nat)
    requires LevelSorted(files) && p <= q < |files|
    ensures p < q ==> Precedes(files[p].smallest, files[q].smallest) && Precedes(files[p].largest, files[q].largest)
  {
    assert p < q ==> Precedes(files[p].largest, files[q].smallest);
  }

  lemma LargestOfRun(files: seq<FileMeta>, i: nat, j: nat, largest: Entry)
    requires LevelSorted(files) && i < j <= |files|
    requires exists m :: 0 <= m < |files[i..j]| && largest == files[i..j][m].largest
    requires forall m :: 0 <= m < |files[i..j]| ==> !Precedes(largest, files[i..j][m].largest)
    ensures largest == files[j - 1].largest
  {
    var m :| 0 <= m < j - i && largest == files[i..j][m].largest;
    assert files[i..j][j - i - 1] == files[j - 1];
    BoundsIncrease(files, i + m, j - 1);
  }

  // ----- Both levels -------------------------------------------------------------------

  method GetRange(inputs: seq<FileMeta>) returns (smallest: Entry, largest: Entry)
    requires inputs != []
    ensures exists i :: 0 <= i < |inputs| && smallest == inputs[i].smallest
    ensures exists i :: 0 <= i < |inputs| && largest == inputs[i].largest
    ensures forall i :: 0 <= i < |inputs| ==>
            !Precedes(inputs[i].smallest, smallest) && !Precedes(largest, inputs[i].largest)
  {
    smallest, largest := inputs[0].smallest, inputs[0].largest;
    for i := 1 to |inputs|
      invariant exists j :: 0 <= j < i && smallest == inputs[j].smallest
      invariant exists j :: 0 <= j < i && largest == inputs[j].largest
      invariant forall j :: 0 <= j < i ==>
                !Precedes(inputs[j].smallest, smallest) && !Precedes(largest, inputs[j].largest)
    {
      if Precedes(inputs[i].smallest, smallest) {
        smallest := inputs[i].smallest;
      }
      if Precedes(largest, inputs[i].largest) {
        largest := inputs[i].largest;
      }
    }
  }

  /** Files `a` to `b` are the ones among the first `n` that overlap. */
  ghost predicate IsRun(files: seq<FileMeta>, n: nat, a: nat, b: nat, lo: UserKey, hi: UserKey)
    requires n <= |files|
  {
    a <= b <= n && forall m :: 0 <= m < n ==> (a <= m < b <==> Overlaps(files[m], Some(lo), Some(hi)))
  }

  lemma ExtendRun(files: seq<FileMeta>, n: nat, a: nat, b: nat, lo: UserKey, hi: UserKey) returns (a': nat, b': nat)
    requires LevelSorted(files) && n < |files| && IsRun(files, n, a, b, lo, hi)
    ensures IsRun(files, n + 1, a', b', lo, hi)
    ensures files[a'..b'] == files[a..b] + (if Overlaps(files[n], Some(lo), Some(hi)) then [files[n]] else [])
  {
    if !Overlaps(files[n], Some(lo), Some(hi)) {
      a', b' := a, b;
    } else if a == b {
      a', b' := n, n + 1;
    } else {
      assert b < n ==> !Overlaps(files[b], Some(lo), Some(hi));
      AllBetween(files, a, b, n, lo, hi);
      a', b' := a, n + 1;
    }
  }

  /** In a sorted level the files overlapping a range of user keys form a run. */
  lemma {:induction false} OverlapIsRun(files: seq<FileMeta>, n: nat, lo: UserKey, hi: UserKey) returns (a: nat, b: nat)
    requires LevelSorted(files) && n <= |files|
    ensures IsRun(files, n, a, b, lo, hi) && Overlapping(files[..n], Some(lo), Some(hi)) == files[a..b]
  {
    hide LevelSorted, Overlaps;
    a, b := 0, 0;
    if n > 0 {
      var c, d := OverlapIsRun(files, n - 1, lo, hi);
      a, b := ExtendRun(files, n - 1, c, d, lo, hi);
      assert files[..n][..n - 1] == files[..n - 1];
    }
  }

  lemma AllBetween(files: seq<FileMeta>, a: nat, b: nat, n: nat, lo: UserKey, hi: UserKey)
    requires LevelSorted(files) && n < |files| && Overlaps(files[n], Some(lo), Some(hi))
    requires a == n || (a < b <= n && Overlaps(files[a], Some(lo), Some(hi)))
    ensures forall m :: a <= m < n ==> Overlaps(files[m], Some(lo), Some(hi))
  {
    forall m | a <= m < n
      ensures Overlaps(files[m], Some(lo), Some(hi))
    {
      assert Precedes(files[m].largest, files[n].smallest);
      assert a < m ==> Precedes(files[a].largest, files[m].smallest);
    }
  }

  /** A level as the version keeps it: sorted below level 0. */
  ghost predicate LevelOk(files: seq<FileMeta>, level: nat)
  {
    (forall i :: 0 <= i < |files| ==> !Precedes(files[i].largest, files[i].smallest))
      && (level > 0 ==> LevelSorted(files))
  }

  /** Files `i` to `n` of a sorted level, ending with a user key. */
  ghost predicate IsWholeRun(files: seq<FileMeta>, i: nat, n: nat, inputs: seq<FileMeta>)
  {
    i < n <= |files| && !ContinuesAt(files, n) && inputs == files[i..n]
  }

  ghost predicate ChosenAbove(files: seq<FileMeta>, level: nat, inputs: seq<FileMeta>)
  {
    if level > 0 then exists i: nat, n: nat :: IsWholeRun(files, i, n, inputs)
    else inputs != [] && ChosenClosed(files, inputs)
  }

  /** Files `a` to `b` of the next level are the ones that overlap the user keys of the inputs. */
  ghost predicate Takes(inputs0: seq<FileMeta>, l1: seq<FileMeta>, a: nat, b: nat)
  {
    inputs0 != [] && exists lo, hi :: Spans(inputs0, lo, hi) && IsRun(l1, |l1|, a, b, lo, hi)
  }

  /** The inputs of a compaction of `level`: `inputs0`, and files `a` to `b` of the next level. */
  ghost predicate Chosen(l0: seq<FileMeta>, l1: seq<FileMeta>, level: nat, inputs0: seq<FileMeta>, a: nat, b: nat)
  {
    ChosenAbove(l0, level, inputs0) && Takes(inputs0, l1, a, b)
  }

  ghost predicate ChosenFiles(l0: seq<FileMeta>, l1: seq<FileMeta>, level: nat, inputs0: seq<FileMeta>,
      inputs1: seq<FileMeta>)
  {
    exists a: nat, b: nat :: Chosen(l0, l1, level, inputs0, a, b) && a <= b <= |l1| && inputs1 == l1[a..b]
  }

  /** What PickCompaction and CompactRange start from: any run of a sorted level; at level 0 what
      GetOverlappingInputs returned. */
  ghost predicate IsStart(files: seq<FileMeta>, level: nat, start: seq<FileMeta>)
  {
    if level > 0 then exists i: nat, j: nat :: i < j <= |files| && start == files[i..j]
    else exists lo, hi :: IsClosedStart(files, lo, hi, start)
  }

  ghost predicate IsClosedStart(files: seq<FileMeta>, lo: Option<UserKey>, hi: Option<UserKey>, start: seq<FileMeta>)
  {
    start == Overlapping(files, lo, hi) && Closed(files, lo, hi)
  }

  lemma {:induction false} SpanOf(files: seq<FileMeta>) returns (lo: UserKey, hi: UserKey)
    requires files != []
    ensures Spans(files, lo, hi)
  {
    var f := files[|files| - 1];
    if |files| == 1 {
      lo, hi := f.smallest.key, f.largest.key;
    } else {
      var front := files[..|files| - 1];
      var l, h := SpanOf(front);
      lo, hi := if f.smallest.key < l then f.smallest.key else l, if f.largest.key > h then f.largest.key else h;
      var m :| 0 <= m < |front| && front[m].smallest.key == l;
      var n :| 0 <= n < |front| && front[n].largest.key == h;
      assert files[m] == front[m] && files[n] == front[n] && files[|files| - 1] == f;
      forall q | 0 <= q < |files|
        ensures lo <= files[q].smallest.key && files[q].largest.key <= hi
      {
        assert q < |front| ==> files[q] == front[q];
      }
    }
  }

  /** What overlaps a closed range overlaps the files in it, and the other way round. */
  lemma ClosedIsChosen(files: seq<FileMeta>, lo: Option<UserKey>, hi: Option<UserKey>, start: seq<FileMeta>)
    requires LevelOk(files, 0) && IsClosedStart(files, lo, hi, start) && start != []
    ensures ChosenAbove(files, 0, start)
  {
    OverlappingMembers(files, lo, hi);
    var l, h := SpanOf(start);
    var m :| 0 <= m < |start| && start[m].smallest.key == l;
    var n :| 0 <= n < |start| && start[n].largest.key == h;
    forall f | f in files
      ensures Overlaps(f, lo, hi) <==> Overlaps(f, Some(l), Some(h))
    {
      SameOverlap(files, lo, hi, start, l, h, m, n, f);
    }
    SameOverlapping(files, lo, hi, Some(l), Some(h));
  }

  lemma SameOverlap(files: seq<FileMeta>, lo: Option<UserKey>, hi: Option<UserKey>, start: seq<FileMeta>,
                    l: UserKey, h: UserKey, m: nat, n: nat, f: FileMeta)
    requires LevelOk(files, 0) && Closed(files, lo, hi) && f in files
    requires forall g :: g in start <==> g in files && Overlaps(g, lo, hi)
    requires Spans(start, l, h) && m < |start| && start[m].smallest.key == l && n < |start| && start[n].largest.key == h
    ensures Overlaps(f, lo, hi) <==> Overlaps(f, Some(l), Some(h))
  {
    forall g | g in files
      ensures g.smallest.key <= g.largest.key && (Overlaps(g, lo, hi) ==> Inside(g, lo, hi))
    {
      var q :| 0 <= q < |files| && files[q] == g;
    }
    assert start[m] in start && start[n] in start;
    if Overlaps(f, lo, hi) {
      var p :| 0 <= p < |start| && start[p] == f;
    }
  }

  lemma {:induction false} SameOverlapping(files: seq<FileMeta>, lo: Option<UserKey>, hi: Option<UserKey>,
      lo': Option<UserKey>, hi': Option<UserKey>)
    requires forall f :: f in files ==> (Overlaps(f, lo, hi) <==> Overlaps(f, lo', hi'))
    ensures Overlapping(files, lo, hi) == Overlapping(files, lo', hi')
  {
    if files != [] {
      assert files == files[..|files| - 1] + [files[|files| - 1]];
      SameOverlapping(files[..|files| - 1], lo, hi, lo', hi');
    }
  }

  /** `inputs` is the start and the files right after it that go on with the user key it ends with. */
  ghost predicate Completed(files: seq<FileMeta>, level: nat, start: seq<FileMeta>, inputs: seq<FileMeta>)
  {
    if level == 0 then inputs == start
    else exists i: nat, j: nat, n: nat :: IsCompleted(files, i, j, n, start, inputs)
  }

  ghost predicate IsCompleted(files: seq<FileMeta>, i: nat, j: nat, n: nat, start: seq<FileMeta>,
      inputs: seq<FileMeta>)
  {
    i < j <= n <= |files| && start == files[i..j] && inputs == files[i..n] && Continues(files, j, n)
    && !ContinuesAt(files, n)
  }

  /** The first step: boundary files are added to what the compaction starts from. */
  method CompleteChoice(files: seq<FileMeta>, level: nat, start: seq<FileMeta>) returns (inputs: seq<FileMeta>)
    requires LevelOk(files, level) && (start != [] ==> IsStart(files, level, start))
    ensures start == [] ==> inputs == []
    ensures start <= inputs
    ensures start != [] ==> inputs != [] && ChosenAbove(files, level, inputs) && Completed(files, level, start, inputs)
  {
    hide LevelSorted, ContinuesAt, Continues, ChosenClosed;
    ghost var i: nat, j: nat := 0, 0;
    if start != [] && level > 0 {
      i, j :| i < j <= |files| && start == files[i..j];
    }
    if start != [] && level == 0 {
      ghost var lo, hi :| IsClosedStart(files, lo, hi, start);
      ClosedIsChosen(files, lo, hi, start);
    }
    ghost var n;
    inputs, n := AddBoundaryInputs(files, start, i, j);
    assert start != [] && level > 0 ==> IsWholeRun(files, i, n, inputs);
    assert start != [] && level > 0 ==> IsCompleted(files, i, j, n, start, inputs);
  }

  lemma OverlapStarts(files: seq<FileMeta>, level: nat, lo: UserKey, hi: UserKey, userLo: Option<UserKey>,
      userHi: Option<UserKey>)
    requires LevelOk(files, level) && Overlapping(files, userLo, userHi) != []
    requires level > 0 ==> userLo == Some(lo) && userHi == Some(hi)
    requires level == 0 ==> Closed(files, userLo, userHi)
    ensures IsStart(files, level, Overlapping(files, userLo, userHi))
  {
    if level > 0 {
      var a, b := OverlapIsRun(files, |files|, lo, hi);
      assert files[..|files|] == files;
      assert a < b;
    } else {
      assert IsClosedStart(files, userLo, userHi, Overlapping(files, userLo, userHi));
    }
  }

  /** With the completed start alone the compaction would take as many files of the next level. */
  ghost predicate AsMany(l0: seq<FileMeta>, l1: seq<FileMeta>, level: nat, start: seq<FileMeta>, n: nat)
  {
    exists inputs: seq<FileMeta>, a: nat, b: nat ::
      Completed(l0, level, start, inputs) && Takes(inputs, l1, a, b) && b - a == n
  }

  lemma ChosenAreFiles(files: seq<FileMeta>, level: nat, inputs: seq<FileMeta>)
    requires ChosenAbove(files, level, inputs)
    ensures forall f :: f in inputs ==> f in files
  {
    hide ContinuesAt;
    if level > 0 {
      var i: nat, n: nat :| IsWholeRun(files, i, n, inputs);
    } else {
      var lo, hi :| Spans(inputs, lo, hi) && inputs == Overlapping(files, Some(lo), Some(hi));
      OverlappingMembers(files, Some(lo), Some(hi));
    }
  }

  /** Whatever the inputs span overlaps the range of them all. */
  lemma ExpandedHolds(files: seq<FileMeta>, level: nat, inputs: seq<FileMeta>, more: seq<FileMeta>, smallest: Entry,
      largest: Entry, lo: Option<UserKey>, hi: Option<UserKey>)
    requires LevelOk(files, level) && ChosenAbove(files, level, inputs)
    requires forall i :: 0 <= i < |inputs + more| ==>
               !Precedes((inputs + more)[i].smallest, smallest) && !Precedes(largest, (inputs + more)[i].largest)
    requires (level > 0 && lo == Some(smallest.key) && hi == Some(largest.key))
             || Covers(lo, hi, Some(smallest.key), Some(largest.key))
    ensures forall f :: f in inputs ==> f in Overlapping(files, lo, hi)
  {
    ChosenAreFiles(files, level, inputs);
    OverlappingMembers(files, lo, hi);
    forall f | f in inputs
      ensures Overlaps(f, lo, hi)
    {
      var i :| 0 <= i < |inputs| && inputs[i] == f;
      assert (inputs + more)[i] == f;
      var j :| 0 <= j < |files| && files[j] == f;
    }
  }

  /** SetupOtherInputs; `mayGrow` stands for the size limit on expanding the inputs. */
  method SetupOtherInputs(l0: seq<FileMeta>, l1: seq<FileMeta>, level: nat, start: seq<FileMeta>, mayGrow: bool)
    returns (inputs0: seq<FileMeta>, inputs1: seq<FileMeta>, ghost a: nat, ghost b: nat)
    requires LevelOk(l0, level) && LevelSorted(l1) && start != [] && IsStart(l0, level, start)
    ensures Chosen(l0, l1, level, inputs0, a, b) && a <= b <= |l1| && inputs1 == l1[a..b]
    ensures ChosenFiles(l0, l1, level, inputs0, inputs1)
    ensures forall f :: f in start ==> f in inputs0
    ensures (Completed(l0, level, start, inputs0) || mayGrow) && AsMany(l0, l1, level, start, |inputs1|)
  {
    hide LevelSorted, LevelOk, ChosenAbove, Takes, IsStart, Completed;
    inputs0 := CompleteChoice(l0, level, start);
    inputs1, a, b := NextLevel(inputs0, l1);
    assert AsMany(l0, l1, level, start, |inputs1|);
    if inputs1 != [] {
      var expanded0 := Expanded(l0, level, inputs0, inputs1);
      if |expanded0| > |inputs0| && mayGrow {
        ghost var c, d;
        var expanded1;
        expanded1, c, d := NextLevel(expanded0, l1);
        if |expanded1| == |inputs1| {
          inputs0, inputs1, a, b := expanded0, expanded1, c, d;
        }
      }
    }
  }

  /** The files of the upper level in the range of all inputs so far. */
  method Expanded(l0: seq<FileMeta>, level: nat, inputs0: seq<FileMeta>, inputs1: seq<FileMeta>)
    returns (expanded0: seq<FileMeta>)
    requires LevelOk(l0, level) && inputs0 != [] && ChosenAbove(l0, level, inputs0)
    ensures ChosenAbove(l0, level, expanded0) && expanded0 != []
    ensures forall f :: f in inputs0 ==> f in expanded0
  {
    hide LevelSorted, LevelOk, ChosenAbove, IsStart, Closed, Needed, Completed, Overlapping, Covers;
    var allStart, allLimit := GetRange(inputs0 + inputs1);
    InOrderFiles(l0, level);
    var overlapping0, lo, hi := GetOverlappingInputs(l0, level, Some(allStart.key), Some(allLimit.key));
    ExpandedHolds(l0, level, inputs0, inputs1, allStart, allLimit, lo, hi);
    assert inputs0[0] in overlapping0;
    OverlapStarts(l0, level, allStart.key, allLimit.key, lo, hi);
    expanded0 := CompleteChoice(l0, level, overlapping0);
  }

  lemma InOrderFiles(files: seq<FileMeta>, level: nat)
    requires LevelOk(files, level)
    ensures forall i :: 0 <= i < |files| ==> files[i].smallest.key <= files[i].largest.key
  {
  }

  /** The files of the next level that overlap the inputs so far. */
  method NextLevel(inputs0: seq<FileMeta>, l1: seq<FileMeta>)
    returns (inputs1: seq<FileMeta>, ghost a: nat, ghost b: nat)
    requires LevelSorted(l1) && inputs0 != []
    ensures Takes(inputs0, l1, a, b) && a <= b <= |l1| && inputs1 == l1[a..b]
    ensures exists lo, hi :: Spans(inputs0, lo, hi) && inputs1 == Overlapping(l1, Some(lo), Some(hi))
  {
    var smallest, largest := GetRange(inputs0);
    assert Spans(inputs0, smallest.key, largest.key);
    var lo, hi;
    inputs1, lo, hi := GetOverlappingInputs(l1, 1, Some(smallest.key), Some(largest.key));
    a, b := OverlapIsRun(l1, |l1|, smallest.key, largest.key);
    assert l1[..|l1|] == l1;
  }

  // ----- What the choice means for reads -----------------------------------------------

  /** Each file's entries are sorted and its recorded bounds are exact. */
  ghost predicate FilesOk(files: seq<FileMeta>)
  {
    forall i :: 0 <= i < |files| ==> Sorted(files[i].entries) && ExactBounds(files[i])
  }

  ghost predicate WellFormed(files: seq<FileMeta>)
  {
    LevelSorted(files) && FilesOk(files)
  }

  lemma EntryInFile(f: FileMeta, e: Entry)
    requires Sorted(f.entries) && ExactBounds(f) && e in f.entries
    ensures e == f.smallest || Precedes(f.smallest, e)
    ensures e == f.largest || Precedes(e, f.largest)
  {
    var i :| 0 <= i < |f.entries| && f.entries[i] == e;
    assert i > 0 ==> Precedes(f.entries[0], f.entries[i]);
    assert i < |f.entries| - 1 ==> Precedes(f.entries[i], f.entries[|f.entries| - 1]);
  }

  lemma EntryInBounds(files: seq<FileMeta>, m: nat, e: Entry)
    requires FilesOk(files) && m < |files| && e in files[m].entries
    ensures e == files[m].smallest || Precedes(files[m].smallest, e)
    ensures e == files[m].largest || Precedes(e, files[m].largest)
  {
    EntryInFile(files[m], e);
  }

  lemma FilesInOrder(files: seq<FileMeta>, m: nat, n: nat, d: Entry, e: Entry)
    requires WellFormed(files) && m < n < |files| && d in files[m].entries && e in files[n].entries
    ensures Precedes(d, e)
  {
    EntryInBounds(files, m, d);
    EntryInBounds(files, n, e);
    assert Precedes(files[m].largest, files[n].smallest);
  }

  /** What the level keeps is newer, for every user key, than what the compaction takes from it; at level 0
      it has no user key in common with it. */
  lemma KeptAboveIsNewer(l0: seq<FileMeta>, level: nat, inputs0: seq<FileMeta>, f: FileMeta, g: FileMeta, d: Entry,
      e: Entry)
    requires LevelOk(l0, level) && FilesOk(l0) && ChosenAbove(l0, level, inputs0)
    requires f in l0 && f !in inputs0 && d in f.entries && g in inputs0 && e in g.entries && d.key == e.key
    ensures level > 0 && d.sn > e.sn
  {
    if level == 0 {
      KeptApart(l0, inputs0, f, g, d, e);
    } else {
      KeptInRun(l0, inputs0, f, g, d, e);
    }
  }

  lemma KeptInRun(l0: seq<FileMeta>, inputs0: seq<FileMeta>, f: FileMeta, g: FileMeta, d: Entry, e: Entry)
    requires WellFormed(l0) && ChosenAbove(l0, 1, inputs0)
    requires f in l0 && f !in inputs0 && d in f.entries && g in inputs0 && e in g.entries && d.key == e.key
    ensures d.sn > e.sn
  {
    hide WellFormed;
    var p :| 0 <= p < |l0| && l0[p] == f;
    var q :| 0 <= q < |inputs0| && inputs0[q] == g;
    var i: nat, n: nat :| IsWholeRun(l0, i, n, inputs0);
    assert inputs0[q] == l0[i + q];
    forall m | i <= m < n
      ensures l0[m] in inputs0
    {
      assert inputs0[m - i] == l0[m];
    }
    if p < i {
      FilesInOrder(l0, p, i + q, d, e);
    } else {
      RunHolds(l0, i, n, i + q, e);
      BeyondRun(l0, n, p, d);
    }
  }

  lemma KeptApart(l0: seq<FileMeta>, inputs0: seq<FileMeta>, f: FileMeta, g: FileMeta, d: Entry, e: Entry)
    requires FilesOk(l0) && ChosenClosed(l0, inputs0) && f in l0 && f !in inputs0 && g in inputs0 && d in f.entries
             && e in g.entries
    ensures d.key != e.key
  {
    var lo, hi :| Spans(inputs0, lo, hi) && inputs0 == Overlapping(l0, Some(lo), Some(hi));
    OverlappingMembers(l0, Some(lo), Some(hi));
    var p :| 0 <= p < |l0| && l0[p] == f;
    var r :| 0 <= r < |l0| && l0[r] == g;
    EntryInFile(f, d);
    EntryInFile(g, e);
    var q :| 0 <= q < |inputs0| && inputs0[q] == g;
  }

  lemma RunHolds(files: seq<FileMeta>, i: nat, n: nat, m: nat, e: Entry)
    requires WellFormed(files) && i <= m < n <= |files| && e in files[m].entries
    ensures e == files[i].smallest || Precedes(files[i].smallest, e)
    ensures e == files[n - 1].largest || Precedes(e, files[n - 1].largest)
  {
    EntryInBounds(files, m, e);
    assert files[i].smallest in files[i].entries && files[n - 1].largest in files[n - 1].entries;
    if i < m {
      FilesInOrder(files, i, m, files[i].smallest, e);
    }
    if m < n - 1 {
      FilesInOrder(files, m, n - 1, e, files[n - 1].largest);
    }
  }

  lemma BeyondRun(files: seq<FileMeta>, n: nat, g: nat, d: Entry)
    requires WellFormed(files) && 0 < n <= g < |files| && d in files[g].entries
    ensures Precedes(files[n - 1].largest, files[n].smallest)
    ensures d == files[n].smallest || Precedes(files[n].smallest, d)
  {
    EntryInBounds(files, g, d);
    assert files[n].smallest in files[n].entries;
    if n < g {
      FilesInOrder(files, n, g, files[n].smallest, d);
    }
  }

  /** Whatever of a user key of the inputs stays behind to the right of them in the next level is older,
      and it is the key at the boundary: the next level's inputs end with it and the next file starts
      with it. */
  lemma KeptRightIsBoundary(inputs0: seq<FileMeta>, l1: seq<FileMeta>, a: nat, b: nat, g: nat, d: Entry, e: Entry)
    requires FilesOk(inputs0) && WellFormed(l1) && Takes(inputs0, l1, a, b) && b <= g < |l1|
    requires d in l1[g].entries && d.key == e.key
    requires (exists m :: 0 <= m < |inputs0| && e in inputs0[m].entries)
             || (exists m :: a <= m < b && e in l1[m].entries)
    ensures a < b && ContinuesAt(l1, b) && d.key == l1[b].smallest.key && d.sn < e.sn
  {
    hide WellFormed, FilesOk;
    var lo, hi :| Spans(inputs0, lo, hi) && IsRun(l1, |l1|, a, b, lo, hi);
    if m :| 0 <= m < |inputs0| && e in inputs0[m].entries {
      EntryInBounds(inputs0, m, e);
      KeyOverlaps(l1, g, d, lo, hi);
    } else {
      var m :| a <= m < b && e in l1[m].entries;
      RunHolds(l1, a, b, m, e);
      BeyondRun(l1, b, g, d);
    }
  }

  lemma TakesBounds(inputs0: seq<FileMeta>, l1: seq<FileMeta>, a: nat, b: nat)
    requires Takes(inputs0, l1, a, b)
    ensures a <= b <= |l1|
  {
  }

  lemma KeyOverlaps(files: seq<FileMeta>, g: nat, d: Entry, lo: UserKey, hi: UserKey)
    requires WellFormed(files) && g < |files| && d in files[g].entries && lo <= d.key <= hi
    ensures Overlaps(files[g], Some(lo), Some(hi))
  {
    EntryInBounds(files, g, d);
  }

  function Tables(files: seq<FileMeta>): (r: seq<seq<Entry>>)
    ensures |r| == |files| && forall i :: 0 <= i < |r| ==> r[i] == files[i].entries
  {
    seq(|files|, i requires 0 <= i < |files| => files[i].entries)
  }

  /** `es` is the merge of the inputs; `deeper` are the tables below the next level and `levels` their
      ranges of user keys. */
  ghost predicate Merges(inputs0: seq<FileMeta>, l1: seq<FileMeta>, a: nat, b: nat, es: seq<Entry>)
    requires a <= b <= |l1|
  {
    && Sorted(es)
    && forall e :: e in es <==>
         (exists m :: 0 <= m < |inputs0| && e in inputs0[m].entries) || (exists m :: a <= m < b && e in l1[m].entries)
  }

  ghost predicate InRanges(deeper: seq<seq<Entry>>, levels: seq<seq<FileRange>>)
  {
    forall t, d :: 0 <= t < |deeper| && d in deeper[t] ==> exists l :: 0 <= l < |levels| && InSomeFile(levels[l], d.key)
  }

  lemma {:induction false} SomeTableAnswers(tables: seq<seq<Entry>>, k: UserKey, s: nat) returns (t: nat, d: Entry)
    requires AllSorted(tables) && Get(tables, k, s) != None
    ensures t < |tables| && d in tables[t] && d.key == k
  {
    assert Sorted(tables[0]);
    NewestIsLargest(tables[0], k, s);
    if Newest(tables[0], k, s).Some? {
      t, d := 0, Newest(tables[0], k, s).value;
    } else {
      assert AllSorted(tables[1..]) by {
        assert forall u :: 0 <= u < |tables[1..]| ==> tables[1..][u] == tables[u + 1];
      }
      t, d := SomeTableAnswers(tables[1..], k, s);
      t := t + 1;
    }
  }

  /** A marker the compaction drops can only uncover a value under the key at the boundary. */
  lemma UncoversAtBoundary(inputs0: seq<FileMeta>, l1: seq<FileMeta>, a: nat, b: nat, es: seq<Entry>, e: nat, ss: nat,
                           levels: seq<seq<FileRange>>, deeper: seq<seq<Entry>>)
    requires FilesOk(inputs0) && WellFormed(l1) && Takes(inputs0, l1, a, b) && Merges(inputs0, l1, a, b, es)
    requires AllSorted(deeper) && InRanges(deeper, levels)
    requires e < |es| && Uncovers(es, e, ss, levels, Tables(l1[b..]) + deeper)
    ensures a < b && ContinuesAt(l1, b) && es[e].key == l1[b].smallest.key
  {
    hide Takes, Hidden, Get;
    TakesBounds(inputs0, l1, a, b);
    var right := Tables(l1[b..]);
    var rest := right + deeper;
    RestSorted(l1, b, deeper);
    assert es[e] in es;
    DeeperHasNone(right, deeper, levels, es[e].key);
    var t, d := SomeTableAnswers(rest, es[e].key, ss);
    assert rest[t] == l1[b + t].entries;
    KeptRightIsBoundary(inputs0, l1, a, b, b + t, d, es[e]);
  }

  lemma DeeperHasNone(right: seq<seq<Entry>>, deeper: seq<seq<Entry>>, levels: seq<seq<FileRange>>, k: UserKey)
    requires InRanges(deeper, levels) && IsBase(levels, k)
    ensures forall t, d :: |right| <= t < |right + deeper| && d in (right + deeper)[t] ==> d.key != k
  {
    forall t: int, d: Entry | |right| <= t < |right + deeper| && d in (right + deeper)[t]
      ensures d.key != k
    {
      assert (right + deeper)[t] == deeper[t - |right|];
    }
  }

  lemma RestSorted(l1: seq<FileMeta>, b: nat, deeper: seq<seq<Entry>>)
    requires WellFormed(l1) && b <= |l1| && AllSorted(deeper)
    ensures AllSorted(Tables(l1[b..]) + deeper)
  {
  }

  lemma RestOlder(inputs0: seq<FileMeta>, l1: seq<FileMeta>, a: nat, b: nat, es: seq<Entry>, deeper: seq<seq<Entry>>)
    requires FilesOk(inputs0) && WellFormed(l1) && Takes(inputs0, l1, a, b) && Merges(inputs0, l1, a, b, es)
    requires OlderThan(deeper, es)
    ensures OlderThan(Tables(l1[b..]) + deeper, es)
  {
    hide Takes;
    TakesBounds(inputs0, l1, a, b);
    var rest := Tables(l1[b..]) + deeper;
    forall t: int, e: Entry, d: Entry | 0 <= t < |rest| && e in es && d in rest[t] && d.key == e.key
      ensures d.sn < e.sn
    {
      if t < |l1| - b {
        assert rest[t] == l1[b + t].entries;
        KeptRightIsBoundary(inputs0, l1, a, b, b + t, d, e);
      } else {
        assert rest[t] == deeper[t - (|l1| - b)];
      }
    }
  }

  /** At any level the chosen inputs leave every read at or above the smallest snapshot unchanged exactly when the
      compaction does not drop, at the boundary of the next level's inputs, a marker that covers a value
      in the files that follow. AddBoundaryInputs keeps such files together in the upper level, but it is
      not applied to the next one. */
  lemma ChosenInputsPreserveReads(inputs0: seq<FileMeta>, l1: seq<FileMeta>, a: nat, b: nat, es: seq<Entry>, ss: nat,
                                  levels: seq<seq<FileRange>>, deeper: seq<seq<Entry>>)
    requires FilesOk(inputs0) && WellFormed(l1) && Takes(inputs0, l1, a, b) && Merges(inputs0, l1, a, b, es)
    requires AllSorted(deeper) && InRanges(deeper, levels) && OlderThan(deeper, es)
    ensures var rest := Tables(l1[b..]) + deeper;
            SameReads([es] + rest, [Kept(es, |es|, ss, levels)] + rest, ss)
            <==> !(a < b && ContinuesAt(l1, b)
                   && exists e :: 0 <= e < |es| && es[e].key == l1[b].smallest.key && ObsoleteMarker(es, e, ss, levels)
                                  && Get(rest, es[e].key, ss) != None)
  {
    hide Takes, Kept, Get, SameReads, ObsoleteMarker;
    TakesBounds(inputs0, l1, a, b);
    var rest := Tables(l1[b..]) + deeper;
    RestSorted(l1, b, deeper);
    RestOlder(inputs0, l1, a, b, es, deeper);
    CompactionPreservesReads(es, ss, levels, rest);
    if e :| 0 <= e < |es| && Uncovers(es, e, ss, levels, rest) {
      UncoversAtBoundary(inputs0, l1, a, b, es, e, ss, levels, deeper);
      assert ObsoleteMarker(es, e, ss, levels) && Get(rest, es[e].key, ss) != None;
    } else {
      assert forall e :: 0 <= e < |es| && ObsoleteMarker(es, e, ss, levels) && Get(rest, es[e].key, ss) != None
               ==> Uncovers(es, e, ss, levels, rest);
    }
  }

  const KEPT_ENTRY: Entry := Entry(1, 20, TypeValue, [1])
  const HIDDEN_ENTRY: Entry := Entry(1, 10, TypeValue, [0])
  const MARKER: Entry := Entry(5, 9, TypeDeletion, [])
  const STALE: Entry := Entry(5, 5, TypeValue, [7])

  /** A deleted value comes back: key 5 was deleted at 9, the marker ends one file of the next level, and
      the value written at 5 starts the file after it. Compacting key 1 takes the first of them only. */
  lemma DeletedValueReturns() returns (l0: seq<FileMeta>, l1: seq<FileMeta>, es: seq<Entry>)
    ensures WellFormed(l0) && WellFormed(l1) && Chosen(l0, l1, 1, l0, 0, 1) && Merges(l0, l1, 0, 1, es)
    ensures Get([es] + Tables(l1[1..]), 5, 30) == None
    ensures Get([Kept(es, |es|, 30, [])] + Tables(l1[1..]), 5, 30) == Some([7])
  {
    l0 := [OutputFile(KEPT_ENTRY, KEPT_ENTRY, [KEPT_ENTRY])];
    l1 := [OutputFile(HIDDEN_ENTRY, MARKER, [HIDDEN_ENTRY, MARKER]), OutputFile(STALE, STALE, [STALE])];
    es := [KEPT_ENTRY, HIDDEN_ENTRY, MARKER];
    KeptThree();
    ReadsDiffer();
    assert Tables(l1[1..]) == [[STALE]];
    assert l0[0..1] == l0 && IsWholeRun(l0, 0, 1, l0);
    assert Spans(l0, 1, 1) && IsRun(l1, |l1|, 0, 1, 1, 1);
    assert l0[0].entries == [KEPT_ENTRY] && l1[0].entries == [HIDDEN_ENTRY, MARKER];
  }

  lemma ReadsDiffer()
    ensures Get([[KEPT_ENTRY, HIDDEN_ENTRY, MARKER]] + [[STALE]], 5, 30) == None
    ensures Get([[KEPT_ENTRY]] + [[STALE]], 5, 30) == Some([7])
  {
    var es, kept := [KEPT_ENTRY, HIDDEN_ENTRY, MARKER], [KEPT_ENTRY];
    assert es[1..][1..] == [MARKER] && kept[1..] == [];
    assert Newest([MARKER], 5, 30) == Some(MARKER);
    assert Newest(es[1..], 5, 30) == Some(MARKER);
    assert Newest(es, 5, 30) == Some(MARKER) && Newest(kept, 5, 30) == None;
    assert ([es] + [[STALE]])[0] == es;
    assert ([kept] + [[STALE]])[0] == kept && ([kept] + [[STALE]])[1..] == [[STALE]];
    assert Newest([STALE], 5, 30) == Some(STALE);
  }

  lemma KeptThree()
    ensures Kept([KEPT_ENTRY, HIDDEN_ENTRY, MARKER], 3, 30, []) == [KEPT_ENTRY]
  {
    var es := [KEPT_ENTRY, HIDDEN_ENTRY, MARKER];
    assert !Dropped(es, 0, 30, []);
    assert es[0].key == es[1].key && Hidden(es, 1, 30);
    assert ObsoleteMarker(es, 2, 30, []);
    assert Kept(es, 1, 30, []) == Kept(es, 0, 30, []) + [es[0]];
    assert Kept(es, 2, 30, []) == Kept(es, 1, 30, []) + [];
  }
}
