/** Finding a file in a level and placing a flushed memtable (db/version_set.cc: FindFile,
    SomeFileOverlapsRange, PickLevelForMemTableOutput). */
module FlushPlacement {
  import opened InternalKeys
  import opened Compaction
  import opened CompactionInputs
  import opened Options

  const MAX_MEM_COMPACT_LEVEL: nat := 2

  /** What the binary search returns on any list of files. */
  function FindFileIn(files: seq<FileMeta>, key: Entry, left: nat, right: nat): (r: nat)
    requires left <= right <= |files|
    ensures left <= r <= right
    decreases right - left
  {
    if left == right then right
    else
      var mid := (left + right) / 2;
      if Precedes(files[mid].largest, key) then FindFileIn(files, key, mid + 1, right)
      else FindFileIn(files, key, left, mid)
  }

  lemma AllBeforeKey(files: seq<FileMeta>, mid: nat, key: Entry)
    requires LevelSorted(files) && mid < |files| && Precedes(files[mid].largest, key)
    ensures forall i :: 0 <= i <= mid ==> Precedes(files[i].largest, key)
  {
    assert forall i :: 0 <= i < mid ==> Precedes(files[i].largest, files[mid].smallest);
  }

  method FindFile(files: seq<FileMeta>, key: Entry) returns (r: nat)
    ensures r == FindFileIn(files, key, 0, |files|)
    ensures LevelSorted(files) ==> (forall i :: 0 <= i < r ==> Precedes(files[i].largest, key))
                                   && (r < |files| ==> !Precedes(files[r].largest, key))
  {
    hide LevelSorted, Precedes;
    var left, right := 0, |files|;
    while left < right
      invariant left <= right <= |files|
      invariant FindFileIn(files, key, left, right) == FindFileIn(files, key, 0, |files|)
      invariant LevelSorted(files) ==> (forall i :: 0 <= i < left ==> Precedes(files[i].largest, key))
                                       && (right < |files| ==> !Precedes(files[right].largest, key))
    {
      var mid := (left + right) / 2;
      if Precedes(files[mid].largest, key) {
        if LevelSorted(files) {
          AllBeforeKey(files, mid, key);
        }
        left := mid + 1;
      } else {
        right := mid;
      }
    }
    return right;
  }

  ghost predicate SomeOverlap(files: seq<FileMeta>, smallest: Option<UserKey>, largest: Option<UserKey>)
  {
    exists i :: 0 <= i < |files| && Overlaps(files[i], smallest, largest)
  }

  method SomeFileOverlapsRange(files: seq<FileMeta>, disjointSortedFiles: bool, smallest: Option<UserKey>,
      largest: Option<UserKey>)
    returns (r: bool)
    requires disjointSortedFiles ==>
             LevelSorted(files) && forall i :: 0 <= i < |files| ==> files[i].largest.sn <= MAX_SEQUENCE_NUMBER
    ensures r <==> SomeOverlap(files, smallest, largest)
  {
    if !disjointSortedFiles {
      for i := 0 to |files|
        invariant forall j :: 0 <= j < i ==> !Overlaps(files[j], smallest, largest)
      {
        if Overlaps(files[i], smallest, largest) {
          return true;
        }
      }
      return false;
    }
    var index := 0;
    if smallest.Some? {
      index := FindFile(files, Entry(smallest.value, MAX_SEQUENCE_NUMBER, TypeValue, []));
    }
    if index >= |files| {
      return false;
    }
    assert forall j :: index < j < |files| ==> Precedes(files[index].largest, files[j].smallest);
    return !(largest.Some? && files[index].smallest.key > largest.value);
  }

  /** Level 0, or the deepest level from which nothing down to it overlaps and no level above it was crowded;
      a deeper one was refused for an overlap or for being crowded. `crowded` says for which levels the file
      would overlap too many bytes two levels down. */
  ghost predicate IsPicked(levels: seq<seq<FileMeta>>, smallest: UserKey, largest: UserKey, crowded: seq<bool>,
      level: nat)
    requires |levels| == |crowded| == 7
  {
    && level <= MAX_MEM_COMPACT_LEVEL
    && (level > 0 ==> forall l :: 0 <= l <= level ==> !SomeOverlap(levels[l], Some(smallest), Some(largest)))
    && (forall l :: 2 <= l < level + 2 ==> !crowded[l])
    && (level < MAX_MEM_COMPACT_LEVEL ==> SomeOverlap(levels[0], Some(smallest), Some(largest))
                                          || SomeOverlap(levels[level + 1], Some(smallest), Some(largest))
                                            || crowded[level + 2])
  }

  lemma PickIsUnique(levels: seq<seq<FileMeta>>, smallest: UserKey, largest: UserKey, crowded: seq<bool>, level: nat,
      level': nat)
    requires |levels| == |crowded| == 7
    requires IsPicked(levels, smallest, largest, crowded, level) && IsPicked(levels, smallest, largest, crowded, level')
    ensures level == level'
  {
    hide SomeOverlap;
  }

  method PickLevelForMemTableOutput(levels: seq<seq<FileMeta>>, smallest: UserKey, largest: UserKey, crowded: seq<bool>)
    returns (level: nat)
    requires |levels| == |crowded| == 7
    requires forall l, i :: 0 < l < |levels| && 0 <= i < |levels[l]| ==> levels[l][i].largest.sn <= MAX_SEQUENCE_NUMBER
    requires forall l :: 0 < l < |levels| ==> LevelSorted(levels[l])
    ensures IsPicked(levels, smallest, largest, crowded, level)
    ensures level > 0 ==> !crowded[level + 1]
  {
    level := 0;
    var overlap := SomeFileOverlapsRange(levels[0], false, Some(smallest), Some(largest));
    if !overlap {
      while level < MAX_MEM_COMPACT_LEVEL
        invariant level <= MAX_MEM_COMPACT_LEVEL
        invariant forall l :: 0 <= l <= level ==> !SomeOverlap(levels[l], Some(smallest), Some(largest))
        invariant forall l :: 2 <= l < level + 2 ==> !crowded[l]
      {
        overlap := SomeFileOverlapsRange(levels[level + 1], true, Some(smallest), Some(largest));
        if overlap {
          break;
        }
        if crowded[level + 2] {
          break;
        }
        level := level + 1;
      }
    }
  }

  // ----- Adding a file to a level ------------------------------------------------------

  /** Adding a file to a sorted level keeps it sorted when its user keys overlap no other file's. */
  lemma PlacedFileKeepsOrder(files: seq<FileMeta>, f: FileMeta, p: nat)
    requires LevelSorted(files) && p <= |files| && f.smallest.key <= f.largest.key && !Precedes(f.largest, f.smallest)
    requires !SomeOverlap(files, Some(f.smallest.key), Some(f.largest.key))
    requires (p > 0 ==> files[p - 1].smallest.key < f.smallest.key)
             && (p < |files| ==> f.smallest.key < files[p].smallest.key)
    ensures LevelSorted(files[..p] + [f] + files[p..])
  {
    var after := files[..p] + [f] + files[p..];
    assert p > 0 ==> !Overlaps(files[p - 1], Some(f.smallest.key), Some(f.largest.key));
    assert p < |files| ==> !Overlaps(files[p], Some(f.smallest.key), Some(f.largest.key));
    forall i | 0 <= i < |files|
      ensures if i < p then files[i].largest.key < f.smallest.key else f.largest.key < files[i].smallest.key
    {
      if i < p - 1 {
        assert Precedes(files[i].largest, files[p - 1].smallest);
      } else if i > p {
        assert Precedes(files[p].largest, files[i].smallest);
      }
    }
  }

  /** In a sorted level the file the binary search finds is the only one that can hold the first entry at
      or after the key. */
  lemma FoundFileHolds(files: seq<FileMeta>, key: Entry, r: nat, m: nat, e: Entry)
    requires WellFormed(files) && r <= |files| && m < |files| && e in files[m].entries && !Precedes(e, key)
    requires forall i :: 0 <= i < r ==> Precedes(files[i].largest, key)
    requires r < |files| ==> !Precedes(files[r].largest, key)
    ensures r <= m
    ensures m > r ==>
            files[r].largest in files[r].entries && !Precedes(files[r].largest, key) && Precedes(files[r].largest, e)
  {
    EntryInBounds(files, m, e);
    if m > r {
      assert Precedes(files[r].largest, files[m].smallest);
      assert ExactBounds(files[r]);
    }
  }

  function One(e: Entry): FileMeta
  {
    OutputFile(e, e, [e])
  }

  /** A flush nested in a compaction of level 1 is placed in level 2, between two of its inputs: it overlaps
      nothing in the version it is checked against. But an output of that compaction spans the gap, and with
      both files in the level the binary search no longer finds the flushed entry. */
  lemma FlushInGapIsLost(v: Value, s: nat)
    returns (upper: seq<FileMeta>, lower: seq<FileMeta>, output: FileMeta, flushed: FileMeta)
    requires s >= 30
    ensures WellFormed(upper) && WellFormed(lower) && Chosen(upper, lower, 1, upper, 0, 2)
    ensures flushed == One(Entry(5, 30, TypeValue, v))
    ensures IsPicked([[], upper, lower, [], [], [], []], 5, 5, [false, false, false, false, false, false, false], 2)
    ensures Merges(upper, lower, 0, 2, output.entries)
            && Kept(output.entries, |output.entries|, 0, []) == output.entries && ExactBounds(output)
    ensures !LevelSorted([output, flushed])
    ensures var r := FindFileIn([output, flushed], Entry(5, s, TypeValue, []), 0, 2);
            r == 0 && Newest(output.entries, 5, s) == None && Newest(flushed.entries, 5, s) == Some(flushed.smallest)
  {
    upper, lower := [One(Written(1, 20, v)), One(Written(9, 21, v))], [One(Written(2, 10, v)), One(Written(8, 11, v))];
    output := OutputFile(Written(1, 20, v), Written(9, 21, v),
      [Written(1, 20, v), Written(2, 10, v), Written(8, 11, v), Written(9, 21, v)]);
    flushed := One(Written(5, 30, v));
    hide WellFormed, Chosen, IsPicked, Merges, Kept, FindFileIn, Newest, LevelSorted;
    AllKept(output.entries);
    GapInputs(v);
    GapIsPicked(v);
    GapLookup(output, flushed, v, s);
  }

  lemma GapIsPicked(v: Value)
    ensures var upper, lower := [One(Written(1, 20, v)), One(Written(9, 21, v))],
            [One(Written(2, 10, v)), One(Written(8, 11, v))];
            IsPicked([[], upper, lower, [], [], [], []], 5, 5, [false, false, false, false, false, false, false], 2)
  {
  }

  function Written(k: UserKey, sn: nat, v: Value): Entry
  {
    Entry(k, sn, TypeValue, v)
  }

  lemma GapInputs(v: Value)
    ensures var upper, lower := [One(Written(1, 20, v)), One(Written(9, 21, v))],
            [One(Written(2, 10, v)), One(Written(8, 11, v))];
            && WellFormed(upper) && WellFormed(lower) && Chosen(upper, lower, 1, upper, 0, 2)
            && Merges(upper, lower, 0, 2, [Written(1, 20, v), Written(2, 10, v), Written(8, 11, v), Written(9, 21, v)])
  {
    var upper, lower := [One(Written(1, 20, v)), One(Written(9, 21, v))],
      [One(Written(2, 10, v)), One(Written(8, 11, v))];
    assert upper[0..2] == upper && IsWholeRun(upper, 0, 2, upper);
    assert upper[0].smallest.key == 1 && upper[1].largest.key == 9;
    assert Spans(upper, 1, 9) && IsRun(lower, 2, 0, 2, 1, 9);
    GapMerge(v);
  }

  lemma GapMerge(v: Value)
    ensures var upper, lower := [One(Written(1, 20, v)), One(Written(9, 21, v))],
            [One(Written(2, 10, v)), One(Written(8, 11, v))];
            Merges(upper, lower, 0, 2, [Written(1, 20, v), Written(2, 10, v), Written(8, 11, v), Written(9, 21, v)])
  {
    var upper, lower := [One(Written(1, 20, v)), One(Written(9, 21, v))],
      [One(Written(2, 10, v)), One(Written(8, 11, v))];
    assert upper[0].entries == [Written(1, 20, v)] && upper[1].entries == [Written(9, 21, v)];
    assert lower[0].entries == [Written(2, 10, v)] && lower[1].entries == [Written(8, 11, v)];
  }

  lemma GapLookup(output: FileMeta, flushed: FileMeta, v: Value, s: nat)
    requires s >= 30 && flushed == One(Written(5, 30, v)) && output.largest == Written(9, 21, v)
    requires output.entries == [Written(1, 20, v), Written(2, 10, v), Written(8, 11, v), Written(9, 21, v)]
    ensures !LevelSorted([output, flushed])
    ensures var r := FindFileIn([output, flushed], Entry(5, s, TypeValue, []), 0, 2);
            r == 0 && Newest(output.entries, 5, s) == None && Newest(flushed.entries, 5, s) == Some(flushed.smallest)
  {
    var files, key := [output, flushed], Entry(5, s, TypeValue, []);
    assert !Precedes(files[0].largest, files[1].smallest);
    assert FindFileIn(files, key, 0, 0) == 0;
    assert FindFileIn(files, key, 0, 1) == 0;
    NewestNone(output.entries, 5, s);
  }

  lemma AllKept(es: seq<Entry>)
    requires |es| == 4 && forall i :: 0 <= i < 4 ==> es[i].kind == TypeValue && es[i].sn > 0
    ensures Kept(es, 4, 0, []) == es
  {
    assert forall i :: 0 <= i < 4 ==> !Dropped(es, i, 0, []);
    assert Kept(es, 1, 0, []) == [] + [es[0]] && Kept(es, 2, 0, []) == Kept(es, 1, 0, []) + [es[1]];
    assert Kept(es, 3, 0, []) == Kept(es, 2, 0, []) + [es[2]];
  }
}
