/** The merge loop of a compaction (db/db_impl.cc, DoCompactionWork), the base-level test it
    consults (db/version_set.cc, IsBaseLevelForKey), and what the loop does to reads. */
module Compaction {
  import opened InternalKeys
  import opened Options

  datatype FileRange = FileRange(smallest: UserKey, largest: UserKey)

  datatype OutputFile = OutputFile(smallest: Entry, largest: Entry, entries: seq<Entry>)

  // ----- IsBaseLevelForKey -------------------------------------------------------------

  ghost predicate LevelOrdered(files: seq<FileRange>)
  {
    && (forall i :: 0 <= i < |files| ==> files[i].smallest <= files[i].largest)
    && (forall i, j :: 0 <= i < j < |files| ==> files[i].largest <= files[j].smallest)
  }

  ghost predicate InSomeFile(files: seq<FileRange>, k: UserKey)
  {
    exists i :: 0 <= i < |files| && files[i].smallest <= k <= files[i].largest
  }

  /** No file of any level below the output level covers `k`. */
  ghost predicate IsBase(levels: seq<seq<FileRange>>, k: UserKey)
  {
    forall l :: 0 <= l < |levels| ==> !InSomeFile(levels[l], k)
  }

  /** The per-level cursors of one compaction. They only ever move forward. */
  class BaseLevelCursor {
    const levels: seq<seq<FileRange>>
    var ptrs: seq<nat>

    ghost predicate Valid()
      reads this
    {
      && |ptrs| == |levels|
      && (forall l :: 0 <= l < |levels| ==> LevelOrdered(levels[l]) && ptrs[l] <= |levels[l]|)
    }

    /** Every file already skipped lies strictly before `k`. */
    ghost predicate PassedOnly(k: UserKey)
      requires Valid()
      reads this
    {
      forall l, i :: 0 <= l < |levels| && 0 <= i < ptrs[l] ==> levels[l][i].largest < k
    }

    constructor (levels: seq<seq<FileRange>>)
      requires forall l :: 0 <= l < |levels| ==> LevelOrdered(levels[l])
      ensures Valid() && this.levels == levels
      ensures forall k :: PassedOnly(k)
    {
      this.levels := levels;
      ptrs := seq(|levels|, i => 0);
    }

    method IsBaseLevelForKey(k: UserKey) returns (r: bool)
      requires Valid() && PassedOnly(k)
      modifies this
      ensures Valid() && PassedOnly(k)
      ensures r <==> IsBase(levels, k)
    {
      var lvl := 0;
      while lvl < |levels|
        invariant 0 <= lvl <= |levels|
        invariant Valid() && PassedOnly(k)
        invariant forall l :: 0 <= l < lvl ==> !InSomeFile(levels[l], k)
      {
        var files := levels[lvl];
        while ptrs[lvl] < |files|
          invariant Valid() && PassedOnly(k)
          decreases |files| - ptrs[lvl]
        {
          var f := files[ptrs[lvl]];
          if k <= f.largest {
            if k >= f.smallest {
              assert InSomeFile(levels[lvl], k);
              return false;
            }
            break;
          }
          ptrs := ptrs[lvl := ptrs[lvl] + 1];
        }
        lvl := lvl + 1;
      }
      return true;
    }
  }

  // ----- What is dropped ---------------------------------------------------------------

  /** Rule (A): a newer entry of the same user key is visible to every snapshot. */
  ghost predicate Hidden(es: seq<Entry>, i: nat, smallestSnapshot: nat)
    requires i < |es|
  {
    exists j :: 0 <= j < i && es[j].key == es[i].key && es[j].sn <= smallestSnapshot
  }

  /** The base-level rule: a deletion marker with nothing left to delete. */
  ghost predicate ObsoleteMarker(es: seq<Entry>, i: nat, smallestSnapshot: nat, levels: seq<seq<FileRange>>)
    requires i < |es|
  {
    && !Hidden(es, i, smallestSnapshot)
    && es[i].kind == TypeDeletion
    && es[i].sn <= smallestSnapshot
    && IsBase(levels, es[i].key)
  }

  ghost predicate Dropped(es: seq<Entry>, i: nat, smallestSnapshot: nat, levels: seq<seq<FileRange>>)
    requires i < |es|
  {
    Hidden(es, i, smallestSnapshot) || ObsoleteMarker(es, i, smallestSnapshot, levels)
  }

  ghost function Kept(es: seq<Entry>, n: nat, smallestSnapshot: nat, levels: seq<seq<FileRange>>): (r: seq<Entry>)
    requires n <= |es|
  {
    if n == 0 then []
    else Kept(es, n - 1, smallestSnapshot, levels)
         + (if Dropped(es, n - 1, smallestSnapshot, levels) then [] else [es[n - 1]])
  }

  lemma {:induction false} KeptMembers(es: seq<Entry>, n: nat, ss: nat, levels: seq<seq<FileRange>>)
    requires n <= |es|
    ensures forall e :: e in Kept(es, n, ss, levels) <==>
                        exists i :: 0 <= i < n && es[i] == e && !Dropped(es, i, ss, levels)
  {
    if n > 0 {
      KeptMembers(es, n - 1, ss, levels);
      var before := Kept(es, n - 1, ss, levels);
      forall e
        ensures e in Kept(es, n, ss, levels) <==>
                exists i :: 0 <= i < n && es[i] == e && !Dropped(es, i, ss, levels)
      {
        if e in Kept(es, n, ss, levels) && e !in before {
          assert es[n - 1] == e && !Dropped(es, n - 1, ss, levels);
        }
      }
    }
  }

  lemma {:induction false} KeptSorted(es: seq<Entry>, n: nat, ss: nat, levels: seq<seq<FileRange>>)
    requires n <= |es| && Sorted(es)
    ensures Sorted(Kept(es, n, ss, levels))
  {
    if n > 0 {
      KeptSorted(es, n - 1, ss, levels);
      KeptMembers(es, n - 1, ss, levels);
      var before := Kept(es, n - 1, ss, levels);
      forall a | 0 <= a < |before|
        ensures Precedes(before[a], es[n - 1])
      {
        assert before[a] in before;
        var i :| 0 <= i < n - 1 && es[i] == before[a] && !Dropped(es, i, ss, levels);
      }
    }
  }

  /** What the rules come to: above the smallest snapshot everything is kept; up to it a key keeps one entry, the
      one a read there finds, and not even that if it is a deletion marker and no deeper file covers the key. */
  ghost predicate Needed(es: seq<Entry>, e: Entry, ss: nat, levels: seq<seq<FileRange>>)
  {
    e in es && (e.sn > ss || (Newest(es, e.key, ss) == Some(e) && (e.kind == TypeDeletion ==> !IsBase(levels, e.key))))
  }

  lemma KeptAreNeeded(es: seq<Entry>, ss: nat, levels: seq<seq<FileRange>>, e: Entry)
    requires Sorted(es)
    ensures e in Kept(es, |es|, ss, levels) <==> Needed(es, e, ss, levels)
  {
    hide IsBase, Sorted;
    KeptMembers(es, |es|, ss, levels);
    if e in es {
      var i :| 0 <= i < |es| && es[i] == e;
      OnlyOnce(es, i);
      HiddenIsNotNewest(es, i, ss);
    }
  }

  lemma OnlyOnce(es: seq<Entry>, i: nat)
    requires Sorted(es) && i < |es|
    ensures forall j :: 0 <= j < |es| && es[j] == es[i] ==> j == i
  {
  }

  lemma HiddenIsNotNewest(es: seq<Entry>, i: nat, ss: nat)
    requires Sorted(es) && i < |es|
    ensures es[i].sn > ss ==> !Hidden(es, i, ss)
    ensures es[i].sn <= ss ==> (Newest(es, es[i].key, ss) == Some(es[i]) <==> !Hidden(es, i, ss))
  {
    NewestIsLargest(es, es[i].key, ss);
    if j :| 0 <= j < i && es[j].key == es[i].key && es[j].sn <= ss {
      assert Precedes(es[j], es[i]) && Matches(es[j], es[i].key, ss);
    } else if es[i].sn <= ss {
      forall e | e in es && Matches(e, es[i].key, ss)
        ensures e.sn <= es[i].sn
      {
        var j :| 0 <= j < |es| && es[j] == e;
        assert j > i ==> Precedes(es[i], es[j]);
      }
      NewestUnique(es, es[i].key, ss, es[i]);
    }
  }

  /** Nothing else is left: two entries of a key up to the smallest snapshot are one, and a deletion marker up to
      it stays only for a key that a deeper file covers. */
  lemma KeptAreFew(es: seq<Entry>, ss: nat, levels: seq<seq<FileRange>>, d: Entry, e: Entry)
    requires Sorted(es) && d in Kept(es, |es|, ss, levels) && e in Kept(es, |es|, ss, levels)
    ensures d.key == e.key && d.sn <= ss && e.sn <= ss ==> d == e
    ensures e.kind == TypeDeletion && e.sn <= ss ==>
            exists l :: 0 <= l < |levels| && InSomeFile(levels[l], e.key)
  {
    KeptAreNeeded(es, ss, levels, d);
    KeptAreNeeded(es, ss, levels, e);
  }

  // ----- The loop ----------------------------------------------------------------------

  function Flatten(outputs: seq<OutputFile>): seq<Entry>
  {
    if outputs == [] then []
    else Flatten(outputs[..|outputs| - 1]) + outputs[|outputs| - 1].entries
  }

  /** An output's recorded bounds are its first and last entries. */
  ghost predicate ExactBounds(f: OutputFile)
  {
    |f.entries| > 0 && f.smallest == f.entries[0] && f.largest == f.entries[|f.entries| - 1]
  }

  /** The last sequence number the loop has recorded, against the entries read so far. */
  ghost predicate Tracks(es: seq<Entry>, n: nat, hasKey: bool, key: UserKey, lastSequence: nat)
    requires n <= |es|
  {
    && (n == 0 ==> !hasKey)
    && (n > 0 ==> hasKey && key == es[n - 1].key && lastSequence == es[n - 1].sn)
  }

  /** One comparison with the previous entry decides rule (A). */
  lemma PreviousDecides(es: seq<Entry>, n: nat, ss: nat)
    requires Sorted(es) && n < |es|
    ensures Hidden(es, n, ss) <==> n > 0 && es[n - 1].key == es[n].key && es[n - 1].sn <= ss
  {
    if Hidden(es, n, ss) {
      var j :| 0 <= j < n && es[j].key == es[n].key && es[j].sn <= ss;
      assert j < n - 1 ==> Precedes(es[j], es[n - 1]);
      assert Precedes(es[n - 1], es[n]);
    }
  }

  lemma SortedStep(es: seq<Entry>, i: nat)
    requires Sorted(es) && i < |es|
    ensures i > 0 ==> Precedes(es[i - 1], es[i])
  {
  }

  lemma NothingKept(es: seq<Entry>, ss: nat, levels: seq<seq<FileRange>>)
    ensures Flatten([]) == Kept(es, 0, ss, levels)
  {
  }

  lemma KeptStep(es: seq<Entry>, i: nat, ss: nat, levels: seq<seq<FileRange>>)
    requires i < |es|
    ensures Kept(es, i + 1, ss, levels) == Kept(es, i, ss, levels)
            + (if Dropped(es, i, ss, levels) then [] else [es[i]])
  {
  }

  lemma PassedLater(cursor: BaseLevelCursor, k: UserKey, k': UserKey)
    requires cursor.Valid() && cursor.PassedOnly(k) && k <= k'
    ensures cursor.PassedOnly(k')
  {
  }

  lemma OutputOpened(outputs: seq<OutputFile>, e: Entry)
    requires forall f :: 0 <= f < |outputs| ==> ExactBounds(outputs[f])
    ensures var after := outputs + [OutputFile(e, e, [e])];
            Flatten(after) == Flatten(outputs) + [e] && forall f :: 0 <= f < |after| ==> ExactBounds(after[f])
  {
    var after := outputs + [OutputFile(e, e, [e])];
    assert after[..|after| - 1] == outputs;
  }

  lemma OutputExtended(outputs: seq<OutputFile>, e: Entry)
    requires |outputs| > 0 && forall f :: 0 <= f < |outputs| ==> ExactBounds(outputs[f])
    ensures var last := outputs[|outputs| - 1];
            var after := outputs[..|outputs| - 1] + [last.(largest := e, entries := last.entries + [e])];
            Flatten(after) == Flatten(outputs) + [e] && forall f :: 0 <= f < |after| ==> ExactBounds(after[f])
  {
    var last := outputs[|outputs| - 1];
    var after := outputs[..|outputs| - 1] + [last.(largest := e, entries := last.entries + [e])];
    assert after[..|after| - 1] == outputs[..|outputs| - 1];
    assert Flatten(outputs[..|outputs| - 1]) + (last.entries + [e]) == Flatten(outputs[..|outputs| - 1])
      + last.entries + [e];
  }

  /** `stopBefore` and `full` stand for the size heuristics ShouldStopBefore and
      FileSize() >= MaxOutputFileSize(): any cut the source can choose. */
  method DoCompactionWork(input: seq<Entry>, smallestSnapshot: nat, cursor: BaseLevelCursor,
                          stopBefore: seq<bool>, full: seq<bool>)
    returns (outputs: seq<OutputFile>)
    requires Sorted(input) && smallestSnapshot < MAX_SEQUENCE_NUMBER
    requires |stopBefore| == |input| && |full| == |input|
    requires cursor.Valid() && forall k :: cursor.PassedOnly(k)
    modifies cursor
    ensures Flatten(outputs) == Kept(input, |input|, smallestSnapshot, cursor.levels)
    ensures forall e :: e in Flatten(outputs) <==> Needed(input, e, smallestSnapshot, cursor.levels)
    ensures forall f :: 0 <= f < |outputs| ==> ExactBounds(outputs[f])
  {
    hide Sorted, Hidden, IsBase, LevelOrdered, BaseLevelCursor.Valid, BaseLevelCursor.PassedOnly, Kept, Flatten,
         ExactBounds, Needed;
    assert Flatten([])
      == Kept(input, 0, smallestSnapshot, cursor.levels) by { NothingKept(input, smallestSnapshot, cursor.levels); }
    outputs := [];
    var building := false;
    var hasCurrentUserKey, currentUserKey := false, 0;
    var lastSequenceForKey: nat := MAX_SEQUENCE_NUMBER;
    var i := 0;
    while i < |input|
      invariant 0 <= i <= |input|
      invariant Tracks(input, i, hasCurrentUserKey, currentUserKey, lastSequenceForKey)
      invariant building ==> |outputs| > 0
      invariant cursor.Valid()
      invariant if i == 0 then forall k :: cursor.PassedOnly(k) else cursor.PassedOnly(input[i - 1].key)
      invariant Flatten(outputs) == Kept(input, i, smallestSnapshot, cursor.levels)
      invariant forall f :: 0 <= f < |outputs| ==> ExactBounds(outputs[f])
    {
      var e := input[i];
      if stopBefore[i] && building {
        building := false;
      }
      PreviousDecides(input, i, smallestSnapshot);
      SortedStep(input, i);
      KeptStep(input, i, smallestSnapshot, cursor.levels);
      if i > 0 {
        PassedLater(cursor, input[i - 1].key, e.key);
      }
      var drop := false;
      if !hasCurrentUserKey || e.key != currentUserKey {
        currentUserKey := e.key;
        hasCurrentUserKey := true;
        lastSequenceForKey := MAX_SEQUENCE_NUMBER;
      }
      if lastSequenceForKey <= smallestSnapshot {
        drop := true;
      } else if e.kind == TypeDeletion && e.sn <= smallestSnapshot {
        drop := cursor.IsBaseLevelForKey(e.key);
      }
      lastSequenceForKey := e.sn;
      assert drop <==> Dropped(input, i, smallestSnapshot, cursor.levels);
      if !drop {
        if !building {
          building := true;
          OutputOpened(outputs, e);
          outputs := outputs + [OutputFile(e, e, [e])];
        } else {
          OutputExtended(outputs, e);
          var last := outputs[|outputs| - 1];
          outputs := outputs[..|outputs| - 1] + [last.(largest := e, entries := last.entries + [e])];
        }
        if full[i] {
          building := false;
        }
      }
      i := i + 1;
    }
    forall e
      ensures e in Flatten(outputs) <==> Needed(input, e, smallestSnapshot, cursor.levels)
    {
      KeptAreNeeded(input, smallestSnapshot, cursor.levels, e);
    }
  }

  // ----- What the loop does to reads ---------------------------------------------------

  /** A read at snapshot `s` through tables listed newest first: the first table holding a
      visible entry answers, and a deletion answers "absent". */
  function Get(tables: seq<seq<Entry>>, k: UserKey, s: nat): Option<Value>
  {
    if tables == [] then None
    else match Newest(tables[0], k, s)
      case Some(e) => if e.kind == TypeValue then Some(e.value) else None
      case None => Get(tables[1..], k, s)
  }

  /** Everything `rest` holds for `k` is older than everything `es` holds for `k`. */
  ghost predicate OlderThan(rest: seq<seq<Entry>>, es: seq<Entry>)
  {
    forall t, e, d :: 0 <= t < |rest| && e in es && d in rest[t] && d.key == e.key ==> d.sn < e.sn
  }

  ghost predicate AllSorted(tables: seq<seq<Entry>>)
  {
    forall t :: 0 <= t < |tables| ==> Sorted(tables[t])
  }

  /** A dropped deletion marker still covers a live value outside the compaction. */
  ghost predicate Uncovers(es: seq<Entry>, i: nat, ss: nat, levels: seq<seq<FileRange>>, rest: seq<seq<Entry>>)
    requires i < |es|
  {
    ObsoleteMarker(es, i, ss, levels) && Get(rest, es[i].key, ss) != None
  }

  /** Reads of older tables do not change once the snapshot passes all they hold for the key. */
  lemma {:induction false} GetOldEnough(rest: seq<seq<Entry>>, k: UserKey, ss: nat, s: nat)
    requires AllSorted(rest) && ss <= s
    requires forall t, d :: 0 <= t < |rest| && d in rest[t] && d.key == k ==> d.sn <= ss
    ensures Get(rest, k, s) == Get(rest, k, ss)
  {
    if rest != [] {
      assert Sorted(rest[0]);
      NewestIsLargest(rest[0], k, s);
      NewestIsLargest(rest[0], k, ss);
      assert AllSorted(rest[1..]) by {
        assert forall t :: 0 <= t < |rest[1..]| ==> rest[1..][t] == rest[t + 1];
      }
      GetOldEnough(rest[1..], k, ss, s);
    }
  }

  /** The entry a reader not older than the smallest snapshot uses is dropped only as an
      obsolete marker. */
  lemma NewestSurvives(es: seq<Entry>, i: nat, ss: nat, s: nat)
    requires Sorted(es) && i < |es| && ss <= s
    requires Newest(es, es[i].key, s) == Some(es[i])
    ensures !Hidden(es, i, ss)
  {
    NewestIsLargest(es, es[i].key, s);
  }

  lemma ReadOfKept(es: seq<Entry>, ss: nat, levels: seq<seq<FileRange>>, k: UserKey, s: nat)
    requires Sorted(es) && ss <= s
    ensures var kept := Newest(Kept(es, |es|, ss, levels), k, s);
            match Newest(es, k, s)
            case None => kept == None
            case Some(e) =>
              exists i :: 0 <= i < |es| && es[i] == e && !Hidden(es, i, ss)
                          && kept == (if ObsoleteMarker(es, i, ss, levels) then None else Some(e))
  {
    var kept := Kept(es, |es|, ss, levels);
    KeptMembers(es, |es|, ss, levels);
    KeptSorted(es, |es|, ss, levels);
    NewestIsLargest(es, k, s);
    match Newest(es, k, s)
    case None =>
      NewestNone(kept, k, s);
    case Some(e) =>
      var i :| 0 <= i < |es| && es[i] == e;
      NewestSurvives(es, i, ss, s);
      if ObsoleteMarker(es, i, ss, levels) {
        NewestNone(kept, k, s);
      } else {
        assert e in kept;
        NewestUnique(kept, k, s, e);
      }
  }

  lemma MarkerIsRead(es: seq<Entry>, i: nat, ss: nat, levels: seq<seq<FileRange>>)
    requires Sorted(es) && i < |es| && ObsoleteMarker(es, i, ss, levels)
    ensures Newest(es, es[i].key, ss) == Some(es[i])
    ensures Newest(Kept(es, |es|, ss, levels), es[i].key, ss) == None
  {
    forall e | e in es && Matches(e, es[i].key, ss)
      ensures e.sn <= es[i].sn
    {
      var j :| 0 <= j < |es| && es[j] == e;
      assert j > i ==> Precedes(es[i], es[j]);
    }
    NewestUnique(es, es[i].key, ss, es[i]);
    ReadOfKept(es, ss, levels, es[i].key, ss);
    forall j | 0 <= j < |es| && es[j] == es[i]
      ensures j == i
    {
    }
  }

  lemma ReadChanged(es: seq<Entry>, ss: nat, levels: seq<seq<FileRange>>, rest: seq<seq<Entry>>, k: UserKey, s: nat)
    returns (i: nat)
    requires Sorted(es) && AllSorted(rest) && OlderThan(rest, es) && ss <= s
    requires Get([Kept(es, |es|, ss, levels)] + rest, k, s) != Get([es] + rest, k, s)
    ensures i < |es| && Uncovers(es, i, ss, levels, rest)
  {
    var kept := Kept(es, |es|, ss, levels);
    assert ([kept] + rest)[1..] == rest && ([es] + rest)[1..] == rest;
    ReadOfKept(es, ss, levels, k, s);
    NewestIsLargest(es, k, s);
    var e := Newest(es, k, s).value;
    i :| 0 <= i < |es| && es[i] == e && !Hidden(es, i, ss)
         && Newest(kept, k, s) == (if ObsoleteMarker(es, i, ss, levels) then None else Some(e));
    GetOldEnough(rest, k, ss, s);
  }

  lemma UncoveredReadChanges(es: seq<Entry>, ss: nat, levels: seq<seq<FileRange>>, rest: seq<seq<Entry>>, i: nat)
    requires Sorted(es) && i < |es| && Uncovers(es, i, ss, levels, rest)
    ensures Get([Kept(es, |es|, ss, levels)] + rest, es[i].key, ss) != Get([es] + rest, es[i].key, ss)
  {
    var kept := Kept(es, |es|, ss, levels);
    assert ([kept] + rest)[1..] == rest && ([es] + rest)[1..] == rest;
    MarkerIsRead(es, i, ss, levels);
  }

  ghost predicate SameReads(before: seq<seq<Entry>>, after: seq<seq<Entry>>, ss: nat)
  {
    forall k, s: nat | ss <= s :: Get(after, k, s) == Get(before, k, s)
  }

  /** A compaction changes no read at or above the smallest snapshot exactly when no dropped
      marker still covers a value in the tables that were not compacted. */
  lemma CompactionPreservesReads(es: seq<Entry>, ss: nat, levels: seq<seq<FileRange>>, rest: seq<seq<Entry>>)
    requires Sorted(es) && AllSorted(rest) && OlderThan(rest, es)
    ensures SameReads([es] + rest, [Kept(es, |es|, ss, levels)] + rest, ss)
            <==> (forall i | 0 <= i < |es| :: !Uncovers(es, i, ss, levels, rest))
  {
    if !SameReads([es] + rest, [Kept(es, |es|, ss, levels)] + rest, ss) {
      var k, s: nat :| ss <= s && Get([Kept(es, |es|, ss, levels)] + rest, k, s) != Get([es] + rest, k, s);
      var i := ReadChanged(es, ss, levels, rest, k, s);
    } else {
      forall i | 0 <= i < |es|
        ensures !Uncovers(es, i, ss, levels, rest)
      {
        if Uncovers(es, i, ss, levels, rest) {
          UncoveredReadChanges(es, ss, levels, rest, i);
          assert false;
        }
      }
    }
  }
}
