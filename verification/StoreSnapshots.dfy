/** What a snapshot is for: it stays live until it is released, and a read at it gives the history of the moment
    it was taken at, whatever has been written, flushed or compacted since. */
module StoreSnapshots {
  import opened InternalKeys
  import opened Options
  import opened Stores
  import opened StoreRuns
  import opened StoreInvariant
  import opened StoreReads
  import opened StoreTheorems

  /** A snapshot stays live until a snapshot with its number is released, and as long as it is live a read may
      begin at it. */
  lemma {:induction false} SnapshotStays(states: seq<Store>, events: seq<Event>, i: nat, j: nat, t: nat)
    requires IsRun(states, events) && i <= j < |states| && t in states[i].snapshots
    requires forall m :: i <= m < j && events[m].ReleaseSnapshotEvent? && events[m].i < |states[m].snapshots| ==>
               states[m].snapshots[events[m].i] != t
    ensures t in states[j].snapshots
    ensures forall id :: id !in states[j].readers ==> Enabled(states[j], BeginGetEvent(id, t))
    decreases j - i
  {
    hide Step;
    if i < j {
      StepKeepsSnapshot(states[i], events[i], t);
      SnapshotStays(states, events, i + 1, j, t);
    }
  }

  lemma StepKeepsSnapshot(s: Store, e: Event, t: nat)
    requires Enabled(s, e) && t in s.snapshots
    requires e.ReleaseSnapshotEvent? && e.i < |s.snapshots| ==> s.snapshots[e.i] != t
    ensures t in Step(s, e).snapshots
  {
    hide EntriesOf, IsLive, PlacementOk, IsNext, Dropped, InputsOk, BaseOk, TakesOverlapping, Memtable, OutputFiles,
         OutputNumbers;
    if e.ReleaseSnapshotEvent? {
      var j :| 0 <= j < |s.snapshots| && s.snapshots[j] == t;
      assert Step(s, e).snapshots[if j < e.i then j else j - 1] == t;
    }
  }

  /** Releasing one of several snapshots with the same number keeps the others. */
  lemma OthersStay(s: Store, i: nat)
    requires i < |s.snapshots|
    ensures multiset(s.snapshots) == multiset(Step(s, ReleaseSnapshotEvent(i)).snapshots) + multiset{s.snapshots[i]}
  {
    assert s.snapshots == s.snapshots[..i] + [s.snapshots[i]] + s.snapshots[i + 1..];
  }

  /** The number of the snapshot that event `i` takes. */
  function Taken(states: seq<Store>, i: nat): nat
    requires i + 1 < |states|
  {
    var after := states[i + 1].snapshots;
    if after == [] then 0 else after[|after| - 1]
  }

  /** A snapshot cuts the history at the moment it is taken: every entry of a group that has ended by then is
      numbered up to it, and what a group under way has inserted is numbered above it. */
  lemma SnapshotCuts(states: seq<Store>, events: seq<Event>, i: nat, e: nat, k: UserKey, n: nat)
    requires IsRun(states, events) && e < i < |events| && events[i] == TakeSnapshotEvent
    ensures Taken(states, i) in states[i + 1].snapshots
    ensures events[e] == EndWriteEvent && (k, n) in EntriesOf(states[e].write.value.ops, states[e].last + 1) ==>
              n <= Taken(states, i) && (k, n) in states[i].history
    ensures states[i].write.Some? && (k, n) in states[i].history
            && (k, n) in EntriesOf(states[i].write.value.ops, states[i].last + 1) ==>
              n > Taken(states, i)
  {
    hide Enabled, Step, EntriesOf;
    SnapshotIsLast(states, events, i);
    if events[e] == EndWriteEvent {
      EndsAWrite(states[e], events[e]);
      GroupIsAtomic(states, events, e, k, n);
      GroupNumbers(states[e].write.value.ops, states[e].last + 1, k, n);
      if (k, n) in EntriesOf(states[e].write.value.ops, states[e].last + 1) {
        EntryStays(states, events, e + 1, i, k, n);
      }
    }
    if states[i].write.Some? {
      GroupNumbers(states[i].write.value.ops, states[i].last + 1, k, n);
    }
  }

  lemma EndsAWrite(s: Store, e: Event)
    requires Enabled(s, e) && e == EndWriteEvent
    ensures s.write.Some?
  {
  }

  lemma GroupNumbers(ops: seq<Op>, first: nat, k: UserKey, n: nat)
    ensures (k, n) in EntriesOf(ops, first) ==> first <= n < first + |ops|
  {
  }

  lemma {:induction false} EntryStays(states: seq<Store>, events: seq<Event>, i: nat, j: nat, k: UserKey, n: nat)
    requires IsRun(states, events) && i <= j < |states| && n <= states[i].last
    ensures states[i].last <= states[j].last && ((k, n) in states[i].history ==> (k, n) in states[j].history)
    decreases j - i
  {
    hide Inv, Enabled, Step;
    if i < j {
      RunKeeps(states, events, i);
      StepKeepsHistory(states[i], events[i]);
      EntryStays(states, events, i + 1, j, k, n);
    }
  }

  lemma SnapshotIsLast(states: seq<Store>, events: seq<Event>, i: nat)
    requires IsRun(states, events) && i < |events| && events[i] == TakeSnapshotEvent
    ensures Taken(states, i) == states[i].last && Taken(states, i) in states[i + 1].snapshots
    ensures states[i + 1].history == states[i].history && states[i + 1].last == states[i].last
  {
    assert states[i + 1] == Step(states[i], events[i]);
    var after := states[i + 1].snapshots;
    assert after[|after| - 1] in after;
  }

  /** And a read begun at it, however much later, returns what the history said when it was taken. */
  lemma SnapshotReadsItsMoment(states: seq<Store>, events: seq<Event>, i: nat, b: nat, j: nat, id: nat, k: UserKey)
    requires IsRun(states, events) && NothingUncovered(states, events, Running) && GapsKept(states, events)
    requires i < b < j < |states| && events[i] == TakeSnapshotEvent && events[b] == BeginGetEvent(id, Taken(states, i))
    requires id in states[j].readers && states[j].readers[id] == states[b + 1].readers[id]
    ensures Result(states[j], states[j].readers[id], k) == ValueOf(ReadAt(states[i].history, k, states[i].last))
  {
    hide NothingUncovered, GapsKept, Result, ReadAt;
    SnapshotIsLast(states, events, i);
    GetReturnsHistory(states, events, b, j, id, Taken(states, i), k);
    HistoryIsFixed(states, events, i, b, k, states[i].last);
  }

  /** The least number any read may still begin at, and so the most that a compaction may go by: the smallest
      snapshot is the oldest live one, or LastSequence. */
  lemma SmallestIsOldest(states: seq<Store>, events: seq<Event>, i: nat, t: nat)
    requires IsRun(states, events) && i < |states|
    ensures AtOrAbove(t, states[i].snapshots, states[i].last) <==> t <= SmallestSnapshot(states[i])
    ensures forall id :: id !in states[i].readers ==> Enabled(states[i], BeginGetEvent(id, SmallestSnapshot(states[i])))
  {
    hide LiveOk, ReadersOk, CompactionOk, FlushOk, DiskOk, LogsOk, SequencesOk, Shape, IsRun;
    RunKeeps(states, events, i);
  }

  lemma BeginsAtSmallest(s: Store, e: Event)
    requires Enabled(s, e) && e.BeginCompactionEvent?
    ensures Step(s, e).compaction.Some? && Step(s, e).compaction.value.smallestSnapshot == SmallestSnapshot(s)
    ensures Step(s, e).compaction.value.inputs == e.inputs && Step(s, e).compaction.value.base == e.base
  {
    hide SmallestSnapshot, InputsOk, BaseOk, TakesOverlapping;
  }

  lemma GoesByTheSame(s: Store, e: Event)
    requires Enabled(s, e) && s.compaction.Some? && Step(s, e).compaction.Some?
    ensures var c, d := s.compaction.value, Step(s, e).compaction.value;
            d.smallestSnapshot == c.smallestSnapshot && d.inputs == c.inputs && d.base == c.base && d.level == c.level
  {
    hide EntriesOf, IsLive, PlacementOk, IsNext, Dropped, InputsOk, BaseOk, TakesOverlapping, Memtable, OutputFiles,
         OutputNumbers, SmallestSnapshot;
  }

  /** What a compaction goes by, from its begin to its end, is the oldest snapshot live when it began: everything no
      read could tell apart any more is its to drop, and nothing else. */
  lemma {:induction false} GoesByOldest(states: seq<Store>, events: seq<Event>, i: nat, j: nat, t: nat)
    requires IsRun(states, events) && i < j < |states| && events[i].BeginCompactionEvent?
    requires forall m :: i < m <= j ==> states[m].compaction.Some?
    ensures t <= states[j].compaction.value.smallestSnapshot <==> AtOrAbove(t, states[i].snapshots, states[i].last)
    ensures states[j].compaction.value.inputs == events[i].inputs && states[j].compaction.value.base == events[i].base
    decreases j
  {
    hide Enabled, Step, SmallestSnapshot, AtOrAbove;
    if j == i + 1 {
      BeginsAtSmallest(states[i], events[i]);
      SmallestIsOldest(states, events, i, t);
    } else {
      GoesByOldest(states, events, i, j - 1, t);
      assert states[j - 1].compaction.Some? && states[j].compaction.Some?;
      GoesByTheSame(states[j - 1], events[j - 1]);
    }
  }
}
