/** What the engine promises over every run: groups appear at once, history is fixed, and no file in use is
    deleted; and, as long as its compactions uncover no value and close over no flushed file, reads agree with
    the history of all writes and nothing written is lost. */
module StoreTheorems {
  import opened InternalKeys
  import opened Options
  import opened Stores
  import opened StoreRuns
  import opened StoreInvariant
  import opened StoreWrites
  import opened StoreFlushes
  import opened StoreCompactions
  import opened StoreComplete
  import opened StoreReads
  import opened StoreSorted

  lemma StepKeeps(s: Store, e: Event)
    requires Inv(s) && Enabled(s, e)
    ensures Inv(Step(s, e))
  {
    hide Inv;
    match e
    case BeginWriteEvent(ops) => BeginWriteKeeps(s, ops);
    case LogWriteEvent => LogWriteKeeps(s);
    case InsertNextEvent => InsertNextKeeps(s);
    case EndWriteEvent => EndWriteKeeps(s);
    case FailLogEvent => EndWriteKeeps(s);
    case FailSyncEvent => FailSyncKeeps(s);
    case RotateEvent => RotateKeeps(s);
    case TakeSnapshotEvent => TakeSnapshotKeeps(s);
    case ReleaseSnapshotEvent(i) => ReleaseSnapshotKeeps(s, i);
    case BeginGetEvent(id, snapshot) => BeginGetKeeps(s, id, snapshot);
    case EndGetEvent(id) => EndGetKeeps(s, id);
    case BeginFlushEvent => BeginFlushKeeps(s);
    case WriteTableEvent(to) => WriteTableKeeps(s, to);
    case InstallFlushEvent => InstallFlushKeeps(s);
    case FailFlushEvent => FailFlushKeeps(s);
    case BeginCompactionEvent(level, inputs, base) => BeginCompactionKeeps(s, level, inputs, base);
    case OpenOutputEvent => OpenOutputKeeps(s);
    case ProcessEvent(f, k, n) => ProcessKeeps(s, f, k, n);
    case FinishOutputEvent => FinishOutputKeeps(s);
    case InstallCompactionEvent => InstallCompactionKeeps(s);
    case FailCompactionEvent => FailCompactionKeeps(s);
    case TrivialMoveEvent(f) => TrivialMoveKeeps(s, f);
  }

  lemma {:induction false} RunKeeps(states: seq<Store>, events: seq<Event>, i: nat)
    requires IsRun(states, events) && i < |states|
    ensures Inv(states[i])
  {
    if i == 0 {
      InitOk();
    } else {
      RunKeeps(states, events, i - 1);
      StepKeeps(states[i - 1], events[i - 1]);
    }
  }

  /** Runs whose compactions drop no marker over an older entry left in the next level. */
  lemma {:induction false} RunKeepsComplete(states: seq<Store>, events: seq<Event>, i: nat)
    requires IsRun(states, events) && MarkersKept(states, events) && i < |states|
    ensures Complete(states[i])
  {
    hide Inv, Complete, Enabled, Step, MarkersOk;
    if i == 0 {
      StartsComplete();
    } else {
      RunKeeps(states, events, i - 1);
      RunKeepsComplete(states, events, i - 1);
      StepKeepsComplete(states[i - 1], events[i - 1]);
    }
  }

  lemma StartsComplete()
    ensures Complete(Init()) && SortedState(Init())
  {
  }

  /** Runs whose compactions uncover no value: every read under way and every read that may begin is right. */
  lemma {:induction false} RunKeepsRight(states: seq<Store>, events: seq<Event>, i: nat, scope: Scope)
    requires IsRun(states, events) && NothingUncovered(states, events, scope) && i < |states|
    ensures Right(states[i], scope)
  {
    hide Inv, Right, Enabled, Step, UncoversNothing;
    if i == 0 {
      StartsRight(scope);
    } else {
      RunKeeps(states, events, i - 1);
      RunKeeps(states, events, i);
      RunKeepsRight(states, events, i - 1, scope);
      if events[i - 1] == InstallCompactionEvent {
        InstallNeedsCompaction(states[i - 1], events[i - 1]);
      }
      StepKeepsRight(states[i - 1], events[i - 1], scope);
    }
  }

  lemma StartsRight(scope: Scope)
    ensures Right(Init(), scope)
  {
    hide NewestIn, ReadAt;
    forall k, t: nat
      ensures ReadsRight(Now(Init()), Init().history, k, t)
    {
      NoneIsRead(Now(Init()), map[], k, t);
      ReadAtIs(map[], k, t);
    }
  }

  /** The condition is exact over runs: reads are right in every state if and only if no compaction uncovers a
      value when it is installed. */
  lemma ReadsAreRightExactly(states: seq<Store>, events: seq<Event>, scope: Scope)
    requires IsRun(states, events)
    ensures (forall i :: 0 <= i < |states| ==> LiveRight(states[i], scope)) <==> NothingUncovered(states, events, scope)
  {
    hide Inv, LiveRight, ReadersRight, UncoversNothing;
    if NothingUncovered(states, events, scope) {
      forall i | 0 <= i < |states|
        ensures LiveRight(states[i], scope)
      {
        RunKeepsRight(states, events, i, scope);
      }
    } else {
      var i :| 0 <= i < |events| && events[i] == InstallCompactionEvent && states[i].compaction.Some?
        && !UncoversNothing(states[i], scope);
      RunKeeps(states, events, i);
      if LiveRight(states[i], scope) {
        assert Enabled(states[i], events[i]);
        UncoveringGoesWrong(states[i], scope);
        assert !LiveRight(states[i + 1], scope);
      }
    }
  }

  /** Runs that drop no marker over an older entry are among them. */
  lemma KeptUncoversNothing(states: seq<Store>, events: seq<Event>, scope: Scope)
    requires IsRun(states, events) && MarkersKept(states, events)
    ensures NothingUncovered(states, events, scope)
  {
    hide Inv, MarkersKept, LiveComplete, ReadersComplete, MarkersStayOk, UncoversNothing, Enabled, Step;
    forall i | 0 <= i < |events| && events[i] == InstallCompactionEvent && states[i].compaction.Some?
      ensures UncoversNothing(states[i], scope)
    {
      RunKeeps(states, events, i);
      RunKeepsComplete(states, events, i);
      MarkersUncoverNothing(states[i], scope);
    }
  }

  /** Runs whose compactions close over no file flushed meanwhile: every level of every version in use is
      sorted. */
  lemma {:induction false} RunKeepsSorted(states: seq<Store>, events: seq<Event>, i: nat)
    requires IsRun(states, events) && GapsKept(states, events) && i < |states|
    ensures SortedState(states[i])
  {
    hide Inv, SortedState, Enabled, Step, NoGapFilled;
    if i == 0 {
      StartsComplete();
    } else {
      RunKeeps(states, events, i - 1);
      RunKeepsSorted(states, events, i - 1);
      if events[i - 1] == InstallCompactionEvent {
        InstallNeedsCompaction(states[i - 1], events[i - 1]);
      }
      StepKeepsSorted(states[i - 1], events[i - 1]);
    }
  }

  lemma InstallNeedsCompaction(s: Store, e: Event)
    requires Enabled(s, e) && e == InstallCompactionEvent
    ensures s.compaction.Some?
  {
  }

  // ----- Reads -------------------------------------------------------------------------

  /** No event changes what the history says up to LastSequence. */
  lemma StepKeepsHistory(s: Store, e: Event)
    requires Inv(s) && Enabled(s, e)
    ensures Step(s, e).last >= s.last
    ensures forall k, n: nat :: n <= s.last ==>
              ((k, n) in Step(s, e).history <==> (k, n) in s.history)
              && ((k, n) in s.history ==> Step(s, e).history[(k, n)] == s.history[(k, n)])
  {
    hide Shape, LiveOk, ReadersOk, FlushOk, CompactionOk, DiskOk, LogsOk, SequencesOk, SnapshotsOk;
  }

  lemma {:induction false} HistoryIsFixed(states: seq<Store>, events: seq<Event>, i: nat, j: nat, k: UserKey, t: nat)
    requires IsRun(states, events) && i <= j < |states| && t <= states[i].last
    ensures t <= states[j].last && ReadAt(states[j].history, k, t) == ReadAt(states[i].history, k, t)
    decreases j - i
  {
    if i < j {
      RunKeeps(states, events, i);
      StepKeepsHistory(states[i], events[i]);
      SameHistorySameReads(states[i].history, states[i + 1].history, k, t);
      HistoryIsFixed(states, events, i + 1, j, k, t);
    }
  }

  /** A read may begin at any live snapshot or at LastSequence, and may end any number of events
      later: memtables have been rotated, flushed and compacted meanwhile. As long as the compactions of
      the run uncover no value and close over no flushed file, it returns what the history of all writes said
      about its snapshot when it began. */
  lemma GetReturnsHistory(states: seq<Store>, events: seq<Event>, i: nat, j: nat, id: nat, snapshot: nat, k: UserKey)
    requires IsRun(states, events) && NothingUncovered(states, events, Running) && GapsKept(states, events)
             && i < j < |states|
    requires events[i] == BeginGetEvent(id, snapshot)
    requires id in states[j].readers && states[j].readers[id] == states[i + 1].readers[id]
    ensures Result(states[j], states[j].readers[id], k) == ValueOf(ReadAt(states[i].history, k, snapshot))
  {
    hide ReadsRight, Sound, Get, ReadAt, Result, CompactionOk, DiskOk, FlushOk, LogsOk, LiveOk, SequencesOk, Shape,
         SnapshotsOk, LiveRight, SortedLevels, RangesOk, NothingUncovered, GapsKept;
    RunKeeps(states, events, i);
    RunKeeps(states, events, j);
    RunKeepsRight(states, events, j, Running);
    RunKeepsSorted(states, events, j);
    var s, r := states[j], states[j].readers[id];
    assert r.snapshot == snapshot <= states[i].last by {
      SnapshotReached(states[i], snapshot, id);
    }
    assert ReaderOk(s, r);
    ReaderGetsHistory(s, r, k);
    HistoryIsFixed(states, events, i, j, k, snapshot);
  }

  lemma SnapshotReached(s: Store, snapshot: nat, id: nat)
    requires Inv(s) && CanBeginGet(s, id, snapshot)
    ensures snapshot <= s.last
  {
    assert SnapshotsOk(s);
  }

  lemma ReaderGetsHistory(s: Store, r: Reader, k: UserKey)
    requires ReaderOk(s, r) && ReadsRight(Pinned(s, r), s.history, k, r.snapshot) && SortedLevels(r.version)
    ensures Result(s, r, k) == ValueOf(ReadAt(s.history, k, r.snapshot))
  {
    hide Search, WhollyBefore, NewestIn, ReadAt;
    var fs := Pinned(s, r);
    PinnedSorted(s, r);
    SearchFindsNewest(fs, s.nextFile, MEM_LEVEL, s.history, k, r.snapshot);
    NewestInIs(fs, s.history, k, r.snapshot);
    SameFound(fs, s.history, k, r.snapshot, Search(fs, s.nextFile, MEM_LEVEL, k, r.snapshot),
      NewestIn(fs, k, r.snapshot));
  }

  /** There is one newest visible entry. */
  lemma SameFound(fs: set<File>, history: Table, k: UserKey, t: nat, c: Option<Cell>, d: Option<Cell>)
    requires Finds(fs, history, k, t, c) && Finds(fs, history, k, t, d)
    ensures c == d
  {
    hide Holds;
    if c.Some? {
      var m: nat :| NewestHeld(fs, k, m, t) && (k, m) in history && history[(k, m)] == c.value;
    }
    if d.Some? {
      var n: nat :| NewestHeld(fs, k, n, t) && (k, n) in history && history[(k, n)] == d.value;
    }
  }

  lemma PinnedSorted(s: Store, r: Reader)
    requires SortedLevels(r.version)
    ensures SortedLevels(Pinned(s, r))
  {
    hide WhollyBefore;
  }

  /** A group becomes visible at once: before it ends no read sees any of it, and afterwards the
      history beyond the old LastSequence is exactly the group. */
  lemma GroupIsAtomic(states: seq<Store>, events: seq<Event>, i: nat, k: UserKey, n: nat)
    requires IsRun(states, events) && i < |events| && events[i] == EndWriteEvent
    ensures var s := states[i];
            var group := EntriesOf(s.write.value.ops, s.last + 1);
            && (forall id :: id in s.readers ==> s.readers[id].snapshot <= s.last)
            && states[i + 1].last == s.last + |s.write.value.ops| && states[i + 1].history == s.history
            && (n > s.last ==>
              ((k, n) in s.history <==> (k, n) in group) && ((k, n) in group ==> s.history[(k, n)] == group[(k, n)]))
  {
    hide CompleteAt, Sound, CompactionOk, DiskOk, FlushOk, LogsOk, EntriesOf;
    RunKeeps(states, events, i);
    var s := states[i];
    assert Enabled(s, events[i]);
    EntriesAre(s.write.value.ops, s.last + 1);
    forall id | id in s.readers
      ensures s.readers[id].snapshot <= s.last
    {
      assert ReaderOk(s, s.readers[id]);
    }
  }

  // ----- Durability --------------------------------------------------------------------

  /** What recovery starts from: the files of the current version and the logs from LogNumber on. */
  ghost function Recoverable(s: Store): set<File>
  {
    s.current + (set i | i in s.logs && i >= s.logNumber :: File(i, MEM_LEVEL, s.logs[i]))
  }

  lemma RecoverableHolds(s: Store, k: UserKey, n: nat)
    requires Shape(s) && LogsOk(s) && Holds(Now(s), k, n)
    ensures Holds(Recoverable(s), k, n)
  {
    hide IsOf, CellOf;
    var f :| f in Now(s) && (k, n) in f.table;
    if f !in s.current {
      assert File(f.number, MEM_LEVEL, s.logs[f.number]) in Recoverable(s);
    }
  }

  lemma RecoverableIsKnown(s: Store, f: File, k: UserKey, n: nat)
    requires Shape(s) && LogsOk(s) && LiveOk(s) && f in Recoverable(s) && (k, n) in f.table
    ensures (k, n) in s.lost || InFlight(s, k, n)
            || (Holds(Now(s), k, n) && (k, n) in s.history && s.history[(k, n)] == f.table[(k, n)])
  {
    hide IsOf, CellOf, AgeOrdered, WithinBounds;
    var mem := File(s.logfile, MEM_LEVEL, Memtable(s.memtables, s.logfile));
    assert mem in Now(s);
    if f in s.current {
      assert f in Now(s);
    } else if f.number != s.logfile {
      assert File(f.number, IMM_LEVEL, f.table) in Now(s);
    } else if (k, n) in mem.table {
      assert s.history[(k, n)] == mem.table[(k, n)];
    }
  }

  /** The disk always holds enough: at any moment, recovery from the current version and the logs it
      still needs finds for every key what the history says, at LastSequence and back to the horizon, and below
      it what has not reached a file yet, provided no sync has failed up to there and no compaction has
      uncovered a value. */
  lemma WritesAreDurable(states: seq<Store>, events: seq<Event>, i: nat, k: UserKey, t: nat, scope: Scope)
    requires IsRun(states, events) && NothingUncovered(states, events, scope) && i < |states|
    requires InScope(states[i], t, scope) && t <= states[i].last
    requires forall j, m: nat :: (j, m) in states[i].lost ==> t < m
    ensures ValueOf(NewestIn(Recoverable(states[i]), k, t)) == ValueOf(ReadAt(states[i].history, k, t))
  {
    hide NothingUncovered, InScope, Recoverable, NewestIn, ReadAt, Inv, PartOf, ReadersRight;
    RunKeeps(states, events, i);
    RunKeepsRight(states, events, i, scope);
    var s := states[i];
    assert ReadsRight(Now(s), s.history, k, t);
    RecoverablePart(s, t);
    NowIsPartUpTo(s, t);
    forall m: nat | m <= t
      ensures Holds(Recoverable(s), k, m) <==> Holds(Now(s), k, m)
    {
      RecoverableIsNow(s, t, k, m);
    }
    SameNewest(Recoverable(s), Now(s), s.history, s.history, k, t, t);
  }

  lemma NowIsPartUpTo(s: Store, t: nat)
    requires Inv(s)
    ensures PartOfUpTo(Now(s), s.history, t)
  {
    NowIsPart(s);
  }

  /** Up to LastSequence nothing else is recovered than what is in the files and memtables. */
  lemma RecoverableIsNow(s: Store, t: nat, k: UserKey, m: nat)
    requires Inv(s) && m <= t <= s.last && forall j, n: nat :: (j, n) in s.lost ==> t < n
    ensures Holds(Recoverable(s), k, m) <==> Holds(Now(s), k, m)
  {
    hide LogsOk, Shape, Recoverable, ReadersOk, DiskOk, CompactionOk, FlushOk, LiveOk, SequencesOk, SnapshotsOk;
    if Holds(Now(s), k, m) {
      RecoverableHolds(s, k, m);
    }
    if f :| f in Recoverable(s) && (k, m) in f.table {
      RecoverableIsKnown(s, f, k, m);
    }
  }

  lemma RecoverablePart(s: Store, t: nat)
    requires Inv(s) && t <= s.last
    requires forall j, m: nat :: (j, m) in s.lost ==> t < m
    ensures PartOfUpTo(Recoverable(s), s.history, t)
  {
    hide LiveOk, LogsOk, Shape, Recoverable, SequencesOk, ReadersOk, DiskOk, CompactionOk, FlushOk;
    forall f, k, n: nat | f in Recoverable(s) && (k, n) in f.table && n <= t
      ensures (k, n) in s.history && s.history[(k, n)] == f.table[(k, n)]
    {
      RecoverableIsKnown(s, f, k, n);
    }
  }

  lemma LostOnlyAfterFailedSync(states: seq<Store>, events: seq<Event>, i: nat, k: UserKey, n: nat)
    requires IsRun(states, events) && i < |states| && (k, n) in states[i].lost
    ensures states[i].bgError && states[i].write == None
  {
    hide LiveOk, LogsOk, Shape, ReadersOk, DiskOk, CompactionOk, FlushOk;
    RunKeeps(states, events, i);
  }

  // ----- Obsolete files ----------------------------------------------------------------

  /** No file of the current version, of a version a reader or a compaction still uses, and no
      finished output of an uninstalled compaction is ever deleted, even when a flush nested in the
      compaction collects garbage; and the logs of both memtables are kept. */
  lemma NothingNeededIsDeleted(states: seq<Store>, events: seq<Event>, i: nat)
    requires IsRun(states, events) && i < |states|
    ensures var s := states[i];
            && (forall f :: IsLive(s, f) ==> f.number in s.disk && s.disk[f.number] == f.table)
            && (s.compaction.Some? ==> forall o :: o in s.compaction.value.outputs ==>
                                         o.number in s.disk && s.disk[o.number] == o.table)
            && s.logfile in s.logs && (s.imm.Some? ==> s.imm.value in s.logs)
  {
    hide LiveOk, ReadersOk, CompactionOk, FlushOk, SequencesOk;
    RunKeeps(states, events, i);
  }

  // ----- Snapshots ---------------------------------------------------------------------

  /** A sequence number at or below LastSequence and every live snapshot stays so: smallest_snapshot,
      captured once when a compaction starts, is never above a snapshot live or taken later. */
  lemma {:induction false} SnapshotFloor(states: seq<Store>, events: seq<Event>, i: nat, j: nat, t: nat)
    requires IsRun(states, events) && i <= j < |states|
    requires AtOrAbove(t, states[i].snapshots, states[i].last)
    ensures AtOrAbove(t, states[j].snapshots, states[j].last)
    decreases j - i
  {
    if i < j {
      hide Inv;
      RunKeeps(states, events, i);
      StepKeepsHistory(states[i], events[i]);
      StepKeepsFloor(states[i], events[i], t);
      SnapshotFloor(states, events, i + 1, j, t);
    }
  }

  lemma StepKeepsFloor(s: Store, e: Event, t: nat)
    requires Enabled(s, e) && AtOrAbove(t, s.snapshots, s.last) && Step(s, e).last >= s.last
    ensures AtOrAbove(t, Step(s, e).snapshots, Step(s, e).last)
  {
  }
}
