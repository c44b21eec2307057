/** The work compactions and garbage collection must get done: outputs hold nothing that no read needs, inputs
    leave their levels, and files that nothing uses any more are deleted. */
module StoreUpkeep {
  import opened InternalKeys
  import opened Options
  import opened Stores
  import opened StoreRuns
  import opened StoreInvariant
  import opened StoreCompactions
  import opened StoreComplete
  import opened StoreTheorems

  // ----- What a compaction keeps -------------------------------------------------------

  /** Above the smallest snapshot every entry is needed; up to it the one that a read of the inputs finds there,
      unless it is a deletion marker at its base level. */
  ghost predicate Needed(c: Compaction, history: Table, k: UserKey, n: nat)
  {
    && Holds(c.inputs, k, n) && (k, n) in history
    && (n > c.smallestSnapshot
        || (NewestHeld(c.inputs, k, n, c.smallestSnapshot) && (history[(k, n)] == Del ==> k !in c.base)))
  }

  lemma DroppedIsNotNeeded(c: Compaction, history: Table, f: File, k: UserKey, n: nat)
    requires PartOf(c.inputs, history) && f in c.inputs && (k, n) in f.table
    ensures Needed(c, history, k, n) <==> !Dropped(c, k, n, f.table[(k, n)])
  {
    assert Holds(c.inputs, k, n);
  }

  lemma OutputsAreNeeded(c: Compaction, history: Table, k: UserKey, n: nat)
    requires PartOf(c.inputs, history) && OutputsOk(c) && AllProcessed(c)
    ensures Holds(OutputFiles(c), k, n) <==> Needed(c, history, k, n)
  {
    hide Dropped, PartOf;
    if a :| a in OutputFiles(c) && (k, n) in a.table {
      var f := OutputComesFrom(c, a, k, n);
      DroppedIsNotNeeded(c, history, f, k, n);
    }
    if f :| f in c.inputs && (k, n) in f.table {
      DroppedIsNotNeeded(c, history, f, k, n);
      if Needed(c, history, k, n) {
        var o :| o in Made(c) && (k, n) in o.table;
        assert File(o.number, c.level + 1, o.table) in OutputFiles(c);
      }
    }
  }

  lemma OutputsAreNew(s: Store)
    requires Inv(s) && CanInstallCompaction(s)
    ensures var c := s.compaction.value;
            && OutputFiles(c) !! s.current && PartOf(c.inputs, s.history) && OutputsOk(c) && AllProcessed(c)
            && c.inputs <= s.current
  {
    hide InputsOk, BaseOk, OutputsOk, AgeOrdered, WithinBounds, FlushOk, LogsOk, SequencesOk, SnapshotsOk;
    var c := s.compaction.value;
    forall f | f in OutputFiles(c)
      ensures f !in s.current
    {
      assert IsLive(s, f) ==> f.number !in s.pending;
    }
    assert c.inputs <= s.current by { InputsThere(s.current, c.level, c.inputs); }
    assert forall f :: f in c.inputs ==> f in Now(s);
  }

  /** The files a compaction adds are at the output level and hold just the entries that are needed; none of
      its inputs is left in the version. */
  lemma InstalledIsNeeded(states: seq<Store>, events: seq<Event>, i: nat, k: UserKey, n: nat)
    requires IsRun(states, events) && i < |events| && events[i] == InstallCompactionEvent
    ensures states[i].compaction.Some?
    ensures var s, t, c := states[i], states[i + 1], states[i].compaction.value;
            var added := t.current - s.current;
            && (forall f :: f in added ==> f.level == c.level + 1) && c.inputs !! t.current
            && t.current == s.current - c.inputs + added
            && (Holds(added, k, n) <==> Needed(c, s.history, k, n))
  {
    hide Inv, OutputsOk, AllProcessed, Needed, Holds, PartOf, IsLive;
    RunKeeps(states, events, i);
    assert Enabled(states[i], events[i]);
    var s, t, c := states[i], states[i + 1], states[i].compaction.value;
    OutputsAreNew(s);
    assert t.current - s.current == OutputFiles(c);
    OutputsAreNeeded(c, s.history, k, n);
  }

  /** So up to the smallest snapshot an added file and another never hold two entries of a key, and a deletion
      marker is there only for a key that may have something deeper down. */
  lemma InstalledIsLean(states: seq<Store>, events: seq<Event>, i: nat, f: File, g: File, k: UserKey, m: nat, n: nat)
    requires IsRun(states, events) && i < |events| && events[i] == InstallCompactionEvent
    requires f in states[i + 1].current - states[i].current && g in states[i + 1].current - states[i].current
    requires (k, m) in f.table && (k, n) in g.table
    ensures states[i].compaction.Some?
    ensures var c := states[i].compaction.value;
            m <= c.smallestSnapshot ==>
              && (n <= c.smallestSnapshot ==> m == n)
              && (f.table[(k, m)] == Del ==> k !in c.base)
  {
    hide Enabled, Step;
    InstalledIsNeeded(states, events, i, k, m);
    InstalledIsNeeded(states, events, i, k, n);
    var added := states[i + 1].current - states[i].current;
    assert Holds(added, k, m) && Holds(added, k, n);
    InstalledIsHistory(states, events, i, f, k, m);
  }

  lemma InstalledIsHistory(states: seq<Store>, events: seq<Event>, i: nat, f: File, k: UserKey, m: nat)
    requires IsRun(states, events) && i < |events| && f in states[i + 1].current && (k, m) in f.table
    requires events[i] == InstallCompactionEvent
    ensures (k, m) in states[i].history && states[i].history[(k, m)] == f.table[(k, m)]
  {
    hide AgeOrdered, WithinBounds, ReadersOk, FlushOk, CompactionOk, DiskOk, LogsOk, SequencesOk, SnapshotsOk, Shape,
         Enabled;
    RunKeeps(states, events, i + 1);
    assert states[i + 1] == Step(states[i], events[i]);
    assert f in Now(states[i + 1]);
  }

  /** A file that overlaps nothing below is moved there, and nothing else changes. */
  lemma MovedIsBelow(states: seq<Store>, events: seq<Event>, i: nat, f: File, g: File)
    requires IsRun(states, events) && i < |events| && events[i] == TrivialMoveEvent(f)
    ensures f !in states[i + 1].current && f.(level := f.level + 1) in states[i + 1].current
    ensures g != f && g != f.(level := f.level + 1) ==> (g in states[i + 1].current <==> g in states[i].current)
  {
    hide InputsOk, TakesOverlapping;
    assert states[i + 1] == Step(states[i], events[i]) && Enabled(states[i], events[i]);
  }

  // ----- After an error ----------------------------------------------------------------

  lemma StepKeepsError(s: Store, e: Event)
    requires Enabled(s, e)
    ensures s.bgError ==> Step(s, e).bgError
    ensures e == FailSyncEvent || e == FailFlushEvent || e == FailCompactionEvent ==> Step(s, e).bgError
  {
    hide EntriesOf, IsLive, PlacementOk, IsNext, Dropped, InputsOk, BaseOk, TakesOverlapping, Memtable, OutputFiles,
         OutputNumbers, SmallestSnapshot;
  }

  /** After a failed sync, flush or compaction no write is accepted any more, no memtable rotated, and no
      compaction begun. */
  lemma {:induction false} ErrorsStick(states: seq<Store>, events: seq<Event>, i: nat, j: nat)
    requires IsRun(states, events) && i < j < |states|
    requires events[i] == FailSyncEvent || events[i] == FailFlushEvent || events[i] == FailCompactionEvent
    ensures states[j].bgError && !Enabled(states[j], RotateEvent)
    ensures forall ops :: !Enabled(states[j], BeginWriteEvent(ops))
    ensures forall level, inputs, base :: !Enabled(states[j], BeginCompactionEvent(level, inputs, base))
    decreases j
  {
    hide Step, InputsOk, BaseOk, TakesOverlapping;
    StepKeepsError(states[j - 1], events[j - 1]);
    if j > i + 1 {
      ErrorsStick(states, events, i, j - 1);
    }
  }

  lemma StepKeepsFiles(s: Store, e: Event, n: nat)
    requires Enabled(s, e) && s.bgError
    ensures n in s.disk ==> n in Step(s, e).disk
    ensures n in s.logs ==> n in Step(s, e).logs
  {
    hide EntriesOf, IsLive, PlacementOk, IsNext, Dropped, InputsOk, BaseOk, TakesOverlapping, Memtable, OutputFiles,
         OutputNumbers, SmallestSnapshot;
  }

  /** And whatever is on disk then stays there: it is not known which version the manifest holds. */
  lemma {:induction false} ErrorsKeepFiles(states: seq<Store>, events: seq<Event>, i: nat, j: nat, n: nat)
    requires IsRun(states, events) && i <= j < |states| && states[i].bgError
    ensures states[j].bgError
    ensures n in states[i].disk ==> n in states[j].disk
    ensures n in states[i].logs ==> n in states[j].logs
    decreases j
  {
    hide Enabled, Step;
    if i < j {
      ErrorsKeepFiles(states, events, i, j - 1, n);
      StepKeepsFiles(states[j - 1], events[j - 1], n);
      StepKeepsError(states[j - 1], events[j - 1]);
    }
  }

  // ----- What is deleted ---------------------------------------------------------------

  /** When a flush or a compaction has been installed and no error is pending, nothing is left on disk but the
      files of versions in use and of work in progress, and no log but those of the two memtables. */
  lemma ObsoleteIsDeleted(states: seq<Store>, events: seq<Event>, i: nat, n: nat)
    requires IsRun(states, events) && i < |events| && !states[i].bgError
    requires events[i] == InstallFlushEvent || events[i] == InstallCompactionEvent
    ensures var t := states[i + 1];
            && (n in t.disk ==> n in t.pending || exists f :: IsLive(t, f) && f.number == n)
            && (n in t.logs ==> n == t.logfile || t.imm == Some(n))
  {
    hide Inv;
    RunKeeps(states, events, i + 1);
    var s, t := states[i], states[i + 1];
    assert t == Step(s, events[i]) && Enabled(s, events[i]);
    OnlyLiveOnDisk(if events[i] == InstallFlushEvent then InstallFlush(s) else InstallCompaction(s), n);
    NeededLogs(t, n);
  }

  lemma OnlyLiveOnDisk(s: Store, n: nat)
    requires !s.bgError
    ensures var t := DeleteObsoleteFiles(s);
            && (n in t.disk ==> n in t.pending || exists f :: IsLive(t, f) && f.number == n)
            && (n in t.logs ==> n >= t.logNumber)
  {
    var t := DeleteObsoleteFiles(s);
    assert forall f :: IsLive(s, f) <==> IsLive(t, f);
  }

  lemma NeededLogs(s: Store, n: nat)
    requires Inv(s)
    ensures n in s.logs && n >= s.logNumber ==> n == s.logfile || s.imm == Some(n)
  {
    hide LiveOk, ReadersOk, FlushOk, CompactionOk, DiskOk, SequencesOk, SnapshotsOk, Shape;
  }

  /** A file number is protected from deletion only for a table that is being written. */
  ghost predicate PendingIsWork(s: Store)
  {
    forall n :: n in s.pending ==>
      || (s.flush.Some? && s.flush.value.Building? && s.flush.value.number == n)
      || (s.compaction.Some? && n in OutputNumbers(s.compaction.value))
  }

  lemma StepKeepsPending(s: Store, e: Event)
    requires Inv(s) && Enabled(s, e) && PendingIsWork(s)
    ensures PendingIsWork(Step(s, e))
  {
    hide LiveOk, ReadersOk, CompactionOk, DiskOk, LogsOk, SequencesOk, SnapshotsOk, Shape, FlushOk, EntriesOf, IsLive,
         PlacementOk, IsNext, Dropped, InputsOk, BaseOk, TakesOverlapping, Memtable, OutputFiles, SmallestSnapshot;
  }

  lemma {:induction false} OnlyWorkIsPending(states: seq<Store>, events: seq<Event>, i: nat)
    requires IsRun(states, events) && i < |states|
    ensures PendingIsWork(states[i])
  {
    hide Inv, Enabled, Step, PendingIsWork;
    if i == 0 {
      assert PendingIsWork(Init()) by { NothingIsPending(); }
    } else {
      RunKeeps(states, events, i - 1);
      OnlyWorkIsPending(states, events, i - 1);
      StepKeepsPending(states[i - 1], events[i - 1]);
    }
  }

  lemma NothingIsPending()
    ensures PendingIsWork(Init())
  {
  }
}
