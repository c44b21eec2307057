/** What holds in every reachable state of the engine, whatever the compactions drop. */
module StoreInvariant {
  import opened InternalKeys
  import opened Options
  import opened Stores
  import opened StoreRuns

  /** Lookups in these files find the newest cell of the history that they hold. */
  ghost predicate Sound(fs: set<File>, history: Table, bound: nat)
  {
    AgeOrdered(fs) && PartOf(fs, history) && WithinBounds(fs, bound)
  }

  ghost predicate InLevels(version: set<File>)
  {
    forall f :: f in version ==> 0 <= f.level
  }

  ghost predicate Shape(s: Store)
  {
    && InLevels(s.current)
    && s.logfile in s.memtables && s.logfile in s.logs && s.logfile < s.nextFile
    && (s.imm.Some? ==> s.imm.value in s.memtables && s.imm.value in s.logs && s.imm.value < s.logfile)
    && (forall i :: i in s.memtables ==> i <= s.logfile)
    && (forall i :: i in s.logs ==> i <= s.logfile)
    && (forall i :: i in s.disk ==> i < s.nextFile)
    && (forall i :: i in s.pending ==> i < s.nextFile)
    && (s.write.Some? ==>
      s.write.value.inserted <= |s.write.value.ops| && (s.write.value.inserted > 0 ==> s.write.value.logged))
  }

  /** The largest sequence number in use. */
  function Reached(s: Store): nat
  {
    s.last + (if s.write.Some? then s.write.value.inserted else 0)
  }

  predicate IsOf(ops: seq<Op>, first: nat, k: UserKey, n: nat)
  {
    first <= n < first + |ops| && ops[n - first].key == k
  }

  function CellOf(ops: seq<Op>, first: nat, n: nat): Cell
  {
    if first <= n < first + |ops| then ops[n - first].cell else Del
  }

  /** Beyond LastSequence the history holds just what the group has inserted so far. */
  ghost predicate InsertedSoFar(s: Store)
  {
    s.write.Some? ==>
      forall k, n: nat :: n > s.last ==>
        && ((k, n) in s.history <==> IsOf(s.write.value.ops, s.last + 1, k, n) && n <= Reached(s))
        && ((k, n) in s.history ==> s.history[(k, n)] == CellOf(s.write.value.ops, s.last + 1, n))
  }

  ghost predicate SequencesOk(s: Store)
  {
    && InsertedSoFar(s)
    && (forall k, n: nat :: (k, n) in s.history ==> n <= Reached(s))
    && (forall k, m: nat :: (k, m) in s.lost ==> s.bgError && s.write == None && m <= s.last)
    && (forall k, m: nat, j, n: nat :: (k, m) in s.lost && (j, n) in s.history ==> n < m)
  }

  /** No snapshot, live or future, is below any smallest_snapshot that has been used. */
  ghost predicate AtOrAbove(t: nat, snapshots: seq<nat>, last: nat)
  {
    t <= last && forall i :: 0 <= i < |snapshots| ==> t <= snapshots[i]
  }

  ghost predicate SnapshotsOk(s: Store)
  {
    && AtOrAbove(s.horizon, s.snapshots, s.last)
    && (s.compaction.Some? ==>
      AtOrAbove(s.compaction.value.smallestSnapshot, s.snapshots, s.last)
      && s.horizon <= s.compaction.value.smallestSnapshot)
    && (forall i, j :: 0 <= i < j < |s.snapshots| ==> s.snapshots[i] <= s.snapshots[j])
    && (forall i :: 0 <= i < |s.snapshots| ==> s.snapshots[i] <= s.last)
  }

  ghost predicate LiveOk(s: Store)
  {
    Sound(Now(s), s.history, s.nextFile)
  }

  ghost predicate ReaderOk(s: Store, r: Reader)
  {
    && r.snapshot <= s.last && InLevels(r.version)
    && r.mem in s.memtables && (r.imm.Some? ==> r.imm.value in s.memtables && r.imm.value < s.logfile)
    && Sound(Pinned(s, r), s.history, s.nextFile)
  }

  ghost predicate ReadersOk(s: Store)
  {
    forall id :: id in s.readers ==> ReaderOk(s, s.readers[id])
  }

  ghost predicate FlushOk(s: Store)
  {
    s.flush.Some? ==>
      && s.imm.Some? && s.flush.value.number < s.nextFile
      && (forall g :: g in s.current && g.level == 0 ==> g.number < s.flush.value.number)
      && (s.flush.value.Installing? ==>
            && s.flush.value.logNumber == s.logfile
            && PlacementOk(s.current, s.flush.value.level, Memtable(s.memtables, s.imm.value)))
  }

  function Made(c: Compaction): set<Output>
  {
    c.outputs + (if c.building.Some? then {c.building.value} else {})
  }

  /** The outputs hold exactly the processed entries that are not dropped. */
  ghost predicate OutputsOk(c: Compaction)
  {
    && (forall o, k, n: nat :: o in Made(c) && (k, n) in o.table ==>
          exists f :: f in c.inputs && (k, n) in f.table && f.table[(k, n)] == o.table[(k, n)]
            && !Dropped(c, k, n, f.table[(k, n)]))
    && (forall f, k, n: nat :: f in c.inputs && (k, n) in f.table && (k, n) in c.done ==>
          Dropped(c, k, n, f.table[(k, n)]) || exists o :: o in Made(c) && (k, n) in o.table)
  }

  ghost predicate CompactionOk(s: Store)
  {
    s.compaction.Some? ==>
      var c := s.compaction.value;
      && c.inputs <= c.version
      && InputsOk(s.current, c.level, c.inputs) && BaseOk(s.current, c.level, c.inputs, c.base)
      && OutputsOk(c)
  }

  /** Every live file is on disk and safe from deletion, as is every finished output. */
  ghost predicate DiskOk(s: Store)
  {
    && (forall f :: IsLive(s, f) ==>
      f.number !in s.pending && f.number in s.disk && s.disk[f.number] == f.table && f.number < s.nextFile)
    && (s.compaction.Some? ==>
          var c := s.compaction.value;
          && (forall o :: o in c.outputs ==> o.number in s.pending && o.number in s.disk && s.disk[o.number] == o.table)
          && (c.building.Some? ==>
            c.building.value.number in s.pending && forall o :: o in c.outputs ==> o.number < c.building.value.number)
          && (s.flush.Some? ==> forall o :: o in Made(c) ==> o.number < s.flush.value.number))
    && (s.flush.Some? && s.flush.value.Building? ==> s.flush.value.number in s.pending)
    && (s.flush.Some? && s.flush.value.Installing? ==>
          && s.flush.value.number !in s.pending && s.imm.Some?
          && var table := Memtable(s.memtables, s.imm.value);
             table != map[] ==> s.flush.value.number in s.disk && s.disk[s.flush.value.number] == table)
  }

  lemma EntriesAre(ops: seq<Op>, first: nat)
    ensures forall k, n: nat :: (k, n) in EntriesOf(ops, first) <==> IsOf(ops, first, k, n)
    ensures forall k, n: nat :: IsOf(ops, first, k, n) ==> EntriesOf(ops, first)[(k, n)] == CellOf(ops, first, n)
  {
    forall k, n: nat | IsOf(ops, first, k, n)
      ensures (k, n) in EntriesOf(ops, first)
    {
      assert (ops[n - first].key, first + (n - first)) in EntriesOf(ops, first);
    }
  }

  ghost predicate InFlight(s: Store, k: UserKey, n: nat)
  {
    s.write.Some? && s.write.value.logged && n > Reached(s) && IsOf(s.write.value.ops, s.last + 1, k, n)
  }

  /** The logs from LogNumber on hold the two memtables, and beyond them only what is still being
      inserted or was lost. */
  ghost predicate LogsOk(s: Store)
  {
    && s.logfile in s.logs && s.logNumber <= s.logfile
    && (s.imm.Some? ==>
      s.logNumber <= s.imm.value && s.imm.value in s.logs && s.logs[s.imm.value] == Memtable(s.memtables, s.imm.value))
    && (forall i :: i in s.logs && i >= s.logNumber ==> i == s.logfile || s.imm == Some(i))
    && (forall k, n: nat :: (k, n) in Memtable(s.memtables, s.logfile) ==>
          (k, n) in s.logs[s.logfile] && s.logs[s.logfile][(k, n)] == s.memtables[s.logfile][(k, n)])
    && (forall k, n: nat :: (k, n) in s.logs[s.logfile] ==>
          (k, n) in Memtable(s.memtables, s.logfile) || (k, n) in s.lost || InFlight(s, k, n))
    && (s.write.Some? && s.write.value.logged ==>
          forall k, n: nat :: IsOf(s.write.value.ops, s.last + 1, k, n) ==>
            (k, n) in s.logs[s.logfile] && s.logs[s.logfile][(k, n)] == CellOf(s.write.value.ops, s.last + 1, n))
  }

  ghost predicate Inv(s: Store)
  {
    && Shape(s) && SequencesOk(s) && SnapshotsOk(s) && LiveOk(s) && ReadersOk(s)
    && FlushOk(s) && CompactionOk(s) && DiskOk(s) && LogsOk(s)
  }

  lemma InitOk()
    ensures Inv(Init())
  {
  }

  // ----- Events that leave a part of the state alone -----------------------------------

  lemma SoundUpTo(fs: set<File>, history: Table, bound: nat, bound': nat)
    requires Sound(fs, history, bound) && bound <= bound'
    ensures Sound(fs, history, bound')
  {
  }

  lemma LiveFrame(s: Store, t: Store)
    requires LiveOk(s) && t.history == s.history && t.memtables == s.memtables && t.logfile == s.logfile
    requires t.imm == s.imm && t.current == s.current && t.nextFile >= s.nextFile
    ensures LiveOk(t)
  {
    hide Sound;
    SoundUpTo(Now(s), s.history, s.nextFile, t.nextFile);
  }

  lemma ReadersFrame(s: Store, t: Store)
    requires ReadersOk(s) && t.history == s.history && t.memtables == s.memtables && t.logfile == s.logfile
    requires t.last >= s.last && t.nextFile >= s.nextFile
    requires forall id :: id in t.readers ==> id in s.readers && t.readers[id] == s.readers[id]
    ensures ReadersOk(t)
  {
    hide Sound;
    forall id | id in t.readers
      ensures ReaderOk(t, t.readers[id])
    {
      assert ReaderOk(s, s.readers[id]);
      SoundUpTo(Pinned(s, s.readers[id]), s.history, s.nextFile, t.nextFile);
    }
  }

  lemma FlushFrame(s: Store, t: Store)
    requires FlushOk(s) && t.flush == s.flush && t.imm == s.imm && t.current == s.current && t.logfile == s.logfile
    requires s.imm.Some? ==> Memtable(t.memtables, s.imm.value) == Memtable(s.memtables, s.imm.value)
    requires t.nextFile >= s.nextFile
    ensures FlushOk(t)
  {
    hide PlacementOk;
  }

  lemma DiskFrame(s: Store, t: Store)
    requires DiskOk(s) && t.current == s.current && t.compaction == s.compaction && t.disk == s.disk
             && t.pending == s.pending
    requires t.flush == s.flush && t.imm == s.imm && t.nextFile >= s.nextFile
    requires s.imm.Some? ==> Memtable(t.memtables, s.imm.value) == Memtable(s.memtables, s.imm.value)
    requires forall id :: id in t.readers ==>
             t.readers[id].version == s.current || (id in s.readers && t.readers[id] == s.readers[id])
    ensures DiskOk(t)
  {
    forall f | IsLive(t, f)
      ensures IsLive(s, f)
    {
    }
  }

  // ----- Writes ------------------------------------------------------------------------

  lemma BeginWriteKeeps(s: Store, ops: seq<Op>)
    requires Inv(s) && CanBeginWrite(s)
    ensures Inv(BeginWrite(s, ops))
  {
    hide LiveOk, ReadersOk, FlushOk, DiskOk, CompactionOk;
    var t := BeginWrite(s, ops);
    LiveFrame(s, t);
    ReadersFrame(s, t);
    FlushFrame(s, t);
    DiskFrame(s, t);
    assert CompactionOk(t) by { CompactionFrame(s, t); }
  }

  lemma CompactionFrame(s: Store, t: Store)
    requires CompactionOk(s) && t.compaction == s.compaction && t.current == s.current
    ensures CompactionOk(t)
  {
  }

  lemma SamePlaces(s: Store, t: Store)
    requires LiveOk(s) && ReadersOk(s) && FlushOk(s) && DiskOk(s) && CompactionOk(s)
    requires t.history == s.history && t.memtables == s.memtables && t.logfile == s.logfile && t.imm == s.imm
    requires t.current == s.current && t.horizon == s.horizon && t.nextFile == s.nextFile && t.last >= s.last
    requires t.compaction == s.compaction && t.disk == s.disk && t.pending == s.pending && t.flush == s.flush
    requires forall id :: id in t.readers ==> id in s.readers && t.readers[id] == s.readers[id]
    ensures LiveOk(t) && ReadersOk(t) && FlushOk(t) && DiskOk(t) && CompactionOk(t)
  {
    hide LiveOk, ReadersOk, FlushOk, DiskOk, CompactionOk;
    LiveFrame(s, t);
    ReadersFrame(s, t);
    FlushFrame(s, t);
    DiskFrame(s, t);
    CompactionFrame(s, t);
  }

  lemma MemtableReached(s: Store)
    requires LiveOk(s) && SequencesOk(s)
    ensures forall k, n: nat :: (k, n) in Memtable(s.memtables, s.logfile) ==> (k, n) in s.history && n <= Reached(s)
  {
    hide AgeOrdered;
    assert File(s.logfile, MEM_LEVEL, Memtable(s.memtables, s.logfile)) in Now(s);
  }

  lemma LogWriteKeeps(s: Store)
    requires Inv(s) && CanLogWrite(s)
    ensures Inv(LogWrite(s))
  {
    hide LiveOk, ReadersOk, FlushOk, DiskOk, CompactionOk, EntriesOf, CellOf;
    EntriesAre(s.write.value.ops, s.last + 1);
    MemtableReached(s);
    SamePlaces(s, LogWrite(s));
  }

  lemma EndWriteKeeps(s: Store)
    requires Inv(s) && (CanEndWrite(s) || CanFailLog(s))
    ensures Inv(EndWrite(s))
  {
    hide LiveOk, ReadersOk, FlushOk, DiskOk, CompactionOk;
    SamePlaces(s, EndWrite(s));
  }

  lemma FailSyncKeeps(s: Store)
    requires Inv(s) && CanFailSync(s)
    ensures Inv(FailSync(s))
  {
    hide LiveOk, ReadersOk, FlushOk, DiskOk, CompactionOk, EntriesOf, CellOf;
    EntriesAre(s.write.value.ops, s.last + 1);
    SamePlaces(s, FailSync(s));
  }

  // ----- Snapshots and reads -----------------------------------------------------------

  lemma TakeSnapshotKeeps(s: Store)
    requires Inv(s)
    ensures Inv(TakeSnapshot(s))
  {
    hide LiveOk, ReadersOk, FlushOk, DiskOk, CompactionOk, LogsOk, SequencesOk;
    var t := TakeSnapshot(s);
    SamePlaces(s, t);
    LogsFrame(s, t);
  }

  lemma LogsFrame(s: Store, t: Store)
    requires LogsOk(s) && SequencesOk(s) && t.logs == s.logs && t.logfile == s.logfile && t.logNumber == s.logNumber
             && t.imm == s.imm
    requires t.memtables == s.memtables && t.lost == s.lost && t.write == s.write && t.last == s.last
    requires t.history == s.history && t.bgError == s.bgError
    ensures LogsOk(t) && SequencesOk(t)
  {
    hide IsOf, CellOf;
  }

  lemma ReleaseSnapshotKeeps(s: Store, i: nat)
    requires Inv(s) && i < |s.snapshots|
    ensures Inv(ReleaseSnapshot(s, i))
  {
    hide LiveOk, ReadersOk, FlushOk, DiskOk, CompactionOk, LogsOk, SequencesOk;
    var t := ReleaseSnapshot(s, i);
    SamePlaces(s, t);
    LogsFrame(s, t);
  }

  lemma BeginGetKeeps(s: Store, id: nat, snapshot: nat)
    requires Inv(s) && CanBeginGet(s, id, snapshot)
    ensures Inv(BeginGet(s, id, snapshot))
  {
    hide LiveOk, ReadersOk, FlushOk, DiskOk, CompactionOk, LogsOk, SequencesOk;
    var t := BeginGet(s, id, snapshot);
    LiveFrame(s, t);
    FlushFrame(s, t);
    DiskFrame(s, t);
    CompactionFrame(s, t);
    LogsFrame(s, t);
    NewReader(s, id, snapshot);
  }

  lemma NewReader(s: Store, id: nat, snapshot: nat)
    requires Shape(s) && SnapshotsOk(s) && LiveOk(s) && ReadersOk(s) && CanBeginGet(s, id, snapshot)
    ensures ReadersOk(BeginGet(s, id, snapshot))
  {
    hide Sound;
    var t := BeginGet(s, id, snapshot);
    assert Pinned(t, t.readers[id]) == Now(s);
    forall other | other in t.readers && other != id
      ensures ReaderOk(t, t.readers[other])
    {
      assert ReaderOk(s, s.readers[other]);
    }
  }

  lemma EndGetKeeps(s: Store, id: nat)
    requires Inv(s)
    ensures Inv(EndGet(s, id))
  {
    hide LiveOk, ReadersOk, FlushOk, DiskOk, CompactionOk, LogsOk, SequencesOk;
    var t := EndGet(s, id);
    SamePlaces(s, t);
    LogsFrame(s, t);
  }
}
