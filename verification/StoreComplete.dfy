/** As long as no compaction drops a marker over an older entry, every read at or above the horizon, and below
    it where the compactions had nothing to go by, finds its answer in the files that are left. */
module StoreComplete {
  import opened InternalKeys
  import opened Options
  import opened Stores
  import opened StoreRuns
  import opened StoreInvariant
  import opened StoreWrites
  import opened StoreCompactions

  ghost predicate InMemory(s: Store, k: UserKey, n: nat)
  {
    || (k, n) in Memtable(s.memtables, s.logfile)
    || (s.imm.Some? && (k, n) in Memtable(s.memtables, s.imm.value))
  }

  /** At or above the horizon; or below it, but all that was written from there up to the horizon is still in
      the memtables, so that no compaction has come across it. */
  ghost predicate Settled(s: Store, t: nat)
  {
    forall k, n: nat :: (k, n) in s.history && t < n <= s.horizon ==> InMemory(s, k, n)
  }

  ghost predicate LiveComplete(s: Store)
  {
    forall t: nat :: Settled(s, t) ==> CompleteAt(Now(s), s.history, t)
  }

  ghost predicate ReadersComplete(s: Store)
  {
    forall id :: id in s.readers ==> CompleteAt(Pinned(s, s.readers[id]), s.history, s.readers[id].snapshot)
  }

  ghost predicate MarkersStayOk(s: Store)
  {
    s.compaction.Some? ==>
      var c := s.compaction.value;
      MarkersOk(s.current, c.level, c.inputs, c.base, c.smallestSnapshot)
  }

  ghost predicate Complete(s: Store)
  {
    LiveComplete(s) && ReadersComplete(s) && MarkersStayOk(s)
  }

  lemma CompleteFrame(s: Store, t: Store)
    requires Complete(s) && t.history == s.history && t.memtables == s.memtables && t.logfile == s.logfile
             && t.imm == s.imm
    requires t.current == s.current && t.horizon == s.horizon && MarkersStayOk(t)
    requires forall id :: id in t.readers ==> id in s.readers && t.readers[id] == s.readers[id]
    ensures Complete(t)
  {
    hide LiveComplete, CompleteAt, MarkersOk;
    CompleteFrameLive(s, t);
  }

  /** Whatever is settled after an event was settled before it. */
  lemma SettledBefore(s: Store, t: Store, u: nat)
    requires Settled(t, u) && s.horizon <= t.horizon
    requires forall k, n: nat :: (k, n) in s.history && n <= s.horizon ==>
               (k, n) in t.history && (InMemory(t, k, n) ==> InMemory(s, k, n))
    ensures Settled(s, u)
  {
    hide InMemory;
  }

  // ----- Writes and rotation -----------------------------------------------------------

  lemma InsertComplete(f: File, rest: set<File>, history: Table, k: UserKey, n: nat, c: Cell, t: nat)
    requires CompleteAt({f} + rest, history, t) && AllBelow(history, n)
    ensures CompleteAt({Added(f, k, n, c)} + rest, history[(k, n) := c], t)
  {
    var f', history' := Added(f, k, n, c), history[(k, n) := c];
    assert f' in {f'} + rest;
    forall j, m: nat | NewestAt(history', j, m, t)
      ensures Answers({f'} + rest, history', j, m)
    {
      if (j, m) == (k, n) {
        assert (k, n) in f'.table;
      } else {
        assert NewestAt(history, j, m, t);
        assert Answers({f} + rest, history, j, m);
        if Holds({f} + rest, j, m) {
          var g :| g in {f} + rest && (j, m) in g.table;
          assert (if g == f then f' else g) in {f'} + rest;
          assert Holds({f'} + rest, j, m);
        } else {
          forall i: nat | i < m
            ensures !Holds({f'} + rest, j, i)
          {
            assert !Holds({f} + rest, j, i) && f in {f} + rest;
          }
          assert history'[(j, m)] == Del;
        }
      }
    }
  }

  lemma HistoryComplete(fs: set<File>, history: Table, k: UserKey, n: nat, c: Cell, t: nat)
    requires CompleteAt(fs, history, t) && AllBelow(history, n) && t < n
    ensures CompleteAt(fs, history[(k, n) := c], t)
  {
    var history' := history[(k, n) := c];
    forall j, m: nat | NewestAt(history', j, m, t)
      ensures Answers(fs, history', j, m)
    {
      assert NewestAt(history, j, m, t);
    }
  }

  lemma InsertSourcesComplete(s: Store, imm: Option<nat>, version: set<File>, k: UserKey, n: nat, c: Cell, t: nat)
    requires CompleteAt(Sources(s.memtables, s.logfile, imm, version), s.history, t) && AllBelow(s.history, n)
    requires imm.Some? ==> imm.value != s.logfile
    ensures var memtables := s.memtables[s.logfile := Memtable(s.memtables, s.logfile)[(k, n) := c]];
            CompleteAt(Sources(memtables, s.logfile, imm, version), s.history[(k, n) := c], t)
  {
    hide CompleteAt;
    var f, rest := File(s.logfile, MEM_LEVEL, Memtable(s.memtables, s.logfile)), Rest(s, imm, version);
    var memtables := s.memtables[s.logfile := Memtable(s.memtables, s.logfile)[(k, n) := c]];
    assert {f} + rest == Sources(s.memtables, s.logfile, imm, version);
    assert {Added(f, k, n, c)} + rest == Sources(memtables, s.logfile, imm, version);
    InsertComplete(f, rest, s.history, k, n, c, t);
  }

  lemma SameHolds(fs: set<File>, fs': set<File>, history: Table, t: nat)
    requires CompleteAt(fs, history, t)
    requires forall k, n: nat :: Holds(fs, k, n) <==> Holds(fs', k, n)
    ensures CompleteAt(fs', history, t)
  {
    forall k, n: nat | NewestAt(history, k, n, t)
      ensures Answers(fs', history, k, n)
    {
      assert Answers(fs, history, k, n);
    }
  }

  lemma InsertKeepsComplete(s: Store)
    requires Inv(s) && Complete(s) && CanInsertNext(s)
    ensures Complete(InsertNext(s))
  {
    hide CompleteAt, MarkersOk, LiveOk, FlushOk, CompactionOk, DiskOk, LogsOk, Sound;
    var w, t := s.write.value, InsertNext(s);
    var k, n, c := w.ops[w.inserted].key, s.last + 1 + w.inserted, w.ops[w.inserted].cell;
    var f, rest := File(s.logfile, MEM_LEVEL, Memtable(s.memtables, s.logfile)), Rest(s, s.imm, s.current);
    assert {f} + rest == Now(s);
    assert {Added(f, k, n, c)} + rest == Now(t);
    forall u: nat | Settled(t, u)
      ensures CompleteAt(Now(t), t.history, u)
    {
      SettledBefore(s, t, u);
      InsertComplete(f, rest, s.history, k, n, c, u);
    }
    forall id | id in t.readers
      ensures CompleteAt(Pinned(t, t.readers[id]), t.history, t.readers[id].snapshot)
    {
      var r := s.readers[id];
      assert ReaderOk(s, r);
      if r.mem == s.logfile {
        InsertSourcesComplete(s, r.imm, r.version, k, n, c, r.snapshot);
      } else {
        assert Pinned(t, r) == Pinned(s, r);
        HistoryComplete(Pinned(s, r), s.history, k, n, c, r.snapshot);
      }
    }
  }

  /** Moving tables about changes nothing that is held. */
  lemma SameHoldsLive(s: Store, t: Store)
    requires LiveComplete(s) && t.history == s.history && t.horizon == s.horizon
    requires forall k, n: nat :: Holds(Now(s), k, n) <==> Holds(Now(t), k, n)
    requires forall k, n: nat :: InMemory(t, k, n) ==> InMemory(s, k, n)
    ensures LiveComplete(t)
  {
    hide CompleteAt, InMemory;
    forall u: nat | Settled(t, u)
      ensures CompleteAt(Now(t), t.history, u)
    {
      SettledBefore(s, t, u);
      SameHolds(Now(s), Now(t), s.history, u);
    }
  }

  /** Putting one file with the same table in the place of another. */
  lemma Replaced(before: set<File>, after: set<File>, f: File, g: File)
    requires f in before && g in after && f.table == g.table && before - {f} <= after && after - {g} <= before
    ensures forall k, n: nat :: Holds(before, k, n) <==> Holds(after, k, n)
  {
    forall k, n: nat
      ensures Holds(before, k, n) <==> Holds(after, k, n)
    {
      if a :| a in before && (k, n) in a.table {
        assert (if a == f then g else a) in after;
      }
      if a :| a in after && (k, n) in a.table {
        assert (if a == g then f else a) in before;
      }
    }
  }

  /** An empty file holds nothing. */
  lemma AddedEmpty(before: set<File>, after: set<File>, h: File)
    requires h.table == map[] && before <= after && after - {h} <= before
    ensures forall k, n: nat :: Holds(before, k, n) <==> Holds(after, k, n)
  {
  }

  lemma RotateHolds(s: Store)
    requires Shape(s) && CanRotate(s)
    ensures forall k, n: nat :: Holds(Now(s), k, n) <==> Holds(Now(Rotate(s)), k, n)
  {
    var t := Rotate(s);
    var table := Memtable(s.memtables, s.logfile);
    var f, g, h := File(s.logfile, MEM_LEVEL, table), File(s.logfile, IMM_LEVEL, table),
      File(s.nextFile, MEM_LEVEL, map[]);
    assert Now(s) == {f} + s.current;
    assert Now(t) == {g} + s.current + {h};
    Replaced(Now(s), {g} + s.current, f, g);
    AddedEmpty({g} + s.current, Now(t), h);
  }

  lemma RotateKeepsComplete(s: Store)
    requires Inv(s) && Complete(s) && CanRotate(s)
    ensures Complete(Rotate(s))
  {
    hide CompleteAt, MarkersOk, LiveOk, FlushOk, CompactionOk, DiskOk, LogsOk, Sound, SequencesOk,
         LiveComplete, Settled;
    var t := Rotate(s);
    RotateHolds(s);
    SameHoldsLive(s, t);
    forall id | id in t.readers
      ensures CompleteAt(Pinned(t, t.readers[id]), t.history, t.readers[id].snapshot)
    {
      assert ReaderOk(s, s.readers[id]);
      assert Pinned(t, s.readers[id]) == Pinned(s, s.readers[id]);
    }
  }

  /** A read that starts at LastSequence or at a live snapshot is at or above the horizon. */
  lemma BeginGetKeepsComplete(s: Store, id: nat, snapshot: nat)
    requires Inv(s) && Complete(s) && CanBeginGet(s, id, snapshot)
    ensures Complete(BeginGet(s, id, snapshot))
  {
    hide CompleteAt, MarkersOk, LiveOk, FlushOk, CompactionOk, DiskOk, LogsOk, Sound, SequencesOk, ReadersOk;
    var t := BeginGet(s, id, snapshot);
    assert Pinned(t, t.readers[id]) == Now(s) == Now(t);
    assert snapshot >= s.horizon && Settled(s, snapshot);
    CompleteFrameLive(s, t);
    forall other | other in t.readers && other != id
      ensures CompleteAt(Pinned(t, t.readers[other]), t.history, t.readers[other].snapshot)
    {
      assert t.readers[other] == s.readers[other] && Pinned(t, t.readers[other]) == Pinned(s, s.readers[other]);
    }
  }

  lemma CompleteFrameLive(s: Store, t: Store)
    requires LiveComplete(s) && t.history == s.history && t.memtables == s.memtables && t.logfile == s.logfile
             && t.imm == s.imm && t.current == s.current && t.horizon == s.horizon
    ensures LiveComplete(t)
  {
    hide CompleteAt;
    forall u: nat | Settled(t, u)
      ensures CompleteAt(Now(t), t.history, u)
    {
      SettledBefore(s, t, u);
    }
  }

  // ----- Flushes -----------------------------------------------------------------------

  lemma InstallFlushHolds(s: Store)
    requires Shape(s) && CanInstallFlush(s)
    ensures forall k, n: nat :: Holds(Now(s), k, n) <==> Holds(Now(InstallFlush(s)), k, n)
  {
    var t := InstallFlush(s);
    var table := Memtable(s.memtables, s.imm.value);
    var mem, imm := File(s.logfile, MEM_LEVEL, Memtable(s.memtables, s.logfile)), File(s.imm.value, IMM_LEVEL, table);
    var f := File(s.flush.value.number, s.flush.value.level, table);
    assert Now(s) == {mem} + {imm} + s.current;
    if table == map[] {
      assert Now(t) == {mem} + s.current;
      AddedEmpty(Now(t), Now(s), imm);
    } else {
      assert Now(t) == {mem} + s.current + {f};
      Replaced(Now(s), Now(t), imm, f);
    }
  }

  lemma InstallFlushKeepsComplete(s: Store)
    requires Inv(s) && Complete(s) && CanInstallFlush(s)
    ensures Complete(DeleteObsoleteFiles(InstallFlush(s)))
  {
    hide CompleteAt, MarkersOk, CompactionOk, DiskOk, LogsOk, Sound, SequencesOk, ReadersOk, FlushOk,
         PlacementOk, IsLive, LiveComplete, Settled;
    var t := InstallFlush(s);
    InstallFlushHolds(s);
    SameHoldsLive(s, t);
    assert MarkersStayOk(t) by { FlushedIsNewer(s); }
    forall id | id in t.readers
      ensures CompleteAt(Pinned(t, t.readers[id]), t.history, t.readers[id].snapshot)
    {
      assert Pinned(t, t.readers[id]) == Pinned(s, s.readers[id]);
    }
    CompleteFrame(t, DeleteObsoleteFiles(t));
  }

  lemma FlushedIsNewer(s: Store)
    requires Inv(s) && MarkersStayOk(s) && CanInstallFlush(s)
    ensures MarkersStayOk(InstallFlush(s))
  {
    hide OutputsOk, PartOf, WithinBounds, DiskOk, LogsOk, SequencesOk, ReadersOk, BaseOk, PlacementOk, IsLive;
    var t := InstallFlush(s);
    if s.compaction.Some? && t.current != s.current {
      var c := s.compaction.value;
      var imm := File(s.imm.value, IMM_LEVEL, Memtable(s.memtables, s.imm.value));
      var f := File(s.flush.value.number, s.flush.value.level, imm.table);
      assert imm in Now(s);
      forall i | i in c.inputs
        ensures Above(f, i)
      {
        assert i in Now(s) && Newer(imm, i) && Above(imm, i);
      }
    }
  }

  // ----- Compactions -------------------------------------------------------------------

  lemma InstallHolds(over: set<File>, current: set<File>, c: Compaction, k: UserKey, n: nat)
    requires InputsOk(current, c.level, c.inputs) && OutputsOk(c)
    requires Holds(over + (current - c.inputs + OutputFiles(c)), k, n)
    ensures Holds(over + current, k, n)
  {
    hide Dropped, OutputsOk;
    var a :| a in over + (current - c.inputs + OutputFiles(c)) && (k, n) in a.table;
    if a in OutputFiles(c) {
      var f := OutputComesFrom(c, a, k, n);
      assert f in over + current;
    } else {
      assert a in over + current;
    }
  }

  ghost predicate AllProcessed(c: Compaction)
  {
    c.building == None && forall f, k, n: nat :: f in c.inputs && (k, n) in f.table ==> (k, n) in c.done
  }

  /** What the compaction leaves in the next level. */
  ghost function Left(current: set<File>, c: Compaction): set<File>
  {
    set g | g in current && g !in c.inputs && g.level == c.level + 1
  }

  /** Below a dropped base-level marker only the next level can have something left. */
  lemma OnlyLeftUnderMarker(over: set<File>, current: set<File>, c: Compaction, history: Table, bound: nat, f: File,
      k: UserKey, n: nat, m: nat)
    requires Over(over) && Sound(over + current, history, bound)
    requires InputsOk(current, c.level, c.inputs) && BaseOk(current, c.level, c.inputs, c.base) && OutputsOk(c)
    requires f in c.inputs && (k, n) in f.table && f.table[(k, n)] == Del && n <= c.smallestSnapshot && k in c.base
             && m <= n
    requires Holds(over + (current - c.inputs + OutputFiles(c)), k, m)
    ensures Holds(Left(current, c), k, m)
  {
    hide OutputsOk;
    var after := over + (current - c.inputs + OutputFiles(c));
    assert f in over + current && Holds(c.inputs, k, n);
    assert forall g :: g in c.inputs ==> g in over + current;
    forall a | a in over + (current - c.inputs) && a.level <= c.level
      ensures Above(a, f)
    {
      assert a in over + current;
    }
    var a :| a in after && (k, m) in a.table;
    if a in OutputFiles(c) {
      var g := OutputComesFrom(c, a, k, m);
    }
  }

  /** Below a dropped base-level marker nothing is left, when the next level keeps nothing older. */
  lemma NothingUnderMarker(over: set<File>, current: set<File>, c: Compaction, history: Table, bound: nat, f: File,
      k: UserKey, n: nat, m: nat)
    requires Over(over) && Sound(over + current, history, bound)
    requires InputsOk(current, c.level, c.inputs) && BaseOk(current, c.level, c.inputs, c.base) && OutputsOk(c)
    requires MarkersOk(current, c.level, c.inputs, c.base, c.smallestSnapshot)
    requires f in c.inputs && (k, n) in f.table && f.table[(k, n)] == Del && n <= c.smallestSnapshot && k in c.base
             && m < n
    ensures !Holds(over + (current - c.inputs + OutputFiles(c)), k, m)
  {
    hide OutputsOk, Sound, InputsOk, BaseOk;
    if Holds(over + (current - c.inputs + OutputFiles(c)), k, m) {
      OnlyLeftUnderMarker(over, current, c, history, bound, f, k, n, m);
    }
  }

  /** No entry of the inputs numbered between `t` and smallest_snapshot. */
  ghost predicate InputsUpTo(c: Compaction, t: nat)
  {
    forall f, k, n: nat :: f in c.inputs && (k, n) in f.table && n <= c.smallestSnapshot ==> n <= t
  }

  /** The drop rule keeps every read at or above smallest_snapshot, and those below it for which the inputs
      have nothing newer that the rule could go by. */
  lemma InstallComplete(over: set<File>, current: set<File>, c: Compaction, history: Table, bound: nat, t: nat)
    requires Over(over) && Sound(over + current, history, bound)
    requires InputsOk(current, c.level, c.inputs) && BaseOk(current, c.level, c.inputs, c.base)
    requires MarkersOk(current, c.level, c.inputs, c.base, c.smallestSnapshot)
    requires OutputsOk(c) && AllProcessed(c)
    requires CompleteAt(over + current, history, t) && InputsUpTo(c, t)
    ensures CompleteAt(over + (current - c.inputs + OutputFiles(c)), history, t)
  {
    hide BaseOk, MarkersOk, OutputsOk, InputsUpTo;
    var before, after := over + current, over + (current - c.inputs + OutputFiles(c));
    forall k, n: nat | NewestAt(history, k, n, t)
      ensures Answers(after, history, k, n)
    {
      assert Answers(before, history, k, n);
      if Holds(before, k, n) {
        var f :| f in before && (k, n) in f.table;
        InstallAnswers(over, current, c, history, bound, t, f, k, n);
      } else {
        forall m: nat | m < n
          ensures !Holds(after, k, m)
        {
          if Holds(after, k, m) {
            InstallHolds(over, current, c, k, m);
          }
        }
      }
    }
  }

  lemma InstallAnswers(over: set<File>, current: set<File>, c: Compaction, history: Table, bound: nat, t: nat,
      f: File, k: UserKey, n: nat)
    requires Over(over) && Sound(over + current, history, bound)
    requires InputsOk(current, c.level, c.inputs) && BaseOk(current, c.level, c.inputs, c.base)
    requires MarkersOk(current, c.level, c.inputs, c.base, c.smallestSnapshot)
    requires OutputsOk(c) && AllProcessed(c) && InputsUpTo(c, t)
    requires NewestAt(history, k, n, t) && f in over + current && (k, n) in f.table
    ensures Answers(over + (current - c.inputs + OutputFiles(c)), history, k, n)
  {
    hide BaseOk, MarkersOk, AgeOrdered, WithinBounds, InputsUpTo;
    var after := over + (current - c.inputs + OutputFiles(c));
    if f !in c.inputs {
      assert f in after;
    } else if !Dropped(c, k, n, f.table[(k, n)]) {
      var o :| o in Made(c) && (k, n) in o.table;
      assert File(o.number, c.level + 1, o.table) in after;
    } else {
      NoNewerInput(over, current, c, history, bound, t, k, n);
      forall m: nat | m < n
        ensures !Holds(after, k, m)
      {
        NothingUnderMarker(over, current, c, history, bound, f, k, n, m);
      }
    }
  }

  lemma NoNewerInput(over: set<File>, current: set<File>, c: Compaction, history: Table, bound: nat, t: nat,
      k: UserKey, n: nat)
    requires Sound(over + current, history, bound) && c.inputs <= current
    requires NewestAt(history, k, n, t) && InputsUpTo(c, t)
    ensures forall m: nat :: n < m <= c.smallestSnapshot ==> !Holds(c.inputs, k, m)
  {
    assert forall g :: g in c.inputs ==> g in over + current;
    forall m: nat | n < m <= c.smallestSnapshot
      ensures !Holds(c.inputs, k, m)
    {
      assert Holds(c.inputs, k, m) ==> m <= t && (k, m) in history;
    }
  }

  /** What is in a file is in no memtable. */
  lemma NotInMemory(s: Store, f: File, k: UserKey, n: nat)
    requires LiveOk(s) && Shape(s) && f in s.current && (k, n) in f.table
    ensures !InMemory(s, k, n)
  {
    hide PartOf, WithinBounds;
    var mem := File(s.logfile, MEM_LEVEL, Memtable(s.memtables, s.logfile));
    assert mem in Now(s) && f in Now(s) && Newer(mem, f) && Above(mem, f);
    if s.imm.Some? {
      var imm := File(s.imm.value, IMM_LEVEL, Memtable(s.memtables, s.imm.value));
      assert imm in Now(s) && Newer(imm, f) && Above(imm, f);
    }
  }

  lemma SettledInputs(s: Store, u: nat)
    requires Inv(s) && CanInstallCompaction(s) && Settled(InstallCompaction(s), u)
    ensures InputsUpTo(s.compaction.value, u) && Settled(s, u)
  {
    hide OutputsOk, BaseOk, DiskOk, LogsOk, SequencesOk, ReadersOk, FlushOk, SnapshotsOk, InMemory,
         AgeOrdered, WithinBounds;
    var t, c := InstallCompaction(s), s.compaction.value;
    forall k, n: nat
      ensures InMemory(t, k, n) <==> InMemory(s, k, n)
    {
      SameMemory(s, t, k, n);
    }
    SettledBefore(s, t, u);
    forall f, k, n: nat | f in c.inputs && (k, n) in f.table && n <= c.smallestSnapshot
      ensures n <= u
    {
      assert f in Now(s);
      NotInMemory(s, f, k, n);
    }
  }

  lemma SameMemory(s: Store, t: Store, k: UserKey, n: nat)
    requires t.memtables == s.memtables && t.logfile == s.logfile && t.imm == s.imm
    ensures InMemory(t, k, n) <==> InMemory(s, k, n)
  {
  }

  lemma InstallCompactionKeepsComplete(s: Store)
    requires Inv(s) && Complete(s) && CanInstallCompaction(s)
    ensures Complete(DeleteObsoleteFiles(InstallCompaction(s)))
  {
    hide Sound, CompleteAt, OutputsOk, InputsOk, BaseOk, MarkersOk, IsLive, DiskOk, LogsOk, SequencesOk, ReadersOk,
         FlushOk, Settled, InputsUpTo;
    var t, c := InstallCompaction(s), s.compaction.value;
    var over := Sources(s.memtables, s.logfile, s.imm, {});
    assert Now(s) == over + s.current;
    assert Now(t) == over + (s.current - c.inputs + OutputFiles(c));
    assert AllProcessed(c);
    forall u: nat | Settled(t, u)
      ensures CompleteAt(Now(t), s.history, u)
    {
      SettledInputs(s, u);
      InstallComplete(over, s.current, c, s.history, s.nextFile, u);
    }
    forall id | id in t.readers
      ensures CompleteAt(Pinned(t, t.readers[id]), t.history, t.readers[id].snapshot)
    {
      assert Pinned(t, t.readers[id]) == Pinned(s, s.readers[id]);
    }
    assert Complete(t);
    CompleteFrame(t, DeleteObsoleteFiles(t));
  }

  lemma TrivialMoveHolds(s: Store, f: File)
    requires f in s.current
    ensures forall k, n: nat :: Holds(Now(s), k, n) <==> Holds(Now(TrivialMove(s, f)), k, n)
  {
    Replaced(Now(s), Now(TrivialMove(s, f)), f, f.(level := f.level + 1));
  }

  lemma TrivialMoveKeepsComplete(s: Store, f: File)
    requires Inv(s) && Complete(s) && CanTrivialMove(s, f)
    ensures Complete(TrivialMove(s, f))
  {
    hide CompleteAt, MarkersOk, Inv, Reaches, TakesOverlapping, InputsOk, LiveComplete;
    var t := TrivialMove(s, f);
    TrivialMoveHolds(s, f);
    SameHoldsLive(s, t);
    forall id | id in t.readers
      ensures CompleteAt(Pinned(t, t.readers[id]), t.history, t.readers[id].snapshot)
    {
      assert Pinned(t, t.readers[id]) == Pinned(s, s.readers[id]);
    }
  }

  // ----- Every event -------------------------------------------------------------------

  lemma StepKeepsComplete(s: Store, e: Event)
    requires Inv(s) && Complete(s) && Enabled(s, e)
    requires e.BeginCompactionEvent? ==> MarkersOk(s.current, e.level, e.inputs, e.base, SmallestSnapshot(s))
    ensures Complete(Step(s, e))
  {
    hide Inv, LiveComplete, ReadersComplete, MarkersOk;
    if e == InsertNextEvent {
      InsertKeepsComplete(s);
    } else if e == RotateEvent {
      RotateKeepsComplete(s);
    } else if e.BeginGetEvent? {
      BeginGetKeepsComplete(s, e.id, e.snapshot);
    } else if e == InstallFlushEvent {
      InstallFlushKeepsComplete(s);
    } else if e == InstallCompactionEvent {
      InstallCompactionKeepsComplete(s);
    } else if e.TrivialMoveEvent? {
      TrivialMoveKeepsComplete(s, e.f);
    } else {
      CompleteFrame(s, Step(s, e));
    }
  }
}
