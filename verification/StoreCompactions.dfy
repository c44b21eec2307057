/** Compactions keep the invariant of the engine. */
module StoreCompactions {
  import opened InternalKeys
  import opened Options
  import opened Stores
  import opened StoreRuns
  import opened StoreInvariant
  import opened StoreFlushes

  lemma BeginCompactionKeeps(s: Store, level: int, inputs: set<File>, base: set<UserKey>)
    requires Inv(s) && CanBeginCompaction(s, level, inputs, base)
    ensures Inv(BeginCompaction(s, level, inputs, base))
  {
    hide LiveOk, ReadersOk, SequencesOk, LogsOk, FlushOk, InputsOk, BaseOk;
    var t := BeginCompaction(s, level, inputs, base);
    LiveFrame(s, t);
    ReadersFrame(s, t);
    FlushFrame(s, t);
    LogsFrame(s, t);
    assert inputs <= s.current by { InputsThere(s.current, level, inputs); }
    forall f | IsLive(t, f)
      ensures IsLive(s, f)
    {
    }
    assert DiskOk(t);
    assert SnapshotsOk(t);
  }

  lemma InputsThere(version: set<File>, level: int, inputs: set<File>)
    requires InputsOk(version, level, inputs)
    ensures inputs <= version
  {
  }

  lemma EmptyOutput(c: Compaction, number: nat)
    requires OutputsOk(c) && c.building == None
    ensures OutputsOk(c.(building := Some(Output(number, map[]))))
  {
    hide Dropped;
    var d := c.(building := Some(Output(number, map[])));
    SameRules(c, d);
    assert forall o :: o in Made(c) ==> o in Made(d);
  }

  lemma OpenOutputKeeps(s: Store)
    requires Inv(s) && Compacting(s) && s.compaction.value.building == None
    ensures Inv(OpenOutput(s))
  {
    hide LiveOk, ReadersOk, SequencesOk, LogsOk, FlushOk, InputsOk, BaseOk, Dropped, OutputsOk;
    var t := OpenOutput(s);
    LiveFrame(s, t);
    ReadersFrame(s, t);
    FlushFrame(s, t);
    LogsFrame(s, t);
    EmptyOutput(s.compaction.value, s.nextFile);
    forall f | IsLive(t, f)
      ensures IsLive(s, f)
    {
    }
    assert DiskOk(t);
  }

  lemma ProcessKeeps(s: Store, f: File, k: UserKey, n: nat)
    requires Inv(s) && CanProcess(s, f, k, n)
    ensures Inv(Process(s, f, k, n))
  {
    hide LiveOk, ReadersOk, SequencesOk, LogsOk, FlushOk, InputsOk, BaseOk, Dropped, OutputsOk;
    var t := Process(s, f, k, n);
    LiveFrame(s, t);
    ReadersFrame(s, t);
    FlushFrame(s, t);
    LogsFrame(s, t);
    ProcessOutputs(s, f, k, n);
    forall g | IsLive(t, g)
      ensures IsLive(s, g)
    {
    }
    assert DiskOk(t);
  }

  lemma SameRules(c: Compaction, d: Compaction)
    requires c.inputs == d.inputs && c.base == d.base && c.smallestSnapshot == d.smallestSnapshot
    ensures forall k, n: nat, cell :: Dropped(c, k, n, cell) <==> Dropped(d, k, n, cell)
  {
  }

  lemma ProcessOutputs(s: Store, f: File, k: UserKey, n: nat)
    requires CanProcess(s, f, k, n) && CompactionOk(s) && LiveOk(s)
    ensures OutputsOk(Process(s, f, k, n).compaction.value)
  {
    hide Dropped, AgeOrdered, BaseOk, WithinBounds;
    assert PartOf(Now(s), s.history) && forall g :: g in s.current ==> g in Now(s);
    var c, d := s.compaction.value, Process(s, f, k, n).compaction.value;
    SameRules(c, d);
  }

  lemma FinishOutputKeeps(s: Store)
    requires Inv(s) && CanFinishOutput(s)
    ensures Inv(FinishOutput(s))
  {
    hide LiveOk, ReadersOk, SequencesOk, LogsOk, FlushOk, InputsOk, BaseOk, Dropped, OutputsOk;
    var t := FinishOutput(s);
    LiveFrame(s, t);
    ReadersFrame(s, t);
    FlushFrame(s, t);
    LogsFrame(s, t);
    FinishedOutput(s.compaction.value);
    forall g | IsLive(t, g)
      ensures IsLive(s, g)
    {
    }
    assert DiskOk(t);
  }

  lemma FinishedOutput(c: Compaction)
    requires OutputsOk(c) && c.building.Some?
    ensures OutputsOk(c.(outputs := c.outputs + {c.building.value}, building := None))
  {
    hide Dropped;
    var d := c.(outputs := c.outputs + {c.building.value}, building := None);
    SameRules(c, d);
    assert Made(d) == Made(c);
  }

  lemma FailCompactionKeeps(s: Store)
    requires Inv(s) && Compacting(s)
    ensures Inv(FailCompaction(s))
  {
    hide LiveOk, ReadersOk, SequencesOk, FlushOk, InputsOk, BaseOk, Dropped, OutputsOk, IsOf, CellOf;
    var t := FailCompaction(s);
    LiveFrame(s, t);
    ReadersFrame(s, t);
    FlushFrame(s, t);
    SequencesFrame(s, t);
    forall g | IsLive(t, g)
      ensures IsLive(s, g)
    {
    }
    assert DiskOk(t);
    assert LogsOk(t);
  }

  // ----- Installing the results --------------------------------------------------------

  /** `over` is what lies above the version: the memtables. */
  ghost predicate Over(over: set<File>)
  {
    forall f :: f in over ==> f.level < 0
  }

  lemma OutputComesFrom(c: Compaction, a: File, k: UserKey, n: nat) returns (f: File)
    requires OutputsOk(c) && a in OutputFiles(c) && (k, n) in a.table
    ensures f in c.inputs && (k, n) in f.table && f.table[(k, n)] == a.table[(k, n)]
            && !Dropped(c, k, n, f.table[(k, n)])
  {
    hide Dropped;
    var o :| o in c.outputs && a == File(o.number, c.level + 1, o.table);
    assert o in Made(c);
    f :| f in c.inputs && (k, n) in f.table && f.table[(k, n)] == o.table[(k, n)] && !Dropped(c, k, n, f.table[(k, n)]);
  }

  lemma InstallSound(over: set<File>, current: set<File>, c: Compaction, history: Table, bound: nat)
    requires Over(over) && Sound(over + current, history, bound)
    requires InputsOk(current, c.level, c.inputs) && OutputsOk(c)
    requires forall o :: o in c.outputs ==> o.number < bound
    ensures Sound(over + (current - c.inputs + OutputFiles(c)), history, bound)
  {
    hide Dropped, OutputsOk;
    var before, after := over + current, over + (current - c.inputs + OutputFiles(c));
    forall a, b | a in after && b in after && Newer(a, b)
      ensures Above(a, b)
    {
      if a in before && b in before {
      } else if a in OutputFiles(c) {
        forall k, m, n: nat | (k, m) in a.table && (k, n) in b.table
          ensures m > n
        {
          var f := OutputComesFrom(c, a, k, m);
          assert f in before && b in before && Newer(f, b) && Above(f, b);
        }
      } else {
        forall k, m, n: nat | (k, m) in a.table && (k, n) in b.table
          ensures m > n
        {
          var f := OutputComesFrom(c, b, k, n);
          assert a in before && f in before && Above(a, f);
        }
      }
    }
    forall a, k, n: nat | a in after && (k, n) in a.table
      ensures (k, n) in history && history[(k, n)] == a.table[(k, n)]
    {
      if a in OutputFiles(c) {
        var f := OutputComesFrom(c, a, k, n);
        assert f in before;
      }
    }
  }

  lemma InstallCompactionLive(s: Store)
    requires Shape(s) && LiveOk(s) && CompactionOk(s) && DiskOk(s) && CanInstallCompaction(s)
    ensures LiveOk(InstallCompaction(s))
  {
    hide Sound, OutputsOk, InputsOk, BaseOk, IsLive;
    var t, c := InstallCompaction(s), s.compaction.value;
    var over := Sources(s.memtables, s.logfile, s.imm, {});
    assert Now(s) == over + s.current;
    assert Now(t) == over + (s.current - c.inputs + OutputFiles(c));
    assert forall o :: o in c.outputs ==> o.number < s.nextFile;
    InstallSound(over, s.current, c, s.history, s.nextFile);
  }

  lemma InstallCompactionDisk(s: Store)
    requires Shape(s) && CompactionOk(s) && DiskOk(s) && CanInstallCompaction(s)
    ensures DiskOk(InstallCompaction(s)) && Shape(InstallCompaction(s))
  {
    hide OutputsOk, BaseOk;
    var t, c := InstallCompaction(s), s.compaction.value;
    forall f | IsLive(t, f)
      ensures IsLive(s, f) || f in OutputFiles(c)
    {
    }
    forall f | f in OutputFiles(c)
      ensures f.number !in t.pending && f.number in s.disk && s.disk[f.number] == f.table && f.number < s.nextFile
              && f.level >= 0
    {
      var o :| o in c.outputs && f == File(o.number, c.level + 1, o.table);
    }
  }

  lemma InstallCompactionKeeps(s: Store)
    requires Inv(s) && CanInstallCompaction(s)
    ensures Inv(DeleteObsoleteFiles(InstallCompaction(s)))
  {
    hide LiveOk, ReadersOk, SequencesOk, CompactionOk, IsOf, CellOf, Shape, DiskOk;
    var t := InstallCompaction(s);
    InstallCompactionLive(s);
    InstallCompactionDisk(s);
    ReadersFrame(s, t);
    SequencesFrame(s, t);
    LogsFrame(s, t);
    assert CompactionOk(t) by { NoCompaction(t); }
    CollectKeeps(t);
  }

  lemma NoCompaction(s: Store)
    requires s.compaction == None
    ensures CompactionOk(s)
  {
  }

  // ----- Trivial moves -----------------------------------------------------------------

  lemma TrivialMoveLive(s: Store, f: File)
    requires Shape(s) && LiveOk(s) && CanTrivialMove(s, f)
    ensures LiveOk(TrivialMove(s, f))
  {
    hide Reaches, TakesOverlapping;
    var t, f' := TrivialMove(s, f), f.(level := f.level + 1);
    var before, after := Now(s), Now(t);
    assert f in before;
    forall a | a in after && a != f'
      ensures a in before && a != f && (a.level <= f.level ==> Above(a, f))
    {
      if a !in s.current {
        assert Newer(a, f);
      }
    }
    forall a, b | a in after && b in after && Newer(a, b)
      ensures Above(a, b)
    {
      if a == f' && b != f' {
        assert Above(f, b);
      } else if b == f' && a != f' {
        assert Above(a, f);
      } else if a != f' {
        assert a in before && b in before;
      }
    }
  }

  lemma TrivialMoveKeeps(s: Store, f: File)
    requires Inv(s) && CanTrivialMove(s, f)
    ensures Inv(TrivialMove(s, f))
  {
    hide LiveOk, ReadersOk, SequencesOk, LogsOk, CompactionOk, Reaches, TakesOverlapping, InputsOk;
    var t, f' := TrivialMove(s, f), f.(level := f.level + 1);
    TrivialMoveLive(s, f);
    ReadersFrame(s, t);
    LogsFrame(s, t);
    NoCompaction(t);
    assert IsLive(s, f);
    forall g | IsLive(t, g) && g != f'
      ensures IsLive(s, g)
    {
    }
    assert DiskOk(t);
  }
}
