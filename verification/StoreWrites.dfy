/** Inserting into the memtable and rotating it keep the invariant of the engine. */
module StoreWrites {
  import opened InternalKeys
  import opened Options
  import opened Stores
  import opened StoreRuns
  import opened StoreInvariant

  ghost predicate AllBelow(history: Table, n: nat)
  {
    forall j, m: nat :: (j, m) in history ==> m < n
  }

  function Added(f: File, k: UserKey, n: nat, c: Cell): File
  {
    f.(table := f.table[(k, n) := c])
  }

  lemma InsertSound(f: File, rest: set<File>, history: Table, bound: nat, k: UserKey, n: nat, c: Cell)
    requires f.level == MEM_LEVEL && (forall g :: g in rest ==> g.level > MEM_LEVEL)
    requires Sound({f} + rest, history, bound) && AllBelow(history, n)
    ensures Sound({Added(f, k, n, c)} + rest, history[(k, n) := c], bound)
  {
    var f' := Added(f, k, n, c);
    assert f in {f} + rest;
    forall a, b | a in {f'} + rest && b in {f'} + rest && Newer(a, b)
      ensures Above(a, b)
    {
      if a == f' {
        assert Above(f, b);
      } else {
        assert Above(a, b);
      }
    }
  }

  lemma HistorySound(fs: set<File>, history: Table, bound: nat, k: UserKey, n: nat, c: Cell)
    requires Sound(fs, history, bound) && AllBelow(history, n)
    ensures Sound(fs, history[(k, n) := c], bound)
  {
  }

  function Rest(s: Store, imm: Option<nat>, version: set<File>): set<File>
  {
    (if imm.Some? then {File(imm.value, IMM_LEVEL, Memtable(s.memtables, imm.value))} else {}) + version
  }

  lemma InsertLive(s: Store)
    requires LiveOk(s) && SequencesOk(s) && Shape(s) && CanInsertNext(s)
    ensures LiveOk(InsertNext(s))
  {
    hide Sound;
    var w := s.write.value;
    var k, n, c := w.ops[w.inserted].key, s.last + 1 + w.inserted, w.ops[w.inserted].cell;
    InsertSources(s, s.imm, s.current, k, n, c);
    var f, rest := File(s.logfile, MEM_LEVEL, Memtable(s.memtables, s.logfile)), Rest(s, s.imm, s.current);
    assert {f} + rest == Now(s);
    assert {Added(f, k, n, c)} + rest == Now(InsertNext(s));
  }

  /** Sources whose first memtable is the one inserted into. */
  lemma InsertSources(s: Store, imm: Option<nat>, version: set<File>, k: UserKey, n: nat, c: Cell)
    requires Sound(Sources(s.memtables, s.logfile, imm, version), s.history, s.nextFile) && AllBelow(s.history, n)
    requires imm.Some? ==> imm.value != s.logfile
    requires InLevels(version)
    ensures var memtables := s.memtables[s.logfile := Memtable(s.memtables, s.logfile)[(k, n) := c]];
            Sound(Sources(memtables, s.logfile, imm, version), s.history[(k, n) := c], s.nextFile)
  {
    hide Sound;
    var f, rest := File(s.logfile, MEM_LEVEL, Memtable(s.memtables, s.logfile)), Rest(s, imm, version);
    var memtables := s.memtables[s.logfile := Memtable(s.memtables, s.logfile)[(k, n) := c]];
    assert {f} + rest == Sources(s.memtables, s.logfile, imm, version);
    assert {Added(f, k, n, c)} + rest == Sources(memtables, s.logfile, imm, version);
    InsertSound(f, rest, s.history, s.nextFile, k, n, c);
  }

  lemma InsertReaders(s: Store)
    requires ReadersOk(s) && SequencesOk(s) && CanInsertNext(s)
    ensures ReadersOk(InsertNext(s))
  {
    hide Sound;
    var t, w := InsertNext(s), s.write.value;
    var k, n, c := w.ops[w.inserted].key, s.last + 1 + w.inserted, w.ops[w.inserted].cell;
    forall id | id in t.readers
      ensures ReaderOk(t, t.readers[id])
    {
      var r := s.readers[id];
      assert ReaderOk(s, r);
      if r.mem == s.logfile {
        InsertSources(s, r.imm, r.version, k, n, c);
      } else {
        assert Pinned(t, r) == Pinned(s, r);
        HistorySound(Pinned(s, r), s.history, s.nextFile, k, n, c);
      }
    }
  }

  lemma InsertSequences(s: Store)
    requires SequencesOk(s) && Shape(s) && CanInsertNext(s)
    ensures SequencesOk(InsertNext(s))
  {
    var w := s.write.value;
    var k, n := w.ops[w.inserted].key, s.last + 1 + w.inserted;
    assert IsOf(w.ops, s.last + 1, k, n);
  }

  lemma InsertLogs(s: Store)
    requires LogsOk(s) && SequencesOk(s) && Shape(s) && CanInsertNext(s)
    ensures LogsOk(InsertNext(s))
  {
    hide InsertedSoFar;
    var w := s.write.value;
    var k, n := w.ops[w.inserted].key, s.last + 1 + w.inserted;
    assert IsOf(w.ops, s.last + 1, k, n);
  }

  lemma InsertNextKeeps(s: Store)
    requires Inv(s) && CanInsertNext(s)
    ensures Inv(InsertNext(s))
  {
    hide LiveOk, ReadersOk, FlushOk, DiskOk, CompactionOk, LogsOk, SequencesOk;
    var t := InsertNext(s);
    InsertLive(s);
    InsertReaders(s);
    InsertSequences(s);
    InsertLogs(s);
    FlushFrame(s, t);
    DiskFrame(s, t);
    CompactionFrame(s, t);
  }

  // ----- Rotation ----------------------------------------------------------------------

  /** An empty memtable goes on top and the full one becomes immutable. */
  lemma RotateLive(s: Store)
    requires Shape(s) && LiveOk(s) && CanRotate(s)
    ensures LiveOk(Rotate(s))
  {
    var t := Rotate(s);
    var table := Memtable(s.memtables, s.logfile);
    var f, g, h := File(s.logfile, MEM_LEVEL, table), File(s.logfile, IMM_LEVEL, table),
      File(s.nextFile, MEM_LEVEL, map[]);
    var before, after := Now(s), Now(t);
    assert before == {f} + s.current;
    assert after == {h} + {g} + s.current;
    forall a, b | a in after && b in after && Newer(a, b)
      ensures Above(a, b)
    {
      if a == g {
        assert Above(f, b);
      } else if a != h {
        assert Above(a, b);
      }
    }
  }

  lemma RotateReaders(s: Store)
    requires Shape(s) && ReadersOk(s)
    ensures ReadersOk(Rotate(s))
  {
    hide Sound;
    var t := Rotate(s);
    forall id | id in t.readers
      ensures ReaderOk(t, t.readers[id])
    {
      assert ReaderOk(s, s.readers[id]);
      assert Pinned(t, s.readers[id]) == Pinned(s, s.readers[id]);
      SoundUpTo(Pinned(s, s.readers[id]), s.history, s.nextFile, t.nextFile);
    }
  }

  lemma RotateLogs(s: Store)
    requires LogsOk(s) && SequencesOk(s) && Shape(s) && CanRotate(s)
    ensures LogsOk(Rotate(s)) && SequencesOk(Rotate(s))
  {
    hide IsOf, CellOf;
    var log, table := s.logs[s.logfile], s.memtables[s.logfile];
    forall p: InternalKey
      ensures p in log <==> p in table
      ensures p in table ==> log[p] == table[p]
    {
      var (k, n) := p;
      assert (k, n) in log <==> (k, n) in table;
    }
    assert log == table;
  }

  lemma RotateKeeps(s: Store)
    requires Inv(s) && CanRotate(s)
    ensures Inv(Rotate(s))
  {
    hide LiveOk, ReadersOk, CompactionOk, InLevels, LogsOk, SequencesOk, IsLive;
    var t := Rotate(s);
    RotateLive(s);
    RotateReaders(s);
    RotateLogs(s);
    CompactionFrame(s, t);
    assert DiskOk(t) by {
      forall f | IsLive(t, f)
        ensures IsLive(s, f)
      {
        SameLive(s, t, f);
      }
    }
  }

  lemma SameLive(s: Store, t: Store, f: File)
    requires t.current == s.current && t.readers == s.readers && t.compaction == s.compaction && IsLive(t, f)
    ensures IsLive(s, f)
  {
  }
}
