/** Flushing the immutable memtable and deleting obsolete files keep the invariant of the engine. */
module StoreFlushes {
  import opened InternalKeys
  import opened Options
  import opened Stores
  import opened StoreRuns
  import opened StoreInvariant
  import opened StoreWrites

  lemma CollectKeeps(s: Store)
    requires Inv(s) && s.flush == None
    ensures Inv(DeleteObsoleteFiles(s))
  {
    hide LiveOk, ReadersOk, CompactionOk, SequencesOk, IsLive, InLevels, IsOf, CellOf;
    var t := DeleteObsoleteFiles(s);
    LiveFrame(s, t);
    ReadersFrame(s, t);
    CompactionFrame(s, t);
    assert SequencesOk(t) by { SequencesFrame(s, t); }
    forall f | IsLive(t, f)
      ensures IsLive(s, f)
    {
      SameLive(s, t, f);
    }
    assert DiskOk(t);
    assert LogsOk(t);
  }

  lemma SequencesFrame(s: Store, t: Store)
    requires SequencesOk(s) && t.history == s.history && t.lost == s.lost && t.write == s.write && t.last == s.last
    requires s.bgError ==> t.bgError
    ensures SequencesOk(t)
  {
  }

  lemma BeginFlushKeeps(s: Store)
    requires Inv(s) && CanBeginFlush(s)
    ensures Inv(BeginFlush(s))
  {
    hide LiveOk, ReadersOk, CompactionOk, SequencesOk, IsLive, LogsOk, Sound;
    var t := BeginFlush(s);
    LiveFrame(s, t);
    ReadersFrame(s, t);
    CompactionFrame(s, t);
    LogsFrame(s, t);
    assert FlushOk(t) by { CurrentBounds(s); }
    forall f | IsLive(t, f)
      ensures IsLive(s, f)
    {
      SameLive(s, t, f);
    }
    assert DiskOk(t);
  }

  lemma CurrentBounds(s: Store)
    requires LiveOk(s)
    ensures forall f :: f in s.current ==> f.number < s.nextFile && f.level < NUM_LEVELS
  {
    assert forall f :: f in s.current ==> f in Now(s);
  }

  lemma WriteTableKeeps(s: Store, level: int)
    requires Inv(s) && CanWriteTable(s, level)
    ensures Inv(WriteTable(s, level))
  {
    hide LiveOk, ReadersOk, CompactionOk, SequencesOk, IsLive, LogsOk, PlacementOk;
    var t := WriteTable(s, level);
    LiveFrame(s, t);
    ReadersFrame(s, t);
    CompactionFrame(s, t);
    LogsFrame(s, t);
    forall f | IsLive(t, f)
      ensures IsLive(s, f)
    {
      SameLive(s, t, f);
    }
    assert DiskOk(t);
  }

  lemma FailFlushKeeps(s: Store)
    requires Inv(s) && s.flush.Some?
    ensures Inv(FailFlush(s))
  {
    hide LiveOk, ReadersOk, CompactionOk, SequencesOk, IsLive, InLevels, IsOf, CellOf;
    var t := FailFlush(s);
    LiveFrame(s, t);
    ReadersFrame(s, t);
    CompactionFrame(s, t);
    SequencesFrame(s, t);
    forall f | IsLive(t, f)
      ensures IsLive(s, f)
    {
      SameLive(s, t, f);
    }
    assert DiskOk(t);
  }

  /** The flushed table takes the place of the immutable memtable in the age ordering. */
  lemma InstallFlushSound(mem: File, imm: File, version: set<File>, f: File, history: Table, bound: nat)
    requires mem.level == MEM_LEVEL && imm.level == IMM_LEVEL && InLevels(version)
    requires Sound({mem} + {imm} + version, history, bound)
    requires f.table == imm.table && f.number < bound && PlacementOk(version, f.level, f.table)
    requires forall g :: g in version && g.level == 0 ==> g.number < f.number
    ensures Sound({mem} + version + {f}, history, bound)
  {
    var before, after := {mem} + {imm} + version, {mem} + version + {f};
    assert imm in before;
    forall a, b | a in after && b in after && Newer(a, b)
      ensures Above(a, b)
    {
      if a == f && b != f {
        assert b in before && Newer(imm, b) && Above(imm, b);
      } else if b == f && a == mem {
        assert a in before && Newer(a, imm) && Above(a, imm);
      } else if b != f {
        assert a in before && b in before;
      }
    }
  }

  lemma InstallFlushLive(s: Store)
    requires Shape(s) && LiveOk(s) && FlushOk(s) && CanInstallFlush(s)
    ensures LiveOk(InstallFlush(s))
  {
    hide Sound, PlacementOk;
    var t := InstallFlush(s);
    var table := Memtable(s.memtables, s.imm.value);
    var mem, imm := File(s.logfile, MEM_LEVEL, Memtable(s.memtables, s.logfile)), File(s.imm.value, IMM_LEVEL, table);
    var f := File(s.flush.value.number, s.flush.value.level, table);
    var before, after := Now(s), Now(t);
    assert before == {mem} + {imm} + s.current;
    if table == map[] {
      assert after == {mem} + s.current;
      SoundPart(before, after, s.history, s.nextFile);
    } else {
      assert after == {mem} + s.current + {f};
      InstallFlushSound(mem, imm, s.current, f, s.history, s.nextFile);
    }
  }

  lemma SoundPart(fs: set<File>, part: set<File>, history: Table, bound: nat)
    requires Sound(fs, history, bound) && part <= fs
    ensures Sound(part, history, bound)
  {
  }

  lemma NoSharedKey(t: Table, u: Table, k: UserKey, m: nat, n: nat)
    requires !RangesMeet(t, u) && (k, n) in u
    ensures (k, m) !in t
  {
  }

  /** A flush nested in a compaction does not disturb its inputs or its base-level answers. */
  lemma InstallFlushCompaction(s: Store)
    requires Shape(s) && LiveOk(s) && FlushOk(s) && CompactionOk(s) && CanInstallFlush(s)
    ensures CompactionOk(InstallFlush(s))
  {
    hide OutputsOk, PartOf, WithinBounds, RangesMeet;
    var t := InstallFlush(s);
    if s.compaction.Some? && t.current != s.current {
      var c := s.compaction.value;
      var imm := File(s.imm.value, IMM_LEVEL, Memtable(s.memtables, s.imm.value));
      var f := File(s.flush.value.number, s.flush.value.level, imm.table);
      assert imm in Now(s);
      forall i | i in c.inputs
        ensures Above(f, i)
      {
        assert i in Now(s) && Newer(imm, i) && Above(imm, i);
      }
      forall k, n: nat, m: nat | k in c.base && f.level > c.level + 1 && (k, n) in f.table
        ensures !Holds(c.inputs, k, m)
      {
        forall i | i in c.inputs
          ensures (k, m) !in i.table
        {
          assert i in s.current && i.level <= f.level && !RangesMeet(i.table, f.table);
          NoSharedKey(i.table, f.table, k, m, n);
        }
      }
    }
  }

  lemma InstallFlushKeeps(s: Store)
    requires Inv(s) && CanInstallFlush(s)
    ensures Inv(DeleteObsoleteFiles(InstallFlush(s)))
  {
    hide LiveOk, ReadersOk, CompactionOk, SequencesOk, IsOf, CellOf;
    var t := InstallFlush(s);
    CurrentBounds(s);
    InstallFlushLive(s);
    ReadersFrame(s, t);
    InstallFlushCompaction(s);
    SequencesFrame(s, t);
    assert Shape(t) && DiskOk(t);
    assert LogsOk(t);
    CollectKeeps(t);
  }
}
