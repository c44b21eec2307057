/** The files of every level below the first follow one another, exactly as long as no compaction closes
    over a file that was flushed into a gap between its inputs. */
module StoreSorted {
  import opened InternalKeys
  import opened Options
  import opened Stores
  import opened StoreRuns
  import opened StoreInvariant

  /** The finished outputs are not empty and follow one another, the one being built comes after them, and what
      is still to be processed comes after all of them. */
  ghost predicate CutsOk(c: Compaction)
  {
    && (forall o :: o in c.outputs ==> o.table != map[])
    && (forall o, o' :: o in c.outputs && o' in c.outputs && o != o' ==>
      WhollyBefore(o.table, o'.table) || WhollyBefore(o'.table, o.table))
    && (c.building.Some? ==> forall o :: o in c.outputs ==> WhollyBefore(o.table, c.building.value.table))
    && (forall o, p, f, q :: o in Made(c) && p in o.table && f in c.inputs && q in f.table && q !in c.done ==>
      KeyBefore(p, q))
  }

  /** Files flushed to the next level meanwhile overlap no input. */
  ghost predicate FlushedApart(current: set<File>, c: Compaction)
  {
    forall f, i :: f in current && f !in c.version && f.level == c.level + 1 && i in c.inputs ==>
      !RangesMeet(i.table, f.table)
  }

  ghost predicate RangesOk(s: Store)
  {
    s.compaction.Some? ==>
      var c := s.compaction.value;
      && c.version <= s.current && TakesOverlapping(c.version, c.level, c.inputs)
      && CutsOk(c) && FlushedApart(s.current, c)
  }

  ghost predicate SortedState(s: Store)
  {
    && SortedLevels(s.current)
    && (forall id :: id in s.readers ==> SortedLevels(s.readers[id].version))
    && RangesOk(s)
  }

  // ----- Ranges ------------------------------------------------------------------------

  /** Tables whose ranges of user keys do not meet lie one before the other. */
  lemma ApartIsOrdered(t: Table, u: Table)
    requires !RangesMeet(t, u)
    ensures WhollyBefore(t, u) || WhollyBefore(u, t)
  {
    if p, q :| p in t && q in u && !KeyBefore(p, q) {
      forall p', q' | p' in t && q' in u
        ensures KeyBefore(q', p')
      {
        assert q.0 < p.0;
      }
    }
  }

  lemma NotReached(inputs: set<File>, level: int, u: Table, f: File, f': File, p: InternalKey, p': InternalKey,
      q: InternalKey, q': InternalKey)
    requires !Reaches(inputs, level, u) && f in inputs && f' in inputs && f.level == level && f'.level == level
    requires p in f.table && p' in f'.table && q in u && q' in u
    ensures p.0 > q'.0 || q.0 > p'.0
  {
    assert p.0 <= q'.0 ==> SomeUpTo(f.table, u);
    assert q.0 <= p'.0 ==> SomeUpTo(u, f'.table);
  }

  lemma ReachedBy(inputs: set<File>, level: int, u: Table)
    returns (f: File, f': File, p: InternalKey, p': InternalKey, q: InternalKey, q': InternalKey)
    requires Reaches(inputs, level, u)
    ensures f in inputs && f' in inputs && f.level == level && f'.level == level
    ensures p in f.table && p' in f'.table && q in u && q' in u && p.0 <= q'.0 && q.0 <= p'.0
  {
    f :| f in inputs && f.level == level && SomeUpTo(f.table, u);
    f' :| f' in inputs && f'.level == level && SomeUpTo(u, f'.table);
    p, q' :| p in f.table && q' in u && p.0 <= q'.0;
    q, p' :| q in u && p' in f'.table && q.0 <= p'.0;
  }

  lemma OneSide(version: set<File>, f: File, g: File)
    requires SortedLevels(version) && f in version && g in version && f != g && f.level == g.level && f.level > 0
    ensures WhollyBefore(f.table, g.table) || WhollyBefore(g.table, f.table)
  {
  }

  /** What the next level keeps lies wholly before or wholly after all inputs. */
  lemma KeptIsAside(version: set<File>, level: int, inputs: set<File>, g: File)
    requires SortedLevels(version) && TakesOverlapping(version, level, inputs) && inputs <= version && level >= 0
    requires forall f :: f in inputs ==> f.level == level || f.level == level + 1
    requires g in version && g !in inputs && g.level == level + 1
    ensures (forall i :: i in inputs ==> WhollyBefore(g.table, i.table))
            || (forall i :: i in inputs ==> WhollyBefore(i.table, g.table))
  {
    hide Reaches, SortedLevels, WhollyBefore, TakesOverlapping;
    if f, p, q :| f in inputs && f.level == level && p in f.table && q in g.table && q.0 < p.0 {
      forall i | i in inputs
        ensures WhollyBefore(g.table, i.table)
      {
        KeptIsBefore(version, level, inputs, g, i, f, p, q);
      }
    } else {
      forall i | i in inputs
        ensures WhollyBefore(i.table, g.table)
      {
        KeptIsAfter(version, level, inputs, g, i);
      }
    }
  }

  lemma KeptIsBefore(version: set<File>, level: int, inputs: set<File>, g: File, i: File, f: File, p: InternalKey,
      q: InternalKey)
    requires SortedLevels(version) && TakesOverlapping(version, level, inputs) && inputs <= version && level >= 0
    requires i in inputs && (i.level == level || i.level == level + 1)
    requires g in version && g !in inputs && g.level == level + 1
    requires f in inputs && f.level == level && p in f.table && q in g.table && q.0 < p.0
    ensures WhollyBefore(g.table, i.table)
  {
    hide Reaches, SortedLevels;
    forall f', p', q' | f' in inputs && f'.level == level && p' in f'.table && q' in g.table
      ensures q'.0 < p'.0
    {
      NotReached(inputs, level, g.table, f', f, p', p, q, q');
    }
    if i.level == level + 1 {
      var f1, f2, p1, p2, x1, x2 := ReachedBy(inputs, level, i.table);
      assert !KeyBefore(x2, q);
      OneSide(version, g, i);
    }
  }

  lemma KeptIsAfter(version: set<File>, level: int, inputs: set<File>, g: File, i: File)
    requires SortedLevels(version) && TakesOverlapping(version, level, inputs) && inputs <= version && level >= 0
    requires i in inputs && (i.level == level || i.level == level + 1)
    requires g in version && g !in inputs && g.level == level + 1
    requires forall f, p, q :: f in inputs && f.level == level && p in f.table && q in g.table ==> q.0 >= p.0
    ensures WhollyBefore(i.table, g.table)
  {
    hide Reaches, SortedLevels;
    forall f', p', q' | f' in inputs && f'.level == level && p' in f'.table && q' in g.table
      ensures q'.0 > p'.0
    {
      NotReached(inputs, level, g.table, f', f', p', p', q', q');
    }
    if i.level == level + 1 && g.table != map[] {
      var f1, f2, p1, p2, x1, x2 := ReachedBy(inputs, level, i.table);
      var q :| q in g.table;
      assert !KeyBefore(q, x1);
      OneSide(version, g, i);
    }
  }

  // ----- Installing a compaction -------------------------------------------------------

  lemma OutputEntry(c: Compaction, o: Output, p: InternalKey) returns (i: File)
    requires OutputsOk(c) && o in Made(c) && p in o.table
    ensures i in c.inputs && p in i.table
  {
    hide Dropped;
    var (k, n) := p;
    assert (k, n) in o.table;
    i :| i in c.inputs && (k, n) in i.table;
  }

  lemma OutputAside(version: set<File>, c: Compaction, o: Output, g: File)
    requires SortedLevels(version) && TakesOverlapping(version, c.level, c.inputs)
             && InputsOk(version, c.level, c.inputs) && OutputsOk(c)
    requires o in Made(c) && g in version && g !in c.inputs && g.level == c.level + 1
    ensures WhollyBefore(g.table, o.table) || WhollyBefore(o.table, g.table)
  {
    hide OutputsOk, TakesOverlapping, SortedLevels;
    KeptIsAside(version, c.level, c.inputs, g);
    forall p | p in o.table
      ensures exists i :: i in c.inputs && p in i.table
    {
      var i := OutputEntry(c, o, p);
    }
  }

  /** After a compaction the next level is sorted if and only if no file flushed to it meanwhile meets the
      range of an output. */
  lemma InstallIsSorted(s: Store)
    requires Inv(s) && SortedState(s) && CanInstallCompaction(s)
    ensures SortedLevels(InstallCompaction(s).current) <==> NoGapFilled(s)
  {
    hide Inv, SortedState, NoGapFilled, SortedLevels;
    if NoGapFilled(s) {
      InstallSorts(s);
    }
    if SortedLevels(InstallCompaction(s).current) {
      SortedHasNoGap(s);
    }
  }

  lemma InstallSorts(s: Store)
    requires Inv(s) && SortedState(s) && CanInstallCompaction(s) && NoGapFilled(s)
    ensures SortedLevels(InstallCompaction(s).current)
  {
    hide LiveOk, ReadersOk, FlushOk, DiskOk, LogsOk, SequencesOk, OutputsOk, TakesOverlapping, RangesMeet,
         WhollyBefore, BaseOk;
    var c, t := s.compaction.value, InstallCompaction(s);
    VersionInputs(s);
    forall f, g | f in t.current && g in t.current && f != g && f.level == g.level && f.level > 0
      ensures WhollyBefore(f.table, g.table) || WhollyBefore(g.table, f.table)
    {
      if f in OutputFiles(c) && g in OutputFiles(c) {
        var o :| o in c.outputs && f == File(o.number, c.level + 1, o.table);
        var o' :| o' in c.outputs && g == File(o'.number, c.level + 1, o'.table);
      } else if f in OutputFiles(c) {
        OutputAndOther(s, f, g);
      } else if g in OutputFiles(c) {
        OutputAndOther(s, g, f);
      }
    }
  }

  lemma VersionInputs(s: Store)
    requires CompactionOk(s) && RangesOk(s) && s.compaction.Some?
    ensures InputsOk(s.compaction.value.version, s.compaction.value.level, s.compaction.value.inputs)
  {
  }

  lemma OutputAndOther(s: Store, f: File, g: File)
    requires Inv(s) && SortedState(s) && CanInstallCompaction(s) && NoGapFilled(s)
    requires f in OutputFiles(s.compaction.value) && g in s.current && g !in s.compaction.value.inputs
             && g.level == f.level
    ensures WhollyBefore(f.table, g.table) || WhollyBefore(g.table, f.table)
  {
    hide LiveOk, ReadersOk, FlushOk, DiskOk, LogsOk, SequencesOk, OutputsOk, TakesOverlapping, RangesMeet,
         WhollyBefore, BaseOk;
    var c := s.compaction.value;
    var o :| o in c.outputs && f == File(o.number, c.level + 1, o.table);
    if g in c.version {
      VersionInputs(s);
      OutputAside(c.version, c, o, g);
    } else {
      ApartIsOrdered(g.table, o.table);
    }
  }

  lemma SortedHasNoGap(s: Store)
    requires Inv(s) && SortedState(s) && CanInstallCompaction(s) && SortedLevels(InstallCompaction(s).current)
    ensures NoGapFilled(s)
  {
    hide LiveOk, ReadersOk, FlushOk, LogsOk, SequencesOk, OutputsOk, TakesOverlapping, RangesMeet, WhollyBefore,
         BaseOk, CutsOk, InputsOk;
    var c := s.compaction.value;
    forall f, o | f in s.current && f !in c.version && f.level == c.level + 1 && o in c.outputs
      ensures !RangesMeet(f.table, o.table)
    {
      var g := File(o.number, c.level + 1, o.table);
      assert IsLive(s, f);
      assert f != g && f !in c.inputs && g in OutputFiles(c);
      assert c.level
        + 1 > 0 by { assert InputsOk(s.current, c.level, c.inputs); LevelNotNegative(s.current, c.level, c.inputs); }
      OrderedIsApart(s.current, c, f, o);
    }
  }

  lemma LevelNotNegative(version: set<File>, level: int, inputs: set<File>)
    requires InputsOk(version, level, inputs)
    ensures level >= 0
  {
  }

  lemma OrderedIsApart(current: set<File>, c: Compaction, f: File, o: Output)
    requires OutputsOk(c) && o in Made(c) && FlushedApart(current, c) && f in current && f !in c.version
             && f.level == c.level + 1
    requires WhollyBefore(f.table, o.table) || WhollyBefore(o.table, f.table)
    ensures !RangesMeet(f.table, o.table)
  {
    hide OutputsOk, FlushedApart, RangesMeet, WhollyBefore, Made;
    forall p, q | p in f.table && q in o.table
      ensures p.0 != q.0
    {
      var i := OutputEntry(c, o, q);
      NoCommonKey(current, c, f, i, p, q);
    }
    OrderedApart(f.table, o.table);
  }

  lemma OrderedApart(t: Table, u: Table)
    requires WhollyBefore(t, u) || WhollyBefore(u, t)
    requires forall p, q :: p in t && q in u ==> p.0 != q.0
    ensures !RangesMeet(t, u)
  {
    if WhollyBefore(t, u) {
      assert forall p, q :: p in t && q in u ==> p.0 < q.0;
    } else {
      assert forall p, q :: p in t && q in u ==> q.0 < p.0;
    }
  }

  lemma NoCommonKey(current: set<File>, c: Compaction, f: File, i: File, p: InternalKey, q: InternalKey)
    requires FlushedApart(current, c) && f in current && f !in c.version && f.level == c.level + 1 && i in c.inputs
    requires p in f.table && q in i.table
    ensures p.0 != q.0
  {
    assert !RangesMeet(i.table, f.table);
  }

  // ----- Every event -------------------------------------------------------------------

  lemma SortedFrame(s: Store, t: Store)
    requires SortedState(s) && t.current == s.current && RangesOk(t)
    requires forall id :: id in t.readers ==>
             t.readers[id].version == s.current || (id in s.readers && t.readers[id] == s.readers[id])
    ensures SortedState(t)
  {
    hide SortedLevels, RangesOk;
  }

  lemma InstallFlushKeepsSorted(s: Store)
    requires Inv(s) && SortedState(s) && CanInstallFlush(s)
    ensures SortedState(DeleteObsoleteFiles(InstallFlush(s)))
  {
    hide LiveOk, ReadersOk, DiskOk, LogsOk, SequencesOk, OutputsOk, TakesOverlapping, RangesMeet, WhollyBefore,
         BaseOk, CutsOk, IsLive;
    var t := InstallFlush(s);
    if t.current != s.current {
      var f := File(s.flush.value.number, s.flush.value.level, Memtable(s.memtables, s.imm.value));
      forall g | g in s.current && g.level == f.level && f.level > 0
        ensures WhollyBefore(f.table, g.table) || WhollyBefore(g.table, f.table)
      {
        ApartIsOrdered(g.table, f.table);
      }
    }
    assert RangesOk(t);
    assert SortedState(t);
  }

  lemma ProcessKeepsCuts(s: Store, f: File, k: UserKey, n: nat)
    requires s.compaction.Some? && CutsOk(s.compaction.value) && CanProcess(s, f, k, n)
    ensures CutsOk(Process(s, f, k, n).compaction.value)
  {
    hide Dropped;
    var c, d := s.compaction.value, Process(s, f, k, n).compaction.value;
    if !Dropped(c, k, n, f.table[(k, n)]) {
      var o, o' := c.building.value, d.building.value;
      assert o in Made(c);
      forall p, g, q | p in o'.table && g in d.inputs && q in g.table && q !in d.done
        ensures KeyBefore(p, q)
      {
      }
      forall m, p | m in d.outputs && p in m.table
        ensures KeyBefore(p, (k, n))
      {
        assert m in Made(c);
      }
    }
    forall m | m in Made(d)
      ensures m in Made(c) || d.building == Some(m)
    {
    }
  }

  lemma StepCompactionCuts(s: Store, e: Event)
    requires s.compaction.Some? && CutsOk(s.compaction.value) && Enabled(s, e)
             && (e == OpenOutputEvent || e == FinishOutputEvent)
    ensures CutsOk(Step(s, e).compaction.value)
  {
    var c, d := s.compaction.value, Step(s, e).compaction.value;
    if e == FinishOutputEvent {
      assert Made(d) == Made(c);
    }
  }

  lemma TrivialMoveKeepsSorted(s: Store, f: File)
    requires Inv(s) && SortedState(s) && CanTrivialMove(s, f)
    ensures SortedState(TrivialMove(s, f))
  {
    hide Inv, WhollyBefore, Reaches, RangesMeet, InputsOk, RangesOk;
    var t, f' := TrivialMove(s, f), f.(level := f.level + 1);
    LevelNotNegative(s.current, f.level, {f});
    forall g | g in s.current && g.level == f.level + 1
      ensures WhollyBefore(f'.table, g.table) || WhollyBefore(g.table, f'.table)
    {
      MovedApart(f, g.table);
      ApartIsOrdered(f.table, g.table);
    }
    NoRanges(t);
  }

  lemma MovedApart(f: File, u: Table)
    requires !Reaches({f}, f.level, u)
    ensures !RangesMeet(f.table, u)
  {
    hide Reaches;
    forall p, p', q, q' | p in f.table && p' in f.table && q in u && q' in u
      ensures p.0 > q'.0 || q.0 > p'.0
    {
      NotReached({f}, f.level, u, f, f, p, p', q, q');
    }
  }

  lemma InstallCompactionKeepsSorted(s: Store)
    requires Inv(s) && SortedState(s) && CanInstallCompaction(s) && NoGapFilled(s)
    ensures SortedState(DeleteObsoleteFiles(InstallCompaction(s)))
  {
    hide Inv, SortedLevels, RangesOk, NoGapFilled, IsLive;
    InstallSorts(s);
    NoRanges(DeleteObsoleteFiles(InstallCompaction(s)));
  }

  lemma NoRanges(s: Store)
    requires s.compaction == None
    ensures RangesOk(s)
  {
  }

  lemma BeginCompactionKeepsSorted(s: Store, level: int, inputs: set<File>, base: set<UserKey>)
    requires SortedState(s) && CanBeginCompaction(s, level, inputs, base)
    ensures SortedState(BeginCompaction(s, level, inputs, base))
  {
    hide SortedLevels, TakesOverlapping, InputsOk, BaseOk, RangesMeet;
    SortedFrame(s, BeginCompaction(s, level, inputs, base));
  }

  lemma StepKeepsSorted(s: Store, e: Event)
    requires Inv(s) && SortedState(s) && Enabled(s, e)
    requires e == InstallCompactionEvent ==> NoGapFilled(s)
    ensures SortedState(Step(s, e))
  {
    if e == InstallFlushEvent {
      InstallFlushKeepsSorted(s);
    } else if e == InstallCompactionEvent {
      InstallCompactionKeepsSorted(s);
    } else if e.TrivialMoveEvent? {
      TrivialMoveKeepsSorted(s, e.f);
    } else if e.BeginCompactionEvent? {
      BeginCompactionKeepsSorted(s, e.level, e.inputs, e.base);
    } else if e.ProcessEvent? || e == OpenOutputEvent || e == FinishOutputEvent {
      CompactingKeepsSorted(s, e);
    } else {
      OtherKeepsSorted(s, e);
    }
  }

  lemma CompactingKeepsSorted(s: Store, e: Event)
    requires SortedState(s) && Enabled(s, e) && (e.ProcessEvent? || e == OpenOutputEvent || e == FinishOutputEvent)
    ensures SortedState(Step(s, e))
  {
    hide SortedLevels, CutsOk, FlushedApart, TakesOverlapping, IsNext, Dropped;
    if e.ProcessEvent? {
      ProcessKeepsCuts(s, e.f, e.k, e.n);
    } else {
      StepCompactionCuts(s, e);
    }
    RangesFrame(s, Step(s, e));
    SortedFrame(s, Step(s, e));
  }

  lemma OtherKeepsSorted(s: Store, e: Event)
    requires SortedState(s) && Enabled(s, e)
    requires e != InstallFlushEvent && e != InstallCompactionEvent && !e.TrivialMoveEvent? && !e.BeginCompactionEvent?
    requires !e.ProcessEvent? && e != OpenOutputEvent && e != FinishOutputEvent
    ensures SortedState(Step(s, e))
  {
    hide SortedLevels, CutsOk, FlushedApart, TakesOverlapping, PlacementOk;
    RangesFrame(s, Step(s, e));
    SortedFrame(s, Step(s, e));
  }

  lemma RangesFrame(s: Store, t: Store)
    requires RangesOk(s) && t.current == s.current
    requires t.compaction.Some? ==> s.compaction.Some? && CutsOk(t.compaction.value)
    requires t.compaction.Some? ==> var c, d := s.compaction.value, t.compaction.value;
                                    d.version == c.version && d.level == c.level && d.inputs == c.inputs
    ensures RangesOk(t)
  {
    hide CutsOk, TakesOverlapping;
  }
}
