/** What a caller can check before placing a flush while a compaction runs, and when that is needed. */
module StoreGaps {
  import opened Stores
  import opened StoreRuns
  import opened StoreInvariant
  import opened StoreSorted
  import opened StoreTheorems

  /** The table's user keys meet the range from the smallest to the largest key of all inputs. */
  ghost predicate MeetsSpan(inputs: set<File>, u: Table)
  {
    (exists f :: f in inputs && SomeUpTo(f.table, u)) && (exists f :: f in inputs && SomeUpTo(u, f.table))
  }

  lemma OutputMeetsSpan(c: Compaction, o: Output, u: Table)
    requires OutputsOk(c) && o in Made(c) && RangesMeet(u, o.table)
    ensures MeetsSpan(c.inputs, u)
  {
    hide OutputsOk, Made;
    var p, q :| p in u && q in o.table && p.0 <= q.0;
    var i := OutputEntry(c, o, q);
    assert SomeUpTo(u, i.table);
    var q', p' :| q' in o.table && p' in u && q'.0 <= p'.0;
    var i' := OutputEntry(c, o, q');
    assert SomeUpTo(i'.table, u);
  }

  // ----- The check over runs -----------------------------------------------------------

  /** Every flush placed in the output level of a running compaction keeps clear of the range of its inputs. */
  ghost predicate FlushesClear(states: seq<Store>, events: seq<Event>)
    requires |states| == |events| + 1
  {
    forall i :: 0 <= i < |events| && events[i].WriteTableEvent? ==> PlacedClear(states[i], events[i].to)
  }

  ghost predicate PlacedClear(s: Store, to: int)
  {
    s.compaction.Some? && s.imm.Some? && to == s.compaction.value.level + 1 ==>
      !MeetsSpan(s.compaction.value.inputs, Memtable(s.memtables, s.imm.value))
  }

  ghost predicate ClearState(s: Store)
  {
    s.compaction.Some? ==>
      var c := s.compaction.value;
      && (forall f :: f in s.current && f !in c.version && f.level == c.level + 1 ==> !MeetsSpan(c.inputs, f.table))
      && (s.flush.Some? && s.flush.value.Installing? && s.flush.value.level == c.level + 1 && s.imm.Some? ==>
            !MeetsSpan(c.inputs, Memtable(s.memtables, s.imm.value)))
  }

  lemma StepKeepsClear(s: Store, e: Event)
    requires Inv(s) && ClearState(s) && Enabled(s, e) && (e.WriteTableEvent? ==> PlacedClear(s, e.to))
    ensures ClearState(Step(s, e))
  {
    hide Inv, ClearState, Enabled, Step;
    if e.InstallFlushEvent? || e.WriteTableEvent? || e.RotateEvent? {
      FlushKeepsClear(s, e);
    } else {
      OtherKeepsClear(s, e);
    }
  }

  lemma FlushKeepsClear(s: Store, e: Event)
    requires Inv(s) && ClearState(s) && Enabled(s, e) && (e.WriteTableEvent? ==> PlacedClear(s, e.to))
    requires e.InstallFlushEvent? || e.WriteTableEvent? || e.RotateEvent?
    ensures ClearState(Step(s, e))
  {
    hide MeetsSpan, LiveOk, ReadersOk, DiskOk, LogsOk, SequencesOk, OutputsOk, BaseOk, InputsOk, TakesOverlapping,
         PlacementOk, IsNext, Dropped, IsLive;
  }

  lemma OtherKeepsClear(s: Store, e: Event)
    requires Inv(s) && ClearState(s) && Enabled(s, e) && !e.InstallFlushEvent? && !e.WriteTableEvent? && !e.RotateEvent?
    ensures ClearState(Step(s, e))
  {
    hide MeetsSpan, LiveOk, ReadersOk, DiskOk, LogsOk, SequencesOk, OutputsOk, BaseOk, InputsOk, TakesOverlapping,
         PlacementOk, IsNext, Dropped, IsLive;
  }

  lemma {:induction false} RunKeepsClear(states: seq<Store>, events: seq<Event>, i: nat)
    requires IsRun(states, events) && FlushesClear(states, events) && i < |states|
    ensures ClearState(states[i])
  {
    hide Inv, ClearState, Enabled, Step, PlacedClear;
    if i == 0 {
      StartsClear();
    } else {
      RunKeeps(states, events, i - 1);
      RunKeepsClear(states, events, i - 1);
      StepKeepsClear(states[i - 1], events[i - 1]);
    }
  }

  lemma StartsClear()
    ensures ClearState(Init())
  {
  }

  /** The check keeps every gap: reads need no other condition on flushes. */
  lemma ClearFlushesKeepGaps(states: seq<Store>, events: seq<Event>)
    requires IsRun(states, events) && FlushesClear(states, events)
    ensures GapsKept(states, events)
  {
    forall i | 0 <= i < |events| && events[i].InstallCompactionEvent? && states[i].compaction.Some?
      ensures NoGapFilled(states[i])
    {
      RunKeeps(states, events, i);
      RunKeepsClear(states, events, i);
      ClearHasNoGap(states[i]);
    }
  }

  lemma ClearHasNoGap(s: Store)
    requires Inv(s) && ClearState(s) && s.compaction.Some?
    ensures NoGapFilled(s)
  {
    hide MeetsSpan, RangesMeet, LiveOk, ReadersOk, DiskOk, LogsOk, SequencesOk, FlushOk, OutputsOk, BaseOk, InputsOk;
    var c := s.compaction.value;
    forall f, o | f in s.current && f !in c.version && f.level == c.level + 1 && o in c.outputs
      ensures !RangesMeet(f.table, o.table)
    {
      if RangesMeet(f.table, o.table) {
        OutputMeetsSpan(c, o, f.table);
      }
    }
  }

  // ----- When the check is needed ------------------------------------------------------

  /** An entry the compaction keeps. */
  ghost predicate IsKept(c: Compaction, p: InternalKey, cell: Cell)
  {
    exists f :: f in c.inputs && p in f.table && f.table[p] == cell && !Dropped(c, p.0, p.1, cell)
  }

  /** An output some way of cutting can produce: the entries kept from one key to another. */
  ghost predicate IsCut(c: Compaction, t: Table)
  {
    && (forall p :: p in t ==> IsKept(c, p, t[p]))
    && (forall p, q, r, cell :: p in t && r in t && KeyBefore(p, q) && KeyBefore(q, r) && IsKept(c, q, cell) ==> q in t)
  }

  /** The compaction keeps entries on both sides of the table, or within its range. */
  ghost predicate KeptAround(c: Compaction, u: Table)
  {
    && (exists p, q, cell :: IsKept(c, p, cell) && q in u && p.0 <= q.0)
    && (exists p, q, cell :: IsKept(c, p, cell) && q in u && q.0 <= p.0)
  }

  /** A flushed table is safe whatever way the outputs are cut exactly when the compaction does not keep
      entries around it. */
  lemma SafeForAnyCut(c: Compaction, u: Table)
    ensures (forall t: Table :: IsCut(c, t) ==> !RangesMeet(u, t)) <==> !KeptAround(c, u)
  {
    hide IsKept;
    if KeptAround(c, u) {
      var p, q, cell :| IsKept(c, p, cell) && q in u && p.0 <= q.0;
      var p', q', cell' :| IsKept(c, p', cell') && q' in u && q'.0 <= p'.0;
      var t := AllKept(c);
      assert p in t && p' in t;
      assert IsCut(c, t) && SomeUpTo(t, u) && SomeUpTo(u, t);
    } else {
      forall t: Table | IsCut(c, t)
        ensures !RangesMeet(u, t)
      {
        NoneMeets(c, u, t);
      }
    }
  }

  /** With a single output. */
  lemma AllKept(c: Compaction) returns (t: Table)
    ensures forall p :: p in t ==> IsKept(c, p, t[p])
    ensures forall p, cell :: IsKept(c, p, cell) ==> p in t
  {
    hide Dropped;
    var keys := set f, p | f in c.inputs && p in f.table :: p;
    t := map p | p in keys && exists cell :: IsKept(c, p, cell) :: CellKept(c, p);
  }

  ghost function CellKept(c: Compaction, p: InternalKey): (cell: Cell)
    requires exists cell :: IsKept(c, p, cell)
    ensures IsKept(c, p, cell)
  {
    var cell :| IsKept(c, p, cell);
    cell
  }

  lemma NoneMeets(c: Compaction, u: Table, t: Table)
    requires IsCut(c, t) && !KeptAround(c, u)
    ensures !RangesMeet(u, t)
  {
    hide IsKept;
  }
}
