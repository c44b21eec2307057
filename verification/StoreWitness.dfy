/** Runs in which a read goes wrong: one whose compaction drops a marker over an older entry, and one whose
    compaction closes over a flushed file. Each meets the other condition of GetReturnsHistory. */
module StoreWitness {
  import opened InternalKeys
  import opened Options
  import opened Stores
  import opened StoreRuns
  import opened StoreInvariant
  import opened StoreReads
  import opened StoreSorted
  import opened StoreTheorems

  // ----- Building runs -----------------------------------------------------------------

  /** The conditions an event meets, as far as asked for. */
  ghost predicate Calm(s: Store, e: Event, markers: bool, gaps: bool)
  {
    && (markers && e.BeginCompactionEvent? ==> MarkersOk(s.current, e.level, e.inputs, e.base, SmallestSnapshot(s)))
    && (gaps && e.InstallCompactionEvent? && s.compaction.Some? ==> NoGapFilled(s))
  }

  ghost predicate Runs(states: seq<Store>, events: seq<Event>, markers: bool, gaps: bool)
  {
    && |states| == |events| + 1 && states[0] == Init()
    && forall i :: 0 <= i < |events| ==>
         Enabled(states[i], events[i]) && states[i + 1] == Step(states[i], events[i])
           && Calm(states[i], events[i], markers, gaps)
  }

  ghost predicate Reached(s: Store, markers: bool, gaps: bool)
  {
    exists states, events :: Runs(states, events, markers, gaps) && states[|events|] == s
  }

  lemma OneMore(s: Store, e: Event, markers: bool, gaps: bool)
    requires Reached(s, markers, gaps) && Enabled(s, e) && Calm(s, e, markers, gaps)
    ensures Reached(Step(s, e), markers, gaps)
  {
    hide Enabled, Step, Calm;
    var states, events :| Runs(states, events, markers, gaps) && states[|events|] == s;
    var states', events' := states + [Step(s, e)], events + [e];
    forall i | 0 <= i < |events'|
      ensures Enabled(states'[i], events'[i]) && states'[i + 1] == Step(states'[i], events'[i])
              && Calm(states'[i], events'[i], markers, gaps)
    {
    }
    assert Runs(states', events', markers, gaps);
  }

  lemma Starts(markers: bool, gaps: bool)
    ensures Reached(Init(), markers, gaps)
  {
    assert Runs([Init()], [], markers, gaps);
  }

  /** Nothing is under way but perhaps a compaction. */
  ghost predicate Quiet(s: Store)
  {
    && s.write == None && s.imm == None && s.flush == None && !s.bgError
    && s.logfile in s.memtables && s.logfile in s.logs && s.logNumber <= s.logfile < s.nextFile
  }

  /** What a write or a flush leaves alone. */
  ghost predicate Same(s: Store, t: Store)
  {
    t.snapshots == s.snapshots && t.readers == s.readers && t.compaction == s.compaction && t.horizon == s.horizon
  }

  lemma DoBeginWrite(s: Store, ops: seq<Op>, markers: bool, gaps: bool) returns (t: Store)
    requires Reached(s, markers, gaps) && CanBeginWrite(s)
    ensures Reached(t, markers, gaps) && t == BeginWrite(s, ops)
  {
    hide Reached, IsLive, CanBeginWrite, BeginWrite, MarkersOk, NoGapFilled;
    OneMore(s, BeginWriteEvent(ops), markers, gaps);
    t := Step(s, BeginWriteEvent(ops));
  }

  lemma DoLogWrite(s: Store, markers: bool, gaps: bool) returns (t: Store)
    requires Reached(s, markers, gaps) && CanLogWrite(s)
    ensures Reached(t, markers, gaps) && t == LogWrite(s)
  {
    hide Reached, IsLive, CanLogWrite, LogWrite, MarkersOk, NoGapFilled;
    OneMore(s, LogWriteEvent, markers, gaps);
    t := Step(s, LogWriteEvent);
  }

  lemma DoInsertNext(s: Store, markers: bool, gaps: bool) returns (t: Store)
    requires Reached(s, markers, gaps) && CanInsertNext(s)
    ensures Reached(t, markers, gaps) && t == InsertNext(s)
  {
    hide Reached, IsLive, CanInsertNext, InsertNext, MarkersOk, NoGapFilled;
    OneMore(s, InsertNextEvent, markers, gaps);
    t := Step(s, InsertNextEvent);
  }

  lemma DoEndWrite(s: Store, markers: bool, gaps: bool) returns (t: Store)
    requires Reached(s, markers, gaps) && CanEndWrite(s)
    ensures Reached(t, markers, gaps) && t == EndWrite(s)
  {
    hide Reached, IsLive, CanEndWrite, EndWrite, MarkersOk, NoGapFilled;
    OneMore(s, EndWriteEvent, markers, gaps);
    t := Step(s, EndWriteEvent);
  }

  lemma DoRotate(s: Store, markers: bool, gaps: bool) returns (t: Store)
    requires Reached(s, markers, gaps) && CanRotate(s)
    ensures Reached(t, markers, gaps) && t == Rotate(s)
  {
    hide Reached, IsLive, CanRotate, Rotate, MarkersOk, NoGapFilled;
    OneMore(s, RotateEvent, markers, gaps);
    t := Step(s, RotateEvent);
  }

  lemma DoBeginFlush(s: Store, markers: bool, gaps: bool) returns (t: Store)
    requires Reached(s, markers, gaps) && CanBeginFlush(s)
    ensures Reached(t, markers, gaps) && t == BeginFlush(s)
  {
    hide Reached, IsLive, CanBeginFlush, BeginFlush, MarkersOk, NoGapFilled;
    OneMore(s, BeginFlushEvent, markers, gaps);
    t := Step(s, BeginFlushEvent);
  }

  lemma DoWriteTable(s: Store, to: int, markers: bool, gaps: bool) returns (t: Store)
    requires Reached(s, markers, gaps) && CanWriteTable(s, to)
    ensures Reached(t, markers, gaps) && t == WriteTable(s, to)
  {
    hide Reached, IsLive, PlacementOk, MarkersOk, NoGapFilled;
    OneMore(s, WriteTableEvent(to), markers, gaps);
    t := Step(s, WriteTableEvent(to));
  }

  lemma DoInstallFlush(s: Store, markers: bool, gaps: bool) returns (t: Store)
    requires Reached(s, markers, gaps) && CanInstallFlush(s)
    ensures Reached(t, markers, gaps) && t == DeleteObsoleteFiles(InstallFlush(s))
  {
    hide Reached, IsLive, DeleteObsoleteFiles, InstallFlush, MarkersOk, NoGapFilled;
    OneMore(s, InstallFlushEvent, markers, gaps);
    t := Step(s, InstallFlushEvent);
  }

  lemma DoOpen(s: Store, markers: bool, gaps: bool) returns (t: Store)
    requires Reached(s, markers, gaps) && Compacting(s) && s.compaction.value.building == None
    ensures Reached(t, markers, gaps) && t == OpenOutput(s)
  {
    hide Reached, IsLive, OpenOutput, MarkersOk, NoGapFilled;
    OneMore(s, OpenOutputEvent, markers, gaps);
    t := Step(s, OpenOutputEvent);
  }

  lemma DoProcess(s: Store, f: File, k: UserKey, n: nat, markers: bool, gaps: bool) returns (t: Store)
    requires Reached(s, markers, gaps) && CanProcess(s, f, k, n)
    ensures Reached(t, markers, gaps) && t == Process(s, f, k, n)
  {
    hide Reached, IsLive, CanProcess, Process, MarkersOk, NoGapFilled;
    OneMore(s, ProcessEvent(f, k, n), markers, gaps);
    t := Step(s, ProcessEvent(f, k, n));
  }

  lemma DoFinish(s: Store, markers: bool, gaps: bool) returns (t: Store)
    requires Reached(s, markers, gaps) && CanFinishOutput(s)
    ensures Reached(t, markers, gaps) && t == FinishOutput(s)
  {
    hide Reached, IsLive, CanFinishOutput, FinishOutput, MarkersOk, NoGapFilled;
    OneMore(s, FinishOutputEvent, markers, gaps);
    t := Step(s, FinishOutputEvent);
  }

  lemma DoInstall(s: Store, markers: bool, gaps: bool) returns (t: Store)
    requires Reached(s, markers, gaps) && CanInstallCompaction(s) && (gaps ==> NoGapFilled(s))
    ensures Reached(t, markers, gaps) && t == DeleteObsoleteFiles(InstallCompaction(s))
  {
    hide Reached, IsLive, DeleteObsoleteFiles, InstallCompaction, MarkersOk, NoGapFilled;
    OneMore(s, InstallCompactionEvent, markers, gaps);
    t := Step(s, InstallCompactionEvent);
  }

  lemma DoBeginCompaction(s: Store, level: int, inputs: set<File>, base: set<UserKey>, markers: bool, gaps: bool)
    returns (t: Store)
    requires Reached(s, markers, gaps) && CanBeginCompaction(s, level, inputs, base)
             && (markers ==> MarkersOk(s.current, level, inputs, base, SmallestSnapshot(s)))
    ensures Reached(t, markers, gaps) && t == BeginCompaction(s, level, inputs, base)
  {
    hide Reached, IsLive, CanBeginCompaction, BeginCompaction, MarkersOk, NoGapFilled;
    OneMore(s, BeginCompactionEvent(level, inputs, base), markers, gaps);
    t := Step(s, BeginCompactionEvent(level, inputs, base));
  }

  lemma Writes(s: Store, k: UserKey, cell: Cell, markers: bool, gaps: bool) returns (t: Store)
    requires Reached(s, markers, gaps) && Quiet(s)
    ensures Reached(t, markers, gaps) && Quiet(t) && Same(s, t) && t.current == s.current
    ensures t.last == s.last + 1 && t.history == s.history[(k, s.last + 1) := cell]
    ensures Memtable(t.memtables, t.logfile) == Memtable(s.memtables, s.logfile)[(k, s.last + 1) := cell]
    ensures Memtable(t.memtables, t.logfile) != map[]
  {
    hide Reached;
    t := DoBeginWrite(s, [Op(k, cell)], markers, gaps);
    t := DoLogWrite(t, markers, gaps);
    t := DoInsertNext(t, markers, gaps);
    t := DoEndWrite(t, markers, gaps);
    assert (k, s.last + 1) in Memtable(t.memtables, t.logfile);
  }

  lemma Flushes(s: Store, to: int, markers: bool, gaps: bool) returns (t: Store, f: File)
    requires Reached(s, markers, gaps) && Quiet(s) && Memtable(s.memtables, s.logfile) != map[]
    requires PlacementOk(s.current, to, Memtable(s.memtables, s.logfile))
    ensures Reached(t, markers, gaps) && Quiet(t) && Same(s, t) && t.last == s.last && t.history == s.history
    ensures f.level == to && f.table == Memtable(s.memtables, s.logfile) && t.current == s.current + {f}
    ensures f.number >= s.nextFile && t.nextFile > f.number && Memtable(t.memtables, t.logfile) == map[]
  {
    hide Reached, PlacementOk, IsLive;
    t := DoRotate(s, markers, gaps);
    t := DoBeginFlush(t, markers, gaps);
    f := File(t.flush.value.number, to, Memtable(s.memtables, s.logfile));
    t := DoWriteTable(t, to, markers, gaps);
    t := DoInstallFlush(t, markers, gaps);
  }

  lemma StartQuiet()
    ensures Quiet(Init()) && Memtable(Init().memtables, Init().logfile) == map[]
  {
  }

  lemma StatesOf(s: Store, markers: bool, gaps: bool) returns (states: seq<Store>, events: seq<Event>)
    requires Reached(s, markers, gaps)
    ensures IsRun(states, events) && states[|events|] == s
    ensures markers ==> MarkersKept(states, events)
    ensures gaps ==> GapsKept(states, events)
  {
    hide Enabled, Step, MarkersOk, NoGapFilled;
    states, events :| Runs(states, events, markers, gaps) && states[|events|] == s;
  }

  // ----- A flush into a gap ------------------------------------------------------------

  const LOW: Table := map[(2, 1) := Put([1])]
  const HIGH: Table := map[(8, 2) := Put([2])]
  const NEW_LOW: Table := map[(2, 3) := Put([3])]
  const NEW_HIGH: Table := map[(8, 4) := Put([4])]
  const GAP: Table := map[(5, 5) := Put([5])]
  const CLOSED: Table := map[(2, 3) := Put([3]), (8, 4) := Put([4])]

  /** Nothing overlaps, so the flush goes all the way down. */
  lemma PlacedDeep(version: set<File>, table: Table)
    requires table != map[] && forall g :: g in version && g.level <= 2 ==> !RangesMeet(g.table, table)
    ensures PlacementOk(version, 2, table)
  {
  }

  /** Two files go to level 2 of an empty tree. */
  lemma TwoBelow() returns (s: Store, a: File, b: File)
    ensures Reached(s, true, false) && Quiet(s) && Memtable(s.memtables, s.logfile) == map[]
    ensures a.level == 2 && b.level == 2 && a.table == LOW && b.table == HIGH && s.current == {a, b}
    ensures s.last == 2 && s.compaction == None && s.snapshots == [] && s.readers == map[]
  {
    hide Reached, IsLive, PlacementOk, RangesMeet;
    Starts(true, false);
    StartQuiet();
    s := Writes(Init(), 2, Put([1]), true, false);
    PlacedDeep(s.current, LOW);
    s, a := Flushes(s, 2, true, false);
    s := Writes(s, 8, Put([2]), true, false);
    SinglesMeet(LOW, (2, 1), HIGH, (8, 2));
    PlacedDeep(s.current, HIGH);
    s, b := Flushes(s, 2, true, false);
    assert s.current == {a, b};
  }

  lemma SinglesMeet(t: Table, p: InternalKey, u: Table, q: InternalKey)
    requires t.Keys == {p} && u.Keys == {q}
    ensures RangesMeet(t, u) <==> p.0 == q.0
    ensures SomeUpTo(t, u) <==> p.0 <= q.0
  {
    assert p in t && q in u;
  }

  lemma PlacedAbove(version: set<File>, table: Table, p: InternalKey, f: File)
    requires table.Keys == {p} && (forall g :: g in version && g.level <= 1 ==> !RangesMeet(g.table, table))
    requires f in version && f.level == 2 && RangesMeet(f.table, table)
    ensures PlacementOk(version, 1, table)
  {
    hide RangesMeet;
    assert p in table;
    assert MeetsLevel(version, 2, table);
  }

  /** The same keys again are held up by them in level 1. */
  lemma TwoAbove() returns (s: Store, a: File, b: File, f: File, g: File)
    ensures Reached(s, true, false) && Quiet(s) && Memtable(s.memtables, s.logfile) == map[]
    ensures a.level == 2 && b.level == 2 && a.table == LOW && b.table == HIGH
    ensures f.level == 1 && g.level == 1 && f.table == NEW_LOW && g.table == NEW_HIGH && s.current == {a, b, f, g}
    ensures s.last == 4 && s.compaction == None && s.snapshots == [] && s.readers == map[]
  {
    hide Reached, IsLive, PlacementOk, RangesMeet, Quiet;
    s, a, b := TwoBelow();
    s := Writes(s, 2, Put([3]), true, false);
    SinglesMeet(LOW, (2, 1), NEW_LOW, (2, 3));
    PlacedAbove(s.current, NEW_LOW, (2, 3), a);
    s, f := Flushes(s, 1, true, false);
    s := Writes(s, 8, Put([4]), true, false);
    SinglesMeet(HIGH, (8, 2), NEW_HIGH, (8, 4));
    SinglesMeet(NEW_LOW, (2, 3), NEW_HIGH, (8, 4));
    PlacedAbove(s.current, NEW_HIGH, (8, 4), b);
    s, g := Flushes(s, 1, true, false);
    assert s.current == {a, b, f, g};
  }

  ghost predicate FourInputs(a: File, b: File, f: File, g: File)
  {
    && a.level == 2 && b.level == 2 && a.table == LOW && b.table == HIGH
    && f.level == 1 && g.level == 1 && f.table == NEW_LOW && g.table == NEW_HIGH
  }

  /** A compaction of level 1, requested by hand, takes all four. */
  lemma MayTakeAll(a: File, b: File, f: File, g: File)
    requires FourInputs(a, b, f, g)
    ensures var all := {a, b, f, g};
            InputsOk(all, 1, all) && TakesOverlapping(all, 1, all) && BaseOk(all, 1, all, {2, 8})
              && MarkersOk(all, 1, all, {2, 8}, 4)
  {
    hide SomeUpTo, RangesMeet;
    var all := {a, b, f, g};
    assert f in all && g in all;
    SinglesMeet(NEW_LOW, (2, 3), LOW, (2, 1));
    SinglesMeet(LOW, (2, 1), NEW_LOW, (2, 3));
    SinglesMeet(NEW_HIGH, (8, 4), HIGH, (8, 2));
    SinglesMeet(HIGH, (8, 2), NEW_HIGH, (8, 4));
    assert Reaches(all, 1, LOW) && Reaches(all, 1, HIGH);
    assert forall h, p :: h in all && p in h.table ==> h.table[p] != Del;
  }

  lemma AllRules(c: Compaction, a: File, b: File, f: File, g: File)
    requires FourInputs(a, b, f, g) && c.inputs == {a, b, f, g} && c.smallestSnapshot == 4
    ensures !Dropped(c, 2, 3, Put([3])) && Dropped(c, 2, 1, Put([1])) && !Dropped(c, 8, 4, Put([4]))
            && Dropped(c, 8, 2, Put([2]))
    ensures c.done == {} ==> IsNext(c, (2, 3))
    ensures c.done == {(2, 3)} ==> IsNext(c, (2, 1))
    ensures c.done == {(2, 3), (2, 1)} ==> IsNext(c, (8, 4))
    ensures c.done == {(2, 3), (2, 1), (8, 4)} ==> IsNext(c, (8, 2))
  {
    assert a in c.inputs && b in c.inputs && f in c.inputs && g in c.inputs;
    assert (2, 1) in a.table && (2, 3) in f.table && (8, 2) in b.table && (8, 4) in g.table;
    assert Holds(c.inputs, 2, 3) && Holds(c.inputs, 8, 4);
  }

  /** It has passed its first entry. */
  lemma GapOpens() returns (s: Store, a: File, b: File, f: File, g: File, o: Output)
    ensures Reached(s, true, false) && Quiet(s) && Memtable(s.memtables, s.logfile) == map[]
    ensures FourInputs(a, b, f, g) && s.current == {a, b, f, g} && s.last == 4 && s.readers == map[]
            && o.number < s.nextFile
    ensures s.compaction == Some(Compaction(1, {a, b, f, g}, {2, 8}, 4, {a, b, f, g}, {(2, 3)}, {}, Some(o)))
            && o.table == NEW_LOW
  {
    hide Reached, IsLive, Dropped, IsNext, InputsOk, TakesOverlapping, BaseOk, MarkersOk;
    s, a, b, f, g := TwoAbove();
    MayTakeAll(a, b, f, g);
    s := DoBeginCompaction(s, 1, {a, b, f, g}, {2, 8}, true, false);
    s := DoOpen(s, true, false);
    AllRules(s.compaction.value, a, b, f, g);
    s := DoProcess(s, f, 2, 3, true, false);
    o := s.compaction.value.building.value;
    assert o.table == NEW_LOW && s.compaction.value.done == {(2, 3)};
  }

  lemma GapIsFree(a: File, b: File, f: File, g: File)
    requires FourInputs(a, b, f, g)
    ensures PlacementOk({a, b, f, g}, 2, GAP)
  {
    hide RangesMeet;
    SinglesMeet(LOW, (2, 1), GAP, (5, 5));
    SinglesMeet(HIGH, (8, 2), GAP, (5, 5));
    SinglesMeet(NEW_LOW, (2, 3), GAP, (5, 5));
    SinglesMeet(NEW_HIGH, (8, 4), GAP, (5, 5));
    assert (5, 5) in GAP;
  }

  /** Key 5 is flushed into the gap, and the compaction ends. */
  lemma GapCloses() returns (s: Store, h: File, out: File)
    ensures Reached(s, true, false) && s.current == {h, out} && Quiet(s) && Memtable(s.memtables, s.logfile) == map[]
    ensures h.level == 2 && out.level == 2 && h.table == GAP && out.table == CLOSED
    ensures s.last == 5 && (5, 5) in s.history && s.history[(5, 5)] == Put([5]) && s.readers == map[]
  {
    hide Reached, IsLive, Dropped, IsNext, Quiet, PlacementOk, FourInputs;
    var s1, a, b, f, g, o := GapOpens();
    var s2 := Writes(s1, 5, Put([5]), true, false);
    GapIsFree(a, b, f, g);
    var s3;
    s3, h := Flushes(s2, 2, true, false);
    s, out := GapIsClosed(s3, a, b, f, g, h, o);
  }

  lemma GapIsClosed(s3: Store, a: File, b: File, f: File, g: File, h: File, o: Output) returns (s: Store, out: File)
    requires Reached(s3, true, false) && s3.current == {a, b, f, g} + {h} && Quiet(s3)
             && Memtable(s3.memtables, s3.logfile) == map[]
    requires FourInputs(a, b, f, g) && h.level == 2 && h.table == GAP && o.table == NEW_LOW
    requires s3.compaction == Some(Compaction(1, {a, b, f, g}, {2, 8}, 4, {a, b, f, g}, {(2, 3)}, {}, Some(o)))
    ensures Reached(s, true, false) && s.current == {h, out} && Quiet(s) && Memtable(s.memtables, s.logfile) == map[]
    ensures out.level == 2 && out.table == CLOSED
    ensures s.last == s3.last && s.history == s3.history && s.readers == s3.readers
  {
    hide Reached, IsLive, Dropped, IsNext;
    AllRules(s3.compaction.value, a, b, f, g);
    s := DoProcess(s3, a, 2, 1, true, false);
    assert s.compaction.value.done == {(2, 3), (2, 1)};
    s := TakesRest(s, a, b, f, g, h, o);
    assert (5, 5) in h.table && h !in {a, b, f, g};
    s, out := GapEnds(s, {a, b, f, g}, h);
  }

  lemma GapEnds(s0: Store, all: set<File>, h: File) returns (s: Store, out: File)
    requires Reached(s0, true, false) && s0.current == all + {h} && Quiet(s0) && h !in all
    requires s0.compaction.Some? && s0.compaction.value.level == 1 && s0.compaction.value.inputs == all
             && s0.compaction.value.outputs == {}
    requires s0.compaction.value.building.Some? && s0.compaction.value.building.value.table == CLOSED
    requires forall f, p :: f in all && p in f.table ==> p in s0.compaction.value.done
    ensures Reached(s, true, false) && s.current == {h, out} && Quiet(s) && s.memtables == s0.memtables
            && s.logfile == s0.logfile
    ensures out.level == 2 && out.table == CLOSED
    ensures s.last == s0.last && s.history == s0.history && s.readers == s0.readers
  {
    hide Reached, IsLive;
    var o := s0.compaction.value.building.value;
    assert (2, 3) in CLOSED;
    s := DoFinish(s0, true, false);
    assert s.compaction.value.outputs == {o};
    out := File(o.number, 2, CLOSED);
    assert OutputFiles(s.compaction.value) == {out};
    assert all + {h} - all + {out} == {h, out};
    s := DoInstall(s, true, false);
  }

  lemma TakesRest(s0: Store, a: File, b: File, f: File, g: File, h: File, o: Output) returns (s: Store)
    requires Reached(s0, true, false) && s0.current == {a, b, f, g} + {h} && Quiet(s0) && FourInputs(a, b, f, g)
             && o.table == NEW_LOW
    requires s0.compaction == Some(Compaction(1, {a, b, f, g}, {2, 8}, 4, {a, b, f, g}, {(2, 3), (2, 1)}, {}, Some(o)))
    ensures Reached(s, true, false) && s == s0.(compaction := s.compaction) && s.compaction.Some?
    ensures s.compaction.value.building.Some? && s.compaction.value.building.value.table == CLOSED
    ensures var done := {(2, 3), (2, 1), (8, 4), (8, 2)};
            s.compaction.value == s0.compaction.value.(done := done, building := s.compaction.value.building)
  {
    hide Reached, IsLive, Dropped, IsNext;
    AllRules(s0.compaction.value, a, b, f, g);
    s := DoProcess(s0, g, 8, 4, true, false);
    assert s.compaction.value.done == {(2, 3), (2, 1), (8, 4)} && s.compaction.value.building.value.table == CLOSED;
    AllRules(s.compaction.value, a, b, f, g);
    s := DoProcess(s, b, 8, 2, true, false);
    assert s.compaction.value.done == {(2, 3), (2, 1), (8, 4), (8, 2)};
  }

  lemma {:induction false} NothingFound(fs: set<File>, bound: nat, r: int, k: UserKey, s: nat)
    requires forall q :: Probe(fs, bound, q, k, s) == None
    ensures Search(fs, bound, r, k, s) == None
    decreases bound + NUM_LEVELS - r
  {
    hide Probe;
    if r < bound + NUM_LEVELS {
      NothingFound(fs, bound, r + 1, k, s);
    }
  }

  lemma {:induction false} NoneIn(fs: set<File>, k: UserKey, s: nat)
    requires forall f, m: nat :: f in fs && m <= s ==> (k, m) !in f.table
    ensures NewestIn(fs, k, s) == None
  {
    if s > 0 {
      NoneIn(fs, k, s - 1);
    }
  }

  lemma SmallestOf(t: Table, p: InternalKey)
    requires IsSmallest(t, p)
    ensures Smallest(t) == p
  {
  }

  /** The version lists the output first, as its smallest key is. */
  lemma GapListing(h: File, out: File)
    requires h.table == GAP && out.table == CLOSED
    ensures Listing({h, out}) == [out, h]
  {
    assert (5, 5) in GAP && (2, 3) in CLOSED && (8, 4) in CLOSED && (5, 5) !in CLOSED;
    SmallestOf(GAP, (5, 5));
    SmallestOf(CLOSED, (2, 3));
    TwoListed(out, h);
  }

  lemma TwoListed(f: File, g: File)
    requires f != g && ListedBefore(f, g)
    ensures Listing({g, f}) == [f, g]
  {
    hide Listing, ListedBefore;
    var s := Listing({g, f});
    assert f in s && g in s;
    var i :| 0 <= i < |s| && s[i] == f;
    var j :| 0 <= j < |s| && s[j] == g;
    ListingSize({g, f});
    assert |{g, f}| == 2;
    assert i < j;
  }

  lemma {:induction false} ListingSize(run: set<File>)
    ensures |Listing(run)| == |run|
  {
    hide ListedBefore;
    if run != {} {
      ListingSize(run - {Listing(run)[0]});
    }
  }

  /** So the binary search leads to the output, whose largest key is beyond the one looked for. */
  lemma GapIsSearched(h: File, out: File)
    requires h.table == GAP && out.table == CLOSED
    ensures FileFor({h, out}, (5, 5)) == {out}
  {
    hide Listing;
    GapListing(h, out);
    assert (5, 5) in h.table && (8, 4) in out.table;
    assert !EndsBefore(h.table, (5, 5)) && !EndsBefore(out.table, (5, 5));
    assert FindIn([out, h], (5, 5), 0, 0) == 0;
    assert FindIn([out, h], (5, 5), 0, 1) == 0;
    assert FindIn([out, h], (5, 5), 0, 2) == 0;
  }

  lemma GapIsMissed(fs: set<File>, mem: File, h: File, out: File, bound: nat, q: int)
    requires fs == {mem} + {h, out} && mem.level == MEM_LEVEL && mem.table == map[]
    requires h.level == 2 && out.level == 2 && h.table == GAP && out.table == CLOSED
    ensures Probe(fs, bound, q, 5, 5) == None
  {
    hide FileFor;
    var run := RunAt(fs, bound, q);
    if q == bound + 2 {
      assert run == {h, out};
      GapIsSearched(h, out);
      NoneIn({out}, 5, 5);
    } else {
      assert h !in run && out !in run;
      NoneIn(run, 5, 5);
      NoneIn(FileFor(run, (5, 5)), 5, 5);
    }
  }

  /** A run without any deletion in which a read misses an acknowledged write. */
  lemma FilledGapIsMissed() returns (states: seq<Store>, events: seq<Event>)
    ensures IsRun(states, events) && MarkersKept(states, events) && NothingUncovered(states, events, Running)
    ensures !GapsKept(states, events)
    ensures var s := states[|events|];
            && 0 in s.readers && s.readers[0].snapshot == s.last == 5
            && Result(s, s.readers[0], 5) == None && ValueOf(ReadAt(s.history, 5, 5)) == Some([5])
  {
    hide Reached, IsLive, MarkersKept, NothingUncovered, GapsKept, Probe;
    var s, h, out := GapCloses();
    OneMore(s, BeginGetEvent(0, 5), true, false);
    var t := Step(s, BeginGetEvent(0, 5));
    var mem := File(t.logfile, MEM_LEVEL, map[]);
    assert Pinned(t, t.readers[0]) == {mem} + {h, out};
    forall q
      ensures Probe(Pinned(t, t.readers[0]), t.nextFile, q, 5, 5) == None
    {
      GapIsMissed(Pinned(t, t.readers[0]), mem, h, out, t.nextFile, q);
    }
    NothingFound(Pinned(t, t.readers[0]), t.nextFile, MEM_LEVEL, 5, 5);
    states, events := StatesOf(t, true, false);
    KeptUncoversNothing(states, events, Running);
    if GapsKept(states, events) {
      RunKeepsSorted(states, events, |events|);
      NotSorted(t, h, out);
    }
  }

  lemma NotSorted(t: Store, h: File, out: File)
    requires t.current == {h, out} && h.level == 2 && out.level == 2 && h.table == GAP && out.table == CLOSED
    ensures !SortedState(t)
  {
    assert (8, 4) in out.table && (2, 3) in out.table && (5, 5) in h.table;
    assert !WhollyBefore(out.table, h.table) && !WhollyBefore(h.table, out.table);
    assert h in t.current && out in t.current;
  }

  // ----- A marker dropped over an older entry ------------------------------------------

  const OLD: Table := map[(5, 1) := Put([7])]
  const MARKED: Table := map[(1, 3) := Put([1]), (5, 2) := Del]
  const ALL: Table := map[(5, 1) := Put([7]), (5, 2) := Del, (1, 3) := Put([1])]
  const AGAIN: Table := map[(1, 4) := Put([2])]

  lemma DoTakeSnapshot(s: Store, markers: bool, gaps: bool) returns (t: Store)
    requires Reached(s, markers, gaps)
    ensures Reached(t, markers, gaps) && t == TakeSnapshot(s)
  {
    hide Reached, TakeSnapshot;
    OneMore(s, TakeSnapshotEvent, markers, gaps);
    t := Step(s, TakeSnapshotEvent);
  }

  lemma DoReleaseSnapshot(s: Store, i: nat, markers: bool, gaps: bool) returns (t: Store)
    requires Reached(s, markers, gaps) && i < |s.snapshots|
    ensures Reached(t, markers, gaps) && t == ReleaseSnapshot(s, i)
  {
    hide Reached, ReleaseSnapshot;
    OneMore(s, ReleaseSnapshotEvent(i), markers, gaps);
    t := Step(s, ReleaseSnapshotEvent(i));
  }

  /** Key 5 is written, a snapshot taken, key 5 deleted and key 1 written; all of it is in one file. */
  lemma MarkerWritten() returns (s: Store, f: File)
    ensures Reached(s, false, true) && Quiet(s) && Memtable(s.memtables, s.logfile) == map[] && s.compaction == None
    ensures f.level == 2 && f.table == ALL && s.current == {f} && s.snapshots == [1] && s.last == 3
            && s.history == ALL && s.readers == map[]
  {
    hide Reached, IsLive, PlacementOk;
    Starts(false, true);
    StartQuiet();
    s := Writes(Init(), 5, Put([7]), false, true);
    s := DoTakeSnapshot(s, false, true);
    s := Writes(s, 5, Del, false, true);
    s := Writes(s, 1, Put([1]), false, true);
    assert Memtable(s.memtables, s.logfile) == ALL;
    PlacedDeep(s.current, ALL);
    s, f := Flushes(s, 2, false, true);
  }

  lemma CutRules(s: Store, f: File)
    requires s.compaction.Some? && s.compaction.value.inputs == {f} && f.table == ALL
             && s.compaction.value.smallestSnapshot == 1
    ensures !Dropped(s.compaction.value, 1, 3, Put([1])) && !Dropped(s.compaction.value, 5, 2, Del)
            && !Dropped(s.compaction.value, 5, 1, Put([7]))
    ensures s.compaction.value.done == {} ==> IsNext(s.compaction.value, (1, 3))
    ensures s.compaction.value.done == {(1, 3)} ==> IsNext(s.compaction.value, (5, 2))
    ensures s.compaction.value.done == {(1, 3), (5, 2)} ==> IsNext(s.compaction.value, (5, 1))
  {
    assert f in s.compaction.value.inputs;
    assert (1, 3) in f.table && (5, 2) in f.table && (5, 1) in f.table;
  }

  /** The first compaction cuts the level inside key 5, which the snapshot keeps twice. */
  lemma CutInsideKey() returns (s: Store, a: File, b: File)
    ensures Reached(s, false, true) && Quiet(s) && Memtable(s.memtables, s.logfile) == map[] && s.compaction == None
    ensures a.level == 3 && b.level == 3 && a.table == MARKED && b.table == OLD && s.current == {a, b}
    ensures s.snapshots == [1] && s.last == 3 && s.history == ALL && s.readers == map[]
  {
    hide Reached, IsLive, Dropped, IsNext;
    var f;
    s, f := MarkerWritten();
    s := DoBeginCompaction(s, 2, {f}, {1, 5}, false, true);
    s := DoOpen(s, false, true);
    CutRules(s, f);
    s := DoProcess(s, f, 1, 3, false, true);
    assert s.compaction.value.done == {(1, 3)};
    CutRules(s, f);
    s := DoProcess(s, f, 5, 2, false, true);
    assert s.compaction.value.done == {(1, 3), (5, 2)};
    var o := s.compaction.value.building.value;
    assert o.table == MARKED && (1, 3) in o.table;
    s := DoFinish(s, false, true);
    assert s.compaction.value.outputs == {o};
    s, a, b := CutEnds(s, f, o);
  }

  lemma CutEnds(s0: Store, f: File, o: Output) returns (s: Store, a: File, b: File)
    requires Reached(s0, false, true) && Quiet(s0) && Memtable(s0.memtables, s0.logfile) == map[] && s0.current == {f}
    requires f.level == 2 && f.table == ALL && o.table == MARKED && o.number < s0.nextFile
    requires s0.compaction == Some(Compaction(2, {f}, {1, 5}, 1, {f}, {(1, 3), (5, 2)}, {o}, None))
    ensures Reached(s, false, true) && Quiet(s) && Memtable(s.memtables, s.logfile) == map[] && s.compaction == None
    ensures a.level == 3 && b.level == 3 && a.table == MARKED && b.table == OLD && s.current == {a, b}
    ensures s.snapshots == s0.snapshots && s.last == s0.last && s.history == s0.history && s.readers == s0.readers
  {
    hide Reached, IsLive, Dropped, IsNext;
    s := DoOpen(s0, false, true);
    CutRules(s, f);
    s := DoProcess(s, f, 5, 1, false, true);
    var o' := s.compaction.value.building.value;
    assert o'.table == OLD && (5, 1) in o'.table && s.compaction.value.done == {(1, 3), (5, 2), (5, 1)};
    s := DoFinish(s, false, true);
    assert s.compaction.value.outputs == {o, o'};
    a, b := File(o.number, 3, MARKED), File(o'.number, 3, OLD);
    assert OutputFiles(s.compaction.value) == {a, b};
    assert {f} - {f} + {a, b} == {a, b};
    s := DoInstall(s, false, true);
  }

  lemma DropRules(s: Store, f: File, a: File)
    requires s.compaction.Some? && s.compaction.value.inputs == {f, a} && f.table == AGAIN && a.table == MARKED
    requires s.compaction.value.smallestSnapshot == 4 && s.compaction.value.base == {1, 5}
    ensures !Dropped(s.compaction.value, 1, 4, Put([2])) && Dropped(s.compaction.value, 1, 3, Put([1]))
            && Dropped(s.compaction.value, 5, 2, Del)
    ensures s.compaction.value.done == {} ==> IsNext(s.compaction.value, (1, 4))
    ensures s.compaction.value.done == {(1, 4)} ==> IsNext(s.compaction.value, (1, 3))
    ensures s.compaction.value.done == {(1, 4), (1, 3)} ==> IsNext(s.compaction.value, (5, 2))
  {
    assert f in s.compaction.value.inputs && a in s.compaction.value.inputs;
    assert (1, 4) in f.table && (1, 3) in a.table && (5, 2) in a.table;
    assert Holds(s.compaction.value.inputs, 1, 4);
  }

  lemma MayTake(f: File, a: File, b: File)
    requires f.level == 2 && f.table == AGAIN && a.level == 3 && a.table == MARKED && b.level == 3 && b.table == OLD
    ensures InputsOk({a, b} + {f}, 2, {f, a}) && TakesOverlapping({a, b} + {f}, 2, {f, a})
            && BaseOk({a, b} + {f}, 2, {f, a}, {1, 5})
  {
    hide SomeUpTo, RangesMeet, Holds;
    TakesFirst(f, a, b);
  }

  lemma TakesFirst(f: File, a: File, b: File)
    requires f.level == 2 && f.table == AGAIN && a.level == 3 && a.table == MARKED && b.level == 3 && b.table == OLD
    ensures Reaches({f, a}, 2, a.table) && !Reaches({f, a}, 2, b.table) && a != b
  {
    assert (1, 4) in f.table && (1, 3) in a.table && (5, 1) in b.table && (5, 1) !in a.table;
    assert SomeUpTo(f.table, a.table) && SomeUpTo(a.table, f.table) && !SomeUpTo(b.table, f.table);
    assert f in {f, a};
  }

  /** The snapshot is released, and key 1 is compacted with the first of the two files only. */
  lemma MarkerDropped() returns (s: Store, c: File, b: File)
    ensures Reached(s, false, true) && Memtable(s.memtables, s.logfile) == map[] && s.imm == None
    ensures c.level == 3 && b.level == 3 && c.table == AGAIN && b.table == OLD && s.current == {c, b}
    ensures s.last == 4 && s.history == ALL[(1, 4) := Put([2])] && s.readers == map[]
  {
    hide Reached, IsLive, Dropped, IsNext, InputsOk, TakesOverlapping, BaseOk, MarkersOk, PlacementOk;
    var a, f;
    s, a, b := CutInsideKey();
    s := DoReleaseSnapshot(s, 0, false, true);
    s := Writes(s, 1, Put([2]), false, true);
    assert Memtable(s.memtables, s.logfile) == AGAIN;
    PlacedDeep(s.current, AGAIN);
    s, f := Flushes(s, 2, false, true);
    MayTake(f, a, b);
    s := DoBeginCompaction(s, 2, {f, a}, {1, 5}, false, true);
    s, c := DropEnds(s, f, a, b);
  }

  lemma DropEnds(s0: Store, f: File, a: File, b: File) returns (s: Store, c: File)
    requires Reached(s0, false, true) && Quiet(s0) && s0.current == {a, b} + {f}
    requires f.level == 2 && f.table == AGAIN && a.level == 3 && a.table == MARKED && b.level == 3 && b.table == OLD
    requires s0.compaction == Some(Compaction(2, {f, a}, {1, 5}, 4, {a, b} + {f}, {}, {}, None))
    ensures Reached(s, false, true) && s.memtables == s0.memtables && s.logfile == s0.logfile && s.imm == None
    ensures c.level == 3 && c.table == AGAIN && s.current == {c, b}
    ensures s.last == s0.last && s.history == s0.history && s.readers == s0.readers
  {
    hide Reached, IsLive, Dropped, IsNext;
    s := DropsTwo(s0, f, a, b);
    var o := s.compaction.value.building.value;
    assert (1, 4) in o.table;
    s := DoFinish(s, false, true);
    assert s.compaction.value.outputs == {o};
    c := File(o.number, 3, AGAIN);
    assert OutputFiles(s.compaction.value) == {c};
    assert (5, 1) in b.table && (5, 1) !in a.table;
    assert {a, b} + {f} - {f, a} + {c} == {c, b};
    s := DoInstall(s, false, true);
  }

  lemma DropsTwo(s0: Store, f: File, a: File, b: File) returns (s: Store)
    requires Reached(s0, false, true) && Quiet(s0) && s0.current == {a, b} + {f}
    requires f.level == 2 && f.table == AGAIN && a.level == 3 && a.table == MARKED
    requires s0.compaction == Some(Compaction(2, {f, a}, {1, 5}, 4, {a, b} + {f}, {}, {}, None))
    ensures Reached(s, false, true) && Quiet(s) && s.current == s0.current && s.memtables == s0.memtables
            && s.logfile == s0.logfile
    ensures s.compaction.Some? && s.compaction.value.building.Some?
    ensures var o := s.compaction.value.building.value;
            o.table == AGAIN
            && s.compaction
              == Some(Compaction(2, {f, a}, {1, 5}, 4, {a, b} + {f}, {(1, 4), (1, 3), (5, 2)}, {}, Some(o)))
    ensures s.last == s0.last && s.history == s0.history && s.readers == s0.readers
  {
    hide Reached, IsLive, Dropped, IsNext;
    s := DoOpen(s0, false, true);
    DropRules(s, f, a);
    s := DoProcess(s, f, 1, 4, false, true);
    assert s.compaction.value.done == {(1, 4)};
    DropRules(s, f, a);
    s := DoProcess(s, a, 1, 3, false, true);
    assert s.compaction.value.done == {(1, 4), (1, 3)};
    DropRules(s, f, a);
    s := DoProcess(s, a, 5, 2, false, true);
    assert s.compaction.value.done == {(1, 4), (1, 3), (5, 2)};
    assert s.compaction.value.building.value.table == AGAIN;
  }

  /** A run without any flush into a gap in which a deleted value is read again. */
  lemma DroppedMarkerIsMissed() returns (states: seq<Store>, events: seq<Event>)
    ensures IsRun(states, events) && GapsKept(states, events)
    ensures !MarkersKept(states, events) && !NothingUncovered(states, events, Running)
    ensures var s := states[|events|];
            && 0 in s.readers && s.readers[0].snapshot == s.last == 4
            && Result(s, s.readers[0], 5) == Some([7]) && ReadAt(s.history, 5, 4) == Some(Del)
  {
    hide Reached, IsLive, MarkersKept, NothingUncovered, GapsKept, Inv, SortedState, Right;
    var s, c, b := MarkerDropped();
    OneMore(s, BeginGetEvent(0, 4), false, true);
    var t := Step(s, BeginGetEvent(0, 4));
    states, events := StatesOf(t, false, true);
    RunKeeps(states, events, |events|);
    RunKeepsSorted(states, events, |events|);
    OldIsRead(t, c, b);
    assert ReadAt(t.history, 5, 2) == ReadAt(t.history, 5, 3) == Some(Del);
    if NothingUncovered(states, events, Running) {
      RunKeepsRight(states, events, |events|, Running);
      ReaderIsRight(t);
    }
    if MarkersKept(states, events) {
      KeptUncoversNothing(states, events, Running);
    }
  }

  lemma ReaderIsRight(t: Store)
    requires Inv(t) && SortedState(t) && Right(t, Running) && 0 in t.readers
    ensures Result(t, t.readers[0], 5) == ValueOf(ReadAt(t.history, 5, t.readers[0].snapshot))
  {
    hide Sound, ReadsRight, SortedLevels;
    assert ReaderOk(t, t.readers[0]);
    ReaderGetsHistory(t, t.readers[0], 5);
  }

  lemma OldIsRead(t: Store, c: File, b: File)
    requires Inv(t) && SortedState(t) && 0 in t.readers && t.readers[0].snapshot == 4 && t.readers[0].version == {c, b}
    requires t.readers[0].imm == None && Memtable(t.memtables, t.readers[0].mem) == map[]
    requires c.table == AGAIN && b.table == OLD && t.history == ALL[(1, 4) := Put([2])]
    ensures Result(t, t.readers[0], 5) == Some([7])
  {
    hide Search, SortedLevels, CompactionOk, DiskOk, LogsOk, FlushOk, LiveOk, SequencesOk, RangesOk, Shape;
    var r := t.readers[0];
    var fs := Pinned(t, r);
    assert ReaderOk(t, r);
    PinnedSorted(t, r);
    SearchFindsNewest(fs, t.nextFile, MEM_LEVEL, t.history, 5, 4);
    assert b in fs && (5, 1) in b.table;
    assert forall m: nat :: Holds(fs, 5, m) <==> m == 1;
    var found := Search(fs, t.nextFile, MEM_LEVEL, 5, 4);
    assert Holds(fs, 5, 1) && found != None;
    var n: nat :| NewestHeld(fs, 5, n, 4) && (5, n) in t.history && t.history[(5, n)] == found.value;
    assert n == 1;
  }
}
