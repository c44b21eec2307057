/** Which compactions leave every read right: the exact condition, on one compaction and over runs. */
module StoreReads {
  import opened InternalKeys
  import opened Options
  import opened Stores
  import opened StoreRuns
  import opened StoreInvariant
  import opened StoreWrites
  import opened StoreCompactions
  import opened StoreComplete

  ghost predicate ReadsRight(fs: set<File>, history: Table, k: UserKey, t: nat)
  {
    ValueOf(NewestIn(fs, k, t)) == ValueOf(ReadAt(history, k, t))
  }

  /** Reads of the running engine are at the horizon or above; a crash may bring it back to any number that is
      settled. */
  datatype Scope = Running | Crashed

  ghost predicate InScope(s: Store, t: nat, scope: Scope)
  {
    match scope
    case Running => s.horizon <= t
    case Crashed => Settled(s, t)
  }

  /** Every read that may begin now would be right. */
  ghost predicate LiveRight(s: Store, scope: Scope)
  {
    forall k, t: nat :: InScope(s, t, scope) ==> ReadsRight(Now(s), s.history, k, t)
  }

  /** So is every read under way. */
  ghost predicate ReadersRight(s: Store)
  {
    forall id, k :: id in s.readers ==> ReadsRight(Pinned(s, s.readers[id]), s.history, k, s.readers[id].snapshot)
  }

  ghost predicate Right(s: Store, scope: Scope)
  {
    LiveRight(s, scope) && ReadersRight(s)
  }

  /** The compaction drops the entry that a read at `t` finds for `k`, a marker at its base level, and a value
      under it in the next level stays behind. */
  ghost predicate Uncovers(s: Store, k: UserKey, n: nat, t: nat)
    requires s.compaction.Some?
  {
    var c := s.compaction.value;
    && NewestHeld(Now(s), k, n, t) && n <= c.smallestSnapshot && k in c.base
    && (exists f :: f in c.inputs && (k, n) in f.table && f.table[(k, n)] == Del)
    && ValueOf(NewestIn(Left(s.current, c), k, n)) != None
  }

  ghost predicate UncoversNothing(s: Store, scope: Scope)
    requires s.compaction.Some?
  {
    forall k, n: nat, t: nat :: InScope(InstallCompaction(s), t, scope) ==> !Uncovers(s, k, n, t)
  }

  /** No compaction of the run uncovers a value when it is installed. */
  ghost predicate NothingUncovered(states: seq<Store>, events: seq<Event>, scope: Scope)
    requires |states| == |events| + 1
  {
    forall i :: 0 <= i < |events| && events[i] == InstallCompactionEvent && states[i].compaction.Some? ==>
      UncoversNothing(states[i], scope)
  }

  lemma InScopeBefore(s: Store, t: Store, u: nat, scope: Scope)
    requires InScope(t, u, scope) && s.horizon <= t.horizon
    requires forall k, n: nat :: (k, n) in s.history && n <= s.horizon ==>
               (k, n) in t.history && (InMemory(t, k, n) ==> InMemory(s, k, n))
    ensures InScope(s, u, scope)
  {
    hide InMemory, Settled;
    if scope == Crashed {
      SettledBefore(s, t, u);
    }
  }

  // ----- One compaction ----------------------------------------------------------------

  lemma NewestIsRead(fs: set<File>, history: Table, k: UserKey, n: nat, t: nat)
    requires PartOf(fs, history) && NewestHeld(fs, k, n, t)
    ensures (k, n) in history && NewestIn(fs, k, t) == Some(history[(k, n)])
  {
    NewestInIs(fs, history, k, t);
    assert Holds(fs, k, n);
  }

  lemma NoneIsRead(fs: set<File>, history: Table, k: UserKey, t: nat)
    requires PartOf(fs, history) && forall m: nat :: m <= t ==> !Holds(fs, k, m)
    ensures NewestIn(fs, k, t) == None
  {
    NewestInIs(fs, history, k, t);
  }

  /** After the compaction a read that met a dropped marker sees what the next level has left. */
  lemma ReadUnderMarker(over: set<File>, current: set<File>, c: Compaction, history: Table, bound: nat, f: File,
      k: UserKey, n: nat, t: nat)
    requires Over(over) && Sound(over + current, history, bound)
             && Sound(over + (current - c.inputs + OutputFiles(c)), history, bound)
    requires InputsOk(current, c.level, c.inputs) && BaseOk(current, c.level, c.inputs, c.base) && OutputsOk(c)
    requires f in c.inputs && (k, n) in f.table && f.table[(k, n)] == Del && n <= c.smallestSnapshot && k in c.base
    requires NewestHeld(over + current, k, n, t)
    ensures NewestIn(over + (current - c.inputs + OutputFiles(c)), k, t) == NewestIn(Left(current, c), k, n)
  {
    hide OutputsOk, InputsOk, BaseOk, AgeOrdered, WithinBounds;
    var after, left := over + (current - c.inputs + OutputFiles(c)), Left(current, c);
    assert left <= after;
    forall m: nat | m <= t
      ensures Holds(after, k, m) <==> m <= n && Holds(left, k, m)
    {
      if Holds(after, k, m) {
        InstallHolds(over, current, c, k, m);
        OnlyLeftUnderMarker(over, current, c, history, bound, f, k, n, m);
      }
    }
    assert PartOfUpTo(after, history, t) && PartOfUpTo(left, history, n);
    SameNewest(after, left, history, history, k, t, n);
  }

  lemma KeptIsHeld(over: set<File>, current: set<File>, c: Compaction, k: UserKey, n: nat)
    requires OutputsOk(c) && AllProcessed(c) && Holds(over + current, k, n)
    requires forall f :: f in c.inputs && (k, n) in f.table ==> !Dropped(c, k, n, f.table[(k, n)])
    ensures Holds(over + (current - c.inputs + OutputFiles(c)), k, n)
  {
    hide Dropped;
    var f :| f in over + current && (k, n) in f.table;
    if f in c.inputs {
      var o :| o in Made(c) && (k, n) in o.table;
      assert File(o.number, c.level + 1, o.table) in OutputFiles(c);
    }
  }

  /** The newest entry is only dropped as a marker at its base level. */
  lemma DroppedNewest(over: set<File>, current: set<File>, c: Compaction, f: File, k: UserKey, n: nat, t: nat)
    requires c.inputs <= current && NewestHeld(over + current, k, n, t) && InputsUpTo(c, t)
    requires f in c.inputs && (k, n) in f.table && Dropped(c, k, n, f.table[(k, n)])
    ensures f.table[(k, n)] == Del && n <= c.smallestSnapshot && k in c.base
  {
    forall m: nat | n < m <= c.smallestSnapshot
      ensures !Holds(c.inputs, k, m)
    {
      assert Holds(c.inputs, k, m) ==> m <= t && Holds(over + current, k, m);
    }
  }

  /** Whether one read for which the inputs have nothing newer is right after the compaction. */
  lemma ReadAfter(s: Store, over: set<File>, k: UserKey, t: nat)
    requires s.compaction.Some?
    requires var c := s.compaction.value;
             && Over(over) && Now(s) == over + s.current && Sound(Now(s), s.history, s.nextFile)
             && Sound(over + (s.current - c.inputs + OutputFiles(c)), s.history, s.nextFile)
             && InputsOk(s.current, c.level, c.inputs) && BaseOk(s.current, c.level, c.inputs, c.base)
             && OutputsOk(c) && AllProcessed(c) && InputsUpTo(c, t)
    requires ReadsRight(Now(s), s.history, k, t) && forall n: nat :: !Uncovers(s, k, n, t)
    ensures var c := s.compaction.value;
            ReadsRight(over + (s.current - c.inputs + OutputFiles(c)), s.history, k, t)
  {
    hide OutputsOk, BaseOk, AgeOrdered, WithinBounds, ReadAt, NewestIn, Dropped, InputsUpTo;
    var c := s.compaction.value;
    var before, after := over + s.current, over + (s.current - c.inputs + OutputFiles(c));
    NewestInIs(before, s.history, k, t);
    if NewestIn(before, k, t) == None {
      forall m: nat | m <= t
        ensures !Holds(after, k, m)
      {
        if Holds(after, k, m) {
          InstallHolds(over, s.current, c, k, m);
        }
      }
      NoneIsRead(after, s.history, k, t);
    } else {
      var n: nat :| NewestHeld(before, k, n, t);
      NewestIsRead(before, s.history, k, n, t);
      if f :| f in c.inputs && (k, n) in f.table && Dropped(c, k, n, f.table[(k, n)]) {
        DroppedNewest(over, s.current, c, f, k, n, t);
        assert !Uncovers(s, k, n, t);
        ReadUnderMarker(over, s.current, c, s.history, s.nextFile, f, k, n, t);
        assert f in before && s.history[(k, n)] == Del;
      } else {
        KeptIsHeld(over, s.current, c, k, n);
        StaysNewest(over, s.current, c, k, n, t);
        NewestIsRead(after, s.history, k, n, t);
      }
    }
  }

  lemma StaysNewest(over: set<File>, current: set<File>, c: Compaction, k: UserKey, n: nat, t: nat)
    requires InputsOk(current, c.level, c.inputs) && OutputsOk(c) && NewestHeld(over + current, k, n, t)
    requires Holds(over + (current - c.inputs + OutputFiles(c)), k, n)
    ensures NewestHeld(over + (current - c.inputs + OutputFiles(c)), k, n, t)
  {
    hide InputsOk, OutputsOk, Holds;
    forall m: nat | n < m <= t
      ensures !Holds(over + (current - c.inputs + OutputFiles(c)), k, m)
    {
      if Holds(over + (current - c.inputs + OutputFiles(c)), k, m) {
        InstallHolds(over, current, c, k, m);
      }
    }
  }

  lemma UncoveredIsRead(s: Store, over: set<File>, k: UserKey, n: nat, t: nat)
    requires s.compaction.Some?
    requires var c := s.compaction.value;
             && Over(over) && Now(s) == over + s.current && Sound(Now(s), s.history, s.nextFile)
             && Sound(over + (s.current - c.inputs + OutputFiles(c)), s.history, s.nextFile)
             && InputsOk(s.current, c.level, c.inputs) && BaseOk(s.current, c.level, c.inputs, c.base) && OutputsOk(c)
    requires ReadsRight(Now(s), s.history, k, t) && Uncovers(s, k, n, t)
    ensures var c := s.compaction.value;
            !ReadsRight(over + (s.current - c.inputs + OutputFiles(c)), s.history, k, t)
  {
    hide OutputsOk, BaseOk, AgeOrdered, WithinBounds, NewestIn, ReadAt;
    var c := s.compaction.value;
    var f :| f in c.inputs && (k, n) in f.table && f.table[(k, n)] == Del;
    assert f in Now(s) && s.history[(k, n)] == Del;
    NewestIsRead(Now(s), s.history, k, n, t);
    ReadUnderMarker(over, s.current, c, s.history, s.nextFile, f, k, n, t);
  }

  lemma HorizonBelow(s: Store)
    requires Inv(s) && s.compaction.Some?
    ensures s.horizon <= s.compaction.value.smallestSnapshot
  {
    assert SnapshotsOk(s);
  }

  /** For the reads that go on the inputs have nothing newer, and they were right before. */
  lemma StaysInScope(s: Store, u: nat, scope: Scope)
    requires Inv(s) && CanInstallCompaction(s) && InScope(InstallCompaction(s), u, scope)
    ensures InScope(s, u, scope) && InputsUpTo(s.compaction.value, u)
  {
    hide Inv, Settled;
    if scope == Crashed {
      SettledInputs(s, u);
    } else {
      HorizonBelow(s);
    }
  }

  /** The exact condition: in a state in which every read is right, every read is right after a compaction if
      and only if the compaction uncovers no value left in the next level. */
  lemma InstallReadsRight(s: Store, scope: Scope)
    requires Inv(s) && LiveRight(s, scope) && CanInstallCompaction(s)
    ensures LiveRight(InstallCompaction(s), scope) <==> UncoversNothing(s, scope)
  {
    hide Sound, OutputsOk, InputsOk, BaseOk, IsLive, DiskOk, LogsOk, SequencesOk, ReadersOk, FlushOk, SnapshotsOk,
         Uncovers, ReadsRight, InScope, InputsUpTo;
    var t0, c := InstallCompaction(s), s.compaction.value;
    var over := Sources(s.memtables, s.logfile, s.imm, {});
    InstallCompactionLive(s);
    assert Now(s) == over + s.current;
    assert Now(t0) == over + (s.current - c.inputs + OutputFiles(c));
    assert AllProcessed(c);
    if k, n: nat, u: nat :| InScope(t0, u, scope) && Uncovers(s, k, n, u) {
      StaysInScope(s, u, scope);
      UncoveredIsRead(s, over, k, n, u);
      assert !ReadsRight(Now(t0), s.history, k, u);
    } else {
      forall k, u: nat | InScope(t0, u, scope)
        ensures ReadsRight(Now(t0), s.history, k, u)
      {
        StaysInScope(s, u, scope);
        ReadAfter(s, over, k, u);
      }
    }
  }

  /** On the running engine it is enough to look at the smallest snapshot. */
  lemma AtSmallestSnapshot(s: Store)
    requires Inv(s) && s.compaction.Some?
    ensures UncoversNothing(s, Running) <==> forall k, n: nat :: !Uncovers(s, k, n, s.compaction.value.smallestSnapshot)
  {
    hide Inv, NewestIn, Left, Holds;
    HorizonBelow(s);
    var t := s.compaction.value.smallestSnapshot;
    assert InScope(InstallCompaction(s), t, Running);
    forall k, n: nat, u: nat | t <= u && Uncovers(s, k, n, u)
      ensures Uncovers(s, k, n, t)
    {
    }
  }

  /** A compaction that began with no marker over an older entry left in the next level is one. */
  lemma MarkersUncoverNothing(s: Store, scope: Scope)
    requires Inv(s) && MarkersStayOk(s) && s.compaction.Some?
    ensures UncoversNothing(s, scope)
  {
    hide NewestIn, OutputsOk, BaseOk, IsLive, DiskOk, LogsOk, SequencesOk, ReadersOk, FlushOk, AgeOrdered,
         WithinBounds, InScope;
    var c := s.compaction.value;
    forall k, n: nat, t: nat
      ensures !Uncovers(s, k, n, t)
    {
      if f :| f in c.inputs && (k, n) in f.table && f.table[(k, n)] == Del && n <= c.smallestSnapshot && k in c.base {
        assert f in Now(s);
        LeftIsRead(s, c, f, k, n);
      }
    }
  }

  lemma LeftIsRead(s: Store, c: Compaction, f: File, k: UserKey, n: nat)
    requires PartOf(Now(s), s.history) && f in s.current && (k, n) in f.table && f.table[(k, n)] == Del
    requires forall g, m: nat :: g in Left(s.current, c) && (k, m) in g.table ==> m >= n
    ensures ValueOf(NewestIn(Left(s.current, c), k, n)) == None
  {
    var left := Left(s.current, c);
    assert f in Now(s) && s.history[(k, n)] == Del;
    assert forall g :: g in left ==> g in Now(s);
    NewestInIs(left, s.history, k, n);
  }

  // ----- Every event -------------------------------------------------------------------

  lemma KeepsRead(fs: set<File>, gs: set<File>, h: Table, h': Table, k: UserKey, t: nat)
    requires PartOf(fs, h) && PartOf(gs, h') && ReadsRight(fs, h, k, t)
    requires forall m: nat :: m <= t ==> (Holds(fs, k, m) <==> Holds(gs, k, m))
    requires forall m: nat :: m <= t ==> ((k, m) in h <==> (k, m) in h') && ((k, m) in h ==> h[(k, m)] == h'[(k, m)])
    ensures ReadsRight(gs, h', k, t)
  {
    hide Holds, NewestIn, ReadAt;
    assert PartOfUpTo(fs, h, t) && PartOfUpTo(gs, h', t);
    SameNewest(fs, gs, h, h', k, t, t);
    SameHistorySameReads(h, h', k, t);
  }

  /** An event that changes neither the history nor what is held. */
  lemma SameHoldsRight(s: Store, t: Store, scope: Scope)
    requires LiveOk(s) && LiveOk(t) && LiveRight(s, scope) && t.history == s.history && s.horizon <= t.horizon
    requires forall k, n: nat :: Holds(Now(s), k, n) <==> Holds(Now(t), k, n)
    requires forall k, n: nat :: InMemory(t, k, n) ==> InMemory(s, k, n)
    ensures LiveRight(t, scope)
  {
    hide AgeOrdered, WithinBounds, ReadsRight, PartOf, Holds, InMemory, InScope;
    forall k, u: nat | InScope(t, u, scope)
      ensures ReadsRight(Now(t), t.history, k, u)
    {
      InScopeBefore(s, t, u, scope);
      KeepsRead(Now(s), Now(t), s.history, t.history, k, u);
    }
  }

  /** The reads under way go on with what they have pinned. */
  lemma SamePinnedRight(s: Store, t: Store)
    requires ReadersRight(s) && t.history == s.history
    requires forall id :: id in t.readers ==>
               id in s.readers && t.readers[id] == s.readers[id] && Pinned(t, t.readers[id]) == Pinned(s, s.readers[id])
    ensures ReadersRight(t)
  {
    hide ReadsRight;
  }

  lemma LiveRightFrame(s: Store, t: Store, scope: Scope)
    requires LiveRight(s, scope) && t.history == s.history && t.memtables == s.memtables && t.logfile == s.logfile
    requires t.imm == s.imm && t.current == s.current && t.horizon == s.horizon
    ensures LiveRight(t, scope)
  {
    hide ReadsRight, InScope;
    assert Now(t) == Now(s);
    forall u: nat | InScope(t, u, scope)
      ensures InScope(s, u, scope)
    {
      InScopeBefore(s, t, u, scope);
    }
  }

  lemma RightFrame(s: Store, t: Store, scope: Scope)
    requires Right(s, scope) && t.history == s.history && t.memtables == s.memtables && t.logfile == s.logfile
    requires t.imm == s.imm && t.current == s.current && t.horizon == s.horizon
    requires forall id :: id in t.readers ==> id in s.readers && t.readers[id] == s.readers[id]
    ensures Right(t, scope)
  {
    hide LiveRight, ReadersRight;
    LiveRightFrame(s, t, scope);
    SamePinnedRight(s, t);
  }

  lemma InsertedHolds(f: File, rest: set<File>, k: UserKey, n: nat, c: Cell, j: UserKey, m: nat)
    ensures Holds({Added(f, k, n, c)} + rest, j, m) <==> (j, m) == (k, n) || Holds({f} + rest, j, m)
  {
    var f' := Added(f, k, n, c);
    assert f in {f} + rest && f' in {f'} + rest && (k, n) in f'.table;
  }

  /** The read that may see the new entry finds it, the others read what they did. */
  lemma InsertedRead(f: File, rest: set<File>, h: Table, k: UserKey, n: nat, c: Cell, j: UserKey, t: nat)
    requires PartOf({f} + rest, h) && PartOf({Added(f, k, n, c)} + rest, h[(k, n) := c]) && AllBelow(h, n)
    requires ReadsRight({f} + rest, h, j, t)
    ensures ReadsRight({Added(f, k, n, c)} + rest, h[(k, n) := c], j, t)
  {
    hide PartOf, Holds;
    var fs, gs, h' := {f} + rest, {Added(f, k, n, c)} + rest, h[(k, n) := c];
    forall m: nat
      ensures Holds(gs, j, m) <==> (j, m) == (k, n) || Holds(fs, j, m)
    {
      InsertedHolds(f, rest, k, n, c, j, m);
    }
    if j == k && n <= t {
      forall m: nat | n < m <= t
        ensures !Holds(gs, k, m)
      {
        HeldIsBelow(fs, h, k, m, n);
      }
      NewestIsRead(gs, h', k, n, t);
      NewestIsWritten(h', k, n, t);
    } else {
      KeepsRead(fs, gs, h, h', j, t);
    }
  }

  lemma HeldIsBelow(fs: set<File>, h: Table, k: UserKey, m: nat, n: nat)
    requires PartOf(fs, h) && AllBelow(h, n) && m >= n
    ensures !Holds(fs, k, m)
  {
  }

  lemma NewestIsWritten(h: Table, k: UserKey, n: nat, t: nat)
    requires NewestAt(h, k, n, t)
    ensures ReadAt(h, k, t) == Some(h[(k, n)])
  {
    ReadAtIs(h, k, t);
  }

  lemma InsertKeepsRight(s: Store, scope: Scope)
    requires Inv(s) && Right(s, scope) && CanInsertNext(s) && Inv(InsertNext(s))
    ensures Right(InsertNext(s), scope)
  {
    hide LiveOk, FlushOk, CompactionOk, DiskOk, LogsOk, AgeOrdered, WithinBounds, PartOf, ReadsRight, InScope;
    var w, t := s.write.value, InsertNext(s);
    var k, n, c := w.ops[w.inserted].key, s.last + 1 + w.inserted, w.ops[w.inserted].cell;
    var f, rest := File(s.logfile, MEM_LEVEL, Memtable(s.memtables, s.logfile)), Rest(s, s.imm, s.current);
    assert {f} + rest == Now(s);
    assert {Added(f, k, n, c)} + rest == Now(t);
    forall j, u: nat | InScope(t, u, scope)
      ensures ReadsRight(Now(t), t.history, j, u)
    {
      InScopeBefore(s, t, u, scope);
      NowIsPart(s);
      NowIsPart(t);
      InsertedRead(f, rest, s.history, k, n, c, j, u);
    }
    forall id, j | id in t.readers
      ensures ReadsRight(Pinned(t, t.readers[id]), t.history, j, t.readers[id].snapshot)
    {
      var r := s.readers[id];
      assert ReaderOk(s, r) && ReaderOk(t, r);
      PinnedHolds(s, r, k, n, c, j);
      KeepsRead(Pinned(s, r), Pinned(t, r), s.history, t.history, j, r.snapshot);
    }
  }

  lemma NowIsPart(s: Store)
    requires LiveOk(s)
    ensures PartOf(Now(s), s.history)
  {
  }

  lemma PinnedHolds(s: Store, r: Reader, k: UserKey, n: nat, c: Cell, j: UserKey)
    requires CanInsertNext(s) && ReaderOk(s, r)
    requires n == s.last + 1 + s.write.value.inserted && k == s.write.value.ops[s.write.value.inserted].key
    requires c == s.write.value.ops[s.write.value.inserted].cell && (r.imm.Some? ==> r.imm.value != s.logfile)
    ensures forall m: nat :: m <= r.snapshot ==> (Holds(Pinned(s, r), j, m) <==> Holds(Pinned(InsertNext(s), r), j, m))
  {
    hide Sound;
    var t, rest := InsertNext(s), Rest(s, r.imm, r.version);
    if r.mem == s.logfile {
      var f := File(s.logfile, MEM_LEVEL, Memtable(s.memtables, s.logfile));
      assert {f} + rest == Pinned(s, r) && {Added(f, k, n, c)} + rest == Pinned(t, r);
      forall m: nat | m <= r.snapshot
        ensures Holds(Pinned(s, r), j, m) <==> Holds(Pinned(t, r), j, m)
      {
        InsertedHolds(f, rest, k, n, c, j, m);
      }
    } else {
      assert Pinned(t, r) == Pinned(s, r);
    }
  }

  lemma InstallKeepsRight(s: Store, scope: Scope)
    requires Inv(s) && Right(s, scope) && CanInstallCompaction(s) && UncoversNothing(s, scope)
    ensures Right(DeleteObsoleteFiles(InstallCompaction(s)), scope)
  {
    hide Inv, LiveRight, ReadsRight, UncoversNothing, IsLive;
    InstallReadsRight(s, scope);
    var t := InstallCompaction(s);
    SamePinnedRight(s, t);
    RightFrame(t, DeleteObsoleteFiles(t), scope);
  }

  lemma BeginGetKeepsRight(s: Store, id: nat, snapshot: nat, scope: Scope)
    requires Inv(s) && Right(s, scope) && CanBeginGet(s, id, snapshot)
    ensures Right(BeginGet(s, id, snapshot), scope)
  {
    hide LiveOk, FlushOk, CompactionOk, DiskOk, LogsOk, SequencesOk, ReadersOk, ReadsRight, LiveRight;
    var t := BeginGet(s, id, snapshot);
    assert snapshot >= s.horizon;
    NewReadRight(s, snapshot, scope);
    LiveRightFrame(s, t, scope);
    assert Pinned(t, t.readers[id]) == Now(s);
    forall other, k | other in t.readers && other != id
      ensures ReadsRight(Pinned(t, t.readers[other]), t.history, k, t.readers[other].snapshot)
    {
      assert Pinned(t, t.readers[other]) == Pinned(s, s.readers[other]);
    }
  }

  lemma NewReadRight(s: Store, snapshot: nat, scope: Scope)
    requires LiveRight(s, scope) && s.horizon <= snapshot
    ensures forall k :: ReadsRight(Now(s), s.history, k, snapshot)
  {
    assert InScope(s, snapshot, scope);
  }

  lemma FlushKeepsRight(s: Store, e: Event, scope: Scope)
    requires Inv(s) && Right(s, scope) && Enabled(s, e) && Inv(Step(s, e))
    requires e == RotateEvent || e == InstallFlushEvent
    ensures Right(Step(s, e), scope)
  {
    hide LiveOk, FlushOk, CompactionOk, DiskOk, LogsOk, SequencesOk, LiveRight, ReadersRight, PlacementOk,
         IsLive, Sound;
    var t := Step(s, e);
    if e == RotateEvent {
      RotateHolds(s);
    } else {
      InstallFlushHolds(s);
      assert Now(t) == Now(InstallFlush(s));
    }
    SameHoldsRight(s, t, scope);
    forall id | id in t.readers
      ensures id in s.readers && t.readers[id] == s.readers[id] && Pinned(t, t.readers[id]) == Pinned(s, s.readers[id])
    {
      assert ReaderOk(s, s.readers[id]);
    }
    SamePinnedRight(s, t);
  }

  lemma TrivialMoveKeepsRight(s: Store, f: File, scope: Scope)
    requires Inv(s) && Right(s, scope) && CanTrivialMove(s, f) && Inv(TrivialMove(s, f))
    ensures Right(TrivialMove(s, f), scope)
  {
    hide LiveOk, FlushOk, CompactionOk, DiskOk, LogsOk, SequencesOk, LiveRight, ReadersRight, InputsOk,
         TakesOverlapping;
    TrivialMoveHolds(s, f);
    SameHoldsRight(s, TrivialMove(s, f), scope);
    SamePinnedRight(s, TrivialMove(s, f));
  }

  /** A compaction at work changes its own fields and files only. */
  lemma CompactingKeepsRight(s: Store, e: Event, scope: Scope)
    requires Right(s, scope) && Enabled(s, e) && CompactionWork(e)
    ensures Right(Step(s, e), scope)
  {
    hide Right, CanBeginCompaction, IsNext, Dropped, OutputNumbers;
    RightFrame(s, Step(s, e), scope);
  }

  lemma OtherKeepsRight(s: Store, e: Event, scope: Scope)
    requires Right(s, scope) && Enabled(s, e) && e != InsertNextEvent && e != RotateEvent && !e.BeginGetEvent?
    requires e != InstallFlushEvent && e != InstallCompactionEvent && !e.TrivialMoveEvent? && !CompactionWork(e)
    ensures Right(Step(s, e), scope)
  {
    hide Right, PlacementOk, EntriesOf;
    RightFrame(s, Step(s, e), scope);
  }

  lemma StepKeepsRight(s: Store, e: Event, scope: Scope)
    requires Inv(s) && Right(s, scope) && Enabled(s, e) && Inv(Step(s, e))
    requires e == InstallCompactionEvent ==> s.compaction.Some? && UncoversNothing(s, scope)
    ensures Right(Step(s, e), scope)
  {
    hide Inv, Right, UncoversNothing;
    if e == InsertNextEvent {
      InsertKeepsRight(s, scope);
    } else if e.BeginGetEvent? {
      BeginGetKeepsRight(s, e.id, e.snapshot, scope);
    } else if e == RotateEvent || e == InstallFlushEvent {
      FlushKeepsRight(s, e, scope);
    } else if e == InstallCompactionEvent {
      InstallKeepsRight(s, scope);
    } else if e.TrivialMoveEvent? {
      TrivialMoveKeepsRight(s, e.f, scope);
    } else if CompactionWork(e) {
      CompactingKeepsRight(s, e, scope);
    } else {
      OtherKeepsRight(s, e, scope);
    }
  }

  /** A compaction that uncovers a value leaves a read that goes wrong. */
  lemma UncoveringGoesWrong(s: Store, scope: Scope)
    requires Inv(s) && LiveRight(s, scope) && CanInstallCompaction(s) && !UncoversNothing(s, scope)
    ensures !LiveRight(DeleteObsoleteFiles(InstallCompaction(s)), scope)
  {
    hide Inv, UncoversNothing, IsLive, LiveRight;
    InstallReadsRight(s, scope);
    var t := InstallCompaction(s);
    if LiveRight(DeleteObsoleteFiles(t), scope) {
      LiveRightFrame(DeleteObsoleteFiles(t), t, scope);
    }
  }

}
