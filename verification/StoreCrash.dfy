/** A crash of the engine at any moment: what replaying the torn logs over the current version brings back
    (db/db_impl.cc, Recover and RecoverLogFile). */
module StoreCrash {
  import opened Coding
  import opened InternalKeys
  import opened LogFormat
  import opened Options
  import opened Stores
  import opened StoreRuns
  import opened StoreInvariant
  import opened StoreComplete
  import opened StoreReads
  import opened StoreTheorems
  import opened WritersStore
  import Batches = WriteBatches
  import LogRoundTrip
  import Recovery

  // ----- The groups in a log -----------------------------------------------------------

  /** A group as it was logged. */
  datatype Logged = Logged(first: nat, ops: seq<Op>)

  function GroupTable(g: Logged): Table
  {
    EntriesOf(g.ops, g.first)
  }

  function TableOf(groups: seq<Logged>): Table
  {
    if groups == [] then map[] else TableOf(groups[..|groups| - 1]) + GroupTable(groups[|groups| - 1])
  }

  /** The groups the first `i` events wrote to a log. */
  ghost function GroupsOf(states: seq<Store>, events: seq<Event>, i: nat, log: nat): seq<Logged>
    requires |states| == |events| + 1 && i <= |events|
  {
    if i == 0 then []
    else GroupsOf(states, events, i - 1, log) + Writes(states[i - 1], events[i - 1], log)
  }

  ghost function Writes(s: Store, e: Event, log: nat): seq<Logged>
  {
    if e == LogWriteEvent && s.logfile == log && s.write.Some? then [Logged(s.last + 1, s.write.value.ops)] else []
  }

  function LastLogged(s: Store): nat
  {
    s.last + (if s.write.Some? && s.write.value.logged then |s.write.value.ops| else 0)
  }

  /** Each group's numbers come after those of the groups before it. */
  ghost predicate InTurn(groups: seq<Logged>, last: nat)
  {
    && (forall i :: 0 <= i < |groups| ==> 0 < groups[i].first && groups[i].first + |groups[i].ops| <= last + 1)
    && (forall i, j :: 0 <= i < j < |groups| ==> groups[i].first + |groups[i].ops| <= groups[j].first)
  }

  ghost predicate LogIs(s: Store, log: nat, groups: seq<Logged>)
  {
    && (log in s.logs ==> s.logs[log] == TableOf(groups)) && (log > s.logfile ==> groups == [])
    && InTurn(groups, LastLogged(s))
  }

  lemma OneMoreGroup(groups: seq<Logged>, g: Logged)
    ensures TableOf(groups + [g]) == TableOf(groups) + GroupTable(g)
  {
    assert (groups + [g])[..|groups|] == groups;
  }

  lemma StepLogs(s: Store, e: Event, log: nat, groups: seq<Logged>)
    requires Inv(s) && Enabled(s, e) && LogIs(s, log, groups)
    ensures LogIs(Step(s, e), log, groups + Writes(s, e, log))
  {
    hide LiveOk, ReadersOk, CompactionOk, FlushOk, DiskOk, LogsOk, SequencesOk, SnapshotsOk, TableOf, EntriesOf,
         LastLogged, InTurn, Shape;
    StepTurns(s, e, log, groups);
    if e == LogWriteEvent {
      if s.logfile == log {
        OneMoreGroup(groups, Logged(s.last + 1, s.write.value.ops));
      } else {
        assert groups + [] == groups;
      }
    } else {
      assert groups + [] == groups;
      NoGroups();
      OtherLogs(s, e, log);
    }
  }

  lemma StepTurns(s: Store, e: Event, log: nat, groups: seq<Logged>)
    requires Inv(s) && Enabled(s, e) && InTurn(groups, LastLogged(s))
    ensures InTurn(groups + Writes(s, e, log), LastLogged(Step(s, e)))
  {
    hide LiveOk, ReadersOk, CompactionOk, FlushOk, DiskOk, LogsOk, SequencesOk, SnapshotsOk, EntriesOf, IsLive,
         PlacementOk, IsNext, Dropped,
         InputsOk, BaseOk, TakesOverlapping, DeleteObsoleteFiles;
    assert LastLogged(Step(s, e)) >= LastLogged(s) by { LoggedGrows(s, e); }
    if e == LogWriteEvent {
      assert LastLogged(s) == s.last;
    }
  }

  lemma LoggedGrows(s: Store, e: Event)
    requires Shape(s) && Enabled(s, e)
    ensures LastLogged(Step(s, e)) >= LastLogged(s)
  {
    hide EntriesOf, IsLive, PlacementOk, IsNext, Dropped, InputsOk, BaseOk, TakesOverlapping, InLevels, Memtable,
         OutputFiles, OutputNumbers;
  }

  lemma OtherLogs(s: Store, e: Event, log: nat)
    requires Shape(s) && Enabled(s, e) && e != LogWriteEvent
    ensures var t := Step(s, e);
            && (log in t.logs ==>
              (log in s.logs && t.logs[log] == s.logs[log]) || (log > s.logfile && t.logs[log] == map[]))
            && t.logfile >= s.logfile
  {
    hide EntriesOf, IsLive, PlacementOk, IsNext, Dropped, InputsOk, BaseOk, TakesOverlapping, InLevels, Memtable,
         OutputFiles, OutputNumbers, DeleteObsoleteFiles;
    if e == InstallFlushEvent {
      OldLogsGo(InstallFlush(s), log);
    } else if e == InstallCompactionEvent {
      OldLogsGo(InstallCompaction(s), log);
    }
  }

  lemma OldLogsGo(s: Store, log: nat)
    ensures var t := DeleteObsoleteFiles(s);
            t.logfile == s.logfile && (log in t.logs ==> log in s.logs && t.logs[log] == s.logs[log])
  {
    hide IsLive;
  }

  lemma NoGroups()
    ensures TableOf([]) == map[]
  {
  }

  /** At every moment a log holds the groups written to it. */
  lemma {:induction false} LogsAreGroups(states: seq<Store>, events: seq<Event>, i: nat, log: nat)
    requires IsRun(states, events) && i < |states|
    ensures LogIs(states[i], log, GroupsOf(states, events, i, log))
  {
    hide Inv, Enabled, Step, LogIs, Writes;
    if i == 0 {
      StartsEmpty(log);
    } else {
      RunKeeps(states, events, i - 1);
      LogsAreGroups(states, events, i - 1, log);
      StepLogs(states[i - 1], events[i - 1], log, GroupsOf(states, events, i - 1, log));
    }
  }

  lemma StartsEmpty(log: nat)
    ensures LogIs(Init(), log, [])
  {
  }

  lemma StepTogether(s: Store, e: Event, a: nat, b: nat, first: seq<Logged>, second: seq<Logged>)
    requires Inv(s) && Enabled(s, e) && a < b && InTurn(first + second, LastLogged(s))
    requires b > s.logfile ==> second == []
    ensures InTurn(first + Writes(s, e, a) + (second + Writes(s, e, b)), LastLogged(Step(s, e)))
  {
    hide Inv, Enabled, Step, InTurn, LastLogged;
    var log := if s.logfile == a then a else b;
    assert first + Writes(s, e, a) + (second + Writes(s, e, b)) == first + second + Writes(s, e, log);
    StepTurns(s, e, log, first + second);
  }

  /** The groups of a later log come after those of an earlier one. */
  lemma {:induction false} LogsInTurn(states: seq<Store>, events: seq<Event>, i: nat, a: nat, b: nat)
    requires IsRun(states, events) && i < |states| && a < b
    ensures InTurn(GroupsOf(states, events, i, a) + GroupsOf(states, events, i, b), LastLogged(states[i]))
  {
    hide Inv, Enabled, Step, InTurn, LastLogged, TableOf, Writes;
    if i == 0 {
      NoneInTurn(LastLogged(states[0]));
    } else {
      RunKeeps(states, events, i - 1);
      LogsInTurn(states, events, i - 1, a, b);
      LogsAreGroups(states, events, i - 1, b);
      StepTogether(states[i - 1], events[i - 1], a, b, GroupsOf(states, events, i - 1, a),
        GroupsOf(states, events, i - 1, b));
    }
  }

  lemma NoneInTurn(last: nat)
    ensures InTurn([] + [], last)
  {
  }

  // ----- What is logged and in no file -------------------------------------------------

  /** Recovery replays the logs from LogNumber on. */
  predicate Needed(s: Store, l: nat)
  {
    l in s.logs && l >= s.logNumber
  }

  /** Everything written since a log's first group is still in the memtables. */
  ghost predicate SinceIn(s: Store, log: nat, groups: seq<Logged>)
  {
    forall j, k, n: nat :: 0 <= j < |groups| && (k, n) in s.history && n >= groups[j].first ==>
      && (log == s.logfile ==> (k, n) in Memtable(s.memtables, s.logfile))
      && (s.imm == Some(log) ==> InMemory(s, k, n))
  }

  lemma SinceFrame(s: Store, t: Store, log: nat, groups: seq<Logged>)
    requires SinceIn(s, log, groups) && t.history == s.history && t.memtables == s.memtables
    requires t.logfile == s.logfile && (t.imm == s.imm || t.imm == None)
    ensures SinceIn(t, log, groups)
  {
  }

  lemma LogWriteSince(s: Store, log: nat, groups: seq<Logged>)
    requires Inv(s) && CanLogWrite(s) && SinceIn(s, log, groups)
    ensures SinceIn(LogWrite(s), log, groups + Writes(s, LogWriteEvent, log))
  {
    hide LiveOk, ReadersOk, CompactionOk, FlushOk, DiskOk, LogsOk, SnapshotsOk, EntriesOf;
    SinceFrame(s, LogWrite(s), log, groups);
  }

  lemma InsertSince(s: Store, log: nat, groups: seq<Logged>)
    requires Shape(s) && CanInsertNext(s) && SinceIn(s, log, groups)
    ensures SinceIn(InsertNext(s), log, groups)
  {
  }

  lemma RotateSince(s: Store, log: nat, groups: seq<Logged>)
    requires Shape(s) && CanRotate(s) && SinceIn(s, log, groups) && (log > s.logfile ==> groups == [])
    ensures SinceIn(Rotate(s), log, groups)
  {
  }

  lemma CompactionSince(s: Store, e: Event, log: nat, groups: seq<Logged>)
    requires Enabled(s, e) && SinceIn(s, log, groups) && CompactionWork(e)
    ensures SinceIn(Step(s, e), log, groups)
  {
    hide SinceIn, CanBeginCompaction, IsNext, Dropped, OutputNumbers;
    SinceFrame(s, Step(s, e), log, groups);
  }

  lemma OtherSince(s: Store, e: Event, log: nat, groups: seq<Logged>)
    requires Enabled(s, e) && SinceIn(s, log, groups) && e != LogWriteEvent && e != InsertNextEvent && e != RotateEvent
    requires !CompactionWork(e)
    ensures SinceIn(Step(s, e), log, groups)
  {
    hide SinceIn, EntriesOf, IsLive, PlacementOk, CanTrivialMove, OutputFiles, OutputNumbers;
    SinceFrame(s, Step(s, e), log, groups);
  }

  lemma StepSince(s: Store, e: Event, log: nat, groups: seq<Logged>)
    requires Inv(s) && Enabled(s, e) && SinceIn(s, log, groups) && (log > s.logfile ==> groups == [])
    ensures SinceIn(Step(s, e), log, groups + Writes(s, e, log))
  {
    hide SinceIn, Shape, LiveOk, ReadersOk, CompactionOk, FlushOk, DiskOk, LogsOk, SnapshotsOk, SequencesOk;
    assert groups + [] == groups;
    if e == LogWriteEvent {
      LogWriteSince(s, log, groups);
    } else if e == InsertNextEvent {
      InsertSince(s, log, groups);
    } else if e == RotateEvent {
      RotateSince(s, log, groups);
    } else if CompactionWork(e) {
      CompactionSince(s, e, log, groups);
    } else {
      OtherSince(s, e, log, groups);
    }
  }

  lemma {:induction false} SinceStaysIn(states: seq<Store>, events: seq<Event>, i: nat, log: nat)
    requires IsRun(states, events) && i < |states|
    ensures SinceIn(states[i], log, GroupsOf(states, events, i, log))
  {
    hide Inv, Enabled, Step, SinceIn, Writes, TableOf, InTurn;
    if i == 0 {
      NothingSince(log);
    } else {
      RunKeeps(states, events, i - 1);
      SinceStaysIn(states, events, i - 1, log);
      LogsAreGroups(states, events, i - 1, log);
      StepSince(states[i - 1], events[i - 1], log, GroupsOf(states, events, i - 1, log));
    }
  }

  lemma NothingSince(log: nat)
    ensures SinceIn(Init(), log, [])
  {
  }

  /** So no compaction has come across anything numbered above `t` when a needed log has a group that begins
      right after it. */
  lemma LoggedIsSettled(states: seq<Store>, events: seq<Event>, i: nat, l: nat, t: nat)
    requires IsRun(states, events) && i < |states| && Needed(states[i], l)
    requires var groups := GroupsOf(states, events, i, l); groups != [] && groups[0].first <= t + 1
    ensures Settled(states[i], t)
  {
    hide Enabled, Step, GroupsOf, LiveOk, ReadersOk, CompactionOk, FlushOk, DiskOk, SnapshotsOk, SequencesOk, Shape;
    RunKeeps(states, events, i);
    SinceStaysIn(states, events, i, l);
  }

  // ----- Prefixes of the groups --------------------------------------------------------

  ghost predicate InGroup(g: Logged, k: UserKey, n: nat)
  {
    IsOf(g.ops, g.first, k, n)
  }

  lemma {:induction false} TableHas(groups: seq<Logged>, last: nat, k: UserKey, n: nat)
    requires InTurn(groups, last)
    ensures (k, n) in TableOf(groups) <==> exists j :: 0 <= j < |groups| && InGroup(groups[j], k, n)
    ensures forall j :: 0 <= j < |groups| && InGroup(groups[j], k, n) ==>
            TableOf(groups)[(k, n)] == CellOf(groups[j].ops, groups[j].first, n)
  {
    hide EntriesOf, CellOf;
    if groups != [] {
      var m := |groups| - 1;
      var front, g := groups[..m], groups[m];
      TableHas(front, last, k, n);
      EntriesAre(g.ops, g.first);
      assert InGroup(g, k, n) ==> (k, n) !in TableOf(front) by {
        if (k, n) in TableOf(front) {
          var j :| 0 <= j < |front| && InGroup(front[j], k, n);
        }
      }
      forall j | 0 <= j < |groups| && InGroup(groups[j], k, n)
        ensures (k, n) in TableOf(groups) && TableOf(groups)[(k, n)] == CellOf(groups[j].ops, groups[j].first, n)
      {
        if j < m {
          assert front[j] == groups[j];
        }
      }
      if (k, n) in TableOf(front) {
        var j :| 0 <= j < |front| && InGroup(front[j], k, n);
        assert groups[j] == front[j];
      }
    }
  }

  lemma PrefixInTurn(groups: seq<Logged>, last: nat, m: nat)
    requires InTurn(groups, last) && m <= |groups|
    ensures InTurn(groups[..m], last)
  {
  }

  /** The first groups hold nothing else than all of them do. */
  lemma PrefixHolds(groups: seq<Logged>, last: nat, m: nat, k: UserKey, n: nat)
    requires InTurn(groups, last) && m <= |groups| && (k, n) in TableOf(groups[..m])
    ensures (k, n) in TableOf(groups) && TableOf(groups)[(k, n)] == TableOf(groups[..m])[(k, n)]
  {
    hide TableOf, CellOf, InTurn, InGroup;
    PrefixInTurn(groups, last, m);
    TableHas(groups, last, k, n);
    TableHas(groups[..m], last, k, n);
    var j :| 0 <= j < m && InGroup(groups[..m][j], k, n);
    assert groups[j] == groups[..m][j];
  }

  /** All that the groups hold up to a number is in those that begin by then. */
  lemma PrefixReaches(groups: seq<Logged>, last: nat, m: nat, t: nat, k: UserKey, n: nat)
    requires InTurn(groups, last) && m <= |groups| && (forall j :: m <= j < |groups| ==> t < groups[j].first)
    requires n <= t && (k, n) in TableOf(groups)
    ensures (k, n) in TableOf(groups[..m])
  {
    hide TableOf, CellOf, InTurn;
    PrefixInTurn(groups, last, m);
    TableHas(groups, last, k, n);
    TableHas(groups[..m], last, k, n);
    var j :| 0 <= j < |groups| && InGroup(groups[j], k, n);
    assert groups[j].first <= n;
    assert groups[..m][j] == groups[j];
  }

  // ----- What a replay inserts ---------------------------------------------------------

  function EntryCell(e: Batches.MemEntry): Cell
  {
    if e.kind == Batches.TYPE_DELETION then Del else Put(e.value)
  }

  /** The memtable a replay fills, its keys by rank. */
  function Inserted(rank: bytes -> int, es: seq<Batches.MemEntry>): Table
  {
    if es == [] then map[]
    else
      var e := es[|es| - 1];
      Inserted(rank, es[..|es| - 1])[(rank(e.key), e.sn) := EntryCell(e)]
  }

  lemma {:induction false} InsertedConcat(rank: bytes -> int, a: seq<Batches.MemEntry>, b: seq<Batches.MemEntry>)
    ensures Inserted(rank, a + b) == Inserted(rank, a) + Inserted(rank, b)
    decreases |b|
  {
    hide EntryCell;
    if b == [] {
      assert a + b == a;
    } else {
      var n := |b| - 1;
      assert (a + b)[..|a| + n] == a + b[..n];
      InsertedConcat(rank, a, b[..n]);
    }
  }

  lemma IsOfLast(ops: seq<Op>, first: nat, k: UserKey, n: nat)
    requires ops != []
    ensures var m := |ops| - 1;
            && (IsOf(ops, first, k, n) <==> IsOf(ops[..m], first, k, n) || (k, n) == (ops[m].key, first + m))
            && (IsOf(ops[..m], first, k, n) ==> n < first + m && CellOf(ops, first, n) == CellOf(ops[..m], first, n))
            && CellOf(ops, first, first + m) == ops[m].cell
  {
  }

  lemma EntryIs(ops: seq<Op>, first: nat, k: UserKey, n: nat)
    ensures (k, n) in EntriesOf(ops, first) <==> IsOf(ops, first, k, n)
    ensures (k, n) in EntriesOf(ops, first) ==> EntriesOf(ops, first)[(k, n)] == CellOf(ops, first, n)
  {
    EntriesAre(ops, first);
  }

  lemma LastEntry(ops: seq<Op>, first: nat)
    requires ops != []
    ensures var m := |ops| - 1;
            EntriesOf(ops, first) == EntriesOf(ops[..m], first)[(ops[m].key, first + m) := ops[m].cell]
  {
    hide EntriesOf, IsOf, CellOf;
    var m := |ops| - 1;
    var all, more := EntriesOf(ops, first), EntriesOf(ops[..m], first)[(ops[m].key, first + m) := ops[m].cell];
    forall k, n: nat
      ensures (k, n) in all <==> (k, n) in more
      ensures (k, n) in all ==> all[(k, n)] == more[(k, n)]
    {
      IsOfLast(ops, first, k, n);
      EntryIs(ops, first, k, n);
      EntryIs(ops[..m], first, k, n);
    }
    SameEntries(all, more);
  }

  lemma {:induction false} InsertedGroup(rank: bytes -> int, sn: nat, ops: seq<Batches.Op>)
    ensures Inserted(rank, Batches.Numbered(sn, ops)) == EntriesOf(AsOps(rank, ops), sn)
    decreases |ops|
  {
    hide EntriesOf;
    if ops == [] {
      NoEntries(sn);
      assert AsOps(rank, ops) == [];
    } else {
      var n := |ops| - 1;
      assert Batches.Numbered(sn, ops)[..n] == Batches.Numbered(sn, ops[..n]);
      assert AsOps(rank, ops)[..n] == AsOps(rank, ops[..n]);
      InsertedGroup(rank, sn, ops[..n]);
      LastEntry(AsOps(rank, ops), sn);
    }
  }

  lemma {:induction false} InsertedGroups(rank: bytes -> int, batches: seq<Recovery.Group>, groups: seq<Logged>)
    requires AreBatches(rank, batches, groups)
    ensures Inserted(rank, Recovery.GroupEntries(batches)) == TableOf(groups)
    decreases |groups|
  {
    hide Inserted, EntriesOf, Recovery.GroupEntries, TableOf;
    if groups == [] {
      NothingInserted(rank);
    } else {
      var n := |groups| - 1;
      InsertedGroups(rank, batches[..n], groups[..n]);
      assert batches == batches[..n] + [batches[n]] && groups == groups[..n] + [groups[n]];
      LastBatch(batches[..n], batches[n]);
      InsertedConcat(rank, Recovery.GroupEntries(batches[..n]), Batches.Numbered(batches[n].sn, batches[n].ops));
      InsertedGroup(rank, batches[n].sn, batches[n].ops);
      OneMoreGroup(groups[..n], groups[n]);
    }
  }

  lemma NothingInserted(rank: bytes -> int)
    ensures Inserted(rank, Recovery.GroupEntries([])) == TableOf([])
  {
  }

  lemma {:induction false} LastBatch(batches: seq<Recovery.Group>, g: Recovery.Group)
    ensures Recovery.GroupEntries(batches + [g]) == Recovery.GroupEntries(batches) + Batches.Numbered(g.sn, g.ops)
    decreases |batches|
  {
    hide Batches.Numbered;
    if batches == [] {
      assert [g][1..] == [];
      assert Recovery.GroupEntries([g]) == Batches.Numbered(g.sn, g.ops) + Recovery.GroupEntries([]);
    } else {
      assert (batches + [g])[1..] == batches[1..] + [g];
      LastBatch(batches[1..], g);
      Regroup(Batches.Numbered(batches[0].sn, batches[0].ops), Recovery.GroupEntries(batches[1..]),
        Batches.Numbered(g.sn, g.ops));
    }
  }

  lemma Regroup(a: seq<Batches.MemEntry>, b: seq<Batches.MemEntry>, c: seq<Batches.MemEntry>)
    ensures a + (b + c) == a + b + c
  {
  }

  // ----- The crash ---------------------------------------------------------------------

  /** These batches are what was encoded for the groups, and they fit the log's format. */
  ghost predicate AreBatches(rank: bytes -> int, batches: seq<Recovery.Group>, groups: seq<Logged>)
  {
    && |batches| == |groups|
    && forall j :: 0 <= j < |groups| ==>
         batches[j].sn == groups[j].first && AsOps(rank, batches[j].ops) == groups[j].ops
           && Recovery.WellFormed(batches[j])
  }

  /** What a crash leaves: `batches` are the records of each log, and of its bytes the first `left` survive. */
  datatype Crash = Crash(crc: CrcStep, rank: bytes -> int, batches: map<nat, seq<Recovery.Group>>,
                         left: map<nat, nat>, paranoid: bool)

  ghost predicate IsCrash(states: seq<Store>, events: seq<Event>, i: nat, c: Crash)
    requires |states| == |events| + 1 && i < |states|
  {
    forall n :: Needed(states[i], n) ==>
      && n in c.batches && n in c.left && AreBatches(c.rank, c.batches[n], GroupsOf(states, events, i, n))
      && c.left[n] <= |LogBytes(c, n)|
  }

  function LogBytes(c: Crash, n: nat): bytes
    requires n in c.batches
  {
    Records(c.crc, 0, Recovery.Reps(c.batches[n]))
  }

  function ReplayOf(c: Crash, n: nat): Recovery.Replayed
    requires n in c.batches && n in c.left && c.left[n] <= |LogBytes(c, n)|
  {
    Recovery.Replay(c.crc, LogBytes(c, n)[..c.left[n]], 0, c.paranoid, 0)
  }

  /** The files of the current version and what is replayed from the logs from LogNumber on. */
  ghost function Rebuilt(s: Store, c: Crash): set<File>
    requires forall n :: Needed(s, n) ==>
             n in c.batches && n in c.left && c.left[n] <= |LogBytes(c, n)|
  {
    var needed := set n | n in s.logs && Needed(s, n);
    s.current + (set n | n in needed :: File(n, MEM_LEVEL, Inserted(c.rank, ReplayOf(c, n).entries)))
  }

  /** Every group numbered up to `t` is wholly in what is left of its log. */
  ghost predicate SurvivesTo(c: Crash, n: nat, t: nat)
    requires n in c.batches && n in c.left
  {
    forall j :: 0 <= j < |c.batches[n]| && c.batches[n][j].sn <= t ==>
      |Records(c.crc, 0, Recovery.Reps(c.batches[n][..j + 1]))| <= c.left[n]
  }

  lemma BatchesIncrease(rank: bytes -> int, batches: seq<Recovery.Group>, groups: seq<Logged>, last: nat)
    requires AreBatches(rank, batches, groups) && InTurn(groups, last)
    ensures Recovery.Increasing(batches) && (batches != [] ==> 0 < batches[0].sn)
  {
    hide Recovery.WellFormed;
    forall j | 0 <= j < |batches| - 1
      ensures batches[j + 1].sn >= batches[j].sn + |batches[j].ops|
    {
      assert groups[j].first + |groups[j].ops| <= groups[j + 1].first;
    }
  }

  lemma LongerLog(c: Crash, n: nat, a: nat, b: nat)
    requires n in c.batches && a <= b <= |c.batches[n]|
    ensures var all := c.batches[n];
            |Records(c.crc, 0, Recovery.Reps(all[..a]))| <= |Records(c.crc, 0, Recovery.Reps(all[..b]))|
  {
    hide Records, Recovery.Reps;
    var all := c.batches[n];
    assert all[..b][..a] == all[..a];
    Recovery.RepsPrefix(all[..b], a);
    LogRoundTrip.RecordsMonotone(c.crc, 0, Recovery.Reps(all[..b]), a);
  }

  /** Of one torn log the replay brings back the first groups, no fewer than survive. */
  lemma LogComesBack(c: Crash, n: nat, groups: seq<Logged>, last: nat, t: nat) returns (m: nat)
    requires n in c.batches && n in c.left && c.left[n] <= |LogBytes(c, n)| && SurvivesTo(c, n, t)
    requires AreBatches(c.rank, c.batches[n], groups) && InTurn(groups, last)
    ensures m <= |groups| && ReplayOf(c, n).ok && Inserted(c.rank, ReplayOf(c, n).entries) == TableOf(groups[..m])
    ensures forall j :: m <= j < |groups| ==> t < groups[j].first
    ensures ReplayOf(c, n).maxSequence == if m == 0 then 0 else groups[m - 1].first + |groups[m - 1].ops| - 1
  {
    hide Records, Recovery.Reps, Recovery.Replay, Inserted, TableOf, Recovery.GroupEntries, Recovery.Increasing,
         InTurn, Recovery.WellFormed;
    var batches := c.batches[n];
    BatchesIncrease(c.rank, batches, groups, last);
    m := Recovery.CrashRecovery(c.crc, batches, 0, c.left[n], c.paranoid);
    InsertedGroups(c.rank, batches[..m], groups[..m]);
    forall j | m <= j < |groups|
      ensures t < groups[j].first
    {
      LongerLog(c, n, m + 1, j + 1);
    }
  }

  /** What is rebuilt is part of what the logs and files held, and all of it up to `t`. */
  lemma RebuiltHolds(states: seq<Store>, events: seq<Event>, i: nat, c: Crash, t: nat, k: UserKey, n: nat)
    requires IsRun(states, events) && i < |states| && IsCrash(states, events, i, c)
    requires forall l :: Needed(states[i], l) ==> SurvivesTo(c, l, t)
    ensures n <= t ==> (Holds(Rebuilt(states[i], c), k, n) <==> Holds(Recoverable(states[i]), k, n))
  {
    hide Records, IsRun, SurvivesTo, ReplayOf, LogBytes;
    var s := states[i];
    forall l | Needed(s, l)
      ensures n <= t ==> ((k, n) in s.logs[l] <==> (k, n) in Inserted(c.rank, ReplayOf(c, l).entries))
    {
      LogHolds(states, events, i, c, t, l, k, n);
    }
    if n <= t && Holds(Rebuilt(s, c), k, n) {
      var f :| f in Rebuilt(s, c) && (k, n) in f.table;
      if f !in s.current {
        assert File(f.number, MEM_LEVEL, s.logs[f.number]) in Recoverable(s);
      }
    }
    if n <= t && Holds(Recoverable(s), k, n) {
      var f :| f in Recoverable(s) && (k, n) in f.table;
      if f !in s.current {
        assert File(f.number, MEM_LEVEL, Inserted(c.rank, ReplayOf(c, f.number).entries)) in Rebuilt(s, c);
      }
    }
  }

  lemma LogHolds(states: seq<Store>, events: seq<Event>, i: nat, c: Crash, t: nat, l: nat, k: UserKey, n: nat)
    requires IsRun(states, events) && i < |states| && IsCrash(states, events, i, c)
    requires Needed(states[i], l) && SurvivesTo(c, l, t)
    ensures var back := Inserted(c.rank, ReplayOf(c, l).entries);
            && ReplayOf(c, l).ok
            && ((k, n) in back ==> (k, n) in states[i].logs[l] && states[i].logs[l][(k, n)] == back[(k, n)])
            && (n <= t && (k, n) in states[i].logs[l] ==> (k, n) in back)
  {
    hide Enabled, Step, SurvivesTo, ReplayOf, LogBytes, Inserted, TableOf, InTurn, GroupsOf, AreBatches;
    var groups := GroupsOf(states, events, i, l);
    LogsAreGroups(states, events, i, l);
    var m := LogComesBack(c, l, groups, LastLogged(states[i]), t);
    if (k, n) in TableOf(groups[..m]) {
      PrefixHolds(groups, LastLogged(states[i]), m, k, n);
    }
    if n <= t && (k, n) in TableOf(groups) {
      PrefixReaches(groups, LastLogged(states[i]), m, t, k, n);
    }
  }

  lemma RebuiltPart(states: seq<Store>, events: seq<Event>, i: nat, c: Crash, t: nat)
    requires IsRun(states, events) && i < |states| && IsCrash(states, events, i, c)
    requires forall l :: Needed(states[i], l) ==> SurvivesTo(c, l, t)
    requires PartOfUpTo(Recoverable(states[i]), states[i].history, t)
    ensures PartOfUpTo(Rebuilt(states[i], c), states[i].history, t)
  {
    hide Records, IsRun, SurvivesTo, ReplayOf, LogBytes, Inserted;
    var s := states[i];
    forall f, k, n: nat | f in Rebuilt(s, c) && (k, n) in f.table && n <= t
      ensures (k, n) in s.history && s.history[(k, n)] == f.table[(k, n)]
    {
      if f in s.current {
        assert f in Recoverable(s);
      } else {
        LogHolds(states, events, i, c, t, f.number, k, n);
        assert File(f.number, MEM_LEVEL, s.logs[f.number]) in Recoverable(s);
      }
    }
  }

  lemma NothingToLose(c: Crash, n: nat, groups: seq<Logged>, last: nat)
    requires n in c.batches && n in c.left && AreBatches(c.rank, c.batches[n], groups) && InTurn(groups, last)
    ensures SurvivesTo(c, n, 0)
  {
    hide Records, Recovery.Reps, Recovery.WellFormed;
    assert forall j :: 0 <= j < |groups| ==> 0 < groups[j].first;
  }

  /** Whatever bytes of a log survive, replaying them succeeds. */
  lemma ReplaySucceeds(states: seq<Store>, events: seq<Event>, i: nat, c: Crash, l: nat)
    requires IsRun(states, events) && i < |states| && IsCrash(states, events, i, c) && Needed(states[i], l)
    ensures ReplayOf(c, l).ok
  {
    hide Enabled, Step, SurvivesTo, ReplayOf, LogBytes, Inserted, TableOf, GroupsOf, AreBatches, InTurn;
    LogsAreGroups(states, events, i, l);
    NothingToLose(c, l, GroupsOf(states, events, i, l), LastLogged(states[i]));
    LogHolds(states, events, i, c, 0, l, 0, 0);
  }

  /** A crash at any moment, whatever bytes of the logs survive it, loses nothing that was wholly logged by
      then: read over the current version, what is replayed answers every key as the history does, at any number
      up to which the groups survive. */
  lemma CrashKeepsHistory(states: seq<Store>, events: seq<Event>, i: nat, c: Crash, k: UserKey, t: nat,
      scope: Scope)
    requires IsRun(states, events) && NothingUncovered(states, events, scope) && i < |states|
    requires IsCrash(states, events, i, c) && InScope(states[i], t, scope) && t <= states[i].last
    requires forall j, m: nat :: (j, m) in states[i].lost ==> t < m
    requires forall l :: Needed(states[i], l) ==> SurvivesTo(c, l, t)
    ensures forall l :: Needed(states[i], l) ==> ReplayOf(c, l).ok
    ensures ValueOf(NewestIn(Rebuilt(states[i], c), k, t)) == ValueOf(ReadAt(states[i].history, k, t))
  {
    hide Records, NothingUncovered, InScope, SurvivesTo, ReplayOf, LogBytes, Inserted, NewestIn, ReadAt, Rebuilt,
         Recoverable, GroupsOf, AreBatches, Inv;
    var s := states[i];
    RunKeeps(states, events, i);
    RecoverablePart(s, t);
    RebuiltPart(states, events, i, c, t);
    forall n: nat | n <= t
      ensures Holds(Rebuilt(s, c), k, n) <==> Holds(Recoverable(s), k, n)
    {
      RebuiltHolds(states, events, i, c, t, k, n);
    }
    SameNewest(Rebuilt(s, c), Recoverable(s), s.history, s.history, k, t, t);
    WritesAreDurable(states, events, i, k, t, scope);
    forall l | Needed(s, l)
      ensures ReplayOf(c, l).ok
    {
      ReplaySucceeds(states, events, i, c, l);
    }
  }

  lemma WholeSurvives(c: Crash, n: nat, t: nat)
    requires n in c.batches && n in c.left && c.left[n] == |LogBytes(c, n)|
    ensures SurvivesTo(c, n, t)
  {
    hide Records, Recovery.Reps;
    var all := c.batches[n];
    assert all[..|all|] == all;
    forall j | 0 <= j < |all| && all[j].sn <= t
      ensures |Records(c.crc, 0, Recovery.Reps(all[..j + 1]))| <= c.left[n]
    {
      LongerLog(c, n, j + 1, |all|);
    }
  }

  /** A torn log survives up to the largest number its replay finds. */
  lemma SurvivesToLast(c: Crash, n: nat, groups: seq<Logged>, last: nat, t: nat)
    requires n in c.batches && n in c.left && c.left[n] <= |LogBytes(c, n)|
    requires AreBatches(c.rank, c.batches[n], groups) && InTurn(groups, last) && t <= ReplayOf(c, n).maxSequence
    ensures SurvivesTo(c, n, t)
  {
    hide Records, Recovery.Reps, Recovery.Replay, Recovery.GroupEntries, Recovery.Increasing, InTurn,
         Recovery.WellFormed;
    var batches := c.batches[n];
    BatchesIncrease(c.rank, batches, groups, last);
    var m := Recovery.CrashRecovery(c.crc, batches, 0, c.left[n], c.paranoid);
    forall j | 0 <= j < |batches| && batches[j].sn <= t
      ensures |Records(c.crc, 0, Recovery.Reps(batches[..j + 1]))| <= c.left[n]
    {
      LastIsBelow(groups, last, m, j);
      LongerLog(c, n, j + 1, m);
    }
  }

  lemma LastIsBelow(groups: seq<Logged>, last: nat, m: nat, j: nat)
    requires InTurn(groups, last) && m <= |groups| && j < |groups|
    ensures m > 0 && groups[j].first <= groups[m - 1].first + |groups[m - 1].ops| - 1 ==> j < m
    ensures groups[j].first > 0
  {
  }

  /** The number before the first group of a log. */
  function StartOf(c: Crash, l: nat, last: nat): int
    requires l in c.batches
  {
    if c.batches[l] == [] then last else Min(c.batches[l][0].sn, last + 1) - 1
  }

  /** The number up to which a torn log brings the engine back: that of the last entry recovered from it, or the
      one before its first group if there is none. */
  function RecoveredTo(c: Crash, l: nat, last: nat): nat
    requires l in c.batches && l in c.left && c.left[l] <= |LogBytes(c, l)|
  {
    if c.batches[l] == [] then last
    else
      var first, found := c.batches[l][0].sn, ReplayOf(c, l).maxSequence;
      Min(if found < first then first - 1 else found, last)
  }

  lemma NoFurther(c: Crash, l: nat, last: nat)
    requires l in c.batches && l in c.left && c.left[l] <= |LogBytes(c, l)|
    ensures StartOf(c, l, last) <= RecoveredTo(c, l, last) <= last
  {
  }

  lemma EmptyLog(c: Crash, l: nat)
    requires l in c.batches && c.batches[l] == []
    ensures |LogBytes(c, l)| == 0
  {
    assert Recovery.Reps(c.batches[l]) == [];
  }

  lemma RecoveredSurvives(c: Crash, l: nat, groups: seq<Logged>, reached: nat, last: nat)
    requires l in c.batches && l in c.left && c.left[l] <= |LogBytes(c, l)|
    requires AreBatches(c.rank, c.batches[l], groups) && InTurn(groups, reached)
    ensures SurvivesTo(c, l, RecoveredTo(c, l, last))
  {
    hide Records, Recovery.Reps, ReplayOf, LogBytes, Recovery.WellFormed;
    if groups != [] {
      var first, found := c.batches[l][0].sn, ReplayOf(c, l).maxSequence;
      if found < first {
        assert forall j :: 0 < j < |groups| ==> groups[0].first <= groups[j].first;
      } else {
        SurvivesToLast(c, l, groups, reached, RecoveredTo(c, l, last));
      }
    }
  }

  /** Later logs have nothing numbered so low. */
  lemma LaterSurvives(states: seq<Store>, events: seq<Event>, i: nat, c: Crash, a: nat, b: nat)
    requires IsRun(states, events) && i < |states| && IsCrash(states, events, i, c) && a < b
    requires Needed(states[i], a) && Needed(states[i], b) && c.batches[a] != []
    ensures SurvivesTo(c, b, RecoveredTo(c, a, states[i].last))
  {
    hide Enabled, Step, Records, Recovery.Reps, LogBytes, GroupsOf, Recovery.WellFormed, Recovery.Replay, Inserted,
         TableOf;
    var first, second := GroupsOf(states, events, i, a), GroupsOf(states, events, i, b);
    LogsInTurn(states, events, i, a, b);
    LogsAreGroups(states, events, i, a);
    NothingToLose(c, a, first, LastLogged(states[i]));
    var m := LogComesBack(c, a, first, LastLogged(states[i]), 0);
    forall j | 0 <= j < |second|
      ensures RecoveredTo(c, a, states[i].last) < second[j].first
    {
      var all := first + second;
      assert all[0] == first[0] && all[|first| + j] == second[j] && (m > 0 ==> all[m - 1] == first[m - 1]);
    }
  }

  /** Whatever a crash leaves of the logs, the engine comes back with the history up to the last entry it
      recovers from the first log that is torn: the logs before that one are whole, and those after it do not
      count. If none is torn, `l` is the log that was being written. The same goes for every number back to the
      start of that log. */
  lemma LastRecoveredIsRead(states: seq<Store>, events: seq<Event>, i: nat, c: Crash, l: nat, k: UserKey, t: nat,
      scope: Scope)
    requires IsRun(states, events) && NothingUncovered(states, events, scope) && i < |states|
    requires IsCrash(states, events, i, c)
    requires Needed(states[i], l) && (l == states[i].logfile || c.left[l] < |LogBytes(c, l)|)
    requires forall e: nat :: Needed(states[i], e) && e < l ==> c.left[e] == |LogBytes(c, e)|
    requires t <= RecoveredTo(c, l, states[i].last)
    requires InScope(states[i], t, scope) || (scope == Crashed && StartOf(c, l, states[i].last) <= t)
    requires forall j, m: nat :: (j, m) in states[i].lost ==> t < m
    ensures forall e: nat :: Needed(states[i], e) ==> ReplayOf(c, e).ok
    ensures ValueOf(NewestIn(Rebuilt(states[i], c), k, t)) == ValueOf(ReadAt(states[i].history, k, t))
  {
    hide Enabled, Step, NothingUncovered, SurvivesTo, ReplayOf, LogBytes, Inserted, NewestIn, ReadAt,
         Rebuilt, GroupsOf, AreBatches, RecoveredTo, StartOf, Settled;
    if StartOf(c, l, states[i].last) <= t {
      RecoveredIsSettled(states, events, i, c, l, t);
    }
    assert t <= states[i].last by { NoFurther(c, l, states[i].last); }
    forall e | Needed(states[i], e)
      ensures SurvivesTo(c, e, t)
    {
      NeededSurvives(states, events, i, c, l, e);
      SurvivesLess(c, e, RecoveredTo(c, l, states[i].last), t);
    }
    CrashKeepsHistory(states, events, i, c, k, t, scope);
  }

  lemma SurvivesLess(c: Crash, n: nat, u: nat, t: nat)
    requires n in c.batches && n in c.left && SurvivesTo(c, n, u) && t <= u
    ensures SurvivesTo(c, n, t)
  {
  }

  lemma NeededSurvives(states: seq<Store>, events: seq<Event>, i: nat, c: Crash, l: nat, e: nat)
    requires IsRun(states, events) && i < |states| && IsCrash(states, events, i, c)
    requires Needed(states[i], l) && (l == states[i].logfile || c.left[l] < |LogBytes(c, l)|)
    requires Needed(states[i], e) && (e < l ==> c.left[e] == |LogBytes(c, e)|)
    ensures SurvivesTo(c, e, RecoveredTo(c, l, states[i].last))
  {
    hide Enabled, Step, SurvivesTo, ReplayOf, LogBytes, GroupsOf, InTurn, TableOf, Recovery.WellFormed, RecoveredTo,
         SequencesOk, SnapshotsOk, LiveOk, ReadersOk, FlushOk, CompactionOk, DiskOk, LogsOk;
    RunKeeps(states, events, i);
    var s := states[i];
    if e < l {
      WholeSurvives(c, e, RecoveredTo(c, l, s.last));
    } else if e == l {
      LogsAreGroups(states, events, i, l);
      RecoveredSurvives(c, l, GroupsOf(states, events, i, l), LastLogged(s), s.last);
    } else {
      assert e <= s.logfile;
      if c.batches[l] == [] {
        EmptyLog(c, l);
      }
      LaterSurvives(states, events, i, c, l, e);
    }
  }

  lemma RecoveredIsSettled(states: seq<Store>, events: seq<Event>, i: nat, c: Crash, l: nat, t: nat)
    requires IsRun(states, events) && i < |states| && IsCrash(states, events, i, c) && Needed(states[i], l)
    requires StartOf(c, l, states[i].last) <= t <= RecoveredTo(c, l, states[i].last)
    ensures Settled(states[i], t)
  {
    hide Enabled, Step, ReplayOf, LogBytes, GroupsOf, Recovery.WellFormed,
         SequencesOk, LiveOk, ReadersOk, FlushOk, CompactionOk, DiskOk, LogsOk;
    RunKeeps(states, events, i);
    var s, groups := states[i], GroupsOf(states, events, i, l);
    if groups != [] && groups[0].first <= s.last + 1 {
      LoggedIsSettled(states, events, i, l, t);
    }
  }

  // ----- Nothing else comes back -------------------------------------------------------

  /** What is replayed from a log is numbered no higher than the largest number found. */
  lemma ReplayedUpTo(c: Crash, l: nat, groups: seq<Logged>, reached: nat, k: UserKey, n: nat)
    requires l in c.batches && l in c.left && c.left[l] <= |LogBytes(c, l)|
    requires AreBatches(c.rank, c.batches[l], groups) && InTurn(groups, reached)
    requires (k, n) in Inserted(c.rank, ReplayOf(c, l).entries)
    ensures n <= ReplayOf(c, l).maxSequence
  {
    hide ReplayOf, LogBytes, Inserted, TableOf, AreBatches, SurvivesTo, CellOf;
    NothingToLose(c, l, groups, reached);
    var m := LogComesBack(c, l, groups, reached, 0);
    PrefixInTurn(groups, reached, m);
    TableHas(groups[..m], reached, k, n);
    var j :| 0 <= j < m && InGroup(groups[..m][j], k, n);
    assert groups[j].first + |groups[j].ops| <= groups[m - 1].first + |groups[m - 1].ops|;
  }

  /** What is in no memtable but the one being written was written before that one's log was begun. */
  lemma OlderIsBefore(s: Store, f: File, groups: seq<Logged>, k: UserKey, n: nat)
    requires LiveOk(s) && SinceIn(s, s.logfile, groups) && groups != []
    requires f in Now(s) && f.level > MEM_LEVEL && (k, n) in f.table
    ensures n < groups[0].first
  {
    hide WithinBounds;
    var mem := File(s.logfile, MEM_LEVEL, Memtable(s.memtables, s.logfile));
    assert mem in Now(s) && Newer(mem, f) && Above(mem, f);
    assert (k, n) in s.history;
  }

  lemma NothingElseComesBack(states: seq<Store>, events: seq<Event>, i: nat, c: Crash, k: UserKey, n: nat)
    requires IsRun(states, events) && i < |states| && IsCrash(states, events, i, c)
    requires Needed(states[i], states[i].logfile)
    requires RecoveredTo(c, states[i].logfile, states[i].last) < n <= states[i].last
    requires forall j, m: nat :: (j, m) in states[i].lost ==> n < m
    ensures !Holds(Rebuilt(states[i], c), k, n)
  {
    hide Enabled, Step, ReplayOf, LogBytes, GroupsOf, Recovery.WellFormed, Inserted, InTurn, SinceIn, Records,
         ReadersOk, FlushOk, CompactionOk, DiskOk, LiveOk, SequencesOk, SnapshotsOk;
    var s, l := states[i], states[i].logfile;
    var groups := GroupsOf(states, events, i, l);
    RunKeeps(states, events, i);
    LogsAreGroups(states, events, i, l);
    SinceStaysIn(states, events, i, l);
    if f :| f in Rebuilt(s, c) && (k, n) in f.table {
      if f in s.current {
        OlderIsBefore(s, f, groups, k, n);
      } else if f.number != l {
        ReplayedIsLogged(states, events, i, c, f.number, k, n);
        OlderIsBefore(s, File(f.number, IMM_LEVEL, s.logs[f.number]), groups, k, n);
      } else {
        ReplayedUpTo(c, l, groups, LastLogged(s), k, n);
      }
    }
  }

  lemma ReplayedIsLogged(states: seq<Store>, events: seq<Event>, i: nat, c: Crash, l: nat, k: UserKey, n: nat)
    requires IsRun(states, events) && i < |states| && IsCrash(states, events, i, c) && Needed(states[i], l)
    requires (k, n) in Inserted(c.rank, ReplayOf(c, l).entries)
    ensures (k, n) in states[i].logs[l]
  {
    hide Enabled, Step, SurvivesTo, ReplayOf, LogBytes, Inserted, TableOf, GroupsOf, AreBatches, InTurn;
    LogsAreGroups(states, events, i, l);
    NothingToLose(c, l, GroupsOf(states, events, i, l), LastLogged(states[i]));
    LogHolds(states, events, i, c, 0, l, k, n);
  }

  /** When only the log being written is torn, all that the engine comes back with is the history up to the last
      entry recovered: from there to the old LastSequence nothing else is read. */
  lemma RecoveredIsPrefix(states: seq<Store>, events: seq<Event>, i: nat, c: Crash, k: UserKey, t: nat, u: nat,
      scope: Scope)
    requires IsRun(states, events) && NothingUncovered(states, events, scope) && i < |states|
    requires IsCrash(states, events, i, c) && (scope == Running ==> states[i].horizon <= t)
    requires Needed(states[i], states[i].logfile)
    requires forall e: nat :: Needed(states[i], e) && e < states[i].logfile ==> c.left[e] == |LogBytes(c, e)|
    requires t == RecoveredTo(c, states[i].logfile, states[i].last) && t <= u <= states[i].last
    requires forall j, m: nat :: (j, m) in states[i].lost ==> u < m
    ensures ValueOf(NewestIn(Rebuilt(states[i], c), k, u)) == ValueOf(ReadAt(states[i].history, k, t))
  {
    hide Enabled, Step, NothingUncovered, ReplayOf, LogBytes, NewestIn, ReadAt, Rebuilt, GroupsOf,
         AreBatches, StartOf, RecoveredTo;
    NoFurther(c, states[i].logfile, states[i].last);
    LastRecoveredIsRead(states, events, i, c, states[i].logfile, k, t, scope);
    forall n: nat | t < n <= u
      ensures !Holds(Rebuilt(states[i], c), k, n)
    {
      NothingElseComesBack(states, events, i, c, k, n);
    }
    SameUpTo(Rebuilt(states[i], c), k, t, u);
  }

  lemma {:induction false} SameUpTo(fs: set<File>, k: UserKey, t: nat, u: nat)
    requires t <= u && forall n: nat :: t < n <= u ==> !Holds(fs, k, n)
    ensures NewestIn(fs, k, u) == NewestIn(fs, k, t)
    decreases u
  {
    if t < u {
      assert !Holds(fs, k, u);
      SameUpTo(fs, k, t, u - 1);
    }
  }
}
