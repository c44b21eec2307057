/** Replaying a log into memtables (db/db_impl.cc, RecoverLogFile), and what it recovers from the
    torn log of a crashed process. */
module Recovery {
  import opened Coding
  import opened LogFormat
  import opened LogIo
  import opened LogRoundTrip
  import opened Options
  import opened WriteBatches

  /** The outcome of replaying one log: whether the status is still ok, every entry inserted, and
      the largest sequence number. */
  datatype Replayed = Replayed(ok: bool, entries: seq<MemEntry>, maxSequence: nat)

  function LastSequenceOf(rep: bytes): nat
    requires |rep| >= HEADER
  {
    (SequenceOf(rep) + CountOf(rep) - 1) % 0x1_0000_0000_0000_0000
  }

  function Max(a: nat, b: nat): nat
  {
    if a < b then b else a
  }

  /** Replay of any file from position `x`, corrupt or not. Without paranoid checks every error is
      ignored; with them the first one ends the replay. */
  function Replay(crc: CrcStep, file: bytes, x: nat, paranoid: bool, maxSequence: nat): Replayed
    decreases |file| - x
  {
    var r := RecordFrom(crc, file, x, 0, false, NoPartial, []);
    var reported := paranoid && r.drops != [];
    if r.record == None || reported then Replayed(!reported, [], maxSequence)
    else
      var rep := r.record.value;
      if |rep| < HEADER then
        if paranoid then Replayed(false, [], maxSequence) else Replay(crc, file, r.next, paranoid, maxSequence)
      else
        var (ops, status) := IterateRep(rep);
        var entries := Numbered(SequenceOf(rep), ops);
        if paranoid && status != Ok then Replayed(false, entries, maxSequence)
        else Prepend(entries, Replay(crc, file, r.next, paranoid, Max(maxSequence, LastSequenceOf(rep))))
  }

  function Prepend(entries: seq<MemEntry>, r: Replayed): Replayed
  {
    r.(entries := entries + r.entries)
  }

  function Flatten(tables: seq<seq<MemEntry>>): seq<MemEntry>
  {
    if tables == [] then [] else Flatten(tables[..|tables| - 1]) + tables[|tables| - 1]
  }

  /** `full` says after which records the memtable has outgrown the write buffer; `memLeft` is what
      stays in the last memtable, `tables` what was written out before. Once the status is not ok
      the last memtable is discarded by the source. */
  method RecoverLogFile(crc: CrcStep, file: bytes, paranoid: bool, full: nat -> bool, maxSequence0: nat)
    returns (ok: bool, tables: seq<seq<MemEntry>>, memLeft: seq<MemEntry>, maxSequence: nat)
    ensures var r := Replay(crc, file, 0, paranoid, maxSequence0);
            ok == r.ok && Flatten(tables) + memLeft == r.entries && maxSequence == r.maxSequence
  {
    hide RecordFrom, IterateRep, Numbered, Reader.Valid, Reader.Position, Reader.AtEnd;
    var reader := new Reader(crc, file, 0);
    maxSequence := maxSequence0;
    tables := [];
    ok := true;
    var mem: EntryLog? := null;
    var i := 0;
    ghost var goal := Replay(crc, file, 0, paranoid, maxSequence0);
    ghost var entries := [];
    assert Prepend([], goal) == goal by {
      assert [] + goal.entries == goal.entries;
    }
    while true
      invariant reader.Valid() && reader.crc == crc && reader.file == file && reader.initialOffset == 0
      invariant !reader.resyncing && fresh(reader) && (mem != null ==> fresh(mem) && mem as object != reader)
      invariant entries == Flatten(tables) + (if mem == null then [] else mem.entries)
      invariant ok && goal == Prepend(entries, Replay(crc, file, reader.Position(), paranoid, maxSequence))
      decreases if |file| >= reader.Position() then |file| - reader.Position() else 0
    {
      RecordClearsResync(crc, file, reader.Position(), NoPartial, []);
      reader.reports := [];
      var found, record := reader.ReadRecord();
      if paranoid && reader.reports != [] {
        ok := false;
      }
      if !found || !ok {
        assert entries + [] == entries;
        break;
      }
      if |record| < HEADER {
        if paranoid {
          ok := false;
          assert entries + [] == entries;
          break;
        }
        continue;
      }
      if mem == null {
        mem := new EntryLog();
      }
      var status := InsertInto(record, mem);
      ghost var added := Numbered(SequenceOf(record), IterateRep(record).0);
      assert Flatten(tables) + mem.entries == entries + added;
      if paranoid && status != Ok {
        ok := false;
        entries := entries + added;
        break;
      }
      PrependTwice(entries, added,
        Replay(crc, file, reader.Position(), paranoid, Max(maxSequence, LastSequenceOf(record))));
      entries := entries + added;
      var lastSeq := LastSequenceOf(record);
      if lastSeq > maxSequence {
        maxSequence := lastSeq;
      }
      if full(i) {
        tables := tables + [mem.entries];
        assert tables[..|tables| - 1] + [mem.entries] == tables;
        mem := null;
      }
      i := i + 1;
    }
    memLeft := if mem == null then [] else mem.entries;
  }

  lemma PrependTwice(a: seq<MemEntry>, b: seq<MemEntry>, r: Replayed)
    ensures Prepend(a, Prepend(b, r)) == Prepend(a + b, r)
  {
    assert a + (b + r.entries) == a + b + r.entries;
  }

  // ----- Committed groups --------------------------------------------------------------

  /** One committed group: its first sequence number and its operations. */
  datatype Group = Group(sn: nat, ops: seq<Op>)

  ghost predicate WellFormed(g: Group)
  {
    0 < g.sn && g.sn + |g.ops| < 0x100_0000_0000_0000 && AllEncodable(g.ops)
  }

  /** No group reuses a sequence number. Numbers may be skipped: LastSequence moves on even when a
      group's record did not reach the log. */
  ghost predicate Increasing(groups: seq<Group>)
  {
    && (forall i :: 0 <= i < |groups| ==> WellFormed(groups[i]))
    && (forall i :: 0 <= i < |groups| - 1 ==> groups[i + 1].sn >= groups[i].sn + |groups[i].ops|)
  }

  /** The records the writer logged for the groups. */
  function Reps(groups: seq<Group>): (r: seq<bytes>)
    ensures |r| == |groups|
  {
    seq(|groups|, i requires 0 <= i < |groups| => Rep(groups[i].sn, groups[i].ops))
  }

  function GroupEntries(groups: seq<Group>): seq<MemEntry>
  {
    if groups == [] then []
    else Numbered(groups[0].sn, groups[0].ops) + GroupEntries(groups[1..])
  }

  /** LastSequence after the groups, when it was `before` ahead of them. */
  function LastAfter(groups: seq<Group>, before: nat): nat
    requires forall i :: 0 <= i < |groups| ==> groups[i].sn > 0
  {
    if groups == [] then before else groups[|groups| - 1].sn + |groups[|groups| - 1].ops| - 1
  }

  lemma GroupRecord(g: Group)
    requires WellFormed(g)
    ensures var rep := Rep(g.sn, g.ops);
            && IterateRep(rep) == (g.ops, Ok) && SequenceOf(rep) == g.sn
            && LastSequenceOf(rep) == g.sn + |g.ops| - 1
  {
    hide IterateRep, Rep, SequenceOf, CountOf, Pow256, EncodeOps;
    Pow256Of8();
    BatchRoundTrip(g.sn, g.ops);
    RepFields(g.sn, g.ops);
  }

  lemma RepsUnfold(groups: seq<Group>)
    requires groups != []
    ensures Reps(groups)[0] == Rep(groups[0].sn, groups[0].ops) && Reps(groups)[1..] == Reps(groups[1..])
  {
    hide Rep;
    assert forall i :: 0 <= i < |groups| - 1 ==> Reps(groups)[1..][i] == Reps(groups[1..])[i];
  }

  /** Replaying the record of one group. */
  lemma ReplaysGroup(crc: CrcStep, file: bytes, x: nat, paranoid: bool, g: Group, before: nat)
    requires WellFormed(g) && before < g.sn
    requires RecordFrom(crc, file, x, 0, false, NoPartial, []).record == Some(Rep(g.sn, g.ops))
    requires RecordFrom(crc, file, x, 0, false, NoPartial, []).drops == []
    ensures Replay(crc, file, x, paranoid, before)
            == Prepend(Numbered(g.sn, g.ops),
                       Replay(crc, file, RecordFrom(crc, file, x, 0, false, NoPartial, []).next, paranoid,
                         g.sn + |g.ops| - 1))
  {
    hide RecordFrom, IterateRep, Numbered, Rep, SequenceOf, LastSequenceOf;
    GroupRecord(g);
  }

  lemma IncreasingTail(groups: seq<Group>, before: nat)
    requires Increasing(groups) && groups != []
    ensures var g, rest := groups[0], groups[1..];
            && WellFormed(g) && g.sn > 0 && Increasing(rest) && (rest != [] ==> rest[0].sn >= g.sn + |g.ops|)
            && (forall i :: 0 <= i < |groups| ==> groups[i].sn > 0)
            && (forall i :: 0 <= i < |rest| ==> rest[i].sn > 0)
            && LastAfter(groups, before) == LastAfter(rest, g.sn + |g.ops| - 1)
  {
    hide AllEncodable;
    forall i | 0 <= i < |groups|
      ensures groups[i].sn > 0
    {
      assert WellFormed(groups[i]);
    }
    var rest := groups[1..];
    forall i | 0 <= i < |rest|
      ensures WellFormed(rest[i])
    {
      assert rest[i] == groups[i + 1];
    }
    forall i | 0 <= i < |rest| - 1
      ensures rest[i + 1].sn >= rest[i].sn + |rest[i].ops|
    {
      assert rest[i + 1] == groups[i + 2] && rest[i] == groups[i + 1];
    }
  }

  lemma HeadAndRest(head: bytes, rest: seq<bytes>, all: seq<bytes>, drops: seq<nat>, more: seq<nat>)
    requires [head] + rest == all && drops + more == []
    ensures all != [] && all[0] == head && all[1..] == rest && drops == [] && more == []
  {
    assert |drops| + |more| == 0;
  }

  lemma ReplaysNothing(crc: CrcStep, file: bytes, x: nat, paranoid: bool, before: nat)
    requires RecordFrom(crc, file, x, 0, false, NoPartial, []).record == None
    requires RecordFrom(crc, file, x, 0, false, NoPartial, []).drops == []
    ensures Replay(crc, file, x, paranoid, before) == Replayed(true, [], before)
  {
    hide RecordFrom;
  }

  lemma {:induction false} ReplaysGroups(crc: CrcStep, file: bytes, x: nat, paranoid: bool, groups: seq<Group>,
      before: nat)
    requires Increasing(groups) && (groups != [] ==> before < groups[0].sn)
    requires ReadAll(crc, file, x, 0, false) == (Reps(groups), [])
    ensures Replay(crc, file, x, paranoid, before) == Replayed(true, GroupEntries(groups), LastAfter(groups, before))
    decreases |groups|
  {
    hide RecordFrom, Numbered, Rep, ReadAll, Reps, Replay, Increasing, WellFormed, LastAfter, GroupEntries;
    var r := RecordFrom(crc, file, x, 0, false, NoPartial, []);
    ReadAllUnfolds(crc, file, x, 0, false);
    if groups == [] {
      ReplaysNothing(crc, file, x, paranoid, before);
      NoGroups(before);
    } else {
      var g := groups[0];
      IncreasingTail(groups, before);
      RepsUnfold(groups);
      var rest := ReadAll(crc, file, r.next, 0, r.resyncing);
      HeadAndRest(r.record.value, rest.0, Reps(groups), r.drops, rest.1);
      ReplaysGroup(crc, file, x, paranoid, g, before);
      RecordClearsResync(crc, file, x, NoPartial, []);
      ReplaysGroups(crc, file, r.next, paranoid, groups[1..], g.sn + |g.ops| - 1);
      GroupEntriesUnfold(groups);
    }
  }

  lemma NoGroups(before: nat)
    ensures GroupEntries([]) == [] && LastAfter([], before) == before
  {
  }

  lemma GroupEntriesUnfold(groups: seq<Group>)
    requires groups != []
    ensures GroupEntries(groups) == Numbered(groups[0].sn, groups[0].ops) + GroupEntries(groups[1..])
  {
  }

  lemma {:induction false} RecordClearsResync(crc: CrcStep, file: bytes, x: nat, partial: Partial, drops: seq<nat>)
    ensures !RecordFrom(crc, file, x, 0, false, partial, drops).resyncing
    decreases |file| - x
  {
    var p := PhysicalAt(crc, file, x, 0);
    var o := OnPhysical(p, 0, false, partial);
    if o.More? {
      RecordClearsResync(crc, file, p.next, o.partial, drops + o.drops);
    }
  }

  lemma RepsPrefix(groups: seq<Group>, n: nat)
    requires n <= |groups|
    ensures Reps(groups[..n]) == Reps(groups)[..n]
  {
  }

  /** Crash recovery. Whatever byte prefix of the log survives, replaying it succeeds and rebuilds
      exactly the entries of a prefix of the groups that were logged, the longest one wholly in the log;
      and max_sequence is LastSequence just after the last recovered group. */
  lemma CrashRecovery(crc: CrcStep, groups: seq<Group>, before: nat, n: nat, paranoid: bool)
    returns (m: nat)
    requires Increasing(groups) && (groups != [] ==> before < groups[0].sn)
    requires n <= |Records(crc, 0, Reps(groups))|
    ensures m <= |groups|
    ensures |Records(crc, 0, Reps(groups[..m]))| <= n
    ensures m < |groups| ==> n < |Records(crc, 0, Reps(groups[..m + 1]))|
    ensures Replay(crc, Records(crc, 0, Reps(groups))[..n], 0, paranoid, before)
            == Replayed(true, GroupEntries(groups[..m]), LastAfter(groups[..m], before))
  {
    hide Records, ReadAll, Replay;
    var file := Records(crc, 0, Reps(groups))[..n];
    TornLog(crc, Reps(groups), n);
    var got := ReadAll(crc, file, 0, 0, false).0;
    m := |got|;
    RepsPrefix(groups, m);
    assert got == Reps(groups[..m]);
    if m < |groups| {
      RepsPrefix(groups, m + 1);
    }
    ReplaysGroups(crc, file, 0, paranoid, groups[..m], before);
  }

  // ----- Any log -----------------------------------------------------------------------

  /** The entries of all records long enough to be batches, as far as their operations can be read. */
  function AllEntries(records: seq<bytes>): seq<MemEntry>
  {
    if records == [] then []
    else
      (if |records[0]| < HEADER then [] else Numbered(SequenceOf(records[0]), IterateRep(records[0]).0))
      + AllEntries(records[1..])
  }

  function Largest(records: seq<bytes>, before: nat): nat
  {
    if records == [] then before
    else Largest(records[1..], if |records[0]| < HEADER then before else Max(before, LastSequenceOf(records[0])))
  }

  predicate AllBatches(records: seq<bytes>)
  {
    forall i :: 0 <= i < |records| ==> |records[i]| >= HEADER && IterateRep(records[i]).1 == Ok
  }

  /** Without paranoid checks a replay always succeeds, with everything that can be read from the log. With them it
      succeeds exactly if nothing of the log was dropped and every record is a batch, and the result is the same. */
  lemma {:induction false} ReplayIs(crc: CrcStep, file: bytes, x: nat, paranoid: bool, before: nat)
    ensures var (records, drops) := ReadAll(crc, file, x, 0, false);
            var r := Replay(crc, file, x, paranoid, before);
            && (r.ok <==> !paranoid || (drops == [] && AllBatches(records)))
            && (r.ok ==> r.entries == AllEntries(records) && r.maxSequence == Largest(records, before))
    decreases |file| - x
  {
    hide RecordFrom, IterateRep, Numbered, SequenceOf, LastSequenceOf, ReadAll;
    ReadAllUnfolds(crc, file, x, 0, false);
    var r := RecordFrom(crc, file, x, 0, false, NoPartial, []);
    if r.record != None {
      RecordClearsResync(crc, file, x, NoPartial, []);
      var rep := r.record.value;
      var more, drops := ReadAll(crc, file, r.next, 0, false).0, ReadAll(crc, file, r.next, 0, false).1;
      assert r.drops + drops == [] <==> r.drops == [] && drops == [] by {
        assert |r.drops + drops| == |r.drops| + |drops|;
      }
      FirstRecord(rep, more, before);
      ReplayIs(crc, file, r.next, paranoid, if |rep| < HEADER then before else Max(before, LastSequenceOf(rep)));
    } else {
      assert AllBatches([]);
    }
  }

  lemma FirstRecord(rep: bytes, more: seq<bytes>, before: nat)
    ensures var records := [rep] + more;
            && (AllBatches(records) <==> |rep| >= HEADER && IterateRep(rep).1 == Ok && AllBatches(more))
            && AllEntries(records)
                 == (if |rep| < HEADER then [] else Numbered(SequenceOf(rep), IterateRep(rep).0)) + AllEntries(more)
            && Largest(records, before)
                 == Largest(more, if |rep| < HEADER then before else Max(before, LastSequenceOf(rep)))
  {
    hide IterateRep, Numbered, SequenceOf, LastSequenceOf;
    var records := [rep] + more;
    assert records[0] == rep && records[1..] == more;
    forall i | 0 <= i < |more|
      ensures more[i] == records[i + 1]
    {
    }
  }

  /** The number a replay ends with is at least that of every entry it has inserted from complete batches. */
  lemma {:induction false} NumbersAreCovered(records: seq<bytes>, before: nat, e: MemEntry)
    requires AllBatches(records) && e in AllEntries(records)
    requires forall i :: 0 <= i < |records| && |records[i]| >= HEADER ==>
               SequenceOf(records[i]) + CountOf(records[i]) < 0x1_0000_0000_0000_0000
    ensures e.sn <= Largest(records, before)
  {
    hide IterateRep, Numbered, SequenceOf, LastSequenceOf, CountOf;
    var rep, more := records[0], records[1..];
    assert records == [rep] + more;
    FirstRecord(rep, more, before);
    LargestGrows(more, Max(before, LastSequenceOf(rep)));
    if e in AllEntries(more) {
      NumbersAreCovered(more, Max(before, LastSequenceOf(rep)), e);
    } else {
      NumbersOfBatch(rep, e);
    }
  }

  lemma {:induction false} LargestGrows(records: seq<bytes>, before: nat)
    ensures before <= Largest(records, before)
    decreases |records|
  {
    hide LastSequenceOf;
    if records != [] {
      LargestGrows(records[1..], if |records[0]| < HEADER then before else Max(before, LastSequenceOf(records[0])));
    }
  }

  lemma NumbersOfBatch(rep: bytes, e: MemEntry)
    requires |rep| >= HEADER && IterateRep(rep).1 == Ok && e in Numbered(SequenceOf(rep), IterateRep(rep).0)
    requires SequenceOf(rep) + CountOf(rep) < 0x1_0000_0000_0000_0000
    ensures e.sn <= LastSequenceOf(rep)
  {
    hide ParseOps, SequenceOf, CountOf;
  }
}
