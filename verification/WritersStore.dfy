/** The writers of db/db_impl.cc, Write, and the writes of the engine: the groups the threads log are the
    writes of a run of the engine, with the same numbers. */
module WritersStore {
  import opened Coding
  import opened Options
  import opened Stores
  import opened StoreRuns
  import opened StoreInvariant
  import Batches = WriteBatches
  import Queue = WriterQueue
  import Threads = WriterThreads

  /** An operation of a batch, its key by rank. */
  function AsOp(rank: bytes -> int, op: Batches.Op): Op
  {
    match op
    case Put(key, value) => Op(rank(key), Put(value))
    case Delete(key) => Op(rank(key), Del)
  }

  function AsOps(rank: bytes -> int, ops: seq<Batches.Op>): (r: seq<Op>)
    ensures |r| == |ops| && forall i :: 0 <= i < |ops| ==> r[i] == AsOp(rank, ops[i])
  {
    seq(|ops|, i requires 0 <= i < |ops| => AsOp(rank, ops[i]))
  }

  /** The entries of the groups whose records reached the log. */
  function HistoryOf(rank: bytes -> int, records: seq<Queue.Record>): Table
  {
    if records == [] then map[]
    else
      var r := records[|records| - 1];
      var before := HistoryOf(rank, records[..|records| - 1]);
      if r.ok then before + EntriesOf(AsOps(rank, r.ops), r.first) else before
  }

  /** The engine has done the writes of the queue and nothing else. */
  ghost predicate HasWritten(rank: bytes -> int, q: Queue.State, s: Store)
  {
    && s.last == q.last && s.history == HistoryOf(rank, q.records)
    && s.write == None && !s.bgError && s.logfile in s.logs
  }

  ghost predicate RunsTo(states: seq<Store>, events: seq<Event>, s: Store)
  {
    IsRun(states, events) && states[|events|] == s
  }

  lemma OneMore(states: seq<Store>, events: seq<Event>, s: Store, e: Event)
    returns (states': seq<Store>, events': seq<Event>)
    requires RunsTo(states, events, s) && Enabled(s, e)
    ensures RunsTo(states', events', Step(s, e))
  {
    hide Enabled, Step;
    states', events' := states + [Step(s, e)], events + [e];
  }

  /** Inserting the rest of a group. */
  lemma {:induction false} InsertsAll(states: seq<Store>, events: seq<Event>, s: Store)
    returns (states': seq<Store>, events': seq<Event>, t: Store)
    requires RunsTo(states, events, s) && s.write.Some? && s.write.value.logged
             && s.write.value.inserted <= |s.write.value.ops|
    ensures RunsTo(states', events', t)
    ensures t.last == s.last && t.bgError == s.bgError && t.logs == s.logs && t.logfile == s.logfile
    ensures t.write == Some(s.write.value.(inserted := |s.write.value.ops|))
    ensures t.history == s.history
            + EntriesOf(s.write.value.ops[s.write.value.inserted..], s.last + 1 + s.write.value.inserted)
    decreases |s.write.value.ops| - s.write.value.inserted
  {
    hide EntriesOf, RunsTo, Enabled, Step;
    var w := s.write.value;
    var rest, first := w.ops[w.inserted..], s.last + 1 + w.inserted;
    if w.inserted == |w.ops| {
      states', events', t := states, events, s;
      NoEntries(first);
    } else {
      var u := InsertNext(s);
      assert Enabled(s, InsertNextEvent) && Step(s, InsertNextEvent) == u by { InsertIsNext(s); }
      states', events' := OneMore(states, events, s, InsertNextEvent);
      states', events', t := InsertsAll(states', events', u);
      EntriesStep(rest, first);
      assert rest[1..] == w.ops[w.inserted + 1..] && rest[0] == w.ops[w.inserted];
      PutFirst(s.history, (rest[0].key, first), rest[0].cell, EntriesOf(rest[1..], first + 1));
    }
  }

  lemma InsertIsNext(s: Store)
    requires CanInsertNext(s)
    ensures Enabled(s, InsertNextEvent) && Step(s, InsertNextEvent) == InsertNext(s)
  {
  }

  lemma PutFirst(h: Table, p: InternalKey, c: Cell, more: Table)
    ensures h[p := c] + more == h + (map[p := c] + more)
  {
  }

  lemma NoEntries(first: nat)
    ensures EntriesOf([], first) == map[]
  {
  }

  lemma IsOfStep(ops: seq<Op>, first: nat, k: int, n: nat)
    requires ops != []
    ensures IsOf(ops, first, k, n) <==> (k, n) == (ops[0].key, first) || IsOf(ops[1..], first + 1, k, n)
    ensures CellOf(ops, first, n) == if n == first then ops[0].cell else CellOf(ops[1..], first + 1, n)
  {
  }

  lemma EntriesStep(ops: seq<Op>, first: nat)
    requires ops != []
    ensures EntriesOf(ops, first) == map[(ops[0].key, first) := ops[0].cell] + EntriesOf(ops[1..], first + 1)
  {
    EntriesAre(ops, first);
    EntriesAre(ops[1..], first + 1);
    hide EntriesOf, IsOf, CellOf;
    var all, more := EntriesOf(ops, first), map[(ops[0].key, first) := ops[0].cell] + EntriesOf(ops[1..], first + 1);
    forall k, n: nat
      ensures (k, n) in all <==> (k, n) in more
      ensures (k, n) in all ==> all[(k, n)] == more[(k, n)]
    {
      IsOfStep(ops, first, k, n);
      FirstIsLess(ops[1..], first + 1, k, n);
    }
    SameEntries(all, more);
  }

  lemma FirstIsLess(ops: seq<Op>, first: nat, k: int, n: nat)
    ensures IsOf(ops, first, k, n) ==> n >= first
  {
  }

  lemma SameEntries(t: Table, u: Table)
    requires forall k, n: nat :: (k, n) in t <==> (k, n) in u
    requires forall k, n: nat :: (k, n) in t ==> t[(k, n)] == u[(k, n)]
    ensures t == u
  {
    forall p: InternalKey
      ensures p in t <==> p in u
      ensures p in t ==> t[p] == u[p]
    {
      var (k, n) := p;
      assert (k, n) in t <==> (k, n) in u;
    }
  }

  /** One group, from the start of its write to the end. */
  lemma WritesGroup(rank: bytes -> int, states: seq<Store>, events: seq<Event>, s: Store, q: Queue.State,
      q': Queue.State, r: Queue.Record)
    returns (states': seq<Store>, events': seq<Event>, t: Store)
    requires RunsTo(states, events, s) && HasWritten(rank, q, s)
    requires q'.records == q.records + [r] && r.first == q.last + 1 && q'.last == q.last + |r.ops|
    ensures RunsTo(states', events', t) && HasWritten(rank, q', t)
  {
    hide RunsTo, EntriesOf;
    var ops := AsOps(rank, r.ops);
    assert q'.records[..|q.records|] == q.records;
    t := BeginWrite(s, ops);
    states', events' := OneMore(states, events, s, BeginWriteEvent(ops));
    if r.ok {
      states', events' := OneMore(states', events', t, LogWriteEvent);
      t := LogWrite(t);
      assert ops[0..] == ops;
      states', events', t := InsertsAll(states', events', t);
      states', events' := OneMore(states', events', t, EndWriteEvent);
      t := EndWrite(t);
      assert t.history == s.history + EntriesOf(ops, r.first);
    } else {
      states', events' := OneMore(states', events', t, FailLogEvent);
      t := EndWrite(t);
    }
  }

  lemma OnlyFinishLogs(s: Queue.State, e: Queue.Event)
    requires Queue.Inv(s) && Queue.Enabled(s, e)
    ensures var t := Queue.Step(s, e);
            if e.Finish? then
              exists r :: t.records == s.records + [r] && r.first == s.last + 1 && t.last == s.last + |r.ops|
            else t.records == s.records && t.last == s.last
  {
    hide Queue.QueueOk, Queue.RecordsOk;
    if e.Finish? {
      var r := Queue.Record(s.phase.first, s.phase.ops, s.queue != [] && Queue.ItemsOf(s.items, s.queue)[0].sync, e.ok);
      assert Queue.Step(s, e).records == s.records + [r];
    }
  }

  /** Any run of the queue is a run of writes of the engine. */
  lemma {:induction false} QueueWrites(rank: bytes -> int, qs: seq<Queue.State>, ds: seq<Queue.Event>, i: nat)
    returns (states: seq<Store>, events: seq<Event>, s: Store)
    requires Queue.IsRun(qs, ds) && i < |qs|
    ensures RunsTo(states, events, s) && HasWritten(rank, qs[i], s)
  {
    if i == 0 {
      states, events, s := [Init()], [], Init();
    } else {
      hide RunsTo, Queue.Step, Queue.Enabled, Queue.Inv;
      states, events, s := QueueWrites(rank, qs, ds, i - 1);
      Queue.RunKeeps(qs, ds, i - 1);
      OnlyFinishLogs(qs[i - 1], ds[i - 1]);
      if ds[i - 1].Finish? {
        var r :| qs[i].records == qs[i - 1].records + [r] && r.first == qs[i - 1].last + 1
          && qs[i].last == qs[i - 1].last + |r.ops|;
        states, events, s := WritesGroup(rank, states, events, s, qs[i - 1], qs[i], r);
      }
    }
  }

  /** Whatever the writers' threads do, there is a run of the engine whose writes are their groups: it ends with
      the same LastSequence and with a history of exactly the operations of the groups whose records reached
      the log, under the numbers the records carry. */
  lemma ThreadsWrite(rank: bytes -> int, ts: seq<Threads.State>, es: seq<Threads.Event>, i: nat)
    returns (states: seq<Store>, events: seq<Event>)
    requires Threads.IsRun(ts, es) && i < |ts|
    ensures IsRun(states, events)
    ensures states[|events|].last == ts[i].last && states[|events|].history == HistoryOf(rank, ts[i].records)
  {
    hide Threads.Enabled, Threads.Step, Queue.Enabled, Queue.Step, HistoryOf;
    var qs, ds := Threads.ThreadsRunTheQueue(ts, es, i);
    var s;
    states, events, s := QueueWrites(rank, qs, ds, |ds|);
  }
}
