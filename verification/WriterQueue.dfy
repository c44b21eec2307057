/** Every interleaving of concurrent writers (db/db_impl.cc, Write): the queue, the group its head
    logs, and the sequence numbers the operations get. */
module WriterQueue {
  import opened Options
  import opened WriteBatches
  import opened GroupCommit

  /** What the thread at the head of the queue is doing. */
  datatype Phase = Idle | MakingRoom | Logging(n: nat, first: nat, ops: seq<Op>)

  /** A group that was handed to the log, and whether that succeeded. */
  datatype Record = Record(first: nat, ops: seq<Op>, sync: bool, ok: bool)

  /** How a writer finished, and in which group; None for a writer that did not get as far. */
  datatype Outcome = Outcome(id: nat, ok: bool, group: Option<nat>)

  datatype State = State(arrivals: seq<nat>, items: map<nat, Item>, queue: seq<nat>, done: seq<Outcome>,
                         last: nat, phase: Phase, records: seq<Record>)

  function ItemAt(items: map<nat, Item>, id: nat): Item
  {
    if id in items then items[id] else Item(None, false)
  }

  function ItemsOf(items: map<nat, Item>, ids: seq<nat>): (r: seq<Item>)
    ensures |r| == |ids| && forall i :: 0 <= i < |ids| ==> r[i] == ItemAt(items, ids[i])
  {
    seq(|ids|, i requires 0 <= i < |ids| => ItemAt(items, ids[i]))
  }

  function Finished(ids: seq<nat>, ok: bool, group: Option<nat>): (r: seq<Outcome>)
    ensures |r| == |ids| && forall i :: 0 <= i < |ids| ==> r[i] == Outcome(ids[i], ok, group)
  {
    seq(|ids|, i requires 0 <= i < |ids| => Outcome(ids[i], ok, group))
  }

  datatype Event =
    | Arrive(id: nat, item: Item)
    | Lead
    | NoRoom
    | RoomMade
    | BuildGroup(n: nat)
    | Finish(ok: bool)

  ghost predicate Enabled(s: State, e: Event)
  {
    match e
    case Arrive(id, item) => id !in s.items
    case Lead => s.phase == Idle && s.queue != []
    case NoRoom => s.phase == MakingRoom && s.queue != []
    case RoomMade => s.phase == MakingRoom && s.queue != [] && ItemsOf(s.items, s.queue)[0].batch == None
    case BuildGroup(n) => s.phase == MakingRoom && IsGroup(ItemsOf(s.items, s.queue), n)
    case Finish(_) => s.phase.Logging? && s.phase.n <= |s.queue|
  }

  /** The head leaves without having logged anything. */
  function Leave(s: State, ok: bool): State
    requires s.queue != []
  {
    s.(phase := Idle, queue := s.queue[1..], done := s.done + Finished(s.queue[..1], ok, None))
  }

  /** One event: the code between two points at which a writer releases the mutex. */
  ghost function Step(s: State, e: Event): State
    requires Enabled(s, e)
  {
    match e
    case Arrive(id, item) =>
      s.(arrivals := s.arrivals + [id], queue := s.queue + [id], items := s.items[id := item])
    case Lead => s.(phase := MakingRoom)
    case NoRoom => Leave(s, false)
    case RoomMade => Leave(s, true)
    case BuildGroup(n) =>
      s.(phase := Logging(n, s.last + 1, GroupOps(ItemsOf(s.items, s.queue)[..n])))
    case Finish(ok) =>
      s.(phase := Idle, last := s.last + |s.phase.ops|, queue := s.queue[s.phase.n..],
         done := s.done + Finished(s.queue[..s.phase.n], ok, Some(|s.records|)),
         records := s.records + [Record(s.phase.first, s.phase.ops,
                                        s.queue != [] && ItemsOf(s.items, s.queue)[0].sync, ok)])
  }

  function Init(): State
  {
    State([], map[], [], [], 0, Idle, [])
  }

  ghost predicate IsRun(states: seq<State>, events: seq<Event>)
  {
    && |states| == |events| + 1
    && states[0] == Init()
    && forall i :: 0 <= i < |events| ==> Enabled(states[i], events[i]) && states[i + 1] == Step(states[i], events[i])
  }

  // ----- The invariant -----------------------------------------------------------------

  function Ids(done: seq<Outcome>): (r: seq<nat>)
    ensures |r| == |done| && forall i :: 0 <= i < |done| ==> r[i] == done[i].id
  {
    seq(|done|, i requires 0 <= i < |done| => done[i].id)
  }

  /** The operations handed to the log, in the order their writers arrived. */
  function LoggedOps(items: map<nat, Item>, done: seq<Outcome>): seq<Op>
  {
    if done == [] then []
    else
      var o := done[|done| - 1];
      LoggedOps(items, done[..|done| - 1])
      + (if o.group.Some? && o.id in items then Ops(items[o.id]) else [])
  }

  ghost predicate NoDuplicates(ids: seq<nat>)
  {
    forall i, j :: 0 <= i < j < |ids| ==> ids[i] != ids[j]
  }

  ghost predicate QueueOk(s: State)
  {
    && s.arrivals == Ids(s.done) + s.queue && NoDuplicates(s.arrivals)
    && (forall i :: 0 <= i < |s.arrivals| ==> s.arrivals[i] in s.items)
    && (forall id :: id in s.items ==> id in s.arrivals)
    && (s.phase != Idle ==> s.queue != [])
  }

  ghost predicate PhaseOk(s: State)
  {
    s.phase.Logging? ==>
      && 0 < s.phase.n <= |s.queue| && s.phase.first == s.last + 1
      && s.phase.ops == GroupOps(ItemsOf(s.items, s.queue[..s.phase.n]))
      && (forall i :: 0 <= i < s.phase.n && ItemsOf(s.items, s.queue)[i].sync ==> ItemsOf(s.items, s.queue)[0].sync)
  }

  /** Operation `j` of a record has sequence number `first + j`: one more than its place among all
      logged operations in order of arrival. */
  ghost predicate Numbered(r: Record, ops: seq<Op>)
  {
    0 < r.first && r.first - 1 + |r.ops| <= |ops| && ops[r.first - 1..r.first - 1 + |r.ops|] == r.ops
  }

  ghost predicate RecordsOk(s: State)
  {
    && |LoggedOps(s.items, s.done)| == s.last
    && (forall r :: 0 <= r < |s.records| ==> Numbered(s.records[r], LoggedOps(s.items, s.done)))
    && (forall q, r :: 0 <= q < r < |s.records| ==> s.records[q].first + |s.records[q].ops| <= s.records[r].first)
    && (forall i :: 0 <= i < |s.done| && s.done[i].group.Some? ==>
          && s.done[i].group.value < |s.records|
          && s.done[i].ok == s.records[s.done[i].group.value].ok
          && (s.done[i].id in s.items && s.items[s.done[i].id].sync ==> s.records[s.done[i].group.value].sync))
  }

  ghost predicate Inv(s: State)
  {
    QueueOk(s) && PhaseOk(s) && RecordsOk(s)
  }

  // ----- Every event keeps it ----------------------------------------------------------

  lemma {:induction false} LoggedOpsFrame(items: map<nat, Item>, id: nat, item: Item, done: seq<Outcome>)
    requires id !in items && forall i :: 0 <= i < |done| ==> done[i].id in items
    ensures LoggedOps(items[id := item], done) == LoggedOps(items, done)
  {
    if done != [] {
      LoggedOpsFrame(items, id, item, done[..|done| - 1]);
    }
  }

  lemma LoggedOpsStep(items: map<nat, Item>, done: seq<Outcome>, o: Outcome)
    ensures LoggedOps(items, done + [o]) == LoggedOps(items, done)
            + (if o.group.Some? && o.id in items then Ops(items[o.id]) else [])
  {
    assert (done + [o])[..|done|] == done;
  }

  lemma FinishedStep(ids: seq<nat>, ok: bool, group: Option<nat>)
    requires ids != []
    ensures Finished(ids, ok, group) == Finished(ids[..|ids| - 1], ok, group) + [Outcome(ids[|ids| - 1], ok, group)]
  {
    hide Finished;
  }

  lemma ItemsStep(items: map<nat, Item>, ids: seq<nat>)
    requires ids != []
    ensures var n := |ids| - 1;
            GroupOps(ItemsOf(items, ids)) == GroupOps(ItemsOf(items, ids[..n])) + Ops(ItemAt(items, ids[n]))
  {
    hide ItemsOf;
    var n := |ids| - 1;
    assert ItemsOf(items, ids)[..n] == ItemsOf(items, ids[..n]);
  }

  lemma {:induction false} LoggedOpsGroup(items: map<nat, Item>, done: seq<Outcome>, ids: seq<nat>, ok: bool, g: nat)
    requires forall i :: 0 <= i < |ids| ==> ids[i] in items
    ensures LoggedOps(items, done + Finished(ids, ok, Some(g))) == LoggedOps(items, done)
            + GroupOps(ItemsOf(items, ids))
    decreases |ids|
  {
    if ids == [] {
      assert done + Finished(ids, ok, Some(g)) == done;
    } else {
      hide LoggedOps, GroupOps, Ops, ItemsOf, Finished;
      var n := |ids| - 1;
      FinishedStep(ids, ok, Some(g));
      ItemsStep(items, ids);
      var before := done + Finished(ids[..n], ok, Some(g));
      assert done + Finished(ids, ok, Some(g)) == before + [Outcome(ids[n], ok, Some(g))];
      LoggedOpsStep(items, before, Outcome(ids[n], ok, Some(g)));
      LoggedOpsGroup(items, done, ids[..n], ok, g);
    }
  }

  lemma ArriveQueue(s: State, id: nat, item: Item)
    requires QueueOk(s) && id !in s.items
    ensures QueueOk(Step(s, Arrive(id, item)))
  {
    var t := Step(s, Arrive(id, item));
    assert t.arrivals == Ids(t.done) + t.queue;
  }

  lemma QueuedAreKnown(s: State)
    requires QueueOk(s)
    ensures forall i :: 0 <= i < |s.queue| ==> s.queue[i] in s.items
    ensures forall i :: 0 <= i < |s.done| ==> s.done[i].id in s.items
  {
    hide NoDuplicates;
    forall i | 0 <= i < |s.queue|
      ensures s.queue[i] in s.items
    {
      assert s.queue[i] == s.arrivals[|s.done| + i];
    }
    forall i | 0 <= i < |s.done|
      ensures s.done[i].id in s.items
    {
      assert s.done[i].id == s.arrivals[i];
    }
  }

  lemma ArrivePhase(s: State, id: nat, item: Item)
    requires QueueOk(s) && PhaseOk(s) && id !in s.items
    ensures PhaseOk(Step(s, Arrive(id, item)))
  {
    hide GroupOps, ItemsOf, QueueOk;
    var t := Step(s, Arrive(id, item));
    QueuedAreKnown(s);
    if s.phase.Logging? {
      var n := s.phase.n;
      assert t.queue[..n] == s.queue[..n];
      assert ItemsOf(t.items, t.queue[..n]) == ItemsOf(s.items, s.queue[..n]);
      assert forall i :: 0 <= i < n ==> ItemsOf(t.items, t.queue)[i] == ItemsOf(s.items, s.queue)[i];
    }
  }

  lemma ArriveKeeps(s: State, id: nat, item: Item)
    requires Inv(s) && id !in s.items
    ensures Inv(Step(s, Arrive(id, item)))
  {
    ArriveQueue(s, id, item);
    ArrivePhase(s, id, item);
    ArriveRecords(s, id, item);
  }

  lemma ArriveRecords(s: State, id: nat, item: Item)
    requires QueueOk(s) && RecordsOk(s) && id !in s.items
    ensures RecordsOk(Step(s, Arrive(id, item)))
  {
    hide LoggedOps, Numbered, QueueOk;
    QueuedAreKnown(s);
    LoggedOpsFrame(s.items, id, item, s.done);
  }

  lemma LeaveKeeps(s: State, ok: bool)
    requires Inv(s) && s.phase == MakingRoom && s.queue != []
    ensures Inv(Leave(s, ok))
  {
    LeaveQueue(s, ok);
    LeaveRecords(s, ok);
  }

  lemma LeaveQueue(s: State, ok: bool)
    requires QueueOk(s) && s.queue != []
    ensures QueueOk(Leave(s, ok))
  {
    hide NoDuplicates;
    assert Ids(Leave(s, ok).done) + s.queue[1..] == s.arrivals;
  }

  lemma LeaveRecords(s: State, ok: bool)
    requires RecordsOk(s) && s.queue != []
    ensures RecordsOk(Leave(s, ok))
  {
    hide LoggedOps, Numbered;
    assert Leave(s, ok).done == s.done + [Outcome(s.queue[0], ok, None)];
    LoggedOpsStep(s.items, s.done, Outcome(s.queue[0], ok, None));
    assert LoggedOps(s.items, Leave(s, ok).done) == LoggedOps(s.items, s.done);
  }

  lemma BuildGroupKeeps(s: State, n: nat)
    requires Inv(s) && s.phase == MakingRoom && IsGroup(ItemsOf(s.items, s.queue), n)
    ensures Inv(Step(s, BuildGroup(n)))
  {
    hide NoDuplicates, LoggedOps, Numbered, IsGroup, GroupOps;
    BuildGroupPhase(s, n);
  }

  lemma BuildGroupPhase(s: State, n: nat)
    requires PhaseOk(s) && s.phase == MakingRoom && IsGroup(ItemsOf(s.items, s.queue), n)
    ensures n <= |s.queue| && PhaseOk(s.(phase := Logging(n, s.last + 1, GroupOps(ItemsOf(s.items, s.queue)[..n]))))
  {
    hide GroupOps, ItemsOf, GroupSize, EncodeOps;
    GroupLimits(ItemsOf(s.items, s.queue), n, n);
    assert ItemsOf(s.items, s.queue)[..n] == ItemsOf(s.items, s.queue[..n]);
  }

  lemma NumberedExtends(r: Record, ops: seq<Op>, more: seq<Op>)
    requires Numbered(r, ops)
    ensures Numbered(r, ops + more)
  {
    assert (ops + more)[r.first - 1..r.first - 1 + |r.ops|] == ops[r.first - 1..r.first - 1 + |r.ops|];
  }

  lemma IdsFinished(done: seq<Outcome>, ids: seq<nat>, ok: bool, group: Option<nat>)
    ensures Ids(done + Finished(ids, ok, group)) == Ids(done) + ids
  {
    hide Ids, Finished;
  }

  lemma Regroup(a: seq<nat>, b: seq<nat>, n: nat)
    requires n <= |b|
    ensures a + b == a + b[..n] + b[n..]
  {
    assert b == b[..n] + b[n..];
  }

  lemma FinishQueue(s: State, ok: bool)
    requires QueueOk(s) && PhaseOk(s) && s.phase.Logging?
    ensures QueueOk(Step(s, Finish(ok)))
  {
    hide NoDuplicates, GroupOps, Ids, Finished, ItemsOf;
    IdsFinished(s.done, s.queue[..s.phase.n], ok, Some(|s.records|));
    Regroup(Ids(s.done), s.queue, s.phase.n);
  }

  lemma FinishRecords(s: State, ok: bool)
    requires Inv(s) && s.phase.Logging?
    ensures RecordsOk(Step(s, Finish(ok)))
  {
    hide GroupOps, LoggedOps;
    var t, ids, ops := Step(s, Finish(ok)), s.queue[..s.phase.n], LoggedOps(s.items, s.done);
    forall i | 0 <= i < |ids|
      ensures ids[i] in s.items
    {
      assert ids[i] == s.arrivals[|s.done| + i];
    }
    LoggedOpsGroup(s.items, s.done, ids, ok, |s.records|);
    FinishNumbered(s.records, ops, Record(s.phase.first, s.phase.ops, ItemsOf(s.items, s.queue)[0].sync, ok));
    FinishStatus(s, ok);
  }

  lemma FinishNumbered(records: seq<Record>, ops: seq<Op>, r: Record)
    requires r.first == |ops| + 1 && forall q :: 0 <= q < |records| ==> Numbered(records[q], ops)
    ensures forall q :: 0 <= q < |records + [r]| ==> Numbered((records + [r])[q], ops + r.ops)
    ensures forall q :: 0 <= q < |records| ==> records[q].first + |records[q].ops| <= r.first
  {
    forall q | 0 <= q < |records + [r]|
      ensures Numbered((records + [r])[q], ops + r.ops)
    {
      if q < |records| {
        NumberedExtends(records[q], ops, r.ops);
      }
    }
  }

  lemma FinishStatus(s: State, ok: bool)
    requires Inv(s) && s.phase.Logging?
    ensures var t := Step(s, Finish(ok));
            forall i :: 0 <= i < |t.done| && t.done[i].group.Some? ==>
              && t.done[i].group.value < |t.records|
              && t.done[i].ok == t.records[t.done[i].group.value].ok
              && (t.done[i].id in t.items && t.items[t.done[i].id].sync ==> t.records[t.done[i].group.value].sync)
  {
    hide GroupOps, LoggedOps, Numbered, QueueOk;
    var t := Step(s, Finish(ok));
    forall i | |s.done| <= i < |t.done|
      ensures t.done[i].id in t.items && t.items[t.done[i].id].sync ==> t.records[|s.records|].sync
    {
      assert t.done[i].id == s.queue[i - |s.done|];
      assert ItemsOf(s.items, s.queue)[i - |s.done|].sync ==> ItemsOf(s.items, s.queue)[0].sync;
    }
  }

  lemma StepKeeps(s: State, e: Event)
    requires Inv(s) && Enabled(s, e)
    ensures Inv(Step(s, e))
  {
    match e
    case Arrive(id, item) => ArriveKeeps(s, id, item);
    case Lead =>
    case NoRoom => LeaveKeeps(s, false);
    case RoomMade => LeaveKeeps(s, true);
    case BuildGroup(n) => BuildGroupKeeps(s, n);
    case Finish(ok) =>
      FinishQueue(s, ok);
      FinishRecords(s, ok);
  }

  lemma {:induction false} RunKeeps(states: seq<State>, events: seq<Event>, i: nat)
    requires IsRun(states, events) && i < |states|
    ensures Inv(states[i])
  {
    if i > 0 {
      RunKeeps(states, events, i - 1);
      StepKeeps(states[i - 1], events[i - 1]);
    }
  }

  // ----- What writers may rely on ------------------------------------------------------

  /** Writers finish in the order they arrived, each exactly once. */
  lemma FinishInOrder(states: seq<State>, events: seq<Event>, i: nat)
    requires IsRun(states, events) && i < |states|
    ensures Ids(states[i].done) <= states[i].arrivals && NoDuplicates(Ids(states[i].done) + states[i].queue)
  {
    RunKeeps(states, events, i);
  }

  /** A writer that finished in a group has the group's status, and a sync writer's group synced. */
  lemma GroupStatus(states: seq<State>, events: seq<Event>, i: nat, w: nat)
    requires IsRun(states, events) && i < |states| && w < |states[i].done| && states[i].done[w].group.Some?
    ensures var s, o := states[i], states[i].done[w];
            && o.group.value < |s.records| && o.ok == s.records[o.group.value].ok
            && o.id in s.items && (s.items[o.id].sync ==> s.records[o.group.value].sync)
  {
    RunKeeps(states, events, i);
    assert states[i].done[w].id == states[i].arrivals[w];
  }

  /** Sequence numbers are consecutive from 1 and never reused: the operation numbered `n` is the
      n-th of all operations handed to the log, in the order their writers arrived, and LastSequence
      counts them. A record that failed to reach the log keeps its numbers. */
  lemma SequencesInOrder(states: seq<State>, events: seq<Event>, i: nat, r: nat, j: nat)
    requires IsRun(states, events) && i < |states| && r < |states[i].records| && j < |states[i].records[r].ops|
    ensures var s := states[i];
            var n := s.records[r].first + j;
            && 1 <= n <= s.last == |LoggedOps(s.items, s.done)|
            && LoggedOps(s.items, s.done)[n - 1] == s.records[r].ops[j]
            && forall q :: 0 <= q < |s.records| && q != r ==>
              !(s.records[q].first <= n < s.records[q].first + |s.records[q].ops|)
  {
    RunKeeps(states, events, i);
    var s, record := states[i], states[i].records[r];
    var ops := LoggedOps(s.items, s.done);
    assert Numbered(record, ops);
    assert ops[record.first - 1..record.first - 1 + |record.ops|][j] == ops[record.first - 1 + j];
  }
}
