/** What a finished writer may conclude from its status (db/db_impl.cc, Write). */
module WriterAcks {
  import opened Options
  import opened WriteBatches
  import opened GroupCommit
  import opened WriterQueue

  /** The operations stand together somewhere in the record. */
  ghost predicate Within(ops: seq<Op>, all: seq<Op>)
  {
    exists off: nat :: StandsAt(ops, all, off)
  }

  predicate StandsAt(ops: seq<Op>, all: seq<Op>, off: nat)
  {
    off + |ops| <= |all| && all[off..off + |ops|] == ops
  }

  lemma StandsStill(ops: seq<Op>, front: seq<Op>, last: seq<Op>)
    ensures Within(ops, front) ==> Within(ops, front + last)
    ensures Within(last, front + last)
  {
    if off: nat :| StandsAt(ops, front, off) {
      assert (front + last)[off..off + |ops|] == front[off..off + |ops|];
      assert StandsAt(ops, front + last, off);
    }
    assert (front + last)[|front|..|front| + |last|] == last;
    assert StandsAt(last, front + last, |front|);
  }

  lemma {:induction false} GroupHolds(items: seq<Item>, n: nat, i: nat)
    requires i < n <= |items|
    ensures Within(Ops(items[i]), GroupOps(items[..n]))
    decreases n
  {
    hide GroupOps, Within, Ops;
    GroupSizeStep(items, n - 1);
    StandsStill(Ops(items[i]), GroupOps(items[..n - 1]), Ops(items[n - 1]));
    if i < n - 1 {
      GroupHolds(items, n - 1, i);
    }
  }

  /** A writer that finished in a group has its operations in that group's record; one that finished outside any
      group was told so, unless it had nothing to write. */
  ghost predicate AckOk(s: State, o: Outcome)
  {
    o.id in s.items &&
    match o.group
    case Some(g) => g < |s.records| && Within(Ops(s.items[o.id]), s.records[g].ops)
    case None => o.ok ==> s.items[o.id].batch == None
  }

  ghost predicate AcksOk(s: State)
  {
    forall i :: 0 <= i < |s.done| ==> AckOk(s, s.done[i])
  }

  lemma LeaveAcks(s: State, e: Event)
    requires Inv(s) && AcksOk(s) && Enabled(s, e) && (e == NoRoom || e == RoomMade)
    ensures AcksOk(Step(s, e))
  {
    hide Within, NoDuplicates, LoggedOps, WriterQueue.Numbered, PhaseOk;
    var t := Step(s, e);
    QueuedAreKnown(s);
    forall i | 0 <= i < |t.done|
      ensures AckOk(t, t.done[i])
    {
      assert i < |s.done| ==> AckOk(s, s.done[i]);
    }
  }

  lemma GroupAck(s: State, i: nat)
    requires QueueOk(s) && PhaseOk(s) && s.phase.Logging? && i < s.phase.n
    ensures s.queue[i] in s.items && Within(Ops(s.items[s.queue[i]]), s.phase.ops)
  {
    hide Within, NoDuplicates, GroupOps, Ops;
    QueuedAreKnown(s);
    var items := ItemsOf(s.items, s.queue[..s.phase.n]);
    assert items[..|items|] == items;
    GroupHolds(items, |items|, i);
  }

  lemma FinishAcks(s: State, ok: bool)
    requires Inv(s) && AcksOk(s) && Enabled(s, Finish(ok))
    ensures AcksOk(Step(s, Finish(ok)))
  {
    hide Within, QueueOk, PhaseOk, RecordsOk, Ops;
    var t := Step(s, Finish(ok));
    forall i | 0 <= i < |t.done|
      ensures AckOk(t, t.done[i])
    {
      if i < |s.done| {
        assert AckOk(s, s.done[i]) && t.done[i] == s.done[i];
      } else {
        GroupAck(s, i - |s.done|);
        assert t.done[i].id == s.queue[i - |s.done|];
      }
    }
  }

  lemma StepAcks(s: State, e: Event)
    requires Inv(s) && AcksOk(s) && Enabled(s, e)
    ensures AcksOk(Step(s, e))
  {
    hide Within, NoDuplicates, LoggedOps, WriterQueue.Numbered, PhaseOk, RecordsOk;
    match e
    case Arrive(id, item) =>
      QueuedAreKnown(s);
      assert forall i :: 0 <= i < |s.done| ==> AckOk(s, s.done[i]);
    case Lead =>
    case NoRoom => LeaveAcks(s, e);
    case RoomMade => LeaveAcks(s, e);
    case BuildGroup(_) =>
      assert forall i :: 0 <= i < |s.done| ==> AckOk(s, s.done[i]);
    case Finish(ok) => FinishAcks(s, ok);
  }

  lemma {:induction false} RunAcks(states: seq<State>, events: seq<Event>, i: nat)
    requires IsRun(states, events) && i < |states|
    ensures AcksOk(states[i])
  {
    hide Inv, Enabled, Step, AckOk;
    if i > 0 {
      RunKeeps(states, events, i - 1);
      RunAcks(states, events, i - 1);
      StepAcks(states[i - 1], events[i - 1]);
    }
  }

  /** A write that returns ok is in a record that reached the log, synced if it asked for that; and a write with
      operations that is in no record returns an error. */
  lemma AcknowledgedIsLogged(states: seq<State>, events: seq<Event>, i: nat, w: nat)
    requires IsRun(states, events) && i < |states| && w < |states[i].done|
    ensures var s, o := states[i], states[i].done[w];
            && o.id in s.items
            && (o.ok && s.items[o.id].batch.Some? ==>
                  && o.group.Some? && o.group.value < |s.records|
                  && var r := s.records[o.group.value];
                     r.ok && Within(Ops(s.items[o.id]), r.ops) && (s.items[o.id].sync ==> r.sync))
  {
    hide Within, Ops;
    RunAcks(states, events, i);
    assert AckOk(states[i], states[i].done[w]);
    if states[i].done[w].group.Some? {
      GroupStatus(states, events, i, w);
    }
  }
}
