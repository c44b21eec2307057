/** The threads behind WriterQueue (db/db_impl.cc, Write): each writer has a state of its own, and only
    that and the shared queue decide what it may do next. */
module WriterThreads {
  import opened Options
  import opened WriteBatches
  import opened GroupCommit
  import Queue = WriterQueue

  /** Waiting on its condition variable; past the wait, making room or with the mutex released for the
      log, when it knows the last writer of its group and the LastSequence it started from; or returned
      from Write. */
  datatype Thread = Waiting(signalled: bool, done: bool) | MakingRoom | Logging(last: nat, before: nat, ops: seq<Op>)
    | Returned

  datatype State = State(arrivals: seq<nat>, items: map<nat, Item>, queue: seq<nat>, done: seq<Queue.Outcome>,
    last: nat,
                         threads: map<nat, Thread>, records: seq<Queue.Record>)

  datatype Event =
    | Arrive(id: nat, item: Item)
    | Wake(id: nat)
    | NoRoom(id: nat)
    | RoomMade(id: nat)
    | BuildGroup(id: nat, n: nat)
    | Finish(id: nat, ok: bool)

  function ThreadOf(threads: map<nat, Thread>, id: nat): Thread
  {
    if id in threads then threads[id] else Returned
  }

  predicate PastWait(t: Thread)
  {
    t.MakingRoom? || t.Logging?
  }

  /** A thread may wake without a signal. */
  ghost predicate Enabled(s: State, e: Event)
  {
    match e
    case Arrive(id, item) => id !in s.items
    case Wake(id) => ThreadOf(s.threads, id).Waiting?
    case NoRoom(id) => ThreadOf(s.threads, id).MakingRoom?
    case RoomMade(id) => ThreadOf(s.threads, id).MakingRoom? && Queue.ItemAt(s.items, id).batch == None
    case BuildGroup(id, n) =>
      && ThreadOf(s.threads, id).MakingRoom? && Queue.ItemAt(s.items, id).batch.Some?
      && IsGroup(Queue.ItemsOf(s.items, s.queue), n)
    case Finish(id, _) => ThreadOf(s.threads, id).Logging?
  }

  /** How many writers are popped until `last` has been. */
  function UpTo(queue: seq<nat>, last: nat): (n: nat)
    ensures n <= |queue| && (queue != [] ==> n > 0)
  {
    if queue == [] then 0 else if queue[0] == last then 1 else 1 + UpTo(queue[1..], last)
  }

  function Signal(t: Thread): Thread
  {
    if t.Waiting? then t.(signalled := true) else t
  }

  function MarkDone(threads: map<nat, Thread>, ids: seq<nat>): map<nat, Thread>
  {
    map id | id in threads :: if id in ids && threads[id].Waiting? then Waiting(true, true) else threads[id]
  }

  function SignalHead(threads: map<nat, Thread>, queue: seq<nat>): map<nat, Thread>
  {
    if queue == [] then threads else threads[queue[0] := Signal(ThreadOf(threads, queue[0]))]
  }

  /** The end of Write: pops the writers up to `last`, tells them, and wakes the new head. */
  function Leave(s: State, id: nat, last: nat, ok: bool, group: Option<nat>): State
  {
    var n := UpTo(s.queue, last);
    s.(queue := s.queue[n..], done := s.done + Queue.Finished(s.queue[..n], ok, group),
       threads := SignalHead(MarkDone(s.threads, s.queue[..n])[id := Returned], s.queue[n..]))
  }

  /** The test of the loop around the wait. */
  function Woken(s: State, id: nat): Thread
  {
    var t := ThreadOf(s.threads, id);
    if t.Waiting? && t.done then Returned
    else if s.queue != [] && s.queue[0] == id then MakingRoom
    else Waiting(false, false)
  }

  ghost function Step(s: State, e: Event): State
    requires Enabled(s, e)
  {
    match e
    case Arrive(id, item) =>
      s.(arrivals := s.arrivals + [id], queue := s.queue + [id], items := s.items[id := item],
         threads := s.threads[id := if s.queue == [] then MakingRoom else Waiting(false, false)])
    case Wake(id) => s.(threads := s.threads[id := Woken(s, id)])
    case NoRoom(id) => Leave(s, id, id, false, None)
    case RoomMade(id) => Leave(s, id, id, true, None)
    case BuildGroup(id, n) =>
      s.(threads := s.threads[id := Logging(s.queue[n - 1], s.last, GroupOps(Queue.ItemsOf(s.items, s.queue)[..n]))])
    case Finish(id, ok) =>
      var t := s.threads[id];
      Leave(s.(last := t.before + |t.ops|,
               records := s.records + [Queue.Record(t.before + 1, t.ops, Queue.ItemAt(s.items, id).sync, ok)]),
            id, t.last, ok, Some(|s.records|))
  }

  function Init(): State
  {
    State([], map[], [], [], 0, map[], [])
  }

  ghost predicate IsRun(states: seq<State>, events: seq<Event>)
  {
    && |states| == |events| + 1
    && states[0] == Init()
    && forall i :: 0 <= i < |events| ==> Enabled(states[i], events[i]) && states[i + 1] == Step(states[i], events[i])
  }

  // ----- What it means for the queue ---------------------------------------------------

  /** The head's thread is the phase of the queue. */
  function Phase(s: State): Queue.Phase
  {
    if s.queue == [] then Queue.Idle
    else match ThreadOf(s.threads, s.queue[0])
      case MakingRoom => Queue.MakingRoom
      case Logging(last, before, ops) => Queue.Logging(UpTo(s.queue, last), before + 1, ops)
      case _ => Queue.Idle
  }

  function Abs(s: State): Queue.State
  {
    Queue.State(s.arrivals, s.items, s.queue, s.done, s.last, Phase(s), s.records)
  }

  /** Nobody but the head is past the wait, and an idle head has been signalled. */
  ghost predicate HeadOk(s: State)
  {
    && (forall id :: id in s.threads && PastWait(s.threads[id]) ==> s.queue != [] && s.queue[0] == id)
    && (s.queue != [] ==>
          var t := ThreadOf(s.threads, s.queue[0]);
          (PastWait(t) || t == Waiting(true, false)) && (t.Logging? ==> t.last in s.queue))
  }

  /** Queued writers are not done; finished ones have returned or been signalled. */
  ghost predicate ThreadsOk(s: State)
  {
    && s.threads.Keys == s.items.Keys
    && (forall i :: 0 < i < |s.queue| ==>
      ThreadOf(s.threads, s.queue[i]).Waiting? && !ThreadOf(s.threads, s.queue[i]).done)
    && (forall i :: 0 <= i < |s.done| ==> ThreadOf(s.threads, s.done[i].id) in {Returned, Waiting(true, true)})
  }

  ghost predicate Inv(s: State)
  {
    Queue.Inv(Abs(s)) && HeadOk(s) && ThreadsOk(s)
  }

  /** What an event is for the queue: a writer that is past its wait leads. */
  function Effect(s: State, e: Event): seq<Queue.Event>
  {
    match e
    case Arrive(id, item) => [Queue.Arrive(id, item)] + (if s.queue == [] then [Queue.Lead] else [])
    case Wake(id) => if Woken(s, id).MakingRoom? then [Queue.Lead] else []
    case NoRoom(_) => [Queue.NoRoom]
    case RoomMade(_) => [Queue.RoomMade]
    case BuildGroup(_, n) => [Queue.BuildGroup(n)]
    case Finish(_, ok) => [Queue.Finish(ok)]
  }

  ghost predicate LeadsTo(s: Queue.State, es: seq<Queue.Event>, t: Queue.State)
    decreases |es|
  {
    if es == [] then s == t
    else Queue.Enabled(s, es[0]) && LeadsTo(Queue.Step(s, es[0]), es[1..], t)
  }

  // ----- Popping -----------------------------------------------------------------------

  lemma {:induction false} UpToFinds(queue: seq<nat>, n: nat)
    requires n < |queue| && Queue.NoDuplicates(queue)
    ensures UpTo(queue, queue[n]) == n + 1
  {
    if n > 0 {
      assert queue[1..][n - 1] == queue[n];
      UpToFinds(queue[1..], n - 1);
    }
  }

  lemma {:induction false} UpToGrows(queue: seq<nat>, last: nat, more: seq<nat>)
    requires last in queue
    ensures UpTo(queue + more, last) == UpTo(queue, last)
  {
    if queue[0] != last {
      assert (queue + more)[1..] == queue[1..] + more;
      UpToGrows(queue[1..], last, more);
    }
  }

  lemma Distinct(s: State)
    requires Queue.QueueOk(Abs(s))
    ensures Queue.NoDuplicates(s.queue) && (forall i :: 0 <= i < |s.queue| ==> s.queue[i] in s.items)
    ensures forall i, j :: 0 <= i < |s.queue| && 0 <= j < |s.done| ==> s.queue[i] != s.done[j].id
    ensures forall j :: 0 <= j < |s.done| ==> s.done[j].id in s.items
  {
    hide Phase;
    Queue.QueuedAreKnown(Abs(s));
    assert forall i :: 0 <= i < |s.queue| ==> s.queue[i] == s.arrivals[|s.done| + i];
    assert forall j :: 0 <= j < |s.done| ==> s.done[j].id == s.arrivals[j];
  }

  lemma LeaveQueued(s: State, id: nat, last: nat, ok: bool, group: Option<nat>, i: nat)
    requires Queue.QueueOk(Abs(s)) && HeadOk(s) && ThreadsOk(s) && id in s.threads && PastWait(s.threads[id])
    requires UpTo(s.queue, last) <= i < |s.queue|
    ensures ThreadOf(Leave(s, id, last, ok, group).threads, s.queue[i])
            == if i == UpTo(s.queue, last) then Waiting(true, false) else ThreadOf(s.threads, s.queue[i])
  {
    hide Queue.QueueOk, UpTo, Phase;
    Distinct(s);
    var n := UpTo(s.queue, last);
    assert forall j :: 0 <= j < n ==> s.queue[..n][j] == s.queue[j];
  }

  lemma LeaveDone(s: State, id: nat, last: nat, ok: bool, group: Option<nat>, i: nat)
    requires Queue.QueueOk(Abs(s)) && HeadOk(s) && ThreadsOk(s) && id in s.threads && PastWait(s.threads[id])
    requires i < |Leave(s, id, last, ok, group).done|
    ensures ThreadOf(Leave(s, id, last, ok, group).threads, Leave(s, id, last, ok, group).done[i].id) in {Returned,
            Waiting(true, true)}
  {
    hide Queue.QueueOk, UpTo, Phase;
    Distinct(s);
    var t, n := Leave(s, id, last, ok, group), UpTo(s.queue, last);
    if i >= |s.done| {
      assert t.done[i].id == s.queue[i - |s.done|] == s.queue[..n][i - |s.done|];
    }
  }

  /** Leaving keeps the threads in order: those popped are told, and the new head is awake. */
  lemma LeaveThreads(s: State, id: nat, last: nat, ok: bool, group: Option<nat>)
    requires Queue.QueueOk(Abs(s)) && HeadOk(s) && ThreadsOk(s) && id in s.threads && PastWait(s.threads[id])
    ensures HeadOk(Leave(s, id, last, ok, group)) && ThreadsOk(Leave(s, id, last, ok, group))
    ensures Phase(Leave(s, id, last, ok, group)) == Queue.Idle
  {
    hide Queue.QueueOk, UpTo;
    var t, n := Leave(s, id, last, ok, group), UpTo(s.queue, last);
    forall i | n <= i < |s.queue|
      ensures ThreadOf(t.threads, s.queue[i]) == if i == n then Waiting(true, false)
              else ThreadOf(s.threads, s.queue[i])
    {
      LeaveQueued(s, id, last, ok, group, i);
    }
    forall i | 0 <= i < |t.done|
      ensures ThreadOf(t.threads, t.done[i].id) in {Returned, Waiting(true, true)}
    {
      LeaveDone(s, id, last, ok, group, i);
    }
    assert n < |s.queue| ==> s.queue[n] in s.threads by { Distinct(s); }
    assert t.threads.Keys == s.threads.Keys;
    assert forall i :: 0 <= i < |t.queue| ==> t.queue[i] == s.queue[n + i];
  }

  // ----- Every event is one of the queue's ---------------------------------------------

  lemma OneStep(s: Queue.State, e: Queue.Event, t: Queue.State)
    requires Queue.Enabled(s, e) && Queue.Step(s, e) == t
    ensures LeadsTo(s, [e], t)
  {
    hide Queue.Enabled, Queue.Step;
    assert LeadsTo(t, [], t);
  }

  lemma TwoSteps(s: Queue.State, d: Queue.Event, e: Queue.Event, t: Queue.State)
    requires Queue.Enabled(s, d) && Queue.Enabled(Queue.Step(s, d), e) && Queue.Step(Queue.Step(s, d), e) == t
    ensures LeadsTo(s, [d] + [e], t)
  {
    hide Queue.Enabled, Queue.Step;
    OneStep(Queue.Step(s, d), e, t);
    assert ([d] + [e])[1..] == [e];
  }

  lemma ArriveThreads(s: State, id: nat, item: Item)
    requires Queue.QueueOk(Abs(s)) && HeadOk(s) && ThreadsOk(s) && id !in s.items
    ensures HeadOk(Step(s, Arrive(id, item))) && ThreadsOk(Step(s, Arrive(id, item)))
  {
    hide Queue.QueueOk, UpTo, Phase;
    var t := Step(s, Arrive(id, item));
    assert t.threads.Keys == t.items.Keys;
    forall i | 0 <= i < |s.queue|
      ensures t.queue[i] == s.queue[i] && ThreadOf(t.threads, t.queue[i]) == ThreadOf(s.threads, s.queue[i])
    {
      assert s.queue[i] in s.items by { Distinct(s); }
    }
    forall i | 0 <= i < |s.done|
      ensures ThreadOf(t.threads, s.done[i].id) == ThreadOf(s.threads, s.done[i].id)
    {
      assert s.done[i].id in s.items by { Distinct(s); }
    }
  }

  lemma ArriveRefines(s: State, id: nat, item: Item)
    requires Queue.QueueOk(Abs(s)) && HeadOk(s) && ThreadsOk(s) && id !in s.items
    ensures LeadsTo(Abs(s), Effect(s, Arrive(id, item)), Abs(Step(s, Arrive(id, item))))
  {
    hide Queue.QueueOk, UpTo, ThreadsOk, LeadsTo;
    var t := Step(s, Arrive(id, item));
    if s.queue == [] {
      TwoSteps(Abs(s), Queue.Arrive(id, item), Queue.Lead, Abs(t));
    } else {
      assert s.queue[0] in s.items by { Distinct(s); }
      if ThreadOf(s.threads, s.queue[0]).Logging? {
        UpToGrows(s.queue, s.threads[s.queue[0]].last, [id]);
      }
      assert Effect(s, Arrive(id, item)) == [Queue.Arrive(id, item)];
      OneStep(Abs(s), Queue.Arrive(id, item), Abs(t));
    }
  }

  lemma WakeThreads(s: State, id: nat)
    requires Queue.QueueOk(Abs(s)) && HeadOk(s) && ThreadsOk(s) && ThreadOf(s.threads, id).Waiting?
    ensures HeadOk(Step(s, Wake(id))) && ThreadsOk(Step(s, Wake(id)))
  {
    hide Queue.QueueOk, UpTo, Phase;
    var t := Step(s, Wake(id));
    assert t.threads.Keys == s.threads.Keys;
    forall i | 0 < i < |s.queue|
      ensures ThreadOf(t.threads, s.queue[i]).Waiting? && !ThreadOf(t.threads, s.queue[i]).done
    {
      assert s.queue[0] != s.queue[i] by { Distinct(s); }
    }
  }

  lemma WakeRefines(s: State, id: nat)
    requires HeadOk(s) && ThreadsOk(s) && ThreadOf(s.threads, id).Waiting?
    ensures LeadsTo(Abs(s), Effect(s, Wake(id)), Abs(Step(s, Wake(id))))
  {
    hide UpTo;
    var t := Step(s, Wake(id));
    if Woken(s, id).MakingRoom? {
      OneStep(Abs(s), Queue.Lead, Abs(t));
    }
  }

  lemma UpToFirst(queue: seq<nat>)
    requires queue != []
    ensures UpTo(queue, queue[0]) == 1
  {
  }

  lemma LeaveRefines(s: State, id: nat, ok: bool)
    requires Inv(s) && ThreadOf(s.threads, id).MakingRoom?
    ensures var e := if ok then RoomMade(id) else NoRoom(id);
            Enabled(s, e) ==>
              HeadOk(Step(s, e)) && ThreadsOk(Step(s, e)) && LeadsTo(Abs(s), Effect(s, e), Abs(Step(s, e)))
  {
    hide Queue.PhaseOk, Queue.RecordsOk, Queue.QueueOk, UpTo;
    LeaveThreads(s, id, id, ok, None);
    UpToFirst(s.queue);
    var t := Leave(s, id, id, ok, None);
    assert Abs(t) == Queue.Leave(Abs(s), ok);
    if ok && Queue.ItemAt(s.items, id).batch == None {
      OneStep(Abs(s), Queue.RoomMade, Abs(t));
    } else if !ok {
      OneStep(Abs(s), Queue.NoRoom, Abs(t));
    }
  }

  lemma BuildGroupRefines(s: State, id: nat, n: nat)
    requires Inv(s) && Enabled(s, BuildGroup(id, n))
    ensures HeadOk(Step(s, BuildGroup(id, n))) && ThreadsOk(Step(s, BuildGroup(id, n)))
    ensures Queue.Enabled(Abs(s), Queue.BuildGroup(n))
            && Abs(Step(s, BuildGroup(id, n))) == Queue.Step(Abs(s), Queue.BuildGroup(n))
  {
    hide Queue.PhaseOk, Queue.RecordsOk, Queue.QueueOk, UpTo, GroupOps;
    Distinct(s);
    UpToFinds(s.queue, n - 1);
    assert Step(s, BuildGroup(id, n)).threads.Keys == s.threads.Keys;
  }

  lemma FinishThreads(s: State, id: nat, ok: bool)
    requires Queue.QueueOk(Abs(s)) && HeadOk(s) && ThreadsOk(s) && Enabled(s, Finish(id, ok))
    ensures HeadOk(Step(s, Finish(id, ok))) && ThreadsOk(Step(s, Finish(id, ok)))
    ensures Phase(Step(s, Finish(id, ok))) == Queue.Idle
  {
    hide UpTo, GroupOps, Phase, Leave, HeadOk, ThreadsOk, Queue.QueueOk;
    var t := s.threads[id];
    var u := s.(last := t.before + |t.ops|,
      records := s.records + [Queue.Record(t.before + 1, t.ops, Queue.ItemAt(s.items, id).sync, ok)]);
    SameQueue(s, u);
    LeaveThreads(u, id, t.last, ok, Some(|s.records|));
  }

  lemma SameQueue(s: State, u: State)
    requires Queue.QueueOk(Abs(s)) && HeadOk(s) && ThreadsOk(s) && u == s.(last := u.last, records := u.records)
    ensures Queue.QueueOk(Abs(u)) && HeadOk(u) && ThreadsOk(u)
  {
    hide UpTo;
  }

  lemma FinishRefines(s: State, id: nat, ok: bool)
    requires Queue.PhaseOk(Abs(s)) && HeadOk(s) && Enabled(s, Finish(id, ok))
             && Phase(Step(s, Finish(id, ok))) == Queue.Idle
    ensures Queue.Enabled(Abs(s), Queue.Finish(ok))
            && Abs(Step(s, Finish(id, ok))) == Queue.Step(Abs(s), Queue.Finish(ok))
  {
    hide UpTo, GroupOps, MarkDone, Signal, SignalHead;
    assert Phase(s) == Queue.Logging(UpTo(s.queue, s.threads[id].last), s.threads[id].before + 1, s.threads[id].ops);
  }

  lemma StepRefines(s: State, e: Event)
    requires Inv(s) && Enabled(s, e)
    ensures HeadOk(Step(s, e)) && ThreadsOk(Step(s, e)) && LeadsTo(Abs(s), Effect(s, e), Abs(Step(s, e)))
  {
    hide Queue.PhaseOk, Queue.QueueOk, Queue.RecordsOk, HeadOk, ThreadsOk, Phase, Queue.Step, Queue.Enabled,
         Queue.Leave, Step;
    match e
    case Arrive(id, item) => ArriveThreads(s, id, item); ArriveRefines(s, id, item);
    case Wake(id) => WakeThreads(s, id); WakeRefines(s, id);
    case NoRoom(id) => LeaveRefines(s, id, false);
    case RoomMade(id) => LeaveRefines(s, id, true);
    case BuildGroup(id, n) =>
      BuildGroupRefines(s, id, n);
      OneStep(Abs(s), Queue.BuildGroup(n), Abs(Step(s, e)));
    case Finish(id, ok) =>
      FinishThreads(s, id, ok);
      FinishRefines(s, id, ok);
      OneStep(Abs(s), Queue.Finish(ok), Abs(Step(s, e)));
  }

  lemma {:induction false} LeadsToKeeps(s: Queue.State, es: seq<Queue.Event>, t: Queue.State)
    requires Queue.Inv(s) && LeadsTo(s, es, t)
    ensures Queue.Inv(t)
    decreases |es|
  {
    hide Queue.Inv, Queue.Step, Queue.Enabled;
    if es != [] {
      Queue.StepKeeps(s, es[0]);
      LeadsToKeeps(Queue.Step(s, es[0]), es[1..], t);
    }
  }

  lemma StepKeeps(s: State, e: Event)
    requires Inv(s) && Enabled(s, e)
    ensures Inv(Step(s, e)) && LeadsTo(Abs(s), Effect(s, e), Abs(Step(s, e)))
  {
    hide Queue.Inv, HeadOk, ThreadsOk, Abs, Effect, Step, LeadsTo;
    StepRefines(s, e);
    LeadsToKeeps(Abs(s), Effect(s, e), Abs(Step(s, e)));
  }

  lemma Starts()
    ensures Inv(Init())
  {
  }

  lemma {:induction false} RunKeeps(states: seq<State>, events: seq<Event>, i: nat)
    requires IsRun(states, events) && i < |states|
    ensures Inv(states[i])
  {
    hide Inv, Step, Enabled, Init;
    if i == 0 {
      Starts();
    } else {
      RunKeeps(states, events, i - 1);
      StepKeeps(states[i - 1], events[i - 1]);
    }
  }

  // ----- What holds of every run -------------------------------------------------------

  ghost predicate Reaches(states: seq<Queue.State>, events: seq<Queue.Event>, t: Queue.State)
  {
    Queue.IsRun(states, events) && states[|events|] == t
  }

  lemma {:induction false} Extend(states: seq<Queue.State>, events: seq<Queue.Event>, s: Queue.State,
      es: seq<Queue.Event>, t: Queue.State)
    returns (qs: seq<Queue.State>, ds: seq<Queue.Event>)
    requires Reaches(states, events, s) && LeadsTo(s, es, t)
    ensures Reaches(qs, ds, t)
    decreases |es|
  {
    hide Queue.Enabled, Queue.Step;
    qs, ds := states, events;
    if es != [] {
      var next := Queue.Step(s, es[0]);
      qs, ds := Extend(states + [next], events + [es[0]], next, es[1..], t);
    }
  }

  /** Whatever the threads do is a run of the queue, so all that holds of its runs holds of them. */
  lemma {:induction false} ThreadsRunTheQueue(states: seq<State>, events: seq<Event>, i: nat)
    returns (qs: seq<Queue.State>, ds: seq<Queue.Event>)
    requires IsRun(states, events) && i < |states|
    ensures Queue.IsRun(qs, ds) && qs[|ds|] == Abs(states[i])
  {
    hide Queue.Enabled, Queue.Step, Step, Enabled, Inv, LeadsTo;
    if i == 0 {
      qs, ds := [Queue.Init()], [];
    } else {
      qs, ds := ThreadsRunTheQueue(states, events, i - 1);
      RunKeeps(states, events, i - 1);
      StepKeeps(states[i - 1], events[i - 1]);
      qs, ds := Extend(qs, ds, Abs(states[i - 1]), Effect(states[i - 1], events[i - 1]), Abs(states[i]));
    }
  }

  /** At most one writer is past its wait, and it is the head of the queue: nobody else writes the log or
      the memtable meanwhile, though the mutex is released. */
  lemma OnlyTheHeadLogs(states: seq<State>, events: seq<Event>, i: nat, id: nat)
    requires IsRun(states, events) && i < |states| && id in states[i].threads && PastWait(states[i].threads[id])
    ensures states[i].queue != [] && id == states[i].queue[0]
  {
    RunKeeps(states, events, i);
  }

  /** No wake-up is lost. The head of a queue is past its wait or has been signalled and will pass the
      test; a writer whose write is finished has returned or has been signalled and told so; and any
      other writer waits behind the head. */
  lemma NoLostWakeup(states: seq<State>, events: seq<Event>, i: nat, id: nat)
    requires IsRun(states, events) && i < |states| && id in states[i].threads
    ensures var s, t := states[i], states[i].threads[id];
            && (id in s.queue <==> id !in Queue.Ids(s.done))
            && (id in s.queue && id == s.queue[0] ==>
              PastWait(t) || (t == Waiting(true, false) && Woken(s, id) == MakingRoom))
            && (id in s.queue && id != s.queue[0] ==> t.Waiting? && !t.done)
            && (id in Queue.Ids(s.done) ==> t == Returned || (t == Waiting(true, true) && Woken(s, id) == Returned))
  {
    hide IsRun, UpTo, Phase, Queue.PhaseOk, Queue.RecordsOk;
    RunKeeps(states, events, i);
    var s := states[i];
    assert id in s.arrivals && s.arrivals == Queue.Ids(s.done) + s.queue;
    Distinct(s);
  }
}
