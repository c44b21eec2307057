/** Scheduling of background work (db/db_impl.cc: MaybeScheduleCompaction, BackgroundCall,
    BackgroundCompaction, CompactMemTable, TEST_CompactRange, MakeRoomForWrite). One event is the code
    a thread runs while it holds the mutex, from getting it to the next release. */
module Scheduler {
  import opened Options

  /** Where the one background thread is: none queued, queued in the environment, or inside
      BackgroundCompaction with the mutex released. */
  datatype Background = Off | Queued | Flushing | Compacting(isManual: bool)

  /** `imm` stands for imm_ != nullptr, `needs` for versions_->NeedsCompaction(); `manual` is the
      pending request of TEST_CompactRange, by number. */
  datatype State = State(imm: bool, hasImm: bool, manual: Option<nat>, needs: bool,
                         scheduled: bool, background: Background, bgError: bool, shuttingDown: bool, crashed: bool)

  function MaybeSchedule(s: State): (r: State)
    ensures r == s.(scheduled := r.scheduled, background := r.background)
    ensures r == s || (r.scheduled && r.background == Queued && !s.shuttingDown && !s.bgError)
    ensures PendingWork(s) ==> r.scheduled || s.shuttingDown || s.bgError
  {
    if s.scheduled || s.shuttingDown || s.bgError then s
    else if !s.imm && s.manual == None && !s.needs then s
    else s.(scheduled := true, background := Queued)
  }

  /** The end of BackgroundCall. */
  function Finish(s: State): (r: State)
    ensures r == s.(scheduled := r.scheduled, background := r.background)
            && r.background == (if r.scheduled then Queued else Off)
    ensures PendingWork(s) ==> r.scheduled || s.shuttingDown || s.bgError
  {
    MaybeSchedule(s.(scheduled := false, background := Off))
  }

  /** The end of BackgroundCompaction when it was manual: it writes through manual_compaction_. */
  function EndManual(s: State, isManual: bool): State
  {
    if !isManual then s
    else if s.manual == None then s.(crashed := true)
    else s.(manual := None)
  }

  datatype Event =
    | Rotate                      // MakeRoomForWrite switches memtables
    | ReadWantsCompaction         // UpdateStats or RecordReadSample asks for a seek compaction
    | RequestManual(id: nat)      // TEST_CompactRange finds the slot free
    | CancelManual(id: nat)       // TEST_CompactRange gives up after an error or at shutdown
    | WriterError                 // a sync failed
    | Shutdown
    | StartBackground(nothing: bool) // BackgroundCall gets the mutex; CompactRange or PickCompaction may find nothing
    | NestedFlush(ok: bool, needs: bool)            // CompactMemTable inside DoCompactionWork
    | FlushDone(ok: bool, needs: bool)
    | CompactionDone(ok: bool, needs: bool)

  predicate Enabled(s: State, e: Event)
  {
    !s.crashed &&
    match e
    case Rotate => !s.imm && !s.bgError
    case ReadWantsCompaction => true
    case RequestManual(id) => s.manual == None && !s.shuttingDown && !s.bgError
    case CancelManual(id) => s.manual == Some(id) && (s.shuttingDown || s.bgError)
    case WriterError => true
    case Shutdown => true
    case StartBackground(nothing) => s.background == Queued && (!s.imm && s.manual == None ==> (nothing <==> !s.needs))
    case NestedFlush(_, _) => s.background.Compacting? && s.imm
    case FlushDone(_, _) => s.background == Flushing
    case CompactionDone(_, _) => s.background.Compacting?
  }

  function AfterFlush(s: State, ok: bool, needs: bool): State
  {
    if ok then s.(imm := false, hasImm := false, needs := needs) else s.(bgError := true)
  }

  function Step(s: State, e: Event): State
    requires Enabled(s, e)
  {
    match e
    case Rotate => MaybeSchedule(s.(imm := true, hasImm := true))
    case ReadWantsCompaction => MaybeSchedule(s.(needs := true))
    case RequestManual(id) => MaybeSchedule(s.(manual := Some(id)))
    case CancelManual(_) => s.(manual := None)
    case WriterError => s.(bgError := true)
    case Shutdown => s.(shuttingDown := true)
    case StartBackground(nothing) =>
      if s.shuttingDown || s.bgError then Finish(s)
      else if s.imm then s.(background := Flushing)
      else if nothing then Finish(EndManual(s, s.manual.Some?))
      else s.(background := Compacting(s.manual.Some?))
    case NestedFlush(ok, needs) => AfterFlush(s, ok, needs)
    case FlushDone(ok, needs) => Finish(AfterFlush(s, ok, needs))
    case CompactionDone(ok, needs) =>
      Finish(EndManual(if ok then s.(needs := needs) else s.(bgError := true), s.background.isManual))
  }

  function Init(needs: bool): State
  {
    MaybeSchedule(State(false, false, None, needs, false, Off, false, false, false))
  }

  ghost predicate IsRun(states: seq<State>, events: seq<Event>)
  {
    && |states| == |events| + 1
    && (exists needs :: states[0] == Init(needs))
    && forall i :: 0 <= i < |events| ==> Enabled(states[i], events[i]) && states[i + 1] == Step(states[i], events[i])
  }

  ghost predicate PendingWork(s: State)
  {
    s.imm || s.manual.Some? || s.needs
  }

  /** Nobody waits for work that is not scheduled, and at most one background call is under way. */
  ghost predicate Inv(s: State)
  {
    && (!s.bgError && !s.shuttingDown && !s.crashed && PendingWork(s) ==> s.scheduled)
    && (s.scheduled <==> s.background != Off)
    && s.hasImm == s.imm
    && (s.background == Flushing ==> s.imm)
  }

  lemma StepKeeps(s: State, e: Event)
    requires Inv(s) && Enabled(s, e)
    ensures Inv(Step(s, e))
  {
    hide MaybeSchedule, Finish;
  }

  lemma {:induction false} RunKeeps(states: seq<State>, events: seq<Event>, i: nat)
    requires IsRun(states, events) && i < |states|
    ensures Inv(states[i])
  {
    if i > 0 {
      RunKeeps(states, events, i - 1);
      StepKeeps(states[i - 1], events[i - 1]);
    }
  }

  // ----- What waiting threads may rely on ----------------------------------------------

  /** In every reachable state with the mutex free, no error and no shutdown, pending work is
      scheduled; has_imm_ tells the truth; and no second background call is ever queued. */
  lemma NobodyIsStranded(states: seq<State>, events: seq<Event>, i: nat)
    requires IsRun(states, events) && i < |states| && !states[i].crashed
    ensures var s := states[i];
            && (!s.bgError && !s.shuttingDown && PendingWork(s) ==> s.scheduled && s.background != Off)
            && s.hasImm == s.imm
            && (s.background != Off ==> MaybeSchedule(s) == s)
  {
    RunKeeps(states, events, i);
  }

  /** The events of the background thread. */
  predicate IsBackground(e: Event)
  {
    e.StartBackground? || e.NestedFlush? || e.FlushDone? || e.CompactionDone?
  }

  function BackgroundEvents(events: seq<Event>): nat
  {
    if events == [] then 0
    else BackgroundEvents(events[..|events| - 1]) + (if IsBackground(events[|events| - 1]) then 1 else 0)
  }

  /** Nobody waits for the immutable memtable any more: it is gone, or no more work will be done. */
  predicate Released(s: State)
  {
    !s.imm || s.bgError || s.shuttingDown || s.crashed
  }

  /** How many events of the background thread a waiting writer may have to wait for. */
  function Ahead(s: State): nat
  {
    match s.background
    case Off => 0
    case Flushing => 1
    case Queued => 2
    case Compacting(_) => 3
  }

  lemma StepComesCloser(s: State, e: Event)
    requires Inv(s) && Enabled(s, e) && !Released(s)
    ensures Released(Step(s, e)) || Ahead(Step(s, e)) + (if IsBackground(e) then 1 else 0) <= Ahead(s)
  {
  }

  lemma NoEvents()
    ensures BackgroundEvents([]) == 0
  {
  }

  lemma OneMoreEvent(events: seq<Event>, i: nat, m: nat)
    requires i <= m < |events|
    ensures BackgroundEvents(events[i..m + 1])
            == BackgroundEvents(events[i..m]) + (if IsBackground(events[m]) then 1 else 0)
  {
    var some := events[i..m + 1];
    assert some[..|some| - 1] == events[i..m] && some[|some| - 1] == events[m];
  }

  /** A writer that waits for the immutable memtable waits for the background thread only, and not for
      long: whatever the other threads do, the memtable has been flushed once, or an error or the shutdown
      has come, by the third event of the background thread, and by the second when none of its
      compactions is running. */
  lemma {:induction false} FlushIsAhead(states: seq<State>, events: seq<Event>, i: nat, j: nat) returns (m: nat)
    requires IsRun(states, events) && i <= j <= |events|
    requires BackgroundEvents(events[i..j]) >= (if states[i].background.Compacting? then 3 else 2)
    ensures i <= m <= j && Released(states[m])
  {
    hide Enabled, Step, BackgroundEvents, IsBackground;
    m := i;
    assert BackgroundEvents([]) == 0 by { NoEvents(); }
    assert events[i..i] == [];
    while m < j && !Released(states[m])
      invariant i <= m <= j
      invariant Released(states[m]) || Ahead(states[m]) + BackgroundEvents(events[i..m]) <= Ahead(states[i])
    {
      RunKeeps(states, events, m);
      StepComesCloser(states[m], events[m]);
      OneMoreEvent(events, i, m);
      m := m + 1;
    }
    RunKeeps(states, events, i);
    RunKeeps(states, events, m);
  }

  /** What ends background work for good. */
  predicate Fails(e: Event)
  {
    match e
    case WriterError => true
    case NestedFlush(ok, _) => !ok
    case FlushDone(ok, _) => !ok
    case CompactionDone(ok, _) => !ok
    case _ => false
  }

  lemma FinishKeeps(s: State)
    ensures Finish(s).bgError == s.bgError && Finish(s).shuttingDown == s.shuttingDown
    ensures MaybeSchedule(s).bgError == s.bgError && MaybeSchedule(s).shuttingDown == s.shuttingDown
    ensures s.bgError || s.shuttingDown ==> Finish(s).background == Off && !Finish(s).scheduled
  {
    hide PendingWork;
  }

  lemma EndKeeps(s: State, isManual: bool)
    ensures EndManual(s, isManual).bgError == s.bgError && EndManual(s, isManual).shuttingDown == s.shuttingDown
  {
  }

  /** What BackgroundCall does at its end with what its work has left. */
  lemma CallFails(s: State, e: Event)
    requires Enabled(s, e) && (e.StartBackground? || e.FlushDone? || e.CompactionDone?)
    ensures Step(s, e).bgError <==> s.bgError || Fails(e)
    ensures Step(s, e).shuttingDown == s.shuttingDown
    ensures s.bgError || s.shuttingDown ==> Step(s, e).background == Off && !Step(s, e).scheduled
  {
    hide MaybeSchedule, Finish, PendingWork, EndManual;
    if e.FlushDone? {
      FinishKeeps(AfterFlush(s, e.ok, e.needs));
    } else if e.CompactionDone? {
      var t := if e.ok then s.(needs := e.needs) else s.(bgError := true);
      EndKeeps(t, s.background.isManual);
      FinishKeeps(EndManual(t, s.background.isManual));
    } else {
      EndKeeps(s, s.manual.Some?);
      FinishKeeps(s);
      FinishKeeps(EndManual(s, s.manual.Some?));
    }
  }

  lemma StepFails(s: State, e: Event)
    requires Enabled(s, e)
    ensures s.bgError || Fails(e) <==> Step(s, e).bgError
    ensures s.shuttingDown || e == Shutdown <==> Step(s, e).shuttingDown
  {
    if e.StartBackground? || e.FlushDone? || e.CompactionDone? {
      hide *;
      CallFails(s, e);
    } else {
      hide Finish, PendingWork, EndManual;
    }
  }

  /** A failed sync, flush or compaction is remembered from then on, and so is the shutdown; nothing else is an
      error. */
  lemma {:induction false} ErrorsStay(states: seq<State>, events: seq<Event>, i: nat)
    requires IsRun(states, events) && i < |states|
    ensures states[i].bgError <==> exists j :: 0 <= j < i && Fails(events[j])
    ensures states[i].shuttingDown <==> Shutdown in events[..i]
  {
    hide Enabled, Step, Fails, Init;
    if i == 0 {
      StartsClean(states, events);
    } else {
      ErrorsStay(states, events, i - 1);
      StepFails(states[i - 1], events[i - 1]);
      assert events[..i] == events[..i - 1] + [events[i - 1]];
    }
  }

  lemma StartsClean(states: seq<State>, events: seq<Event>)
    requires IsRun(states, events)
    ensures !states[0].bgError && !states[0].shuttingDown
  {
  }

  lemma StepStops(s: State, e: Event)
    requires Enabled(s, e) && (s.bgError || s.shuttingDown)
    requires e.StartBackground? || e.FlushDone? || e.CompactionDone?
    ensures Step(s, e).background == Off && !Step(s, e).scheduled && (Step(s, e).bgError || Step(s, e).shuttingDown)
  {
    hide Enabled, Step, Fails;
    CallFails(s, e);
  }

  /** After an error or at shutdown the background thread starts no work, and no call of it is queued again. */
  lemma NoWorkAfterError(states: seq<State>, events: seq<Event>, i: nat)
    requires IsRun(states, events) && i < |events| && (states[i].bgError || states[i].shuttingDown)
    requires events[i].StartBackground? || events[i].FlushDone? || events[i].CompactionDone?
    ensures states[i + 1].background == Off && !states[i + 1].scheduled
    ensures states[i + 1].bgError || states[i + 1].shuttingDown
  {
    hide Enabled, Step;
    StepStops(states[i], events[i]);
  }

  // ----- The manual compaction request -------------------------------------------------

  lemma StartServes(s: State, e: Event)
    requires Enabled(s, e) && e.StartBackground? && s.manual.Some? && !s.imm && !s.bgError && !s.shuttingDown
    ensures Step(s, e).background == Compacting(true) || Step(s, e).manual == None
  {
    hide MaybeSchedule, Finish, PendingWork;
  }

  lemma EndServes(s: State, e: Event)
    requires Inv(s) && Enabled(s, e) && s.background == Compacting(true)
    ensures var t := Step(s, e); t.background == Compacting(true) || t.manual == None || t.crashed
  {
    hide Finish, PendingWork;
  }

  /** The background call that finds no memtable to flush serves the manual request: when it has ended, whatever
      happened meanwhile, the request is gone, or its end has met a null pointer. */
  lemma ManualIsServed(states: seq<State>, events: seq<Event>, i: nat, j: nat)
    requires IsRun(states, events) && i < j <= |events| && events[i].StartBackground? && states[i].manual.Some?
    requires !states[i].imm && !states[i].bgError && !states[i].shuttingDown
    requires forall m :: i < m < j ==> states[m].background == Compacting(true)
    requires states[j].background != Compacting(true)
    ensures states[j].manual == None || states[j].crashed
  {
    hide Enabled, Step, Inv;
    RunKeeps(states, events, j - 1);
    if j == i + 1 {
      StartServes(states[i], events[i]);
    } else {
      EndServes(states[j - 1], events[j - 1]);
    }
  }

  /** TEST_CompactRange withdrew its request while its compaction was running. */
  ghost predicate Withdrawn(states: seq<State>, events: seq<Event>, i: nat)
    requires |states| == |events| + 1 && i <= |events|
  {
    exists j :: 0 <= j < i && events[j].CancelManual? && states[j].background == Compacting(true)
  }

  ghost predicate RequestOk(s: State, withdrawn: bool)
  {
    && (s.crashed <==> withdrawn && s.background != Compacting(true))
    && (withdrawn ==> s.manual == None && (s.bgError || s.shuttingDown))
    && (!withdrawn && s.background == Compacting(true) ==> s.manual.Some?)
  }

  lemma RequestStep(s: State, e: Event, withdrawn: bool)
    requires RequestOk(s, withdrawn) && Enabled(s, e)
    ensures RequestOk(Step(s, e), withdrawn || (e.CancelManual? && s.background == Compacting(true)))
  {
    hide MaybeSchedule, Finish, PendingWork;
  }

  /** The end of a manual compaction dereferences manual_compaction_ without checking it. The pointer
      is null then exactly when the request was withdrawn, after an error or at shutdown, while the
      compaction was running. */
  lemma {:induction false} NullRequest(states: seq<State>, events: seq<Event>, i: nat)
    requires IsRun(states, events) && i <= |events|
    ensures states[i].crashed <==> Withdrawn(states, events, i) && states[i].background != Compacting(true)
    ensures RequestOk(states[i], Withdrawn(states, events, i))
  {
    hide Enabled, Step, MaybeSchedule;
    if i == 0 {
      assert !states[0].crashed && states[0].background != Compacting(true) by { Starts(states, events); }
    } else {
      NullRequest(states, events, i - 1);
      RequestStep(states[i - 1], events[i - 1], Withdrawn(states, events, i - 1));
      assert Withdrawn(states, events, i) <==>
               Withdrawn(states, events, i - 1)
                 || (events[i - 1].CancelManual? && states[i - 1].background == Compacting(true));
    }
  }

  lemma Starts(states: seq<State>, events: seq<Event>)
    requires IsRun(states, events)
    ensures !states[0].crashed && !states[0].background.Compacting?
  {
  }

  /** A sync fails while a manual compaction is running. */
  lemma NullRequestHappens() returns (states: seq<State>, events: seq<Event>)
    ensures IsRun(states, events) && states[|events|].crashed
  {
    events := [RequestManual(1), StartBackground(false), WriterError, CancelManual(1), CompactionDone(true, false)];
    var s0 := Init(false);
    var s1 := Step(s0, events[0]);
    var s2 := Step(s1, events[1]);
    var s3 := Step(s2, events[2]);
    var s4 := Step(s3, events[3]);
    states := [s0, s1, s2, s3, s4, Step(s4, events[4])];
  }
}
