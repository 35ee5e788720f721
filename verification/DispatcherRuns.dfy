/** What holds over whole runs of the dispatcher: conservation, order, outcomes and termination. */
module DispatcherRuns {
  import opened Dispatcher
  import opened DispatcherProofs

  // ----- Where every record goes -----

  /** The records sent to one destination, in the order they were routed. */
  function Sent(routed: seq<Route>, d: Destination): seq<Record> {
    if routed == [] then []
    else
      var last := routed[|routed| - 1];
      Sent(routed[..|routed| - 1], d) + (if last.destination == d then [last.record] else [])
  }

  function Records(routed: seq<Route>): seq<Record> {
    seq(|routed|, k requires 0 <= k < |routed| => routed[k].record)
  }

  /** The record that the reader has read and not yet passed on. */
  function InFlight(reader: ReaderPc): seq<Record> {
    if reader.Holding? || reader.Enqueuing? then [reader.record] else []
  }

  /** The wire records among posted events. */
  function Messages(posted: seq<Event>): seq<Record> {
    if posted == [] then []
    else
      var last := posted[|posted| - 1];
      Messages(posted[..|posted| - 1]) + (if last.Message? then [last.record] else [])
  }

  /** The wire records among items put into a waiter. */
  function Replies(placed: seq<Item>): seq<Record> {
    if placed == [] then []
    else
      var last := placed[|placed| - 1];
      Replies(placed[..|placed| - 1]) + (if last.Reply? then [last.record] else [])
  }

  lemma SentNext(routed: seq<Route>, route: Route, d: Destination)
    ensures Sent(routed + [route], d) == Sent(routed, d) + (if route.destination == d then [route.record] else [])
  {
    assert (routed + [route])[..|routed|] == routed;
  }

  lemma {:induction false} SentNone(routed: seq<Route>, d: Destination)
    requires forall k :: 0 <= k < |routed| ==> routed[k].destination != d
    ensures Sent(routed, d) == []
    decreases |routed|
  {
    if routed != [] {
      SentNone(routed[..|routed| - 1], d);
    }
  }

  lemma MessagesNext(posted: seq<Event>, e: Event)
    ensures Messages(posted + [e]) == Messages(posted) + (if e.Message? then [e.record] else [])
  {
    assert (posted + [e])[..|posted|] == posted;
  }

  lemma RepliesNext(placed: seq<Item>, item: Item)
    ensures Replies(placed + [item]) == Replies(placed) + (if item.Reply? then [item.record] else [])
  {
    assert (placed + [item])[..|placed|] == placed;
  }

  /** Every record read was routed once, in order, save the one still in flight. */
  ghost predicate InvLog(s: State) {
    s.log == Records(s.routed) + InFlight(s.reader)
  }

  ghost predicate InvEvents(s: State) {
    Messages(s.posted) == Sent(s.routed, ToEvents)
  }

  ghost predicate InvReplies(s: State) {
    && (forall c :: c in s.calls ==> Replies(s.calls[c].placed) == Sent(s.routed, ToWaiter(c)))
    && (forall k :: 0 <= k < |s.routed| && s.routed[k].destination.ToWaiter? ==>
      s.routed[k].destination.call in s.calls)
  }

  lemma KeepLog(s: State, step: Step)
    requires InvLog(s) && Enabled(s, step)
    ensures InvLog(Apply(s, step))
  {
  }

  lemma KeepEvents(s: State, step: Step)
    requires InvEvents(s) && Enabled(s, step)
    ensures InvEvents(Apply(s, step))
  {
    hide Sent, Messages, Sweep, AfterSweep;
    if step.Dispatch? {
      if Accepts(s.client, s.reader.record) {
        SentNext(s.routed, Route(s.reader.record, ToWaiter(s.client.pending[s.reader.record.id])), ToEvents);
      }
    } else if step.QueueRecord? {
      SentNext(s.routed, Route(s.reader.record, ToEvents), ToEvents);
      MessagesNext(s.posted, Message(s.reader.record));
    } else if step.PostNotice? {
      MessagesNext(s.posted, Terminal(s.phase.notice));
    }
  }

  lemma KeepReplies(s: State, step: Step)
    requires Inv(s) && InvReplies(s) && Enabled(s, step)
    ensures InvReplies(Apply(s, step))
  {
    hide Inv, InvReplies, ApplyRequest, ApplyReply, ApplyOther;
    if IsRequest(step) {
      RequestKeepsReplies(s, step);
    } else if IsReply(step) {
      ReplyKeepsReplies(s, step);
    } else if step.Dispatch? {
      DispatchKeepsReplies(s);
    } else if step.QueueRecord? {
      QueueKeepsReplies(s);
    } else {
      OtherKeepsReplies(s, step);
    }
  }

  lemma RequestKeepsReplies(s: State, step: Step)
    requires Inv(s) && InvReplies(s) && Enabled(s, step) && IsRequest(step)
    ensures InvReplies(ApplyRequest(s, step))
  {
    hide InvIds, InvDistinct, InvPending, InvWaiters, InvReach, InvSlots, InvOutcomes, InvPlaced, InvPhase, InvLock,
      InvQueue, Sent, Replies;
    RequestPlaces(s, step);
    if step.CallStart? {
      SentNone(s.routed, ToWaiter(step.call));
    }
    hide ApplyRequest, Enabled;
    NoReplies();
  }

  lemma NoReplies()
    ensures Replies([]) == []
  {
  }

  /** A call up to its send puts nothing anywhere; a new one has seen nothing. */
  lemma RequestPlaces(s: State, step: Step)
    requires InvIds(s) && Enabled(s, step) && IsRequest(step)
    ensures var t := ApplyRequest(s, step);
      && t.routed == s.routed
      && (forall c :: c in s.calls ==> c in t.calls && t.calls[c].placed == s.calls[c].placed)
      && (forall c :: c in t.calls && c !in s.calls ==> step == CallStart(c) && t.calls[c].placed == [])
  {
    if step.CallInsert? {
      assert Numbered(s.calls[step.call], s.client.nextId);
    }
    hide Numbered;
  }

  lemma ReplyKeepsReplies(s: State, step: Step)
    requires Inv(s) && InvReplies(s) && Enabled(s, step) && IsReply(step)
    ensures InvReplies(ApplyReply(s, step))
  {
    hide InvIds, InvDistinct, InvPending, InvWaiters, InvSlots, InvReach, InvOutcomes, InvPlaced, InvPhase, InvLock,
      InvQueue, Sent, Replies;
  }

  lemma QueueKeepsReplies(s: State)
    requires InvReplies(s) && Enabled(s, QueueRecord)
    ensures InvReplies(ApplyOther(s, QueueRecord))
  {
    hide Sent, Replies;
    forall c {
      SentNext(s.routed, Route(s.reader.record, ToEvents), ToWaiter(c));
    }
  }

  lemma OtherKeepsReplies(s: State, step: Step)
    requires Inv(s) && InvReplies(s) && Enabled(s, step) && !IsRequest(step) && !IsReply(step)
    requires !step.Dispatch? && !step.QueueRecord?
    ensures InvReplies(ApplyOther(s, step))
  {
    hide InvIds, InvDistinct, InvWaiters, InvSlots, InvReach, InvOutcomes, InvPlaced, InvPhase, InvLock, InvQueue,
      Sent, Replies;
    if step.SweepPending? {
      forall c | c in s.calls
        ensures Replies(s.calls[c].placed + [Failure(s.client.callError.value)]) == Replies(s.calls[c].placed)
      {
        RepliesNext(s.calls[c].placed, Failure(s.client.callError.value));
      }
    }
  }

  lemma DispatchKeepsReplies(s: State)
    requires Inv(s) && InvReplies(s) && Enabled(s, Dispatch)
    ensures InvReplies(ApplyOther(s, Dispatch))
  {
    hide InvIds, InvDistinct, InvWaiters, InvSlots, InvReach, InvOutcomes, InvPlaced, InvPhase, InvLock, InvQueue,
      Sent, Replies;
    var r := s.reader.record;
    if Accepts(s.client, r) {
      var call := s.client.pending[r.id];
      forall c {
        SentNext(s.routed, Route(r, ToWaiter(call)), ToWaiter(c));
      }
      RepliesNext(s.calls[call].placed, Reply(r));
    }
  }

  // ----- Runs -----

  ghost predicate Run(trace: seq<State>, steps: seq<Step>) {
    && |trace| == |steps| + 1 && trace[0] == INITIAL
    && forall i :: 0 <= i < |steps| ==> Enabled(trace[i], steps[i]) && trace[i + 1] == Apply(trace[i], steps[i])
  }

  lemma RunLength(trace: seq<State>, steps: seq<Step>)
    requires Run(trace, steps)
    ensures |trace| == |steps| + 1 && trace[0] == INITIAL
  {
    hide Enabled, Apply;
  }

  lemma RunStep(trace: seq<State>, steps: seq<Step>, i: nat)
    requires Run(trace, steps) && i < |steps|
    ensures |trace| == |steps| + 1 && Enabled(trace[i], steps[i]) && trace[i + 1] == Apply(trace[i], steps[i])
  {
    hide Enabled, Apply;
  }

  ghost predicate InvAll(s: State) {
    Inv(s) && InvLog(s) && InvEvents(s) && InvReplies(s)
  }

  lemma StepKeeps(s: State, step: Step)
    requires InvAll(s) && Enabled(s, step)
    ensures InvAll(Apply(s, step))
  {
    KeepAll(s, step);
    KeepLog(s, step);
    KeepEvents(s, step);
    KeepReplies(s, step);
  }

  lemma InitialInv()
    ensures InvAll(INITIAL)
  {
  }

  /** The invariants hold in every state of every run. */
  lemma {:induction false} RunInvariant(trace: seq<State>, steps: seq<Step>, i: nat)
    requires Run(trace, steps) && i < |trace|
    ensures InvAll(trace[i])
    decreases i
  {
    hide *;
    RunLength(trace, steps);
    if i == 0 {
      InitialInv();
    } else {
      RunInvariant(trace, steps, i - 1);
      RunStep(trace, steps, i - 1);
      StepKeeps(trace[i - 1], steps[i - 1]);
    }
  }

  // ----- Termination reaches every caller -----

  /**
   Once the sweep has run nothing is pending, and nothing ever will be; every
   call that still waits, also one that registered between the closing and the
   sweep (LateRegistration), has a reply or a failure in its waiter.
   */
  lemma NoCallerHangs(trace: seq<State>, steps: seq<Step>, i: nat, call: CallId)
    requires Run(trace, steps) && i < |trace| && (trace[i].phase.Swept? || trace[i].phase.Posted?)
    ensures trace[i].client.pending == map[]
    ensures call in trace[i].calls && Active(trace[i].calls[call].pc) ==>
      && call in trace[i].client.waiters && trace[i].client.waiters[call].Some?
      && !Enabled(trace[i], Expire(call))
  {
    RunKeepsInv(trace, steps, i);
    hide Run;
    SweptServes(trace[i], call);
  }

  lemma SweptServes(s: State, call: CallId)
    requires Inv(s) && (s.phase.Swept? || s.phase.Posted?)
    ensures s.client.pending == map[]
    ensures call in s.calls && Active(s.calls[call].pc) ==>
      call in s.client.waiters && s.client.waiters[call].Some? && !Enabled(s, Expire(call))
  {
    hide InvIds, InvDistinct, InvPending, InvWaiters, InvOutcomes, InvPlaced, InvLock, InvQueue;
  }

  /**
   After the closing the only call that can still register is the one that holds
   the lock, having seen the client open; every other one without an id keeps none.
   */
  lemma {:induction false} OnlyTheHolderRegisters(trace: seq<State>, steps: seq<Step>, i: nat, j: nat, call: CallId)
    requires Run(trace, steps) && i <= j < |trace| && trace[i].client.closed
    requires (call in trace[i].calls ==> trace[i].calls[call].id == 0) && trace[i].lock != Some(call)
    ensures trace[j].client.closed && trace[j].lock != Some(call)
    ensures call in trace[j].calls ==> trace[j].calls[call].id == 0
    decreases j - i
  {
    hide *;
    RunLength(trace, steps);
    if i < j {
      OnlyTheHolderRegisters(trace, steps, i, j - 1, call);
      RunStep(trace, steps, j - 1);
      StaysOut(trace[j - 1], steps[j - 1], call);
    }
  }

  lemma StaysOut(s: State, step: Step, call: CallId)
    requires Enabled(s, step) && s.client.closed && s.lock != Some(call)
    requires call in s.calls ==> s.calls[call].id == 0
    ensures Apply(s, step).client.closed && Apply(s, step).lock != Some(call)
    ensures call in Apply(s, step).calls ==> Apply(s, step).calls[call].id == 0
  {
    if IsRequest(step) {
      RequestStaysOut(s, step, call);
    } else if IsReply(step) {
      ReplyStaysOut(s, step, call);
    } else {
      OtherStaysOut(s, step, call);
    }
  }

  lemma RequestStaysOut(s: State, step: Step, call: CallId)
    requires Enabled(s, step) && IsRequest(step) && s.client.closed && s.lock != Some(call)
    requires call in s.calls ==> s.calls[call].id == 0
    ensures var t := ApplyRequest(s, step);
      t.client.closed && t.lock != Some(call) && (call in t.calls ==> t.calls[call].id == 0)
  {
  }

  lemma ReplyStaysOut(s: State, step: Step, call: CallId)
    requires Enabled(s, step) && IsReply(step) && s.client.closed && s.lock != Some(call)
    requires call in s.calls ==> s.calls[call].id == 0
    ensures var t := ApplyReply(s, step);
      t.client.closed && t.lock != Some(call) && (call in t.calls ==> t.calls[call].id == 0)
  {
  }

  lemma OtherStaysOut(s: State, step: Step, call: CallId)
    requires Enabled(s, step) && !IsRequest(step) && !IsReply(step) && s.client.closed && s.lock != Some(call)
    requires call in s.calls ==> s.calls[call].id == 0
    ensures var t := ApplyOther(s, step);
      t.client.closed && t.lock != Some(call) && (call in t.calls ==> t.calls[call].id == 0)
  {
  }

  /**
   The pending lock is always given back: its holder's next step is enabled, and nothing else
   needs the lock first.
   */
  lemma LockIsReleased(trace: seq<State>, steps: seq<Step>, i: nat)
    requires Run(trace, steps) && i < |trace| && trace[i].lock.Some?
    ensures Enabled(trace[i], CallInsert(trace[i].lock.value))
    ensures Apply(trace[i], CallInsert(trace[i].lock.value)).lock == None
    ensures !trace[i].phase.Swept? && !trace[i].phase.Posted?
  {
    RunKeepsInv(trace, steps, i);
    hide Run, InvIds, InvDistinct, InvPending, InvWaiters, InvSlots, InvReach, InvOutcomes, InvPlaced, InvPhase,
      InvQueue;
  }

  /** A started termination is never stuck: it can take its next step as soon as the lock is free. */
  lemma TerminationProgress(trace: seq<State>, steps: seq<Step>, i: nat)
    requires Run(trace, steps) && i < |trace| && trace[i].client.closed && !trace[i].phase.Posted?
    ensures if trace[i].phase.Swept? then Enabled(trace[i], PostNotice)
      else trace[i].lock == None ==> Enabled(trace[i], SweepPending)
  {
    RunKeepsInv(trace, steps, i);
    hide Run, InvIds, InvDistinct, InvPending, InvWaiters, InvSlots, InvReach, InvOutcomes, InvPlaced, InvLock,
      InvQueue;
  }

  const LATE_ERROR := Error(ConnectionClosed, 0)
  const LATE_STEPS := [CallStart(0), CallCheck(0), Close(LATE_ERROR), CallInsert(0), SweepPending]

  function LateTrace(): (trace: seq<State>)
    ensures |trace| == 6 && trace[0] == INITIAL
  {
    var s1 := INITIAL.(calls := map[0 := Call(Starting, 0, [])]);
    var s2 := s1.(lock := Some(0), calls := map[0 := Call(Registering, 0, [])]);
    var s3 := s2.(client := FRESH.(closed := true, callError := Some(LATE_ERROR)), phase := Marked(Eof));
    var s4 := s3.(lock := None, calls := map[0 := Call(Sending, 1, [])],
      client := s3.client.(nextId := 2, pending := map[1 := 0], waiters := map[0 := None]));
    var s5 := s4.(calls := map[0 := Call(Sending, 1, [Failure(LATE_ERROR)])], phase := Swept(Eof),
      client := s4.client.(pending := map[], waiters := map[0 := Some(Failure(LATE_ERROR))]));
    [INITIAL, s1, s2, s3, s4, s5]
  }

  /**
   The race happens: a call sees an open client, the client is closed, the call registers, and
   the sweep serves it.
   */
  lemma LateRegistration()
    ensures Run(LateTrace(), LATE_STEPS)
    ensures LateTrace()[3].client.closed && LateTrace()[3].client.pending == map[]
    ensures LateTrace()[4].client.pending == map[1 := 0] && At(LateTrace()[4], 0, Sending)
    ensures LateTrace()[5].phase.Swept? && LateTrace()[5].client.waiters == map[0 := Some(Failure(LATE_ERROR))]
  {
    LateFirst();
    LateInsert();
    LateSweep();
    LateFacts();
    hide Apply, Enabled, LateTrace, At;
    var trace, steps := LateTrace(), LATE_STEPS;
    forall i | 0 <= i < |steps|
      ensures Enabled(trace[i], steps[i]) && trace[i + 1] == Apply(trace[i], steps[i])
    {
      assert i == 0 || i == 1 || i == 2 || i == 3 || i == 4;
    }
  }

  lemma LateFacts()
    ensures var t := LateTrace();
      && t[3].client.closed && t[3].client.pending == map[]
      && t[4].client.pending == map[1 := 0] && At(t[4], 0, Sending)
      && t[5].phase.Swept? && t[5].client.waiters == map[0 := Some(Failure(LATE_ERROR))]
  {
  }

  lemma LateFirst()
    ensures var t := LateTrace();
      && Enabled(t[0], CallStart(0)) && t[1] == Apply(t[0], CallStart(0))
      && Enabled(t[1], CallCheck(0)) && t[2] == Apply(t[1], CallCheck(0))
      && Enabled(t[2], Close(LATE_ERROR)) && t[3] == Apply(t[2], Close(LATE_ERROR))
  {
  }

  lemma LateInsert()
    ensures var t := LateTrace(); Enabled(t[3], CallInsert(0)) && t[4] == Apply(t[3], CallInsert(0))
  {
  }

  lemma LateSweep()
    ensures var t := LateTrace(); Enabled(t[4], SweepPending) && t[5] == Apply(t[4], SweepPending)
  {
    var s := LateTrace()[4];
    assert Registered(s.client, 1, 0) && IsPending(s.client, 0);
    assert s.calls == map[0 := Call(Sending, 1, [])] && [] + [Failure(LATE_ERROR)] == [Failure(LATE_ERROR)];
    assert AfterSweep(s, LATE_ERROR) == LateTrace()[5].calls;
    assert Sweep(s.client, LATE_ERROR) == LateTrace()[5].client;
  }

  /** How many of its own steps a call needs at most. */
  function Remaining(pc: CallPc): nat {
    match pc
    case Starting => 10
    case Registering => 9
    case Sending => 8
    case Breaking(_) => 7
    case Closing(_) => 6
    case Waiting => 5
    case Expired => 4
    case Leaving(_) => 3
    case Refused => 1
    case Done(_) => 0
  }

  /** The step a call takes next after termination. */
  function NextStep(s: State, call: CallId): Step
    requires call in s.calls && !s.calls[call].pc.Done?
  {
    match s.calls[call].pc
    case Starting => CallCheck(call)
    case Registering => CallInsert(call)
    case Refused => CallRefused(call)
    case Sending => SendClosed(call)
    case Breaking(_) => CallMark(call)
    case Closing(_) => CallClosed(call)
    case Waiting => Get(call)
    case Expired => ReGet(call)
    case Leaving(_) => Unregistered(call)
    case Done(_) => CallStart(call)
  }

  /** After termination every unfinished call has a step of its own that brings it nearer its end. */
  lemma CallersProgress(trace: seq<State>, steps: seq<Step>, i: nat, call: CallId)
    requires Run(trace, steps) && i < |trace| && trace[i].phase.Posted?
    requires call in trace[i].calls && !trace[i].calls[call].pc.Done?
    ensures var s := trace[i];
      var step := NextStep(s, call);
      && Enabled(s, step) && call in Apply(s, step).calls
      && Remaining(Apply(s, step).calls[call].pc) < Remaining(s.calls[call].pc)
  {
    RunKeepsInv(trace, steps, i);
    NextStepProgresses(trace[i], call);
  }

  lemma NextStepProgresses(s: State, call: CallId)
    requires Inv(s) && s.phase.Posted? && call in s.calls && !s.calls[call].pc.Done?
    ensures var step := NextStep(s, call);
      && Enabled(s, step) && call in Apply(s, step).calls
      && Remaining(Apply(s, step).calls[call].pc) < Remaining(s.calls[call].pc)
  {
    NextEnabled(s, call);
    hide Inv, Enabled;
    StepProgresses(s, call);
  }

  lemma NextEnabled(s: State, call: CallId)
    requires Inv(s) && s.phase.Posted? && call in s.calls && !s.calls[call].pc.Done?
    ensures Enabled(s, NextStep(s, call)) && s.client.closed
  {
    hide InvIds, InvDistinct, InvPending, InvWaiters, InvOutcomes, InvPlaced, InvQueue;
    SweptServes(s, call);
  }

  lemma StepProgresses(s: State, call: CallId)
    requires call in s.calls && !s.calls[call].pc.Done? && s.client.closed && Enabled(s, NextStep(s, call))
    ensures var t := Apply(s, NextStep(s, call));
      call in t.calls && Remaining(t.calls[call].pc) < Remaining(s.calls[call].pc)
  {
  }

  // ----- Outcomes -----

  /** What one step may do to a call: the id stays, items are only added, and an outcome is final. */
  ghost predicate Evolves(s: State, t: State, call: CallId) {
    call in s.calls ==>
      && call in t.calls
      && (s.calls[call].id >= 1 ==> t.calls[call].id == s.calls[call].id)
      && s.calls[call].placed <= t.calls[call].placed
      && (Settled(s.calls[call].pc).Some? ==> Settled(t.calls[call].pc) == Settled(s.calls[call].pc))
      && (s.calls[call].pc.Done? ==> t.calls[call].pc == s.calls[call].pc)
  }

  lemma StepEvolves(s: State, step: Step, call: CallId)
    requires Inv(s) && Enabled(s, step)
    ensures Evolves(s, Apply(s, step), call)
  {
    hide InvDistinct, InvWaiters, InvReach, InvOutcomes, InvPlaced, InvPhase, InvLock, InvQueue, ApplyRequest,
      ApplyReply, ApplyOther;
    if IsRequest(step) {
      RequestEvolves(s, step, call);
    } else if IsReply(step) {
      ReplyEvolves(s, step, call);
    } else {
      OtherEvolves(s, step, call);
    }
  }

  lemma RequestEvolves(s: State, step: Step, call: CallId)
    requires Inv(s) && Enabled(s, step) && IsRequest(step)
    ensures Evolves(s, ApplyRequest(s, step), call)
  {
    hide InvDistinct, InvPending, InvWaiters, InvSlots, InvReach, InvOutcomes, InvPlaced, InvPhase, InvLock, InvQueue;
  }

  lemma ReplyEvolves(s: State, step: Step, call: CallId)
    requires Inv(s) && Enabled(s, step) && IsReply(step)
    ensures Evolves(s, ApplyReply(s, step), call)
  {
    hide InvDistinct, InvPending, InvWaiters, InvReach, InvOutcomes, InvPlaced, InvPhase, InvLock, InvQueue;
  }

  lemma OtherEvolves(s: State, step: Step, call: CallId)
    requires Inv(s) && Enabled(s, step) && !IsRequest(step) && !IsReply(step)
    ensures Evolves(s, ApplyOther(s, step), call)
  {
    hide InvDistinct, InvWaiters, InvSlots, InvReach, InvOutcomes, InvPlaced, InvPhase, InvLock, InvQueue;
  }

  lemma {:induction false} RunEvolves(trace: seq<State>, steps: seq<Step>, i: nat, j: nat, call: CallId)
    requires Run(trace, steps) && i <= j < |trace|
    ensures Evolves(trace[i], trace[j], call)
    decreases j - i
  {
    hide *;
    RunLength(trace, steps);
    if i < j {
      RunEvolves(trace, steps, i, j - 1, call);
      RunKeepsInv(trace, steps, j - 1);
      RunStep(trace, steps, j - 1);
      StepEvolves(trace[j - 1], steps[j - 1], call);
      EvolvesOn(trace[i], trace[j - 1], trace[j], call);
    } else {
      EvolvesNot(trace[i], call);
    }
  }

  lemma EvolvesNot(s: State, call: CallId)
    ensures Evolves(s, s, call)
  {
  }

  lemma EvolvesOn(s: State, t: State, u: State, call: CallId)
    requires Evolves(s, t, call) && Evolves(t, u, call)
    ensures Evolves(s, u, call)
  {
  }

  /**
   Each call settles on at most one outcome. A returned reply carries exactly
   the id of the call, an id no other call ever has, and it is the first item
   that reached the waiter; a timeout means that no item reached the waiter,
   and none ever will.
   */
  lemma OneOutcome(trace: seq<State>, steps: seq<Step>, i: nat, j: nat, call: CallId)
    requires Run(trace, steps) && i <= j < |trace| && call in trace[i].calls && Settled(trace[i].calls[call].pc).Some?
    ensures call in trace[j].calls && Settled(trace[j].calls[call].pc) == Settled(trace[i].calls[call].pc)
    ensures match Settled(trace[i].calls[call].pc).value
      case Returned(r) =>
        && r.reply && r.id == trace[i].calls[call].id == trace[j].calls[call].id
        && trace[j].calls[call].placed != [] && trace[j].calls[call].placed[0] == Reply(r)
        && forall d :: d in trace[j].calls && trace[j].calls[d].id == r.id ==> d == call
      case TimedOut => trace[j].calls[call].placed == []
      case _ => true
  {
    RunInvariant(trace, steps, i);
    RunInvariant(trace, steps, j);
    RunEvolves(trace, steps, i, j, call);
    assert trace[i].calls[call].id >= 1 || trace[i].calls[call].placed == [];
  }

  // ----- Conservation and order -----

  /**
   Every record read from the wire went to exactly one place, or is in the
   reader's hand; the event queue received its records in wire order, each
   waiter received the records routed to it, and all of those carry its id.
   */
  lemma Conservation(trace: seq<State>, steps: seq<Step>, i: nat)
    requires Run(trace, steps) && i < |trace|
    ensures trace[i].log == Records(trace[i].routed) + InFlight(trace[i].reader)
    ensures Messages(trace[i].posted) == Sent(trace[i].routed, ToEvents)
    ensures forall c :: c in trace[i].calls ==>
      && Replies(trace[i].calls[c].placed) == Sent(trace[i].routed, ToWaiter(c))
      && forall k :: 0 <= k < |trace[i].calls[c].placed| && trace[i].calls[c].placed[k].Reply? ==>
           trace[i].calls[c].placed[k].record.id == trace[i].calls[c].id
    ensures trace[i].taken <= |trace[i].posted| && trace[i].client.events == trace[i].posted[trace[i].taken..]
  {
    RunInvariant(trace, steps, i);
  }

  /** A registered call with that id whose waiter is empty. */
  predicate Awaits(s: State, call: CallId, id: int) {
    && call in s.calls && s.calls[call].id == id && Registered(s.client, id, call)
    && call in s.client.waiters && s.client.waiters[call] == None
  }

  /** A call with that id that still waits and was given nothing. */
  predicate Unserved(s: State, call: CallId, id: int) {
    call in s.calls && s.calls[call].id == id && Active(s.calls[call].pc) && s.calls[call].placed == []
  }

  /**
   The reader keeps a record for the event queue exactly when it is no reply or no
   registered call with its id has an empty waiter; otherwise that call gets it.
   A reply for a call that still waits and was given nothing is never kept.
   */
  lemma DispatchExact(trace: seq<State>, steps: seq<Step>, i: nat)
    requires Run(trace, steps) && i < |steps| && steps[i] == Dispatch
    ensures trace[i].reader.Holding?
    ensures var r := trace[i].reader.record;
      trace[i + 1].reader == Enqueuing(r) <==> !(r.reply && exists call :: Awaits(trace[i], call, r.id))
    ensures var r := trace[i].reader.record;
      forall call :: r.reply && Awaits(trace[i], call, r.id) ==>
        && trace[i + 1].calls[call].placed == trace[i].calls[call].placed + [Reply(r)]
        && trace[i + 1].routed == trace[i].routed + [Route(r, ToWaiter(call))]
    ensures var r := trace[i].reader.record;
      forall call :: r.reply && Unserved(trace[i], call, r.id) ==> Awaits(trace[i], call, r.id)
  {
    RunKeepsInv(trace, steps, i);
    var s := trace[i];
    assert Enabled(s, Dispatch) && trace[i + 1] == ApplyOther(s, Dispatch);
    hide Run;
    DispatchGoes(s);
    forall call | Unserved(s, call, s.reader.record.id)
      ensures Awaits(s, call, s.reader.record.id)
    {
      UnservedAwaits(s, call, s.reader.record.id);
    }
  }

  lemma UnservedAwaits(s: State, call: CallId, id: int)
    requires Inv(s) && Unserved(s, call, id)
    ensures Awaits(s, call, id)
  {
    hide InvIds, InvDistinct, InvPending, InvWaiters, InvOutcomes, InvPlaced, InvPhase, InvLock, InvQueue;
  }

  lemma DispatchGoes(s: State)
    requires Inv(s) && Enabled(s, Dispatch)
    ensures var r := s.reader.record; var t := ApplyOther(s, Dispatch);
      && (t.reader == Enqueuing(r) <==> !(r.reply && exists call :: Awaits(s, call, r.id)))
      && forall call :: r.reply && Awaits(s, call, r.id) ==>
           && call in t.calls && t.calls[call].placed == s.calls[call].placed + [Reply(r)]
           && t.routed == s.routed + [Route(r, ToWaiter(call))]
  {
    hide InvIds, InvDistinct, InvWaiters, InvSlots, InvReach, InvOutcomes, InvPlaced, InvPhase, InvLock, InvQueue;
    var r := s.reader.record;
    if Accepts(s.client, r) {
      assert Awaits(s, s.client.pending[r.id], r.id);
    }
  }

  // ----- The terminal error and its notice -----

  /** What a step may do to the terminal errors and the posted events. */
  ghost predicate TerminalKept(s: State, t: State) {
    && (s.client.closed ==> t.client.callError == s.client.callError && t.client.recvError == s.client.recvError)
    && (s.client.closed ==> t.client.closed)
    && s.posted <= t.posted
  }

  lemma StepKeepsTerminal(s: State, step: Step)
    requires Enabled(s, step)
    ensures TerminalKept(s, Apply(s, step))
  {
    if IsRequest(step) {
      RequestKeepsTerminal(s, step);
    } else if IsReply(step) {
      ReplyKeepsTerminal(s, step);
    } else {
      OtherKeepsTerminal(s, step);
    }
  }

  lemma RequestKeepsTerminal(s: State, step: Step)
    requires Enabled(s, step) && IsRequest(step)
    ensures TerminalKept(s, ApplyRequest(s, step))
  {
  }

  lemma ReplyKeepsTerminal(s: State, step: Step)
    requires Enabled(s, step) && IsReply(step)
    ensures TerminalKept(s, ApplyReply(s, step))
  {
  }

  lemma OtherKeepsTerminal(s: State, step: Step)
    requires Enabled(s, step) && !IsRequest(step) && !IsReply(step)
    ensures TerminalKept(s, ApplyOther(s, step))
  {
    hide Sweep, AfterSweep;
    if step.SweepPending? {
      SweepKeeps(s.client, s.client.callError.value);
    }
  }

  lemma SweepKeeps(c: Client, failure: Error)
    ensures var d := Sweep(c, failure);
      d.closed == c.closed && d.callError == c.callError && d.recvError == c.recvError
  {
  }

  /** The first terminal error is the only one, whichever thread raised it. */
  lemma {:induction false} TerminalIsFinal(trace: seq<State>, steps: seq<Step>, i: nat, j: nat)
    requires Run(trace, steps) && i <= j < |trace| && trace[i].client.closed
    ensures trace[i].client.callError.Some? && trace[j].client.closed
    ensures trace[j].client.callError == trace[i].client.callError
    ensures trace[j].client.recvError == trace[i].client.recvError
    decreases j - i
  {
    hide *;
    RunLength(trace, steps);
    if i < j {
      TerminalIsFinal(trace, steps, i, j - 1);
      RunStep(trace, steps, j - 1);
      StepKeepsTerminal(trace[j - 1], steps[j - 1]);
      TerminalKeptIs(trace[j - 1], trace[j]);
    } else {
      RunKeepsInv(trace, steps, i);
      ClosedHasError(trace[i]);
    }
  }

  lemma TerminalKeptIs(s: State, t: State)
    requires TerminalKept(s, t) && s.client.closed
    ensures t.client.closed && t.client.callError == s.client.callError && t.client.recvError == s.client.recvError
  {
  }

  lemma ClosedHasError(s: State)
    requires Inv(s) && s.client.closed
    ensures s.client.callError.Some?
  {
    hide InvIds, InvDistinct, InvPending, InvWaiters, InvSlots, InvReach, InvOutcomes, InvPlaced, InvLock, InvQueue;
  }

  lemma RunKeepsInv(trace: seq<State>, steps: seq<Step>, i: nat)
    requires Run(trace, steps) && i < |trace|
    ensures Inv(trace[i])
  {
    RunInvariant(trace, steps, i);
    hide Inv, InvLog, InvEvents, InvReplies, Run;
  }

  /** At most one notice is ever posted, and only by a closed client. */
  lemma OneNotice(trace: seq<State>, steps: seq<Step>, i: nat, k: nat, l: nat)
    requires Run(trace, steps) && i < |trace| && k < |trace[i].posted| && l < |trace[i].posted|
    requires trace[i].posted[k].Terminal? && trace[i].posted[l].Terminal?
    ensures k == l && trace[i].client.closed
  {
    RunKeepsInv(trace, steps, i);
  }

  /** The notice is posted only after the pending callers were failed. */
  lemma NoticeAfterSweep(trace: seq<State>, steps: seq<Step>, i: nat, k: nat, call: CallId)
    requires Run(trace, steps) && i < |trace| && k < |trace[i].posted| && trace[i].posted[k].Terminal?
    ensures trace[i].phase.Posted? && trace[i].client.pending == map[]
    ensures call in trace[i].calls && Active(trace[i].calls[call].pc) ==> trace[i].calls[call].placed != []
  {
    RunInvariant(trace, steps, i);
    NoCallerHangs(trace, steps, i, call);
  }

  // ----- The event consumer -----

  /**
   A consumer that began to block before termination finds an item once the
   notice is posted, and one that starts later never blocks: it polls, and
   polling always ends in its next step.
   */
  lemma ConsumerWakes(trace: seq<State>, steps: seq<Step>, i: nat)
    requires Run(trace, steps) && i < |trace|
    ensures trace[i].consumer == Blocking && trace[i].phase.Posted? ==>
      trace[i].client.events != []
    ensures trace[i].consumer == Idle && trace[i].client.closed ==>
      Apply(trace[i], ConsumerCheck).consumer == Polling
    ensures trace[i].consumer == Polling ==>
      Enabled(trace[i], ConsumerTake) || Enabled(trace[i], ConsumerGiveUp)
  {
    RunKeepsInv(trace, steps, i);
    hide Run, InvIds, InvDistinct, InvPending, InvWaiters, InvSlots, InvReach, InvOutcomes, InvPlaced, InvLock;
  }
}
