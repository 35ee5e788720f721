/** Safety of the dispatcher over every run: inductive invariants and what follows from them. */
module DispatcherProofs {
  import opened Dispatcher

  // ----- Invariants -----

  /** The call holds a registered waiter that it has not read yet. */
  predicate Active(pc: CallPc) {
    pc.Sending? || pc.Breaking? || pc.Closing? || pc.Waiting? || pc.Expired?
  }

  /** The outcome that a call has settled on. */
  function Settled(pc: CallPc): Option<Outcome> {
    match pc
    case Leaving(o) => Some(o)
    case Done(o) => Some(o)
    case _ => None
  }

  /** A call between registration and return has an identifier; one without has seen nothing. */
  predicate Numbered(c: Call, nextId: nat) {
    && 0 <= c.id < nextId
    && (Active(c.pc) || c.pc.Leaving? ==> c.id >= 1)
    && (c.pc.Starting? || c.pc.Registering? || c.pc.Refused? ==> c.id == 0)
    && (c.id == 0 ==> c.placed == [])
  }

  /** Identifiers grow. */
  ghost predicate InvIds(s: State) {
    s.client.nextId >= 1 && forall c :: c in s.calls ==> Numbered(s.calls[c], s.client.nextId)
  }

  ghost predicate InvDistinct(s: State) {
    forall c, d :: c in s.calls && d in s.calls && s.calls[c].id == s.calls[d].id >= 1 ==> c == d
  }

  /** A pending id belongs to a call that is still inside `call` and has not timed out. */
  ghost predicate InvPending(s: State) {
    forall id :: id in s.client.pending ==>
      var c := s.client.pending[id];
      && c in s.calls && s.calls[c].id == id && id >= 1
      && (Active(s.calls[c].pc) || (s.calls[c].pc.Leaving? && s.calls[c].pc != Leaving(TimedOut)))
  }

  ghost predicate InvWaiters(s: State) {
    && (forall c :: c in s.calls && s.calls[c].id >= 1 ==> c in s.client.waiters)
    && (forall c :: c in s.client.waiters ==> c in s.calls)
  }

  /** Until a call reads its waiter, the waiter holds the only item ever put there. */
  predicate Slotted(s: State, c: CallId) {
    c in s.calls && Active(s.calls[c].pc) ==>
      && |s.calls[c].placed| <= 1 && c in s.client.waiters
      && s.client.waiters[c] == if s.calls[c].placed == [] then None else Some(s.calls[c].placed[0])
  }

  ghost predicate InvSlots(s: State) {
    forall c :: c in s.calls ==> Slotted(s, c)
  }

  /** A thread's step changes only its own call and waiter. */
  ghost predicate Frame(s: State, t: State, call: CallId) {
    && (forall c :: c in t.calls && c != call ==> c in s.calls && t.calls[c] == s.calls[c])
    && (forall c :: c in s.client.waiters && c != call ==>
      c in t.client.waiters && t.client.waiters[c] == s.client.waiters[c])
  }

  lemma RequestFrame(s: State, step: Step)
    requires Enabled(s, step) && IsRequest(step)
    ensures Frame(s, ApplyRequest(s, step), step.call)
  {
  }

  lemma ReplyFrame(s: State, step: Step)
    requires Enabled(s, step) && IsReply(step)
    ensures Frame(s, ApplyReply(s, step), step.call)
  {
  }

  lemma SlottedAt(s: State, call: CallId)
    requires InvSlots(s)
    ensures Slotted(s, call)
  {
  }

  lemma SlotsFramed(s: State, t: State, call: CallId)
    requires InvSlots(s) && Frame(s, t, call) && Slotted(t, call)
    ensures InvSlots(t)
  {
    forall c | c in t.calls
      ensures Slotted(t, c)
    {
      if c != call {
        assert Slotted(s, c);
      }
    }
  }

  /** A call that still waits can be reached, or has been. */
  ghost predicate InvReach(s: State) {
    forall c :: c in s.calls && Active(s.calls[c].pc) ==>
      Registered(s.client, s.calls[c].id, c) || s.calls[c].placed != []
  }

  /** An outcome agrees with what was put into the waiter. */
  predicate Justified(c: Call) {
    match Settled(c.pc)
    case None => true
    case Some(outcome) =>
      match outcome
      case Returned(r) => c.placed != [] && c.placed[0] == Reply(r)
      case TimedOut => c.placed == []
      case _ => true
  }

  ghost predicate InvOutcomes(s: State) {
    forall c :: c in s.calls ==> Justified(s.calls[c])
  }

  /** Replies carry the id of the call; failures are the terminal error. */
  ghost predicate InvPlaced(s: State) {
    forall c, k :: c in s.calls && 0 <= k < |s.calls[c].placed| ==>
      match s.calls[c].placed[k]
      case Reply(r) => r.reply && r.id == s.calls[c].id
      case Failure(e) => s.client.callError == Some(e)
  }

  ghost predicate InvPhase(s: State) {
    && (s.client.closed <==> !s.phase.Open?)
    && (s.client.closed <==> s.client.callError.Some?)
    && (s.phase.Swept? || s.phase.Posted? ==> s.client.pending == map[])
  }

  /**
   The lock belongs to the one call between test and insertion; whoever saw an open client
   inserts before the sweep.
   */
  ghost predicate InvLock(s: State) {
    && (s.lock.Some? ==> At(s, s.lock.value, Registering))
    && (forall c :: c in s.calls && s.calls[c].pc.Registering? ==> s.lock == Some(c))
    && (s.phase.Swept? || s.phase.Posted? ==> s.lock == None)
  }

  /** The event queue is what was posted and not taken; at most one notice is ever posted. */
  ghost predicate InvQueue(s: State) {
    && s.taken <= |s.posted| && s.client.events == s.posted[s.taken..]
    && (s.phase.Posted? ==> s.phase.index < |s.posted| && s.posted[s.phase.index] == Terminal(s.phase.notice))
    && (forall k :: 0 <= k < |s.posted| ==> s.posted[k].Message? || (s.phase.Posted? && k == s.phase.index))
    && (s.consumer == Blocking && s.phase.Posted? ==> s.taken <= s.phase.index)
  }

  ghost predicate Inv(s: State) {
    && InvIds(s) && InvDistinct(s) && InvPending(s) && InvWaiters(s) && InvSlots(s) && InvReach(s)
    && InvOutcomes(s) && InvPlaced(s) && InvPhase(s) && InvLock(s) && InvQueue(s)
  }

  // ----- Every step keeps the invariants -----

  lemma PendingCall(s: State, c: CallId)
    requires InvPending(s) && IsPending(s.client, c)
    ensures c in s.calls && Registered(s.client, s.calls[c].id, c)
  {
    var id :| id in s.client.pending && Registered(s.client, id, c);
  }

  lemma KeepIds(s: State, step: Step)
    requires Inv(s) && Enabled(s, step)
    ensures InvIds(Apply(s, step))
  {
    if IsRequest(step) {
      RequestKeepsIds(s, step);
    } else if IsReply(step) {
      ReplyKeepsIds(s, step);
    } else {
      OtherKeepsIds(s, step);
    }
  }

  lemma RequestKeepsIds(s: State, step: Step)
    requires Inv(s) && Enabled(s, step) && IsRequest(step)
    ensures InvIds(ApplyRequest(s, step))
  {
    hide InvDistinct, InvPending, InvWaiters, InvSlots, InvReach, InvOutcomes, InvPlaced, InvPhase, InvLock, InvQueue;
    if step.CallStart? || step.CallInsert? {
      NewIds(s, step);
    } else {
      MovedIds(s, step);
    }
  }

  lemma NewIds(s: State, step: Step)
    requires InvIds(s) && Enabled(s, step) && (step.CallStart? || step.CallInsert?)
    ensures InvIds(ApplyRequest(s, step))
  {
    var t := ApplyRequest(s, step);
    assert forall c :: c in t.calls && c != step.call ==> c in s.calls && t.calls[c] == s.calls[c];
  }

  lemma MovedIds(s: State, step: Step)
    requires InvIds(s) && Enabled(s, step) && IsRequest(step) && !step.CallStart? && !step.CallInsert?
    ensures InvIds(ApplyRequest(s, step))
  {
    var t := ApplyRequest(s, step);
    assert Numbered(s.calls[step.call], s.client.nextId);
    assert Numbered(t.calls[step.call], s.client.nextId);
    hide Numbered;
    assert t.client == s.client;
    assert forall c :: c in t.calls && c != step.call ==> c in s.calls && t.calls[c] == s.calls[c];
  }

  lemma ReplyKeepsIds(s: State, step: Step)
    requires Inv(s) && Enabled(s, step) && IsReply(step)
    ensures InvIds(ApplyReply(s, step))
  {
    hide InvDistinct, InvPending, InvWaiters, InvSlots, InvReach, InvOutcomes, InvPlaced, InvPhase, InvLock, InvQueue;
  }

  lemma OtherKeepsIds(s: State, step: Step)
    requires Inv(s) && Enabled(s, step) && !IsRequest(step) && !IsReply(step)
    ensures InvIds(ApplyOther(s, step))
  {
    hide InvDistinct, InvWaiters, InvSlots, InvReach, InvOutcomes, InvPlaced, InvPhase, InvLock, InvQueue;
    if step.SweepPending? {
      forall c | IsPending(s.client, c)
        ensures c in s.calls && Registered(s.client, s.calls[c].id, c)
      {
        PendingCall(s, c);
      }
    }
  }

  lemma KeepDistinct(s: State, step: Step)
    requires Inv(s) && Enabled(s, step)
    ensures InvDistinct(Apply(s, step))
  {
    if IsRequest(step) {
      RequestKeepsDistinct(s, step);
    } else if IsReply(step) {
      ReplyKeepsDistinct(s, step);
    } else {
      OtherKeepsDistinct(s, step);
    }
  }

  lemma RequestKeepsDistinct(s: State, step: Step)
    requires Inv(s) && Enabled(s, step) && IsRequest(step)
    ensures InvDistinct(ApplyRequest(s, step))
  {
    hide InvPending, InvWaiters, InvSlots, InvReach, InvOutcomes, InvPlaced, InvPhase, InvLock, InvQueue;
  }

  lemma ReplyKeepsDistinct(s: State, step: Step)
    requires Inv(s) && Enabled(s, step) && IsReply(step)
    ensures InvDistinct(ApplyReply(s, step))
  {
    hide InvIds, InvPending, InvWaiters, InvSlots, InvReach, InvOutcomes, InvPlaced, InvPhase, InvLock, InvQueue;
  }

  lemma OtherKeepsDistinct(s: State, step: Step)
    requires Inv(s) && Enabled(s, step) && !IsRequest(step) && !IsReply(step)
    ensures InvDistinct(ApplyOther(s, step))
  {
    hide InvIds, InvPending, InvWaiters, InvSlots, InvReach, InvOutcomes, InvPlaced, InvPhase, InvLock, InvQueue;
  }

  lemma KeepPending(s: State, step: Step)
    requires Inv(s) && Enabled(s, step)
    ensures InvPending(Apply(s, step))
  {
    if IsRequest(step) {
      RequestKeepsPending(s, step);
    } else if IsReply(step) {
      ReplyKeepsPending(s, step);
    } else {
      OtherKeepsPending(s, step);
    }
  }

  lemma RequestKeepsPending(s: State, step: Step)
    requires Inv(s) && Enabled(s, step) && IsRequest(step)
    ensures InvPending(ApplyRequest(s, step))
  {
    hide InvDistinct, InvWaiters, InvSlots, InvReach, InvOutcomes, InvPlaced, InvPhase, InvLock, InvQueue;
  }

  lemma ReplyKeepsPending(s: State, step: Step)
    requires Inv(s) && Enabled(s, step) && IsReply(step)
    ensures InvPending(ApplyReply(s, step))
  {
    hide InvDistinct, InvWaiters, InvSlots, InvReach, InvOutcomes, InvPlaced, InvPhase, InvLock, InvQueue;
  }

  lemma OtherKeepsPending(s: State, step: Step)
    requires Inv(s) && Enabled(s, step) && !IsRequest(step) && !IsReply(step)
    ensures InvPending(ApplyOther(s, step))
  {
    hide InvIds, InvDistinct, InvWaiters, InvSlots, InvReach, InvOutcomes, InvPlaced, InvPhase, InvLock, InvQueue;
  }

  lemma KeepWaiters(s: State, step: Step)
    requires Inv(s) && Enabled(s, step)
    ensures InvWaiters(Apply(s, step))
  {
    if IsRequest(step) {
      RequestKeepsWaiters(s, step);
    } else if IsReply(step) {
      ReplyKeepsWaiters(s, step);
    } else {
      OtherKeepsWaiters(s, step);
    }
  }

  lemma RequestKeepsWaiters(s: State, step: Step)
    requires Inv(s) && Enabled(s, step) && IsRequest(step)
    ensures InvWaiters(ApplyRequest(s, step))
  {
    hide InvDistinct, InvPending, InvSlots, InvReach, InvOutcomes, InvPlaced, InvPhase, InvLock, InvQueue;
  }

  lemma ReplyKeepsWaiters(s: State, step: Step)
    requires Inv(s) && Enabled(s, step) && IsReply(step)
    ensures InvWaiters(ApplyReply(s, step))
  {
    hide InvIds, InvDistinct, InvPending, InvSlots, InvReach, InvOutcomes, InvPlaced, InvPhase, InvLock, InvQueue;
  }

  lemma OtherKeepsWaiters(s: State, step: Step)
    requires Inv(s) && Enabled(s, step) && !IsRequest(step) && !IsReply(step)
    ensures InvWaiters(ApplyOther(s, step))
  {
    hide InvIds, InvDistinct, InvPending, InvSlots, InvReach, InvOutcomes, InvPlaced, InvPhase, InvLock, InvQueue;
  }

  lemma KeepSlots(s: State, step: Step)
    requires Inv(s) && Enabled(s, step)
    ensures InvSlots(Apply(s, step))
  {
    if IsRequest(step) {
      RequestKeepsSlots(s, step);
    } else if IsReply(step) {
      ReplyKeepsSlots(s, step);
    } else {
      OtherKeepsSlots(s, step);
    }
  }

  lemma RequestKeepsSlots(s: State, step: Step)
    requires Inv(s) && Enabled(s, step) && IsRequest(step)
    ensures InvSlots(ApplyRequest(s, step))
  {
    RequestFrame(s, step);
    SlottedAt(s, step.call);
    OwnRequestSlot(s, step);
    hide Frame, Slotted, ApplyRequest, Enabled, InvIds, InvDistinct, InvPending, InvWaiters, InvSlots, InvReach,
      InvOutcomes, InvPlaced, InvPhase, InvLock, InvQueue;
    SlotsFramed(s, ApplyRequest(s, step), step.call);
  }

  lemma OwnRequestSlot(s: State, step: Step)
    requires Enabled(s, step) && IsRequest(step) && Slotted(s, step.call)
    ensures Slotted(ApplyRequest(s, step), step.call)
  {
  }

  lemma ReplyKeepsSlots(s: State, step: Step)
    requires Inv(s) && Enabled(s, step) && IsReply(step)
    ensures InvSlots(ApplyReply(s, step))
  {
    ReplyFrame(s, step);
    SlottedAt(s, step.call);
    OwnReplySlot(s, step);
    hide Frame, Slotted, ApplyReply, Enabled, InvIds, InvDistinct, InvPending, InvWaiters, InvSlots, InvReach,
      InvOutcomes, InvPlaced, InvPhase, InvLock, InvQueue;
    SlotsFramed(s, ApplyReply(s, step), step.call);
  }

  lemma OwnReplySlot(s: State, step: Step)
    requires Enabled(s, step) && IsReply(step) && Slotted(s, step.call)
    ensures Slotted(ApplyReply(s, step), step.call)
  {
  }

  lemma OtherKeepsSlots(s: State, step: Step)
    requires Inv(s) && Enabled(s, step) && !IsRequest(step) && !IsReply(step)
    ensures InvSlots(ApplyOther(s, step))
  {
    hide InvIds, InvDistinct, InvWaiters, InvReach, InvOutcomes, InvPlaced, InvPhase, InvLock, InvQueue;
    if step.SweepPending? {
      forall c | IsPending(s.client, c)
        ensures c in s.calls && Registered(s.client, s.calls[c].id, c)
      {
        PendingCall(s, c);
      }
    }
  }

  lemma KeepReach(s: State, step: Step)
    requires Inv(s) && Enabled(s, step)
    ensures InvReach(Apply(s, step))
  {
    if IsRequest(step) {
      RequestKeepsReach(s, step);
    } else if IsReply(step) {
      ReplyKeepsReach(s, step);
    } else {
      OtherKeepsReach(s, step);
    }
  }

  lemma RequestKeepsReach(s: State, step: Step)
    requires Inv(s) && Enabled(s, step) && IsRequest(step)
    ensures InvReach(ApplyRequest(s, step))
  {
    hide InvDistinct, InvPending, InvWaiters, InvSlots, InvOutcomes, InvPlaced, InvPhase, InvLock, InvQueue;
  }

  lemma ReplyKeepsReach(s: State, step: Step)
    requires Inv(s) && Enabled(s, step) && IsReply(step)
    ensures InvReach(ApplyReply(s, step))
  {
    hide InvIds, InvWaiters, InvOutcomes, InvPlaced, InvPhase, InvLock, InvQueue;
  }

  lemma OtherKeepsReach(s: State, step: Step)
    requires Inv(s) && Enabled(s, step) && !IsRequest(step) && !IsReply(step)
    ensures InvReach(ApplyOther(s, step))
  {
    hide InvIds, InvDistinct, InvWaiters, InvOutcomes, InvPlaced, InvLock, InvQueue;
    if step.SweepPending? {
      forall c | IsPending(s.client, c)
        ensures c in s.calls && Registered(s.client, s.calls[c].id, c)
      {
        PendingCall(s, c);
      }
    }
  }

  lemma KeepOutcomes(s: State, step: Step)
    requires Inv(s) && Enabled(s, step)
    ensures InvOutcomes(Apply(s, step))
  {
    if IsRequest(step) {
      RequestKeepsOutcomes(s, step);
    } else if IsReply(step) {
      ReplyKeepsOutcomes(s, step);
    } else {
      OtherKeepsOutcomes(s, step);
    }
  }

  lemma RequestKeepsOutcomes(s: State, step: Step)
    requires Inv(s) && Enabled(s, step) && IsRequest(step)
    ensures InvOutcomes(ApplyRequest(s, step))
  {
    hide InvIds, InvDistinct, InvPending, InvWaiters, InvSlots, InvReach, InvPlaced, InvPhase, InvLock, InvQueue;
  }

  lemma ReplyKeepsOutcomes(s: State, step: Step)
    requires Inv(s) && Enabled(s, step) && IsReply(step)
    ensures InvOutcomes(ApplyReply(s, step))
  {
    hide InvIds, InvDistinct, InvPending, InvWaiters, InvReach, InvPlaced, InvPhase, InvLock, InvQueue;
  }

  lemma OtherKeepsOutcomes(s: State, step: Step)
    requires Inv(s) && Enabled(s, step) && !IsRequest(step) && !IsReply(step)
    ensures InvOutcomes(ApplyOther(s, step))
  {
    hide InvIds, InvDistinct, InvReach, InvPlaced, InvPhase, InvLock, InvQueue;
    if step.SweepPending? {
      forall c | IsPending(s.client, c)
        ensures c in s.calls && Registered(s.client, s.calls[c].id, c)
      {
        PendingCall(s, c);
      }
    }
  }

  lemma KeepPlaced(s: State, step: Step)
    requires Inv(s) && Enabled(s, step)
    ensures InvPlaced(Apply(s, step))
  {
    if IsRequest(step) {
      RequestKeepsPlaced(s, step);
    } else if IsReply(step) {
      ReplyKeepsPlaced(s, step);
    } else {
      OtherKeepsPlaced(s, step);
    }
  }

  lemma RequestKeepsPlaced(s: State, step: Step)
    requires Inv(s) && Enabled(s, step) && IsRequest(step)
    ensures InvPlaced(ApplyRequest(s, step))
  {
    hide InvDistinct, InvPending, InvWaiters, InvSlots, InvReach, InvOutcomes, InvPhase, InvLock, InvQueue;
  }

  lemma ReplyKeepsPlaced(s: State, step: Step)
    requires Inv(s) && Enabled(s, step) && IsReply(step)
    ensures InvPlaced(ApplyReply(s, step))
  {
    hide InvIds, InvDistinct, InvPending, InvWaiters, InvSlots, InvReach, InvOutcomes, InvLock, InvQueue;
  }

  lemma OtherKeepsPlaced(s: State, step: Step)
    requires Inv(s) && Enabled(s, step) && !IsRequest(step) && !IsReply(step)
    ensures InvPlaced(ApplyOther(s, step))
  {
    hide InvIds, InvDistinct, InvWaiters, InvSlots, InvReach, InvOutcomes, InvLock, InvQueue;
  }

  lemma KeepPhase(s: State, step: Step)
    requires Inv(s) && Enabled(s, step)
    ensures InvPhase(Apply(s, step))
  {
    if IsRequest(step) {
      RequestKeepsPhase(s, step);
    } else if IsReply(step) {
      ReplyKeepsPhase(s, step);
    } else {
      OtherKeepsPhase(s, step);
    }
  }

  lemma RequestKeepsPhase(s: State, step: Step)
    requires Inv(s) && Enabled(s, step) && IsRequest(step)
    ensures InvPhase(ApplyRequest(s, step))
  {
    hide InvIds, InvDistinct, InvPending, InvWaiters, InvSlots, InvReach, InvOutcomes, InvPlaced, InvQueue;
  }

  lemma ReplyKeepsPhase(s: State, step: Step)
    requires Inv(s) && Enabled(s, step) && IsReply(step)
    ensures InvPhase(ApplyReply(s, step))
  {
    hide InvIds, InvDistinct, InvPending, InvWaiters, InvSlots, InvReach, InvOutcomes, InvPlaced, InvLock, InvQueue;
  }

  lemma OtherKeepsPhase(s: State, step: Step)
    requires Inv(s) && Enabled(s, step) && !IsRequest(step) && !IsReply(step)
    ensures InvPhase(ApplyOther(s, step))
  {
    hide InvIds, InvDistinct, InvPending, InvWaiters, InvSlots, InvReach, InvOutcomes, InvPlaced, InvLock, InvQueue;
  }

  lemma KeepLock(s: State, step: Step)
    requires Inv(s) && Enabled(s, step)
    ensures InvLock(Apply(s, step))
  {
    if IsRequest(step) {
      RequestKeepsLock(s, step);
    } else if IsReply(step) {
      ReplyKeepsLock(s, step);
    } else {
      OtherKeepsLock(s, step);
    }
  }

  lemma RequestKeepsLock(s: State, step: Step)
    requires Inv(s) && Enabled(s, step) && IsRequest(step)
    ensures InvLock(ApplyRequest(s, step))
  {
    hide InvIds, InvDistinct, InvPending, InvWaiters, InvSlots, InvReach, InvOutcomes, InvPlaced, InvQueue;
  }

  lemma ReplyKeepsLock(s: State, step: Step)
    requires Inv(s) && Enabled(s, step) && IsReply(step)
    ensures InvLock(ApplyReply(s, step))
  {
    hide InvIds, InvDistinct, InvPending, InvWaiters, InvSlots, InvReach, InvOutcomes, InvPlaced, InvQueue;
  }

  lemma OtherKeepsLock(s: State, step: Step)
    requires Inv(s) && Enabled(s, step) && !IsRequest(step) && !IsReply(step)
    ensures InvLock(ApplyOther(s, step))
  {
    hide InvIds, InvDistinct, InvPending, InvWaiters, InvSlots, InvReach, InvOutcomes, InvPlaced, InvQueue;
  }

  lemma KeepQueue(s: State, step: Step)
    requires Inv(s) && Enabled(s, step)
    ensures InvQueue(Apply(s, step))
  {
    if IsRequest(step) {
      RequestKeepsQueue(s, step);
    } else if IsReply(step) {
      ReplyKeepsQueue(s, step);
    } else {
      OtherKeepsQueue(s, step);
    }
  }

  lemma RequestKeepsQueue(s: State, step: Step)
    requires Inv(s) && Enabled(s, step) && IsRequest(step)
    ensures InvQueue(ApplyRequest(s, step))
  {
    hide InvIds, InvDistinct, InvPending, InvWaiters, InvSlots, InvReach, InvOutcomes, InvPlaced, InvLock;
  }

  lemma ReplyKeepsQueue(s: State, step: Step)
    requires Inv(s) && Enabled(s, step) && IsReply(step)
    ensures InvQueue(ApplyReply(s, step))
  {
    hide InvIds, InvDistinct, InvPending, InvWaiters, InvSlots, InvReach, InvOutcomes, InvPlaced, InvLock;
  }

  lemma OtherKeepsQueue(s: State, step: Step)
    requires Inv(s) && Enabled(s, step) && !IsRequest(step) && !IsReply(step)
    ensures InvQueue(ApplyOther(s, step))
  {
    hide InvIds, InvDistinct, InvPending, InvWaiters, InvSlots, InvReach, InvOutcomes, InvPlaced, InvLock;
  }

  lemma KeepAll(s: State, step: Step)
    requires Inv(s) && Enabled(s, step)
    ensures Inv(Apply(s, step))
  {
    hide InvIds, InvDistinct, InvPending, InvWaiters, InvSlots, InvReach, InvOutcomes, InvPlaced, InvPhase, InvLock,
      InvQueue, Apply;
    KeepIds(s, step);
    KeepDistinct(s, step);
    KeepPending(s, step);
    KeepWaiters(s, step);
    KeepSlots(s, step);
    KeepReach(s, step);
    KeepOutcomes(s, step);
    KeepPlaced(s, step);
    KeepPhase(s, step);
    KeepLock(s, step);
    KeepQueue(s, step);
  }
}
