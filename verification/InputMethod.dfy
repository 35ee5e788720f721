/**
 The coalescing worker of msys_sdk/ui_input_method.py: requests are queued from
 any thread, one worker at a time passes the latest of them on, and closing
 stops it. One step for each region that `_lock` makes atomic.
 */
module InputMethod {

  datatype Option<+T> = None | Some(value: T)

  datatype Request = Request(visible: bool, mode: nat)

  /** The mode that hide uses when nothing was requested before. */
  const DEFAULT_MODE := 0

  // ----- The locked regions -----

  datatype Binding = Binding(pending: Option<Request>, desired: Option<Request>, workerRunning: bool, closed: bool)

  const FRESH := Binding(None, None, false, false)

  datatype Decision = Ignored | Accepted(spawn: bool)

  /** _queue: a repeated request is dropped unless it is forced and nothing is under way. */
  function Enqueue(b: Binding, request: Request, force: bool): (Binding, Decision) {
    if b.desired == Some(request) && (!force || b.pending.Some? || b.workerRunning) then (b, Ignored)
    else (b.(desired := Some(request), pending := Some(request), workerRunning := true), Accepted(!b.workerRunning))
  }

  /** The top of the worker's loop. */
  function Fetch(b: Binding): (Binding, Option<Request>) {
    if b.pending == None || b.closed then (b.(pending := None, workerRunning := false), None)
    else (b.(pending := None), b.pending)
  }

  /** A failed call forgets the request, unless a newer one is waiting. */
  function Forget(b: Binding, request: Request): Binding {
    if b.desired == Some(request) && b.pending == None then b.(desired := None) else b
  }

  function CloseDown(b: Binding): Binding {
    var mode := if b.desired.Some? then b.desired.value.mode else DEFAULT_MODE;
    b.(pending := None, desired := Some(Request(false, mode)), closed := true)
  }

  /** The object itself: each method is one locked region. */
  class TkInputMethodBinding {
    var pending: Option<Request>
    var desired: Option<Request>
    var workerRunning: bool
    var closed: bool

    function View(): Binding
      reads this
    {
      Binding(pending, desired, workerRunning, closed)
    }

    constructor ()
      ensures View() == FRESH
    {
      pending, desired, workerRunning, closed := None, None, false, false;
    }

    method QueueRequest(visible: bool, mode: nat, force: bool) returns (decision: Decision)
      modifies this
      ensures (View(), decision) == Enqueue(old(View()), Request(visible, mode), force)
    {
      var request := Request(visible, mode);
      if desired == Some(request) {
        if !force || pending.Some? || workerRunning {
          return Ignored;
        }
      }
      desired := Some(request);
      pending := Some(request);
      if workerRunning {
        return Accepted(false);
      }
      workerRunning := true;
      return Accepted(true);
    }

    method FetchRequest() returns (request: Option<Request>)
      modifies this
      ensures (View(), request) == Fetch(old(View()))
    {
      request := pending;
      pending := None;
      if request == None || closed {
        workerRunning := false;
        return None;
      }
    }

    method CallFailed(request: Request)
      modifies this`desired
      ensures View() == Forget(old(View()), request)
    {
      if desired == Some(request) && pending == None {
        desired := None;
      }
    }

    /** True when the binding must still send a hide for the request it last showed. */
    method CloseBinding() returns (hide_: bool)
      modifies this
      ensures View() == CloseDown(old(View()))
      ensures hide_ <==> old(desired).Some? && old(desired).value.visible
    {
      var was := desired;
      pending := None;
      desired := Some(Request(false, if was.Some? then was.value.mode else DEFAULT_MODE));
      closed := true;
      return was.Some? && was.value.visible;
    }
  }

  // ----- Threads -----

  /** `Calling` holds the request that the role call carries. */
  datatype WorkerPc = Spawned | Top | Calling(request: Request) | Ended

  datatype Attempt = Attempt(request: Request, force: bool)

  /**
   The whole system: the attempts that passed the first check of `_closed`, the
   workers ever created, the accepted requests, the requests that the started
   calls carried, and how each finished call ended. `started` is history only: how
   many requests had been accepted before the newest one when each call started.
   */
  datatype State = State(
    binding: Binding,
    attempts: map<nat, Attempt>,
    workers: map<nat, WorkerPc>,
    accepted: seq<Request>,
    calls: seq<Request>,
    started: seq<int>,
    results: seq<bool>)

  const INITIAL := State(FRESH, map[], map[], [], [], [], [])

  datatype Step =
    | QueueCheck(thread: nat, attempt: Attempt)
    | QueueLocked(thread: nat, worker: nat)
    | WorkerStart(worker: nat)
    | WorkerFetch(worker: nat)
    | WorkerDone(worker: nat, ok: bool)
    | CloseLocked

  predicate Enabled(s: State, step: Step) {
    match step
    case QueueCheck(thread, _) => thread !in s.attempts && !s.binding.closed
    case QueueLocked(thread, worker) => thread in s.attempts && worker !in s.workers
    case WorkerStart(worker) => worker in s.workers && s.workers[worker] == Spawned
    case WorkerFetch(worker) => worker in s.workers && s.workers[worker] == Top
    case WorkerDone(worker, _) => worker in s.workers && s.workers[worker].Calling?
    case CloseLocked => true
  }

  function Apply(s: State, step: Step): State
    requires Enabled(s, step)
  {
    match step
    case QueueCheck(thread, attempt) => s.(attempts := s.attempts[thread := attempt])
    case QueueLocked(thread, worker) =>
      var a := s.attempts[thread];
      var (binding, decision) := Enqueue(s.binding, a.request, a.force);
      var t := s.(binding := binding, attempts := s.attempts - {thread});
      if decision == Ignored then t
      else t.(accepted := s.accepted + [a.request],
              workers := if decision.spawn then s.workers[worker := Spawned] else s.workers)
    case WorkerStart(worker) => s.(workers := s.workers[worker := Top])
    case WorkerFetch(worker) =>
      var (binding, request) := Fetch(s.binding);
      if request == None then s.(binding := binding, workers := s.workers[worker := Ended])
      else s.(binding := binding, workers := s.workers[worker := Calling(request.value)],
              calls := s.calls + [request.value], started := s.started + [|s.accepted| - 1])
    case WorkerDone(worker, ok) =>
      s.(binding := if ok then s.binding else Forget(s.binding, s.workers[worker].request),
         workers := s.workers[worker := Top], results := s.results + [ok])
    case CloseLocked => s.(binding := CloseDown(s.binding))
  }

  // ----- Invariants -----

  predicate Live(s: State, worker: nat) {
    worker in s.workers && s.workers[worker] != Ended
  }

  /** At most one worker lives, exactly while the flag says so; a waiting request always has one. */
  ghost predicate InvWorkers(s: State) {
    && (forall v, w :: Live(s, v) && Live(s, w) ==> v == w)
    && (s.binding.workerRunning <==> exists w :: Live(s, w))
    && (s.binding.pending.Some? ==> s.binding.workerRunning)
  }

  function Last<T>(s: seq<T>): T
    requires s != []
  {
    s[|s| - 1]
  }

  /** Each call carries an accepted request, and later calls carry later ones. */
  ghost predicate InvStarted(s: State) {
    && |s.calls| == |s.started|
    && (forall k :: 0 <= k < |s.calls| ==> 0 <= s.started[k] < |s.accepted| && s.calls[k] == s.accepted[s.started[k]])
    && (forall k, l :: 0 <= k < l < |s.started| ==> s.started[k] < s.started[l])
  }

  /**
   The waiting request is the newest one and was not called yet; an open binding with none
   waiting has called the newest.
   */
  ghost predicate InvNewest(s: State) {
    && (s.binding.pending.Some? ==>
          && s.accepted != [] && s.binding.pending.value == Last(s.accepted)
          && (s.started != [] ==> Last(s.started) < |s.accepted| - 1))
    && (s.binding.pending == None && s.accepted != [] && !s.binding.closed ==>
          s.started != [] && Last(s.started) == |s.accepted| - 1)
  }

  predicate CallingNow(s: State, worker: nat) {
    worker in s.workers && s.workers[worker].Calling?
  }

  /** Every started call but the one under way has a result. */
  ghost predicate InvCalls(s: State) {
    && |s.results| <= |s.calls| <= |s.results| + 1
    && (forall w :: CallingNow(s, w) ==> |s.calls| == |s.results| + 1 && s.workers[w].request == Last(s.calls))
    && (|s.calls| == |s.results| + 1 ==> exists w :: CallingNow(s, w))
  }

  /** What `_desired` remembers before the binding is closed. */
  ghost predicate InvDesired(s: State) {
    !s.binding.closed ==>
      s.binding.desired ==
        if s.accepted == [] then None
        else if s.binding.pending == None && |s.results| == |s.calls| && s.results != [] && !Last(s.results) then None
        else Some(Last(s.accepted))
  }

  ghost predicate Inv(s: State) {
    InvWorkers(s) && InvStarted(s) && InvNewest(s) && InvCalls(s) && InvDesired(s)
  }

  lemma KeepWorkers(s: State, step: Step)
    requires InvWorkers(s) && Enabled(s, step)
    ensures InvWorkers(Apply(s, step))
  {
    hide InvWorkers, Live;
    if step.QueueLocked? {
      QueueKeepsWorkers(s, step);
    } else if step.WorkerStart? || step.WorkerFetch? || step.WorkerDone? {
      WorkerKeepsWorkers(s, step);
    } else {
      OtherKeepsWorkers(s, step);
    }
  }

  lemma QueueKeepsWorkers(s: State, step: Step)
    requires InvWorkers(s) && Enabled(s, step) && step.QueueLocked?
    ensures InvWorkers(Apply(s, step))
  {
    var t := Apply(s, step);
    if t.workers == s.workers {
      assert forall v :: Live(t, v) <==> Live(s, v);
    } else {
      assert Live(t, step.worker);
      assert forall v :: Live(t, v) && v != step.worker ==> Live(s, v);
    }
  }

  lemma WorkerKeepsWorkers(s: State, step: Step)
    requires InvWorkers(s) && Enabled(s, step) && (step.WorkerStart? || step.WorkerFetch? || step.WorkerDone?)
    ensures InvWorkers(Apply(s, step))
  {
    var t := Apply(s, step);
    assert Live(s, step.worker);
    assert forall v :: Live(t, v) ==> v == step.worker by {
      assert forall v :: Live(t, v) && v != step.worker ==> Live(s, v);
    }
    assert Live(t, step.worker) <==> t.binding.workerRunning;
  }

  lemma OtherKeepsWorkers(s: State, step: Step)
    requires InvWorkers(s) && Enabled(s, step) && (step.QueueCheck? || step.CloseLocked?)
    ensures InvWorkers(Apply(s, step))
  {
    assert forall v :: Live(Apply(s, step), v) <==> Live(s, v);
  }

  lemma KeepStarted(s: State, step: Step)
    requires InvStarted(s) && InvNewest(s) && Enabled(s, step)
    ensures InvStarted(Apply(s, step))
  {
    if step.WorkerFetch? {
      FetchKeepsStarted(s, step.worker);
    } else {
      hide InvNewest;
    }
  }

  lemma FetchKeepsStarted(s: State, worker: nat)
    requires InvStarted(s) && InvNewest(s) && Enabled(s, WorkerFetch(worker))
    ensures InvStarted(Apply(s, WorkerFetch(worker)))
  {
    var t := Apply(s, WorkerFetch(worker));
    if t.calls != s.calls {
      NotCalledYet(s);
      hide InvNewest;
      assert t.started == s.started + [|s.accepted| - 1] && t.calls == s.calls + [Last(s.accepted)] &&
        t.accepted == s.accepted;
    }
  }

  lemma KeepNewest(s: State, step: Step)
    requires InvStarted(s) && InvNewest(s) && Enabled(s, step)
    ensures InvNewest(Apply(s, step))
  {
  }

  /** Only a live worker is inside a call. */
  lemma CallerLives(s: State)
    ensures forall w :: CallingNow(s, w) ==> Live(s, w)
  {
  }

  lemma KeepCalls(s: State, step: Step)
    requires InvWorkers(s) && InvCalls(s) && Enabled(s, step)
    ensures InvCalls(Apply(s, step))
  {
    CallerLives(s);
    if step.WorkerFetch? {
      FetchKeepsCalls(s, step.worker);
    } else if step.WorkerDone? {
      DoneKeepsCalls(s, step);
    } else {
      hide InvWorkers;
      assert forall v :: CallingNow(s, v) <==> CallingNow(Apply(s, step), v);
    }
  }

  lemma FetchKeepsCalls(s: State, worker: nat)
    requires InvWorkers(s) && InvCalls(s) && Enabled(s, WorkerFetch(worker))
    ensures InvCalls(Apply(s, WorkerFetch(worker)))
  {
    var t := Apply(s, WorkerFetch(worker));
    CallerLives(s);
    assert Live(s, worker) && !CallingNow(s, worker);
    assert forall v :: !CallingNow(s, v);
    assert forall v :: CallingNow(t, v) ==> v == worker;
    if t.calls != s.calls {
      assert CallingNow(t, worker);
    }
  }

  lemma DoneKeepsCalls(s: State, step: Step)
    requires InvWorkers(s) && InvCalls(s) && Enabled(s, step) && step.WorkerDone?
    ensures InvCalls(Apply(s, step))
  {
    var t := Apply(s, step);
    CallerLives(s);
    assert CallingNow(s, step.worker) && Live(s, step.worker);
    assert forall v :: CallingNow(t, v) ==> v != step.worker && CallingNow(s, v);
  }

  lemma KeepDesired(s: State, step: Step)
    requires InvStarted(s) && InvNewest(s) && InvCalls(s) && InvDesired(s) && Enabled(s, step)
    ensures InvDesired(Apply(s, step))
  {
    if step.WorkerDone? {
      assert CallingNow(s, step.worker);
    }
  }

  lemma StepKeeps(s: State, step: Step)
    requires Inv(s) && Enabled(s, step)
    ensures Inv(Apply(s, step))
  {
    hide InvWorkers, InvStarted, InvNewest, InvCalls, InvDesired, Apply, Enabled;
    KeepWorkers(s, step);
    KeepStarted(s, step);
    KeepNewest(s, step);
    KeepCalls(s, step);
    KeepDesired(s, step);
  }

  // ----- Runs -----

  ghost predicate Run(trace: seq<State>, steps: seq<Step>) {
    && |trace| == |steps| + 1 && trace[0] == INITIAL
    && forall i :: 0 <= i < |steps| ==> Enabled(trace[i], steps[i]) && trace[i + 1] == Apply(trace[i], steps[i])
  }

  lemma {:induction false} RunInvariant(trace: seq<State>, steps: seq<Step>, i: nat)
    requires Run(trace, steps) && i < |trace|
    ensures Inv(trace[i])
    decreases i
  {
    if i > 0 {
      RunInvariant(trace, steps, i - 1);
      StepKeeps(trace[i - 1], steps[i - 1]);
    }
  }

  /**
   In every state of every run, before and after closing, two live workers are the same one, and
   a waiting request has one.
   */
  lemma OneWorkerNoLostWakeup(trace: seq<State>, steps: seq<Step>, i: nat)
    requires Run(trace, steps) && i < |trace|
    ensures forall v, w :: Live(trace[i], v) && Live(trace[i], w) ==> v == w
    ensures trace[i].binding.pending.Some? ==> exists w :: Live(trace[i], w)
    ensures trace[i].binding.pending.Some? ==>
      trace[i].accepted != [] && trace[i].binding.pending.value == Last(trace[i].accepted)
  {
    RunInvariant(trace, steps, i);
  }

  /** What the started calls carried is a subsequence of the accepted requests, and the call under way is its end. */
  lemma CallsAreSubsequence(trace: seq<State>, steps: seq<Step>, i: nat)
    requires Run(trace, steps) && i < |trace|
    ensures |trace[i].calls| == |trace[i].started|
    ensures forall k :: 0 <= k < |trace[i].calls| ==>
      && 0 <= trace[i].started[k] < |trace[i].accepted|
      && trace[i].calls[k] == trace[i].accepted[trace[i].started[k]]
    ensures forall k, l :: 0 <= k < l < |trace[i].started| ==> trace[i].started[k] < trace[i].started[l]
    ensures forall w :: CallingNow(trace[i], w) ==>
      trace[i].calls != [] && trace[i].workers[w].request == Last(trace[i].calls)
  {
    RunInvariant(trace, steps, i);
  }

  /**
   Whenever the worker of an open binding is idle, the last call that was
   started carried the last accepted request, and `_desired` is that request if
   the call succeeded and nothing if it failed.
   */
  lemma LastRequestWins(trace: seq<State>, steps: seq<Step>, i: nat)
    requires Run(trace, steps) && i < |trace| && !trace[i].binding.closed && !trace[i].binding.workerRunning
    ensures var s := trace[i];
      && s.binding.pending == None
      && (s.accepted == [] ==> s.binding.desired == None && s.calls == [])
      && (s.accepted != [] ==>
            && s.calls != [] && Last(s.calls) == Last(s.accepted)
            && s.started != [] && Last(s.started) == |s.accepted| - 1
            && |s.results| == |s.calls|
            && s.binding.desired == if Last(s.results) then Some(Last(s.accepted)) else None)
  {
    RunInvariant(trace, steps, i);
    hide Run;
    CallerLives(trace[i]);
  }

  lemma StepAfterClose(s: State, step: Step)
    requires Enabled(s, step) && s.binding.closed
    ensures Apply(s, step).binding.closed && Apply(s, step).calls == s.calls
  {
  }

  /** Once the binding is closed no further call is started. */
  lemma {:induction false} ClosedIsFinal(trace: seq<State>, steps: seq<Step>, i: nat, j: nat)
    requires Run(trace, steps) && i <= j < |trace| && trace[i].binding.closed
    ensures trace[j].binding.closed && trace[j].calls == trace[i].calls
    decreases j - i
  {
    if i < j {
      ClosedIsFinal(trace, steps, i, j - 1);
      StepAfterClose(trace[j - 1], steps[j - 1]);
    }
  }

  /**
   In every run, a worker at the top of its loop with a request waiting calls the newest accepted
   request, which no call has carried yet.
   */
  lemma NewestIsCalledNext(trace: seq<State>, steps: seq<Step>, i: nat, worker: nat)
    requires Run(trace, steps) && i < |trace| && !trace[i].binding.closed && trace[i].binding.pending.Some?
    requires Enabled(trace[i], WorkerFetch(worker))
    ensures var s := trace[i];
      var t := Apply(s, WorkerFetch(worker));
      && s.accepted != [] && t.workers[worker] == Calling(Last(s.accepted)) && t.calls == s.calls + [Last(s.accepted)]
      && forall k :: 0 <= k < |s.started| ==> s.started[k] < |s.accepted| - 1
  {
    RunInvariant(trace, steps, i);
    hide Run;
    NotCalledYet(trace[i]);
  }

  lemma NotCalledYet(s: State)
    requires InvStarted(s) && InvNewest(s) && s.binding.pending.Some?
    ensures forall k :: 0 <= k < |s.started| ==> s.started[k] < |s.accepted| - 1
  {
    forall k | 0 <= k < |s.started|
      ensures s.started[k] < |s.accepted| - 1
    {
      assert s.started[k] <= Last(s.started);
    }
  }
}
