/**
 The dispatcher and termination protocol of msys_sdk/client.py as a transition
 system: one reader, any number of callers and closers, one event consumer, and
 one step for each region that a lock makes atomic. The region that registers a
 call takes two steps: it reads `_closed` under `_pending_lock`, while the flag is
 set under another lock, so a client can be closed between the test and the
 insertion.
 */
module Dispatcher {

  datatype Option<+T> = None | Some(value: T)

  datatype ErrorKind = ConnectionClosed | Shutdown | ProtocolError

  datatype Error = Error(kind: ErrorKind, text: nat)

  /** A record from the wire; `reply` says that its type is return or error and its id an integer. */
  datatype Record = Record(reply: bool, id: int, body: nat)

  /** What a private one-slot waiter can hold. */
  datatype Item = Reply(record: Record) | Failure(error: Error)

  /** What _terminate leaves for the event consumer. */
  datatype Notice = Eof | ShutdownMessage(text: nat) | Raise(error: Error)

  datatype Event = Message(record: Record) | Terminal(notice: Notice)

  type CallId = nat

  // ----- The shared fields and the locked regions that change them -----

  /** The fields of a client; a call's waiter is named by the call. */
  datatype Client = Client(
    nextId: nat,
    pending: map<int, CallId>,
    waiters: map<CallId, Option<Item>>,
    events: seq<Event>,
    closed: bool,
    callError: Option<Error>,
    recvError: Option<Error>)

  const FRESH := Client(1, map[], map[], [], false, None, None)

  /** call: the next id and a new waiter, put into the table. */
  function Insert(c: Client, call: CallId): Client {
    c.(nextId := c.nextId + 1, pending := c.pending[c.nextId := call], waiters := c.waiters[call := None])
  }

  /** call: the whole region under `_pending_lock`, when nobody closes the client meanwhile. */
  function Register(c: Client, call: CallId): (Client, Option<int>) {
    if c.closed then (c, None) else (Insert(c, call), Some(c.nextId))
  }

  /** put_nowait on a one-slot queue. */
  function Put(waiters: map<CallId, Option<Item>>, call: CallId, item: Item): map<CallId, Option<Item>> {
    if call in waiters && waiters[call] == None then waiters[call := Some(item)] else waiters
  }

  predicate Accepts(c: Client, r: Record) {
    r.reply && r.id in c.pending && c.pending[r.id] in c.waiters && c.waiters[c.pending[r.id]] == None
  }

  /** _dispatch_message: the delivery under `_pending_lock`; false sends the record to the event queue. */
  function Deliver(c: Client, r: Record): (Client, bool) {
    if Accepts(c, r) then (c.(waiters := Put(c.waiters, c.pending[r.id], Reply(r))), true) else (c, false)
  }

  function Enqueue(c: Client, e: Event): Client {
    c.(events := c.events + [e])
  }

  /** _terminate under `_terminal_lock`: only the first caller changes anything. */
  function MarkClosed(c: Client, callError: Error, recvError: Option<Error>): (Client, bool) {
    if c.closed then (c, false)
    else (c.(closed := true, callError := Some(callError), recvError := recvError), true)
  }

  predicate Registered(c: Client, id: int, call: CallId) {
    id in c.pending && c.pending[id] == call
  }

  predicate IsPending(c: Client, call: CallId) {
    exists id | id in c.pending :: Registered(c, id, call)
  }

  /** _terminate under `_pending_lock`: every pending waiter that is still empty gets the failure. */
  function Sweep(c: Client, failure: Error): Client {
    c.(pending := map[],
       waiters := map call | call in c.waiters ::
         if c.waiters[call] == None && IsPending(c, call) then Some(Failure(failure)) else c.waiters[call])
  }

  /** The finally clause of call, under `_pending_lock`. */
  function Unregister(c: Client, id: int, call: CallId): Client {
    if Registered(c, id, call) then c.(pending := c.pending - {id}) else c
  }

  /** waiter.get on a full waiter. */
  function Take(c: Client, call: CallId): Client {
    c.(waiters := c.waiters[call := None])
  }

  /** The re-check after a timeout, under `_pending_lock`: the item wins over the timeout. */
  function Recheck(c: Client, id: int, call: CallId): (Client, Option<Item>)
    requires call in c.waiters
  {
    if c.waiters[call].Some? then (Take(c, call), c.waiters[call]) else (Unregister(c, id, call), None)
  }

  // ----- Threads -----

  datatype Outcome = Returned(record: Record) | Raised(error: Error) | TimedOut | TooLarge

  /** Where a thread stands inside `call`. */
  datatype CallPc =
    | Starting
    | Registering
    | Refused
    | Sending
    | Breaking(error: Error)
    | Closing(error: Error)
    | Waiting
    | Expired
    | Leaving(outcome: Outcome)
    | Done(outcome: Outcome)

  /** A call: its position, the id it was given, and every item ever put into its waiter. */
  datatype Call = Call(pc: CallPc, id: int, placed: seq<Item>)

  datatype ReaderPc =
    | LoopTop
    | Reading
    | Holding(record: Record)
    | Enqueuing(record: Record)
    | Stopping(callError: Error, notice: Notice)
    | Ended

  /** How far the one successful _terminate has come. */
  datatype Phase = Open | Marked(notice: Notice) | Swept(notice: Notice) | Posted(notice: Notice, index: nat)

  datatype ConsumerPc = Idle | Blocking | Polling

  datatype Destination = ToWaiter(call: CallId) | ToEvents

  datatype Route = Route(record: Record, destination: Destination)

  /**
   The whole system. `lock` is the call that holds `_pending_lock` between its
   test of `_closed` and its insertion. `log` holds the non-terminal records in the order they were
   read, `routed` where each of them went, and `posted` every event ever queued,
   of which the consumer has taken the first `taken`.
   */
  datatype State = State(
    client: Client,
    lock: Option<CallId>,
    reader: ReaderPc,
    calls: map<CallId, Call>,
    phase: Phase,
    consumer: ConsumerPc,
    log: seq<Record>,
    routed: seq<Route>,
    posted: seq<Event>,
    taken: nat)

  const INITIAL := State(FRESH, None, LoopTop, map[], Open, Idle, [], [], [], 0)

  datatype Step =
    | CallStart(call: CallId)
    | CallCheck(call: CallId)
    | CallInsert(call: CallId)
    | CallRefused(call: CallId)
    | SendOk(call: CallId)
    | SendTooLarge(call: CallId)
    | SendClosed(call: CallId)
    | SendBroken(call: CallId, error: Error)
    | CallMark(call: CallId)
    | CallClosed(call: CallId)
    | Get(call: CallId)
    | Expire(call: CallId)
    | ReGet(call: CallId)
    | Unregistered(call: CallId)
    | ReaderLoop
    | Read(record: Record)
    | ReadStop(callError: Error, notice: Notice)
    | ReadFailed
    | Dispatch
    | QueueRecord
    | ReaderMark
    | Close(error: Error)
    | SweepPending
    | PostNotice
    | ConsumerCheck
    | ConsumerTake
    | ConsumerGiveUp

  predicate At(s: State, call: CallId, pc: CallPc) {
    call in s.calls && s.calls[call].pc == pc
  }

  function Move(s: State, call: CallId, pc: CallPc): State
    requires call in s.calls
  {
    s.(calls := s.calls[call := s.calls[call].(pc := pc)])
  }

  /** The three ways _reader_loop ends: end of file, a shutdown record, or an error. */
  predicate StopsWith(error: Error, notice: Notice) {
    match notice
    case Eof => error.kind == ConnectionClosed
    case ShutdownMessage(text) => error == Error(Shutdown, text)
    case Raise(e) => e == error
  }

  /** Guards: what the code has established before it takes a step. */
  predicate Enabled(s: State, step: Step) {
    match step
    case CallStart(call) => call !in s.calls
    case CallCheck(call) => At(s, call, Starting) && s.lock == None
    case CallInsert(call) => At(s, call, Registering) && s.lock == Some(call)
    case CallRefused(call) => At(s, call, Refused) && s.client.callError.Some?
    case SendOk(call) => At(s, call, Sending)
    case SendTooLarge(call) => At(s, call, Sending)
    case SendClosed(call) => At(s, call, Sending) && s.client.closed && s.client.callError.Some?
    case SendBroken(call, _) => At(s, call, Sending) && !s.client.closed
    case CallMark(call) => call in s.calls && s.calls[call].pc.Breaking?
    case CallClosed(call) => call in s.calls && s.calls[call].pc.Closing? && s.phase.Posted?
    case Get(call) => At(s, call, Waiting) && call in s.client.waiters && s.client.waiters[call].Some?
    case Expire(call) => At(s, call, Waiting) && call in s.client.waiters && s.client.waiters[call] == None
    case ReGet(call) => At(s, call, Expired) && call in s.client.waiters && s.lock == None
    case Unregistered(call) => call in s.calls && s.calls[call].pc.Leaving? && s.lock == None
    case ReaderLoop => s.reader == LoopTop
    case Read(_) => s.reader == Reading
    case ReadStop(error, notice) => s.reader == Reading && StopsWith(error, notice)
    case ReadFailed => s.reader == Reading && s.client.closed
    case Dispatch => s.reader.Holding? && (s.reader.record.reply ==> s.lock == None)
    case QueueRecord => s.reader.Enqueuing?
    case ReaderMark => s.reader.Stopping?
    case Close(error) => error.kind == ConnectionClosed
    case SweepPending => s.phase.Marked? && s.client.callError.Some? && s.lock == None
    case PostNotice => s.phase.Swept?
    case ConsumerCheck => s.consumer == Idle
    case ConsumerTake => s.consumer != Idle && s.client.events != []
    case ConsumerGiveUp => s.consumer != Idle && s.client.events == []
  }

  function Resolve(item: Item): Outcome {
    match item
    case Reply(r) => Returned(r)
    case Failure(e) => Raised(e)
  }

  /** The thread's own error, put into the protocol: the first one closes the client. */
  function Mark(s: State, error: Error, notice: Notice): State {
    var (client, first) := MarkClosed(s.client, error, if notice.Raise? then Some(notice.error) else None);
    if first then s.(client := client, phase := Marked(notice)) else s
  }

  function Place(s: State, call: CallId, item: Item): State {
    if call in s.calls then s.(calls := s.calls[call := s.calls[call].(placed := s.calls[call].placed + [item])]) else s
  }

  function Post(s: State, e: Event): State {
    s.(client := Enqueue(s.client, e), posted := s.posted + [e])
  }

  /** Every waiter that the sweep fills records the failure. */
  function AfterSweep(s: State, failure: Error): map<CallId, Call> {
    map call | call in s.calls ::
      if call in s.client.waiters && s.client.waiters[call] == None && IsPending(s.client, call)
      then s.calls[call].(placed := s.calls[call].placed + [Failure(failure)])
      else s.calls[call]
  }

  /** A call up to its send. */
  function ApplyRequest(s: State, step: Step): State
    requires Enabled(s, step)
  {
    match step
    case CallStart(call) => s.(calls := s.calls[call := Call(Starting, 0, [])])
    case CallCheck(call) =>
      if s.client.closed then Move(s, call, Refused) else Move(s.(lock := Some(call)), call, Registering)
    case CallInsert(call) =>
      s.(client := Insert(s.client, call), lock := None, calls := s.calls[call := Call(Sending, s.client.nextId, [])])
    case CallRefused(call) => Move(s, call, Done(Raised(s.client.callError.value)))
    case SendOk(call) => Move(s, call, Waiting)
    case SendTooLarge(call) => Move(s, call, Leaving(TooLarge))
    case SendClosed(call) => Move(s, call, Leaving(Raised(s.client.callError.value)))
    case SendBroken(call, error) => Move(s, call, Breaking(error))
    case _ => s
  }

  /** A call from its send to its end. */
  function ApplyReply(s: State, step: Step): State
    requires Enabled(s, step)
  {
    match step
    case CallMark(call) =>
      var error := s.calls[call].pc.error;
      if s.client.closed then Move(s, call, Leaving(Raised(error)))
      else Mark(Move(s, call, Closing(error)), error, Raise(error))
    case CallClosed(call) => Move(s, call, Leaving(Raised(s.calls[call].pc.error)))
    case Get(call) => Move(s.(client := Take(s.client, call)), call, Leaving(Resolve(s.client.waiters[call].value)))
    case Expire(call) => Move(s, call, Expired)
    case ReGet(call) =>
      var (client, item) := Recheck(s.client, s.calls[call].id, call);
      Move(s.(client := client), call, Leaving(if item == None then TimedOut else Resolve(item.value)))
    case Unregistered(call) =>
      Move(s.(client := Unregister(s.client, s.calls[call].id, call)), call, Done(s.calls[call].pc.outcome))
    case _ => s
  }

  /** The reader, the closers, the termination and the consumer. */
  function ApplyOther(s: State, step: Step): State
    requires Enabled(s, step)
  {
    match step
    case ReaderLoop => s.(reader := if s.client.closed then Ended else Reading)
    case Read(r) => s.(reader := Holding(r), log := s.log + [r])
    case ReadStop(error, notice) => s.(reader := Stopping(error, notice))
    case ReadFailed => s.(reader := Ended)
    case Dispatch =>
      var r := s.reader.record;
      var (client, delivered) := Deliver(s.client, r);
      if delivered then
        var call := s.client.pending[r.id];
        Place(s.(client := client, reader := LoopTop, routed := s.routed + [Route(r, ToWaiter(call))]), call, Reply(r))
      else s.(reader := Enqueuing(r))
    case QueueRecord =>
      var r := s.reader.record;
      Post(s.(reader := LoopTop, routed := s.routed + [Route(r, ToEvents)]), Message(r))
    case ReaderMark => Mark(s.(reader := Ended), s.reader.callError, s.reader.notice)
    case Close(error) => Mark(s, error, Eof)
    case SweepPending =>
      var failure := s.client.callError.value;
      s.(client := Sweep(s.client, failure), calls := AfterSweep(s, failure), phase := Swept(s.phase.notice))
    case PostNotice => Post(s.(phase := Posted(s.phase.notice, |s.posted|)), Terminal(s.phase.notice))
    case ConsumerCheck => s.(consumer := if s.client.closed then Polling else Blocking)
    case ConsumerTake => s.(consumer := Idle, client := s.client.(events := s.client.events[1..]), taken := s.taken + 1)
    case ConsumerGiveUp => s.(consumer := Idle)
    case _ => s
  }

  predicate IsRequest(step: Step) {
    step.CallStart? || step.CallCheck? || step.CallInsert? || step.CallRefused? || step.SendOk? || step.SendTooLarge? ||
    step.SendClosed? || step.SendBroken?
  }

  predicate IsReply(step: Step) {
    step.CallMark? || step.CallClosed? || step.Get? || step.Expire? || step.ReGet? || step.Unregistered?
  }

  function Apply(s: State, step: Step): State
    requires Enabled(s, step)
  {
    if IsRequest(step) then ApplyRequest(s, step)
    else if IsReply(step) then ApplyReply(s, step)
    else ApplyOther(s, step)
  }
}
