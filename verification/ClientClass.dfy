/**
 The client object of msys_sdk/client.py. Each method is one locked region, or
 a sequence of regions run without interference, and computes the function that
 the transition system of module Dispatcher takes as its step.
 */
module ClientClass {
  import opened Dispatcher

  /** What one read of the socket yields. */
  datatype Packet = Data(record: Record) | EndOfFile | ShutdownRecord(text: nat) | Bad(error: Error)

  /** The error and the notice with which the reader stops on a packet. */
  function StopOf(p: Packet): (Error, Notice)
    requires !p.Data?
  {
    match p
    case EndOfFile => (Error(ConnectionClosed, 0), Eof)
    case ShutdownRecord(text) => (Error(Shutdown, text), ShutdownMessage(text))
    case Bad(e) => (e, Raise(e))
  }

  function RecvError(notice: Notice): Option<Error> {
    if notice.Raise? then Some(notice.error) else None
  }

  /** _terminate without interference. */
  function Terminated(c: Client, error: Error, notice: Notice): Client {
    var (marked, first) := MarkClosed(c, error, RecvError(notice));
    if first then Enqueue(Sweep(marked, error), Terminal(notice)) else marked
  }

  predicate Names(pending: map<int, CallId>, id: int, call: CallId) {
    id in pending && pending[id] == call
  }

  /** The waiters after the failure was offered to those with an id below `n`. */
  function PutBelow(waiters: map<CallId, Option<Item>>, pending: map<int, CallId>, n: int, failure: Error):
      map<CallId, Option<Item>>
  {
    map call | call in waiters ::
      if waiters[call] == None && exists id | id in pending :: id < n && Names(pending, id, call)
      then Some(Failure(failure)) else waiters[call]
  }

  lemma PutNext(waiters: map<CallId, Option<Item>>, pending: map<int, CallId>, n: int, failure: Error)
    requires n in pending ==> pending[n] in waiters
    ensures PutBelow(waiters, pending, n + 1, failure) ==
            if n in pending then Put(PutBelow(waiters, pending, n, failure), pending[n], Failure(failure))
            else PutBelow(waiters, pending, n, failure)
  {
    if n in pending {
      assert Names(pending, n, pending[n]);
    }
    forall call | call in waiters && !(n in pending && call == pending[n])
      ensures PutBelow(waiters, pending, n + 1, failure)[call] == PutBelow(waiters, pending, n, failure)[call]
    {
      assert forall id | id in pending :: id < n + 1 && Names(pending, id, call) ==> id < n;
    }
  }

  lemma SweepIsPutBelow(c: Client, n: int, failure: Error)
    requires forall id :: id in c.pending ==> id < n
    ensures Sweep(c, failure) == c.(pending := map[], waiters := PutBelow(c.waiters, c.pending, n, failure))
  {
    forall call
      ensures IsPending(c, call) <==> exists id | id in c.pending :: id < n && Names(c.pending, id, call)
    {
      if id :| id in c.pending && Registered(c, id, call) {
        assert Names(c.pending, id, call);
      }
      if id :| id in c.pending && id < n && Names(c.pending, id, call) {
        assert Registered(c, id, call);
      }
    }
  }

  function Dispatched(c: Client, r: Record): Client {
    var (delivered, ok) := Deliver(c, r);
    if ok then delivered else Enqueue(c, Message(r))
  }

  /** _reader_loop without interference: every record up to the first packet that stops it. */
  function AfterReading(c: Client, wire: seq<Packet>): Client
    decreases |wire|
  {
    if c.closed || wire == [] then c
    else if wire[0].Data? then AfterReading(Dispatched(c, wire[0].record), wire[1..])
    else Terminated(c, StopOf(wire[0]).0, StopOf(wire[0]).1)
  }

  class MsysClient {
    var nextId: nat
    var pending: map<int, CallId>
    var waiters: map<CallId, Option<Item>>
    var events: seq<Event>
    var closed: bool
    var callError: Option<Error>
    var recvError: Option<Error>

    function View(): Client
      reads this
    {
      Client(nextId, pending, waiters, events, closed, callError, recvError)
    }

    constructor ()
      ensures View() == FRESH && Valid()
    {
      nextId, pending, waiters, events := 1, map[], map[], [];
      closed, callError, recvError := false, None, None;
    }

    method RegisterCall(call: CallId) returns (id: Option<int>)
      modifies this
      ensures (View(), id) == Register(old(View()), call)
      ensures old(Valid()) ==> Valid()
    {
      if closed {
        return None;
      }
      id := Some(nextId);
      nextId := nextId + 1;
      pending := pending[id.value := call];
      waiters := waiters[call := None];
    }

    method PutNowait(call: CallId, item: Item) returns (full: bool)
      requires call in waiters
      modifies this`waiters
      ensures full <==> old(waiters)[call].Some?
      ensures waiters == Put(old(waiters), call, item)
    {
      full := waiters[call].Some?;
      if !full {
        waiters := waiters[call := Some(item)];
      }
    }

    method DispatchMessage(r: Record)
      requires Valid()
      modifies this
      ensures View() == Dispatched(old(View()), r) && Valid()
    {
      if r.reply && r.id in pending {
        var full := PutNowait(pending[r.id], Reply(r));
        if !full {
          return;
        }
      }
      events := events + [Message(r)];
    }

    method MarkTerminal(error: Error, received: Option<Error>) returns (first: bool)
      modifies this
      ensures (View(), first) == MarkClosed(old(View()), error, received)
    {
      if closed {
        return false;
      }
      callError, recvError, closed := Some(error), received, true;
      return true;
    }

    /** Every pending id was given out by this client and names an existing waiter. */
    predicate Valid()
      reads this
    {
      forall id :: id in pending ==> 0 <= id < nextId && pending[id] in waiters
    }

    /** The table is cleared before its waiters are filled, in the order of their ids. */
    method SweepPending(failure: Error)
      requires Valid()
      modifies this`pending, this`waiters
      ensures View() == Sweep(old(View()), failure) && Valid()
    {
      var was := pending;
      ghost var before := waiters;
      pending := map[];
      var id := 0;
      assert waiters == PutBelow(before, was, 0, failure);
      while id < nextId
        invariant 0 <= id <= nextId && pending == map[]
        invariant waiters == PutBelow(before, was, id, failure)
      {
        PutNext(before, was, id, failure);
        if id in was {
          var _ := PutNowait(was[id], Failure(failure));
        }
        id := id + 1;
      }
      SweepIsPutBelow(old(View()), nextId, failure);
    }

    method Terminate(error: Error, notice: Notice) returns (first: bool)
      requires Valid()
      modifies this
      ensures first <==> !old(closed)
      ensures View() == Terminated(old(View()), error, notice) && Valid()
    {
      first := MarkTerminal(error, RecvError(notice));
      if first {
        SweepPending(error);
        events := events + [Terminal(notice)];
      }
    }

    method RecheckWaiter(id: int, call: CallId) returns (item: Option<Item>)
      requires call in waiters
      modifies this
      ensures (View(), item) == Recheck(old(View()), id, call)
      ensures old(Valid()) ==> Valid()
    {
      if waiters[call].Some? {
        item := waiters[call];
        waiters := waiters[call := None];
      } else {
        item := None;
        UnregisterCall(id, call);
      }
    }

    method UnregisterCall(id: int, call: CallId)
      modifies this`pending
      ensures View() == Unregister(old(View()), id, call)
      ensures old(Valid()) ==> Valid()
    {
      if id in pending && pending[id] == call {
        pending := pending - {id};
      }
    }

    method ReaderLoop(wire: seq<Packet>)
      requires Valid()
      modifies this
      ensures View() == AfterReading(old(View()), wire) && Valid()
    {
      var k := 0;
      assert wire[0..] == wire;
      while !closed && k < |wire|
        invariant 0 <= k <= |wire|
        invariant Valid()
        invariant AfterReading(View(), wire[k..]) == AfterReading(old(View()), wire)
      {
        assert wire[k..][1..] == wire[k + 1..];
        if !wire[k].Data? {
          var _ := Terminate(StopOf(wire[k]).0, StopOf(wire[k]).1);
          return;
        }
        DispatchMessage(wire[k].record);
        k := k + 1;
      }
    }
  }
}
