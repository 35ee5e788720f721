/** Line framing of msys_sdk/stdio_bridge.py: the child's JSON lines become socket packets. */
module Bridge {
  import opened Bytes
  import JsonEscape

  const MAX_RECORD := JsonEscape.MAX_PACKET

  datatype Fault = NotTerminated | EmptyRecord | RecordTooLarge | NotAnObject

  datatype Checked = Accepted(record: Bytes) | Rejected(fault: Fault)

  /** Whether a record parses as a JSON object is left to the caller. */
  type Parser = Bytes -> bool

  function StripCr(line: Bytes): Bytes {
    if line != [] && line[|line| - 1] == CR then line[..|line| - 1] else line
  }

  /** _validated_record. */
  function Validated(line: Bytes, isObject: Parser): Checked {
    if line == [] || line[|line| - 1] != LF then Rejected(NotTerminated)
    else
      var record := StripCr(line[..|line| - 1]);
      if record == [] then Rejected(EmptyRecord)
      else if |record| > MAX_RECORD then Rejected(RecordTooLarge)
      else if !isObject(record) then Rejected(NotAnObject)
      else Accepted(record)
  }

  /** stream.readline(size): up to a line feed, the end, or `size` bytes. */
  function ReadLine(stream: Bytes, size: nat): (line: Bytes)
    ensures |line| <= size && line <= stream
    ensures line == [] <==> stream == [] || size == 0
  {
    if size == 0 || stream == [] then []
    else if stream[0] == LF then [LF]
    else [stream[0]] + ReadLine(stream[1..], size - 1)
  }

  method ReadLineFrom(stream: Bytes, from: nat, size: nat) returns (line: Bytes)
    requires from <= |stream|
    ensures line == ReadLine(stream[from..], size)
  {
    hide ReadLine;
    line := [];
    var i := from;
    ghost var whole := ReadLine(stream[from..], size);
    assert [] + whole == whole;
    while |line| < size && i < |stream|
      invariant from <= i <= |stream| && |line| <= size
      invariant line + ReadLine(stream[i..], size - |line|) == whole
    {
      ReadStep(stream, i, size - |line|);
      MoveOne(line, stream[i], ReadLine(stream[i + 1..], size - |line| - 1));
      line := line + [stream[i]];
      i := i + 1;
      if stream[i - 1] == LF {
        return;
      }
    }
    NothingRead(stream[i..], size - |line|);
    assert line + [] == line;
  }

  lemma MoveOne(line: Bytes, b: byte, rest: Bytes)
    ensures line + ([b] + rest) == line + [b] + rest
  {
  }

  lemma NothingRead(stream: Bytes, size: nat)
    ensures stream == [] || size == 0 ==> ReadLine(stream, size) == []
  {
  }

  lemma ReadStep(stream: Bytes, i: nat, size: nat)
    requires i < |stream| && size > 0
    ensures ReadLine(stream[i..], size) ==
            if stream[i] == LF then [LF] else [stream[i]] + ReadLine(stream[i + 1..], size - 1)
  {
    assert stream[i..][1..] == stream[i + 1..];
  }

  datatype End = Stopped | ChildEof | ChildOutput(fault: Fault) | SendFailed

  datatype Pumped = Pumped(packets: seq<Bytes>, end: End)

  /** How a turn of the pump goes on after sending a record. */
  function Sent(record: Bytes, rest: Pumped): Pumped {
    Pumped([record] + rest.packets, rest.end)
  }

  /**
   _child_to_socket on the bytes that the child writes before it closes its
   output. `turns` is how often the loop finds that it was not stopped, and
   `sends` how many packets the socket takes before it fails.
   */
  function Pump(stream: Bytes, isObject: Parser, turns: nat, sends: nat): Pumped
    decreases turns
  {
    if turns == 0 then Pumped([], Stopped)
    else if stream == [] then Pumped([], ChildEof)
    else
      var line := ReadLine(stream, MAX_RECORD + 2);
      match Validated(line, isObject)
      case Rejected(fault) => Pumped([], ChildOutput(fault))
      case Accepted(record) =>
        if sends == 0 then Pumped([], SendFailed)
        else Sent(record, Pump(stream[|line|..], isObject, turns - 1, sends - 1))
  }

  /** One turn of the pump. */
  lemma PumpTurn(stream: Bytes, isObject: Parser, turns: nat, sends: nat)
    requires turns > 0
    ensures var line := ReadLine(stream, MAX_RECORD + 2);
      var checked := Validated(line, isObject);
      && |line| <= |stream|
      && Pump(stream, isObject, turns, sends) ==
         if line == [] then Pumped([], ChildEof)
         else if checked.Rejected? then Pumped([], ChildOutput(checked.fault))
         else if sends == 0 then Pumped([], SendFailed)
         else Sent(checked.record, Pump(stream[|line|..], isObject, turns - 1, sends - 1))
  {
    hide Validated, ReadLine;
    LineFits(stream);
  }

  lemma NoTurns(stream: Bytes, isObject: Parser, sends: nat)
    ensures Pump(stream, isObject, 0, sends) == Pumped([], Stopped)
  {
  }

  lemma SentOn(packets: seq<Bytes>, record: Bytes, rest: Pumped)
    ensures packets + Sent(record, rest).packets == packets + [record] + rest.packets &&
      Sent(record, rest).end == rest.end
  {
  }

  lemma NothingMore(packets: seq<Bytes>)
    ensures packets + [] == packets && [] + packets == packets
  {
  }

  method ChildToSocket(stream: Bytes, isObject: Parser, turns: nat, sends: nat) returns (packets: seq<Bytes>, end: End)
    ensures Pumped(packets, end) == Pump(stream, isObject, turns, sends)
  {
    hide *;
    packets := [];
    var cursor, turn, sent := 0, 0, 0;
    ghost var whole := Pump(stream, isObject, turns, sends);
    assert stream[0..] == stream;
    NothingMore(whole.packets);
    while turn < turns
      invariant 0 <= cursor <= |stream| && 0 <= turn <= turns && 0 <= sent <= sends
      invariant var rest := Pump(stream[cursor..], isObject, turns - turn, sends - sent);
        packets + rest.packets == whole.packets && rest.end == whole.end
    {
      PumpTurn(stream[cursor..], isObject, turns - turn, sends - sent);
      NothingMore(packets);
      var line := ReadLineFrom(stream, cursor, MAX_RECORD + 2);
      if line == [] {
        return packets, ChildEof;
      }
      var checked := Validated(line, isObject);
      if checked.Rejected? {
        return packets, ChildOutput(checked.fault);
      }
      if sent == sends {
        return packets, SendFailed;
      }
      assert stream[cursor..][|line|..] == stream[cursor + |line|..];
      SentOn(packets, checked.record, Pump(stream[cursor + |line|..], isObject, turns - turn - 1, sends - sent - 1));
      packets := packets + [checked.record];
      cursor := cursor + |line|;
      sent := sent + 1;
      turn := turn + 1;
    }
    NoTurns(stream[cursor..], isObject, sends - sent);
    NothingMore(packets);
    end := Stopped;
  }

  lemma LineFits(stream: Bytes)
    ensures var line := ReadLine(stream, MAX_RECORD + 2); |line| <= |stream| && (line == [] <==> stream == [])
  {
  }

  // ----- Lines of any length -----

  /** The length of the first line, without its line feed. */
  function LineEnd(stream: Bytes): (n: nat)
    ensures n <= |stream| && LF !in stream[..n] && (n < |stream| ==> stream[n] == LF)
  {
    if stream == [] || stream[0] == LF then 0 else 1 + LineEnd(stream[1..])
  }

  /** What a bounded read takes of a line of that length. */
  function Piece(stream: Bytes, n: nat, size: nat): Bytes
    requires n <= |stream|
  {
    if n < |stream| && n + 1 <= size then stream[..n + 1] else stream[..Min(n, size)]
  }

  lemma PieceIs(stream: Bytes, n: nat, size: nat)
    requires n <= |stream|
    ensures Piece(stream, n, size) == if n < |stream| && n + 1 <= size then stream[..n + 1] else stream[..Min(n, size)]
  {
  }

  lemma PieceStep(stream: Bytes, n: nat, size: nat)
    requires 0 < n <= |stream| && size > 0
    ensures Piece(stream, n, size) == [stream[0]] + Piece(stream[1..], n - 1, size - 1)
  {
    if n < |stream| && n + 1 <= size {
      assert stream[..n + 1] == [stream[0]] + stream[1..][..n];
    } else {
      assert stream[..Min(n, size)] == [stream[0]] + stream[1..][..Min(n, size) - 1];
    }
  }

  /** A bounded read gives the whole line where it fits, and otherwise a piece without a line feed. */
  lemma {:induction false} ReadLineIs(stream: Bytes, size: nat)
    ensures ReadLine(stream, size) == Piece(stream, LineEnd(stream), size)
    decreases size
  {
    if size > 0 && stream != [] && stream[0] != LF {
      ReadLineIs(stream[1..], size - 1);
      PieceStep(stream, LineEnd(stream), size);
      hide Piece;
    }
  }

  predicate GoodRecord(record: Bytes, isObject: Parser) {
    0 < |record| <= MAX_RECORD && isObject(record)
  }

  /**
   The bound on the read never matters for what is accepted: a line is accepted
   exactly when it ends in a line feed and what it holds, without a final
   carriage return, is a good record. So a longer line is rejected, not split.
   */
  lemma AcceptedExactly(stream: Bytes, isObject: Parser)
    ensures var n := LineEnd(stream);
      var line := ReadLine(stream, MAX_RECORD + 2);
      var record := StripCr(stream[..n]);
      && (Validated(line, isObject).Accepted? <==> n < |stream| && GoodRecord(record, isObject))
      && (Validated(line, isObject).Accepted? ==> Validated(line, isObject).record == record && line == stream[..n + 1])
  {
    hide ReadLine, LineEnd, GoodRecord, Validated, StripCr, Min, Piece;
    var n := LineEnd(stream);
    ReadLineIs(stream, MAX_RECORD + 2);
    PieceIs(stream, n, MAX_RECORD + 2);
    var line := ReadLine(stream, MAX_RECORD + 2);
    if n < |stream| && n + 1 <= MAX_RECORD + 2 {
      FitRead(stream, n, line, isObject);
    } else {
      CutRead(stream, n, line, isObject);
    }
  }

  lemma FitRead(stream: Bytes, n: nat, line: Bytes, isObject: Parser)
    requires n < |stream| && stream[n] == LF && line == stream[..n + 1]
    ensures var checked := Validated(line, isObject);
      && (checked.Accepted? <==> GoodRecord(StripCr(stream[..n]), isObject))
      && (checked.Accepted? ==> checked.record == StripCr(stream[..n]))
  {
    hide GoodRecord, Validated, StripCr;
    assert stream[..n + 1] == stream[..n] + [LF];
    WholeLine(stream[..n], isObject);
  }

  lemma CutRead(stream: Bytes, n: nat, line: Bytes, isObject: Parser)
    requires n <= |stream| && LF !in stream[..n] && !(n < |stream| && n + 1 <= MAX_RECORD + 2)
    requires line == stream[..Min(n, MAX_RECORD + 2)]
    ensures Validated(line, isObject).Rejected? && !(n < |stream| && GoodRecord(StripCr(stream[..n]), isObject))
  {
    var k := Min(n, MAX_RECORD + 2);
    hide GoodRecord, Validated, StripCr;
    CutLine(stream[..n], k, isObject);
    assert stream[..n][..k] == stream[..k];
    if n < |stream| {
      LongRecord(stream[..n], isObject);
    }
  }

  lemma WholeLine(text: Bytes, isObject: Parser)
    ensures var checked := Validated(text + [LF], isObject);
      && (checked.Accepted? <==> GoodRecord(StripCr(text), isObject))
      && (checked.Accepted? ==> checked.record == StripCr(text))
  {
    var line := text + [LF];
    assert line[..|line| - 1] == text;
  }

  lemma CutLine(text: Bytes, n: nat, isObject: Parser)
    requires LF !in text && n <= |text|
    ensures Validated(text[..n], isObject) == Rejected(NotTerminated)
  {
    assert n > 0 ==> text[..n][n - 1] in text;
  }

  lemma LongRecord(text: Bytes, isObject: Parser)
    requires |text| >= MAX_RECORD + 2
    ensures !GoodRecord(StripCr(text), isObject)
  {
  }

  // ----- Records on the wire -----

  function Terminator(carriage: bool): Bytes {
    if carriage then [CR, LF] else [LF]
  }

  /** Records one after the other, each with its own line ending. */
  function Wire(records: seq<Bytes>, carriages: seq<bool>): Bytes
    requires |records| == |carriages|
  {
    if records == [] then [] else records[0] + Terminator(carriages[0]) + Wire(records[1..], carriages[1..])
  }

  /** A record that a child may write on one line. */
  predicate Writable(record: Bytes, isObject: Parser) {
    GoodRecord(record, isObject) && LF !in record && record[|record| - 1] != CR
  }

  lemma {:induction false} LineEndAt(text: Bytes, rest: Bytes)
    requires LF !in text
    ensures LineEnd(text + [LF] + rest) == |text|
    decreases text
  {
    if text != [] {
      assert (text + [LF] + rest)[1..] == text[1..] + [LF] + rest;
      LineEndAt(text[1..], rest);
    }
  }

  lemma FirstRecord(record: Bytes, carriage: bool, rest: Bytes, isObject: Parser)
    requires Writable(record, isObject)
    ensures var stream := record + Terminator(carriage) + rest;
      var line := ReadLine(stream, MAX_RECORD + 2);
      && Validated(line, isObject) == Accepted(record)
      && |line| == |record + Terminator(carriage)| && stream[|line|..] == rest
  {
    var stream := record + Terminator(carriage) + rest;
    var text := if carriage then record + [CR] else record;
    assert stream == text + [LF] + rest;
    LineEndAt(text, rest);
    assert stream[..|text|] == text;
    assert StripCr(text) == record;
    AcceptedExactly(stream, isObject);
  }

  /** Records before the rest of what a run of the pump did. */
  function After(records: seq<Bytes>, rest: Pumped): Pumped {
    Pumped(records + rest.packets, rest.end)
  }

  lemma PumpFirst(record: Bytes, carriage: bool, rest: Bytes, isObject: Parser, turns: nat, sends: nat)
    requires Writable(record, isObject) && turns > 0 && sends > 0
    ensures Pump(record + Terminator(carriage) + rest, isObject, turns, sends) ==
            Sent(record, Pump(rest, isObject, turns - 1, sends - 1))
  {
    hide Validated, ReadLine, Writable, Terminator;
    FirstRecord(record, carriage, rest, isObject);
    LineFits(record + Terminator(carriage) + rest);
    NothingValid(isObject);
  }

  lemma NothingValid(isObject: Parser)
    ensures Validated([], isObject).Rejected?
  {
  }

  lemma WireFirst(records: seq<Bytes>, carriages: seq<bool>, rest: Bytes)
    requires |records| == |carriages| && records != []
    ensures Wire(records, carriages) + rest ==
            records[0] + Terminator(carriages[0]) + (Wire(records[1..], carriages[1..]) + rest)
  {
  }

  lemma SentAfter(records: seq<Bytes>, rest: Pumped)
    requires records != []
    ensures Sent(records[0], After(records[1..], rest)) == After(records, rest)
  {
    assert [records[0]] + (records[1..] + rest.packets) == records + rest.packets;
  }

  lemma NothingBefore(rest: Bytes, pumped: Pumped)
    ensures Wire([], []) + rest == rest && After([], pumped) == pumped
  {
    assert [] + rest == rest && [] + pumped.packets == pumped.packets;
  }

  /** The pump passes a run of writable records on and goes on with what follows them. */
  lemma {:induction false} PumpWire(records: seq<Bytes>, carriages: seq<bool>, rest: Bytes, isObject: Parser,
      turns: nat, sends: nat)
    requires |records| == |carriages| && turns >= |records| && sends >= |records|
    requires forall k :: 0 <= k < |records| ==> Writable(records[k], isObject)
    ensures Pump(Wire(records, carriages) + rest, isObject, turns, sends) ==
            After(records, Pump(rest, isObject, turns - |records|, sends - |records|))
    decreases records
  {
    hide *;
    if records == [] {
      NothingBefore(rest, Pump(rest, isObject, turns, sends));
    } else {
      PumpWire(records[1..], carriages[1..], rest, isObject, turns - 1, sends - 1);
      WireFirst(records, carriages, rest);
      PumpFirst(records[0], carriages[0], Wire(records[1..], carriages[1..]) + rest, isObject, turns, sends);
      SentAfter(records, Pump(rest, isObject, turns - |records|, sends - |records|));
    }
  }

  /** Whatever sequence of writable records a child writes arrives unchanged and in order. */
  lemma ForwardsAll(records: seq<Bytes>, carriages: seq<bool>, isObject: Parser, turns: nat, sends: nat)
    requires |records| == |carriages| && turns > |records| && sends >= |records|
    requires forall k :: 0 <= k < |records| ==> Writable(records[k], isObject)
    ensures Pump(Wire(records, carriages), isObject, turns, sends) == Pumped(records, ChildEof)
  {
    hide Wire, Writable;
    PumpWire(records, carriages, [], isObject, turns, sends);
    assert Wire(records, carriages) + [] == Wire(records, carriages) && records + [] == records;
  }

  lemma StripEither(text: Bytes) returns (carriage: bool)
    ensures text + [LF] == StripCr(text) + Terminator(carriage)
  {
    carriage := text != [] && text[|text| - 1] == CR;
  }

  lemma NoWire()
    ensures Wire([], []) == []
  {
  }

  lemma StripPrefix(text: Bytes)
    ensures StripCr(text) <= text
  {
  }

  lemma WireCons(record: Bytes, carriage: bool, others: seq<Bytes>, more: seq<bool>)
    requires |others| == |more|
    ensures Wire([record] + others, [carriage] + more) == record + Terminator(carriage) + Wire(others, more)
  {
    hide Terminator;
    assert ([record] + others)[1..] == others && ([carriage] + more)[1..] == more;
  }

  lemma SamePrefix(stream: Bytes, n: nat, rest: Bytes)
    requires n < |stream| && stream[n] == LF && rest <= stream[n + 1..]
    ensures stream[..n] + [LF] + rest <= stream
  {
    assert stream == stream[..n] + [LF] + stream[n + 1..];
  }

  lemma WirePrefix(stream: Bytes, n: nat, carriage: bool, others: seq<Bytes>, more: seq<bool>)
    requires n < |stream| && stream[n] == LF && |others| == |more| && Wire(others, more) <= stream[n + 1..]
    requires stream[..n] + [LF] == StripCr(stream[..n]) + Terminator(carriage)
    ensures Wire([StripCr(stream[..n])] + others, [carriage] + more) <= stream
  {
    hide *;
    WireCons(StripCr(stream[..n]), carriage, others, more);
    SamePrefix(stream, n, Wire(others, more));
  }

  /**
   On any output of the child, what was forwarded is a run of whole lines from
   its start: no packet holds a line feed, a part of a line, or two lines.
   */
  lemma {:induction false} ForwardsWholeLines(stream: Bytes, isObject: Parser, turns: nat, sends: nat)
    returns (carriages: seq<bool>)
    ensures var packets := Pump(stream, isObject, turns, sends).packets;
      && |carriages| == |packets| && Wire(packets, carriages) <= stream
      && forall k :: 0 <= k < |packets| ==> GoodRecord(packets[k], isObject) && LF !in packets[k]
    decreases turns
  {
    hide Validated, ReadLine, GoodRecord, StripCr, Wire;
    NoWire();
    carriages := [];
    if turns > 0 && stream != [] {
      AcceptedExactly(stream, isObject);
      LineFits(stream);
      var line := ReadLine(stream, MAX_RECORD + 2);
      var n := LineEnd(stream);
      hide LineEnd;
      if Validated(line, isObject).Accepted? && sends > 0 {
        var record := StripCr(stream[..n]);
        var rest := stream[n + 1..];
        var more := ForwardsWholeLines(rest, isObject, turns - 1, sends - 1);
        var carriage := StripEither(stream[..n]);
        carriages := [carriage] + more;
        var packets := Pump(stream, isObject, turns, sends).packets;
        var others := Pump(rest, isObject, turns - 1, sends - 1).packets;
        assert packets == [record] + others;
        WirePrefix(stream, n, carriage, others, more);
        StripPrefix(stream[..n]);
      }
    }
  }

  lemma TooLarge(text: Bytes, isObject: Parser)
    requires |StripCr(text)| > MAX_RECORD
    ensures Validated(text + [LF], isObject) == Rejected(RecordTooLarge)
  {
    var line := text + [LF];
    assert line[..|line| - 1] == text;
  }

  lemma StripOne(text: Bytes)
    ensures |text| - 1 <= |StripCr(text)| <= |text|
  {
  }

  /** What is wrong with a first line that is too long. */
  lemma OverlongLine(stream: Bytes, isObject: Parser)
    requires |StripCr(stream[..LineEnd(stream)])| > MAX_RECORD
    ensures Validated(ReadLine(stream, MAX_RECORD + 2), isObject) ==
            Rejected(if LineEnd(stream) == MAX_RECORD + 1 && |stream| > MAX_RECORD + 1 then RecordTooLarge
              else NotTerminated)
  {
    ReadLineIs(stream, MAX_RECORD + 2);
    var n := LineEnd(stream);
    StripOne(stream[..n]);
    hide ReadLine, LineEnd, Validated, StripCr;
    if n < |stream| && n + 1 <= MAX_RECORD + 2 {
      TooLarge(stream[..n], isObject);
      assert stream[..n + 1] == stream[..n] + [LF];
    } else {
      var k := Min(n, MAX_RECORD + 2);
      CutLine(stream[..n], k, isObject);
      assert stream[..n][..k] == stream[..k];
    }
  }

  /**
   A line that is too long, after any run of good ones, ends the pump with an
   error: the good ones were forwarded, and nothing of the long one is.
   */
  lemma OverlongRejected(records: seq<Bytes>, carriages: seq<bool>, bad: Bytes, isObject: Parser, turns: nat,
      sends: nat)
    requires |records| == |carriages| && turns > |records| && sends >= |records|
    requires forall k :: 0 <= k < |records| ==> Writable(records[k], isObject)
    requires |StripCr(bad[..LineEnd(bad)])| > MAX_RECORD
    ensures Pump(Wire(records, carriages) + bad, isObject, turns, sends) ==
            Pumped(records, ChildOutput(
              if LineEnd(bad) == MAX_RECORD + 1 && |bad| > MAX_RECORD + 1 then RecordTooLarge else NotTerminated))
  {
    hide Wire, Writable, Validated, ReadLine, StripCr, LineEnd;
    PumpWire(records, carriages, bad, isObject, turns, sends);
    OverlongLine(bad, isObject);
    SomeLine(bad);
    assert records + [] == records;
  }

  lemma SomeLine(stream: Bytes)
    requires |StripCr(stream[..LineEnd(stream)])| > MAX_RECORD
    ensures stream != []
  {
  }

  /** The same for any first line that is not a terminated good record. */
  lemma BadLineRejected(records: seq<Bytes>, carriages: seq<bool>, bad: Bytes, isObject: Parser, turns: nat, sends: nat)
    requires |records| == |carriages| && turns > |records| && sends >= |records|
    requires forall k :: 0 <= k < |records| ==> Writable(records[k], isObject)
    requires bad != [] && !(LineEnd(bad) < |bad| && GoodRecord(StripCr(bad[..LineEnd(bad)]), isObject))
    ensures var r := Pump(Wire(records, carriages) + bad, isObject, turns, sends);
      r.packets == records && r.end.ChildOutput?
  {
    hide Wire, Writable, Validated, ReadLine, StripCr, LineEnd, GoodRecord;
    PumpWire(records, carriages, bad, isObject, turns, sends);
    AcceptedExactly(bad, isObject);
    assert records + [] == records;
  }
}
