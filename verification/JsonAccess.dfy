/** The field accessors of src/mipc.c: msys_mipc_json_get_raw, _get_string and _get_u64. */
module JsonAccess {
  import opened Bytes
  import opened JsonGrammar
  import opened JsonScanner
  import opened JsonLookup
  import Utf8

  datatype Status = Success | NotFound | InvalidArgument | BufferTooSmall | InvalidJson | TooLarge | IoError

  /** What a successful lookup leaves to decode, or the status that ends the call. */
  datatype Field<+T> = Failed(status: Status) | Value(value: T)

  function Raw(s: Bytes, key: Bytes): (f: Field<Bytes>)
    ensures f.Value? ==> f.value != []
  {
    match FindValue(s, key)
    case BadArgument => Failed(InvalidArgument)
    case BadJson => Failed(InvalidJson)
    case Missing => Failed(NotFound)
    case Span(b, e) => Value(s[b..e])
  }

  method GetRaw(s: Bytes, key: Bytes) returns (status: Status, begin: nat, length: nat)
    requires CString(s) && CString(key)
    ensures match Raw(s, key)
      case Failed(r) => status == r && length == 0
      case Value(t) => status == Success && begin + length <= |s| && s[begin..begin + length] == t
  {
    begin, length := 0, 0;
    var found := FindTopLevelValue(s, key);
    match found {
      case BadArgument => status := InvalidArgument;
      case BadJson => status := InvalidJson;
      case Missing => status := NotFound;
      case Span(b, e) => status, begin, length := Success, b, e - b;
    }
  }

  // ----- Decoding a string -----

  function Quad(a: int, b: int, c: int, d: int): (v: int)
    ensures v >= 0 ==> HexValue(a) >= 0 && HexValue(b) >= 0 && HexValue(c) >= 0 && HexValue(d) >= 0
    ensures -1 <= v <= 0xFFFF
  {
    if HexValue(a) < 0 || HexValue(b) < 0 || HexValue(c) < 0 || HexValue(d) < 0 then -1
    else ((HexValue(a) * 16 + HexValue(b)) * 16 + HexValue(c)) * 16 + HexValue(d)
  }

  predicate IsHigh(v: int) {
    0xD800 <= v <= 0xDBFF
  }

  predicate IsLow(v: int) {
    0xDC00 <= v <= 0xDFFF
  }

  function Combine(high: int, low: int): (c: int)
    requires IsHigh(high) && IsLow(low)
    ensures 0x10000 <= c < 0x110000
  {
    0x10000 + (high - 0xD800) * 0x400 + (low - 0xDC00)
  }

  /** One turn of the decoder: how much text it consumes and the bytes it produces. */
  datatype Chunk = Chunk(consumed: nat, bytes: Bytes)

  /** The code point of the escape whose four digits start at `i`, or -1. */
  function QuadAt(t: Bytes, i: nat): (v: int)
    ensures -1 <= v <= 0xFFFF
    ensures v >= 0 ==> i + 4 <= |t|
  {
    if i + 4 > |t| then -1 else Quad(t[i], t[i + 1], t[i + 2], t[i + 3])
  }

  /** A \u escape at the start of `t`, with the second half of a surrogate pair. */
  function DecodeUnicode(t: Bytes): (c: Option<Chunk>)
    requires |t| >= 2
    ensures c.Some? ==> 1 <= |c.value.bytes| <= c.value.consumed <= |t|
  {
    var v := QuadAt(t, 2);
    if v < 0 then None
    else if IsHigh(v) then
      if |t| < 12 || t[6] != BACKSLASH || t[7] != LOWER_U || !IsLow(QuadAt(t, 8)) then None
      else Some(Chunk(12, Utf8.Encode(Combine(v, QuadAt(t, 8)))))
    else if IsLow(v) then None
    else Some(Chunk(6, Utf8.Encode(v)))
  }

  function DecodeOne(t: Bytes): (c: Option<Chunk>)
    requires t != []
    ensures c.Some? ==> 1 <= |c.value.bytes| <= c.value.consumed <= |t|
  {
    if t[0] != BACKSLASH then Some(Chunk(1, [t[0]]))
    else if |t| == 1 then None
    else if t[1] == LOWER_U then DecodeUnicode(t)
    else
      match Unescape(t[1])
      case None => None
      case Some(b) => Some(Chunk(2, [b]))
  }

  function Prepend(a: Bytes, d: Option<Bytes>): Option<Bytes> {
    match d
    case None => None
    case Some(b) => Some(a + b)
  }

  lemma PrependTwice(a: Bytes, b: Bytes, d: Option<Bytes>)
    ensures Prepend(a, Prepend(b, d)) == Prepend(a + b, d)
  {
    if d.Some? {
      assert a + (b + d.value) == (a + b) + d.value;
    }
  }

  /** The string that the text between the quotes denotes. */
  function DecodeText(t: Bytes): (d: Option<Bytes>)
    ensures d.Some? ==> |d.value| <= |t|
  {
    if t == [] then Some([])
    else
      match DecodeOne(t)
      case None => None
      case Some(c) => Prepend(c.bytes, DecodeText(t[c.consumed..]))
  }

  /** The bytes produced before the text ends or the decoder refuses it. */
  function DecodedBefore(t: Bytes): Bytes {
    if t == [] || DecodeOne(t) == None then []
    else DecodeOne(t).value.bytes + DecodedBefore(t[DecodeOne(t).value.consumed..])
  }

  lemma {:induction false} DecodedWhole(t: Bytes)
    requires DecodeText(t).Some?
    ensures DecodeText(t).value == DecodedBefore(t)
    decreases t
  {
    hide DecodeOne;
    if t != [] {
      DecodedWhole(t[DecodeOne(t).value.consumed..]);
    }
  }

  predicate QuotedText(t: Bytes) {
    |t| >= 2 && t[0] == QUOTE && t[|t| - 1] == QUOTE
  }

  /** What get_string has decoded when it fails; nothing before the value is found to be a string. */
  function Partial(s: Bytes, key: Bytes): Bytes {
    match Raw(s, key)
    case Failed(_) => []
    case Value(t) => if QuotedText(t) then DecodedBefore(t[1..|t| - 1]) else []
  }

  function StringField(s: Bytes, key: Bytes): Field<Bytes> {
    match Raw(s, key)
    case Failed(status) => Failed(status)
    case Value(t) =>
      if !QuotedText(t) then Failed(InvalidJson)
      else
        match DecodeText(t[1..|t| - 1])
        case None => Failed(InvalidJson)
        case Some(d) => Value(d)
  }

  // ----- The decoder loop and its bounded buffer -----

  /** A buffer that received `out` but always keeps room for the terminator. */
  function Filled(base: Bytes, out: Bytes): (b: Bytes)
    requires base != []
    ensures |b| == |base|
  {
    var m := Min(|out|, |base| - 1);
    out[..m] + base[m..]
  }

  method StoreBytes(buffer: array<byte>, written: nat, bytes: Bytes, ghost base: Bytes, ghost out: Bytes)
    requires buffer.Length == |base| > 0 && |out| == written && buffer[..] == Filled(base, out)
    modifies buffer
    ensures buffer[..] == Filled(base, out + bytes)
  {
    var index := 0;
    assert out + bytes[..0] == out;
    while index < |bytes|
      invariant 0 <= index <= |bytes|
      invariant buffer[..] == Filled(base, out + bytes[..index])
    {
      if written + index + 1 < buffer.Length {
        buffer[written + index] := bytes[index];
      }
      assert out + bytes[..index + 1] == (out + bytes[..index]) + [bytes[index]];
      index := index + 1;
    }
    assert bytes[..|bytes|] == bytes;
  }

  lemma NothingFilled(base: Bytes)
    requires base != []
    ensures Filled(base, []) == base
  {
  }

  /**
   The decoder's loop over the text between the quotes, one turn at a time. On a
   text that it refuses the buffer keeps what was decoded before, without a terminator.
   */
  method DecodeInto(t: Bytes, buffer: array<byte>) returns (valid: bool, written: nat)
    requires buffer.Length > 0
    modifies buffer
    ensures valid <==> DecodeText(t).Some?
    ensures valid ==> written == |DecodeText(t).value|
    ensures buffer[..] == Filled(old(buffer[..]), DecodedBefore(t))
  {
    hide DecodeOne, Filled;
    ghost var base := buffer[..];
    ghost var out: Bytes := [];
    var cursor := 0;
    written, valid := 0, true;
    assert t[0..] == t;
    assert forall d: Bytes :: [] + d == d;
    NothingFilled(base);
    while cursor < |t|
      invariant 0 <= cursor <= |t|
      invariant written == |out| && buffer[..] == Filled(base, out)
      invariant DecodeText(t) == Prepend(out, DecodeText(t[cursor..]))
      invariant DecodedBefore(t) == out + DecodedBefore(t[cursor..])
      decreases |t| - cursor
    {
      var chunk := DecodeOne(t[cursor..]);
      if chunk == None {
        assert out + [] == out;
        return false, 0;
      }
      var c := chunk.value;
      assert t[cursor..][c.consumed..] == t[cursor + c.consumed..];
      PrependTwice(out, c.bytes, DecodeText(t[cursor + c.consumed..]));
      assert out + (c.bytes + DecodedBefore(t[cursor + c.consumed..])) ==
        out + c.bytes + DecodedBefore(t[cursor + c.consumed..]);
      StoreBytes(buffer, written, c.bytes, base, out);
      out := out + c.bytes;
      written := written + |c.bytes|;
      cursor := cursor + c.consumed;
    }
    assert t[cursor..] == [];
    assert out + [] == out;
  }

  /** The buffer after a decoded string was stored and terminated. */
  function Terminated(old_: Bytes, out: Bytes): Bytes
    requires old_ != []
  {
    var m := Min(|out|, |old_| - 1);
    out[..m] + [NUL] + old_[m + 1..]
  }

  lemma FilledTerminated(old_: Bytes, out: Bytes)
    requires old_ != []
    ensures Filled(old_[0 := NUL], out)[Min(|out|, |old_| - 1) := NUL] == Terminated(old_, out)
  {
  }

  method GetString(s: Bytes, key: Bytes, buffer: array<byte>) returns (status: Status, length: nat)
    requires CString(s) && CString(key)
    modifies buffer
    ensures buffer.Length == 0 ==> status == InvalidArgument && length == 0
    ensures buffer.Length > 0 ==>
      match StringField(s, key)
      case Failed(r) => status == r && length == 0 && buffer[..] == Filled(old(buffer[..])[0 := NUL], Partial(s, key))
      case Value(d) =>
        && length == |d|
        && status == (if |d| >= buffer.Length then BufferTooSmall else Success)
        && buffer[..] == Terminated(old(buffer[..]), d)
  {
    hide Filled, Terminated, DecodeText, DecodedBefore, FindValue;
    length := 0;
    if buffer.Length == 0 {
      return InvalidArgument, 0;
    }
    buffer[0] := NUL;
    NothingFilled(buffer[..]);
    var result, begin, span := GetRaw(s, key);
    if result != Success {
      return result, 0;
    }
    var t := s[begin..begin + span];
    if t[0] != QUOTE || span < 2 || t[span - 1] != QUOTE {
      return InvalidJson, 0;
    }
    var valid, written := DecodeInto(t[1..span - 1], buffer);
    if !valid {
      return InvalidJson, 0;
    }
    length := written;
    DecodedWhole(t[1..span - 1]);
    FilledTerminated(old(buffer[..]), DecodeText(t[1..span - 1]).value);
    if written >= buffer.Length {
      buffer[buffer.Length - 1] := NUL;
      status := BufferTooSmall;
    } else {
      buffer[written] := NUL;
      status := Success;
    }
  }
}
