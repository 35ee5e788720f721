/** escaped_json_string of src/mipc.c: a measuring pass, then a writing pass. */
module JsonEscape {
  import opened Bytes
  import opened JsonGrammar
  import opened JsonLookup
  import opened JsonAccess
  import opened JsonStrings

  const MAX_PACKET := 256 * 1024

  function EscapeLetter(b: byte): (letter: byte)
    ensures letter != NUL ==> SimpleEscape(letter) && Unescape(letter) == Some(b)
  {
    if b == QUOTE || b == BACKSLASH then b
    else if b == 8 then 98
    else if b == 12 then 102
    else if b == LF then 110
    else if b == CR then 114
    else if b == TAB then 116
    else NUL
  }

  /** The unit that stands for one byte of the input. */
  function EscapeUnit(b: byte): (u: Unit)
    ensures b != NUL ==> UnitOk(u)
  {
    if EscapeLetter(b) != NUL then Escape(EscapeLetter(b))
    else if b < 32 then Hex(ZERO, ZERO, HexDigit(b / 16), HexDigit(b % 16))
    else Plain(b)
  }

  function EscapeUnits(input: Bytes): (us: seq<Unit>)
    ensures |us| == |input|
    ensures forall k :: 0 <= k < |us| ==> us[k] == EscapeUnit(input[k])
  {
    seq(|input|, k requires 0 <= k < |input| => EscapeUnit(input[k]))
  }

  function EscapeText(input: Bytes): Bytes {
    UnitsText(EscapeUnits(input))
  }

  lemma {:induction false} UnitsTextConcat(a: seq<Unit>, b: seq<Unit>)
    ensures UnitsText(a + b) == UnitsText(a) + UnitsText(b)
    decreases a
  {
    if a == [] {
      assert a + b == b;
    } else {
      assert (a + b)[1..] == a[1..] + b;
      UnitsTextConcat(a[1..], b);
    }
  }

  lemma EscapeNext(input: Bytes, k: nat)
    requires k < |input|
    ensures EscapeText(input[..k + 1]) == EscapeText(input[..k]) + UnitText(EscapeUnit(input[k]))
  {
    assert EscapeUnits(input[..k + 1]) == EscapeUnits(input[..k]) + [EscapeUnit(input[k])];
    UnitsTextConcat(EscapeUnits(input[..k]), [EscapeUnit(input[k])]);
    assert UnitsText([EscapeUnit(input[k])]) == UnitText(EscapeUnit(input[k])) + [];
  }

  lemma EscapeGrows(input: Bytes, k: nat)
    requires k <= |input|
    ensures |EscapeText(input[..k])| <= |EscapeText(input)|
  {
    assert EscapeUnits(input) == EscapeUnits(input[..k]) + EscapeUnits(input[k..]);
    UnitsTextConcat(EscapeUnits(input[..k]), EscapeUnits(input[k..]));
  }

  lemma {:induction false} EscapeLonger(input: Bytes, k: nat)
    requires k <= |input|
    ensures |EscapeText(input[..k])| >= k
    decreases k
  {
    if k > 0 {
      EscapeLonger(input, k - 1);
      EscapeNext(input, k - 1);
    }
  }

  /** The measuring pass, which stops as soon as the packet limit is passed. */
  method MeasureEscaped(input: Bytes) returns (fits: bool, length: nat)
    requires CString(input)
    ensures fits <==> |EscapeText(input)| <= MAX_PACKET
    ensures fits ==> length == |EscapeText(input)|
  {
    length := 0;
    var index := 0;
    assert EscapeText(input[..0]) == [];
    while index < |input|
      invariant 0 <= index <= |input|
      invariant length == |EscapeText(input[..index])| <= MAX_PACKET
    {
      var b := input[index];
      var addition := 1;
      if b == QUOTE || b == BACKSLASH || b == 8 || b == 12 || b == LF || b == CR || b == TAB {
        addition := 2;
      } else if b < 32 {
        addition := 6;
      }
      EscapeNext(input, index);
      if length > MAX_PACKET - addition {
        EscapeGrows(input, index + 1);
        return false, 0;
      }
      length := length + addition;
      index := index + 1;
    }
    assert input[..|input|] == input;
    return true, length;
  }

  /** The writing pass's switch: the spelling of one byte goes to the cursor. */
  method WriteEscape(output: array<byte>, start: nat, b: byte) returns (cursor: nat)
    requires b != NUL && start + |UnitText(EscapeUnit(b))| <= output.Length
    modifies output
    ensures cursor == start + |UnitText(EscapeUnit(b))|
    ensures output[..cursor] == old(output[..start]) + UnitText(EscapeUnit(b))
  {
    cursor := start;
    var letter := EscapeLetter(b);
    if letter != NUL {
      output[cursor] := BACKSLASH;
      output[cursor + 1] := letter;
      cursor := cursor + 2;
    } else if b < 32 {
      output[cursor] := BACKSLASH;
      output[cursor + 1] := LOWER_U;
      output[cursor + 2] := ZERO;
      output[cursor + 3] := ZERO;
      output[cursor + 4] := HexDigit(b / 16);
      output[cursor + 5] := HexDigit(b % 16);
      cursor := cursor + 6;
    } else {
      output[cursor] := b;
      cursor := cursor + 1;
    }
  }

  /** The string is escaped exactly when its spelling fits a packet; the buffer then holds it and the terminator. */
  method EscapedJsonString(input: Bytes) returns (status: Status, output: array<byte>)
    requires CString(input)
    ensures fresh(output)
    ensures status == if |EscapeText(input)| <= MAX_PACKET then Success else TooLarge
    ensures status == Success ==> output[..] == EscapeText(input) + [NUL]
  {
    output := new byte[0];
    if |input| > MAX_PACKET {
      EscapeLonger(input, |input|);
      assert input[..|input|] == input;
      return TooLarge, output;
    }
    var fits, length := MeasureEscaped(input);
    if !fits {
      return TooLarge, output;
    }
    output := new byte[length + 1];
    var cursor, index := 0, 0;
    assert EscapeText(input[..0]) == [];
    while index < |input|
      invariant 0 <= index <= |input| && 0 <= cursor <= length && output.Length == length + 1 && fresh(output)
      invariant output[..cursor] == EscapeText(input[..index])
    {
      EscapeNext(input, index);
      EscapeGrows(input, index + 1);
      cursor := WriteEscape(output, cursor, input[index]);
      index := index + 1;
    }
    assert input[..|input|] == input;
    output[cursor] := NUL;
    status := Success;
  }

  // ----- Escaping and decoding undo each other -----

  lemma EscapeUnitsOk(input: Bytes)
    requires CString(input)
    ensures UnitsOk(EscapeUnits(input)) && Paired(EscapeUnits(input))
  {
    var us := EscapeUnits(input);
    forall k | 0 <= k < |us|
      ensures UnitOk(us[k]) && !HighUnit(us[k]) && !LowUnit(us[k])
    {
      assert us[k] == EscapeUnit(input[k]);
    }
  }

  lemma EscapeUnitBytes(input: Bytes, k: nat)
    requires CString(input) && k < |input|
    requires UnitsOk(EscapeUnits(input)) && Paired(EscapeUnits(input))
    ensures UnitBytes(EscapeUnits(input), k) == [input[k]]
  {
    var b := input[k];
    assert EscapeUnits(input)[k] == EscapeUnit(b);
    assert !Unpaired(EscapeUnits(input), k);
    if EscapeLetter(b) == NUL && b < 32 {
      assert Quad(ZERO, ZERO, HexDigit(b / 16), HexDigit(b % 16)) == b;
    }
  }

  lemma {:induction false} EscapeDenotes(input: Bytes, k: nat)
    requires CString(input) && k <= |input|
    requires UnitsOk(EscapeUnits(input)) && Paired(EscapeUnits(input))
    ensures Denoted(EscapeUnits(input), k) == input[k..]
    decreases |input| - k
  {
    hide UnitBytes, EscapeUnit, Unpaired, UnitOk;
    if k < |input| {
      EscapeDenotes(input, k + 1);
      EscapeUnitBytes(input, k);
      assert input[k..] == [input[k]] + input[k + 1..];
    }
  }

  /** Decoding the escaped text of any C string gives the string back. */
  lemma EscapeRoundTrip(input: Bytes)
    requires CString(input)
    ensures DecodeText(EscapeText(input)) == Some(input)
  {
    EscapeUnitsOk(input);
    DecodeExact(EscapeUnits(input));
    EscapeDenotes(input, 0);
  }
}
