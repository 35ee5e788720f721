/** Rendering a template: `_render` of msys_sdk/i18n.py and msys_i18n_render of src/i18n.c. */
module Rendering {
  import opened Bytes
  import opened Template
  import opened Utf8
  import JsonIntegers

  predicate IsText(t: Text) {
    forall k :: 0 <= k < |t| ==> (0 <= t[k] < 0xD800 || 0xE000 <= t[k] < 0x110000)
  }

  // ----- Python -----

  const MIN_INTEGER := -9007199254740991
  const MAX_INTEGER := 9007199254740991

  /** A parameter value: a string, an integer that is not a bool, or anything else. */
  datatype Argument = Plain(text: Str) | Integer(value: int) | Other

  datatype Binding = Binding(name: Str, value: Argument)

  /** A Python dict has one binding for each name. */
  predicate Dict(params: seq<Binding>) {
    forall j, k :: 0 <= j < k < |params| ==> params[j].name != params[k].name
  }

  function Lookup(params: seq<Binding>, name: Text): Option<Argument> {
    if params == [] then None
    else if params[0].name == name then Some(params[0].value)
    else Lookup(params[1..], name)
  }

  /** str(n). */
  function Signed(n: int): Str {
    if n < 0 then [DASH] + JsonIntegers.DecimalText(-n) else JsonIntegers.DecimalText(n)
  }

  /** The text of an argument that can be rendered. */
  function ArgumentText(argument: Option<Argument>): Option<Str> {
    match argument
    case Some(Plain(text)) => Some(text)
    case Some(Integer(n)) => if MIN_INTEGER <= n <= MAX_INTEGER then Some(Signed(n)) else None
    case _ => None
  }

  function Visible(name: Text): Text {
    [LBRACE as int] + name + [RBRACE]
  }

  function FillSlot(params: seq<Binding>, name: Text): Text {
    match ArgumentText(Lookup(params, name))
    case Some(text) => text
    case None => Visible(name)
  }

  function FillPiece(params: seq<Binding>, piece: Piece): Text {
    match piece
    case Char(c) => [c]
    case Slot(name) => FillSlot(params, name)
  }

  function FillPieces(params: seq<Binding>, pieces: seq<Piece>): Text {
    if pieces == [] then [] else FillPiece(params, pieces[0]) + FillPieces(params, pieces[1..])
  }

  /** What a template renders to: itself when it is malformed. */
  function Rendered(template: Str, params: seq<Binding>): Text {
    var parsed := Scan(template, 0);
    if parsed.errors != [] then template else FillPieces(params, parsed.pieces)
  }

  datatype Problem =
    | InvalidTemplate(errors: seq<ParseError>)
    | MissingPlaceholder(name: Text)
    | InvalidValue(name: Text)

  predicate Fills(params: seq<Binding>, name: Text) {
    ArgumentText(Lookup(params, name)).Some?
  }

  function ProblemWith(params: seq<Binding>, name: Text): Problem {
    if Lookup(params, name) == None then MissingPlaceholder(name) else InvalidValue(name)
  }

  /** What is reported while filling the tokens: each unfilled name once. */
  function Unfilled(params: seq<Binding>, tokens: seq<Token>, reported: set<Text>): seq<Problem> {
    if tokens == [] then []
    else if tokens[0].Placeholder? && !Fills(params, tokens[0].name) && tokens[0].name !in reported then
      [ProblemWith(params, tokens[0].name)] + Unfilled(params, tokens[1..], reported + {tokens[0].name})
    else Unfilled(params, tokens[1..], reported)
  }

  function Problems(template: Str, params: seq<Binding>): seq<Problem> {
    var parsed := Scan(template, 0);
    if parsed.errors != [] then [InvalidTemplate(parsed.errors)] else Unfilled(params, Tokens(parsed.pieces), {})
  }

  lemma {:induction false} FillConcat(params: seq<Binding>, a: seq<Piece>, b: seq<Piece>)
    ensures FillPieces(params, a + b) == FillPieces(params, a) + FillPieces(params, b)
    decreases a
  {
    if a == [] {
      assert a + b == b;
    } else {
      assert (a + b)[1..] == a[1..] + b;
      FillConcat(params, a[1..], b);
    }
  }

  lemma {:induction false} FillChars(params: seq<Binding>, text: Text)
    ensures FillPieces(params, Chars(text)) == text
    decreases text
  {
    if text != [] {
      FillChars(params, text[1..]);
      assert [text[0]] + text[1..] == text;
    }
  }

  function TokenText(params: seq<Binding>, token: Token): Text {
    match token
    case Literal(text) => text
    case Placeholder(name) => FillSlot(params, name)
  }

  lemma FillToken(params: seq<Binding>, tokens: seq<Token>, i: nat)
    requires i < |tokens|
    ensures FillPieces(params, Pieces(tokens[..i + 1])) ==
            FillPieces(params, Pieces(tokens[..i])) + TokenText(params, tokens[i])
  {
    assert tokens[..i + 1] == tokens[..i] + [tokens[i]];
    PiecesConcat(tokens[..i], [tokens[i]]);
    FillConcat(params, Pieces(tokens[..i]), Pieces([tokens[i]]));
    TokenFilled(params, tokens[i]);
  }

  lemma TokenFilled(params: seq<Binding>, token: Token)
    ensures FillPieces(params, Pieces([token])) == TokenText(params, token)
  {
    assert [token][1..] == [];
    assert Pieces([token]) == TokenPieces(token);
    match token {
      case Literal(text) => FillChars(params, text);
      case Placeholder(name) =>
        assert [Slot(name)][1..] == [];
        assert FillPieces(params, [Slot(name)]) == FillSlot(params, name) + [];
    }
  }

  /** _render. The problems are the diagnostics it emits, in order. */
  method RenderTemplate(template: Str, params: seq<Binding>) returns (text: Text, problems: seq<Problem>)
    ensures text == Rendered(template, params)
    ensures problems == Problems(template, params)
  {
    hide Scan, Tokens, Pieces, FillPieces, FillSlot, Lookup, ArgumentText;
    var tokens, errors := ParseTemplate(template);
    if errors != [] {
      return template, [InvalidTemplate(errors)];
    }
    text, problems := [], [];
    var reported: set<Text> := {};
    var i := 0;
    assert Pieces(tokens[..0]) == [] && FillPieces(params, []) == [] by { StartFill(params, tokens); }
    assert tokens[0..] == tokens;
    while i < |tokens|
      invariant i <= |tokens|
      invariant text == FillPieces(params, Pieces(tokens[..i]))
      invariant problems + Unfilled(params, tokens[i..], reported) == Unfilled(params, tokens, {})
    {
      FillToken(params, tokens, i);
      assert tokens[i..][1..] == tokens[i + 1..];
      match tokens[i] {
        case Literal(literal) =>
          text := text + literal;
        case Placeholder(name) =>
          text := text + FillSlot(params, name);
          if !Fills(params, name) {
            if name !in reported {
              problems := problems + [ProblemWith(params, name)];
              reported := reported + {name};
            }
          }
      }
      i := i + 1;
    }
    assert tokens[..i] == tokens;
    TokensPieces(template);
  }

  lemma StartFill(params: seq<Binding>, tokens: seq<Token>)
    ensures Pieces(tokens[..0]) == [] && FillPieces(params, []) == []
  {
  }

  lemma TokensPieces(template: Text)
    ensures Pieces(Tokens(Scan(template, 0).pieces)) == Scan(template, 0).pieces
  {
    PrintScan(template, 0);
    TokensNormal(Scan(template, 0).pieces);
  }

  lemma {:induction false} NothingUnfilled(params: seq<Binding>, tokens: seq<Token>, reported: set<Text>)
    requires forall name :: name in reported ==> !Fills(params, name)
    ensures Unfilled(params, tokens, reported) == [] <==>
            forall token :: token in tokens && token.Placeholder? ==>
              Fills(params, token.name) || token.name in reported
    decreases tokens
  {
    hide Fills, ProblemWith;
    if tokens != [] {
      assert tokens == [tokens[0]] + tokens[1..];
      if tokens[0].Placeholder? && !Fills(params, tokens[0].name) && tokens[0].name !in reported {
        assert tokens[0] in tokens;
      } else {
        NothingUnfilled(params, tokens[1..], reported);
      }
    }
  }

  /**
   Nothing is reported exactly when the template is well-formed and each of its placeholders has
   a usable argument.
   */
  lemma NoProblemsExactly(template: Str, params: seq<Binding>)
    ensures var parsed := Scan(template, 0);
      Problems(template, params) == [] <==>
        && parsed.errors == []
        && forall token :: token in Tokens(parsed.pieces) && token.Placeholder? ==> Fills(params, token.name)
  {
    NothingUnfilled(params, Tokens(Scan(template, 0).pieces), {});
  }

  // ----- C -----

  datatype Param = Param(name: Option<Bytes>, value: Option<Bytes>)

  /** The first parameter with that name, passing over those without a name or a value. */
  function FirstParam(table: seq<Param>, name: Text): Option<Bytes> {
    if table == [] then None
    else if table[0].value.Some? && table[0].name == Some(name) then table[0].value
    else FirstParam(table[1..], name)
  }

  method FindParam(table: seq<Param>, name: Bytes) returns (value: Option<Bytes>)
    ensures value == FirstParam(table, name)
  {
    var index := 0;
    while index < |table|
      invariant 0 <= index <= |table|
      invariant FirstParam(table, name) == FirstParam(table[index..], name)
    {
      assert table[index..][1..] == table[index + 1..];
      if table[index].name.Some? && table[index].value.Some? && table[index].name.value == name {
        return table[index].value;
      }
      index := index + 1;
    }
    return None;
  }

  predicate BytePiece(piece: Piece) {
    if piece.Char? then 0 <= piece.code < 256 else ValidName(piece.name)
  }

  /** What a slot turns into: the value, or the slot itself. */
  function Replacement(name: Bytes, value: Option<Bytes>): Bytes {
    match value
    case Some(v) => v
    case None => [LBRACE] + name + [RBRACE]
  }

  function FillBytes(table: seq<Param>, piece: Piece): Bytes
    requires BytePiece(piece)
  {
    match piece
    case Char(c) => [c]
    case Slot(name) => Replacement(name, FirstParam(table, name))
  }

  /** The bytes appended up to the end or the first fault. */
  datatype Outcome = Outcome(text: Bytes, valid: bool)

  function RenderBytes(message: Bytes, table: seq<Param>): Outcome {
    if message == [] then Outcome([], true)
    else
      match TurnOf(message)
      case Fail(_, _) => Outcome([], false)
      case Step(n, piece) =>
        var rest := RenderBytes(message[n..], table);
        Outcome(FillBytes(table, piece) + rest.text, rest.valid)
  }

  /** How much of a text of this length a buffer takes beside the terminator. */
  function Taken(capacity: nat, length: nat): (k: nat)
    ensures k <= length && (capacity > 0 ==> k < capacity)
  {
    if capacity == 0 then 0 else Min(length, capacity - 1)
  }

  /** A buffer that held `was` after `text` was appended, before it is terminated. */
  function Overlay(was: Bytes, text: Bytes): (now: Bytes)
    ensures |now| == |was|
  {
    var k := Taken(|was|, |text|);
    text[..k] + was[k..]
  }

  /** The same buffer with its terminator. */
  function Delivered(was: Bytes, text: Bytes): (now: Bytes)
    ensures |now| == |was|
  {
    if was == [] then [] else
    var k := Taken(|was|, |text|);
    text[..k] + [0] + was[k + 1..]
  }

  method AppendBytes(output: array<byte>, length: nat, value: Bytes, ghost was: Bytes, ghost text: Bytes)
    returns (total: nat)
    requires |was| == output.Length && length == |text| && output[..] == Overlay(was, text)
    modifies output
    ensures output[..] == Overlay(was, text + value) && total == |text + value|
  {
    if output.Length > 0 && length < output.Length - 1 {
      var available := output.Length - 1 - length;
      var copied := if |value| < available then |value| else available;
      var i := 0;
      assert text + value[..0] == text;
      while i < copied
        invariant 0 <= i <= copied
        invariant output[..] == Overlay(was, text + value[..i])
      {
        output[length + i] := value[i];
        i := i + 1;
      }
      assert (text + value[..copied])[..length + copied] == (text + value)[..length + copied];
    } else {
      assert Taken(|was|, |text|) == Taken(|was|, |text + value|);
      assert (text + value)[..Taken(|was|, |text|)] == text[..Taken(|was|, |text|)];
    }
    total := length + |value|;
  }

  method AppendReplacement(output: array<byte>, length: nat, name: Bytes, value: Option<Bytes>, ghost was: Bytes,
      ghost text: Bytes)
    returns (total: nat)
    requires |was| == output.Length && length == |text| && output[..] == Overlay(was, text)
    modifies output
    ensures output[..] == Overlay(was, text + Replacement(name, value)) && total == |text + Replacement(name, value)|
  {
    hide Overlay;
    if value == None {
      var braced := AppendBytes(output, length, [LBRACE], was, text);
      var named := AppendBytes(output, braced, name, was, text + [LBRACE]);
      total := AppendBytes(output, named, [RBRACE], was, text + [LBRACE] + name);
      assert text + [LBRACE] + name + [RBRACE] == text + ([LBRACE] + name + [RBRACE]);
    } else {
      total := AppendBytes(output, length, value.value, was, text);
    }
  }

  /** The scan of a name: where it ends, and whether some byte of it is out of place. */
  method ScanName(message: Bytes, begin: nat) returns (end: nat, bad: bool)
    requires begin <= |message|
    ensures end == begin + Close(message[begin..])
    ensures end > begin ==> (bad <==> !ValidName(message[begin..end]))
    ensures end == begin ==> !bad
  {
    end, bad := begin, false;
    while end < |message| && message[end] != RBRACE
      invariant begin <= end <= |message|
      invariant begin + Close(message[begin..]) == end + Close(message[end..])
      invariant end > begin ==> (bad <==> !ValidName(message[begin..end]))
      invariant end == begin ==> !bad
    {
      assert message[end..][1..] == message[end + 1..];
      if (end == begin && !NameStart(message[end])) || (end != begin && !NamePart(message[end])) {
        bad := true;
      }
      NameGrows(message, begin, end);
      end := end + 1;
    }
  }

  lemma NameGrows(message: Bytes, begin: nat, end: nat)
    requires begin <= end < |message|
    ensures ValidName(message[begin..end + 1]) <==>
            if end == begin then NameStart(message[end]) else ValidName(message[begin..end]) && NamePart(message[end])
  {
    var longer := message[begin..end + 1];
    var name := message[begin..end];
    assert longer == name + [message[end]];
    if end > begin {
      assert longer[0] == name[0];
      assert forall k :: 0 <= k < |name| ==> longer[k] == name[k];
      assert forall k :: 0 <= k < |longer| ==> longer[k] == if k < |name| then name[k] else message[end];
      assert longer[|name|] == message[end];
    }
  }

  datatype RenderStatus = RenderedWhole | BufferTooSmall | BadTemplate

  /** What is done after `index` bytes of the message. */
  predicate RenderProgress(message: Bytes, table: seq<Param>, index: nat, text: Bytes) {
    && index <= |message|
    && RenderBytes(message, table) ==
      Outcome(text + RenderBytes(message[index..], table).text, RenderBytes(message[index..], table).valid)
  }

  lemma RenderStep(message: Bytes, table: seq<Param>, index: nat, text: Bytes)
    requires RenderProgress(message, table, index, text) && index < |message|
    ensures var turn := TurnOf(message[index..]);
      if turn.Step? then RenderProgress(message, table, index + turn.consumed, text + FillBytes(table, turn.piece))
      else RenderBytes(message, table) == Outcome(text, false)
  {
    hide TurnOf, FillBytes;
    var turn := TurnOf(message[index..]);
    assert message[index..][turn.consumed..] == message[index + turn.consumed..];
    if turn.Step? {
      var rest := RenderBytes(message[index + turn.consumed..], table).text;
      assert text + (FillBytes(table, turn.piece) + rest) == text + FillBytes(table, turn.piece) + rest;
    } else {
      assert text + [] == text;
    }
  }

  /**
   msys_i18n_render. An output of length 0 stands for the absent buffer. The
   whole length is counted even when the buffer is full.
   */
  method Render(message: Bytes, params: seq<Param>, output: array<byte>) returns (status: RenderStatus, required: nat)
    requires CString(message)
    modifies output
    ensures var r := RenderBytes(message, params);
      && required == |r.text|
      && output[..] == Delivered(old(output[..]), r.text)
      && status == if !r.valid then BadTemplate else if |r.text| + 1 > output.Length then BufferTooSmall
        else RenderedWhole
  {
    hide RenderBytes, RenderProgress, ValidName, Close, Overlay, Taken, FirstParam, Replacement;
    ghost var was := output[..];
    ghost var text: Bytes := [];
    var index, length, invalid := 0, 0, false;
    StartRender(message, params, was);
    while index < |message|
      invariant index <= |message| && length == |text| && !invalid
      invariant RenderProgress(message, params, index, text)
      invariant output[..] == Overlay(was, text)
    {
      RenderStep(message, params, index, text);
      if message[index] == LBRACE && At(message, index + 1) == LBRACE {
        length := AppendBytes(output, length, [LBRACE], was, text);
        text := text + [LBRACE];
        index := index + 2;
      } else if message[index] == RBRACE && At(message, index + 1) == RBRACE {
        length := AppendBytes(output, length, [RBRACE], was, text);
        text := text + [RBRACE];
        index := index + 2;
      } else if message[index] == LBRACE {
        var begin := index + 1;
        var end, bad := ScanName(message, begin);
        OpenTurnAt(message, index, end);
        assert !ValidName(message[begin..begin]) by { EmptyNameInvalid(message[begin..begin]); }
        if end == |message| || end == begin || bad {
          invalid := true;
          break;
        }
        var name := message[begin..end];
        var value := FindParam(params, name);
        length := AppendReplacement(output, length, name, value, was, text);
        text := text + Replacement(name, value);
        index := end + 1;
      } else if message[index] == RBRACE {
        invalid := true;
        break;
      } else {
        length := AppendBytes(output, length, [message[index]], was, text);
        text := text + [message[index]];
        index := index + 1;
      }
    }
    FinishRender(message, params, index, text, invalid);
    Terminate(was, text);
    if output.Length > 0 {
      output[if length < output.Length then length else output.Length - 1] := 0;
    }
    required := length;
    if invalid {
      return BadTemplate, required;
    }
    status := if length + 1 > output.Length then BufferTooSmall else RenderedWhole;
  }

  lemma EmptyNameInvalid(name: Text)
    ensures name == [] ==> !ValidName(name)
  {
  }

  lemma StartRender(message: Bytes, table: seq<Param>, was: Bytes)
    ensures RenderProgress(message, table, 0, []) && Overlay(was, []) == was
  {
    assert message[0..] == message;
    assert [] + RenderBytes(message, table).text == RenderBytes(message, table).text;
  }

  lemma FinishRender(message: Bytes, table: seq<Param>, index: nat, text: Bytes, invalid: bool)
    requires if invalid then RenderBytes(message, table) == Outcome(text, false)
             else index == |message| && RenderProgress(message, table, index, text)
    ensures RenderBytes(message, table) == Outcome(text, !invalid)
  {
    if !invalid {
      assert message[index..] == [] && text + [] == text;
    }
  }

  lemma Terminate(was: Bytes, text: Bytes)
    ensures was == [] ==> Overlay(was, text) == []
    ensures was != [] ==>
              var end := if |text| < |was| then |text| else |was| - 1;
              Overlay(was, text)[end := 0] == Delivered(was, text)
  {
  }

  /** A buffer that is not absent holds, as a C string, the longest prefix of the text that fits. */
  lemma DeliveredPrefix(was: Bytes, text: Bytes)
    requires was != [] && CString(text)
    ensures var k := Min(|text|, |was| - 1);
      && Delivered(was, text)[..k] == text[..k] && Delivered(was, text)[k] == 0
      && CString(Delivered(was, text)[..k])
      && (k == |text| <==> |text| + 1 <= |was|)
      && Delivered(was, text)[k + 1..] == was[k + 1..]
  {
    var k := Min(|text|, |was| - 1);
    assert Delivered(was, text) == text[..k] + [0] + was[k + 1..];
  }

  /** Parameters and text without terminators render to a text without one. */
  lemma {:induction false} RenderedCString(message: Bytes, table: seq<Param>)
    requires CString(message) && forall p :: p in table && p.value.Some? ==> CString(p.value.value)
    ensures CString(RenderBytes(message, table).text)
    decreases message
  {
    hide TurnOf;
    if message != [] && TurnOf(message).Step? {
      RenderedCString(message[TurnOf(message).consumed..], table);
      var piece := TurnOf(message).piece;
      if piece.Slot? {
        ParamCString(table, piece.name);
      }
      assert CString(FillBytes(table, piece));
    }
  }

  lemma {:induction false} ParamCString(table: seq<Param>, name: Text)
    requires forall p :: p in table && p.value.Some? ==> CString(p.value.value)
    ensures FirstParam(table, name).Some? ==> CString(FirstParam(table, name).value)
    decreases table
  {
    if table != [] {
      ParamCString(table[1..], name);
    }
  }
}
