/** Message templates: msys_sdk/i18n.py `_parse_template` and `_render`, on code points or on bytes. */
module Template {
  import opened Bytes

  type Text = seq<int>

  /** One unit of a template: a character that stands for itself, or a named slot. */
  datatype Piece = Char(code: int) | Slot(name: Text)

  datatype Token = Literal(text: Text) | Placeholder(name: Text)

  datatype Fault = Unclosed | BadName(name: Text) | Unescaped

  datatype ParseError = ParseError(offset: nat, fault: Fault)

  datatype Parsed = Parsed(pieces: seq<Piece>, errors: seq<ParseError>)

  // ----- Scanning -----

  predicate NameStart(c: int) {
    IsAlpha(c) || c == UNDERSCORE
  }

  predicate NamePart(c: int) {
    IsAlnum(c) || c == UNDERSCORE
  }

  predicate ValidName(name: Text) {
    name != [] && NameStart(name[0]) && forall k :: 0 <= k < |name| ==> NamePart(name[k])
  }

  /** How many characters stand before the first closing brace. */
  function Close(t: Text): (n: nat)
    ensures n <= |t| && RBRACE !in t[..n] && (n < |t| ==> t[n] == RBRACE)
  {
    if t == [] || t[0] == RBRACE then 0 else 1 + Close(t[1..])
  }

  /** What stands at the front of a template, and how long it is. */
  datatype Turn = Step(consumed: nat, piece: Piece) | Fail(consumed: nat, fault: Fault)

  function OpenTurn(t: Text): (turn: Turn)
    requires t != [] && t[0] == LBRACE
    ensures 1 <= turn.consumed <= |t|
  {
    var end := 1 + Close(t[1..]);
    if end == |t| then Fail(|t|, Unclosed)
    else if ValidName(t[1..end]) then Step(end + 1, Slot(t[1..end]))
    else Fail(end + 1, BadName(t[1..end]))
  }

  function TurnOf(t: Text): (turn: Turn)
    requires t != []
    ensures 1 <= turn.consumed <= |t|
    ensures turn.Step? ==> if turn.piece.Char? then turn.piece.code == t[0] else ValidName(turn.piece.name)
  {
    if t[0] == LBRACE then
      if |t| > 1 && t[1] == LBRACE then Step(2, Char(LBRACE)) else OpenTurn(t)
    else if t[0] == RBRACE then
      if |t| > 1 && t[1] == RBRACE then Step(2, Char(RBRACE)) else Fail(1, Unescaped)
    else Step(1, Char(t[0]))
  }

  function Then(turn: Turn, base: nat, rest: Parsed): Parsed {
    match turn
    case Step(_, piece) => Parsed([piece] + rest.pieces, rest.errors)
    case Fail(_, fault) => Parsed(rest.pieces, [ParseError(base, fault)] + rest.errors)
  }

  /** All units and all errors of a template whose first character has offset `base`. */
  function Scan(t: Text, base: nat): Parsed {
    if t == [] then Parsed([], [])
    else Then(TurnOf(t), base, Scan(t[TurnOf(t).consumed..], base + TurnOf(t).consumed))
  }

  // ----- Tokens -----

  function Chars(text: Text): (ps: seq<Piece>)
    ensures |ps| == |text|
  {
    if text == [] then [] else [Char(text[0])] + Chars(text[1..])
  }

  function TokenPieces(token: Token): seq<Piece> {
    match token
    case Literal(text) => Chars(text)
    case Placeholder(name) => [Slot(name)]
  }

  function Pieces(tokens: seq<Token>): seq<Piece> {
    if tokens == [] then [] else TokenPieces(tokens[0]) + Pieces(tokens[1..])
  }

  /** A unit in front of a token list; a character joins a leading literal. */
  function Join(piece: Piece, rest: seq<Token>): seq<Token> {
    match piece
    case Slot(name) => [Placeholder(name)] + rest
    case Char(c) =>
      if rest != [] && rest[0].Literal? then [Literal([c] + rest[0].text)] + rest[1..] else [Literal([c])] + rest
  }

  /** The units with runs of characters joined. */
  function Tokens(pieces: seq<Piece>): seq<Token> {
    if pieces == [] then [] else Join(pieces[0], Tokens(pieces[1..]))
  }

  predicate ValidToken(token: Token) {
    match token
    case Literal(text) => text != []
    case Placeholder(name) => ValidName(name)
  }

  /** No empty literal, no two literals side by side, no bad name. */
  predicate Normal(tokens: seq<Token>) {
    && (forall k :: 0 <= k < |tokens| ==> ValidToken(tokens[k]))
    && (forall k :: 0 < k < |tokens| ==> !(tokens[k - 1].Literal? && tokens[k].Literal?))
  }

  predicate ValidPieces(pieces: seq<Piece>) {
    forall k :: 0 <= k < |pieces| && pieces[k].Slot? ==> ValidName(pieces[k].name)
  }

  lemma {:induction false} PiecesConcat(a: seq<Token>, b: seq<Token>)
    ensures Pieces(a + b) == Pieces(a) + Pieces(b)
    decreases a
  {
    if a == [] {
      assert a + b == b;
    } else {
      assert (a + b)[1..] == a[1..] + b;
      PiecesConcat(a[1..], b);
    }
  }

  lemma {:induction false} CharsConcat(a: Text, b: Text)
    ensures Chars(a + b) == Chars(a) + Chars(b)
    decreases a
  {
    if a == [] {
      assert a + b == b;
    } else {
      assert (a + b)[1..] == a[1..] + b;
      CharsConcat(a[1..], b);
    }
  }

  lemma {:induction false} TokensNormal(pieces: seq<Piece>)
    requires ValidPieces(pieces)
    ensures Normal(Tokens(pieces)) && Pieces(Tokens(pieces)) == pieces
    decreases pieces
  {
    if pieces != [] {
      TokensNormal(pieces[1..]);
      JoinNormal(pieces[0], Tokens(pieces[1..]));
      assert pieces == [pieces[0]] + pieces[1..];
    }
  }

  lemma JoinPieces(piece: Piece, rest: seq<Token>)
    ensures Pieces(Join(piece, rest)) == [piece] + Pieces(rest)
  {
    var all := Join(piece, rest);
    if piece.Char? {
      var c := piece.code;
      if rest != [] && rest[0].Literal? {
        var text := [c] + rest[0].text;
        assert text[1..] == rest[0].text;
        assert Chars(text) == [piece] + Chars(rest[0].text);
        assert all[1..] == rest[1..];
      } else {
        assert Chars([c]) == [piece] + Chars([]);
        assert all[1..] == rest;
      }
    } else {
      assert all[1..] == rest;
    }
  }

  lemma JoinNormal(piece: Piece, rest: seq<Token>)
    requires Normal(rest) && (piece.Slot? ==> ValidName(piece.name))
    ensures Normal(Join(piece, rest)) && Pieces(Join(piece, rest)) == [piece] + Pieces(rest)
  {
    hide ValidName;
    JoinPieces(piece, rest);
  }

  lemma NoLeadingLiteral(rest: seq<Piece>)
    requires rest == [] || rest[0].Slot?
    ensures Tokens(rest) == [] || Tokens(rest)[0].Placeholder?
  {
  }

  lemma TokensStep(all: seq<Piece>)
    requires all != []
    ensures Tokens(all) == Join(all[0], Tokens(all[1..]))
  {
    hide Join;
  }

  lemma CharsCons(text: Text)
    requires text != []
    ensures Chars(text) == [Char(text[0])] + Chars(text[1..])
  {
  }

  lemma CharsStep(text: Text, rest: seq<Piece>)
    requires text != []
    ensures Tokens(Chars(text) + rest) == Join(Char(text[0]), Tokens(Chars(text[1..]) + rest))
  {
    hide *;
    var all := Chars(text) + rest;
    CharsCons(text);
    TokensStep(all);
    assert all[1..] == Chars(text[1..]) + rest;
  }

  lemma NoChars(rest: seq<Piece>)
    ensures Chars([]) + rest == rest
  {
    assert Chars([]) == [];
  }

  lemma JoinChar(c: int, text: Text, after: seq<Token>)
    ensures Join(Char(c), [Literal(text)] + after) == [Literal([c] + text)] + after
    ensures after == [] || after[0].Placeholder? ==> Join(Char(c), after) == [Literal([c])] + after
  {
    assert ([Literal(text)] + after)[1..] == after;
  }

  lemma {:induction false} TokensOfChars(text: Text, rest: seq<Piece>)
    requires text != [] && (rest == [] || rest[0].Slot?)
    ensures Tokens(Chars(text) + rest) == [Literal(text)] + Tokens(rest)
    decreases text
  {
    hide *;
    CharsStep(text, rest);
    JoinChar(text[0], text[1..], Tokens(rest));
    assert [text[0]] + text[1..] == text;
    if |text| == 1 {
      assert text[1..] == [] && text == [text[0]];
      NoChars(rest);
      NoLeadingLiteral(rest);
    } else {
      TokensOfChars(text[1..], rest);
    }
  }

  /** A normalised token list is determined by its units. */
  lemma {:induction false} TokensOfPieces(tokens: seq<Token>)
    requires Normal(tokens)
    ensures Tokens(Pieces(tokens)) == tokens
    decreases tokens
  {
    if tokens != [] {
      var rest := tokens[1..];
      TokensOfPieces(rest);
      assert tokens == [tokens[0]] + rest;
      match tokens[0] {
        case Placeholder(name) =>
          assert Pieces(tokens)[1..] == Pieces(rest);
        case Literal(text) =>
          assert rest != [] ==> rest[0] == tokens[1];
          assert rest != [] ==> Pieces(rest)[0].Slot?;
          TokensOfChars(text, Pieces(rest));
      }
    }
  }

  // ----- The parser -----

  /** template.find("}", from), with the length for "not found". */
  method FindClose(template: Text, from: nat) returns (end: nat)
    requires from <= |template|
    ensures end == from + Close(template[from..])
  {
    end := from;
    while end < |template| && template[end] != RBRACE
      invariant from <= end <= |template|
      invariant from + Close(template[from..]) == end + Close(template[end..])
    {
      assert template[end..][1..] == template[end + 1..];
      end := end + 1;
    }
  }

  /** flush_literal. */
  function Flush(tokens: seq<Token>, literal: Text): seq<Token> {
    if literal == [] then tokens else tokens + [Literal(literal)]
  }

  /** The pending text is the only place where a literal may be growing. */
  predicate Open(tokens: seq<Token>) {
    Normal(tokens) && (tokens != [] ==> tokens[|tokens| - 1].Placeholder?)
  }

  lemma FlushPieces(tokens: seq<Token>, literal: Text)
    requires Open(tokens)
    ensures Normal(Flush(tokens, literal)) && Pieces(Flush(tokens, literal)) == Pieces(tokens) + Chars(literal)
  {
    if literal != [] {
      LiteralPieces(literal);
      LiteralNormal(tokens, literal);
      hide Pieces, Chars, Normal;
      PiecesConcat(tokens, [Literal(literal)]);
    } else {
      hide Pieces, Normal;
      assert Pieces(tokens) + [] == Pieces(tokens);
    }
  }

  lemma LiteralPieces(literal: Text)
    ensures Pieces([Literal(literal)]) == Chars(literal)
  {
    assert Pieces([Literal(literal)]) == Chars(literal) + Pieces([]);
  }

  lemma LiteralNormal(tokens: seq<Token>, literal: Text)
    requires Open(tokens) && literal != []
    ensures Normal(tokens + [Literal(literal)])
  {
    hide ValidName;
  }

  lemma AddChar(tokens: seq<Token>, literal: Text, c: int, after: seq<Piece>)
    ensures Pieces(tokens) + Chars(literal + [c]) + after == Pieces(tokens) + Chars(literal) + ([Char(c)] + after)
  {
    CharsConcat(literal, [c]);
    assert Chars([c]) == [Char(c)] + Chars([]);
  }

  lemma SlotPieces(name: Text)
    ensures Pieces([Placeholder(name)]) == [Slot(name)] && Chars([]) == []
  {
    assert Pieces([Placeholder(name)]) == [Slot(name)] + Pieces([]);
  }

  lemma AddSlot(tokens: seq<Token>, literal: Text, name: Text, after: seq<Piece>)
    requires Open(tokens) && ValidName(name)
    ensures var longer := Flush(tokens, literal) + [Placeholder(name)];
      && Normal(longer)
      && Pieces(longer) + Chars([]) + after == Pieces(tokens) + Chars(literal) + ([Slot(name)] + after)
  {
    hide *;
    SlotPieces(name);
    FlushPieces(tokens, literal);
    PiecesConcat(Flush(tokens, literal), [Placeholder(name)]);
    SlotNormal(Flush(tokens, literal), name);
    Regroup(Pieces(tokens) + Chars(literal), [Slot(name)], after);
  }

  lemma Regroup(a: seq<Piece>, b: seq<Piece>, c: seq<Piece>)
    ensures a + b + [] + c == a + (b + c)
  {
  }

  lemma SlotNormal(tokens: seq<Token>, name: Text)
    requires Normal(tokens) && ValidName(name)
    ensures Normal(tokens + [Placeholder(name)])
  {
    hide ValidName;
  }

  /** What the parser has made of the first `index` characters. */
  predicate Progress(t: Text, index: nat, tokens: seq<Token>, literal: Text, errors: seq<ParseError>) {
    && index <= |t| && Open(tokens)
    && Pieces(tokens) + Chars(literal) + Scan(t[index..], index).pieces == Scan(t, 0).pieces
    && errors + Scan(t[index..], index).errors == Scan(t, 0).errors
  }

  /** The scan of the rest, one turn further. */
  lemma ScanTurn(t: Text, index: nat)
    requires index < |t|
    ensures var turn := TurnOf(t[index..]);
      index + turn.consumed <= |t|
      && Scan(t[index..], index) == Then(turn, index, Scan(t[index + turn.consumed..], index + turn.consumed))
  {
    hide TurnOf;
    var turn := TurnOf(t[index..]);
    assert t[index..][turn.consumed..] == t[index + turn.consumed..];
  }

  lemma StepChar(t: Text, index: nat, n: nat, c: int, tokens: seq<Token>, literal: Text, errors: seq<ParseError>)
    requires Progress(t, index, tokens, literal, errors) && index < |t|
    requires TurnOf(t[index..]) == Step(n, Char(c))
    ensures Progress(t, index + n, tokens, literal + [c], errors)
  {
    hide Scan, TurnOf, Chars, Pieces;
    ScanTurn(t, index);
    AddChar(tokens, literal, c, Scan(t[index + n..], index + n).pieces);
  }

  lemma StepSlot(t: Text, index: nat, n: nat, name: Text, tokens: seq<Token>, literal: Text, errors: seq<ParseError>)
    requires Progress(t, index, tokens, literal, errors) && index < |t|
    requires TurnOf(t[index..]) == Step(n, Slot(name)) && ValidName(name)
    ensures Progress(t, index + n, Flush(tokens, literal) + [Placeholder(name)], [], errors)
  {
    hide Scan, TurnOf, Chars, Pieces, Normal;
    ScanTurn(t, index);
    AddSlot(tokens, literal, name, Scan(t[index + n..], index + n).pieces);
  }

  lemma StepFail(t: Text, index: nat, n: nat, fault: Fault, tokens: seq<Token>, literal: Text, errors: seq<ParseError>)
    requires Progress(t, index, tokens, literal, errors) && index < |t|
    requires TurnOf(t[index..]) == Fail(n, fault)
    ensures Progress(t, index + n, tokens, literal, errors + [ParseError(index, fault)])
  {
    hide Scan, TurnOf, Chars, Pieces;
    ScanTurn(t, index);
    var rest := Scan(t[index + n..], index + n).errors;
    assert errors + ([ParseError(index, fault)] + rest) == errors + [ParseError(index, fault)] + rest;
  }

  lemma FinishParse(t: Text, tokens: seq<Token>, literal: Text, errors: seq<ParseError>)
    requires Progress(t, |t|, tokens, literal, errors)
    ensures Flush(tokens, literal) == Tokens(Scan(t, 0).pieces) && errors == Scan(t, 0).errors
  {
    hide Tokens, Pieces, Chars, Flush, Normal;
    FlushPieces(tokens, literal);
    TokensOfPieces(Flush(tokens, literal));
    assert Scan(t[|t|..], |t|) == Parsed([], []);
    assert Pieces(tokens) + Chars(literal) + [] == Pieces(tokens) + Chars(literal);
  }

  /**
   _parse_template: both lists, built with a buffer that collects literal text.
   An error does not stop the parser, and does not end a literal.
   */
  method ParseTemplate(template: Text) returns (tokens: seq<Token>, errors: seq<ParseError>)
    ensures tokens == Tokens(Scan(template, 0).pieces)
    ensures errors == Scan(template, 0).errors
  {
    hide Scan, Tokens, Pieces, Chars, Normal, ValidName, Progress, Flush;
    tokens, errors := [], [];
    var literal: Text := [];
    var index := 0;
    ghost var reached := 0;
    StartParse(template);
    while index < |template|
      invariant index == reached <= |template|
      invariant Progress(template, reached, tokens, literal, errors)
    {
      var character := template[index];
      if character == LBRACE {
        if index + 1 < |template| && template[index + 1] == LBRACE {
          StepChar(template, index, 2, LBRACE, tokens, literal, errors);
          literal := literal + [LBRACE];
          index := index + 2;
          reached := index;
          continue;
        }
        var end := FindClose(template, index + 1);
        OpenTurnAt(template, index, end);
        if end == |template| {
          StepFail(template, index, |template| - index, Unclosed, tokens, literal, errors);
          errors := errors + [ParseError(index, Unclosed)];
          reached := |template|;
          break;
        }
        var name := template[index + 1..end];
        if !ValidName(name) {
          StepFail(template, index, end + 1 - index, BadName(name), tokens, literal, errors);
          errors := errors + [ParseError(index, BadName(name))];
        } else {
          StepSlot(template, index, end + 1 - index, name, tokens, literal, errors);
          tokens := Flush(tokens, literal) + [Placeholder(name)];
          literal := [];
        }
        index := end + 1;
        reached := index;
        continue;
      }
      if character == RBRACE {
        if index + 1 < |template| && template[index + 1] == RBRACE {
          StepChar(template, index, 2, RBRACE, tokens, literal, errors);
          literal := literal + [RBRACE];
          index := index + 2;
          reached := index;
          continue;
        }
        StepFail(template, index, 1, Unescaped, tokens, literal, errors);
        errors := errors + [ParseError(index, Unescaped)];
        index := index + 1;
        reached := index;
        continue;
      }
      StepChar(template, index, 1, character, tokens, literal, errors);
      literal := literal + [character];
      index := index + 1;
      reached := index;
    }
    FinishParse(template, tokens, literal, errors);
    tokens := Flush(tokens, literal);
  }

  lemma StartParse(t: Text)
    ensures Progress(t, 0, [], [], [])
  {
    assert t[0..] == t;
    var whole := Scan(t, 0);
    assert Pieces([]) + Chars([]) + whole.pieces == whole.pieces;
  }

  lemma OpenTurnAt(t: Text, index: nat, end: nat)
    requires index < |t| && t[index] == LBRACE && (index + 1 < |t| ==> t[index + 1] != LBRACE)
    requires end == index + 1 + Close(t[index + 1..])
    ensures index < end <= |t|
    ensures TurnOf(t[index..]) ==
            if end == |t| then Fail(|t| - index, Unclosed)
            else if ValidName(t[index + 1..end]) then Step(end + 1 - index, Slot(t[index + 1..end]))
            else Fail(end + 1 - index, BadName(t[index + 1..end]))
  {
    hide ValidName;
    var rest := t[index..];
    assert rest[1..] == t[index + 1..];
    if end < |t| {
      assert rest[1..end - index] == t[index + 1..end];
    }
  }

  // ----- Printing -----

  function PrintPiece(piece: Piece): Text {
    match piece
    case Char(c) => if c == LBRACE || c == RBRACE then [c, c] else [c]
    case Slot(name) => [LBRACE as int] + name + [RBRACE]
  }

  function PrintPieces(pieces: seq<Piece>): Text {
    if pieces == [] then [] else PrintPiece(pieces[0]) + PrintPieces(pieces[1..])
  }

  /** The template that a token list stands for: braces doubled, names in braces. */
  function Print(tokens: seq<Token>): Text {
    PrintPieces(Pieces(tokens))
  }

  lemma {:induction false} CloseAt(name: Text, rest: Text)
    requires RBRACE !in name
    ensures Close(name + [RBRACE] + rest) == |name|
    decreases name
  {
    var t := name + [RBRACE] + rest;
    if name != [] {
      assert t[1..] == name[1..] + [RBRACE] + rest;
      CloseAt(name[1..], rest);
    }
  }

  lemma TurnOfPrint(piece: Piece, rest: Text)
    requires piece.Slot? ==> ValidName(piece.name)
    ensures TurnOf(PrintPiece(piece) + rest) == Step(|PrintPiece(piece)|, piece)
  {
    var t := PrintPiece(piece) + rest;
    if piece.Slot? {
      assert t[1] == piece.name[0];
      assert t[1..] == piece.name + [RBRACE] + rest;
      CloseAt(piece.name, rest);
      assert t[1..1 + |piece.name|] == piece.name;
    }
  }

  lemma {:induction false} ScanPrint(pieces: seq<Piece>, base: nat)
    requires ValidPieces(pieces)
    ensures Scan(PrintPieces(pieces), base) == Parsed(pieces, [])
    decreases pieces
  {
    hide TurnOf;
    if pieces != [] {
      var n := |PrintPiece(pieces[0])|;
      var rest := PrintPieces(pieces[1..]);
      ScanPrint(pieces[1..], base + n);
      TurnOfPrint(pieces[0], rest);
      assert (PrintPiece(pieces[0]) + rest)[n..] == rest;
      assert [pieces[0]] + pieces[1..] == pieces;
    }
  }

  lemma PrintTurn(t: Text)
    requires t != [] && TurnOf(t).Step?
    ensures PrintPiece(TurnOf(t).piece) == t[..TurnOf(t).consumed]
    ensures TurnOf(t).piece.Slot? ==> ValidName(TurnOf(t).piece.name)
  {
    hide ValidName;
  }

  lemma {:induction false} PrintScan(t: Text, base: nat)
    ensures ValidPieces(Scan(t, base).pieces)
    ensures Scan(t, base).errors == [] ==> PrintPieces(Scan(t, base).pieces) == t
    decreases t
  {
    hide TurnOf, ValidName, PrintPiece;
    if t != [] {
      var turn := TurnOf(t);
      var rest := Scan(t[turn.consumed..], base + turn.consumed);
      PrintScan(t[turn.consumed..], base + turn.consumed);
      if turn.Step? {
        PrintTurn(t);
        assert Scan(t, base).pieces == [turn.piece] + rest.pieces;
        hide Scan;
        assert ([turn.piece] + rest.pieces)[1..] == rest.pieces;
      }
    }
  }

  lemma {:induction false} PiecesValid(tokens: seq<Token>)
    requires forall k :: 0 <= k < |tokens| ==> ValidToken(tokens[k])
    ensures ValidPieces(Pieces(tokens))
    decreases tokens
  {
    hide ValidName;
    if tokens != [] {
      PiecesValid(tokens[1..]);
      if tokens[0].Literal? {
        CharsValid(tokens[0].text);
      }
    }
  }

  lemma {:induction false} CharsValid(text: Text)
    ensures forall k :: 0 <= k < |text| ==> Chars(text)[k].Char?
    decreases text
  {
    if text != [] {
      CharsValid(text[1..]);
    }
  }

  /** Printing a normalised token list and parsing it gives the list back, with no errors. */
  lemma ParsePrint(tokens: seq<Token>)
    requires Normal(tokens)
    ensures var parsed := Scan(Print(tokens), 0); Tokens(parsed.pieces) == tokens && parsed.errors == []
  {
    hide Tokens, Scan, Pieces, PrintPieces, ValidPieces, ValidToken;
    PiecesValid(tokens);
    ScanPrint(Pieces(tokens), 0);
    TokensOfPieces(tokens);
  }

  /** Parsing always gives a normalised list; printing that of an error-free template gives the template back. */
  lemma PrintParse(template: Text)
    ensures var parsed := Scan(template, 0);
      Normal(Tokens(parsed.pieces)) && (parsed.errors == [] ==> Print(Tokens(parsed.pieces)) == template)
  {
    hide Tokens, Scan, Pieces, PrintPieces, ValidPieces, Normal;
    PrintScan(template, 0);
    TokensNormal(Scan(template, 0).pieces);
  }

  /** So the error-free templates are exactly the printed forms. */
  lemma ErrorFreeExactly(template: Text)
    ensures Scan(template, 0).errors == [] <==> exists tokens :: Normal(tokens) && Print(tokens) == template
  {
    PrintParse(template);
    forall tokens | Normal(tokens) && Print(tokens) == template
      ensures Scan(template, 0).errors == []
    {
      ParsePrint(tokens);
    }
  }
}
