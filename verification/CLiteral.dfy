/** C string literals: `_c_string` of msys_sdk/i18n_c.py and the C11 reading of what it prints. */
module CLiteral {
  import opened Bytes
  import opened Utf8

  // ----- Printing -----

  const LOWER_N: byte := 110
  const LOWER_R: byte := 114
  const LOWER_T: byte := 116
  const LOWER_X: byte := 120

  /** Characters that are printed inside a quoted run. */
  predicate Inline(c: Scalar) {
    0x20 <= c <= 0x7E || c == LF || c == CR || c == TAB
  }

  function Escape(c: Scalar): Bytes
    requires Inline(c)
  {
    if c == QUOTE || c == BACKSLASH then [BACKSLASH, c]
    else if c == LF then [BACKSLASH, LOWER_N]
    else if c == CR then [BACKSLASH, LOWER_R]
    else if c == TAB then [BACKSLASH, LOWER_T]
    else [c]
  }

  function Quoted(text: Bytes): Bytes {
    [QUOTE] + text + [QUOTE]
  }

  function Flush(text: Bytes): seq<Bytes> {
    if text == [] then [] else [Quoted(text)]
  }

  /** The literal of one byte. */
  function HexPiece(b: byte): Bytes {
    Quoted([BACKSLASH, LOWER_X, HexDigit(b / 16), HexDigit(b % 16)])
  }

  function HexPieces(bytes: Bytes): seq<Bytes> {
    if bytes == [] then [] else [HexPiece(bytes[0])] + HexPieces(bytes[1..])
  }

  /** The pieces still to come when `text` is waiting to be flushed. */
  function PiecesFrom(value: Str, text: Bytes): seq<Bytes> {
    if value == [] then Flush(text)
    else if Inline(value[0]) then PiecesFrom(value[1..], text + Escape(value[0]))
    else Flush(text) + (HexPieces(Encode(value[0])) + PiecesFrom(value[1..], []))
  }

  /** " ".join(pieces). */
  function JoinSpaced(pieces: seq<Bytes>): Bytes {
    if pieces == [] then [] else if |pieces| == 1 then pieces[0] else pieces[0] + [SPACE] + JoinSpaced(pieces[1..])
  }

  function Printed(value: Str): Bytes {
    if PiecesFrom(value, []) == [] then [QUOTE, QUOTE] else JoinSpaced(PiecesFrom(value, []))
  }

  lemma HexPiecesStep(bytes: Bytes, i: nat, pieces: seq<Bytes>, after: seq<Bytes>)
    requires i < |bytes|
    ensures pieces + (HexPieces(bytes[i..]) + after) ==
      pieces + [HexPiece(bytes[i])] + (HexPieces(bytes[i + 1..]) + after)
  {
    hide HexPiece;
    assert bytes[i..][1..] == bytes[i + 1..];
    assert HexPieces(bytes[i..]) == [HexPiece(bytes[i])] + HexPieces(bytes[i + 1..]);
  }

  /** _c_string. */
  method PrintLiteral(value: Str) returns (literal: Bytes)
    ensures literal == Printed(value)
  {
    hide *;
    var pieces: seq<Bytes> := [];
    var text: Bytes := [];
    var i := 0;
    assert value[0..] == value;
    assert [] + PiecesFrom(value, []) == PiecesFrom(value, []);
    while i < |value|
      invariant i <= |value|
      invariant pieces + PiecesFrom(value[i..], text) == PiecesFrom(value, [])
    {
      var character := value[i];
      PiecesStep(value, i, text, pieces);
      if Inline(character) {
        text := text + Escape(character);
      } else {
        ghost var after := PiecesFrom(value[i + 1..], []);
        pieces := pieces + Flush(text);
        text := [];
        var bytes := Encode(character);
        var j := 0;
        assert bytes[0..] == bytes;
        while j < |bytes|
          invariant j <= |bytes|
          invariant pieces + (HexPieces(bytes[j..]) + after) == PiecesFrom(value, [])
        {
          HexPiecesStep(bytes, j, pieces, after);
          pieces := pieces + [HexPiece(bytes[j])];
          j := j + 1;
        }
        NoHexPieces(bytes, pieces, after);
      }
      i := i + 1;
    }
    assert value[i..] == [];
    PiecesDone(text);
    pieces := pieces + Flush(text);
    PrintedIs(value);
    literal := if pieces == [] then [QUOTE, QUOTE] else JoinSpaced(pieces);
  }

  lemma PrintedIs(value: Str)
    ensures var pieces := PiecesFrom(value, []);
      Printed(value) == if pieces == [] then [QUOTE, QUOTE] else JoinSpaced(pieces)
  {
  }

  lemma PiecesDone(text: Bytes)
    ensures PiecesFrom([], text) == Flush(text)
  {
  }

  lemma PiecesStep(value: Str, i: nat, text: Bytes, pieces: seq<Bytes>)
    requires i < |value|
    ensures Inline(value[i]) ==> PiecesFrom(value[i..], text) == PiecesFrom(value[i + 1..], text + Escape(value[i]))
    ensures !Inline(value[i]) ==>
              pieces + PiecesFrom(value[i..], text)
              == pieces + Flush(text) + (HexPieces(Encode(value[i])) + PiecesFrom(value[i + 1..], []))
  {
    hide HexPieces, Escape, Inline, Encode, Flush;
    assert value[i..][0] == value[i] && value[i..][1..] == value[i + 1..];
  }

  lemma NoHexPieces(bytes: Bytes, pieces: seq<Bytes>, after: seq<Bytes>)
    ensures pieces + (HexPieces(bytes[|bytes|..]) + after) == pieces + after
  {
    assert HexPieces(bytes[|bytes|..]) == [];
  }

  // ----- Translation phases 1, 5 and 6 of C11 (sections 5.1.1.2, 5.2.1.1 and 6.4.5) -----

  const QUESTION: byte := 63

  /** The character that a trigraph with this last character stands for, section 5.2.1.1. */
  function Trigraph(b: int): (r: Option<byte>)
    ensures r.Some? ==> r.value != QUESTION && r.value != QUOTE && !IsSpace(r.value) && HexValue(r.value) < 0
    ensures r.Some? ==> 0x20 < b < 0x7F && b != QUOTE && b != BACKSLASH && b != QUESTION
  {
    if b == 61 then Some(35)
    else if b == 40 then Some(91)
    else if b == SLASH then Some(BACKSLASH)
    else if b == 41 then Some(93)
    else if b == 39 then Some(94)
    else if b == 60 then Some(123)
    else if b == 33 then Some(124)
    else if b == 62 then Some(125)
    else if b == DASH then Some(126)
    else None
  }

  predicate StartsTrigraph(t: seq<int>) {
    |t| >= 3 && t[0] == QUESTION && t[1] == QUESTION && Trigraph(t[2]).Some?
  }

  predicate HasTrigraph(t: seq<int>) {
    t != [] && (StartsTrigraph(t) || HasTrigraph(t[1..]))
  }

  /** Phase 1: every trigraph is replaced. */
  function Replaced(t: Bytes): Bytes {
    if t == [] then []
    else if StartsTrigraph(t) then [Trigraph(t[2]).value] + Replaced(t[3..])
    else [t[0]] + Replaced(t[1..])
  }

  datatype Body = Body(bytes: Bytes, rest: Bytes)

  /** The byte of a simple escape sequence, section 6.4.4.4. */
  function SimpleEscape(b: byte): Option<byte> {
    if b == QUOTE || b == BACKSLASH || b == 39 || b == 63 then Some(b)
    else if b == 97 then Some(7)
    else if b == 98 then Some(8)
    else if b == 102 then Some(12)
    else if b == LOWER_N then Some(10)
    else if b == LOWER_R then Some(13)
    else if b == LOWER_T then Some(9)
    else if b == 118 then Some(11)
    else None
  }

  /** A hexadecimal escape takes every digit that follows. */
  function HexRun(t: Bytes): (n: nat)
    ensures n <= |t|
  {
    if t == [] || HexValue(t[0]) < 0 then 0 else 1 + HexRun(t[1..])
  }

  function HexNumber(high: nat, t: Bytes): nat
    decreases t
  {
    if t == [] || HexValue(t[0]) < 0 then high else HexNumber(high * 16 + HexValue(t[0]), t[1..])
  }

  predicate IsOctal(b: int) {
    48 <= b <= 55
  }

  /** An octal escape takes at most three digits. */
  function OctalRun(t: Bytes, limit: nat): (n: nat)
    ensures n <= |t| && n <= limit
  {
    if limit == 0 || t == [] || !IsOctal(t[0]) then 0 else 1 + OctalRun(t[1..], limit - 1)
  }

  function OctalNumber(high: nat, t: Bytes): nat
    decreases t
  {
    if t == [] || !IsOctal(t[0]) then high else OctalNumber(high * 8 + (t[0] - 48), t[1..])
  }

  /** What follows a backslash: the byte it stands for, and the rest. */
  function ReadEscape(t: Bytes): (r: Option<Body>)
    ensures r.Some? ==> |r.value.rest| < |t|
  {
    if t == [] then None
    else if t[0] == LOWER_X then
      var n := HexRun(t[1..]);
      var v := HexNumber(0, t[1..1 + n]);
      if n == 0 || v > 255 then None else Some(Body([v], t[1 + n..]))
    else if IsOctal(t[0]) then
      var n := OctalRun(t, 3);
      var v := OctalNumber(0, t[..n]);
      if n == 0 || v > 255 then None else Some(Body([v], t[n..]))
    else
      match SimpleEscape(t[0])
      case None => None
      case Some(b) => Some(Body([b], t[1..]))
  }

  function Before(bytes: Bytes, body: Option<Body>): (r: Option<Body>)
    ensures r.Some? ==> body.Some? && r.value.rest == body.value.rest
  {
    match body
    case None => None
    case Some(Body(more, rest)) => Some(Body(bytes + more, rest))
  }

  /** A literal from behind its opening quote. */
  function ReadBody(t: Bytes): (r: Option<Body>)
    ensures r.Some? ==> |r.value.rest| < |t|
    decreases |t|
  {
    if t == [] || t[0] == LF then None
    else if t[0] == QUOTE then Some(Body([], t[1..]))
    else if t[0] == BACKSLASH then
      match ReadEscape(t[1..])
      case None => None
      case Some(Body(bytes, rest)) => Before(bytes, ReadBody(rest))
    else Before([t[0]], ReadBody(t[1..]))
  }

  function Concat(bytes: Bytes, more: Option<Bytes>): Option<Bytes> {
    match more
    case None => None
    case Some(b) => Some(bytes + b)
  }

  /** Literals with white space between them, joined. */
  function ReadLiterals(t: Bytes): Option<Bytes>
    decreases |t|
  {
    if t == [] then Some([])
    else if IsSpace(t[0]) then ReadLiterals(t[1..])
    else if t[0] != QUOTE then None
    else
      match ReadBody(t[1..])
      case None => None
      case Some(Body(bytes, rest)) => Concat(bytes, ReadLiterals(rest))
  }

  /**
   The string that an initializer denotes: at least one literal. Phase 2 joins
   lines that end in a backslash; a printed literal has one line (OneLine).
   */
  function Denotes(t: Bytes): Option<Bytes> {
    var u := Replaced(t);
    if QUOTE in u then ReadLiterals(u) else None
  }

  // ----- The printed text as a stream -----

  function HexText(bytes: Bytes): Bytes {
    JoinSpaced(HexPieces(bytes))
  }

  /** What is printed from here on, inside a quoted run or between pieces. */
  function Layout(value: Str, open: bool): Bytes
    decreases |value|, 0
  {
    if value == [] then if open then [QUOTE] else []
    else if Inline(value[0]) then
      (if open then [] else [QUOTE]) + (Escape(value[0]) + Layout(value[1..], true))
    else
      (if open then [QUOTE, SPACE] else []) + (HexText(Encode(value[0])) + Next(value[1..]))
  }

  /** The pieces that follow a complete one. */
  function Next(value: Str): Bytes
    decreases |value|, 1
  {
    if value == [] then [] else [SPACE] + Layout(value, false)
  }

  lemma {:induction false} JoinConcat(a: seq<Bytes>, b: seq<Bytes>)
    requires a != []
    ensures JoinSpaced(a + b) == JoinSpaced(a) + (if b == [] then [] else [SPACE] + JoinSpaced(b))
    decreases a
  {
    if |a| == 1 {
      assert (a + b)[1..] == b;
    } else {
      assert (a + b)[1..] == a[1..] + b;
      JoinConcat(a[1..], b);
      var more := if b == [] then [] else [SPACE] + JoinSpaced(b);
      assert a[0] + [SPACE] + (JoinSpaced(a[1..]) + more) == a[0] + [SPACE] + JoinSpaced(a[1..]) + more;
    }
  }

  lemma SomeHex(bytes: Bytes)
    requires bytes != []
    ensures HexPieces(bytes) != []
  {
  }

  lemma PiecesLater(value: Str, text: Bytes)
    ensures PiecesFrom(value, text) == [] <==> value == [] && text == []
    decreases |value|
  {
    hide HexPieces, Escape, Encode;
    if value != [] {
      if Inline(value[0]) {
        EscapeSome(value[0]);
        PiecesLater(value[1..], text + Escape(value[0]));
      } else {
        SomeHex(Encode(value[0]));
      }
    }
  }

  lemma EscapeSome(c: Scalar)
    ensures Inline(c) ==> Escape(c) != []
  {
  }

  /** The joined pieces are that stream. */
  lemma {:induction false} PiecesLayout(value: Str, text: Bytes)
    ensures JoinSpaced(PiecesFrom(value, text)) ==
      (if text == [] then [] else [QUOTE] + text) + Layout(value, text != [])
    decreases |value|
  {
    hide HexPieces, Escape, Inline, Encode;
    if value == [] {
      PiecesEnd(text);
    } else if Inline(value[0]) {
      var e := Escape(value[0]);
      EscapeSome(value[0]);
      PiecesLayout(value[1..], text + e);
      assert [QUOTE] + (text + e) + Layout(value[1..], true) ==
             (if text == [] then [QUOTE] else [QUOTE] + text) + (e + Layout(value[1..], true));
    } else {
      var hex := HexPieces(Encode(value[0]));
      var after := PiecesFrom(value[1..], []);
      SomeHex(Encode(value[0]));
      PiecesLayout(value[1..], []);
      PiecesLater(value[1..], []);
      assert [] + Layout(value[1..], false) == Layout(value[1..], false);
      hide PiecesFrom, Layout;
      JoinConcat(hex, after);
      HexLayout(value, text, hex, after);
    }
  }

  lemma PiecesEnd(text: Bytes)
    ensures JoinSpaced(PiecesFrom([], text)) == (if text == [] then [] else [QUOTE] + text) + Layout([], text != [])
  {
  }

  lemma HexLayout(value: Str, text: Bytes, hex: seq<Bytes>, after: seq<Bytes>)
    requires value != [] && !Inline(value[0]) && hex == HexPieces(Encode(value[0])) && hex != []
    requires after == PiecesFrom(value[1..], []) && JoinSpaced(hex + after) == JoinSpaced(hex) + Next(value[1..])
    ensures JoinSpaced(PiecesFrom(value, text)) ==
      (if text == [] then [] else [QUOTE] + text) + Layout(value, text != [])
  {
    hide Encode, HexPieces, Inline;
    var joined := JoinSpaced(hex + after);
    if text == [] {
      assert [] + (hex + after) == hex + after;
      assert [] + ([] + joined) == joined;
    } else {
      JoinConcat([Quoted(text)], hex + after);
      assert Quoted(text) + ([SPACE] + joined) == ([QUOTE] + text) + ([QUOTE, SPACE] + joined);
    }
  }

  lemma PrintedLayout(value: Str)
    requires value != []
    ensures Printed(value) == Layout(value, false)
  {
    PiecesLayout(value, []);
    PiecesLater(value, []);
    hide PiecesFrom, Layout;
    assert [] + Layout(value, false) == Layout(value, false);
  }

  // ----- Phase 1 on the stream -----

  /** The first character inside a run: a character of the value, or the sign of an escape or of the end. */
  function Lead(value: Str): byte {
    if value == [] || !Inline(value[0]) then QUOTE else Escape(value[0])[0]
  }

  lemma LeadOf(value: Str)
    ensures Layout(value, true) != [] && Layout(value, true)[0] == Lead(value)
    ensures Lead(value) == QUESTION <==> value != [] && value[0] == QUESTION
    ensures Trigraph(Lead(value)).Some? ==> value != [] && value[0] == Lead(value)
    ensures value != [] && Trigraph(value[0]).Some? ==> Lead(value) == value[0]
  {
    hide HexText, Encode;
  }

  /** A trigraph starts in the printed text exactly where one starts in the value. */
  lemma SameStart(value: Str)
    ensures StartsTrigraph(Layout(value, true)) <==> StartsTrigraph(value)
    ensures StartsTrigraph(value) ==>
              Layout(value, true)[2] == value[2] && Layout(value, true)[3..] == Layout(value[3..], true)
  {
    hide HexText, Encode, Trigraph, Next;
    var t := Layout(value, true);
    LeadOf(value);
    if value != [] && value[0] == QUESTION {
      var u := value[1..];
      assert t == [QUESTION] + Layout(u, true) && t[1..] == Layout(u, true);
      LeadOf(u);
      if u != [] && u[0] == QUESTION {
        assert t[1..] == [QUESTION] + Layout(u[1..], true);
        assert t[2..] == Layout(u[1..], true) && u[1..] == value[2..];
        StartThird(value[2..], t);
      }
    }
  }

  lemma StartThird(value: Str, t: Bytes)
    requires |t| >= 2 && t[2..] == Layout(value, true)
    ensures |t| >= 3 && (Trigraph(t[2]).Some? <==> value != [] && Trigraph(value[0]).Some?)
    ensures value != [] && Trigraph(value[0]).Some? ==> t[2] == value[0] && t[3..] == Layout(value[1..], true)
  {
    LeadOf(value);
    hide HexText, Encode, Lead, Next;
    assert t[2] == t[2..][0];
    if value != [] && Trigraph(value[0]).Some? {
      assert Inline(value[0]) && Escape(value[0]) == [value[0]];
      assert t[3..] == t[2..][1..] == Layout(value[1..], true);
    }
  }

  lemma {:induction false} ReplacedPlain(a: Bytes, b: Bytes)
    requires QUESTION !in a
    ensures Replaced(a + b) == a + Replaced(b)
    decreases a
  {
    hide Trigraph;
    if a == [] {
      assert a + b == b && [] + Replaced(b) == Replaced(b);
    } else {
      assert (a + b)[1..] == a[1..] + b;
      ReplacedPlain(a[1..], b);
      assert [a[0]] + (a[1..] + Replaced(b)) == a + Replaced(b);
    }
  }

  /** The stream inside a run, with trigraphs replaced. */
  function Inside(value: Str): Bytes {
    Replaced(Layout(value, true))
  }

  /** The stream between pieces, with trigraphs replaced. */
  function Between(value: Str): Bytes {
    Replaced(Layout(value, false))
  }

  lemma InsideEnd()
    ensures Inside([]) == [QUOTE]
  {
    assert Replaced([]) == [];
  }

  lemma InsideTrigraph(value: Str)
    requires StartsTrigraph(value)
    ensures Inside(value) == [Trigraph(value[2]).value] + Inside(value[3..])
  {
    hide Layout, Trigraph;
    SameStart(value);
  }

  lemma InsideChar(value: Str)
    requires value != [] && Inline(value[0]) && !StartsTrigraph(value)
    ensures Inside(value) == Escape(value[0]) + Inside(value[1..])
  {
    hide Trigraph;
    SameStart(value);
    var e := Escape(value[0]);
    var rest := Layout(value[1..], true);
    assert Layout(value, true) == e + rest;
    if value[0] == QUESTION {
      assert (e + rest)[1..] == rest;
    } else {
      ReplacedPlain(e, rest);
    }
  }

  lemma {:induction false} HexNoQuestion(bytes: Bytes)
    ensures QUESTION !in HexText(bytes)
    decreases bytes
  {
    if bytes != [] {
      HexPiecePlain(bytes[0]);
      HexNoQuestion(bytes[1..]);
      hide HexPiece;
      assert HexPieces(bytes)[1..] == HexPieces(bytes[1..]);
    }
  }

  lemma HexPiecePlain(b: byte)
    ensures QUESTION !in HexPiece(b) && LF !in HexPiece(b)
  {
  }

  /** The pieces after a complete one, with trigraphs replaced. */
  function Later(value: Str): Bytes {
    if value == [] then [] else [SPACE] + Between(value)
  }

  lemma LaterIs(value: Str)
    ensures Replaced(Next(value)) == Later(value)
  {
    if value != [] {
      hide Layout;
      ReplacedPlain([SPACE], Layout(value, false));
    }
  }

  lemma BetweenHex(value: Str)
    requires value != [] && !Inline(value[0])
    ensures Between(value) == HexText(Encode(value[0])) + Later(value[1..])
    ensures Inside(value) == [QUOTE, SPACE] + (HexText(Encode(value[0])) + Later(value[1..]))
  {
    var hex := HexText(Encode(value[0]));
    var rest := Next(value[1..]);
    assert Layout(value, false) == [] + (hex + rest) == hex + rest;
    assert Layout(value, true) == [QUOTE, SPACE] + (hex + rest);
    hide Layout, Encode, HexText, Inline;
    HexNoQuestion(Encode(value[0]));
    LaterIs(value[1..]);
    ReplacedPlain(hex, rest);
    ReplacedPlain([QUOTE, SPACE], hex + rest);
  }

  lemma BetweenChar(value: Str)
    requires value != [] && Inline(value[0])
    ensures Between(value) == [QUOTE] + Inside(value)
  {
    assert Layout(value, false) == [QUOTE] + Layout(value, true);
    hide Layout;
    ReplacedPlain([QUOTE], Layout(value, true));
  }

  // ----- Reading the stream -----

  lemma ReadChar(c: Scalar, t: Bytes)
    requires Inline(c)
    ensures ReadBody(Escape(c) + t) == Before([c], ReadBody(t))
  {
    var all := Escape(c) + t;
    if |Escape(c)| == 2 {
      assert all[1..][1..] == t;
      assert ReadEscape(all[1..]) == Some(Body([c], t));
    } else {
      assert all[1..] == t;
    }
  }

  lemma TwoDigits(digits: Bytes, b: byte)
    requires digits == [HexDigit(b / 16), HexDigit(b % 16)]
    ensures HexNumber(0, digits) == b
  {
    assert digits[1..] == [HexDigit(b % 16)] && digits[1..][1..] == [];
    var high := HexValue(digits[0]);
    assert HexNumber(0, digits) == HexNumber(high, digits[1..]);
    assert HexNumber(high, digits[1..]) == HexNumber(high * 16 + b % 16, []);
  }

  /** A one-byte literal: the quote ends the escape after its two digits. */
  lemma ReadHex(b: byte, rest: Bytes)
    ensures ReadBody(HexPiece(b)[1..] + rest) == Some(Body([b], rest))
  {
    var high, low := HexDigit(b / 16), HexDigit(b % 16);
    var t := HexPiece(b)[1..] + rest;
    assert t == [BACKSLASH, LOWER_X, high, low, QUOTE] + rest;
    var e := t[1..];
    assert e[1..] == [high, low, QUOTE] + rest;
    assert e[1..][1..] == [low, QUOTE] + rest;
    assert e[1..][1..][1..] == [QUOTE] + rest;
    assert HexRun(e[1..][1..][1..]) == 0;
    assert HexRun(e[1..]) == 2;
    var digits := e[1..3];
    assert digits == [high, low] && digits[1..] == [low] && digits[1..][1..] == [];
    TwoDigits(digits, b);
    assert e[3..] == [QUOTE] + rest;
    assert ([QUOTE] + rest)[1..] == rest;
    assert ReadEscape(e) == Some(Body([b], [QUOTE] + rest));
    assert [b] + [] == [b];
  }

  /** Reading on from inside a literal. */
  function Rest(t: Bytes): Option<Bytes> {
    match ReadBody(t)
    case None => None
    case Some(body) => Concat(body.bytes, ReadLiterals(body.rest))
  }

  lemma RestBefore(bytes: Bytes, t: Bytes, u: Bytes)
    requires ReadBody(u) == Before(bytes, ReadBody(t))
    ensures Rest(u) == Concat(bytes, Rest(t))
  {
    hide ReadBody, ReadLiterals;
    if ReadBody(t).Some? {
      var body := ReadBody(t).value;
      var more := ReadLiterals(body.rest);
      if more.Some? {
        assert bytes + body.bytes + more.value == bytes + (body.bytes + more.value);
      }
    }
  }

  lemma RestEscape(c: Scalar, t: Bytes)
    requires Inline(c)
    ensures Rest(Escape(c) + t) == Concat([c], Rest(t))
  {
    hide ReadBody, Escape;
    ReadChar(c, t);
    RestBefore([c], t, Escape(c) + t);
  }

  lemma RestPlain(b: byte, t: Bytes)
    requires b != QUOTE && b != BACKSLASH && b != LF
    ensures Rest([b] + t) == Concat([b], Rest(t))
  {
    assert ([b] + t)[1..] == t;
    assert ReadBody([b] + t) == Before([b], ReadBody(t));
    hide ReadBody;
    RestBefore([b], t, [b] + t);
  }

  lemma RestEnd(t: Bytes)
    ensures Rest([QUOTE] + t) == ReadLiterals(t)
  {
    assert ([QUOTE] + t)[1..] == t;
    var none: Bytes := [];
    assert ReadBody([QUOTE] + t) == Some(Body(none, t));
    hide ReadBody;
    if ReadLiterals(t).Some? {
      assert none + ReadLiterals(t).value == ReadLiterals(t).value;
    }
  }

  lemma OpensLiteral(t: Bytes)
    ensures ReadLiterals([QUOTE] + t) == Rest(t)
  {
    assert ([QUOTE] + t)[1..] == t;
    hide ReadBody;
  }

  lemma SpaceLiterals(t: Bytes)
    ensures ReadLiterals([SPACE] + t) == ReadLiterals(t)
  {
    assert ([SPACE] + t)[1..] == t;
  }

  lemma StrayLiterals(t: Bytes)
    requires t != [] && t[0] != QUOTE && !IsSpace(t[0])
    ensures ReadLiterals(t) == None
  {
  }

  lemma ConcatTwice(a: Bytes, b: Bytes, more: Option<Bytes>)
    ensures Concat(a, Concat(b, more)) == Concat(a + b, more)
  {
    if more.Some? {
      assert a + (b + more.value) == a + b + more.value;
    }
  }

  lemma HexPieceReads(b: byte, tail: Bytes)
    ensures ReadLiterals(HexPiece(b) + tail) == Concat([b], ReadLiterals(tail))
  {
    var t := HexPiece(b)[1..] + tail;
    assert HexPiece(b) + tail == [QUOTE] + t;
    hide ReadBody, HexPiece, ReadLiterals;
    ReadHex(b, tail);
    OpensLiteral(t);
  }

  /** The pieces of a character that is not printable read as its bytes. */
  lemma {:induction false} HexReads(bytes: Bytes, tail: Bytes)
    requires bytes != []
    ensures ReadLiterals(HexText(bytes) + tail) == Concat(bytes, ReadLiterals(tail))
    decreases bytes
  {
    hide HexPiece, ReadLiterals;
    var rest := bytes[1..];
    assert bytes == [bytes[0]] + rest;
    assert HexPieces(bytes)[1..] == HexPieces(rest);
    if rest == [] {
      assert bytes == [bytes[0]];
      HexPieceReads(bytes[0], tail);
      assert HexText(bytes) == HexPiece(bytes[0]);
    } else {
      var after := [SPACE] + (HexText(rest) + tail);
      assert HexText(bytes) + tail == HexPiece(bytes[0]) + after;
      HexReads(rest, tail);
      HexPieceReads(bytes[0], after);
      SpaceLiterals(HexText(rest) + tail);
      ConcatTwice([bytes[0]], rest, ReadLiterals(tail));
    }
  }

  lemma LaterReads(value: Str)
    ensures ReadLiterals(Later(value)) == ReadLiterals(Between(value))
  {
    if value == [] {
      assert Between([]) == [];
    } else {
      hide Between;
      SpaceLiterals(Between(value));
    }
  }

  /** A quote that opens a literal just before a piece of hexadecimal text leaves a stray backslash. */
  lemma CutByHex(bytes: Bytes, tail: Bytes)
    requires bytes != []
    ensures Rest([SPACE] + (HexText(bytes) + tail)) == None
  {
    var t := HexText(bytes) + tail;
    HexLead(bytes);
    hide HexText, ReadBody;
    RestPlain(SPACE, t);
    assert t == [QUOTE] + t[1..];
    RestEnd(t[1..]);
    StrayLiterals(t[1..]);
  }

  lemma HexLead(bytes: Bytes)
    requires bytes != []
    ensures |HexText(bytes)| >= 2 && HexText(bytes)[0] == QUOTE && HexText(bytes)[1] == BACKSLASH
  {
    assert |HexPiece(bytes[0])| >= 2 && HexPiece(bytes[0])[0] == QUOTE && HexPiece(bytes[0])[1] == BACKSLASH;
  }

  // ----- Out of step -----

  /** The result, if there is one, is no longer than this. */
  predicate AtMost(r: Option<Bytes>, n: int) {
    r.Some? ==> |r.value| <= n
  }

  /** Inside-out: what should be inside a literal is met outside one. That never reads. */
  lemma {:induction false} ReadOutside(value: Str)
    ensures ReadLiterals(Inside(value)) == None
    decreases |value|
  {
    hide ReadLiterals, Inside, HexText, Encode, Trigraph, Escape, Inline, StartsTrigraph;
    if value == [] {
      InsideEnd();
      LoneQuote();
    } else if StartsTrigraph(value) {
      InsideTrigraph(value);
      TrigraphKnown(value);
      StrayLiterals(Inside(value));
    } else if Inline(value[0]) {
      InsideChar(value);
      EscapeLead(value[0]);
      if value[0] == SPACE {
        ReadOutside(value[1..]);
        SpaceLiterals(Inside(value[1..]));
      } else {
        StrayLiterals(Inside(value));
      }
    } else {
      OutsideHex(value);
    }
  }

  lemma OutsideHex(value: Str)
    requires value != [] && !Inline(value[0])
    ensures ReadLiterals(Inside(value)) == None
  {
    hide *;
    var hex, tail := HexText(Encode(value[0])), Later(value[1..]);
    BetweenHex(value);
    assert Inside(value) == [QUOTE] + ([SPACE] + (hex + tail));
    OpensLiteral([SPACE] + (hex + tail));
    CutByHex(Encode(value[0]), tail);
  }

  lemma TrigraphKnown(value: Str)
    requires StartsTrigraph(value)
    ensures |value| >= 3 && Trigraph(value[2]).Some?
  {
  }

  lemma EscapeLead(c: Scalar)
    requires Inline(c)
    ensures Escape(c) != [] && (c == SPACE ==> Escape(c) == [SPACE])
    ensures c != SPACE ==> Escape(c)[0] != QUOTE && !IsSpace(Escape(c)[0])
  {
  }

  lemma LoneQuote()
    ensures ReadLiterals([QUOTE]) == None
  {
    assert [QUOTE][1..] == [];
  }

  lemma RestBackslash(t: Bytes)
    ensures var r := ReadEscape(t);
      Rest([BACKSLASH] + t) == if r == None then None else Concat(r.value.bytes, Rest(r.value.rest))
  {
    hide ReadEscape;
    var u := [BACKSLASH] + t;
    assert u[1..] == t;
    if ReadEscape(t).Some? {
      var r := ReadEscape(t).value;
      assert ReadBody(u) == Before(r.bytes, ReadBody(r.rest));
      hide ReadBody;
      RestBefore(r.bytes, r.rest, u);
    }
  }

  lemma {:induction false} DropEncode(value: Str, n: nat)
    requires n <= |value|
    ensures |EncodeAll(value[n..])| + n <= |EncodeAll(value)|
    decreases n
  {
    hide Encode;
    if n > 0 {
      DropEncode(value[1..], n - 1);
      assert value[1..][n - 1..] == value[n..];
    }
  }

  /** Digits in the stream are characters of the value. */
  lemma {:induction false} PlainSteps(value: Str, n: nat)
    requires n <= |Inside(value)| && forall k :: 0 <= k < n ==> HexValue(Inside(value)[k]) >= 0
    ensures n <= |value| && Inside(value)[n..] == Inside(value[n..])
    decreases n
  {
    if n > 0 {
      PlainStep(value);
      hide Inside, HexValue;
      var t := Inside(value);
      assert forall k :: 0 <= k < n - 1 ==> t[1..][k] == t[k + 1];
      PlainSteps(value[1..], n - 1);
      assert value[1..][n - 1..] == value[n..] && t[1..][n - 1..] == t[n..];
    }
  }

  lemma PlainStep(value: Str)
    requires Inside(value) != [] && HexValue(Inside(value)[0]) >= 0
    ensures value != [] && Inside(value)[1..] == Inside(value[1..])
  {
    hide Inside, Trigraph, HexText, Encode;
    if value == [] {
      InsideEnd();
    } else if StartsTrigraph(value) {
      InsideTrigraph(value);
    } else if Inline(value[0]) {
      InsideChar(value);
    } else {
      BetweenHex(value);
    }
  }

  lemma {:induction false} HexRunDigits(t: Bytes)
    ensures forall k :: 0 <= k < HexRun(t) ==> HexValue(t[k]) >= 0
    decreases t
  {
    if t != [] {
      HexRunDigits(t[1..]);
      assert forall k :: 0 < k < HexRun(t) ==> t[k] == t[1..][k - 1];
    }
  }

  lemma {:induction false} OctalRunDigits(t: Bytes, limit: nat)
    ensures forall k :: 0 <= k < OctalRun(t, limit) ==> HexValue(t[k]) >= 0
    decreases limit
  {
    if t != [] && limit > 0 {
      OctalRunDigits(t[1..], limit - 1);
      assert forall k :: 0 < k < OctalRun(t, limit) ==> t[k] == t[1..][k - 1];
    }
  }

  /** A stray backslash in front of a plain character: one byte at most, and then in step again. */
  lemma EscapeTail(value: Str) returns (n: nat)
    requires value != [] && Inside(value) == [value[0]] + Inside(value[1..])
    ensures 1 <= n <= |value|
    ensures var r := ReadEscape(Inside(value)); r.Some? ==> |r.value.bytes| == 1 && r.value.rest == Inside(value[n..])
  {
    hide Inside, HexValue, HexNumber, OctalNumber, SimpleEscape;
    var t := Inside(value);
    var u := Inside(value[1..]);
    assert t[1..] == u;
    n := 1;
    if t[0] == LOWER_X {
      var k := HexRun(u);
      HexRunDigits(u);
      PlainSteps(value[1..], k);
      n := 1 + k;
      assert t[1 + k..] == u[k..] && value[1..][k..] == value[n..];
    } else if IsOctal(t[0]) {
      var k := OctalRun(t, 3);
      OctalRunDigits(t, 3);
      PlainSteps(value, k);
      if k > 0 {
        n := k;
      }
    }
  }

  lemma ConcatAtMost(bytes: Bytes, r: Option<Bytes>, n: int)
    requires AtMost(r, n)
    ensures AtMost(Concat(bytes, r), |bytes| + n)
  {
  }

  lemma EncodeInline(value: Str)
    requires value != [] && Inline(value[0])
    ensures EncodeAll(value) == [value[0]] + EncodeAll(value[1..])
  {
  }

  lemma EncodeTrigraph(value: Str)
    requires StartsTrigraph(value)
    ensures |EncodeAll(value)| >= 3 + |EncodeAll(value[3..])|
  {
    DropEncode(value, 3);
  }

  lemma EscapesItself(b: byte, t: Bytes)
    requires b == QUOTE || b == BACKSLASH
    ensures Rest([BACKSLASH] + ([b] + t)) == Concat([b], Rest(t))
  {
    assert ([b] + t)[1..] == t;
    assert ReadEscape([b] + t) == Some(Body([b], t));
    hide ReadEscape, Rest;
    RestBackslash([b] + t);
  }

  lemma EscapesNothing(value: Str, t: Bytes)
    requires StartsTrigraph(value) && Trigraph(value[2]).value != BACKSLASH
    ensures Rest([BACKSLASH] + ([Trigraph(value[2]).value] + t)) == None
  {
    var u := [Trigraph(value[2]).value] + t;
    assert ReadEscape(u) == None;
    hide ReadEscape;
    RestBackslash(u);
  }

  lemma NothingInside()
    ensures Rest([]) == None
  {
  }

  /** A trigraph that became a backslash takes the reader out of step; it gains one byte at most. */
  lemma {:induction false} ReadShifted(value: Str)
    ensures AtMost(Rest([BACKSLASH] + Inside(value)), |EncodeAll(value)| + 1)
    decreases |value|, 2
  {
    hide Inside, Rest, ReadEscape, EncodeAll, Encode, HexText, Trigraph, Escape, Inline, StartsTrigraph, HasTrigraph;
    if value == [] {
      InsideEnd();
      EscapesItself(QUOTE, []);
      assert [QUOTE] + [] == [QUOTE];
      NothingInside();
    } else if StartsTrigraph(value) {
      ShiftedTrigraph(value);
    } else if Inline(value[0]) {
      ShiftedChar(value);
    } else {
      ShiftedHex(value);
    }
  }

  lemma ShiftedHex(value: Str)
    requires value != [] && !Inline(value[0])
    ensures Rest([BACKSLASH] + Inside(value)) == None
  {
    hide *;
    var t := [SPACE] + (HexText(Encode(value[0])) + Later(value[1..]));
    BetweenHex(value);
    assert Inside(value) == [QUOTE] + t;
    EscapesItself(QUOTE, t);
    CutByHex(Encode(value[0]), Later(value[1..]));
    ConcatNone([QUOTE]);
  }

  lemma ConcatNone(bytes: Bytes)
    ensures Concat(bytes, None) == None
  {
  }

  lemma {:induction false} ShiftedTrigraph(value: Str)
    requires StartsTrigraph(value)
    ensures AtMost(Rest([BACKSLASH] + Inside(value)), |EncodeAll(value)| + 1)
    decreases |value|, 1
  {
    hide Inside, Rest, ReadEscape, EncodeAll, Trigraph, HasTrigraph;
    InsideTrigraph(value);
    TrigraphKnown(value);
    EncodeTrigraph(value);
    if Trigraph(value[2]).value == BACKSLASH {
      EscapesItself(BACKSLASH, Inside(value[3..]));
      ReadInside(value[3..]);
      ConcatAtMost([BACKSLASH], Rest(Inside(value[3..])), |EncodeAll(value[3..])|);
    } else {
      EscapesNothing(value, Inside(value[3..]));
    }
  }

  lemma {:induction false} ShiftedChar(value: Str)
    requires value != [] && Inline(value[0]) && !StartsTrigraph(value)
    ensures AtMost(Rest([BACKSLASH] + Inside(value)), |EncodeAll(value)| + 1)
    decreases |value|, 1
  {
    hide Inside, Rest, ReadEscape, EncodeAll, Encode, Trigraph, StartsTrigraph, HasTrigraph;
    var rest := value[1..];
    var t := Inside(rest);
    InsideChar(value);
    EncodeInline(value);
    if value[0] == QUOTE || value[0] == BACKSLASH || value[0] == LF || value[0] == CR || value[0] == TAB {
      var second := Escape(value[0])[1];
      assert Inside(value) == [BACKSLASH] + ([second] + t);
      EscapesItself(BACKSLASH, [second] + t);
      if value[0] == QUOTE {
        RestEnd(t);
        ReadOutside(rest);
      } else if value[0] == BACKSLASH {
        ReadShifted(rest);
        ConcatAtMost([BACKSLASH], Rest([BACKSLASH] + t), |EncodeAll(rest)| + 1);
      } else {
        ReadInside(rest);
        RestPlain(second, t);
        ConcatAtMost([second], Rest(t), |EncodeAll(rest)|);
        ConcatAtMost([BACKSLASH], Rest([second] + t), |EncodeAll(rest)| + 1);
      }
    } else {
      ShiftedPlain(value);
    }
  }

  lemma {:induction false} ShiftedPlain(value: Str)
    requires value != [] && Inside(value) == [value[0]] + Inside(value[1..])
    ensures AtMost(Rest([BACKSLASH] + Inside(value)), |EncodeAll(value)| + 1)
    decreases |value|, 0
  {
    hide Inside, Rest, ReadEscape, EncodeAll, HasTrigraph;
    RestBackslash(Inside(value));
    var n := EscapeTail(value);
    var r := ReadEscape(Inside(value));
    if r.Some? {
      ReadInside(value[n..]);
      DropEncode(value, n);
      ConcatAtMost(r.value.bytes, Rest(Inside(value[n..])), |EncodeAll(value[n..])|);
    }
  }

  /** Reading from inside a run: the rest of the value, or less where a trigraph follows. */
  lemma {:induction false} ReadInside(value: Str)
    ensures !HasTrigraph(value) ==> Rest(Inside(value)) == Some(EncodeAll(value))
    ensures HasTrigraph(value) ==> AtMost(Rest(Inside(value)), |EncodeAll(value)| - 1)
    ensures AtMost(Rest(Inside(value)), |EncodeAll(value)|)
    decreases |value|, 3
  {
    if value == [] {
      InsideEnd();
      EmptyInside();
    } else {
      assert HasTrigraph(value) <==> StartsTrigraph(value) || HasTrigraph(value[1..]);
      hide Inside, Rest, EncodeAll, Encode, HexText, Trigraph, StartsTrigraph, HasTrigraph, Inline;
      if StartsTrigraph(value) {
        InsideAtTrigraph(value);
      } else if Inline(value[0]) {
        InsideAtChar(value);
      } else {
        InsideAtHex(value);
      }
    }
  }

  lemma {:induction false} InsideAtTrigraph(value: Str)
    requires StartsTrigraph(value)
    ensures AtMost(Rest(Inside(value)), |EncodeAll(value)| - 1)
    decreases |value|, 2
  {
    hide Inside, Rest, EncodeAll, HasTrigraph;
    InsideTrigraph(value);
    TrigraphKnown(value);
    EncodeTrigraph(value);
    var c := Trigraph(value[2]).value;
    PlainReplacement(value[2]);
    hide Trigraph, StartsTrigraph;
    if c == BACKSLASH {
      ReadShifted(value[3..]);
    } else {
      ReadInside(value[3..]);
      RestPlain(c, Inside(value[3..]));
      ConcatAtMost([c], Rest(Inside(value[3..])), |EncodeAll(value[3..])|);
    }
  }

  lemma {:induction false} InsideAtChar(value: Str)
    requires value != [] && Inline(value[0]) && !StartsTrigraph(value)
    requires HasTrigraph(value) <==> HasTrigraph(value[1..])
    ensures !HasTrigraph(value) ==> Rest(Inside(value)) == Some(EncodeAll(value))
    ensures HasTrigraph(value) ==> AtMost(Rest(Inside(value)), |EncodeAll(value)| - 1)
    ensures AtMost(Rest(Inside(value)), |EncodeAll(value)|)
    decreases |value|, 2
  {
    hide *;
    InlineByte(value[0]);
    InsideChar(value);
    EncodeInline(value);
    ReadInside(value[1..]);
    RestEscape(value[0], Inside(value[1..]));
    ConcatBound([value[0]], value[1..], Rest(Inside(value[1..])));
  }

  lemma {:induction false} InsideAtHex(value: Str)
    requires value != [] && !Inline(value[0])
    ensures !HasTrigraph(value) ==> Rest(Inside(value)) == Some(EncodeAll(value))
    ensures HasTrigraph(value) ==> AtMost(Rest(Inside(value)), |EncodeAll(value)| - 1)
    ensures AtMost(Rest(Inside(value)), |EncodeAll(value)|)
    decreases |value|, 2
  {
    hide *;
    BetweenHex(value);
    var t := Between(value);
    assert Inside(value) == [QUOTE] + ([SPACE] + t);
    RestEnd([SPACE] + t);
    SpaceLiterals(t);
    ReadHexNext(value);
  }

  lemma EmptyInside()
    ensures Rest([QUOTE]) == Some([]) && EncodeAll([]) == []
  {
    RestEnd([]);
    assert [QUOTE] + [] == [QUOTE];
  }

  lemma InlineByte(c: Scalar)
    requires Inline(c)
    ensures 0 <= c < 0x80
  {
  }

  lemma PlainReplacement(b: int)
    requires Trigraph(b).Some?
    ensures Trigraph(b).value != QUOTE && Trigraph(b).value != LF
  {
  }

  /** Bytes in front of a result that is exact, or too short, for the rest. */
  lemma ConcatBound(bytes: Bytes, rest: Str, r: Option<Bytes>)
    requires !HasTrigraph(rest) ==> r == Some(EncodeAll(rest))
    requires HasTrigraph(rest) ==> AtMost(r, |EncodeAll(rest)| - 1)
    ensures !HasTrigraph(rest) ==> Concat(bytes, r) == Some(bytes + EncodeAll(rest))
    ensures HasTrigraph(rest) ==> AtMost(Concat(bytes, r), |bytes| + |EncodeAll(rest)| - 1)
    ensures AtMost(Concat(bytes, r), |bytes| + |EncodeAll(rest)|)
  {
    hide HasTrigraph, EncodeAll;
  }

  lemma {:induction false} ReadHexNext(value: Str)
    requires value != [] && !Inline(value[0])
    ensures !HasTrigraph(value) ==> ReadLiterals(Between(value)) == Some(EncodeAll(value))
    ensures HasTrigraph(value) ==> AtMost(ReadLiterals(Between(value)), |EncodeAll(value)| - 1)
    ensures AtMost(ReadLiterals(Between(value)), |EncodeAll(value)|)
    decreases |value|, 0
  {
    hide *;
    var rest := value[1..];
    EncodeFirst(value);
    NotTrigraph(value);
    BetweenHex(value);
    HexReads(Encode(value[0]), Later(rest));
    LaterReads(rest);
    ReadBetween(rest);
    ConcatBound(Encode(value[0]), rest, ReadLiterals(Between(rest)));
  }

  lemma EncodeFirst(value: Str)
    requires value != []
    ensures EncodeAll(value) == Encode(value[0]) + EncodeAll(value[1..])
  {
  }

  lemma NotTrigraph(value: Str)
    requires value != [] && !Inline(value[0])
    ensures HasTrigraph(value) <==> HasTrigraph(value[1..])
  {
    hide Trigraph;
  }

  /** Reading from between pieces. */
  lemma {:induction false} ReadBetween(value: Str)
    ensures !HasTrigraph(value) ==> ReadLiterals(Between(value)) == Some(EncodeAll(value))
    ensures HasTrigraph(value) ==> AtMost(ReadLiterals(Between(value)), |EncodeAll(value)| - 1)
    ensures AtMost(ReadLiterals(Between(value)), |EncodeAll(value)|)
    decreases |value|, 4
  {
    if value == [] {
      assert Between([]) == [];
    } else {
      hide Between, Inside, ReadLiterals, Rest, EncodeAll, HasTrigraph, Inline;
      if Inline(value[0]) {
        BetweenChar(value);
        OpensLiteral(Inside(value));
        ReadInside(value);
      } else {
        ReadHexNext(value);
      }
    }
  }

  // ----- The round trip -----

  /** A printed literal is one line, so nothing is joined in phase 2. */
  lemma {:induction false} OneLine(value: Str, open: bool)
    ensures LF !in Layout(value, open)
    decreases |value|
  {
    if value != [] {
      OneLine(value[1..], true);
      OneLine(value[1..], false);
      HexOneLine(Encode(value[0]));
      hide HexText, Encode;
    }
  }

  lemma {:induction false} HexOneLine(bytes: Bytes)
    ensures LF !in HexText(bytes)
    decreases bytes
  {
    if bytes != [] {
      HexOneLine(bytes[1..]);
      HexPiecePlain(bytes[0]);
      hide HexPiece;
      assert HexPieces(bytes)[1..] == HexPieces(bytes[1..]);
    }
  }

  /**
   C reads the printed literal back as the UTF-8 bytes of the value exactly when
   no trigraph occurs in it. Nothing that is printed guards against one, and
   with one the bytes are fewer, or there is no literal.
   */
  lemma LiteralRoundTrip(value: Str)
    ensures Denotes(Printed(value)) == Some(EncodeAll(value)) <==> !HasTrigraph(value)
  {
    hide *;
    if value == [] {
      EmptyLiteral();
    } else {
      DenotesBetween(value);
      ReadBetween(value);
      if HasTrigraph(value) {
        TooShort(ReadLiterals(Between(value)), EncodeAll(value));
      }
    }
  }

  lemma DenotesBetween(value: Str)
    requires value != []
    ensures Denotes(Printed(value)) == ReadLiterals(Between(value))
  {
    PrintedLayout(value);
    StartsQuoted(value);
    hide Replaced, Printed, Layout, ReadLiterals;
  }

  lemma TooShort(r: Option<Bytes>, bytes: Bytes)
    requires AtMost(r, |bytes| - 1)
    ensures r != Some(bytes)
  {
  }

  lemma StartsQuoted(value: Str)
    requires value != []
    ensures QUOTE in Between(value)
  {
    hide HexText, Encode, Inside, Between;
    if Inline(value[0]) {
      BetweenChar(value);
    } else {
      BetweenHex(value);
      HexLead(Encode(value[0]));
    }
  }

  lemma EmptyLiteral()
    ensures Denotes(Printed([])) == Some(EncodeAll([])) && !HasTrigraph([])
  {
    ReplacedPlain([QUOTE, QUOTE], []);
    assert Replaced([QUOTE, QUOTE]) == [QUOTE, QUOTE] + [] == [QUOTE, QUOTE] &&
      [QUOTE, QUOTE] + [] == [QUOTE] + [QUOTE];
    OpensLiteral([QUOTE]);
    EmptyInside();
  }

  const BAR: byte := 124

  /** The smallest case: two question marks and an exclamation mark are read as a bar. */
  lemma TrigraphLost()
    ensures var value: Str := [QUESTION, QUESTION, 33];
      HasTrigraph(value) && Denotes(Printed(value)) == Some([BAR]) && EncodeAll(value) == value
  {
    var value: Str := [QUESTION, QUESTION, 33];
    EncodeAllAscii(value);
    PrintedLayout(value);
    BetweenChar(value);
    assert value[3..] == [];
    InsideTrigraph(value);
    InsideEnd();
    assert Between(value) == [QUOTE] + ([BAR] + [QUOTE]);
    OpensLiteral([BAR] + [QUOTE]);
    RestPlain(BAR, [QUOTE]);
    EmptyInside();
    hide Inside, Layout, Rest, ReadLiterals, EncodeAll, Printed;
    assert [BAR] + [] == [BAR];
  }
}
