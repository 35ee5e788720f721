/** The C renderer on UTF-8 bytes against the Python renderer on code points. */
module RenderAgreement {
  import opened Bytes
  import opened Template
  import opened Rendering
  import opened Utf8

  // ----- Parameters -----

  /** The parameter of a C caller that passes the text Python would insert, or NULL where there is none. */
  function ToParam(binding: Binding): Param {
    Param(Some(EncodeAll(binding.name)),
          match ArgumentText(Some(binding.value))
          case Some(text) => Some(EncodeAll(text))
          case None => None)
  }

  function ParamTable(params: seq<Binding>): seq<Param> {
    if params == [] then [] else [ToParam(params[0])] + ParamTable(params[1..])
  }

  lemma ValidNameAscii(name: Text)
    requires ValidName(name)
    ensures Ascii(name)
  {
  }

  lemma {:induction false} TableAbsent(params: seq<Binding>, name: Str)
    requires Ascii(name)
    requires forall k :: 0 <= k < |params| ==> params[k].name != name
    ensures FirstParam(ParamTable(params), name) == None
    decreases params
  {
    hide ArgumentText;
    if params != [] {
      EncodeAllAscii(params[0].name);
      TableAbsent(params[1..], name);
      assert ParamTable(params)[1..] == ParamTable(params[1..]);
    }
  }

  /** Both lookups find the same text for a name that a template can hold. */
  lemma {:induction false} TableLookup(params: seq<Binding>, name: Str)
    requires Dict(params) && ValidName(name)
    ensures FirstParam(ParamTable(params), name) ==
            match ArgumentText(Lookup(params, name))
            case Some(text) => Some(EncodeAll(text))
            case None => None
    decreases params
  {
    hide ValidName, Ascii;
    assert ArgumentText(None) == None;
    hide ArgumentText;
    if params != [] {
      ValidNameAscii(name);
      EncodeAllAscii(params[0].name);
      EncodeAllAscii(name);
      assert ParamTable(params)[1..] == ParamTable(params[1..]);
      if params[0].name == name {
        if ArgumentText(Some(params[0].value)) == None {
          TableAbsent(params[1..], name);
        }
      } else {
        TableLookup(params[1..], name);
      }
    }
  }

  // ----- The front of a template and of its encoding -----

  lemma EncodeHead(t: Str)
    requires t != []
    ensures EncodeAll(t) != [] && EncodeAll(t) == Encode(t[0]) + EncodeAll(t[1..])
    ensures t[0] < 0x80 ==> EncodeAll(t)[0] == t[0] && EncodeAll(t)[1..] == EncodeAll(t[1..])
    ensures t[0] >= 0x80 ==> EncodeAll(t)[0] >= 0x80
  {
    if t[0] < 0x80 {
      assert Encode(t[0]) == [t[0]];
    }
  }

  /** A text without the brace, then nothing or a brace: that is where the brace is. */
  lemma {:induction false} CloseUnique(name: Text, rest: Text)
    requires RBRACE !in name && (rest == [] || rest[0] == RBRACE)
    ensures Close(name + rest) == |name| && (name + rest)[..|name|] == name
    decreases name
  {
    var t := name + rest;
    if name == [] {
      assert t == rest;
    } else {
      assert t[1..] == name[1..] + rest;
      CloseUnique(name[1..], rest);
    }
  }

  /** The first closing brace of the encoding is that of the text. */
  lemma CloseEncode(t: Str)
    ensures var n := Close(t);
      && Close(EncodeAll(t)) == |EncodeAll(t[..n])|
      && EncodeAll(t)[..|EncodeAll(t[..n])|] == EncodeAll(t[..n])
      && (n == |t| <==> Close(EncodeAll(t)) == |EncodeAll(t)|)
  {
    hide EncodeAll, Close, Encode;
    var n := Close(t);
    assert t == t[..n] + t[n..];
    EncodeAllConcat(t[..n], t[n..]);
    NoBraceEncode(t[..n]);
    if n == |t| {
      assert t[n..] == [];
      EncodeNothing();
    } else {
      EncodeHead(t[n..]);
    }
    CloseUnique(EncodeAll(t[..n]), EncodeAll(t[n..]));
  }

  lemma EncodeNothing()
    ensures EncodeAll([]) == []
  {
  }

  lemma {:induction false} NoBraceEncode(t: Str)
    requires RBRACE !in t
    ensures RBRACE !in EncodeAll(t)
    decreases t
  {
    if t != [] {
      NoBraceEncode(t[1..]);
      assert RBRACE !in Encode(t[0]);
    }
  }

  /** A name is valid exactly when its encoding is, and then they are the same. */
  lemma ValidNameEncode(name: Str)
    ensures ValidName(EncodeAll(name)) <==> ValidName(name)
    ensures ValidName(name) ==> EncodeAll(name) == name
  {
    EncodeAllAscii(name);
    if ValidName(name) {
      ValidNameAscii(name);
    }
    if ValidName(EncodeAll(name)) {
      ValidNameAscii(EncodeAll(name));
    }
  }

  /** The turn at the front of an encoding, for a character that is not spread over several bytes. */
  lemma OpenTurnEncode(t: Str)
    requires t != [] && t[0] == LBRACE
    ensures EncodeAll(t) != [] && EncodeAll(t)[0] == LBRACE
    ensures var turn := OpenTurn(t);
      if turn.Step? then
        && OpenTurn(EncodeAll(t)) == Step(|EncodeAll(t[..turn.consumed])|, turn.piece)
        && EncodeAll(t)[|EncodeAll(t[..turn.consumed])|..] == EncodeAll(t[turn.consumed..])
      else OpenTurn(EncodeAll(t)).Fail?
  {
    hide ValidName, Close, EncodeAll, Encode;
    EncodeHead(t);
    var rest := t[1..];
    CloseEncode(rest);
    var n := Close(rest);
    var e := EncodeAll(t);
    assert e[1..] == EncodeAll(rest);
    var name := rest[..n];
    assert t[1..1 + n] == name;
    ValidNameEncode(name);
    assert e[1..1 + Close(e[1..])] == EncodeAll(name);
    if n < |rest| && ValidName(name) {
      EncodeSplit(t, n + 2);
      assert t[..n + 2] == [LBRACE as Scalar] + name + [RBRACE as Scalar];
      EncodeThree(name);
    }
  }

  lemma EncodeThree(name: Str)
    ensures |EncodeAll([LBRACE as Scalar] + name + [RBRACE as Scalar])| == |EncodeAll(name)| + 2
  {
    EncodeAllConcat([LBRACE as Scalar] + name, [RBRACE as Scalar]);
    EncodeAllConcat([LBRACE as Scalar], name);
    assert [LBRACE as Scalar][1..] == [];
    assert [RBRACE as Scalar][1..] == [];
  }

  lemma EncodeSplit(t: Str, n: nat)
    requires n <= |t|
    ensures |EncodeAll(t[..n])| <= |EncodeAll(t)| && EncodeAll(t)[|EncodeAll(t[..n])|..] == EncodeAll(t[n..])
  {
    assert t == t[..n] + t[n..];
    EncodeAllConcat(t[..n], t[n..]);
  }

  lemma EncodeOne(c: Scalar)
    ensures EncodeAll([c]) == Encode(c)
  {
    assert [c][1..] == [];
  }

  /** The turn at the front of the encoding of a template that starts with an ASCII character. */
  lemma TurnEncode(t: Str)
    requires t != [] && t[0] < 0x80
    ensures EncodeAll(t) != []
    ensures var turn := TurnOf(t);
      if turn.Step? then
        && TurnOf(EncodeAll(t)) == Step(|EncodeAll(t[..turn.consumed])|, turn.piece)
        && EncodeAll(t)[|EncodeAll(t[..turn.consumed])|..] == EncodeAll(t[turn.consumed..])
      else TurnOf(EncodeAll(t)).Fail?
  {
    hide OpenTurn;
    EncodeHead(t);
    if |t| > 1 {
      EncodeHead(t[1..]);
    }
    if t[0] == LBRACE && !(|t| > 1 && t[1] == LBRACE) {
      OpenTurnEncode(t);
    } else if TurnOf(t).Step? {
      var n := TurnOf(t).consumed;
      EncodeSplit(t, n);
      assert t[..n] == if n == 1 then [t[0]] else [t[0], t[0]];
      EncodeAllAscii(t[..n]);
      assert EncodeAll(t[..n]) == t[..n];
    }
  }

  // ----- Multi-byte characters -----

  /** Bytes from 0x80 on are copied. */
  lemma {:induction false} HighBytes(high: Bytes, rest: Bytes, table: seq<Param>)
    requires forall k :: 0 <= k < |high| ==> high[k] >= 0x80
    ensures var r := RenderBytes(rest, table); RenderBytes(high + rest, table) == Outcome(high + r.text, r.valid)
    decreases high
  {
    if high == [] {
      assert high + rest == rest;
      assert [] + RenderBytes(rest, table).text == RenderBytes(rest, table).text;
    } else {
      var all := high + rest;
      assert TurnOf(all) == Step(1, Char(high[0]));
      hide TurnOf;
      assert all[1..] == high[1..] + rest;
      HighBytes(high[1..], rest, table);
      assert RenderBytes(all, table).text == [high[0]] + RenderBytes(all[1..], table).text;
      hide RenderBytes;
      var text := RenderBytes(rest, table).text;
      assert [high[0]] + (high[1..] + text) == high + text;
    }
  }

  // ----- Agreement -----

  /** A text of scalar values, seen as one. */
  predicate TextPieces(pieces: seq<Piece>) {
    forall k :: 0 <= k < |pieces| ==>
      match pieces[k]
      case Char(c) => 0 <= c < 0xD800 || 0xE000 <= c < 0x110000
      case Slot(name) => ValidName(name)
  }

  lemma {:induction false} ScanTextPieces(t: Str, base: nat)
    ensures TextPieces(Scan(t, base).pieces)
    decreases t
  {
    hide TurnOf, ValidName;
    if t != [] {
      ScanTextPieces(t[TurnOf(t).consumed..], base + TurnOf(t).consumed);
    }
  }

  lemma FillPieceText(params: seq<Binding>, piece: Piece)
    requires TextPieces([piece])
    ensures IsText(FillPiece(params, piece))
  {
    hide ArgumentText;
    assert [piece][0] == piece;
    if piece.Slot? {
      ValidNameAscii(piece.name);
    }
  }

  lemma {:induction false} FillText(params: seq<Binding>, pieces: seq<Piece>)
    requires TextPieces(pieces)
    ensures IsText(FillPieces(params, pieces))
    decreases pieces
  {
    hide FillPiece;
    if pieces != [] {
      FillPieceText(params, pieces[0]);
      FillText(params, pieces[1..]);
    }
  }

  /** The rendered text is a Python string. */
  lemma RenderedText(t: Str, params: seq<Binding>)
    ensures IsText(Rendered(t, params))
  {
    ScanTextPieces(t, 0);
    FillText(params, Scan(t, 0).pieces);
  }

  /** The UTF-8 bytes of the text that Python renders. */
  function RenderedBytes(t: Str, params: seq<Binding>): Bytes {
    RenderedText(t, params);
    EncodeAll(Rendered(t, params))
  }

  /** The same, for the units of the rest of a template. */
  function FilledBytes(params: seq<Binding>, pieces: seq<Piece>): Bytes
    requires TextPieces(pieces)
  {
    FillText(params, pieces);
    EncodeAll(FillPieces(params, pieces))
  }

  lemma FilledCons(params: seq<Binding>, piece: Piece, pieces: seq<Piece>)
    requires TextPieces([piece]) && TextPieces(pieces)
    ensures TextPieces([piece] + pieces)
    ensures FilledBytes(params, [piece] + pieces) == FilledBytes(params, [piece]) + FilledBytes(params, pieces)
  {
    hide FillPiece, ValidName;
    assert TextPieces([piece] + pieces) by {
      assert [piece][0] == piece;
    }
    FillText(params, [piece]);
    FillText(params, pieces);
    FillConcat(params, [piece], pieces);
    hide TextPieces;
    EncodeAllConcat(FillPieces(params, [piece]), FillPieces(params, pieces));
  }

  lemma FillPieceAgrees(params: seq<Binding>, piece: Piece)
    requires Dict(params) && TextPieces([piece]) && (piece.Char? ==> piece.code < 0x80)
    ensures BytePiece(piece) && FillBytes(ParamTable(params), piece) == FilledBytes(params, [piece])
  {
    hide ArgumentText, ValidName, Lookup, FirstParam;
    assert [piece][0] == piece && [piece][1..] == [];
    FillText(params, [piece]);
    assert FillPieces(params, [piece]) == FillPiece(params, piece) + [] == FillPiece(params, piece);
    match piece {
      case Char(c) =>
        EncodeOne(c);
      case Slot(name) =>
        ValidNameAscii(name);
        TableLookup(params, name);
        if ArgumentText(Lookup(params, name)) == None {
          assert Ascii(Visible(name));
          EncodeAllAscii(Visible(name));
        }
    }
  }

  lemma FillHighAgrees(params: seq<Binding>, c: Scalar)
    ensures TextPieces([Char(c)]) && FilledBytes(params, [Char(c)]) == Encode(c)
  {
    assert [Char(c)][1..] == [];
    FillText(params, [Char(c)]);
    assert FillPieces(params, [Char(c)]) == [c] + [];
    EncodeOne(c);
  }

  /** Both renderers, from any place in the template on. */
  lemma {:induction false} AgreeFrom(t: Str, params: seq<Binding>, base: nat)
    requires Dict(params)
    ensures var p := Scan(t, base);
      var c := RenderBytes(EncodeAll(t), ParamTable(params));
      && TextPieces(p.pieces)
      && (c.valid <==> p.errors == [])
      && (c.valid ==> c.text == FilledBytes(params, p.pieces))
    decreases t
  {
    hide TurnOf, FillBytes, ParamTable, Dict, FilledBytes, TextPieces, EncodeAll, Encode;
    ScanTextPieces(t, base);
    if t == [] {
      EmptyAgrees(params);
    } else {
      var turn := TurnOf(t);
      var rest := t[turn.consumed..];
      AgreeFrom(rest, params, base + turn.consumed);
      var p := Scan(rest, base + turn.consumed);
      var table := ParamTable(params);
      if t[0] >= 0x80 {
        HighTurn(t);
        EncodeHead(t);
        HighBytes(Encode(t[0]), EncodeAll(rest), table);
        FillHighAgrees(params, t[0]);
        FilledCons(params, turn.piece, p.pieces);
      } else {
        TurnEncode(t);
        if turn.Step? {
          TurnTextPiece(t);
          FillPieceAgrees(params, turn.piece);
          FilledCons(params, turn.piece, p.pieces);
        }
      }
    }
  }

  lemma EmptyAgrees(params: seq<Binding>)
    ensures EncodeAll([]) == [] && TextPieces([]) && FilledBytes(params, []) == []
  {
  }

  lemma HighTurn(t: Str)
    requires t != [] && t[0] >= 0x80
    ensures TurnOf(t) == Step(1, Char(t[0]))
    ensures forall k :: 0 <= k < |Encode(t[0])| ==> Encode(t[0])[k] >= 0x80
  {
  }

  lemma TurnTextPiece(t: Str)
    requires t != [] && TurnOf(t).Step?
    ensures TextPieces([TurnOf(t).piece]) && (TurnOf(t).piece.Char? ==> TurnOf(t).piece.code == t[0])
  {
    hide ValidName;
  }

  predicate NulFree(t: Str) {
    forall k :: 0 <= k < |t| ==> t[k] != 0
  }

  predicate NulFreeParams(params: seq<Binding>) {
    forall k :: 0 <= k < |params| ==>
      NulFree(params[k].name) && (params[k].value.Plain? ==> NulFree(params[k].value.text))
  }

  /** What C is given are C strings. */
  lemma {:induction false} TableCStrings(params: seq<Binding>)
    requires NulFreeParams(params)
    ensures forall p :: p in ParamTable(params) ==>
      (p.name.Some? ==> CString(p.name.value)) && (p.value.Some? ==> CString(p.value.value))
    decreases params
  {
    hide NulFree;
    if params != [] {
      TableCStrings(params[1..]);
      assert NulFree(params[0].name);
      EncodeNulFree(params[0].name);
      match params[0].value {
        case Plain(text) => EncodeNulFree(text);
        case Integer(n) => EncodeNulFree(Signed(n)); SignedNulFree(n);
        case Other =>
      }
    }
  }

  lemma SignedNulFree(n: int)
    ensures NulFree(Signed(n))
  {
  }

  lemma EncodeNulFree(t: Str)
    ensures NulFree(t) ==> CString(EncodeAll(t))
  {
    if NulFree(t) {
      EncodeAllNul(t);
    }
  }

  /**
   The C renderer refines the Python one. On a NUL-free template and NUL-free
   parameters both accept the same templates, and what C appends for a valid one
   is the UTF-8 form of what Python returns; it is a C string.
   */
  lemma RenderersAgree(t: Str, params: seq<Binding>)
    requires Dict(params) && NulFree(t) && NulFreeParams(params)
    ensures CString(EncodeAll(t))
    ensures var c := RenderBytes(EncodeAll(t), ParamTable(params));
      && CString(c.text)
      && (c.valid <==> Scan(t, 0).errors == [])
      && (c.valid ==> c.text == RenderedBytes(t, params))
  {
    EncodeNulFree(t);
    TableCStrings(params);
    RenderedCString(EncodeAll(t), ParamTable(params));
    AgreeFrom(t, params, 0);
  }

  /**
   The whole call: C encodes nothing itself, so it is given the encoded template
   and parameters, and fills a buffer of any length.
   */
  method RenderEncoded(t: Str, params: seq<Binding>, output: array<byte>) returns (status: RenderStatus, required: nat)
    requires Dict(params) && NulFree(t) && NulFreeParams(params)
    modifies output
    ensures status == BadTemplate <==> Scan(t, 0).errors != []
    ensures Scan(t, 0).errors == [] ==>
              var text := RenderedBytes(t, params);
              && required == |text|
              && (status == BufferTooSmall <==> |text| + 1 > output.Length)
              && output[..] == Delivered(old(output[..]), text)
  {
    RenderersAgree(t, params);
    status, required := Render(EncodeAll(t), ParamTable(params), output);
  }
}
