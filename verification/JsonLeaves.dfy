/** The scanner's leaves against the grammar: white space, digits, strings, numbers and words. */
module JsonLeaves {
  import opened Bytes
  import opened JsonGrammar
  import opened JsonScanner

  // ----- Runs of spaces and digits -----

  lemma {:induction false} SpaceEndSound(s: Bytes, i: nat)
    requires i <= |s|
    ensures Spaces(s[i..SpaceEnd(s, i)]) && !IsSpace(At(s, SpaceEnd(s, i)))
    decreases |s| - i
  {
    if i < |s| && IsSpace(s[i]) {
      SpaceEndSound(s, i + 1);
      assert s[i..SpaceEnd(s, i)] == [s[i]] + s[i + 1..SpaceEnd(s, i)];
    }
  }

  lemma {:induction false} SpaceEndComplete(s: Bytes, i: nat, ws: Bytes)
    requires Occurs(s, i, ws) && Spaces(ws) && !IsSpace(At(s, i + |ws|))
    ensures SpaceEnd(s, i) == i + |ws|
    decreases |ws|
  {
    if ws != [] {
      assert s[i] == ws[0];
      SpaceEndComplete(s, i + 1, ws[1..]);
    }
  }

  lemma {:induction false} DigitsEndSound(s: Bytes, i: nat)
    requires i <= |s|
    ensures Digits(s[i..DigitsEnd(s, i)]) && !IsDigit(At(s, DigitsEnd(s, i)))
    decreases |s| - i
  {
    if i < |s| && IsDigit(s[i]) {
      DigitsEndSound(s, i + 1);
      assert s[i..DigitsEnd(s, i)] == [s[i]] + s[i + 1..DigitsEnd(s, i)];
    }
  }

  lemma {:induction false} DigitsEndComplete(s: Bytes, i: nat, ds: Bytes)
    requires Occurs(s, i, ds) && Digits(ds) && !IsDigit(At(s, i + |ds|))
    ensures DigitsEnd(s, i) == i + |ds|
    decreases |ds|
  {
    if ds != [] {
      assert s[i] == ds[0];
      DigitsEndComplete(s, i + 1, ds[1..]);
    }
  }

  // ----- Strings -----

  /** The unit spelt at `i`, when the scanner steps over one. */
  function UnitAt(s: Bytes, i: nat): (u: Unit)
    requires i < |s| && s[i] >= 32 && s[i] != QUOTE
    requires s[i] == BACKSLASH ==>
      i + 1 < |s| && (if s[i + 1] == LOWER_U then FourHex(s, i + 2) else SimpleEscape(s[i + 1]))
    ensures UnitOk(u) && Occurs(s, i, UnitText(u))
  {
    if s[i] != BACKSLASH then
      Plain(s[i])
    else if s[i + 1] == LOWER_U then
      var u := Hex(s[i + 2], s[i + 3], s[i + 4], s[i + 5]);
      assert s[i..i + 6] == UnitText(u);
      OccursSlice(s, i, UnitText(u));
      u
    else
      var u := Escape(s[i + 1]);
      assert s[i..i + 2] == UnitText(u);
      OccursSlice(s, i, UnitText(u));
      u
  }

  lemma UnitsTextCons(u: Unit, us: seq<Unit>)
    ensures UnitsText([u] + us) == UnitText(u) + UnitsText(us)
    ensures UnitOk(u) && UnitsOk(us) ==> UnitsOk([u] + us)
  {
    assert ([u] + us)[1..] == us;
  }

  lemma UnitHere(s: Bytes, i: nat)
    requires i <= |s| && ScanUnits(s, i).Some?
    ensures i < |s|
    ensures s[i] == QUOTE ==> ScanUnits(s, i).value == i + 1
    ensures s[i] != QUOTE ==> s[i] >= 32
    ensures s[i] == BACKSLASH ==>
      i + 1 < |s| && (if s[i + 1] == LOWER_U then FourHex(s, i + 2) else SimpleEscape(s[i + 1]))
  {
    hide FourHex, SimpleEscape;
  }

  lemma EmptyUnits(s: Bytes, i: nat)
    requires i < |s| && s[i] == QUOTE
    ensures UnitsOk([]) && UnitsText([]) == [] && Occurs(s, i, [] + [QUOTE])
  {
    assert [] + [QUOTE] == s[i..i + 1];
  }

  lemma UnitsJoin(s: Bytes, i: nat, u: Unit, rest: seq<Unit>)
    requires UnitOk(u) && UnitsOk(rest)
    requires Occurs(s, i, UnitText(u)) && Occurs(s, i + |UnitText(u)|, UnitsText(rest) + [QUOTE])
    ensures UnitsOk([u] + rest) && Occurs(s, i, UnitsText([u] + rest) + [QUOTE])
    ensures |UnitsText([u] + rest)| == |UnitText(u)| + |UnitsText(rest)|
  {
    hide *;
    UnitsTextCons(u, rest);
    OccursConcat(s, i, UnitText(u), UnitsText(rest) + [QUOTE]);
    assert UnitText(u) + UnitsText(rest) + [QUOTE] == UnitText(u) + (UnitsText(rest) + [QUOTE]);
  }

  lemma {:induction false} UnitsSound(s: Bytes, i: nat) returns (us: seq<Unit>)
    requires i <= |s| && ScanUnits(s, i).Some?
    ensures UnitsOk(us) && Occurs(s, i, UnitsText(us) + [QUOTE])
    ensures ScanUnits(s, i).value == i + |UnitsText(us)| + 1
    decreases |s| - i
  {
    hide *;
    UnitHere(s, i);
    if s[i] == QUOTE {
      us := [];
      EmptyUnits(s, i);
    } else {
      var u := UnitAt(s, i);
      UnitStep(s, i, u);
      OccursInside(s, i, u);
      var rest := UnitsSound(s, i + |UnitText(u)|);
      us := [u] + rest;
      UnitsJoin(s, i, u, rest);
    }
  }

  lemma OccursInside(s: Bytes, i: nat, u: Unit)
    requires Occurs(s, i, UnitText(u))
    ensures |UnitText(u)| > 0 && i + |UnitText(u)| <= |s|
  {
  }

  lemma UnitStep(s: Bytes, i: nat, u: Unit)
    requires UnitOk(u) && Occurs(s, i, UnitText(u))
    ensures ScanUnits(s, i) == ScanUnits(s, i + |UnitText(u)|)
  {
    OccursSlice(s, i, UnitText(u));
    match u
    case Plain(b) =>
      assert s[i + 0] == b;
    case Escape(c) =>
      assert s[i + 0] == BACKSLASH && s[i + 1] == c;
    case Hex(h0, h1, h2, h3) =>
      var text := s[i..i + 6];
      assert text[1] == LOWER_U && text[2] == h0 && text[3] == h1 && text[4] == h2 && text[5] == h3;
      assert FourHex(s, i + 2);
  }

  lemma UnitsSplit(s: Bytes, i: nat, us: seq<Unit>)
    requires us != [] && UnitsOk(us) && Occurs(s, i, UnitsText(us) + [QUOTE])
    ensures UnitOk(us[0]) && UnitsOk(us[1..]) && Occurs(s, i, UnitText(us[0]))
    ensures Occurs(s, i + |UnitText(us[0])|, UnitsText(us[1..]) + [QUOTE])
    ensures |UnitsText(us)| == |UnitText(us[0])| + |UnitsText(us[1..])|
  {
    var rest := us[1..];
    assert [us[0]] + rest == us;
    UnitsTextCons(us[0], rest);
    hide Occurs, UnitOk, UnitText, UnitsText;
    assert UnitText(us[0]) + UnitsText(rest) + [QUOTE] == UnitText(us[0]) + (UnitsText(rest) + [QUOTE]);
    OccursConcat(s, i, UnitText(us[0]), UnitsText(rest) + [QUOTE]);
  }

  lemma ScanQuote(s: Bytes, i: nat)
    requires Occurs(s, i, [] + [QUOTE])
    ensures ScanUnits(s, i) == Some(i + 1) && UnitsText([]) == []
  {
    OccursAt(s, i, [] + [QUOTE], 0);
  }

  lemma {:induction false} UnitsComplete(s: Bytes, i: nat, us: seq<Unit>)
    requires UnitsOk(us) && Occurs(s, i, UnitsText(us) + [QUOTE])
    ensures ScanUnits(s, i) == Some(i + |UnitsText(us)| + 1)
    decreases |us|
  {
    if us == [] {
      ScanQuote(s, i);
    } else {
      hide *;
      UnitsSplit(s, i, us);
      UnitStep(s, i, us[0]);
      UnitsComplete(s, i + |UnitText(us[0])|, us[1..]);
    }
  }

  /** A span the string scanner accepts is a JSON string. */
  lemma StringSound(s: Bytes, i: nat) returns (us: seq<Unit>)
    requires i <= |s| && ScanString(s, i).Some?
    ensures UnitsOk(us) && Occurs(s, i, StringText(us)) && ScanString(s, i).value == i + |StringText(us)|
  {
    us := UnitsSound(s, i + 1);
    OccursConcat(s, i, [QUOTE], UnitsText(us) + [QUOTE]);
    assert Occurs(s, i, [QUOTE]);
    assert StringText(us) == [QUOTE] + (UnitsText(us) + [QUOTE]);
  }

  /** Every JSON string is accepted, wherever it stands and whatever follows. */
  lemma StringComplete(s: Bytes, i: nat, us: seq<Unit>)
    requires UnitsOk(us) && Occurs(s, i, StringText(us))
    ensures ScanString(s, i) == Some(i + |StringText(us)|)
  {
    OccursConcat(s, i, [QUOTE], UnitsText(us) + [QUOTE]);
    assert StringText(us) == [QUOTE] + (UnitsText(us) + [QUOTE]);
    OccursAt(s, i, [QUOTE], 0);
    UnitsComplete(s, i + 1, us);
  }

  // ----- Numbers -----

  /** The byte at `j` cannot continue a number; every delimiter and the terminator qualify. */
  predicate Stops(s: Bytes, j: nat)
    requires j <= |s|
  {
    !IsDigit(At(s, j)) && At(s, j) != DOT && At(s, j) != LOWER_E && At(s, j) != UPPER_E
  }

  lemma WholeSound(s: Bytes, i: nat) returns (ds: Bytes)
    requires i <= |s| && ScanWhole(s, i).Some?
    ensures WholeOk(ds) && Occurs(s, i, ds) && ScanWhole(s, i).value == i + |ds|
  {
    if s[i] == ZERO {
      ds := [ZERO];
    } else {
      DigitsEndSound(s, i + 1);
      ds := s[i..DigitsEnd(s, i + 1)];
      assert ds == [s[i]] + s[i + 1..DigitsEnd(s, i + 1)];
      OccursSlice(s, i, ds);
    }
  }

  lemma WholeComplete(s: Bytes, i: nat, ds: Bytes)
    requires WholeOk(ds) && Occurs(s, i, ds) && !IsDigit(At(s, i + |ds|))
    ensures ScanWhole(s, i) == Some(i + |ds|)
  {
    OccursAt(s, i, ds, 0);
    if ds[0] != ZERO {
      DigitsEndComplete(s, i + 1, ds[1..]);
    }
  }

  lemma FractionSound(s: Bytes, i: nat) returns (f: Option<Bytes>)
    requires i <= |s| && ScanFraction(s, i).Some?
    ensures FractionOk(f) && Occurs(s, i, FractionText(f)) && ScanFraction(s, i).value == i + |FractionText(f)|
  {
    if At(s, i) != DOT {
      f := None;
    } else {
      DigitsEndSound(s, i + 1);
      var ds := s[i + 1..DigitsEnd(s, i + 1)];
      f := Some(ds);
      assert s[i..DigitsEnd(s, i + 1)] == [DOT] + ds;
      OccursSlice(s, i, [DOT] + ds);
    }
  }

  lemma FractionComplete(s: Bytes, i: nat, f: Option<Bytes>)
    requires FractionOk(f) && Occurs(s, i, FractionText(f))
    requires !IsDigit(At(s, i + |FractionText(f)|)) && At(s, i + |FractionText(f)|) != DOT
    ensures ScanFraction(s, i) == Some(i + |FractionText(f)|)
  {
    if f.Some? {
      OccursAt(s, i, FractionText(f), 0);
      OccursAt(s, i, FractionText(f), 1);
      OccursConcat(s, i, [DOT], f.value);
      DigitsEndComplete(s, i + 1, f.value);
    }
  }

  lemma ExponentSound(s: Bytes, i: nat) returns (e: Option<Exponent>)
    requires i <= |s| && ScanExponent(s, i).Some?
    ensures ExponentOk(e) && Occurs(s, i, ExponentText(e)) && ScanExponent(s, i).value == i + |ExponentText(e)|
  {
    if At(s, i) != LOWER_E && At(s, i) != UPPER_E {
      e := None;
    } else {
      var k := SignEnd(s, i + 1);
      DigitsEndSound(s, k);
      var end := DigitsEnd(s, k);
      var sign := s[i + 1..k];
      assert k == i + 2 ==> sign == [s[i + 1]];
      e := Some(Exponent(s[i], sign, s[k..end]));
      assert s[i..end] == [s[i]] + sign + s[k..end];
      OccursSlice(s, i, ExponentText(e));
      assert s[k] == s[k..end][0];
    }
  }

  lemma SignComplete(s: Bytes, i: nat, sign: Bytes, ds: Bytes)
    requires sign == [] || sign == [PLUS] || sign == [DASH]
    requires Digits(ds) && |ds| > 0
    requires Occurs(s, i, sign) && Occurs(s, i + |sign|, ds)
    ensures SignEnd(s, i) == i + |sign| && IsDigit(At(s, i + |sign|))
  {
    OccursAt(s, i + |sign|, ds, 0);
    if sign != [] {
      OccursAt(s, i, sign, 0);
    }
  }

  lemma ExponentComplete(s: Bytes, i: nat, e: Option<Exponent>)
    requires ExponentOk(e) && Occurs(s, i, ExponentText(e))
    requires Stops(s, i + |ExponentText(e)|)
    ensures ScanExponent(s, i) == Some(i + |ExponentText(e)|)
  {
    if e.Some? {
      var x := e.value;
      OccursConcat(s, i, [x.letter] + x.sign, x.digits);
      OccursConcat(s, i, [x.letter], x.sign);
      OccursAt(s, i, [x.letter], 0);
      SignComplete(s, i + 1, x.sign, x.digits);
      DigitsEndComplete(s, i + 1 + |x.sign|, x.digits);
    }
  }

  lemma MagnitudeSound(s: Bytes, i: nat, negative: bool) returns (n: Number)
    requires i <= |s| && ScanMagnitude(s, i).Some?
    ensures NumberOk(n) && n.negative == negative
    ensures Occurs(s, i, n.whole + (FractionText(n.fraction) + ExponentText(n.exponent)))
    ensures ScanMagnitude(s, i).value == i + |n.whole| + |FractionText(n.fraction)| + |ExponentText(n.exponent)|
  {
    hide ScanWhole, ScanFraction, ScanExponent, Occurs, FractionText, ExponentText;
    var ds := WholeSound(s, i);
    var f := FractionSound(s, i + |ds|);
    assert ScanMagnitude(s, i) == ScanExponent(s, i + |ds| + |FractionText(f)|);
    var e := ExponentSound(s, i + |ds| + |FractionText(f)|);
    n := Number(negative, ds, f, e);
    OccursThree(s, i, ds, FractionText(f), ExponentText(e));
  }

  lemma NumberSound(s: Bytes, i: nat) returns (n: Number)
    requires i <= |s| && ScanNumber(s, i).Some?
    ensures NumberOk(n) && Occurs(s, i, NumberText(n)) && ScanNumber(s, i).value == i + |NumberText(n)|
  {
    if At(s, i) == DASH {
      n := MagnitudeSound(s, i + 1, true);
    } else {
      n := MagnitudeSound(s, i, false);
    }
    assert Occurs(s, i, SignText(n));
    OccursConcat(s, i, SignText(n), n.whole + (FractionText(n.fraction) + ExponentText(n.exponent)));
  }

  /** The first byte after a whole part, a fraction or an exponent. */
  lemma TailStops(s: Bytes, i: nat, f: Option<Bytes>, e: Option<Exponent>)
    requires FractionOk(f) && ExponentOk(e)
    requires Occurs(s, i, FractionText(f)) && Occurs(s, i + |FractionText(f)|, ExponentText(e))
    requires Stops(s, i + |FractionText(f)| + |ExponentText(e)|)
    ensures !IsDigit(At(s, i))
    ensures !IsDigit(At(s, i + |FractionText(f)|)) && At(s, i + |FractionText(f)|) != DOT
  {
    if e.Some? {
      OccursAt(s, i + |FractionText(f)|, ExponentText(e), 0);
    }
    if f.Some? {
      OccursAt(s, i, FractionText(f), 0);
    }
  }

  lemma MagnitudeComplete(s: Bytes, i: nat, n: Number)
    requires NumberOk(n)
    requires Occurs(s, i, n.whole + (FractionText(n.fraction) + ExponentText(n.exponent)))
    requires Stops(s, i + |n.whole| + |FractionText(n.fraction)| + |ExponentText(n.exponent)|)
    ensures ScanMagnitude(s, i) == Some(i + |n.whole| + |FractionText(n.fraction)| + |ExponentText(n.exponent)|)
    ensures IsDigit(At(s, i))
  {
    OccursThree(s, i, n.whole, FractionText(n.fraction), ExponentText(n.exponent));
    OccursAt(s, i, n.whole, 0);
    TailStops(s, i + |n.whole|, n.fraction, n.exponent);
    WholeComplete(s, i, n.whole);
    FractionComplete(s, i + |n.whole|, n.fraction);
    ExponentComplete(s, i + |n.whole| + |FractionText(n.fraction)|, n.exponent);
  }

  lemma NumberComplete(s: Bytes, i: nat, n: Number)
    requires NumberOk(n) && Occurs(s, i, NumberText(n)) && Stops(s, i + |NumberText(n)|)
    ensures ScanNumber(s, i) == Some(i + |NumberText(n)|)
    ensures At(s, i) == DASH || IsDigit(At(s, i))
  {
    OccursConcat(s, i, SignText(n), n.whole + (FractionText(n.fraction) + ExponentText(n.exponent)));
    MagnitudeComplete(s, i + |SignText(n)|, n);
    if n.negative {
      OccursAt(s, i, SignText(n), 0);
    }
  }

  // ----- Literal words -----

  lemma WordSound(s: Bytes, i: nat) returns (w: Bytes)
    requires i <= |s| && ScanWord(s, i).Some?
    ensures w == TRUE || w == FALSE || w == NULL
    ensures Occurs(s, i, w) && ScanWord(s, i).value == i + |w| && IsLower(s[i])
  {
    w := if Occurs(s, i, TRUE) then TRUE else if Occurs(s, i, FALSE) then FALSE else NULL;
    OccursAt(s, i, w, 0);
  }

  lemma WordComplete(s: Bytes, i: nat, w: Bytes)
    requires w == TRUE || w == FALSE || w == NULL
    requires Occurs(s, i, w)
    ensures ScanWord(s, i) == Some(i + |w|) && IsLower(At(s, i))
  {
    assert s[i] == w[0];
  }

  /** A byte that starts a number does not start a word. */
  lemma NoWord(s: Bytes, i: nat)
    requires i <= |s| && !IsLower(At(s, i))
    ensures ScanWord(s, i) == None
  {
    if ScanWord(s, i).Some? {
      var _ := WordSound(s, i);
    }
  }
}
