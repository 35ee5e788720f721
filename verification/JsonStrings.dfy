/** What a JSON string denotes, and that the decoder of src/mipc.c computes it. */
module JsonStrings {
  import opened Bytes
  import opened JsonGrammar
  import opened JsonScanner
  import opened JsonLookup
  import opened JsonAccess
  import opened JsonValues
  import Utf8

  predicate HighUnit(u: Unit) {
    u.Hex? && IsHigh(Quad(u.h0, u.h1, u.h2, u.h3))
  }

  predicate LowUnit(u: Unit) {
    u.Hex? && IsLow(Quad(u.h0, u.h1, u.h2, u.h3))
  }

  /** A surrogate escape at `k` that has no partner next to it. */
  predicate Unpaired(us: seq<Unit>, k: nat)
    requires k < |us|
  {
    || (HighUnit(us[k]) && !(k + 1 < |us| && LowUnit(us[k + 1])))
    || (LowUnit(us[k]) && !(k > 0 && HighUnit(us[k - 1])))
  }

  predicate Paired(us: seq<Unit>) {
    forall k :: 0 <= k < |us| ==> !Unpaired(us, k)
  }

  /** The bytes of the unit at `k`: a pair is worth one scalar value, counted at its first half. */
  function UnitBytes(us: seq<Unit>, k: nat): Bytes
    requires UnitsOk(us) && k < |us| && !Unpaired(us, k)
  {
    var u := us[k];
    if u.Plain? then [u.b]
    else if u.Escape? then [Unescape(u.letter).value]
    else
      var v := Quad(u.h0, u.h1, u.h2, u.h3);
      if IsHigh(v) then Utf8.Encode(Combine(v, Quad(us[k + 1].h0, us[k + 1].h1, us[k + 1].h2, us[k + 1].h3)))
      else if IsLow(v) then []
      else Utf8.Encode(v)
  }

  function Denoted(us: seq<Unit>, k: nat): Bytes
    requires UnitsOk(us) && Paired(us) && k <= |us|
    decreases |us| - k
  {
    if k == |us| then [] else UnitBytes(us, k) + Denoted(us, k + 1)
  }

  lemma UnitsHead(us: seq<Unit>, k: nat)
    requires k < |us|
    ensures UnitsText(us[k..]) == UnitText(us[k]) + UnitsText(us[k + 1..])
  {
    assert us[k..][1..] == us[k + 1..];
  }

  function UnitQuad(u: Unit): int
    requires u.Hex?
  {
    Quad(u.h0, u.h1, u.h2, u.h3)
  }

  lemma DecodeSimple(u: Unit, rest: Bytes)
    requires UnitOk(u) && !u.Hex?
    ensures var t := UnitText(u) + rest;
      DecodeOne(t) == Some(Chunk(|UnitText(u)|, [if u.Plain? then u.b else Unescape(u.letter).value]))
  {
    var t := UnitText(u) + rest;
    assert t[0] == UnitText(u)[0];
    if u.Escape? {
      assert t[1] == u.letter;
    }
  }

  lemma HexAt(t: Bytes, i: nat, u: Unit, rest: Bytes)
    requires UnitOk(u) && u.Hex? && i + 6 <= |t| && t[i..] == UnitText(u) + rest
    ensures t[i] == BACKSLASH && t[i + 1] == LOWER_U && QuadAt(t, i + 2) == UnitQuad(u)
  {
    forall k | 0 <= k < 6
      ensures t[i + k] == UnitText(u)[k]
    {
      assert t[i..][k] == t[i + k];
    }
    assert t[i + 0] == BACKSLASH && t[i + 1] == LOWER_U;
    assert t[i + 2] == u.h0 && t[i + 3] == u.h1 && t[i + 4] == u.h2 && t[i + 5] == u.h3;
  }

  lemma DecodeLone(u: Unit, rest: Bytes)
    requires UnitOk(u) && u.Hex? && !HighUnit(u)
    ensures DecodeOne(UnitText(u) + rest) ==
            if LowUnit(u) then None else Some(Chunk(6, Utf8.Encode(UnitQuad(u))))
  {
    var t := UnitText(u) + rest;
    assert t[0..] == t;
    HexAt(t, 0, u, rest);
  }

  lemma DecodePair(u: Unit, low: Unit, rest: Bytes)
    requires UnitOk(u) && HighUnit(u) && UnitOk(low) && LowUnit(low)
    ensures DecodeOne(UnitText(u) + (UnitText(low) + rest)) ==
            Some(Chunk(12, Utf8.Encode(Combine(UnitQuad(u), UnitQuad(low)))))
  {
    var t := UnitText(u) + (UnitText(low) + rest);
    assert t[0..] == t;
    HexAt(t, 0, u, UnitText(low) + rest);
    assert t[6..] == UnitText(low) + rest;
    HexAt(t, 6, low, rest);
  }

  /** A first half without a second half behind it is refused. */
  lemma DecodeHalf(u: Unit, us: seq<Unit>)
    requires UnitOk(u) && HighUnit(u) && UnitsOk(us) && (us == [] || !LowUnit(us[0]))
    ensures DecodeOne(UnitText(u) + UnitsText(us)) == None
  {
    var t := UnitText(u) + UnitsText(us);
    assert t[0..] == t;
    HexAt(t, 0, u, UnitsText(us));
    assert t[6..] == UnitsText(us);
    if us != [] {
      var rest := UnitsText(us[1..]);
      assert t[6..] == UnitText(us[0]) + rest;
      if us[0].Hex? {
        HexAt(t, 6, us[0], rest);
      } else {
        assert t[6] == t[6..][0] == UnitText(us[0])[0];
        if us[0].Escape? {
          assert t[7] == t[6..][1] == UnitText(us[0])[1];
        }
      }
    }
  }

  lemma Skip(a: Bytes, b: Bytes)
    ensures (a + b)[|a|..] == b
  {
  }

  /** The decoder's turn at unit `k`, when `k` is not the second half of a pair. */
  lemma DecodeTurn(us: seq<Unit>, k: nat)
    requires UnitsOk(us) && k < |us| && (k == 0 || !HighUnit(us[k - 1]))
    ensures DecodeOne(UnitsText(us[k..])) ==
      if Unpaired(us, k) then None
      else if HighUnit(us[k]) then Some(Chunk(12, UnitBytes(us, k)))
      else Some(Chunk(|UnitText(us[k])|, UnitBytes(us, k)))
  {
    UnitsHead(us, k);
    var rest := us[k + 1..];
    if !us[k].Hex? {
      DecodeSimple(us[k], UnitsText(rest));
    } else if !HighUnit(us[k]) {
      DecodeLone(us[k], UnitsText(rest));
    } else if k + 1 < |us| && LowUnit(us[k + 1]) {
      UnitsHead(us, k + 1);
      DecodePair(us[k], us[k + 1], UnitsText(us[k + 2..]));
    } else {
      DecodeHalf(us[k], rest);
    }
  }

  lemma SkipTurn(us: seq<Unit>, k: nat)
    requires UnitsOk(us) && k < |us|
    ensures UnitsText(us[k..]) != []
    ensures UnitsText(us[k..])[|UnitText(us[k])|..] == UnitsText(us[k + 1..])
    ensures HighUnit(us[k]) && k + 1 < |us| && LowUnit(us[k + 1]) ==>
              |UnitsText(us[k..])| >= 12 && UnitsText(us[k..])[12..] == UnitsText(us[k + 2..])
  {
    UnitsHead(us, k);
    Skip(UnitText(us[k]), UnitsText(us[k + 1..]));
    if HighUnit(us[k]) && k + 1 < |us| && LowUnit(us[k + 1]) {
      UnitsHead(us, k + 1);
      var rest := UnitsText(us[k + 2..]);
      assert UnitText(us[k]) + (UnitText(us[k + 1]) + rest) == (UnitText(us[k]) + UnitText(us[k + 1])) + rest;
      Skip(UnitText(us[k]) + UnitText(us[k + 1]), rest);
    }
  }

  lemma DenotedPair(us: seq<Unit>, k: nat)
    requires UnitsOk(us) && Paired(us) && k < |us| && HighUnit(us[k])
    ensures k + 2 <= |us| && Denoted(us, k) == UnitBytes(us, k) + Denoted(us, k + 2)
  {
    assert !Unpaired(us, k);
    assert LowUnit(us[k + 1]) && !Unpaired(us, k + 1);
    assert UnitBytes(us, k + 1) == [];
    assert Denoted(us, k + 1) == [] + Denoted(us, k + 2);
  }

  lemma {:induction false} DecodeFrom(us: seq<Unit>, k: nat)
    requires UnitsOk(us) && Paired(us) && k <= |us| && (k == 0 || !HighUnit(us[k - 1]))
    ensures DecodeText(UnitsText(us[k..])) == Some(Denoted(us, k))
    decreases |us| - k
  {
    hide DecodeOne, UnitBytes;
    if k < |us| {
      DecodeTurn(us, k);
      SkipTurn(us, k);
      assert !Unpaired(us, k);
      if HighUnit(us[k]) {
        DenotedPair(us, k);
        DecodeFrom(us, k + 2);
      } else {
        DecodeFrom(us, k + 1);
      }
    }
  }

  lemma {:induction false} RefuseFrom(us: seq<Unit>, k: nat, bad: nat)
    requires UnitsOk(us) && k <= bad < |us| && Unpaired(us, bad) && (k == 0 || !HighUnit(us[k - 1]))
    ensures DecodeText(UnitsText(us[k..])) == None
    decreases |us| - k
  {
    hide DecodeOne, UnitBytes;
    DecodeTurn(us, k);
    SkipTurn(us, k);
    if !Unpaired(us, k) {
      if HighUnit(us[k]) {
        RefuseFrom(us, k + 2, bad);
      } else {
        RefuseFrom(us, k + 1, bad);
      }
    }
  }

  /**
   The decoder refuses a string exactly when a surrogate escape lacks its partner,
   and otherwise yields what its units denote.
   */
  lemma DecodeExact(us: seq<Unit>)
    requires UnitsOk(us)
    ensures DecodeText(UnitsText(us)) == if Paired(us) then Some(Denoted(us, 0)) else None
  {
    assert us[0..] == us;
    if Paired(us) {
      DecodeFrom(us, 0);
    } else {
      var bad :| 0 <= bad < |us| && Unpaired(us, bad);
      RefuseFrom(us, 0, bad);
    }
  }

  // ----- Fields of grammatical objects -----

  lemma OffsetStep(members: seq<Member>, n: nat)
    requires n < |members|
    ensures var m := members[0];
      ValueOffset(members, n) == |KeyText(m)| + |m.gap| +
        if n == 0 then 0 else |Text(m.value)| + |m.after| + 1 + ValueOffset(members[1..], n - 1)
  {
    hide Text, KeyText;
  }

  lemma {:induction false} ValueOccurs(s: Bytes, i: nat, members: seq<Member>, n: nat)
    requires MembersOk(members) && n < |members| && Occurs(s, i, MembersText(members))
    ensures Occurs(s, i + ValueOffset(members, n), Text(members[n].value))
    decreases n
  {
    hide *;
    var m := members[0];
    var rest := members[1..];
    MembersParts(members);
    OffsetStep(members, n);
    OccursFive(s, i, KeyText(m), m.gap, Text(m.value), m.after, MembersTail(rest));
    if n > 0 {
      var d := i + |KeyText(m)| + |m.gap| + |Text(m.value)| + |m.after|;
      MembersTailIs(rest);
      OccursConcat(s, d, [COMMA], MembersText(rest));
      ValueOccurs(s, d + 1, rest, n - 1);
    }
  }

  /** A field of a grammatical object within the depth bound is the text of the first member it names. */
  lemma ObjectField(members: seq<Member>, key: Bytes, n: nat)
    requires members != [] && MembersOk(members) && MembersHeight(members) <= MAX_DEPTH && key != []
    requires FirstNamed(members, key) == Some(n)
    ensures Raw(Text(Object(members)), key) == Value(Text(members[n].value))
  {
    hide Occurs, FindValue, Text, Ok, MembersOk, MembersHeight, FirstNamed, ValueOffset;
    var v := Object(members);
    var b := 1 + ValueOffset(members, n);
    var t := Text(members[n].value);
    FoundAt(members, key, n);
    assert FindValue(Text(v), key) == Span(b, b + |t|) && Occurs(Text(v), b, t);
    OccursSlice(Text(v), b, t);
  }

  lemma ObjectOk(members: seq<Member>)
    requires members != [] && MembersOk(members) && MembersHeight(members) <= MAX_DEPTH
    ensures Ok(Object(members)) && Height(Object(members)) <= MAX_DEPTH + 1
    ensures Text(Object(members)) == [LBRACE] + MembersText(members)
  {
  }

  lemma FoundAt(members: seq<Member>, key: Bytes, n: nat)
    requires members != [] && MembersOk(members) && MembersHeight(members) <= MAX_DEPTH && key != []
    requires FirstNamed(members, key) == Some(n)
    ensures var b := 1 + ValueOffset(members, n);
      && FindValue(Text(Object(members)), key) == Span(b, b + |Text(members[n].value)|)
      && Occurs(Text(Object(members)), b, Text(members[n].value))
  {
    hide Occurs, FindValue, Text, Ok, Height, MembersText, ValueOffset, FirstNamed, MembersOk, MembersHeight;
    var v := Object(members);
    var s := Text(v);
    ObjectOk(members);
    WholeOccurs(s);
    FindValueExact(s, [], v, key);
    OccursConcat(s, 0, [LBRACE], MembersText(members));
    ValueOccurs(s, 1, members, n);
  }

  lemma WholeOccurs(s: Bytes)
    ensures Occurs(s, 0, []) && Occurs(s, 0, s)
  {
    OccursSlice(s, 0, s);
  }

  /**
   get_string on a grammatical object: the bytes its first member of that name
   denotes, and invalid JSON exactly when that member is no string or holds an
   unpaired surrogate.
   */
  lemma ObjectString(members: seq<Member>, key: Bytes, n: nat)
    requires members != [] && MembersOk(members) && MembersHeight(members) <= MAX_DEPTH && key != []
    requires FirstNamed(members, key) == Some(n) && Ok(members[n].value)
    ensures var v := members[n].value;
      StringField(Text(Object(members)), key) ==
        if v.Str? && Paired(v.units) then Value(Denoted(v.units, 0)) else Failed(InvalidJson)
  {
    hide MembersOk, MembersHeight, FirstNamed, Raw, DecodeText, UnitsText;
    ObjectField(members, key, n);
    var v := members[n].value;
    FirstByte(v);
    if v.Str? {
      var t := StringText(v.units);
      assert t[1..|t| - 1] == UnitsText(v.units);
      DecodeExact(v.units);
    }
  }
}
