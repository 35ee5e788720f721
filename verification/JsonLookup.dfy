/** Top-level member lookup: json_key_equals and find_top_level_value of src/mipc.c. */
module JsonLookup {
  import opened Bytes
  import opened JsonGrammar
  import opened JsonScanner
  import opened JsonLeaves
  import opened JsonValues

  // ----- Comparing a key -----

  /** The character that a simple escape letter stands for. */
  function Unescape(letter: byte): (b: Option<byte>)
    ensures b.Some? <==> SimpleEscape(letter)
  {
    if letter == QUOTE || letter == BACKSLASH || letter == SLASH then Some(letter)
    else if letter == 98 then Some(8)
    else if letter == 102 then Some(12)
    else if letter == 110 then Some(LF)
    else if letter == 114 then Some(CR)
    else if letter == 116 then Some(TAB)
    else None
  }

  /** Does the text between the quotes spell `key` without \u escapes? */
  predicate Spells(t: Bytes, key: Bytes) {
    if t == [] then key == []
    else if t[0] != BACKSLASH then key != [] && t[0] == key[0] && Spells(t[1..], key[1..])
    else if |t| == 1 || Unescape(t[1]) == None then false
    else key != [] && Unescape(t[1]).value == key[0] && Spells(t[2..], key[1..])
  }

  /** The string a key denotes when it uses simple escapes only. */
  function SimpleKey(us: seq<Unit>): Option<Bytes>
    requires UnitsOk(us)
  {
    if us == [] then Some([])
    else
      var rest := SimpleKey(us[1..]);
      if us[0].Hex? || rest == None then None
      else Some([if us[0].Plain? then us[0].b else Unescape(us[0].letter).value] + rest.value)
  }

  lemma {:induction false} SpellsExact(us: seq<Unit>, key: Bytes)
    requires UnitsOk(us)
    ensures Spells(UnitsText(us), key) <==> SimpleKey(us) == Some(key)
    decreases us
  {
    if us != [] {
      var t := UnitsText(us);
      assert t == UnitText(us[0]) + UnitsText(us[1..]);
      if key != [] {
        SpellsExact(us[1..], key[1..]);
        assert t[|UnitText(us[0])|..] == UnitsText(us[1..]);
        assert key == [key[0]] + key[1..];
      }
      if us[0].Hex? {
        assert t[0] == BACKSLASH && t[1] == LOWER_U;
      }
    }
  }

  method KeyEquals(s: Bytes, begin: nat, end: nat, key: Bytes) returns (equal: bool)
    requires CString(s) && CString(key) && begin + 2 <= end <= |s|
    ensures equal <==> Spells(s[begin + 1..end - 1], key)
  {
    var cursor := begin + 1;
    var keyCursor := 0;
    while cursor < end - 1
      invariant begin + 1 <= cursor <= end - 1 && 0 <= keyCursor <= |key|
      invariant Spells(s[begin + 1..end - 1], key) <==> Spells(s[cursor..end - 1], key[keyCursor..])
    {
      ghost var t := s[cursor..end - 1];
      var decoded: byte;
      var next := cursor + 1;
      if s[cursor] == BACKSLASH {
        if next >= end - 1 {
          return false;
        }
        var simple := Unescape(s[next]);
        if simple == None {
          return false;
        }
        decoded := simple.value;
        next := next + 1;
      } else {
        decoded := s[cursor];
      }
      if At(key, keyCursor) == NUL || decoded != key[keyCursor] {
        return false;
      }
      assert t[next - cursor..] == s[next..end - 1];
      assert key[keyCursor..][1..] == key[keyCursor + 1..];
      cursor := next;
      keyCursor := keyCursor + 1;
    }
    return At(key, keyCursor) == NUL;
  }

  // ----- Finding a member -----

  datatype Lookup = BadArgument | BadJson | Missing | Span(begin: nat, end: nat)

  /** One member as the search reads it: its key, its value and the delimiter behind it. */
  datatype Turn = Turn(keyEnd: nat, begin: nat, end: nat, after: nat)

  /** The member whose key starts at `i`; the depth of its value starts at 1. */
  function ReadTurn(s: Bytes, i: nat): (t: Option<Turn>)
    requires i <= |s|
    ensures t.Some? ==> i + 2 <= t.value.keyEnd <= t.value.begin < t.value.end <= t.value.after < |s|
  {
    var c := ScanKey(s, i);
    if c == None then None
    else
      var b := SpaceEnd(s, c.value);
      var e := ScanValue(s, b, 1);
      if e == None then None
      else
        var d := SpaceEnd(s, e.value);
        if At(s, d) != COMMA && At(s, d) != RBRACE then None
        else Some(Turn(ScanString(s, i).value, b, e.value, d))
  }

  /** Search from the key at `i`. */
  function FindFrom(s: Bytes, i: nat, key: Bytes): (r: Lookup)
    requires i <= |s|
    ensures r.Span? ==> i < r.begin < r.end <= |s|
    decreases |s| - i
  {
    match ReadTurn(s, i)
    case None => BadJson
    case Some(t) =>
      if Spells(s[i + 1..t.keyEnd - 1], key) then Span(t.begin, t.end)
      else if s[t.after] == RBRACE then Missing
      else FindFrom(s, SpaceEnd(s, t.after + 1), key)
  }

  function FindValue(s: Bytes, key: Bytes): (r: Lookup)
    ensures r.Span? ==> r.begin < r.end <= |s|
  {
    var i := SpaceEnd(s, 0);
    if key == [] then BadArgument
    else if At(s, i) != LBRACE then BadJson
    else
      var k := SpaceEnd(s, i + 1);
      if At(s, k) == RBRACE then Missing else FindFrom(s, k, key)
  }

  method NextTurn(s: Bytes, start: nat) returns (t: Option<Turn>)
    requires start <= |s| && CString(s)
    ensures t == ReadTurn(s, start)
  {
    var keyEnd := SkipJsonString(s, start);
    if keyEnd == None {
      return None;
    }
    var cursor := SkipSpace(s, keyEnd.value);
    if At(s, cursor) != COLON {
      return None;
    }
    var begin := SkipSpace(s, cursor + 1);
    var end := SkipJsonValue(s, begin, 1);
    if end == None {
      return None;
    }
    var after := SkipSpace(s, end.value);
    if At(s, after) != COMMA && At(s, after) != RBRACE {
      return None;
    }
    return Some(Turn(keyEnd.value, begin, end.value, after));
  }

  method FindTopLevelValue(s: Bytes, key: Bytes) returns (r: Lookup)
    requires CString(s) && CString(key)
    ensures r == FindValue(s, key)
  {
    hide ReadTurn, Spells, SpaceEnd, FindFrom;
    if key == [] {
      return BadArgument;
    }
    var cursor := SkipSpace(s, 0);
    if At(s, cursor) != LBRACE {
      return BadJson;
    }
    cursor := SkipSpace(s, cursor + 1);
    if At(s, cursor) == RBRACE {
      return Missing;
    }
    r := FindFirst(s, cursor, key);
  }

  /** The loop of find_top_level_value over the members. */
  method FindFirst(s: Bytes, first: nat, key: Bytes) returns (r: Lookup)
    requires CString(s) && CString(key) && first <= |s|
    ensures r == FindFrom(s, first, key)
  {
    hide *;
    var cursor := first;
    while true
      invariant first <= cursor <= |s|
      invariant FindFrom(s, cursor, key) == FindFrom(s, first, key)
      decreases |s| - cursor
    {
      var turn := NextTurn(s, cursor);
      if turn == None {
        NoTurn(s, cursor, key);
        return BadJson;
      }
      var t := turn.value;
      FindStep(s, cursor, t, key);
      var equal := KeyEquals(s, cursor, t.keyEnd, key);
      if equal {
        return Span(t.begin, t.end);
      }
      if s[t.after] == RBRACE {
        return Missing;
      }
      cursor := SkipSpace(s, t.after + 1);
    }
  }

  lemma NoTurn(s: Bytes, i: nat, key: Bytes)
    requires i <= |s| && ReadTurn(s, i) == None
    ensures FindFrom(s, i, key) == BadJson
  {
    hide ReadTurn;
  }

  lemma FindStep(s: Bytes, i: nat, t: Turn, key: Bytes)
    requires i <= |s| && ReadTurn(s, i) == Some(t)
    ensures FindFrom(s, i, key) ==
      if Spells(s[i + 1..t.keyEnd - 1], key) then Span(t.begin, t.end)
      else if s[t.after] == RBRACE then Missing
      else FindFrom(s, SpaceEnd(s, t.after + 1), key)
  {
    hide ReadTurn, Spells;
  }

  // ----- Lookup on the syntax tree -----

  predicate Named(m: Member, key: Bytes) {
    UnitsOk(m.key) && SimpleKey(m.key) == Some(key)
  }

  /** The first member named `key`. */
  function FirstNamed(members: seq<Member>, key: Bytes): (n: Option<nat>)
    ensures n.Some? ==> n.value < |members| && Named(members[n.value], key)
    ensures n.Some? ==> forall k :: 0 <= k < n.value ==> !Named(members[k], key)
    ensures n.None? ==> forall k :: 0 <= k < |members| ==> !Named(members[k], key)
  {
    if members == [] then None
    else if Named(members[0], key) then Some(0)
    else
      var n := FirstNamed(members[1..], key);
      assert forall k :: 1 <= k < |members| ==> members[k] == members[1..][k - 1];
      if n == None then None else Some(n.value + 1)
  }

  /** Where the value of member `n` starts within the members' text. */
  function ValueOffset(members: seq<Member>, n: nat): nat
    requires n < |members|
  {
    var first := |KeyText(members[0])| + |members[0].gap|;
    if n == 0 then first
    else first + |Text(members[0].value)| + |members[0].after| + 1 + ValueOffset(members[1..], n - 1)
  }

  function Expected(i: nat, members: seq<Member>, key: Bytes): Lookup {
    match FirstNamed(members, key)
    case None => Missing
    case Some(n) =>
      var b := i + ValueOffset(members, n);
      Span(b, b + |Text(members[n].value)|)
  }

  /** What the search reads of the first member of a grammatical list at `i`. */
  function FirstTurn(i: nat, m: Member): Turn {
    var k := i + |KeyText(m)|;
    var j := k + |m.gap| + |Text(m.value)|;
    Turn(i + |m.before| + |StringText(m.key)|, k + |m.gap|, j, j + |m.after|)
  }

  lemma ReadValue(s: Bytes, k: nat, gap: Bytes, v: Json)
    requires Ok(v) && Spaces(gap) && Height(v) <= MAX_DEPTH
    requires Occurs(s, k, gap) && Occurs(s, k + |gap|, Text(v)) && EndsAt(s, k + |gap| + |Text(v)|, v)
    ensures SpaceEnd(s, k) == k + |gap|
    ensures ScanValue(s, k + |gap|, 1) == Some(k + |gap| + |Text(v)|)
  {
    hide Occurs, ScanValue;
    SkipToValue(s, k, gap, v);
    var none: Bytes := [];
    assert none + Text(v) == Text(v);
    OccursConcat(s, k + |gap|, none, Text(v));
    assert k + |gap| + |none| == k + |gap|;
    ValueComplete(s, k + |gap|, 1, none, v);
  }

  /** The parts of a member's turn, each found by its own scan. */
  lemma TurnIs(s: Bytes, i: nat, q: nat, c: nat, b: nat, e: nat, d: nat)
    requires i <= |s| && ScanString(s, i) == Some(q) && ScanKey(s, i) == Some(c)
    requires SpaceEnd(s, c) == b && ScanValue(s, b, 1) == Some(e) && SpaceEnd(s, e) == d < |s|
    requires s[d] == COMMA || s[d] == RBRACE
    ensures ReadTurn(s, i) == Some(Turn(q, b, e, d))
  {
    hide ScanString, ScanKey, ScanValue, SpaceEnd;
  }

  lemma TurnOf(i: nat, m: Member)
    ensures FirstTurn(i, m) == Turn(i + |m.before| + |StringText(m.key)|, i + |KeyText(m)| + |m.gap|,
      i + |KeyText(m)| + |m.gap| + |Text(m.value)|, i + |KeyText(m)| + |m.gap| + |Text(m.value)| + |m.after|)
  {
    hide StringText, KeyText, Text;
  }

  lemma ReadMember(s: Bytes, i: nat, m: Member, tail: Bytes)
    requires MemberOk(m) && Height(m.value) <= MAX_DEPTH
    requires tail != [] && (tail[0] == COMMA || tail[0] == RBRACE)
    requires DerivesKey(s, i, i + |KeyText(m)|, m)
    requires Occurs(s, i + |KeyText(m)|, m.gap) && Occurs(s, FirstTurn(i, m).begin, Text(m.value))
    requires Occurs(s, FirstTurn(i, m).end, m.after) && Occurs(s, FirstTurn(i, m).after, tail)
    ensures SpaceEnd(s, i) == i + |m.before| && At(s, i + |m.before|) == QUOTE
    ensures ReadTurn(s, i + |m.before|) == Some(FirstTurn(i, m))
    ensures s[FirstTurn(i, m).after] == tail[0]
  {
    hide *;
    TurnOf(i, m);
    MemberParts(m);
    var t := FirstTurn(i, m);
    KeyComplete(s, i, i + |KeyText(m)|, m);
    AtInside(s, i + |m.before|);
    SkipToTail(s, t.end, m.after, tail);
    EndsHere(s, t.end, m.value);
    ReadValue(s, i + |KeyText(m)|, m.gap, m.value);
    TurnIs(s, i + |m.before|, t.keyEnd, i + |KeyText(m)|, t.begin, t.end, t.after);
  }

  lemma StringSpelt(us: seq<Unit>)
    ensures StringText(us) == [QUOTE] + (UnitsText(us) + [QUOTE])
  {
    hide UnitsText;
  }

  lemma KeyOccurs(s: Bytes, i: nat, m: Member)
    requires DerivesKey(s, i, i + |KeyText(m)|, m)
    ensures Occurs(s, i + |m.before|, StringText(m.key)) && UnitsOk(m.key)
  {
    OccursFour(s, i, m.before, StringText(m.key), m.mid, [COLON]);
    hide Occurs, StringText;
  }

  lemma NamedIs(m: Member, key: Bytes)
    requires UnitsOk(m.key)
    ensures Named(m, key) <==> SimpleKey(m.key) == Some(key)
  {
    hide SimpleKey, UnitsOk;
  }

  lemma ReadKey(s: Bytes, i: nat, m: Member, key: Bytes)
    requires DerivesKey(s, i, i + |KeyText(m)|, m) && FirstTurn(i, m).keyEnd <= |s|
    ensures Spells(s[i + |m.before| + 1..FirstTurn(i, m).keyEnd - 1], key) <==> Named(m, key)
  {
    hide *;
    TurnOf(i, m);
    var k := i + |m.before|;
    KeyOccurs(s, i, m);
    StringSpelt(m.key);
    OccursThree(s, k, [QUOTE], UnitsText(m.key), [QUOTE]);
    OccursSlice(s, k + 1, UnitsText(m.key));
    SpellsExact(m.key, key);
    NamedIs(m, key);
  }

  /** The search's turn on the first member of a grammatical list. */
  lemma FirstMember(s: Bytes, i: nat, members: seq<Member>, key: Bytes)
    requires members != [] && MembersOk(members) && Occurs(s, i, MembersText(members))
    requires MembersHeight(members) <= MAX_DEPTH
    ensures var t := FirstTurn(i, members[0]);
      && At(s, SpaceEnd(s, i)) == QUOTE
      && Occurs(s, t.after, MembersTail(members[1..]))
      && FindFrom(s, SpaceEnd(s, i), key) ==
         if Named(members[0], key) then Span(t.begin, t.end)
         else if members[1..] == [] then Missing
         else FindFrom(s, SpaceEnd(s, t.after + 1), key)
  {
    hide *;
    var m := members[0];
    MembersParts(members);
    MembersTailIs(members[1..]);
    TailDelimiter(members[1..]);
    TurnOf(i, m);
    SplitMembers(s, i, members);
    ReadMember(s, i, m, MembersTail(members[1..]));
    ReadKey(s, i, m, key);
    FindStep(s, i + |m.before|, FirstTurn(i, m), key);
  }

  lemma TailDelimiter(rest: seq<Member>)
    ensures MembersTail(rest) != [] && (MembersTail(rest)[0] == RBRACE <==> rest == [])
  {
    hide MembersText;
  }

  lemma ExpectedStep(i: nat, members: seq<Member>, key: Bytes)
    requires members != []
    ensures var t := FirstTurn(i, members[0]);
      Expected(i, members, key) ==
      if Named(members[0], key) then Span(t.begin, t.end)
      else if members[1..] == [] then Missing
      else Expected(t.after + 1, members[1..], key)
  {
    hide Named, Text, KeyText, StringText;
  }

  lemma {:induction false} FindMembers(s: Bytes, i: nat, members: seq<Member>, key: Bytes)
    requires members != [] && MembersOk(members) && Occurs(s, i, MembersText(members))
    requires MembersHeight(members) <= MAX_DEPTH
    ensures At(s, SpaceEnd(s, i)) == QUOTE
    ensures FindFrom(s, SpaceEnd(s, i), key) == Expected(i, members, key)
    decreases members
  {
    hide *;
    var rest := members[1..];
    MembersParts(members);
    MembersTailIs(rest);
    ExpectedStep(i, members, key);
    FirstMember(s, i, members, key);
    if rest != [] {
      var d := FirstTurn(i, members[0]).after;
      OccursConcat(s, d, [COMMA], MembersText(rest));
      FindMembers(s, d + 1, rest, key);
    }
  }

  /**
   On a grammatical object within the depth bound, with any text behind it, the
   search returns the span of the first member that `key` names, and reports a
   missing member exactly when no top-level member has that name.
   */
  lemma FindValueExact(s: Bytes, ws: Bytes, v: Json, key: Bytes)
    requires Spaces(ws) && Ok(v) && (v.Object? || v.EmptyObject?) && Height(v) <= MAX_DEPTH + 1
    requires Occurs(s, 0, ws) && Occurs(s, |ws|, Text(v)) && key != []
    ensures FindValue(s, key) == if v.Object? then Expected(|ws| + 1, v.members, key) else Missing
  {
    hide *;
    SkipToValue(s, 0, ws, v);
    FirstByte(v);
    AtInside(s, |ws|);
    ObjectParts(v);
    FindStart(s, key);
    if v.Object? {
      OccursConcat(s, |ws|, [LBRACE], MembersText(v.members));
      FindMembers(s, |ws| + 1, v.members, key);
      QuoteOpens();
    } else {
      OccursThree(s, |ws|, [LBRACE], v.gap, [RBRACE]);
      SkipToTail(s, |ws| + 1, v.gap, [RBRACE]);
      AtInside(s, |ws| + 1 + |v.gap|);
    }
  }

  lemma QuoteOpens()
    ensures QUOTE != RBRACE
  {
  }

  lemma FindStart(s: Bytes, key: Bytes)
    requires key != [] && At(s, SpaceEnd(s, 0)) == LBRACE
    ensures var i := SpaceEnd(s, 0);
      && i < |s|
      && FindValue(s, key) ==
         if At(s, SpaceEnd(s, i + 1)) == RBRACE then Missing else FindFrom(s, SpaceEnd(s, i + 1), key)
  {
    hide SpaceEnd, FindFrom;
  }
}
