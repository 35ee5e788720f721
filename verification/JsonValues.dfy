/** The scanner accepts exactly the spans that the JSON grammar derives within the depth bound. */
module JsonValues {
  import opened Bytes
  import opened JsonGrammar
  import opened JsonScanner
  import opened JsonLeaves

  // ----- Soundness -----

  /** A value found by the scanner: the spaces before it, and its syntax tree. */
  datatype Found = Found(before: Bytes, value: Json)

  /** `f` is a derivation of the span from `i` to `j` that respects the depth bound. */
  ghost predicate Derives(s: Bytes, i: nat, depth: nat, j: nat, f: Found) {
    && Spaces(f.before) && Ok(f.value)
    && Occurs(s, i, f.before) && Occurs(s, i + |f.before|, Text(f.value))
    && j == i + |f.before| + |Text(f.value)|
    && depth + Height(f.value) <= MAX_DEPTH + 1
  }

  ghost predicate DerivesItems(s: Bytes, i: nat, depth: nat, j: nat, items: seq<Item>) {
    && items != [] && ItemsOk(items)
    && Occurs(s, i, ItemsText(items)) && j == i + |ItemsText(items)|
    && depth + 1 + ItemsHeight(items) <= MAX_DEPTH + 1
  }

  ghost predicate DerivesMembers(s: Bytes, i: nat, depth: nat, j: nat, members: seq<Member>) {
    && members != [] && MembersOk(members)
    && Occurs(s, i, MembersText(members)) && j == i + |MembersText(members)|
    && depth + 1 + MembersHeight(members) <= MAX_DEPTH + 1
  }

  lemma SpacesAt(s: Bytes, i: nat) returns (ws: Bytes)
    requires i <= |s|
    ensures Spaces(ws) && Occurs(s, i, ws) && SpaceEnd(s, i) == i + |ws| && !IsSpace(At(s, i + |ws|))
  {
    SpaceEndSound(s, i);
    ws := s[i..SpaceEnd(s, i)];
    OccursSlice(s, i, ws);
  }

  lemma ScalarSound(s: Bytes, i: nat) returns (v: Json)
    requires i <= |s| && ScanScalar(s, i).Some?
    ensures Ok(v) && Height(v) == 1 && Occurs(s, i, Text(v)) && ScanScalar(s, i).value == i + |Text(v)|
  {
    if ScanWord(s, i).Some? {
      var w := WordSound(s, i);
      v := Word(w);
    } else {
      var n := NumberSound(s, i);
      v := Num(n);
    }
  }

  /** The branches of the scanner at the first byte behind the spaces. */
  lemma ScanBranch(s: Bytes, i: nat, depth: nat, k: nat)
    requires i <= |s| && k == SpaceEnd(s, i)
    ensures k <= |s|
    ensures At(s, k) == QUOTE || At(s, k) == LBRACE || At(s, k) == LBRACKET ==> k < |s| && s[k] == At(s, k)
    ensures ScanValue(s, i, depth) ==
            if depth > MAX_DEPTH then None
            else if At(s, k) == QUOTE then ScanString(s, k)
            else if At(s, k) == LBRACE then ScanObject(s, k + 1, depth)
            else if At(s, k) == LBRACKET then ScanArray(s, k + 1, depth)
            else ScanScalar(s, k)
  {
    hide ScanString, ScanObject, ScanArray, ScanScalar;
  }

  lemma FoundDerives(s: Bytes, i: nat, depth: nat, ws: Bytes, v: Json)
    requires Spaces(ws) && Ok(v) && Occurs(s, i, ws) && Occurs(s, i + |ws|, Text(v)) &&
      depth + Height(v) <= MAX_DEPTH + 1
    ensures Derives(s, i, depth, i + |ws| + |Text(v)|, Found(ws, v))
  {
    hide Spaces, Ok, Occurs, Text, Height;
  }

  lemma StringIs(us: seq<Unit>)
    ensures Ok(Str(us)) == UnitsOk(us) && Text(Str(us)) == StringText(us) && Height(Str(us)) == 1
  {
    hide UnitsOk, StringText;
  }

  lemma {:induction false} ValueSound(s: Bytes, i: nat, depth: nat) returns (f: Found)
    requires i <= |s| && ScanValue(s, i, depth).Some?
    ensures Derives(s, i, depth, ScanValue(s, i, depth).value, f)
    decreases |s| - i, 1
  {
    hide *;
    var ws := SpacesAt(s, i);
    var k := i + |ws|;
    ScanBranch(s, i, depth, k);
    var v: Json;
    if At(s, k) == QUOTE {
      var us := StringSound(s, k);
      v := Str(us);
      StringIs(us);
    } else if At(s, k) == LBRACE {
      v := ObjectSound(s, k, depth);
    } else if At(s, k) == LBRACKET {
      v := ArraySound(s, k, depth);
    } else {
      v := ScalarSound(s, k);
    }
    f := Found(ws, v);
    FoundDerives(s, i, depth, ws, v);
  }

  lemma OneByte(s: Bytes, i: nat)
    requires i < |s|
    ensures Occurs(s, i, [s[i]])
  {
    assert [s[i]][1..] == [];
  }

  lemma ClosingAt(s: Bytes, c: nat)
    requires c <= |s|
    ensures At(s, c) == RBRACE ==> c < |s| && s[c] == RBRACE
    ensures At(s, c) == RBRACKET ==> c < |s| && s[c] == RBRACKET
  {
  }

  lemma ArrayIs(ws: Bytes, items: seq<Item>)
    ensures Spaces(ws) ==> Ok(EmptyArray(ws))
    ensures Text(EmptyArray(ws)) == [LBRACKET] + (ws + [RBRACKET]) && Height(EmptyArray(ws)) == 1
    ensures items != [] && ItemsOk(items) ==> Ok(Array(items))
    ensures Text(Array(items)) == [LBRACKET] + ItemsText(items) && Height(Array(items)) == 1 + ItemsHeight(items)
  {
    hide Spaces, ItemsOk, ItemsText, ItemsHeight;
  }

  lemma ItemsDerived(s: Bytes, i: nat, depth: nat, j: nat, items: seq<Item>)
    requires DerivesItems(s, i, depth, j, items)
    ensures items != [] && ItemsOk(items) && Occurs(s, i, ItemsText(items)) && j == i + |ItemsText(items)|
    ensures depth + 1 + ItemsHeight(items) <= MAX_DEPTH + 1
  {
    hide ItemsOk, Occurs, ItemsText, ItemsHeight;
  }

  lemma {:induction false} ArraySound(s: Bytes, i: nat, depth: nat) returns (v: Json)
    requires i < |s| && s[i] == LBRACKET && depth <= MAX_DEPTH && ScanArray(s, i + 1, depth).Some?
    ensures Ok(v) && Occurs(s, i, Text(v)) && ScanArray(s, i + 1, depth).value == i + |Text(v)|
    ensures depth + Height(v) <= MAX_DEPTH + 1
    decreases |s| - i, 0
  {
    hide *;
    var ws := SpacesAt(s, i + 1);
    OneByte(s, i);
    ArrayBranch(s, i + 1, depth);
    ClosingAt(s, i + 1 + |ws|);
    if At(s, i + 1 + |ws|) == RBRACKET {
      v := EmptyArray(ws);
      ArrayIs(ws, []);
      OneByte(s, i + 1 + |ws|);
      OccursThree(s, i, [LBRACKET], ws, [RBRACKET]);
    } else {
      var items := ItemsSound(s, i + 1, depth);
      v := Array(items);
      ArrayIs([], items);
      ItemsDerived(s, i + 1, depth, ScanItems(s, SpaceEnd(s, i + 1), depth).value, items);
      OccursConcat(s, i, [LBRACKET], ItemsText(items));
    }
  }

  /** `after` and `rest` derive what follows an item that ends at `j`. */
  ghost predicate DerivesRest(s: Bytes, j: nat, depth: nat, end: nat, after: Bytes, rest: seq<Item>) {
    && Spaces(after) && ItemsOk(rest)
    && Occurs(s, j, after) && Occurs(s, j + |after|, ItemsTail(rest))
    && end == j + |after| + |ItemsTail(rest)|
    && depth + 1 + ItemsHeight(rest) <= MAX_DEPTH + 1
  }

  lemma JoinItem(s: Bytes, i: nat, depth: nat, f: Found, j: nat, end: nat, after: Bytes, rest: seq<Item>)
    requires Derives(s, i, depth + 1, j, f) && DerivesRest(s, j, depth, end, after, rest)
    ensures DerivesItems(s, i, depth, end, [Item(f.before, f.value, after)] + rest)
  {
    var items := [Item(f.before, f.value, after)] + rest;
    assert items[1..] == rest;
    OccursFour(s, i, f.before, Text(f.value), after, ItemsTail(rest));
  }

  /** Spaces in front of a derivation belong to it. */
  lemma Widen(s: Bytes, i: nat, ws: Bytes, depth: nat, j: nat, f: Found)
    requires Spaces(ws) && Occurs(s, i, ws) && Derives(s, i + |ws|, depth, j, f)
    ensures Derives(s, i, depth, j, Found(ws + f.before, f.value))
  {
    hide Occurs, Text, Ok, Height;
    OccursConcat(s, i, ws, f.before);
  }

  lemma {:induction false} ItemsSound(s: Bytes, i: nat, depth: nat) returns (items: seq<Item>)
    requires i <= |s| && depth <= MAX_DEPTH && ScanItems(s, SpaceEnd(s, i), depth).Some?
    ensures DerivesItems(s, i, depth, ScanItems(s, SpaceEnd(s, i), depth).value, items)
    decreases |s| - i, 3
  {
    var ws := SpacesAt(s, i);
    var m := i + |ws|;
    var j := ScanValue(s, m, depth + 1).value;
    var f := ValueSound(s, m, depth + 1);
    Widen(s, i, ws, depth + 1, j, f);
    f := f.(before := ws + f.before);
    var after, rest := RestSound(s, j, depth);
    JoinItem(s, i, depth, f, j, ScanAfterItem(s, j, depth).value, after, rest);
    items := [Item(f.before, f.value, after)] + rest;
  }

  lemma {:induction false} RestSound(s: Bytes, j: nat, depth: nat) returns (after: Bytes, rest: seq<Item>)
    requires j <= |s| && depth <= MAX_DEPTH && ScanAfterItem(s, j, depth).Some?
    ensures DerivesRest(s, j, depth, ScanAfterItem(s, j, depth).value, after, rest)
    decreases |s| - j, 4
  {
    after := SpacesAt(s, j);
    var c := j + |after|;
    rest := [];
    if At(s, c) == RBRACKET {
      assert Occurs(s, c, [RBRACKET]);
    } else {
      rest := ItemsSound(s, c + 1, depth);
      OccursConcat(s, c, [COMMA], ItemsText(rest));
    }
  }

  // Objects follow the same plan, with a key in front of each value.

  lemma ObjectIs(ws: Bytes, members: seq<Member>)
    ensures Spaces(ws) ==> Ok(EmptyObject(ws))
    ensures Text(EmptyObject(ws)) == [LBRACE] + (ws + [RBRACE]) && Height(EmptyObject(ws)) == 1
    ensures members != [] && MembersOk(members) ==> Ok(Object(members))
    ensures Text(Object(members)) == [LBRACE] + MembersText(members) &&
      Height(Object(members)) == 1 + MembersHeight(members)
  {
    hide Spaces, MembersOk, MembersText, MembersHeight;
  }

  lemma MembersDerived(s: Bytes, i: nat, depth: nat, j: nat, members: seq<Member>)
    requires DerivesMembers(s, i, depth, j, members)
    ensures members != [] && MembersOk(members) && Occurs(s, i, MembersText(members)) && j == i + |MembersText(members)|
    ensures depth + 1 + MembersHeight(members) <= MAX_DEPTH + 1
  {
    hide MembersOk, Occurs, MembersText, MembersHeight;
  }

  lemma {:induction false} ObjectSound(s: Bytes, i: nat, depth: nat) returns (v: Json)
    requires i < |s| && s[i] == LBRACE && depth <= MAX_DEPTH && ScanObject(s, i + 1, depth).Some?
    ensures Ok(v) && Occurs(s, i, Text(v)) && ScanObject(s, i + 1, depth).value == i + |Text(v)|
    ensures depth + Height(v) <= MAX_DEPTH + 1
    decreases |s| - i, 0
  {
    hide *;
    var ws := SpacesAt(s, i + 1);
    OneByte(s, i);
    ObjectBranch(s, i + 1, depth);
    ClosingAt(s, i + 1 + |ws|);
    if At(s, i + 1 + |ws|) == RBRACE {
      v := EmptyObject(ws);
      ObjectIs(ws, []);
      OneByte(s, i + 1 + |ws|);
      OccursThree(s, i, [LBRACE], ws, [RBRACE]);
    } else {
      var members := MembersSound(s, i + 1, depth);
      v := Object(members);
      ObjectIs([], members);
      MembersDerived(s, i + 1, depth, ScanMembers(s, SpaceEnd(s, i + 1), depth).value, members);
      OccursConcat(s, i, [LBRACE], MembersText(members));
    }
  }

  ghost predicate DerivesMore(s: Bytes, j: nat, depth: nat, end: nat, after: Bytes, rest: seq<Member>) {
    && Spaces(after) && MembersOk(rest)
    && Occurs(s, j, after) && Occurs(s, j + |after|, MembersTail(rest))
    && end == j + |after| + |MembersTail(rest)|
    && depth + 1 + MembersHeight(rest) <= MAX_DEPTH + 1
  }

  /** `m` has the key that ends at `k`; its value is still to be filled in. */
  ghost predicate DerivesKey(s: Bytes, i: nat, k: nat, m: Member) {
    && Spaces(m.before) && UnitsOk(m.key) && Spaces(m.mid)
    && Occurs(s, i, KeyText(m)) && k == i + |KeyText(m)|
  }

  lemma JoinMember(s: Bytes, i: nat, depth: nat, key: Member, k: nat, f: Found, j: nat, end: nat, after: Bytes,
      rest: seq<Member>)
    requires DerivesKey(s, i, k, key) && Derives(s, k, depth + 1, j, f) && DerivesMore(s, j, depth, end, after, rest)
    ensures DerivesMembers(s, i, depth, end, [Member(key.before, key.key, key.mid, f.before, f.value, after)] + rest)
  {
    var m := Member(key.before, key.key, key.mid, f.before, f.value, after);
    var members := [m] + rest;
    assert members[1..] == rest;
    OccursFive(s, i, KeyText(m), f.before, Text(f.value), after, MembersTail(rest));
  }

  lemma KeySound(s: Bytes, i: nat) returns (m: Member)
    requires i <= |s| && ScanKey(s, SpaceEnd(s, i)).Some?
    ensures DerivesKey(s, i, ScanKey(s, SpaceEnd(s, i)).value, m)
  {
    var ws := SpacesAt(s, i);
    var us := StringSound(s, i + |ws|);
    var k := i + |ws| + |StringText(us)|;
    var mid := SpacesAt(s, k);
    m := Member(ws, us, mid, [], Word(NULL), []);
    assert Occurs(s, k + |mid|, [COLON]);
    OccursFour(s, i, ws, StringText(us), mid, [COLON]);
  }

  lemma {:induction false} MembersSound(s: Bytes, i: nat, depth: nat) returns (members: seq<Member>)
    requires i <= |s| && depth <= MAX_DEPTH && ScanMembers(s, SpaceEnd(s, i), depth).Some?
    ensures DerivesMembers(s, i, depth, ScanMembers(s, SpaceEnd(s, i), depth).value, members)
    decreases |s| - i, 3
  {
    var key := KeySound(s, i);
    var k := ScanKey(s, SpaceEnd(s, i)).value;
    var j := ScanValue(s, k, depth + 1).value;
    var f := ValueSound(s, k, depth + 1);
    var after, rest := MoreSound(s, j, depth);
    JoinMember(s, i, depth, key, k, f, j, ScanAfterMember(s, j, depth).value, after, rest);
    members := [Member(key.before, key.key, key.mid, f.before, f.value, after)] + rest;
  }

  lemma {:induction false} MoreSound(s: Bytes, j: nat, depth: nat) returns (after: Bytes, rest: seq<Member>)
    requires j <= |s| && depth <= MAX_DEPTH && ScanAfterMember(s, j, depth).Some?
    ensures DerivesMore(s, j, depth, ScanAfterMember(s, j, depth).value, after, rest)
    decreases |s| - j, 4
  {
    after := SpacesAt(s, j);
    var c := j + |after|;
    rest := [];
    if At(s, c) == RBRACE {
      assert Occurs(s, c, [RBRACE]);
    } else {
      rest := MembersSound(s, c + 1, depth);
      OccursConcat(s, c, [COMMA], MembersText(rest));
    }
  }

  // ----- Completeness -----

  /** `v` ends at `j` and, if it is a number, what follows does not continue it. */
  predicate EndsAt(s: Bytes, j: nat, v: Json)
    requires j <= |s|
  {
    v.Num? ==> Stops(s, j)
  }

  /** The first byte of a value decides the scanner's branch. */
  lemma FirstByte(v: Json)
    requires Ok(v)
    ensures Text(v) != [] && !IsSpace(Text(v)[0])
    ensures Text(v)[0] == QUOTE <==> v.Str?
    ensures Text(v)[0] == LBRACE <==> v.EmptyObject? || v.Object?
    ensures Text(v)[0] == LBRACKET <==> v.EmptyArray? || v.Array?
    ensures v.Num? ==> !IsLower(Text(v)[0])
    ensures Text(v)[0] != RBRACE && Text(v)[0] != RBRACKET
  {
    match v
    case Num(n) => assert n.whole[0] == (n.whole + (FractionText(n.fraction) + ExponentText(n.exponent)))[0];
    case _ =>
  }

  lemma SkipToValue(s: Bytes, i: nat, ws: Bytes, v: Json)
    requires Ok(v) && Spaces(ws) && Occurs(s, i, ws) && Occurs(s, i + |ws|, Text(v))
    ensures SpaceEnd(s, i) == i + |ws| < |s| && s[i + |ws|] == Text(v)[0]
  {
    FirstByte(v);
    OccursAt(s, i + |ws|, Text(v), 0);
    SpaceEndComplete(s, i, ws);
  }

  lemma ScalarComplete(s: Bytes, i: nat, v: Json)
    requires Ok(v) && (v.Num? || v.Word?) && Occurs(s, i, Text(v)) && EndsAt(s, i + |Text(v)|, v)
    ensures ScanScalar(s, i) == Some(i + |Text(v)|)
  {
    if v.Num? {
      FirstByte(v);
      OccursAt(s, i, Text(v), 0);
      NoWord(s, i);
      NumberComplete(s, i, v.number);
    } else {
      WordComplete(s, i, v.letters);
    }
  }

  /** After a value: spaces, then a byte that neither is a space nor continues a number. */
  lemma SkipToTail(s: Bytes, j: nat, after: Bytes, tail: Bytes)
    requires Spaces(after) && tail != [] && (tail[0] == COMMA || tail[0] == RBRACE || tail[0] == RBRACKET)
    requires Occurs(s, j, after) && Occurs(s, j + |after|, tail)
    ensures SpaceEnd(s, j) == j + |after| < |s| && s[j + |after|] == tail[0]
    ensures Stops(s, j)
  {
    OccursAt(s, j + |after|, tail, 0);
    SpaceEndComplete(s, j, after);
    if after != [] {
      OccursAt(s, j, after, 0);
    }
  }

  lemma HeightBound(depth: nat, v: Json)
    requires depth + Height(v) <= MAX_DEPTH + 1
    ensures depth <= MAX_DEPTH
  {
  }

  /** The bytes that choose a branch are different ones. */
  lemma Branches(b: int)
    ensures b == QUOTE ==> b != LBRACE && b != LBRACKET
    ensures b == LBRACE ==> b != LBRACKET
  {
  }

  lemma {:induction false} ValueComplete(s: Bytes, i: nat, depth: nat, ws: Bytes, v: Json)
    requires Ok(v) && Spaces(ws) && Occurs(s, i, ws) && Occurs(s, i + |ws|, Text(v))
    requires depth + Height(v) <= MAX_DEPTH + 1 && EndsAt(s, i + |ws| + |Text(v)|, v)
    ensures ScanValue(s, i, depth) == Some(i + |ws| + |Text(v)|)
    decreases v, 3
  {
    hide *;
    SkipToValue(s, i, ws, v);
    FirstByte(v);
    var k := i + |ws|;
    AtInside(s, k);
    HeightBound(depth, v);
    ScanBranch(s, i, depth, k);
    Branches(s[k]);
    if v.Str? {
      StringIs(v.units);
      StringComplete(s, k, v.units);
    } else if v.EmptyArray? || v.Array? {
      ArrayComplete(s, k, depth, v);
    } else if v.EmptyObject? || v.Object? {
      ObjectComplete(s, k, depth, v);
    } else {
      ScalarComplete(s, k, v);
    }
  }

  /** An array behind its opening bracket. */
  lemma ArrayBranch(s: Bytes, i: nat, depth: nat)
    requires i <= |s|
    ensures var k := SpaceEnd(s, i);
      ScanArray(s, i, depth) == if At(s, k) == RBRACKET then Some(k + 1) else ScanItems(s, k, depth)
  {
    hide ScanItems;
  }

  lemma ArrayParts(v: Json)
    requires Ok(v) && (v.EmptyArray? || v.Array?)
    ensures v.EmptyArray? ==> Spaces(v.gap) && Text(v) == [LBRACKET] + (v.gap + [RBRACKET]) && Height(v) == 1
    ensures v.Array? ==> v.items != [] && ItemsOk(v.items) && Text(v) == [LBRACKET] + ItemsText(v.items)
    ensures v.Array? ==> Height(v) == 1 + ItemsHeight(v.items)
  {
    hide Spaces, ItemsOk, ItemsText, ItemsHeight;
  }

  lemma {:induction false} ArrayComplete(s: Bytes, i: nat, depth: nat, v: Json)
    requires Ok(v) && (v.EmptyArray? || v.Array?) && Occurs(s, i, Text(v)) && depth + Height(v) <= MAX_DEPTH + 1
    ensures ScanArray(s, i + 1, depth) == Some(i + |Text(v)|)
    decreases v, 2
  {
    hide *;
    ArrayParts(v);
    if v.EmptyArray? {
      OccursThree(s, i, [LBRACKET], v.gap, [RBRACKET]);
      SkipToTail(s, i + 1, v.gap, [RBRACKET]);
      AtInside(s, i + 1 + |v.gap|);
    } else {
      OccursConcat(s, i, [LBRACKET], ItemsText(v.items));
      ItemsComplete(s, i + 1, depth, v.items);
    }
    ArrayBranch(s, i + 1, depth);
  }

  lemma ItemsParts(items: seq<Item>)
    requires items != [] && ItemsOk(items)
    ensures var item := items[0];
      && Spaces(item.before) && Ok(item.value) && Spaces(item.after) && ItemsOk(items[1..])
      && Height(item.value) <= ItemsHeight(items) && ItemsHeight(items[1..]) <= ItemsHeight(items)
      && ItemsText(items) == item.before + (Text(item.value) + (item.after + ItemsTail(items[1..])))
      && ItemsTail(items[1..]) != [] && ItemsTail(items[1..])[0] in {COMMA, RBRACKET}
  {
    hide Ok, Text, Spaces, Height;
  }

  /** A number ends where what follows stops it. */
  lemma EndsHere(s: Bytes, j: nat, v: Json)
    requires j <= |s| && Stops(s, j)
    ensures EndsAt(s, j, v)
  {
  }

  /** An item list that stands at `i`, taken apart. */
  lemma SplitItems(s: Bytes, i: nat, items: seq<Item>)
    requires items != [] && ItemsOk(items) && Occurs(s, i, ItemsText(items))
    ensures var item := items[0];
            var m := i + |item.before|;
            var j := m + |Text(item.value)|;
            && Occurs(s, i, item.before) && Occurs(s, m, Text(item.value))
            && Occurs(s, j, item.after) && Occurs(s, j + |item.after|, ItemsTail(items[1..]))
            && |ItemsText(items)| == j - i + |item.after| + |ItemsTail(items[1..])|
            && EndsAt(s, j, item.value)
  {
    hide *;
    ItemsParts(items);
    var item := items[0];
    OccursFour(s, i, item.before, Text(item.value), item.after, ItemsTail(items[1..]));
    SkipToTail(s, i + |item.before| + |Text(item.value)|, item.after, ItemsTail(items[1..]));
    EndsHere(s, i + |item.before| + |Text(item.value)|, item.value);
  }

  lemma ItemStep(s: Bytes, m: nat, depth: nat, j: nat)
    requires m <= |s| && ScanValue(s, m, depth + 1) == Some(j)
    ensures ScanItems(s, m, depth) == ScanAfterItem(s, j, depth)
  {
  }

  lemma NoSpaces(s: Bytes, m: nat)
    requires m <= |s|
    ensures Spaces([]) && Occurs(s, m, [])
  {
  }

  lemma AtInside(s: Bytes, k: nat)
    requires k < |s|
    ensures At(s, k) == s[k]
    ensures s[k] == QUOTE ==> At(s, k) != RBRACE
  {
  }

  lemma {:induction false} FirstItemComplete(s: Bytes, i: nat, depth: nat, item: Item, j: nat)
    requires Spaces(item.before) && Ok(item.value) && depth + 1 + Height(item.value) <= MAX_DEPTH + 1
    requires Occurs(s, i, item.before) && Occurs(s, i + |item.before|, Text(item.value))
    requires j == i + |item.before| + |Text(item.value)| && EndsAt(s, j, item.value)
    ensures At(s, SpaceEnd(s, i)) != RBRACKET
    ensures ScanItems(s, SpaceEnd(s, i), depth) == ScanAfterItem(s, j, depth)
    decreases item, 0
  {
    hide *;
    SkipToValue(s, i, item.before, item.value);
    FirstByte(item.value);
    var m := i + |item.before|;
    AtInside(s, m);
    NoSpaces(s, m);
    ValueComplete(s, m, depth + 1, [], item.value);
    ItemStep(s, m, depth, j);
  }

  lemma {:induction false} ItemsComplete(s: Bytes, i: nat, depth: nat, items: seq<Item>)
    requires items != [] && ItemsOk(items) && Occurs(s, i, ItemsText(items))
    requires depth + 1 + ItemsHeight(items) <= MAX_DEPTH + 1
    ensures At(s, SpaceEnd(s, i)) != RBRACKET
    ensures ScanItems(s, SpaceEnd(s, i), depth) == Some(i + |ItemsText(items)|)
    decreases items, 1
  {
    hide *;
    SplitItems(s, i, items);
    ItemsParts(items);
    var item := items[0];
    var j := i + |item.before| + |Text(item.value)|;
    FirstItemComplete(s, i, depth, item, j);
    RestComplete(s, j, depth, item.after, items[1..]);
  }

  /** What follows an item. */
  lemma AfterItemBranch(s: Bytes, j: nat, depth: nat)
    requires j <= |s|
    ensures var c := SpaceEnd(s, j);
      ScanAfterItem(s, j, depth) ==
      if At(s, c) == RBRACKET then Some(c + 1)
      else if At(s, c) != COMMA then None
      else ScanItems(s, SpaceEnd(s, c + 1), depth)
    ensures At(s, SpaceEnd(s, j)) == COMMA ==> SpaceEnd(s, j) < |s| && At(s, SpaceEnd(s, j)) != RBRACKET
    ensures At(s, SpaceEnd(s, j)) == RBRACKET ==> SpaceEnd(s, j) < |s|
  {
    hide ScanItems;
  }

  lemma ItemsTailIs(rest: seq<Item>)
    ensures ItemsTail(rest) == if rest == [] then [RBRACKET] else [COMMA] + ItemsText(rest)
    ensures ItemsTail(rest) != [] && ItemsTail(rest)[0] in {COMMA, RBRACKET}
  {
    hide ItemsText;
  }

  lemma {:induction false} RestComplete(s: Bytes, j: nat, depth: nat, after: Bytes, rest: seq<Item>)
    requires Spaces(after) && ItemsOk(rest) && Occurs(s, j, after) && Occurs(s, j + |after|, ItemsTail(rest))
    requires depth + 1 + ItemsHeight(rest) <= MAX_DEPTH + 1
    ensures ScanAfterItem(s, j, depth) == Some(j + |after| + |ItemsTail(rest)|)
    decreases rest, 2
  {
    hide *;
    ItemsTailIs(rest);
    SkipToTail(s, j, after, ItemsTail(rest));
    AtInside(s, j + |after|);
    AfterItemBranch(s, j, depth);
    if rest != [] {
      OccursConcat(s, j + |after|, [COMMA], ItemsText(rest));
      ItemsComplete(s, j + |after| + 1, depth, rest);
    }
  }

  /** An object behind its opening brace. */
  lemma ObjectBranch(s: Bytes, i: nat, depth: nat)
    requires i <= |s|
    ensures var k := SpaceEnd(s, i);
      ScanObject(s, i, depth) == if At(s, k) == RBRACE then Some(k + 1) else ScanMembers(s, k, depth)
  {
    hide ScanMembers;
  }

  lemma ObjectParts(v: Json)
    requires Ok(v) && (v.EmptyObject? || v.Object?)
    ensures v.EmptyObject? ==> Spaces(v.gap) && Text(v) == [LBRACE] + (v.gap + [RBRACE]) && Height(v) == 1
    ensures v.Object? ==> v.members != [] && MembersOk(v.members) && Text(v) == [LBRACE] + MembersText(v.members)
    ensures v.Object? ==> Height(v) == 1 + MembersHeight(v.members)
  {
    hide Spaces, MembersOk, MembersText, MembersHeight;
  }

  lemma {:induction false} ObjectComplete(s: Bytes, i: nat, depth: nat, v: Json)
    requires Ok(v) && (v.EmptyObject? || v.Object?) && Occurs(s, i, Text(v)) && depth + Height(v) <= MAX_DEPTH + 1
    ensures ScanObject(s, i + 1, depth) == Some(i + |Text(v)|)
    decreases v, 2
  {
    hide *;
    ObjectParts(v);
    if v.EmptyObject? {
      OccursThree(s, i, [LBRACE], v.gap, [RBRACE]);
      SkipToTail(s, i + 1, v.gap, [RBRACE]);
      AtInside(s, i + 1 + |v.gap|);
    } else {
      OccursConcat(s, i, [LBRACE], MembersText(v.members));
      MembersComplete(s, i + 1, depth, v.members);
    }
    ObjectBranch(s, i + 1, depth);
  }

  /** The key and colon of a member, found whatever stands in front of them. */
  lemma KeyComplete(s: Bytes, i: nat, k: nat, m: Member)
    requires DerivesKey(s, i, k, m)
    ensures SpaceEnd(s, i) == i + |m.before| < |s| && s[i + |m.before|] == QUOTE
    ensures ScanString(s, i + |m.before|) == Some(i + |m.before| + |StringText(m.key)|)
    ensures ScanKey(s, i + |m.before|) == Some(k)
  {
    OccursFour(s, i, m.before, StringText(m.key), m.mid, [COLON]);
    SkipToValue(s, i, m.before, Str(m.key));
    StringComplete(s, i + |m.before|, m.key);
    var c := i + |m.before| + |StringText(m.key)|;
    OccursAt(s, c + |m.mid|, [COLON], 0);
    SpaceEndComplete(s, c, m.mid);
  }

  lemma MembersParts(members: seq<Member>)
    requires members != [] && MembersOk(members)
    ensures var m := members[0];
      && MemberOk(m) && MembersOk(members[1..])
      && Height(m.value) <= MembersHeight(members) && MembersHeight(members[1..]) <= MembersHeight(members)
      && MembersText(members) == KeyText(m) + (m.gap + (Text(m.value) + (m.after + MembersTail(members[1..]))))
      && MembersTail(members[1..]) != [] && MembersTail(members[1..])[0] in {COMMA, RBRACE}
  {
    hide MemberOk, Text, KeyText, Height;
  }

  lemma MemberParts(m: Member)
    requires MemberOk(m)
    ensures Spaces(m.before) && UnitsOk(m.key) && Spaces(m.mid) && Spaces(m.gap) && Ok(m.value) && Spaces(m.after)
  {
  }

  lemma KeyDerives(s: Bytes, i: nat, m: Member)
    requires MemberOk(m) && Occurs(s, i, KeyText(m))
    ensures DerivesKey(s, i, i + |KeyText(m)|, m)
  {
    hide Spaces, UnitsOk, Occurs, KeyText, Ok;
  }

  /** A member list that stands at `i`, taken apart. */
  lemma SplitMembers(s: Bytes, i: nat, members: seq<Member>)
    requires members != [] && MembersOk(members) && Occurs(s, i, MembersText(members))
    ensures var m := members[0];
            var k := i + |KeyText(m)|;
            var j := k + |m.gap| + |Text(m.value)|;
            && DerivesKey(s, i, k, m)
            && Occurs(s, k, m.gap) && Occurs(s, k + |m.gap|, Text(m.value)) && EndsAt(s, j, m.value)
            && Occurs(s, j, m.after) && Occurs(s, j + |m.after|, MembersTail(members[1..]))
            && |MembersText(members)| == j - i + |m.after| + |MembersTail(members[1..])|
  {
    hide *;
    MembersParts(members);
    var m := members[0];
    MemberParts(m);
    var j := i + |KeyText(m)| + |m.gap| + |Text(m.value)|;
    OccursFive(s, i, KeyText(m), m.gap, Text(m.value), m.after, MembersTail(members[1..]));
    KeyDerives(s, i, m);
    SkipToTail(s, j, m.after, MembersTail(members[1..]));
    EndsHere(s, j, m.value);
  }

  lemma MemberStep(s: Bytes, i: nat, depth: nat, k: nat, j: nat)
    requires i <= |s| && ScanKey(s, i) == Some(k) && ScanValue(s, k, depth + 1) == Some(j)
    ensures ScanMembers(s, i, depth) == ScanAfterMember(s, j, depth)
  {
  }

  lemma {:induction false} FirstMemberComplete(s: Bytes, i: nat, depth: nat, m: Member, k: nat, j: nat)
    requires MemberOk(m) && depth + 1 + Height(m.value) <= MAX_DEPTH + 1
    requires DerivesKey(s, i, k, m)
    requires Occurs(s, k, m.gap) && Occurs(s, k + |m.gap|, Text(m.value))
    requires j == k + |m.gap| + |Text(m.value)| && EndsAt(s, j, m.value)
    ensures At(s, SpaceEnd(s, i)) != RBRACE
    ensures ScanMembers(s, SpaceEnd(s, i), depth) == ScanAfterMember(s, j, depth)
    decreases m, 0
  {
    hide *;
    MemberParts(m);
    KeyComplete(s, i, k, m);
    AtInside(s, i + |m.before|);
    ValueComplete(s, k, depth + 1, m.gap, m.value);
    MemberStep(s, i + |m.before|, depth, k, j);
  }

  lemma {:induction false} MembersComplete(s: Bytes, i: nat, depth: nat, members: seq<Member>)
    requires members != [] && MembersOk(members) && Occurs(s, i, MembersText(members))
    requires depth + 1 + MembersHeight(members) <= MAX_DEPTH + 1
    ensures At(s, SpaceEnd(s, i)) != RBRACE
    ensures ScanMembers(s, SpaceEnd(s, i), depth) == Some(i + |MembersText(members)|)
    decreases members, 1
  {
    hide *;
    SplitMembers(s, i, members);
    MembersParts(members);
    var m := members[0];
    MemberParts(m);
    var k := i + |KeyText(m)|;
    var j := k + |m.gap| + |Text(m.value)|;
    FirstMemberComplete(s, i, depth, m, k, j);
    MoreComplete(s, j, depth, m.after, members[1..]);
  }

  /** What follows a member. */
  lemma AfterMemberBranch(s: Bytes, j: nat, depth: nat)
    requires j <= |s|
    ensures var c := SpaceEnd(s, j);
      ScanAfterMember(s, j, depth) ==
      if At(s, c) == RBRACE then Some(c + 1)
      else if At(s, c) != COMMA then None
      else ScanMembers(s, SpaceEnd(s, c + 1), depth)
    ensures At(s, SpaceEnd(s, j)) == COMMA ==> SpaceEnd(s, j) < |s| && At(s, SpaceEnd(s, j)) != RBRACE
    ensures At(s, SpaceEnd(s, j)) == RBRACE ==> SpaceEnd(s, j) < |s|
  {
    hide ScanMembers;
  }

  lemma MembersTailIs(rest: seq<Member>)
    ensures MembersTail(rest) == if rest == [] then [RBRACE] else [COMMA] + MembersText(rest)
    ensures MembersTail(rest) != [] && MembersTail(rest)[0] in {COMMA, RBRACE}
  {
    hide MembersText;
  }

  lemma {:induction false} MoreComplete(s: Bytes, j: nat, depth: nat, after: Bytes, rest: seq<Member>)
    requires Spaces(after) && MembersOk(rest) && Occurs(s, j, after) && Occurs(s, j + |after|, MembersTail(rest))
    requires depth + 1 + MembersHeight(rest) <= MAX_DEPTH + 1
    ensures ScanAfterMember(s, j, depth) == Some(j + |after| + |MembersTail(rest)|)
    decreases rest, 2
  {
    hide *;
    MembersTailIs(rest);
    SkipToTail(s, j, after, MembersTail(rest));
    AtInside(s, j + |after|);
    AfterMemberBranch(s, j, depth);
    if rest != [] {
      OccursConcat(s, j + |after|, [COMMA], MembersText(rest));
      MembersComplete(s, j + |after| + 1, depth, rest);
    }
  }

  /**
   The scanner accepts a span that ends where a number could not go on exactly
   when the grammar derives that span within the depth bound.
   */
  lemma ScannerExact(s: Bytes, i: nat, depth: nat, j: nat)
    requires i <= |s| && j <= |s| && Stops(s, j)
    ensures ScanValue(s, i, depth) == Some(j) <==> exists f :: Derives(s, i, depth, j, f)
  {
    hide ScanValue, Occurs, Text, Ok, Height;
    if ScanValue(s, i, depth) == Some(j) {
      var f := ValueSound(s, i, depth);
    }
    if f :| Derives(s, i, depth, j, f) {
      ValueComplete(s, i, depth, f.before, f.value);
    }
  }
}
