/**
 The recursive-descent scanner of src/mipc.c. Each function gives the cursor
 after the construct, or None where the C code returns NULL; each method is the
 C loop, proved to compute that cursor without reading past the terminator.
 */
module JsonScanner {
  import opened Bytes
  import opened JsonGrammar

  const MAX_DEPTH := 64

  // ----- White space, strings and digits -----

  function SpaceEnd(s: Bytes, i: nat): (j: nat)
    requires i <= |s|
    ensures i <= j <= |s|
    decreases |s| - i
  {
    if i < |s| && IsSpace(s[i]) then SpaceEnd(s, i + 1) else i
  }

  function DigitsEnd(s: Bytes, i: nat): (j: nat)
    requires i <= |s|
    ensures i <= j <= |s|
    decreases |s| - i
  {
    if i < |s| && IsDigit(s[i]) then DigitsEnd(s, i + 1) else i
  }

  predicate FourHex(s: Bytes, i: nat) {
    i + 4 <= |s| && forall k :: i <= k < i + 4 ==> HexValue(s[k]) >= 0
  }

  /** The body of a JSON string after its opening quote. */
  function ScanUnits(s: Bytes, i: nat): (j: Option<nat>)
    requires i <= |s|
    ensures j.Some? ==> i < j.value <= |s| && s[j.value - 1] == QUOTE
    decreases |s| - i
  {
    if i == |s| then None
    else if s[i] == QUOTE then Some(i + 1)
    else if s[i] < 32 then None
    else if s[i] != BACKSLASH then ScanUnits(s, i + 1)
    else if i + 1 == |s| then None
    else if s[i + 1] == LOWER_U then
      if FourHex(s, i + 2) then ScanUnits(s, i + 6) else None
    else if SimpleEscape(s[i + 1]) then ScanUnits(s, i + 2)
    else None
  }

  function ScanString(s: Bytes, i: nat): (j: Option<nat>)
    requires i <= |s|
    ensures j.Some? ==> i + 1 < j.value <= |s| && s[i] == QUOTE && s[j.value - 1] == QUOTE
  {
    if At(s, i) == QUOTE then ScanUnits(s, i + 1) else None
  }

  // ----- Numbers and literal words -----

  function ScanWhole(s: Bytes, i: nat): (j: Option<nat>)
    requires i <= |s|
    ensures j.Some? ==> i < j.value <= |s|
  {
    if At(s, i) == ZERO then Some(i + 1)
    else if IsDigit(At(s, i)) then Some(DigitsEnd(s, i + 1))
    else None
  }

  function ScanFraction(s: Bytes, i: nat): (j: Option<nat>)
    requires i <= |s|
    ensures j.Some? ==> i <= j.value <= |s|
  {
    if At(s, i) != DOT then Some(i)
    else if IsDigit(At(s, i + 1)) then Some(DigitsEnd(s, i + 1))
    else None
  }

  function SignEnd(s: Bytes, i: nat): (j: nat)
    requires i <= |s|
    ensures i <= j <= |s|
  {
    if At(s, i) == PLUS || At(s, i) == DASH then i + 1 else i
  }

  function ScanExponent(s: Bytes, i: nat): (j: Option<nat>)
    requires i <= |s|
    ensures j.Some? ==> i <= j.value <= |s|
  {
    if At(s, i) != LOWER_E && At(s, i) != UPPER_E then Some(i)
    else
      var k := SignEnd(s, i + 1);
      if IsDigit(At(s, k)) then Some(DigitsEnd(s, k)) else None
  }

  /** A number without its sign. */
  function ScanMagnitude(s: Bytes, i: nat): (j: Option<nat>)
    requires i <= |s|
    ensures j.Some? ==> i < j.value <= |s|
  {
    var w := ScanWhole(s, i);
    if w == None then None
    else
      var f := ScanFraction(s, w.value);
      if f == None then None else ScanExponent(s, f.value)
  }

  function ScanNumber(s: Bytes, i: nat): (j: Option<nat>)
    requires i <= |s|
    ensures j.Some? ==> i < j.value <= |s|
  {
    ScanMagnitude(s, if At(s, i) == DASH then i + 1 else i)
  }

  function ScanWord(s: Bytes, i: nat): (j: Option<nat>)
    requires i <= |s|
    ensures j.Some? ==> i < j.value <= |s|
  {
    if Occurs(s, i, TRUE) then Some(i + 4)
    else if Occurs(s, i, FALSE) then Some(i + 5)
    else if Occurs(s, i, NULL) then Some(i + 4)
    else None
  }

  function ScanScalar(s: Bytes, i: nat): (j: Option<nat>)
    requires i <= |s|
    ensures j.Some? ==> i < j.value <= |s|
  {
    if ScanWord(s, i).Some? then ScanWord(s, i)
    else if At(s, i) == DASH || IsDigit(At(s, i)) then ScanNumber(s, i)
    else None
  }

  // ----- Values -----

  function ScanValue(s: Bytes, i: nat, depth: nat): (j: Option<nat>)
    requires i <= |s|
    ensures j.Some? ==> i < j.value <= |s|
    decreases |s| - i, 5
  {
    if depth > MAX_DEPTH then None
    else
      var k := SpaceEnd(s, i);
      if At(s, k) == QUOTE then ScanString(s, k)
      else if At(s, k) == LBRACE then ScanObject(s, k + 1, depth)
      else if At(s, k) == LBRACKET then ScanArray(s, k + 1, depth)
      else ScanScalar(s, k)
  }

  /** An object after its opening brace. */
  function ScanObject(s: Bytes, i: nat, depth: nat): (j: Option<nat>)
    requires i <= |s|
    ensures j.Some? ==> i < j.value <= |s|
    decreases |s| - i, 4
  {
    var k := SpaceEnd(s, i);
    if At(s, k) == RBRACE then Some(k + 1) else ScanMembers(s, k, depth)
  }

  /** An array after its opening bracket. */
  function ScanArray(s: Bytes, i: nat, depth: nat): (j: Option<nat>)
    requires i <= |s|
    ensures j.Some? ==> i < j.value <= |s|
    decreases |s| - i, 7
  {
    var k := SpaceEnd(s, i);
    if At(s, k) == RBRACKET then Some(k + 1) else ScanItems(s, k, depth)
  }

  /** The key and colon of a member: the cursor after the colon. */
  function ScanKey(s: Bytes, i: nat): (j: Option<nat>)
    requires i <= |s|
    ensures j.Some? ==> i + 2 < j.value <= |s|
  {
    var k := ScanString(s, i);
    if k == None then None
    else
      var c := SpaceEnd(s, k.value);
      if At(s, c) == COLON then Some(c + 1) else None
  }

  function ScanMembers(s: Bytes, i: nat, depth: nat): (j: Option<nat>)
    requires i <= |s|
    ensures j.Some? ==> i < j.value <= |s|
    decreases |s| - i, 2
  {
    var k := ScanKey(s, i);
    if k == None then None
    else
      var v := ScanValue(s, k.value, depth + 1);
      if v == None then None else ScanAfterMember(s, v.value, depth)
  }

  /** What follows a member: the closing brace, or a comma and more members. */
  function ScanAfterMember(s: Bytes, i: nat, depth: nat): (j: Option<nat>)
    requires i <= |s|
    ensures j.Some? ==> i < j.value <= |s|
    decreases |s| - i, 3
  {
    var c := SpaceEnd(s, i);
    if At(s, c) == RBRACE then Some(c + 1)
    else if At(s, c) != COMMA then None
    else ScanMembers(s, SpaceEnd(s, c + 1), depth)
  }

  function ScanItems(s: Bytes, i: nat, depth: nat): (j: Option<nat>)
    requires i <= |s|
    ensures j.Some? ==> i < j.value <= |s|
    decreases |s| - i, 6
  {
    var v := ScanValue(s, i, depth + 1);
    if v == None then None else ScanAfterItem(s, v.value, depth)
  }

  /** What follows an array item: the closing bracket, or a comma and more items. */
  function ScanAfterItem(s: Bytes, i: nat, depth: nat): (j: Option<nat>)
    requires i <= |s|
    ensures j.Some? ==> i < j.value <= |s|
    decreases |s| - i, 3
  {
    var c := SpaceEnd(s, i);
    if At(s, c) == RBRACKET then Some(c + 1)
    else if At(s, c) != COMMA then None
    else ScanItems(s, SpaceEnd(s, c + 1), depth)
  }

  // ----- The C loops -----

  method SkipSpace(s: Bytes, start: nat) returns (cursor: nat)
    requires start <= |s| && CString(s)
    ensures cursor == SpaceEnd(s, start)
  {
    cursor := start;
    while At(s, cursor) != NUL && IsSpace(At(s, cursor))
      invariant start <= cursor <= |s|
      invariant SpaceEnd(s, cursor) == SpaceEnd(s, start)
      decreases |s| - cursor
    {
      cursor := cursor + 1;
    }
  }

  method SkipDigits(s: Bytes, start: nat) returns (cursor: nat)
    requires start <= |s| && CString(s)
    ensures cursor == DigitsEnd(s, start)
  {
    cursor := start;
    while IsDigit(At(s, cursor))
      invariant start <= cursor <= |s|
      invariant DigitsEnd(s, cursor) == DigitsEnd(s, start)
      decreases |s| - cursor
    {
      cursor := cursor + 1;
    }
  }

  /** The four-digit loop of a \u escape. */
  method SkipHexQuad(s: Bytes, start: nat) returns (ok: bool)
    requires start <= |s| && CString(s)
    ensures ok <==> FourHex(s, start)
  {
    var index := 0;
    while index < 4
      invariant 0 <= index <= 4 && start + index <= |s|
      invariant forall k :: start <= k < start + index ==> HexValue(s[k]) >= 0
    {
      if At(s, start + index) == NUL || HexValue(At(s, start + index)) < 0 {
        return false;
      }
      index := index + 1;
    }
    return true;
  }

  method SkipJsonString(s: Bytes, start: nat) returns (end: Option<nat>)
    requires start <= |s| && CString(s)
    ensures end == ScanString(s, start)
  {
    if At(s, start) != QUOTE {
      return None;
    }
    var cursor := start + 1;
    while At(s, cursor) != NUL
      invariant start + 1 <= cursor <= |s|
      invariant ScanUnits(s, cursor) == ScanUnits(s, start + 1)
      decreases |s| - cursor
    {
      var b := s[cursor];
      cursor := cursor + 1;
      if b == QUOTE {
        return Some(cursor);
      }
      if b < 32 {
        return None;
      }
      if b == BACKSLASH {
        var escape := At(s, cursor);
        if escape == NUL {
          return None;
        }
        cursor := cursor + 1;
        if escape == LOWER_U {
          var ok := SkipHexQuad(s, cursor);
          if !ok {
            return None;
          }
          cursor := cursor + 4;
        } else if !SimpleEscape(escape) {
          return None;
        }
      }
    }
    return None;
  }

  /** The sign and digits after an exponent letter. */
  method SkipExponentDigits(s: Bytes, start: nat) returns (end: Option<nat>)
    requires start <= |s| && CString(s)
    ensures end == var k := SignEnd(s, start); if IsDigit(At(s, k)) then Some(DigitsEnd(s, k)) else None
  {
    var cursor := start;
    if At(s, cursor) == PLUS || At(s, cursor) == DASH {
      cursor := cursor + 1;
    }
    if !IsDigit(At(s, cursor)) {
      return None;
    }
    cursor := SkipDigits(s, cursor);
    return Some(cursor);
  }

  lemma DigitsStep(s: Bytes, i: nat)
    requires i <= |s| && IsDigit(At(s, i))
    ensures i < |s| && DigitsEnd(s, i) == DigitsEnd(s, i + 1)
  {
  }

  method SkipJsonNumber(s: Bytes, start: nat) returns (end: Option<nat>)
    requires start <= |s| && CString(s)
    ensures end == ScanNumber(s, start)
  {
    hide DigitsEnd;
    var cursor := start;
    if At(s, cursor) == DASH {
      cursor := cursor + 1;
    }
    if At(s, cursor) == ZERO {
      cursor := cursor + 1;
    } else {
      if !IsDigit(At(s, cursor)) {
        return None;
      }
      DigitsStep(s, cursor);
      cursor := SkipDigits(s, cursor);
    }
    if At(s, cursor) == DOT {
      cursor := cursor + 1;
      if !IsDigit(At(s, cursor)) {
        return None;
      }
      cursor := SkipDigits(s, cursor);
    }
    hide IsDigit;
    if At(s, cursor) == LOWER_E || At(s, cursor) == UPPER_E {
      end := SkipExponentDigits(s, cursor + 1);
    } else {
      end := Some(cursor);
    }
  }

  method SkipJsonKey(s: Bytes, start: nat) returns (end: Option<nat>)
    requires start <= |s| && CString(s)
    ensures end == ScanKey(s, start)
  {
    var next := SkipJsonString(s, start);
    if next == None {
      return None;
    }
    var cursor := SkipSpace(s, next.value);
    if At(s, cursor) != COLON {
      return None;
    }
    return Some(cursor + 1);
  }

  method SkipJsonObject(s: Bytes, start: nat, depth: nat) returns (end: Option<nat>)
    requires start <= |s| && CString(s) && depth <= MAX_DEPTH
    ensures end == ScanMembers(s, start, depth)
    decreases MAX_DEPTH + 1 - depth, 0
  {
    hide ScanValue, ScanKey;
    var cursor := start;
    while true
      invariant start <= cursor <= |s|
      invariant ScanMembers(s, cursor, depth) == ScanMembers(s, start, depth)
      decreases |s| - cursor
    {
      var next := SkipJsonKey(s, cursor);
      if next == None {
        return None;
      }
      next := SkipJsonValue(s, next.value, depth + 1);
      if next == None {
        return None;
      }
      assert ScanMembers(s, cursor, depth) == ScanAfterMember(s, next.value, depth);
      cursor := SkipSpace(s, next.value);
      if At(s, cursor) == RBRACE {
        return Some(cursor + 1);
      }
      if At(s, cursor) != COMMA {
        return None;
      }
      cursor := SkipSpace(s, cursor + 1);
    }
  }

  method SkipJsonArray(s: Bytes, start: nat, depth: nat) returns (end: Option<nat>)
    requires start <= |s| && CString(s) && depth <= MAX_DEPTH
    ensures end == ScanItems(s, start, depth)
    decreases MAX_DEPTH + 1 - depth, 0
  {
    var cursor := start;
    while true
      invariant start <= cursor <= |s|
      invariant ScanItems(s, cursor, depth) == ScanItems(s, start, depth)
      decreases |s| - cursor
    {
      var next := SkipJsonValue(s, cursor, depth + 1);
      if next == None {
        return None;
      }
      cursor := SkipSpace(s, next.value);
      if At(s, cursor) == RBRACKET {
        return Some(cursor + 1);
      }
      if At(s, cursor) != COMMA {
        return None;
      }
      cursor := SkipSpace(s, cursor + 1);
    }
  }

  method SkipJsonValue(s: Bytes, start: nat, depth: nat) returns (end: Option<nat>)
    requires start <= |s| && CString(s) && depth <= MAX_DEPTH + 1
    ensures end == ScanValue(s, start, depth)
    decreases MAX_DEPTH + 1 - depth, 1
  {
    if depth > MAX_DEPTH {
      return None;
    }
    var cursor := SkipSpace(s, start);
    if At(s, cursor) == QUOTE {
      end := SkipJsonString(s, cursor);
    } else if At(s, cursor) == LBRACE {
      cursor := SkipSpace(s, cursor + 1);
      if At(s, cursor) == RBRACE {
        return Some(cursor + 1);
      }
      end := SkipJsonObject(s, cursor, depth);
    } else if At(s, cursor) == LBRACKET {
      cursor := SkipSpace(s, cursor + 1);
      if At(s, cursor) == RBRACKET {
        return Some(cursor + 1);
      }
      end := SkipJsonArray(s, cursor, depth);
    } else if Occurs(s, cursor, TRUE) {
      end := Some(cursor + 4);
    } else if Occurs(s, cursor, FALSE) {
      end := Some(cursor + 5);
    } else if Occurs(s, cursor, NULL) {
      end := Some(cursor + 4);
    } else if At(s, cursor) == DASH || IsDigit(At(s, cursor)) {
      end := SkipJsonNumber(s, cursor);
    } else {
      end := None;
    }
  }
}
