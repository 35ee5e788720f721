/** Bytes, C strings and the character classes that both SDKs rely on. */
module Bytes {

  type byte = b: int | 0 <= b < 256

  type Bytes = seq<byte>

  datatype Option<+T> = None | Some(value: T)

  const NUL: byte := 0
  const TAB: byte := 9
  const LF: byte := 10
  const CR: byte := 13
  const SPACE: byte := 32
  const QUOTE: byte := 34
  const PLUS: byte := 43
  const COMMA: byte := 44
  const DASH: byte := 45
  const DOT: byte := 46
  const SLASH: byte := 47
  const ZERO: byte := 48
  const COLON: byte := 58
  const AT_SIGN: byte := 64
  const LBRACKET: byte := 91
  const BACKSLASH: byte := 92
  const RBRACKET: byte := 93
  const UNDERSCORE: byte := 95
  const LOWER_E: byte := 101
  const UPPER_E: byte := 69
  const LOWER_U: byte := 117
  const LBRACE: byte := 123
  const RBRACE: byte := 125

  /** isspace in the C locale. */
  predicate IsSpace(b: int) {
    b == 32 || 9 <= b <= 13
  }

  predicate IsDigit(b: int) {
    48 <= b <= 57
  }

  predicate IsUpper(b: int) {
    65 <= b <= 90
  }

  predicate IsLower(b: int) {
    97 <= b <= 122
  }

  predicate IsAlpha(b: int) {
    IsUpper(b) || IsLower(b)
  }

  predicate IsAlnum(b: int) {
    IsAlpha(b) || IsDigit(b)
  }

  function ToLower(b: byte): byte {
    if IsUpper(b) then b + 32 else b
  }

  function ToUpper(b: byte): byte {
    if IsLower(b) then b - 32 else b
  }

  /** The value of a hexadecimal digit, or -1. */
  function HexValue(b: int): (v: int)
    ensures -1 <= v < 16
  {
    if 48 <= b <= 57 then b - 48
    else if 97 <= b <= 102 then b - 97 + 10
    else if 65 <= b <= 70 then b - 65 + 10
    else -1
  }

  function HexDigit(v: int): (b: byte)
    requires 0 <= v < 16
    ensures HexValue(b) == v
  {
    if v < 10 then 48 + v else 97 + v - 10
  }

  /** The contents of a C string: the bytes before its terminator. */
  predicate CString(s: Bytes) {
    forall k :: 0 <= k < |s| ==> s[k] != 0
  }

  /** Reading a C string at a cursor; the terminator is the last readable byte. */
  function At(s: Bytes, i: nat): (b: byte)
    requires i <= |s|
  {
    if i < |s| then s[i] else 0
  }

  predicate Spaces(s: Bytes) {
    forall k :: 0 <= k < |s| ==> IsSpace(s[k])
  }

  predicate Digits(s: Bytes) {
    forall k :: 0 <= k < |s| ==> IsDigit(s[k])
  }

  /** `t` stands in `s` at offset `i`. */
  predicate Occurs(s: seq<int>, i: nat, t: seq<int>): (there: bool)
    ensures there ==> i + |t| <= |s|
    decreases |t|
  {
    if t == [] then i <= |s| else i < |s| && s[i] == t[0] && Occurs(s, i + 1, t[1..])
  }

  lemma {:induction false} OccursSlice(s: seq<int>, i: nat, t: seq<int>)
    ensures Occurs(s, i, t) <==> i + |t| <= |s| && s[i..i + |t|] == t
    decreases |t|
  {
    if t != [] && i < |s| {
      OccursSlice(s, i + 1, t[1..]);
      if i + |t| <= |s| {
        assert s[i..i + |t|] == [s[i]] + s[i + 1..i + |t|];
        assert t == [t[0]] + t[1..];
      }
    }
  }

  lemma {:induction false} OccursConcat(s: seq<int>, i: nat, a: seq<int>, b: seq<int>)
    ensures Occurs(s, i, a + b) <==> Occurs(s, i, a) && Occurs(s, i + |a|, b)
    decreases |a|
  {
    if a == [] {
      assert a + b == b;
    } else {
      assert (a + b)[1..] == a[1..] + b;
      OccursConcat(s, i + 1, a[1..], b);
    }
  }

  lemma OccursThree(s: seq<int>, i: nat, a: seq<int>, b: seq<int>, c: seq<int>)
    ensures Occurs(s, i, a + (b + c)) <==>
            Occurs(s, i, a) && Occurs(s, i + |a|, b) && Occurs(s, i + |a| + |b|, c)
  {
    OccursConcat(s, i, a, b + c);
    OccursConcat(s, i + |a|, b, c);
  }

  lemma OccursFour(s: seq<int>, i: nat, a: seq<int>, b: seq<int>, c: seq<int>, d: seq<int>)
    ensures Occurs(s, i, a + (b + (c + d))) <==>
            && Occurs(s, i, a) && Occurs(s, i + |a|, b)
            && Occurs(s, i + |a| + |b|, c) && Occurs(s, i + |a| + |b| + |c|, d)
  {
    OccursConcat(s, i, a, b + (c + d));
    OccursThree(s, i + |a|, b, c, d);
  }

  lemma OccursFive(s: seq<int>, i: nat, a: seq<int>, b: seq<int>, c: seq<int>, d: seq<int>, e: seq<int>)
    ensures Occurs(s, i, a + (b + (c + (d + e)))) <==>
            && Occurs(s, i, a) && Occurs(s, i + |a|, b) && Occurs(s, i + |a| + |b|, c)
            && Occurs(s, i + |a| + |b| + |c|, d) && Occurs(s, i + |a| + |b| + |c| + |d|, e)
  {
    OccursConcat(s, i, a, b + (c + (d + e)));
    OccursFour(s, i + |a|, b, c, d, e);
  }

  lemma OccursAt(s: seq<int>, i: nat, t: seq<int>, k: nat)
    requires Occurs(s, i, t) && k < |t|
    ensures s[i + k] == t[k]
  {
    OccursSlice(s, i, t);
    assert s[i..i + |t|][k] == t[k];
  }

  function Min(a: int, b: int): int {
    if a < b then a else b
  }

  function Max(a: int, b: int): int {
    if a > b then a else b
  }
}
