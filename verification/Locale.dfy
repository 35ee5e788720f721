/** Locale names: `normalize_locale` of msys_sdk/i18n.py and msys_i18n_normalize_locale of src/i18n.c. */
module Locale {
  import opened Bytes
  import opened Utf8

  // ----- Subtags -----

  predicate AllAlpha(s: Bytes) {
    forall k :: 0 <= k < |s| ==> IsAlpha(s[k])
  }

  predicate AllDigits(s: Bytes) {
    forall k :: 0 <= k < |s| ==> IsDigit(s[k])
  }

  predicate AllAlnum(s: Bytes) {
    forall k :: 0 <= k < |s| ==> IsAlnum(s[k])
  }

  function Lower(s: Bytes): (r: Bytes)
    ensures |r| == |s|
    ensures forall k :: 0 <= k < |s| ==> r[k] == ToLower(s[k])
  {
    if s == [] then [] else [ToLower(s[0])] + Lower(s[1..])
  }

  function Upper(s: Bytes): (r: Bytes)
    ensures |r| == |s|
    ensures forall k :: 0 <= k < |s| ==> r[k] == ToUpper(s[k])
  {
    if s == [] then [] else [ToUpper(s[0])] + Upper(s[1..])
  }

  function Title(s: Bytes): (r: Bytes)
    ensures |r| == |s|
    ensures forall k :: 0 <= k < |s| ==> r[k] == if k == 0 then ToUpper(s[k]) else ToLower(s[k])
  {
    if s == [] then [] else [ToUpper(s[0])] + Lower(s[1..])
  }

  function Dashed(s: Bytes): (r: Bytes)
    ensures |r| == |s|
    ensures forall k :: 0 <= k < |s| ==> r[k] == if s[k] == UNDERSCORE then DASH else s[k]
  {
    if s == [] then [] else [if s[0] == UNDERSCORE then DASH else s[0]] + Dashed(s[1..])
  }

  /** The length of the first subtag. */
  function DashAt(s: Bytes): (n: nat)
    ensures n <= |s| && (forall k :: 0 <= k < n ==> s[k] != DASH) && (n < |s| ==> s[n] == DASH)
  {
    if s == [] || s[0] == DASH then 0 else 1 + DashAt(s[1..])
  }

  /** s.split("-"). */
  function Split(s: Bytes): (ps: seq<Bytes>)
    ensures |ps| >= 1
    decreases |s|
  {
    var n := DashAt(s);
    if n == |s| then [s] else [s[..n]] + Split(s[n + 1..])
  }

  /** "-".join(parts). */
  function JoinParts(ps: seq<Bytes>): Bytes
    requires ps != []
  {
    if |ps| == 1 then ps[0] else ps[0] + [DASH] + JoinParts(ps[1..])
  }

  predicate DashFree(ps: seq<Bytes>) {
    forall k :: 0 <= k < |ps| ==> DASH !in ps[k]
  }

  lemma SplitStep(s: Bytes)
    ensures var n := DashAt(s);
      if n == |s| then Split(s) == [s] && s == s[..n] else Split(s) == [s[..n]] + Split(s[n + 1..])
  {
    hide DashAt;
    var n := DashAt(s);
    if n < |s| {
      var rest := s[n + 1..];
      assert Split(s) == [s[..n]] + Split(rest);
    }
  }

  lemma JoinFirst(p: Bytes, ps: seq<Bytes>)
    requires ps != []
    ensures JoinParts([p] + ps) == p + [DASH] + JoinParts(ps)
  {
    assert ([p] + ps)[1..] == ps;
  }

  lemma {:induction false} JoinSplit(s: Bytes)
    ensures JoinParts(Split(s)) == s && DashFree(Split(s))
    decreases |s|
  {
    hide Split, DashAt;
    var n := DashAt(s);
    SplitStep(s);
    if n < |s| {
      var rest := s[n + 1..];
      JoinSplit(rest);
      JoinFirst(s[..n], Split(rest));
      assert s == s[..n] + [DASH] + rest;
    }
  }

  lemma {:induction false} DashAtFront(p: Bytes, rest: Bytes)
    requires DASH !in p
    ensures DashAt(p + [DASH] + rest) == |p| && DashAt(p) == |p|
    decreases p
  {
    if p != [] {
      assert (p + [DASH] + rest)[1..] == p[1..] + [DASH] + rest;
      DashAtFront(p[1..], rest);
    }
  }

  lemma SplitFront(p: Bytes, rest: Bytes)
    requires DASH !in p
    ensures Split(p) == [p] && Split(p + [DASH] + rest) == [p] + Split(rest)
  {
    DashAtFront(p, rest);
    var s := p + [DASH] + rest;
    assert s[..|p|] == p && s[|p| + 1..] == rest;
  }

  lemma {:induction false} SplitJoin(ps: seq<Bytes>)
    requires ps != [] && DashFree(ps)
    ensures Split(JoinParts(ps)) == ps
    decreases ps
  {
    hide Split;
    if |ps| == 1 {
      SplitFront(ps[0], []);
      assert ps == [ps[0]];
    } else {
      SplitJoin(ps[1..]);
      SplitFront(ps[0], JoinParts(ps[1..]));
      assert ps == [ps[0]] + ps[1..];
    }
  }

  // ----- The canonical grammar -----

  predicate AllLower(s: Bytes) {
    forall k :: 0 <= k < |s| ==> IsLower(s[k])
  }

  predicate Language(s: Bytes) {
    2 <= |s| <= 8 && AllLower(s)
  }

  predicate Script(s: Bytes) {
    |s| == 4 && IsUpper(s[0]) && forall k :: 1 <= k < 4 ==> IsLower(s[k])
  }

  predicate Region(s: Bytes) {
    (|s| == 2 && IsUpper(s[0]) && IsUpper(s[1])) || (|s| == 3 && AllDigits(s))
  }

  predicate Variant(s: Bytes) {
    && (5 <= |s| <= 8 || (|s| == 4 && IsDigit(s[0])))
    && forall k :: 0 <= k < |s| ==> IsLower(s[k]) || IsDigit(s[k])
  }

  predicate Variants(ps: seq<Bytes>) {
    forall k :: 0 <= k < |ps| ==> Variant(ps[k])
  }

  predicate RegionTail(ps: seq<Bytes>) {
    Variants(ps) || (ps != [] && Region(ps[0]) && Variants(ps[1..]))
  }

  predicate ScriptTail(ps: seq<Bytes>) {
    RegionTail(ps) || (ps != [] && Script(ps[0]) && RegionTail(ps[1..]))
  }

  /** language [-Script] [-REGION] (-variant)*, as the pattern _LOCALE has it. */
  predicate LocaleParts(ps: seq<Bytes>) {
    ps != [] && Language(ps[0]) && ScriptTail(ps[1..])
  }

  predicate Canonical(s: Bytes) {
    LocaleParts(Split(s))
  }

  // ----- Python -----

  /** What str.strip removes from ASCII text. */
  predicate StripSpace(b: int) {
    IsSpace(b) || 0x1C <= b <= 0x1F
  }

  function StripLeft(s: Bytes): (r: Bytes)
    ensures |r| <= |s| && r == s[|s| - |r|..] && (r != [] ==> !StripSpace(r[0]))
    ensures forall k :: 0 <= k < |s| - |r| ==> StripSpace(s[k])
  {
    if s != [] && StripSpace(s[0]) then StripLeft(s[1..]) else s
  }

  function StripRight(s: Bytes): (r: Bytes)
    ensures |r| <= |s| && r == s[..|r|]
    ensures forall k :: |r| <= k < |s| ==> StripSpace(s[k])
    decreases |s|
  {
    if s != [] && StripSpace(s[|s| - 1]) then StripRight(s[..|s| - 1]) else s
  }

  /** s.split(mark, 1)[0]. */
  function Before(s: Bytes, mark: byte): (r: Bytes)
    ensures |r| <= |s| && r == s[..|r|] && mark !in r && (|r| < |s| ==> s[|r|] == mark)
  {
    if s == [] || s[0] == mark then [] else [s[0]] + Before(s[1..], mark)
  }

  /** The name without surrounding space, modifier and encoding. */
  function Core(value: Bytes): Bytes {
    Before(Before(StripRight(StripLeft(value)), AT_SIGN), DOT)
  }

  const UPPER_C: Bytes := [67]
  const UPPER_POSIX: Bytes := [80, 79, 83, 73, 88]
  const LOWER_POSIX: Bytes := [112, 111, 115, 105, 120]

  /** The spellings of "no particular locale". */
  predicate Neutral(s: Bytes) {
    Upper(s) == UPPER_C || Upper(s) == UPPER_POSIX
  }

  function Cons(p: Bytes, ps: Option<seq<Bytes>>): Option<seq<Bytes>> {
    match ps
    case None => None
    case Some(rest) => Some([p] + rest)
  }

  predicate LooseVariant(s: Bytes) {
    AllAlnum(s) && (5 <= |s| <= 8 || (|s| == 4 && IsDigit(s[0])))
  }

  function PythonVariants(ps: seq<Bytes>): Option<seq<Bytes>> {
    if ps == [] then Some([])
    else if LooseVariant(ps[0]) then Cons(Lower(ps[0]), PythonVariants(ps[1..]))
    else None
  }

  predicate LooseRegion(s: Bytes) {
    (|s| == 2 && AllAlpha(s)) || (|s| == 3 && AllDigits(s))
  }

  function PythonRegion(ps: seq<Bytes>): Option<seq<Bytes>> {
    if ps != [] && LooseRegion(ps[0]) then Cons(Upper(ps[0]), PythonVariants(ps[1..])) else PythonVariants(ps)
  }

  predicate LooseScript(s: Bytes) {
    |s| == 4 && AllAlpha(s)
  }

  function PythonScript(ps: seq<Bytes>): Option<seq<Bytes>> {
    if ps != [] && LooseScript(ps[0]) then Cons(Title(ps[0]), PythonRegion(ps[1..])) else PythonRegion(ps)
  }

  predicate LooseLanguage(s: Bytes) {
    2 <= |s| <= 8 && AllAlpha(s)
  }

  function PythonParts(ps: seq<Bytes>): Option<seq<Bytes>> {
    if ps != [] && LooseLanguage(ps[0]) then Cons(Lower(ps[0]), PythonScript(ps[1..])) else None
  }

  /** The result for an ASCII name. */
  function Normalized(value: Bytes): Option<Bytes> {
    var core := Core(value);
    if Neutral(core) then None else
    match PythonParts(Split(Dashed(core)))
    case None => None
    case Some(ps) => if ps == [] then None else Some(JoinParts(ps))
  }

  lemma {:induction false} VariantsCanonical(ps: seq<Bytes>)
    ensures PythonVariants(ps).Some? ==> Variants(PythonVariants(ps).value)
    ensures Variants(ps) ==> PythonVariants(ps) == Some(ps)
    decreases ps
  {
    if ps != [] {
      VariantsCanonical(ps[1..]);
      if Variants(ps) {
        assert Variant(ps[0]);
        assert Lower(ps[0]) == ps[0];
        assert [ps[0]] + ps[1..] == ps;
      }
      if LooseVariant(ps[0]) {
        assert Variant(Lower(ps[0]));
      }
    }
  }

  lemma RegionCanonical(ps: seq<Bytes>)
    ensures PythonRegion(ps).Some? ==> RegionTail(PythonRegion(ps).value)
    ensures RegionTail(ps) ==> PythonRegion(ps) == Some(ps)
  {
    hide Variants, PythonVariants;
    VariantsCanonical(ps);
    if ps != [] {
      VariantsCanonical(ps[1..]);
      if LooseRegion(ps[0]) {
        assert Region(Upper(ps[0]));
        if PythonVariants(ps[1..]).Some? {
          assert PythonRegion(ps).value[1..] == PythonVariants(ps[1..]).value;
        }
      }
      if RegionTail(ps) && Region(ps[0]) {
        assert Upper(ps[0]) == ps[0];
        assert [ps[0]] + ps[1..] == ps;
      }
      if Variants(ps) {
        FirstVariant(ps);
      }
    }
  }

  lemma FirstVariant(ps: seq<Bytes>)
    requires ps != [] && Variants(ps)
    ensures !LooseRegion(ps[0]) && !LooseScript(ps[0])
  {
    assert Variant(ps[0]);
  }

  lemma ScriptCanonical(ps: seq<Bytes>)
    ensures PythonScript(ps).Some? ==> ScriptTail(PythonScript(ps).value)
    ensures ScriptTail(ps) ==> PythonScript(ps) == Some(ps)
  {
    hide Variants, PythonRegion;
    RegionCanonical(ps);
    if ps != [] {
      RegionCanonical(ps[1..]);
      if LooseScript(ps[0]) {
        assert Script(Title(ps[0]));
        if PythonRegion(ps[1..]).Some? {
          assert PythonScript(ps).value[1..] == PythonRegion(ps[1..]).value;
        }
      }
      if ScriptTail(ps) && Script(ps[0]) {
        assert Title(ps[0]) == ps[0];
        assert [ps[0]] + ps[1..] == ps;
      }
      if RegionTail(ps) {
        if Variants(ps) {
          FirstVariant(ps);
        }
      }
    }
  }

  lemma PartsCanonical(ps: seq<Bytes>)
    ensures PythonParts(ps).Some? ==> LocaleParts(PythonParts(ps).value)
    ensures LocaleParts(ps) ==> PythonParts(ps) == Some(ps)
  {
    hide ScriptTail, PythonScript;
    if ps != [] {
      ScriptCanonical(ps[1..]);
      if LooseLanguage(ps[0]) {
        assert Language(Lower(ps[0]));
        if PythonScript(ps[1..]).Some? {
          assert PythonParts(ps).value[1..] == PythonScript(ps[1..]).value;
        }
      }
      if LocaleParts(ps) {
        assert Lower(ps[0]) == ps[0];
        assert [ps[0]] + ps[1..] == ps;
      }
    }
  }

  // ----- Canonical names -----

  lemma PartsAlnum(ps: seq<Bytes>)
    requires LocaleParts(ps)
    ensures forall k :: 0 <= k < |ps| ==> ps[k] != [] && AllAlnum(ps[k])
  {
    forall k | 0 <= k < |ps|
      ensures ps[k] != [] && AllAlnum(ps[k])
    {
      assert k > 0 ==> ps[k] == ps[1..][k - 1];
      assert k > 1 ==> ps[k] == ps[1..][1..][k - 2];
      assert k > 2 ==> ps[k] == ps[1..][1..][1..][k - 3];
    }
  }

  predicate NameChars(s: Bytes) {
    forall k :: 0 <= k < |s| ==> IsAlnum(s[k]) || s[k] == DASH
  }

  lemma {:induction false} JoinChars(ps: seq<Bytes>)
    requires ps != [] && forall k :: 0 <= k < |ps| ==> ps[k] != [] && AllAlnum(ps[k])
    ensures NameChars(JoinParts(ps)) && |JoinParts(ps)| >= |ps[0]| > 0
    decreases ps
  {
    if |ps| > 1 {
      JoinChars(ps[1..]);
    }
  }

  lemma PartsDashFree(ps: seq<Bytes>)
    requires forall k :: 0 <= k < |ps| ==> AllAlnum(ps[k])
    ensures DashFree(ps)
  {
  }

  lemma CanonicalChars(s: Bytes)
    requires Canonical(s)
    ensures NameChars(s) && |s| >= 2
  {
    PartsAlnum(Split(s));
    JoinChars(Split(s));
    JoinSplit(s);
  }

  lemma CanonicalAscii(s: Bytes)
    requires Canonical(s)
    ensures Ascii(s)
  {
    CanonicalChars(s);
  }

  lemma JoinCanonical(ps: seq<Bytes>)
    requires LocaleParts(ps)
    ensures Canonical(JoinParts(ps)) && Split(JoinParts(ps)) == ps
  {
    PartsAlnum(ps);
    PartsDashFree(ps);
    SplitJoin(ps);
  }

  /** A name without space, dot and at-sign is its own core. */
  lemma {:induction false} BeforeAbsent(s: Bytes, mark: byte)
    requires mark !in s
    ensures Before(s, mark) == s
    decreases s
  {
    if s != [] {
      BeforeAbsent(s[1..], mark);
    }
  }

  lemma NothingToStrip(s: Bytes)
    requires forall k :: 0 <= k < |s| ==> !StripSpace(s[k])
    ensures StripLeft(s) == s && StripRight(s) == s
  {
  }

  lemma NameFree(s: Bytes)
    requires NameChars(s)
    ensures AT_SIGN !in s && DOT !in s && UNDERSCORE !in s
    ensures forall k :: 0 <= k < |s| ==> !StripSpace(s[k])
  {
  }

  lemma CoreIs(s: Bytes)
    ensures Core(s) == Before(Before(StripRight(StripLeft(s)), AT_SIGN), DOT)
  {
  }

  lemma CoreAlone(s: Bytes)
    requires AT_SIGN !in s && DOT !in s && forall k :: 0 <= k < |s| ==> !StripSpace(s[k])
    ensures Core(s) == s
  {
    hide *;
    CoreIs(s);
    NothingToStrip(s);
    BeforeAbsent(s, AT_SIGN);
    BeforeAbsent(s, DOT);
  }

  lemma CoreOfName(s: Bytes)
    requires NameChars(s)
    ensures Core(s) == s && Dashed(s) == s
  {
    hide *;
    NameFree(s);
    NoUnderscore(s);
    CoreAlone(s);
  }

  lemma NoUnderscore(s: Bytes)
    requires UNDERSCORE !in s
    ensures Dashed(s) == s
  {
  }

  lemma NeutralCanonical(s: Bytes)
    requires Canonical(s)
    ensures Neutral(s) <==> s == LOWER_POSIX
  {
    CanonicalChars(s);
    if Neutral(s) {
      assert Upper(s) == UPPER_POSIX;
      assert forall k :: 0 <= k < 5 ==> ToUpper(s[k]) == UPPER_POSIX[k];
      assert DASH !in s;
      BeforeDash(s);
      assert Split(s) == [s];
      assert Language(s);
    }
  }

  lemma {:induction false} BeforeDash(s: Bytes)
    requires DASH !in s
    ensures DashAt(s) == |s|
    decreases s
  {
    if s != [] {
      BeforeDash(s[1..]);
    }
  }

  lemma {:induction false} DashIs(s: Bytes, n: nat)
    requires n <= |s| && (forall k :: 0 <= k < n ==> s[k] != DASH) && (n < |s| ==> s[n] == DASH)
    ensures DashAt(s) == n
    decreases s
  {
    if n > 0 {
      DashIs(s[1..], n - 1);
    }
  }

  lemma SplitSingle(s: Bytes)
    requires DASH !in s
    ensures Split(s) == [s]
  {
    BeforeDash(s);
  }

  /**
   The canonical names are exactly the fixed points, but for "posix": it has the
   form of a language and is taken for the neutral locale.
   */
  lemma CanonicalFixed(s: Bytes)
    requires Canonical(s)
    ensures Normalized(s) == if s == LOWER_POSIX then None else Some(s)
  {
    CanonicalChars(s);
    CoreOfName(s);
    NeutralCanonical(s);
    PartsCanonical(Split(s));
    JoinSplit(s);
  }

  lemma PosixSpelling(s: Bytes)
    requires Lower(s) == LOWER_POSIX
    ensures Upper(s) == UPPER_POSIX
  {
    assert forall k :: 0 <= k < 5 ==> ToLower(s[k]) == LOWER_POSIX[k];
    assert forall k :: 0 <= k < 5 ==> ToUpper(s[k]) == UPPER_POSIX[k];
  }

  /** What becomes "posix" was a spelling of it. */
  lemma BecomesPosix(core: Bytes)
    requires PythonParts(Split(Dashed(core))) == Some([LOWER_POSIX])
    ensures Neutral(core)
  {
    hide PythonParts;
    var ps := Split(Dashed(core));
    SinglePart(ps);
    JoinSplit(Dashed(core));
    assert Dashed(core) == ps[0];
    hide Split;
    assert forall k :: 0 <= k < |core| ==> IsAlpha(Dashed(core)[k]);
    assert core == Dashed(core);
    PosixSpelling(core);
  }

  lemma ResultParts(value: Bytes)
    requires Normalized(value).Some?
    ensures var parts := PythonParts(Split(Dashed(Core(value))));
      !Neutral(Core(value)) && parts.Some? && parts.value != [] && Normalized(value).value == JoinParts(parts.value)
  {
    hide PythonParts, Split, Dashed, Core, Neutral, JoinParts;
  }

  lemma PosixParts()
    ensures Split(LOWER_POSIX) == [LOWER_POSIX]
  {
    SplitSingle(LOWER_POSIX);
  }

  /** Every result is canonical, is not "posix", and normalizes to itself. */
  lemma NormalizedCanonical(value: Bytes)
    requires Normalized(value).Some?
    ensures var r := Normalized(value).value;
      Canonical(r) && r != LOWER_POSIX && Normalized(r) == Some(r)
  {
    hide *;
    ResultParts(value);
    var core := Core(value);
    var ps := Split(Dashed(core));
    PartsCanonical(ps);
    var qs := PythonParts(ps).value;
    var r := JoinParts(qs);
    JoinCanonical(qs);
    if r == LOWER_POSIX {
      PosixParts();
      BecomesPosix(core);
    }
    CanonicalFixed(r);
  }

  lemma SinglePart(ps: seq<Bytes>)
    requires PythonParts(ps).Some? && |PythonParts(ps).value| == 1
    ensures |ps| == 1 && PythonParts(ps).value == [Lower(ps[0])] && AllAlpha(ps[0])
  {
    if |ps| > 1 {
      ScriptLength(ps[1..]);
    }
  }

  lemma {:induction false} VariantsLength(ps: seq<Bytes>)
    ensures PythonVariants(ps).Some? ==> |PythonVariants(ps).value| == |ps|
    decreases ps
  {
    if ps != [] {
      VariantsLength(ps[1..]);
    }
  }

  lemma ScriptLength(ps: seq<Bytes>)
    ensures PythonScript(ps).Some? ==> |PythonScript(ps).value| == |ps|
  {
    hide PythonVariants;
    VariantsLength(ps);
    if ps != [] {
      VariantsLength(ps[1..]);
      if |ps| > 1 {
        VariantsLength(ps[1..][1..]);
      }
    }
  }

  // ----- Parents -----

  /** s.rpartition("-")[0], and what strrchr leaves when there is a dash. */
  function Parent(s: Bytes): (p: Bytes)
    ensures |p| <= |s| && (s != [] ==> |p| < |s|)
    ensures p == s[..|p|] && (p != [] ==> s[|p|] == DASH)
    decreases |s|
  {
    if s == [] then []
    else if s[|s| - 1] == DASH then s[..|s| - 1]
    else Parent(s[..|s| - 1])
  }

  lemma {:induction false} ParentOf(a: Bytes, b: Bytes)
    requires DASH !in b
    ensures Parent(a + [DASH] + b) == a && Parent(b) == []
    decreases |b|
  {
    var s := a + [DASH] + b;
    if b == [] {
      assert s[..|s| - 1] == a;
    } else {
      assert s[..|s| - 1] == a + [DASH] + b[..|b| - 1];
      ParentOf(a, b[..|b| - 1]);
    }
  }

  lemma {:induction false} JoinLast(ps: seq<Bytes>)
    requires |ps| > 1
    ensures JoinParts(ps) == JoinParts(ps[..|ps| - 1]) + [DASH] + ps[|ps| - 1]
    decreases ps
  {
    var front := ps[..|ps| - 1];
    if |ps| > 2 {
      JoinLast(ps[1..]);
      assert front[1..] == ps[1..][..|ps| - 2];
    }
  }

  lemma RegionPrefix(ps: seq<Bytes>)
    requires RegionTail(ps) && ps != []
    ensures RegionTail(ps[..|ps| - 1])
  {
    hide Variant, Region;
    var front := ps[..|ps| - 1];
    if !Variants(ps) && front != [] {
      assert front[1..] == ps[1..][..|ps| - 2];
    }
  }

  lemma ScriptPrefix(ps: seq<Bytes>)
    requires ScriptTail(ps) && ps != []
    ensures ScriptTail(ps[..|ps| - 1])
  {
    var front := ps[..|ps| - 1];
    if RegionTail(ps) {
      RegionPrefix(ps);
    } else if front == [] {
      assert RegionTail(front);
    } else {
      RegionPrefix(ps[1..]);
      assert front[1..] == ps[1..][..|ps| - 2];
      hide RegionTail, Script;
    }
  }

  lemma PartsPrefix(ps: seq<Bytes>)
    requires LocaleParts(ps) && |ps| > 1
    ensures LocaleParts(ps[..|ps| - 1])
  {
    hide ScriptTail, Language;
    var front := ps[..|ps| - 1];
    ScriptPrefix(ps[1..]);
    assert front[1..] == ps[1..][..|ps| - 2];
  }

  /** Each step of the fallback chain is canonical again, until nothing is left. */
  lemma ParentCanonical(s: Bytes)
    requires Canonical(s)
    ensures Parent(s) == [] <==> DASH !in s
    ensures Parent(s) != [] ==> Canonical(Parent(s))
  {
    var ps := Split(s);
    JoinSplit(s);
    CanonicalChars(s);
    if |ps| == 1 {
      ParentOf([], s);
    } else {
      var front := ps[..|ps| - 1];
      JoinLast(ps);
      ParentOf(JoinParts(front), ps[|ps| - 1]);
      PartsPrefix(ps);
      JoinCanonical(front);
      PartsAlnum(front);
      JoinChars(front);
    }
  }

  // ----- C -----

  const LOCALE_CAPACITY := 64

  /** What ends the locale name in the C scan. */
  predicate Stop(b: int) {
    b == DOT || b == AT_SIGN || IsSpace(b)
  }

  function SkipSpaces(s: Bytes): (r: Bytes)
    ensures |r| <= |s| && r == s[|s| - |r|..] && (r != [] ==> !IsSpace(r[0]))
    ensures forall k :: 0 <= k < |s| - |r| ==> IsSpace(s[k])
  {
    if s != [] && IsSpace(s[0]) then SkipSpaces(s[1..]) else s
  }

  function TakeName(s: Bytes): (r: Bytes)
    ensures |r| <= |s| && r == s[..|r|] && (|r| < |s| ==> Stop(s[|r|]))
    ensures forall k :: 0 <= k < |r| ==> !Stop(r[k])
  {
    if s == [] || Stop(s[0]) then [] else [s[0]] + TakeName(s[1..])
  }

  /** The contents of `raw` before it is normalized. */
  function RawName(input: Bytes): Bytes {
    Dashed(TakeName(SkipSpaces(input)))
  }

  function RawPart(s: Bytes, part: nat, sawScript: bool): (r: Option<Bytes>)
    ensures r.Some? ==> |r.value| == |s| && s != []
  {
    if s == [] then None
    else if part == 0 then
      if 2 <= |s| <= 8 && AllAlpha(s) then Some(Lower(s)) else None
    else if part == 1 && |s| == 4 then
      if AllAlpha(s) then Some(Title(s)) else if IsDigit(s[0]) && AllAlnum(s) then Some(Lower(s)) else None
    else if part == (if sawScript then 2 else 1) && |s| == 2 then
      if AllAlpha(s) then Some(Upper(s)) else None
    else if part == (if sawScript then 2 else 1) && |s| == 3 then
      if AllDigits(s) then Some(s) else None
    else if (5 <= |s| <= 8 || (|s| == 4 && IsDigit(s[0]))) && AllAlnum(s) then Some(Lower(s))
    else None
  }

  predicate SeesScript(s: Bytes, part: nat, sawScript: bool) {
    sawScript || (part == 1 && |s| == 4 && AllAlpha(s))
  }

  function RawParts(ps: seq<Bytes>, part: nat, sawScript: bool): (r: Option<seq<Bytes>>)
    ensures r.Some? ==> |r.value| == |ps|
  {
    if ps == [] then Some([]) else
    match RawPart(ps[0], part, sawScript)
    case None => None
    case Some(p) => Cons(p, RawParts(ps[1..], part + 1, SeesScript(ps[0], part, sawScript)))
  }

  predicate Refused(raw: Bytes) {
    raw == [] || |raw| >= LOCALE_CAPACITY || Neutral(raw)
  }

  /** The result for a name, whatever the capacity. */
  function CNormalized(input: Bytes): Option<Bytes> {
    var raw := RawName(input);
    if Refused(raw) then None else
    match RawParts(Split(raw), 0, false)
    case None => None
    case Some(ps) => if ps == [] then None else Some(JoinParts(ps))
  }

  // ----- Both normalizers agree -----

  lemma {:induction false} RawVariants(ps: seq<Bytes>, part: nat, sawScript: bool)
    requires part >= 2 && (sawScript ==> part > 2)
    ensures RawParts(ps, part, sawScript) == PythonVariants(ps)
    decreases ps
  {
    if ps != [] {
      RawVariants(ps[1..], part + 1, sawScript);
    }
  }

  lemma RawRegion(ps: seq<Bytes>, part: nat, sawScript: bool)
    requires part == (if sawScript then 2 else 1) && (part == 1 && ps != [] ==> !LooseScript(ps[0]))
    ensures RawParts(ps, part, sawScript) == PythonRegion(ps)
  {
    if ps != [] {
      RawVariants(ps[1..], part + 1, sawScript);
      if |ps[0]| == 3 && AllDigits(ps[0]) {
        assert Upper(ps[0]) == ps[0];
      }
    }
  }

  lemma RawScript(ps: seq<Bytes>)
    ensures RawParts(ps, 1, false) == PythonScript(ps)
  {
    hide PythonRegion;
    if ps != [] && LooseScript(ps[0]) {
      RawRegion(ps[1..], 2, true);
    } else {
      RawRegion(ps, 1, false);
    }
  }

  lemma RawPython(ps: seq<Bytes>)
    requires ps != []
    ensures RawParts(ps, 0, false) == PythonParts(ps)
  {
    hide PythonScript;
    RawScript(ps[1..]);
  }

  predicate HasSpace(s: Bytes) {
    exists k :: 0 <= k < |s| && IsSpace(s[k])
  }

  /** ASCII without the four separators that only Python strips. */
  predicate CommonText(s: Bytes) {
    forall k :: 0 <= k < |s| ==> 0 < s[k] < 0x80 && !(0x1C <= s[k] <= 0x1F)
  }

  lemma TakeNameIs(s: Bytes, n: nat)
    requires n <= |s| && (forall k :: 0 <= k < n ==> !Stop(s[k])) && (n < |s| ==> Stop(s[n]))
    ensures TakeName(s) == s[..n]
  {
    var r := TakeName(s);
    assert forall k :: 0 <= k < |r| ==> s[k] == r[k];
  }

  lemma {:induction false} SkipsAlike(s: Bytes)
    requires CommonText(s)
    ensures SkipSpaces(s) == StripLeft(s)
    decreases s
  {
    if s != [] {
      SkipsAlike(s[1..]);
    }
  }

  lemma CorePrefix(trimmed: Bytes)
    ensures var core := Before(Before(trimmed, AT_SIGN), DOT);
      && |core| <= |trimmed| && core == trimmed[..|core|]
      && (forall k :: 0 <= k < |core| ==> core[k] != DOT && core[k] != AT_SIGN)
      && (|core| < |trimmed| ==> trimmed[|core|] == DOT || trimmed[|core|] == AT_SIGN)
  {
    var plain := Before(trimmed, AT_SIGN);
    var core := Before(plain, DOT);
    hide Before;
    assert forall k :: 0 <= k < |core| ==> core[k] == plain[k] && plain[k] != AT_SIGN;
    assert |core| < |plain| ==> plain[|core|] == trimmed[|core|];
  }

  lemma TrimmedCut(s: Bytes, core: Bytes)
    requires CommonText(s) && !HasSpace(core)
    requires core == Before(Before(StripRight(s), AT_SIGN), DOT)
    ensures TakeName(s) == core
  {
    var trimmed := StripRight(s);
    CorePrefix(trimmed);
    hide Before, StripRight, TakeName;
    assert core == trimmed[..|core|] == s[..|core|];
    assert forall k :: 0 <= k < |core| ==> core[k] == s[k];
    assert |core| < |trimmed| ==> s[|core|] == trimmed[|core|];
    TakeNameIs(s, |core|);
  }

  lemma SuffixCommon(value: Bytes, s: Bytes)
    requires CommonText(value) && |s| <= |value| && s == value[|value| - |s|..]
    ensures CommonText(s)
  {
  }

  lemma CutsAlike(value: Bytes)
    requires CommonText(value) && !HasSpace(Core(value))
    ensures TakeName(SkipSpaces(value)) == Core(value)
  {
    SkipsAlike(value);
    var s := StripLeft(value);
    SuffixCommon(value, s);
    hide StripLeft, SkipSpaces, CommonText;
    TrimmedCut(s, Core(value));
  }

  lemma NotAlnum(s: Bytes, k: nat)
    requires k < |s| && IsSpace(s[k])
    ensures !AllAlnum(s)
  {
  }

  lemma {:induction false} SpacedPart(s: Bytes, k: nat) returns (j: nat)
    requires k < |s| && IsSpace(s[k])
    ensures j < |Split(s)| && !AllAlnum(Split(s)[j])
    decreases |s|
  {
    hide DashAt, Split, AllAlnum;
    var n := DashAt(s);
    SplitStep(s);
    if k < n {
      NotAlnum(s[..n], k);
      j := 0;
    } else {
      hide Split;
      var i := SpacedPart(s[n + 1..], k - n - 1);
      j := i + 1;
    }
  }

  lemma {:induction false} VariantsAlnum(ps: seq<Bytes>)
    requires PythonVariants(ps).Some?
    ensures forall k :: 0 <= k < |ps| ==> AllAlnum(ps[k])
    decreases ps
  {
    if ps != [] {
      VariantsAlnum(ps[1..]);
      assert ps == [ps[0]] + ps[1..];
    }
  }

  lemma AcceptedAlnum(ps: seq<Bytes>)
    requires PythonParts(ps).Some?
    ensures forall k :: 0 <= k < |ps| ==> AllAlnum(ps[k])
  {
    hide PythonVariants;
    var a := ps[1..];
    var b := if a != [] && LooseScript(a[0]) then a[1..] else a;
    var c := if b != [] && LooseRegion(b[0]) then b[1..] else b;
    assert PythonVariants(c).Some?;
    VariantsAlnum(c);
    assert ps == [ps[0]] + a;
    assert a == b || a == [a[0]] + b;
    assert b == c || b == [b[0]] + c;
  }

  lemma SpacedRefused(value: Bytes)
    requires HasSpace(Core(value))
    ensures Normalized(value) == None
  {
    var core := Core(value);
    var k :| 0 <= k < |core| && IsSpace(core[k]);
    var j := SpacedPart(Dashed(core), k);
    if PythonParts(Split(Dashed(core))).Some? {
      AcceptedAlnum(Split(Dashed(core)));
    }
  }

  lemma CoreStarts(value: Bytes)
    ensures var s := StripLeft(value); |Core(value)| <= |s| && Core(value) == s[..|Core(value)|]
  {
    var trimmed := StripRight(StripLeft(value));
    CorePrefix(trimmed);
    hide StripLeft, StripRight, Before;
    assert Core(value) == trimmed[..|Core(value)|];
    assert trimmed == StripLeft(value)[..|trimmed|];
  }

  lemma FirstSpace(s: Bytes, core: Bytes)
    requires |core| <= |s| && core == s[..|core|] && HasSpace(core)
    ensures TakeName(s) == TakeName(core)
  {
    var head := TakeName(core);
    var k :| 0 <= k < |core| && IsSpace(core[k]);
    hide TakeName;
    assert core[|head|] == s[|head|];
    assert forall j :: 0 <= j < |head| ==> s[j] == core[j] == head[j];
    TakeNameIs(s, |head|);
    assert s[..|head|] == head;
  }

  lemma TakesAll(core: Bytes)
    requires !HasSpace(core) && DOT !in core && AT_SIGN !in core
    ensures TakeName(core) == core
  {
    TakeNameIs(core, |core|);
  }

  lemma CoreUnmarked(value: Bytes)
    ensures DOT !in Core(value) && AT_SIGN !in Core(value)
  {
    CorePrefix(StripRight(StripLeft(value)));
    hide StripLeft, StripRight, Before;
  }

  /** What C reads of a name is the first part of its core. */
  lemma ReadsHead(value: Bytes)
    requires CommonText(value)
    ensures TakeName(SkipSpaces(value)) == TakeName(Core(value))
  {
    SkipsAlike(value);
    CoreStarts(value);
    CoreUnmarked(value);
    hide *;
    if HasSpace(Core(value)) {
      FirstSpace(StripLeft(value), Core(value));
    } else {
      CutsAlike(value);
      TakesAll(Core(value));
    }
  }

  lemma NotStopped(head: Bytes)
    requires CommonText(head) && forall k :: 0 <= k < |head| ==> !Stop(head[k])
    ensures forall k :: 0 <= k < |head| ==> !StripSpace(head[k])
    ensures AT_SIGN !in head && DOT !in head && !HasSpace(head) && (head == [] || !IsSpace(head[0]))
  {
  }

  lemma TakesWhole(head: Bytes)
    requires forall k :: 0 <= k < |head| ==> !Stop(head[k])
    ensures TakeName(head) == head
  {
    hide TakeName;
    TakeNameIs(head, |head|);
  }

  /** A name without space, dot and at-sign is read whole by both. */
  lemma HeadAlone(head: Bytes)
    requires CommonText(head) && forall k :: 0 <= k < |head| ==> !Stop(head[k])
    ensures Core(head) == head && TakeName(SkipSpaces(head)) == head && !HasSpace(head)
  {
    hide *;
    NotStopped(head);
    NothingToSkip(head);
    TakesWhole(head);
    CoreAlone(head);
  }

  lemma PrefixCommon(s: Bytes, n: nat)
    requires CommonText(s) && n <= |s|
    ensures CommonText(s[..n])
  {
  }

  lemma CommonHead(value: Bytes)
    requires CommonText(value)
    ensures CommonText(TakeName(Core(value)))
  {
    var s := StripLeft(value);
    SuffixCommon(value, s);
    CoreStarts(value);
    hide StripLeft, Core, TakeName, CommonText;
    PrefixCommon(s, |Core(value)|);
    PrefixCommon(Core(value), |TakeName(Core(value))|);
  }

  /** The same cut gives the same answer. */
  lemma SameRaw(a: Bytes, b: Bytes)
    requires TakeName(SkipSpaces(a)) == TakeName(SkipSpaces(b))
    ensures CNormalized(a) == CNormalized(b)
  {
  }

  /** On names without inner space both give the same answer while the name fits C's buffer. */
  lemma UnspacedAgree(value: Bytes)
    requires CommonText(value) && !HasSpace(Core(value))
    ensures CNormalized(value) == if |Core(value)| < LOCALE_CAPACITY then Normalized(value) else None
  {
    CutsAlike(value);
    var core := Core(value);
    RawPython(Split(Dashed(core)));
    NeutralDashed(core);
    if core == [] {
      assert PythonParts(Split([])) == None;
    }
  }

  /** With a space inside C answers for the part in front of it. */
  lemma SpacedHead(value: Bytes)
    requires CommonText(value)
    ensures var head := TakeName(Core(value));
      CNormalized(value) == if |head| < LOCALE_CAPACITY then Normalized(head) else None
  {
    var head := TakeName(Core(value));
    ReadsHead(value);
    CommonHead(value);
    HeadAlone(head);
    hide Core, TakeName, CNormalized, Normalized;
    SameRaw(value, head);
    UnspacedAgree(head);
  }

  /**
   The names that both normalizers treat alike: without a space inside, those that
   fit the buffer and those that are no locale; with one, those whose part in front
   of it is no locale or does not fit.
   */
  predicate ReadAlike(value: Bytes) {
    var core := Core(value);
    if HasSpace(core) then |TakeName(core)| >= LOCALE_CAPACITY || Normalized(TakeName(core)) == None
    else |core| < LOCALE_CAPACITY || Normalized(value) == None
  }

  lemma ReadAlikeIs(value: Bytes)
    ensures ReadAlike(value) <==>
            var core := Core(value);
            if HasSpace(core) then |TakeName(core)| >= LOCALE_CAPACITY || Normalized(TakeName(core)) == None
            else |core| < LOCALE_CAPACITY || Normalized(value) == None
  {
  }

  /**
   On ASCII names that both treat as text the normalizers give the same answer,
   as long as no space is left inside the name and it fits C's buffer. A longer
   name is refused by C; one with a space inside is refused by Python, and C
   reads the part in front of the space. So they differ exactly on spaced names
   whose first part is a locale name of at most 63 bytes, and on longer locale
   names.
   */
  lemma NormalizersAgree(value: Bytes)
    requires CommonText(value)
    ensures !HasSpace(Core(value)) && |Core(value)| < LOCALE_CAPACITY ==> CNormalized(value) == Normalized(value)
    ensures !HasSpace(Core(value)) && |Core(value)| >= LOCALE_CAPACITY ==> CNormalized(value) == None
    ensures HasSpace(Core(value)) ==> Normalized(value) == None
    ensures CNormalized(value) == Normalized(value) <==> ReadAlike(value)
  {
    hide *;
    ReadAlikeIs(value);
    if HasSpace(Core(value)) {
      SpacedRefused(value);
      SpacedHead(value);
    } else {
      UnspacedAgree(value);
    }
  }

  lemma NeutralDashed(s: Bytes)
    ensures Neutral(Dashed(s)) <==> Neutral(s)
  {
    var d := Dashed(s);
    if Neutral(d) {
      NeutralLetters(d);
      assert UNDERSCORE !in s by {
        assert forall k :: 0 <= k < |s| ==> d[k] != DASH;
      }
      NoUnderscore(s);
    }
    if Neutral(s) {
      NeutralLetters(s);
      NoUnderscore(s);
    }
  }

  lemma NeutralLetters(s: Bytes)
    requires Neutral(s)
    ensures DASH !in s && UNDERSCORE !in s
  {
    assert forall k :: 0 <= k < |s| ==> Upper(s)[k] == ToUpper(s[k]);
    hide Upper;
    assert forall k :: 0 <= k < |s| ==> IsUpper(ToUpper(s[k]));
  }

  /** What C makes of the bytes in its buffer. */
  lemma RawCanonical(raw: Bytes)
    requires UNDERSCORE !in raw && !Neutral(raw) && RawParts(Split(raw), 0, false).Some?
    ensures var ps := RawParts(Split(raw), 0, false).value;
      ps != [] && Canonical(JoinParts(ps)) && JoinParts(ps) != LOWER_POSIX && |JoinParts(ps)| == |raw|
  {
    var ps := Split(raw);
    hide PythonParts, RawParts, LocaleParts, Dashed, Neutral, Split, JoinParts;
    RawPython(ps);
    PartsCanonical(ps);
    RawLength(ps, 0, false);
    JoinSplit(raw);
    NoUnderscore(raw);
    var qs := PythonParts(ps).value;
    JoinCanonical(qs);
    var r := JoinParts(qs);
    if r == LOWER_POSIX {
      SplitSingle(r);
      assert qs == [r];
      BecomesPosix(raw);
    }
  }

  /** Every name that C produces is canonical, fits the buffer, and is produced again from itself. */
  lemma CNormalizedCanonical(input: Bytes)
    requires CNormalized(input).Some?
    ensures var r := CNormalized(input).value;
      Canonical(r) && |r| < LOCALE_CAPACITY && r != LOWER_POSIX && CNormalized(r) == Some(r)
  {
    hide JoinParts, RawParts, Split, Canonical;
    RawCanonical(RawName(input));
    CanonicalFixedC(CNormalized(input).value);
  }

  lemma {:induction false} RawLength(ps: seq<Bytes>, part: nat, sawScript: bool)
    requires ps != [] && RawParts(ps, part, sawScript).Some?
    ensures |JoinParts(RawParts(ps, part, sawScript).value)| == |JoinParts(ps)|
    decreases ps
  {
    hide RawPart;
    var qs := RawParts(ps, part, sawScript).value;
    if |ps| > 1 {
      RawLength(ps[1..], part + 1, SeesScript(ps[0], part, sawScript));
      assert qs[1..] == RawParts(ps[1..], part + 1, SeesScript(ps[0], part, sawScript)).value;
    }
  }

  lemma CanonicalCommon(s: Bytes)
    requires Canonical(s)
    ensures CommonText(s) && !HasSpace(s) && s != []
  {
    CanonicalChars(s);
  }

  /** The canonical names that fit are C's fixed points too, again but for "posix". */
  lemma CanonicalFixedC(s: Bytes)
    requires Canonical(s)
    ensures CNormalized(s) == if s == LOWER_POSIX || |s| >= LOCALE_CAPACITY then None else Some(s)
  {
    CanonicalCommon(s);
    CanonicalChars(s);
    CoreOfName(s);
    CanonicalFixed(s);
    NormalizersAgree(s);
  }

  const EN: Bytes := [101, 110]
  const EN_SPACE_US: Bytes := [101, 110, 32, 85, 83]

  lemma PlainEnglish()
    ensures Dashed(EN) == EN && Split(EN) == [EN] && RawParts([EN], 0, false) == Some([EN]) && !Refused(EN)
  {
    BeforeDash(EN);
    assert Lower(EN) == EN;
    assert RawPart(EN, 0, false) == Some(EN);
    assert [EN][1..] == [] && [EN] + [] == [EN];
  }

  /** "en US" is the plain case of a space inside: Python refuses it, C reads "en". */
  lemma SpaceInside()
    ensures Normalized(EN_SPACE_US) == None && CNormalized(EN_SPACE_US) == Some(EN)
  {
    var v := EN_SPACE_US;
    hide StripLeft, StripRight, Before, TakeName, Normalized, Dashed, Split, RawParts, Refused;
    NothingToSkip(v);
    TakeNameIs(v, 2);
    assert v[..2] == EN;
    PlainEnglish();
    assert Normalized(v) == None by {
      EndsInLetters(v);
      BeforeAbsent(v, AT_SIGN);
      BeforeAbsent(v, DOT);
      assert Core(v)[2] == 32;
      SpacedRefused(v);
    }
  }

  const VARIANT: Bytes := [97, 98, 99, 100, 101]

  function LongParts(n: nat): seq<Bytes> {
    seq(n, _ => VARIANT)
  }

  lemma {:induction false} LongLength(n: nat)
    requires n > 0
    ensures |JoinParts(LongParts(n))| == 6 * n - 1
  {
    if n > 1 {
      LongLength(n - 1);
      assert LongParts(n)[1..] == LongParts(n - 1);
    }
  }

  /** English with eleven variants: Python keeps the name, and C has no room for it. */
  lemma LongName()
    ensures var name := JoinParts([EN] + LongParts(11));
      CommonText(name) && |name| == 68 && Normalized(name) == Some(name) && CNormalized(name) == None
  {
    var ps := [EN] + LongParts(11);
    var name := JoinParts(ps);
    LongLength(11);
    assert ps[1..] == LongParts(11);
    LongVariants();
    hide LongParts, LocaleParts;
    assert name == EN + [DASH] + JoinParts(LongParts(11));
    JoinCanonical(ps);
    hide JoinParts, Canonical, Split;
    CanonicalCommon(name);
    CanonicalFixed(name);
    CanonicalFixedC(name);
  }

  lemma LongVariants()
    ensures LocaleParts([EN] + LongParts(11))
  {
    assert Variant(VARIANT);
    assert ([EN] + LongParts(11))[1..] == LongParts(11);
    assert Variants(LongParts(11));
  }

  lemma NothingToSkip(s: Bytes)
    ensures s == [] || !IsSpace(s[0]) ==> SkipSpaces(s) == s
  {
  }

  lemma EndsInLetters(s: Bytes)
    requires s != [] && !StripSpace(s[0]) && !StripSpace(s[|s| - 1])
    ensures StripLeft(s) == s && StripRight(s) == s
  {
  }
}
