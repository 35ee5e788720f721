/** Plural categories: `plural_category` of msys_sdk/i18n.py and msys_i18n_plural_category of src/i18n.c. */
module Plural {
  import opened Bytes
  import opened Locale

  datatype Category = Zero | One | Two | Few | Many | Other

  /** The word that a category adds to a message key. */
  function Suffix(category: Category): (s: Bytes)
    ensures 3 <= |s| <= 5
    ensures forall k :: 0 <= k < |s| ==> IsLower(s[k])
  {
    match category
    case Zero => [122, 101, 114, 111]
    case One => [111, 110, 101]
    case Two => [116, 119, 111]
    case Few => [102, 101, 119]
    case Many => [109, 97, 110, 121]
    case Other => [111, 116, 104, 101, 114]
  }

  const AR: Bytes := [97, 114]
  const BE: Bytes := [98, 101]
  const CS: Bytes := [99, 115]
  const CY: Bytes := [99, 121]
  const FR: Bytes := [102, 114]
  const GA: Bytes := [103, 97]
  const HE: Bytes := [104, 101]
  const HI: Bytes := [104, 105]
  const ID: Bytes := [105, 100]
  const IS: Bytes := [105, 115]
  const JA: Bytes := [106, 97]
  const KO: Bytes := [107, 111]
  const LT: Bytes := [108, 116]
  const LV: Bytes := [108, 118]
  const MK: Bytes := [109, 107]
  const MS: Bytes := [109, 115]
  const PL: Bytes := [112, 108]
  const PT: Bytes := [112, 116]
  const RO: Bytes := [114, 111]
  const RU: Bytes := [114, 117]
  const SK: Bytes := [115, 107]
  const SL: Bytes := [115, 108]
  const TH: Bytes := [116, 104]
  const UK: Bytes := [117, 107]
  const VI: Bytes := [118, 105]
  const ZH: Bytes := [122, 104]
  const PORTUGAL: Bytes := [80, 84]
  const PT_PORTUGAL: Bytes := [112, 116, 45, 80, 84]

  // ----- C -----

  const INT64_MIN := -0x8000_0000_0000_0000
  const INT64_MAX := 0x7FFF_FFFF_FFFF_FFFF

  /** magnitude: no intermediate value leaves its type, also for the least count. */
  function Magnitude(count: int): (m: nat)
    requires INT64_MIN <= count <= INT64_MAX
    ensures m == (if count < 0 then -count else count) && m < 0x1_0000_0000_0000_0000
  {
    if count < 0 then
      var shifted := -(count + 1);
      assert 0 <= shifted <= INT64_MAX;
      shifted + 1
    else count
  }

  /** language_is: a prefix that ends where a subtag ends. */
  predicate LanguageIs(locale: Bytes, language: Bytes) {
    && |language| <= |locale| && locale[..|language|] == language
    && (|locale| == |language| || locale[|language|] == DASH || locale[|language|] == UNDERSCORE)
  }

  /** The canonical name that the C function works with. */
  function SelectedC(locale: Bytes): Bytes {
    match CNormalized(locale)
    case Some(canonical) => canonical
    case None => EN
  }

  function CategoryOf(selected: Bytes, number: nat): Category {
    RuleOf(selected, number, number % 10, number % 100)
  }

  function RuleOf(selected: Bytes, number: nat, mod10: nat, mod100: nat): Category {
    if LanguageIs(selected, ZH) || LanguageIs(selected, JA) || LanguageIs(selected, KO) || LanguageIs(selected, TH)
       || LanguageIs(selected, VI) || LanguageIs(selected, ID) || LanguageIs(selected, MS) then Other
    else if LanguageIs(selected, AR) then
      if number == 0 then Zero
      else if number == 1 then One
      else if number == 2 then Two
      else if mod100 >= 3 && mod100 <= 10 then Few
      else if mod100 >= 11 && mod100 <= 99 then Many
      else Other
    else if LanguageIs(selected, RU) || LanguageIs(selected, UK) || LanguageIs(selected, BE) then
      if mod10 == 1 && mod100 != 11 then One
      else if mod10 >= 2 && mod10 <= 4 && !(mod100 >= 12 && mod100 <= 14) then Few
      else Many
    else if LanguageIs(selected, PL) then
      if number == 1 then One
      else if mod10 >= 2 && mod10 <= 4 && !(mod100 >= 12 && mod100 <= 14) then Few
      else Many
    else if LanguageIs(selected, CS) || LanguageIs(selected, SK) then
      if number == 1 then One else if number >= 2 && number <= 4 then Few else Other
    else if LanguageIs(selected, SL) then
      if mod100 == 1 then One else if mod100 == 2 then Two else if mod100 == 3 || mod100 == 4 then Few else Other
    else if LanguageIs(selected, LT) then
      if mod10 == 1 && mod100 != 11 then One
      else if mod10 >= 2 && mod10 <= 9 && !(mod100 >= 11 && mod100 <= 19) then Few
      else Other
    else if LanguageIs(selected, LV) then
      if mod10 == 0 || (mod100 >= 11 && mod100 <= 19) then Zero
      else if mod10 == 1 && mod100 != 11 then One
      else Other
    else if LanguageIs(selected, RO) then
      if number == 1 then One else if number == 0 || (mod100 >= 1 && mod100 <= 19) then Few else Other
    else if LanguageIs(selected, HE) then
      if number == 1 then One else if number == 2 then Two else if number != 0 && mod10 == 0 then Many else Other
    else if LanguageIs(selected, CY) then
      if number == 0 then Zero
      else if number == 1 then One
      else if number == 2 then Two
      else if number == 3 then Few
      else if number == 6 then Many
      else Other
    else if LanguageIs(selected, GA) then
      if number == 1 then One
      else if number == 2 then Two
      else if number >= 3 && number <= 6 then Few
      else if number >= 7 && number <= 10 then Many
      else Other
    else if LanguageIs(selected, FR) || LanguageIs(selected, HI) ||
      (LanguageIs(selected, PT) && selected != PT_PORTUGAL) then
      if number <= 1 then One else Other
    else if LanguageIs(selected, IS) || LanguageIs(selected, MK) then
      if mod10 == 1 && mod100 != 11 then One else Other
    else if number == 1 then One
    else Other
  }

  /** msys_i18n_plural_category. */
  function CategoryC(locale: Bytes, count: int): Category
    requires INT64_MIN <= count <= INT64_MAX
  {
    CategoryOf(SelectedC(locale), Magnitude(count))
  }

  // ----- Python -----

  const MAX_COUNT := 9007199254740991

  /** The counts that Python accepts. */
  type Count = c: int | -MAX_COUNT <= c <= MAX_COUNT

  /** str.isupper for ASCII. */
  predicate IsUpperText(s: Bytes) {
    && (exists k :: 0 <= k < |s| && IsUpper(s[k]))
    && (forall k :: 0 <= k < |s| ==> !IsLower(s[k]))
  }

  /** The first later subtag that looks like an alphabetic region. */
  function RegionOf(parts: seq<Bytes>): Bytes {
    if parts == [] then []
    else if 2 <= |parts[0]| <= 3 && IsUpperText(parts[0]) then parts[0]
    else RegionOf(parts[1..])
  }

  function SelectedPython(locale: Bytes): Bytes {
    match Normalized(locale)
    case Some(normalized) => normalized
    case None => EN
  }

  function CategoryIn(language: Bytes, region: Bytes, number: nat): Category {
    RuleIn(language, region, number, number % 10, number % 100)
  }

  function RuleIn(language: Bytes, region: Bytes, number: nat, mod10: nat, mod100: nat): Category {
    if language in {ZH, JA, KO, TH, VI, ID, MS} then Other
    else if language == AR then
      if number == 0 then Zero
      else if number == 1 then One
      else if number == 2 then Two
      else if 3 <= mod100 <= 10 then Few
      else if 11 <= mod100 <= 99 then Many
      else Other
    else if language in {RU, UK, BE} then
      if mod10 == 1 && mod100 != 11 then One
      else if 2 <= mod10 <= 4 && !(12 <= mod100 <= 14) then Few
      else Many
    else if language == PL then
      if number == 1 then One
      else if 2 <= mod10 <= 4 && !(12 <= mod100 <= 14) then Few
      else Many
    else if language in {CS, SK} then
      if number == 1 then One else if 2 <= number <= 4 then Few else Other
    else if language == SL then
      if mod100 == 1 then One else if mod100 == 2 then Two else if mod100 in {3, 4} then Few else Other
    else if language == LT then
      if mod10 == 1 && mod100 != 11 then One
      else if 2 <= mod10 <= 9 && !(11 <= mod100 <= 19) then Few
      else Other
    else if language == LV then
      if mod10 == 0 || 11 <= mod100 <= 19 then Zero
      else if mod10 == 1 && mod100 != 11 then One
      else Other
    else if language == RO then
      if number == 1 then One else if number == 0 || 1 <= mod100 <= 19 then Few else Other
    else if language == HE then
      if number == 1 then One else if number == 2 then Two else if number != 0 && mod10 == 0 then Many else Other
    else if language == CY then
      match number
      case 0 => Zero
      case 1 => One
      case 2 => Two
      case 3 => Few
      case 6 => Many
      case _ => Other
    else if language == GA then
      if number == 1 then One
      else if number == 2 then Two
      else if 3 <= number <= 6 then Few
      else if 7 <= number <= 10 then Many
      else Other
    else if language in {FR, HI} || (language == PT && region != PORTUGAL) then
      if number in {0, 1} then One else Other
    else if language in {IS, MK} then
      if mod10 == 1 && mod100 != 11 then One else Other
    else if number == 1 then One
    else Other
  }

  /** plural_category, for counts within its range. */
  function CategoryPython(locale: Bytes, count: int): Category {
    var parts := Split(SelectedPython(locale));
    CategoryIn(parts[0], RegionOf(parts[1..]), if count < 0 then -count else count)
  }

  // ----- Agreement -----

  lemma LanguageIsFirst(s: Bytes, language: Bytes)
    requires NameChars(s) && language != [] && DASH !in language
    ensures LanguageIs(s, language) <==> Split(s)[0] == language
  {
    var n := DashAt(s);
    assert Split(s)[0] == s[..n] by {
      if n == |s| {
        assert s[..n] == s;
      }
    }
    if LanguageIs(s, language) {
      assert |language| < |s| ==> s[|language|] != UNDERSCORE;
      DashIs(s, |language|);
    }
  }

  /** A Portuguese name for Portugal that says more than that. */
  predicate BeyondPortugal(s: Bytes) {
    Split(s)[0] == PT && PORTUGAL in Split(s)[1..] && s != PT_PORTUGAL
  }

  lemma VariantNoRegion(p: Bytes)
    requires Variant(p)
    ensures !(2 <= |p| <= 3) && p != PORTUGAL
  {
  }

  lemma {:induction false} VariantsNoRegion(ps: seq<Bytes>)
    requires Variants(ps)
    ensures RegionOf(ps) == [] && PORTUGAL !in ps
    decreases ps
  {
    if ps != [] {
      VariantNoRegion(ps[0]);
      VariantsNoRegion(ps[1..]);
      assert ps == [ps[0]] + ps[1..];
    }
  }

  lemma RegionTailPortugal(ps: seq<Bytes>)
    requires RegionTail(ps)
    ensures RegionOf(ps) == PORTUGAL <==> PORTUGAL in ps
  {
    if Variants(ps) {
      VariantsNoRegion(ps);
    } else {
      VariantsNoRegion(ps[1..]);
      assert ps == [ps[0]] + ps[1..];
      if |ps[0]| == 2 {
        assert IsUpper(ps[0][0]);
      } else {
        assert AllDigits(ps[0]);
        assert ps[0] != PORTUGAL;
      }
    }
  }

  lemma RegionPortugal(ps: seq<Bytes>)
    requires ScriptTail(ps)
    ensures RegionOf(ps) == PORTUGAL <==> PORTUGAL in ps
  {
    if RegionTail(ps) {
      RegionTailPortugal(ps);
    } else {
      RegionTailPortugal(ps[1..]);
      assert ps == [ps[0]] + ps[1..];
    }
  }

  lemma PlainPortugal()
    ensures Split(PT_PORTUGAL) == [PT, PORTUGAL] && PORTUGAL in Split(PT_PORTUGAL)[1..]
  {
    DashAtFront(PT, PORTUGAL);
    assert PT + [DASH] + PORTUGAL == PT_PORTUGAL;
    assert PT_PORTUGAL[..2] == PT && PT_PORTUGAL[3..] == PORTUGAL;
    BeforeDash(PORTUGAL);
    assert [PT, PORTUGAL][1..] == [PORTUGAL];
  }

  lemma SelectedAlike(locale: Bytes)
    requires CNormalized(locale) == Normalized(locale)
    ensures SelectedC(locale) == SelectedPython(locale) && Canonical(SelectedC(locale))
  {
    hide CNormalized, Normalized, Canonical;
    EnglishCanonical();
    if CNormalized(locale).Some? {
      CNormalizedCanonical(locale);
    }
  }

  lemma SelectedCanonical(locale: Bytes)
    requires Canonical(locale) && |locale| < LOCALE_CAPACITY
    ensures CNormalized(locale) == Normalized(locale)
    ensures SelectedC(locale) == if locale == LOWER_POSIX then EN else locale
  {
    hide CNormalized, Normalized, Canonical;
    CanonicalFixed(locale);
    CanonicalFixedC(locale);
  }

  lemma EnglishCanonical()
    ensures Split(EN) == [EN] && Canonical(EN)
  {
    PlainEnglish();
    assert [EN][1..] == [];
    assert Variants([]) && RegionTail([]) && ScriptTail([]);
  }

  /** The tests of C and of Python on the language, for every code that they test for. */
  ghost predicate SameLanguage(s: Bytes, language: Bytes) {
    forall l: Bytes :: |l| == 2 && DASH !in l ==> (LanguageIs(s, l) <==> language == l)
  }

  predicate SameCodes(s: Bytes, language: Bytes) {
    && (LanguageIs(s, ZH) <==> language == ZH) && (LanguageIs(s, JA) <==> language == JA)
    && (LanguageIs(s, KO) <==> language == KO) && (LanguageIs(s, TH) <==> language == TH)
    && (LanguageIs(s, VI) <==> language == VI) && (LanguageIs(s, ID) <==> language == ID)
    && (LanguageIs(s, MS) <==> language == MS) && (LanguageIs(s, AR) <==> language == AR)
    && (LanguageIs(s, RU) <==> language == RU) && (LanguageIs(s, UK) <==> language == UK)
    && (LanguageIs(s, BE) <==> language == BE) && (LanguageIs(s, PL) <==> language == PL)
    && (LanguageIs(s, CS) <==> language == CS) && (LanguageIs(s, SK) <==> language == SK)
    && (LanguageIs(s, SL) <==> language == SL) && (LanguageIs(s, LT) <==> language == LT)
    && (LanguageIs(s, LV) <==> language == LV) && (LanguageIs(s, RO) <==> language == RO)
    && (LanguageIs(s, HE) <==> language == HE) && (LanguageIs(s, CY) <==> language == CY)
    && (LanguageIs(s, GA) <==> language == GA) && (LanguageIs(s, FR) <==> language == FR)
    && (LanguageIs(s, HI) <==> language == HI) && (LanguageIs(s, PT) <==> language == PT)
    && (LanguageIs(s, IS) <==> language == IS) && (LanguageIs(s, MK) <==> language == MK)
  }

  lemma CodesAlike(s: Bytes, language: Bytes)
    requires SameLanguage(s, language)
    ensures SameCodes(s, language)
  {
    hide LanguageIs;
  }

  lemma RulesAgree(s: Bytes, language: Bytes, region: Bytes, number: nat, mod10: nat, mod100: nat)
    requires SameCodes(s, language)
    requires s == PT_PORTUGAL ==> region == PORTUGAL
    ensures RuleOf(s, number, mod10, mod100) == RuleIn(language, region, number, mod10, mod100) <==>
            !(language == PT && region == PORTUGAL && s != PT_PORTUGAL && number == 0)
    ensures language == PT && region == PORTUGAL && s != PT_PORTUGAL && number == 0 ==>
              RuleOf(s, number, mod10, mod100) == One && RuleIn(language, region, number, mod10, mod100) == Other
  {
    hide LanguageIs;
  }

  lemma CanonicalLanguage(s: Bytes)
    requires Canonical(s)
    ensures SameLanguage(s, Split(s)[0])
    ensures RegionOf(Split(s)[1..]) == PORTUGAL <==> PORTUGAL in Split(s)[1..]
    ensures s == PT_PORTUGAL ==> PORTUGAL in Split(s)[1..]
  {
    CanonicalChars(s);
    RegionPortugal(Split(s)[1..]);
    PlainPortugal();
    hide LanguageIs, NameChars, Split, RegionOf;
    forall l: Bytes | |l| == 2 && DASH !in l
      ensures LanguageIs(s, l) <==> Split(s)[0] == l
    {
      LanguageIsFirst(s, l);
    }
  }

  /**
   Where both normalizers read the name alike (Locale.NormalizersAgree says when)
   both sides choose the same category, unless it names Portuguese for Portugal
   with further subtags and the count is zero.
   */
  lemma CategoriesAgree(locale: Bytes, count: Count)
    requires CNormalized(locale) == Normalized(locale)
    ensures var s := SelectedC(locale);
      && (CategoryC(locale, count) == CategoryPython(locale, count) <==> !(BeyondPortugal(s) && count == 0))
      && (BeyondPortugal(s) && count == 0 ==> CategoryC(locale, count) == One && CategoryPython(locale, count) == Other)
  {
    hide RuleOf, RuleIn, SameLanguage, SameCodes, RegionOf, Split, SelectedC, SelectedPython, Canonical;
    SelectedAlike(locale);
    var s := SelectedC(locale);
    CanonicalLanguage(s);
    CodesAlike(s, Split(s)[0]);
    var n := Magnitude(count);
    RulesAgree(s, Split(s)[0], RegionOf(Split(s)[1..]), n, n % 10, n % 100);
  }

  /** For a canonical name that fits the buffer the name itself decides. */
  lemma CanonicalCategories(locale: Bytes, count: Count)
    requires Canonical(locale) && |locale| < LOCALE_CAPACITY
    ensures CategoryC(locale, count) == CategoryPython(locale, count) <==> !(BeyondPortugal(locale) && count == 0)
    ensures BeyondPortugal(locale) && count == 0 ==>
      CategoryC(locale, count) == One && CategoryPython(locale, count) == Other
  {
    hide CategoryC, CategoryPython, BeyondPortugal, SelectedC, Canonical;
    SelectedCanonical(locale);
    PosixNotPortuguese();
    CategoriesAgree(locale, count);
  }

  lemma PosixNotPortuguese()
    ensures Split(LOWER_POSIX) == [LOWER_POSIX] && !BeyondPortugal(LOWER_POSIX) && !BeyondPortugal(EN)
  {
    BeforeDash(LOWER_POSIX);
    EnglishCanonical();
  }
}
