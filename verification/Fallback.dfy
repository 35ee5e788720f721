/** The chain of parent locales in msys_sdk/i18n.py, and how keys are resolved along it. */
module Fallback {
  import opened Bytes
  import opened Utf8
  import opened Template
  import opened Locale
  import opened Catalogs
  import LocaleCode
  import Plural
  import Rendering

  // ----- The chain -----

  /** A name and what is left of it as subtags are dropped from the end. */
  function Parents(s: Bytes): seq<Bytes>
    decreases |s|
  {
    if s == [] then [] else [s] + Parents(Parent(s))
  }

  function WithDefault(chain: seq<Bytes>, locale: Bytes): seq<Bytes> {
    if locale in chain then chain else chain + [locale]
  }

  function Candidates(requested: Bytes, defaultLocale: Bytes): seq<Bytes> {
    var start := match Normalized(requested) case Some(normalized) => normalized case None => defaultLocale;
    WithDefault(Parents(start), defaultLocale)
  }

  /** locale_candidates; no candidate is met twice, since each is shorter than the one before. */
  method LocaleCandidates(requested: Bytes, defaultLocale: Bytes) returns (candidates: seq<Bytes>)
    requires Ascii(requested)
    ensures candidates == Candidates(requested, defaultLocale)
  {
    hide Normalized;
    var normalized := LocaleCode.NormalizeLocale(requested);
    if normalized == None {
      normalized := Some(defaultLocale);
    }
    candidates := [];
    var current := normalized.value;
    while current != []
      invariant candidates + Parents(current) == Parents(normalized.value)
      invariant forall c :: c in candidates ==> |c| > |current|
      decreases |current|
    {
      assert candidates + ([current] + Parents(Parent(current))) == candidates + [current] + Parents(Parent(current));
      if current !in candidates {
        candidates := candidates + [current];
      }
      current := Parent(current);
    }
    if defaultLocale !in candidates {
      candidates := candidates + [defaultLocale];
    }
  }

  predicate Held(overlays: seq<Overlay>, locale: Bytes) {
    FindMessages(overlays, locale).Some?
  }

  /** The candidates that the catalog has messages for. */
  function Available(overlays: seq<Overlay>, chain: seq<Bytes>): seq<Bytes> {
    if chain == [] then []
    else if Held(overlays, chain[0]) then [chain[0]] + Available(overlays, chain[1..])
    else Available(overlays, chain[1..])
  }

  function ChainFor(catalog: Catalog, requested: Bytes): (chain: seq<Bytes>)
    ensures chain != []
  {
    var available := Available(catalog.overlays, Candidates(requested, catalog.defaultLocale));
    if available == [] then [catalog.defaultLocale] else available
  }

  /** _selects_default. */
  predicate SelectsDefault(raw: Bytes) {
    Core(raw) == [] || Neutral(Core(raw))
  }

  /** The locale that set_locale records for an explicit or sampled value. */
  function Requested(catalog: Catalog, raw: Option<Bytes>): Bytes {
    if raw == None || SelectsDefault(raw.value) then catalog.defaultLocale
    else
      match Normalized(raw.value)
      case Some(normalized) => normalized
      case None => catalog.defaultLocale
  }

  // ----- Resolution -----

  /** A message, with the locale and the key under which it was found. */
  datatype Found = Found(locale: Bytes, key: Str, text: Str)

  function FoundAt(catalog: Catalog, locale: Bytes, key: Str): Option<Found> {
    match Get(catalog, locale, key)
    case None => None
    case Some(text) => Some(Found(locale, key, text))
  }

  /** _resolve for one key. */
  function Resolve(catalog: Catalog, chain: seq<Bytes>, key: Str): Option<Found> {
    if chain == [] then None
    else if FoundAt(catalog, chain[0], key).Some? then FoundAt(catalog, chain[0], key)
    else Resolve(catalog, chain[1..], key)
  }

  function PluralKey(key: Str, category: Plural.Category): Str {
    key + [DOT] + Plural.Suffix(category)
  }

  /** The plural message of one locale: its own category first, then "other". */
  function PluralAt(catalog: Catalog, locale: Bytes, key: Str, category: Plural.Category): Option<Found> {
    var exact := FoundAt(catalog, locale, PluralKey(key, category));
    if exact.Some? then exact else FoundAt(catalog, locale, PluralKey(key, Plural.Other))
  }

  /** _resolve_plural. */
  function ResolvePlural(catalog: Catalog, chain: seq<Bytes>, key: Str, count: int): Option<Found> {
    if chain == [] then None
    else
      var here := PluralAt(catalog, chain[0], key, Plural.CategoryPython(chain[0], count));
      if here.Some? then here else ResolvePlural(catalog, chain[1..], key, count)
  }

  /** The choice of Translator.plural: a plural form, or the key as it stands. */
  function Counted(catalog: Catalog, chain: seq<Bytes>, key: Str, count: int): Option<Found> {
    var plural := ResolvePlural(catalog, chain, key, count);
    if plural.Some? then plural else Resolve(catalog, chain, key)
  }

  // ----- The chain stays inside the catalog -----

  lemma {:induction false} ParentsCanonical(s: Bytes)
    requires s == [] || Canonical(s)
    ensures forall p :: p in Parents(s) ==> Canonical(p) && |p| <= |s|
    ensures forall j, k :: 0 <= j < k < |Parents(s)| ==> |Parents(s)[j]| > |Parents(s)[k]|
    decreases |s|
  {
    hide Canonical, Parent;
    if s != [] {
      ParentCanonical(s);
      ParentsCanonical(Parent(s));
      var rest := Parents(Parent(s));
      assert Parents(s) == [s] + rest;
      assert |Parent(s)| < |s|;
      hide Parents;
      LongestFirst(s, rest);
    }
  }

  lemma LongestFirst(s: Bytes, rest: seq<Bytes>)
    requires forall p :: p in rest ==> |p| < |s|
    requires forall j, k :: 0 <= j < k < |rest| ==> |rest[j]| > |rest[k]|
    ensures forall j, k :: 0 <= j < k < |[s] + rest| ==> |([s] + rest)[j]| > |([s] + rest)[k]|
  {
    assert forall k :: 0 < k < |[s] + rest| ==> ([s] + rest)[k] == rest[k - 1] && rest[k - 1] in rest;
  }

  predicate Distinct(chain: seq<Bytes>) {
    forall j, k :: 0 <= j < k < |chain| ==> chain[j] != chain[k]
  }

  lemma {:induction false} AvailableFacts(overlays: seq<Overlay>, chain: seq<Bytes>)
    requires Distinct(chain)
    ensures Distinct(Available(overlays, chain))
    ensures forall l :: l in Available(overlays, chain) <==> l in chain && Held(overlays, l)
    decreases chain
  {
    hide Held;
    if chain != [] {
      var rest := chain[1..];
      AvailableFacts(overlays, rest);
      assert chain == [chain[0]] + rest;
      assert chain[0] !in rest;
      if Held(overlays, chain[0]) {
        var a := Available(overlays, chain);
        assert forall k :: 0 < k < |a| ==>
          a[k] == Available(overlays, rest)[k - 1] && a[k] in Available(overlays, rest);
      }
    }
  }

  lemma RequestedCanonical(catalog: Catalog, raw: Option<Bytes>)
    requires Valid(catalog)
    ensures var r := Requested(catalog, raw);
      && Canonical(r)
      && (Normalized(r) == Some(r) || r == catalog.defaultLocale)
  {
    hide Normalized, Canonical, Core, Neutral;
    if raw.Some? && !SelectsDefault(raw.value) {
      if Normalized(raw.value).Some? {
        NormalizedCanonical(raw.value);
      }
    }
  }

  lemma ParentsDistinct(s: Bytes)
    requires s == [] || Canonical(s)
    ensures Distinct(Parents(s)) && forall p :: p in Parents(s) ==> Canonical(p)
  {
    hide Canonical, Parents;
    ParentsCanonical(s);
    var ps := Parents(s);
    assert forall j, k :: 0 <= j < k < |ps| ==> |ps[j]| > |ps[k]|;
  }

  lemma WithDefaultFacts(chain: seq<Bytes>, locale: Bytes)
    requires Distinct(chain)
    ensures Distinct(WithDefault(chain, locale)) && locale in WithDefault(chain, locale)
    ensures forall l :: l in WithDefault(chain, locale) ==> l in chain || l == locale
  {
  }

  lemma CandidatesFacts(catalog: Catalog, requested: Bytes)
    requires Valid(catalog) && Canonical(requested)
    ensures var cs := Candidates(requested, catalog.defaultLocale);
      && Distinct(cs) && catalog.defaultLocale in cs
      && forall l :: l in cs ==> Canonical(l)
  {
    CanonicalFixed(requested);
    hide Normalized, Canonical, FindMessages, ValidOverlay;
    var start := match Normalized(requested) case Some(n) => n case None => catalog.defaultLocale;
    ParentsDistinct(start);
    hide Parents, WithDefault, Distinct;
    WithDefaultFacts(Parents(start), catalog.defaultLocale);
  }

  /**
   The chain of any locale that is ever requested: never empty, without repetition, inside the
   catalog, ending at the default.
   */
  lemma ChainFacts(catalog: Catalog, requested: Bytes)
    requires Valid(catalog) && Canonical(requested)
    ensures var chain := ChainFor(catalog, requested);
      && chain != [] && Distinct(chain) && catalog.defaultLocale in chain
      && forall l :: l in chain ==> Held(catalog.overlays, l) && Canonical(l)
  {
    hide Canonical, Candidates, Distinct;
    CandidatesFacts(catalog, requested);
    AvailableFacts(catalog.overlays, Candidates(requested, catalog.defaultLocale));
    assert Held(catalog.overlays, catalog.defaultLocale);
  }

  // ----- Totality -----

  lemma {:induction false} ResolveSome(catalog: Catalog, chain: seq<Bytes>, key: Str, locale: Bytes)
    requires locale in chain && Get(catalog, locale, key).Some?
    ensures Resolve(catalog, chain, key).Some?
    decreases chain
  {
    hide Get;
    if FoundAt(catalog, chain[0], key) == None {
      assert chain == [chain[0]] + chain[1..];
      ResolveSome(catalog, chain[1..], key, locale);
    }
  }

  lemma {:induction false} ResolveOrigin(catalog: Catalog, chain: seq<Bytes>, key: Str)
    ensures var found := Resolve(catalog, chain, key);
      found.Some? ==> found.value.key == key && Get(catalog, found.value.locale, key) == Some(found.value.text)
    decreases chain
  {
    hide Get;
    if chain != [] {
      ResolveOrigin(catalog, chain[1..], key);
    }
  }

  lemma {:induction false} PluralOrigin(catalog: Catalog, chain: seq<Bytes>, key: Str, count: int)
    ensures var found := ResolvePlural(catalog, chain, key, count);
      found.Some? ==> Get(catalog, found.value.locale, found.value.key) == Some(found.value.text)
    decreases chain
  {
    hide Get, PluralKey;
    if chain != [] {
      PluralOrigin(catalog, chain[1..], key, count);
    }
  }

  /** Every key of the default locale resolves, whatever locale was requested. */
  lemma DefaultKeysResolve(catalog: Catalog, requested: Bytes, key: Str)
    requires Valid(catalog) && Canonical(requested) && Get(catalog, catalog.defaultLocale, key).Some?
    ensures Resolve(catalog, ChainFor(catalog, requested), key).Some?
  {
    hide Valid, Canonical, Get, ChainFor;
    ChainFacts(catalog, requested);
    ResolveSome(catalog, ChainFor(catalog, requested), key, catalog.defaultLocale);
  }

  lemma {:induction false} PluralSome(catalog: Catalog, chain: seq<Bytes>, key: Str, count: int, locale: Bytes)
    requires locale in chain && Get(catalog, locale, PluralKey(key, Plural.Other)).Some?
    ensures ResolvePlural(catalog, chain, key, count).Some?
    decreases chain
  {
    hide Get, PluralKey, Plural.CategoryPython;
    if chain[0] != locale {
      assert chain == [chain[0]] + chain[1..];
      PluralSome(catalog, chain[1..], key, count, locale);
    }
  }

  /** A key whose "other" form the default locale has always gets a plural form, for any locale and count. */
  lemma DefaultPluralsResolve(catalog: Catalog, requested: Bytes, key: Str, count: int)
    requires Valid(catalog) && Canonical(requested) &&
      Get(catalog, catalog.defaultLocale, PluralKey(key, Plural.Other)).Some?
    ensures ResolvePlural(catalog, ChainFor(catalog, requested), key, count).Some?
  {
    hide Valid, Canonical, Get, ChainFor;
    ChainFacts(catalog, requested);
    PluralSome(catalog, ChainFor(catalog, requested), key, count, catalog.defaultLocale);
  }

  lemma {:induction false} MessagesValid(overlays: seq<Overlay>, locale: Text, defaults: seq<Message>)
    requires forall k :: 0 <= k < |overlays| ==> ValidOverlay(overlays[k], defaults)
    ensures var found := FindMessages(overlays, locale);
      found.Some? ==> forall k :: 0 <= k < |found.value| ==> ValidMessage(found.value[k], defaults)
    decreases overlays
  {
    hide ValidMessage, LocaleText, DistinctKeys;
    if overlays != [] {
      MessagesValid(overlays[1..], locale, defaults);
      assert ValidOverlay(overlays[0], defaults);
    }
  }

  lemma {:induction false} TextValid(messages: seq<Message>, key: Text, defaults: seq<Message>)
    requires forall k :: 0 <= k < |messages| ==> ValidMessage(messages[k], defaults)
    ensures var found := FindText(messages, key);
      found.Some? ==>
        exists k :: 0 <= k < |messages| && messages[k].key == key && messages[k].text == found.value
    decreases messages
  {
    hide ValidMessage;
    if messages != [] {
      TextValid(messages[1..], key, defaults);
      if FindText(messages, key).Some? && messages[0].key != key {
        var rest := messages[1..];
        var k :| 0 <= k < |rest| && rest[k].key == key && rest[k].text == FindText(messages, key).value;
        assert messages[k + 1] == messages[1..][k];
      }
    }
  }

  /**
   Any message of a valid catalog is well-formed, and the default locale has one with the same
   names under its key.
   */
  lemma GetValid(catalog: Catalog, locale: Text, key: Text)
    requires Valid(catalog) && Get(catalog, locale, key).Some?
    ensures var text := Get(catalog, locale, key).value;
      var default := Get(catalog, catalog.defaultLocale, key);
      && ValidText(text) && Ascii(key) && |key| <= MAX_KEY && KeyText(key)
      && default.Some? && Names(default.value) == Names(text)
  {
    hide LocaleText, ValidOverlay, Names, ValidText, FindText, FindMessages, KeyText;
    var defaults := FindMessages(catalog.overlays, catalog.defaultLocale).value;
    MessagesValid(catalog.overlays, locale, defaults);
    var messages := FindMessages(catalog.overlays, locale).value;
    TextValid(messages, key, defaults);
    var text := Get(catalog, locale, key).value;
    var k :| 0 <= k < |messages| && messages[k].key == key && messages[k].text == text;
    assert ValidMessage(messages[k], defaults);
    KeyAscii(messages[k].key);
  }

  /** The names that the default message of a key has slots for. */
  function DefaultNames(catalog: Catalog, key: Text): set<Text> {
    match Get(catalog, catalog.defaultLocale, key)
    case None => {}
    case Some(text) => Names(text)
  }

  /**
   Parameters that fill the slots of the default message render any message that
   a lookup chooses for the key, in whatever locale, without a problem.
   */
  lemma CompleteRendering(catalog: Catalog, locale: Text, key: Text, params: seq<Rendering.Binding>)
    requires Valid(catalog) && Get(catalog, locale, key).Some?
    requires forall name :: name in DefaultNames(catalog, key) ==> Rendering.Fills(params, name)
    ensures Rendering.Problems(Get(catalog, locale, key).value, params) == []
  {
    GetValid(catalog, locale, key);
    var text := Get(catalog, locale, key).value;
    hide Valid, Get, Scan, Tokens, Rendering.Fills, Rendering.Unfilled;
    Rendering.NoProblemsExactly(text, params);
    forall token | token in Tokens(Scan(text, 0).pieces) && token.Placeholder?
      ensures Rendering.Fills(params, token.name)
    {
      assert token.name in Names(text);
    }
  }
}
