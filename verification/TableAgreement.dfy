/** Lookup over the generated table chooses what msys_sdk/i18n.py chooses in the catalog. */
module TableAgreement {
  import opened Bytes
  import opened Utf8
  import opened Template
  import opened Locale
  import opened Catalogs
  import opened Fallback
  import opened Table
  import CLiteral
  import Plural

  // ----- What compilation does to a string -----

  /** Text without a question mark cannot hold a trigraph. */
  predicate Plain(s: Str) {
    Ascii(s) && CLiteral.QUESTION !in s
  }

  lemma {:induction false} PlainTrigraph(s: Str)
    requires CLiteral.QUESTION !in s
    ensures !CLiteral.HasTrigraph(s)
    decreases s
  {
    if s != [] {
      PlainTrigraph(s[1..]);
    }
  }

  /** The compiled bytes are the UTF-8 form of the value exactly when it holds no trigraph. */
  lemma CompiledExact(value: Str)
    ensures Compiled(value) == EncodeAll(value) <==> !CLiteral.HasTrigraph(value)
    ensures !CLiteral.HasTrigraph(value) ==> IsLiteral(value)
  {
    hide CLiteral.Denotes, CLiteral.Printed, CLiteral.HasTrigraph;
    CLiteral.LiteralRoundTrip(value);
    EncodeEmpty(value);
    if value == [] {
      CLiteral.EmptyLiteral();
    }
  }

  lemma PlainCompiled(s: Str)
    requires Plain(s)
    ensures Compiled(s) == EncodeAll(s) == s && IsLiteral(s) && !CLiteral.HasTrigraph(s)
  {
    hide Compiled, IsLiteral;
    PlainTrigraph(s);
    CompiledExact(s);
    EncodeAllAscii(s);
  }

  // ----- One locale -----

  /** The row of a message, its strings in UTF-8. */
  function ToRow(found: Option<Found>): Option<Row> {
    match found
    case None => None
    case Some(Found(locale, key, text)) => Some(Row(EncodeAll(locale), EncodeAll(key), EncodeAll(text)))
  }

  /** The row that was compiled from a message. */
  function CompiledRow(found: Option<Found>): Option<Row> {
    match found
    case None => None
    case Some(Found(locale, key, text)) => Some(Row(EncodeAll(locale), EncodeAll(key), Compiled(text)))
  }

  /** The compiled row is faithful unless its message holds a trigraph. */
  lemma FaithfulRow(found: Option<Found>)
    ensures CompiledRow(found) == ToRow(found) <==> !(found.Some? && CLiteral.HasTrigraph(found.value.text))
  {
    hide EncodeAll, Compiled, CLiteral.HasTrigraph;
    if found.Some? {
      CompiledExact(found.value.text);
    }
  }

  lemma SameAscii(a: Str, b: Str)
    requires Ascii(a)
    ensures EncodeAll(a) == a && (EncodeAll(a) == EncodeAll(b) <==> a == b)
  {
    EncodeAllAscii(a);
    EncodeAllAscii(b);
  }

  lemma {:induction false} FirstRowConcat(a: seq<Row>, b: seq<Row>, locale: Bytes, key: Bytes)
    ensures FirstRow(a + b, locale, key) ==
            if FirstRow(a, locale, key).Some? then FirstRow(a, locale, key) else FirstRow(b, locale, key)
    decreases a
  {
    if a == [] {
      assert a + b == b;
    } else {
      assert (a + b)[1..] == a[1..] + b;
      FirstRowConcat(a[1..], b, locale, key);
    }
  }

  predicate PlainKeys(messages: seq<Message>) {
    forall k :: 0 <= k < |messages| ==> Plain(messages[k].key)
  }

  predicate PlainOverlays(overlays: seq<Overlay>) {
    forall k :: 0 <= k < |overlays| ==> Plain(overlays[k].locale) && PlainKeys(overlays[k].messages)
  }

  lemma {:induction false} MessageRowsOf(here: Bytes, messages: seq<Message>, locale: Bytes, key: Str)
    requires Plain(here) && Ascii(locale) && PlainKeys(messages)
    ensures FirstRow(MessageRows(here, messages, Compiled), locale, EncodeAll(key)) ==
            if here != locale || FindText(messages, key) == None then None
            else Some(Row(EncodeAll(locale), EncodeAll(key), Compiled(FindText(messages, key).value)))
    decreases messages
  {
    hide Ascii, Compiled, IsLiteral, EncodeAll;
    if messages != [] {
      var rest := MessageRows(here, messages[1..], Compiled);
      assert MessageRows(here, messages, Compiled)[1..] == rest;
      MessageRowsOf(here, messages[1..], locale, key);
      PlainCompiled(here);
      PlainCompiled(messages[0].key);
      SameAscii(here, locale);
      SameAscii(locale, here);
      SameAscii(messages[0].key, key);
    }
  }

  lemma {:induction false} FindMessagesAbsent(overlays: seq<Overlay>, locale: Text)
    requires forall k :: 0 <= k < |overlays| ==> overlays[k].locale != locale
    ensures FindMessages(overlays, locale) == None
    decreases overlays
  {
    if overlays != [] {
      FindMessagesAbsent(overlays[1..], locale);
    }
  }

  /** The first matching row of the compiled table is the message of the nested dictionaries, its text compiled. */
  lemma {:induction false} RowsOf(overlays: seq<Overlay>, locale: Bytes, key: Str)
    requires PlainOverlays(overlays) && DistinctLocales(overlays) && Ascii(locale)
    ensures FirstRow(Rows(overlays, Compiled), locale, EncodeAll(key)) ==
            match FindMessages(overlays, locale)
            case None => None
            case Some(messages) =>
              match FindText(messages, key)
              case None => None
              case Some(text) => Some(Row(EncodeAll(locale), EncodeAll(key), Compiled(text)))
    decreases overlays
  {
    hide Ascii, Plain, PlainKeys, FindText, MessageRows, FirstRow, Compiled, EncodeAll;
    if overlays == [] {
      EmptyTable(locale, EncodeAll(key));
    } else {
      var rest := overlays[1..];
      RowsOf(rest, locale, key);
      MessageRowsOf(overlays[0].locale, overlays[0].messages, locale, key);
      FirstRowConcat(MessageRows(overlays[0].locale, overlays[0].messages, Compiled), Rows(rest, Compiled), locale,
        EncodeAll(key));
      if overlays[0].locale == locale {
        assert forall k :: 0 <= k < |rest| ==> rest[k].locale == overlays[k + 1].locale != locale;
        FindMessagesAbsent(rest, locale);
      }
    }
  }

  lemma EmptyTable(locale: Bytes, key: Bytes)
    ensures FirstRow([], locale, key) == None
  {
  }

  lemma KeyPlain(key: Str)
    requires KeyText(key)
    ensures Plain(key)
  {
    assert forall k :: 0 <= k < |key| ==> key[k] != CLiteral.QUESTION;
  }

  lemma LocalePlain(s: Bytes)
    requires Canonical(s)
    ensures Plain(s)
  {
    hide Canonical;
    CanonicalChars(s);
    assert forall k :: 0 <= k < |s| ==> s[k] != CLiteral.QUESTION;
  }

  lemma ValidPlain(catalog: Catalog)
    requires Valid(catalog)
    ensures PlainOverlays(catalog.overlays) && Plain(catalog.defaultLocale)
  {
    hide KeyText, Canonical, ValidText, Names, FindText, FindMessages, DistinctKeys, Plain;
    var defaults := FindMessages(catalog.overlays, catalog.defaultLocale).value;
    LocalePlain(catalog.defaultLocale);
    forall k | 0 <= k < |catalog.overlays|
      ensures Plain(catalog.overlays[k].locale) && PlainKeys(catalog.overlays[k].messages)
    {
      var overlay := catalog.overlays[k];
      assert ValidOverlay(overlay, defaults);
      LocalePlain(overlay.locale);
      forall j | 0 <= j < |overlay.messages|
        ensures Plain(overlay.messages[j].key)
      {
        assert ValidMessage(overlay.messages[j], defaults);
        KeyPlain(overlay.messages[j].key);
      }
    }
  }

  /** lookup_exact over the table is the dictionary lookup in the catalog. */
  lemma ExactAgrees(catalog: Catalog, locale: Bytes, key: Str)
    requires Valid(catalog) && Ascii(locale)
    ensures FirstRow(Generated(catalog, Compiled).rows, locale, EncodeAll(key)) ==
      CompiledRow(FoundAt(catalog, locale, key))
  {
    ValidPlain(catalog);
    hide PlainOverlays, FindMessages, FindText, FirstRow, Rows, ValidOverlay, LocaleText;
    RowsOf(catalog.overlays, locale, key);
  }

  // ----- When the whole table is faithful -----

  predicate TrigraphFree(messages: seq<Message>) {
    forall k :: 0 <= k < |messages| ==> !CLiteral.HasTrigraph(messages[k].text)
  }

  lemma {:induction false} FaithfulMessages(locale: Bytes, messages: seq<Message>)
    requires Plain(locale) && PlainKeys(messages)
    ensures |MessageRows(locale, messages, Compiled)| == |MessageRows(locale, messages, EncodeAll)|
    ensures MessageRows(locale, messages, Compiled) == MessageRows(locale, messages, EncodeAll) <==>
      TrigraphFree(messages)
    decreases messages
  {
    hide Plain, Compiled, EncodeAll, CLiteral.HasTrigraph;
    if messages != [] {
      var rest := messages[1..];
      FaithfulMessages(locale, rest);
      PlainCompiled(locale);
      PlainCompiled(messages[0].key);
      CompiledExact(messages[0].text);
      var mine := MessageRows(locale, messages, Compiled);
      var theirs := MessageRows(locale, messages, EncodeAll);
      assert mine[1..] == MessageRows(locale, rest, Compiled) && theirs[1..] == MessageRows(locale, rest, EncodeAll);
      assert mine == [mine[0]] + mine[1..] && theirs == [theirs[0]] + theirs[1..];
      assert TrigraphFree(messages) <==> !CLiteral.HasTrigraph(messages[0].text) && TrigraphFree(rest) by {
        assert forall k :: 0 < k < |messages| ==> messages[k] == rest[k - 1];
      }
    }
  }

  lemma {:induction false} FaithfulRows(overlays: seq<Overlay>)
    requires PlainOverlays(overlays)
    ensures Rows(overlays, Compiled) == Rows(overlays, EncodeAll) <==>
            forall k :: 0 <= k < |overlays| ==> TrigraphFree(overlays[k].messages)
    decreases overlays
  {
    hide Plain, PlainKeys, TrigraphFree, MessageRows, Compiled, EncodeAll;
    if overlays != [] {
      var rest := overlays[1..];
      FaithfulRows(rest);
      FaithfulMessages(overlays[0].locale, overlays[0].messages);
      SplitEqual(MessageRows(overlays[0].locale, overlays[0].messages, Compiled), Rows(rest, Compiled),
        MessageRows(overlays[0].locale, overlays[0].messages, EncodeAll), Rows(rest, EncodeAll));
      assert forall k :: 0 < k < |overlays| ==> overlays[k] == rest[k - 1];
    }
  }

  lemma SplitEqual(a: seq<Row>, b: seq<Row>, c: seq<Row>, d: seq<Row>)
    requires |a| == |c|
    ensures a + b == c + d <==> a == c && b == d
  {
    if a + b == c + d {
      assert a == (a + b)[..|a|] && b == (a + b)[|a|..];
    }
  }

  lemma FaithfulLiterals(catalog: Catalog)
    requires PlainOverlays(catalog.overlays) && Plain(catalog.defaultLocale)
    requires forall k :: 0 <= k < |catalog.overlays| ==> TrigraphFree(catalog.overlays[k].messages)
    ensures AllLiterals(catalog)
  {
    hide Plain, IsLiteral, CLiteral.HasTrigraph;
    PlainCompiled(catalog.defaultLocale);
    forall overlay | overlay in catalog.overlays
      ensures IsLiteral(overlay.locale)
      ensures forall message :: message in overlay.messages ==> IsLiteral(message.key) && IsLiteral(message.text)
    {
      var k :| 0 <= k < |catalog.overlays| && catalog.overlays[k] == overlay;
      PlainCompiled(overlay.locale);
      assert TrigraphFree(overlay.messages) && PlainKeys(overlay.messages);
      forall message | message in overlay.messages
        ensures IsLiteral(message.key) && IsLiteral(message.text)
      {
        PlainCompiled(message.key);
        CompiledExact(message.text);
      }
    }
  }

  /**
   The compiled table holds the UTF-8 form of everything in the catalog exactly
   when no message holds a trigraph; locale names and keys never do.
   */
  lemma CompileExact(catalog: Catalog)
    requires Valid(catalog)
    ensures Compile(catalog) == Some(Generated(catalog, EncodeAll)) <==>
            forall k :: 0 <= k < |catalog.overlays| ==> TrigraphFree(catalog.overlays[k].messages)
  {
    ValidPlain(catalog);
    hide Valid, Plain, PlainOverlays, TrigraphFree, Rows, Compiled, EncodeAll, AllLiterals;
    FaithfulRows(catalog.overlays);
    PlainCompiled(catalog.defaultLocale);
    if forall k :: 0 <= k < |catalog.overlays| ==> TrigraphFree(catalog.overlays[k].messages) {
      FaithfulLiterals(catalog);
    }
  }

  // ----- What is looked for at each locale -----

  /** A plain lookup, or a plural one that chooses a category for each locale. */
  datatype Query = Whole | Categorized(choose: Bytes -> Plural.Category)

  function ByPython(count: Plural.Count): Query {
    Categorized((locale: Bytes) => Plural.CategoryPython(locale, count))
  }

  function ByC(count: Plural.Count): Query {
    Categorized((locale: Bytes) => Plural.CategoryC(locale, count))
  }

  function At(catalog: Catalog, locale: Bytes, key: Str, query: Query): Option<Found> {
    match query
    case Whole => FoundAt(catalog, locale, key)
    case Categorized(choose) => PluralAt(catalog, locale, key, choose(locale))
  }

  function Along(catalog: Catalog, chain: seq<Bytes>, key: Str, query: Query): Option<Found>
  {
    if chain == [] then None
    else if At(catalog, chain[0], key, query).Some? then At(catalog, chain[0], key, query)
    else Along(catalog, chain[1..], key, query)
  }

  lemma {:induction false} AlongResolve(catalog: Catalog, chain: seq<Bytes>, key: Str)
    ensures Along(catalog, chain, key, Whole) == Resolve(catalog, chain, key)
    decreases chain
  {
    hide FoundAt;
    if chain != [] {
      AlongResolve(catalog, chain[1..], key);
    }
  }

  lemma {:induction false} AlongPlural(catalog: Catalog, chain: seq<Bytes>, key: Str, count: Plural.Count)
    ensures Along(catalog, chain, key, ByPython(count)) == ResolvePlural(catalog, chain, key, count)
    decreases chain
  {
    hide PluralAt, Plural.CategoryPython;
    if chain != [] {
      AlongPlural(catalog, chain[1..], key, count);
    }
  }

  /** The C lookup of one locale. */
  function RowAt(rows: seq<Row>, locale: Bytes, key: Bytes, query: Query): Option<Row>
  {
    if query.Whole? then FirstRow(rows, locale, key) else CategoryRow(rows, locale, key, query.choose(locale))
  }

  function WalkRows(rows: seq<Row>, candidate: Bytes, key: Bytes, query: Query): Option<Row>
    decreases |candidate|
  {
    var here := RowAt(rows, candidate, key, query);
    if here.Some? then here
    else if DASH !in candidate then None
    else WalkRows(rows, Parent(candidate), key, query)
  }

  lemma {:induction false} WalkIs(rows: seq<Row>, candidate: Bytes, key: Bytes)
    ensures Walk(rows, candidate, key, None) == WalkRows(rows, candidate, key, Whole)
    decreases |candidate|
  {
    hide FirstRow;
    if DASH in candidate {
      ShorterParent(candidate);
      WalkIs(rows, Parent(candidate), key);
    }
  }

  lemma RowAtC(rows: seq<Row>, locale: Bytes, key: Bytes, count: Plural.Count)
    ensures RowAt(rows, locale, key, ByC(count)) == PluralRow(rows, locale, key, count)
  {
    hide CategoryRow, Plural.CategoryC;
  }

  lemma {:induction false} WalkPluralIs(rows: seq<Row>, candidate: Bytes, key: Bytes, count: Plural.Count)
    ensures WalkPlural(rows, candidate, key, count) == WalkRows(rows, candidate, key, ByC(count))
    decreases |candidate|
  {
    hide CategoryRow, Plural.CategoryC;
    if DASH in candidate {
      ShorterParent(candidate);
      WalkPluralIs(rows, Parent(candidate), key, count);
    }
  }

  lemma SuffixAscii(category: Plural.Category)
    ensures Ascii([DOT] + Plural.Suffix(category))
  {
    hide Plural.Suffix;
  }

  lemma EncodeJoin(key: Str, category: Plural.Category)
    ensures EncodeAll(PluralKey(key, category)) == JoinKey(EncodeAll(key), category)
  {
    var suffix := Plural.Suffix(category);
    SuffixAscii(category);
    hide Plural.Suffix, EncodeAll, Encode, Ascii;
    SameAscii([DOT] + suffix, []);
    EncodeAllConcat(key, [DOT] + suffix);
    assert key + ([DOT] + suffix) == PluralKey(key, category);
    assert EncodeAll(key) + ([DOT] + suffix) == JoinKey(EncodeAll(key), category);
  }

  /** A plural key that some message has is short enough for both of C's key buffers. */
  lemma KeysFit(catalog: Catalog, locale: Bytes, key: Str, category: Plural.Category, other: Plural.Category)
    requires Valid(catalog) && Get(catalog, locale, PluralKey(key, category)).Some?
    ensures |JoinKey(EncodeAll(key), category)| < KEY_CAPACITY && |JoinKey(EncodeAll(key), other)| < KEY_CAPACITY
  {
    GetValid(catalog, locale, PluralKey(key, category));
    hide Valid, Get, KeyText, ValidText;
    var whole := PluralKey(key, category);
    EncodeAllAscii(whole);
    EncodeJoin(key, category);
  }

  lemma RowAtAgrees(catalog: Catalog, locale: Bytes, key: Str, query: Query)
    requires Valid(catalog) && Ascii(locale)
    ensures RowAt(Generated(catalog, Compiled).rows, locale, EncodeAll(key), query) ==
      CompiledRow(At(catalog, locale, key, query))
  {
    hide Valid, Ascii, Generated, FirstRow, Get, Plural.CategoryC, PluralKey, JoinKey, Plural.Suffix;
    if query.Whole? {
      ExactAgrees(catalog, locale, key);
    } else {
      var category := query.choose(locale);
      EncodeJoin(key, category);
      EncodeJoin(key, Plural.Other);
      ExactAgrees(catalog, locale, PluralKey(key, category));
      ExactAgrees(catalog, locale, PluralKey(key, Plural.Other));
      if Get(catalog, locale, PluralKey(key, category)).Some? {
        KeysFit(catalog, locale, key, category, Plural.Other);
      }
      if Get(catalog, locale, PluralKey(key, Plural.Other)).Some? {
        KeysFit(catalog, locale, key, Plural.Other, category);
      }
    }
  }

  // ----- The chain -----

  /** C's loop over a candidate that it shortens is resolution along the parents. */
  lemma {:induction false} WalkAgrees(catalog: Catalog, s: Bytes, key: Str, query: Query)
    requires Valid(catalog) && Canonical(s)
    ensures WalkRows(Generated(catalog, Compiled).rows, s, EncodeAll(key), query) ==
      CompiledRow(Along(catalog, Parents(s), key, query))
    decreases |s|
  {
    hide Valid, Canonical, Generated, RowAt, At, Ascii;
    CanonicalAscii(s);
    RowAtAgrees(catalog, s, key, query);
    ParentCanonical(s);
    CanonicalNonempty(s);
    assert Parents(s)[1..] == Parents(Parent(s));
    if DASH in s {
      WalkAgrees(catalog, Parent(s), key, query);
    } else {
      assert Parents(s)[1..] == [];
    }
  }

  lemma CanonicalNonempty(s: Bytes)
    requires Canonical(s)
    ensures s != []
  {
    CanonicalChars(s);
  }

  lemma NotHeld(catalog: Catalog, locale: Bytes, key: Str, query: Query)
    requires !Held(catalog.overlays, locale)
    ensures At(catalog, locale, key, query) == None
  {
    hide FindText, Plural.CategoryC, Plural.CategoryPython;
  }

  /** Dropping the locales that the catalog does not have changes nothing. */
  lemma {:induction false} AlongAvailable(catalog: Catalog, chain: seq<Bytes>, key: Str, query: Query)
    ensures Along(catalog, Available(catalog.overlays, chain), key, query) == Along(catalog, chain, key, query)
    decreases chain
  {
    hide Held, At;
    if chain != [] {
      AlongAvailable(catalog, chain[1..], key, query);
      if Held(catalog.overlays, chain[0]) {
        assert Available(catalog.overlays, chain)[1..] == Available(catalog.overlays, chain[1..]);
      } else {
        NotHeld(catalog, chain[0], key, query);
      }
    }
  }

  lemma {:induction false} AlongLast(catalog: Catalog, chain: seq<Bytes>, locale: Bytes, key: Str, query: Query)
    ensures Along(catalog, WithDefault(chain, locale), key, query) ==
            if Along(catalog, chain, key, query).Some? then Along(catalog, chain, key, query)
              else At(catalog, locale, key, query)
    decreases chain
  {
    if locale in chain {
      if Along(catalog, chain, key, query) == None {
        AlongNone(catalog, chain, locale, key, query);
      }
    } else {
      AlongSnoc(catalog, chain, locale, key, query);
    }
  }

  lemma {:induction false} AlongNone(catalog: Catalog, chain: seq<Bytes>, locale: Bytes, key: Str, query: Query)
    requires locale in chain && Along(catalog, chain, key, query) == None
    ensures At(catalog, locale, key, query) == None
    decreases chain
  {
    hide At;
    assert chain == [chain[0]] + chain[1..];
    if chain[0] != locale {
      AlongNone(catalog, chain[1..], locale, key, query);
    }
  }

  lemma {:induction false} AlongSnoc(catalog: Catalog, chain: seq<Bytes>, locale: Bytes, key: Str, query: Query)
    ensures Along(catalog, chain + [locale], key, query) ==
            if Along(catalog, chain, key, query).Some? then Along(catalog, chain, key, query)
              else At(catalog, locale, key, query)
    decreases chain
  {
    hide At;
    if chain == [] {
      assert [] + [locale] == [locale] && [locale][1..] == [];
    } else {
      assert (chain + [locale])[1..] == chain[1..] + [locale];
      AlongSnoc(catalog, chain[1..], locale, key, query);
    }
  }

  /** A start that the Python chain builder keeps. */
  predicate Start(catalog: Catalog, s: Bytes) {
    Canonical(s) && (Normalized(s) == Some(s) || s == catalog.defaultLocale)
  }

  /** The walk from the start and then the default is resolution along the whole chain. */
  lemma ChainAgrees(catalog: Catalog, s: Bytes, key: Str, query: Query)
    requires Valid(catalog) && Start(catalog, s)
    ensures var walked := WalkRows(Generated(catalog, Compiled).rows, s, EncodeAll(key), query);
      (if walked.Some? then walked
        else RowAt(Generated(catalog, Compiled).rows, catalog.defaultLocale, EncodeAll(key), query))
      == CompiledRow(Along(catalog, ChainFor(catalog, s), key, query))
  {
    CanonicalFixed(s);
    DefaultAscii(catalog);
    hide Valid, Canonical, Generated, RowAt, At, Ascii, Normalized, WithDefault, Parents, WalkRows, Available;
    WalkAgrees(catalog, s, key, query);
    RowAtAgrees(catalog, catalog.defaultLocale, key, query);
    AlongLast(catalog, Parents(s), catalog.defaultLocale, key, query);
    var candidates := Candidates(s, catalog.defaultLocale);
    assert candidates == WithDefault(Parents(s), catalog.defaultLocale);
    AlongAvailable(catalog, candidates, key, query);
    ChainAvailable(catalog, s);
  }

  lemma DefaultAscii(catalog: Catalog)
    requires Valid(catalog)
    ensures Ascii(catalog.defaultLocale) && Canonical(catalog.defaultLocale) && |catalog.defaultLocale| <= MAX_LOCALE
  {
  }

  lemma ChainAvailable(catalog: Catalog, s: Bytes)
    requires Valid(catalog) && Canonical(s)
    ensures ChainFor(catalog, s) == Available(catalog.overlays, Candidates(s, catalog.defaultLocale))
  {
    CandidatesFacts(catalog, s);
    var cs := Candidates(s, catalog.defaultLocale);
    hide Canonical, Candidates, ValidOverlay, LocaleText;
    AvailableFacts(catalog.overlays, cs);
    assert Held(catalog.overlays, catalog.defaultLocale);
  }

  // ----- Lookup -----

  /** A locale name that both normalizers read alike. */
  predicate Comparable(value: Bytes) {
    CommonText(value) && ReadAlike(value)
  }

  /** C has no locale to start from: the name is not one, and neither is the default. */
  predicate Unstartable(catalog: Catalog, value: Bytes) {
    catalog.defaultLocale == LOWER_POSIX && Normalized(value) == None
  }

  lemma NormalizedAlike(value: Bytes)
    requires Comparable(value)
    ensures CNormalized(value) == Normalized(value)
  {
    NormalizersAgree(value);
  }

  lemma StartNamed(catalog: Catalog, value: Bytes)
    requires Comparable(value) && CNormalized(value).Some?
    ensures Requested(catalog, Some(value)) == CNormalized(value).value
    ensures RequestedC(catalog.defaultLocale, Some(value)) == CNormalized(value)
  {
    hide CNormalized, Normalized, Comparable, SelectsDefault;
    NormalizedAlike(value);
    EmptyRefused();
    if SelectsDefault(value) {
      NothingCanonical(value);
    }
  }

  lemma StartDefault(catalog: Catalog, value: Bytes)
    requires Comparable(value) && CNormalized(value) == None
    ensures Normalized(value) == None && Requested(catalog, Some(value)) == catalog.defaultLocale
    ensures RequestedC(catalog.defaultLocale, Some(value)) == CNormalized(catalog.defaultLocale)
  {
    hide CNormalized, Normalized, Comparable, SelectsDefault;
    NormalizedAlike(value);
  }

  lemma StartAgrees(catalog: Catalog, value: Bytes)
    requires Valid(catalog) && Comparable(value)
    ensures var s := Requested(catalog, Some(value));
      && Start(catalog, s) && |s| < LOCALE_CAPACITY
      && RequestedC(catalog.defaultLocale, Some(value)) == if Unstartable(catalog, value) then None else Some(s)
  {
    DefaultAscii(catalog);
    RequestedCanonical(catalog, Some(value));
    hide Valid, Canonical, CNormalized, Normalized, Comparable, Requested, RequestedC;
    if CNormalized(value).Some? {
      StartNamed(catalog, value);
      NormalizedAlike(value);
      CNormalizedCanonical(value);
    } else {
      StartDefault(catalog, value);
      CanonicalFixedC(catalog.defaultLocale);
    }
  }

  lemma NothingCanonical(value: Bytes)
    requires SelectsDefault(value)
    ensures Normalized(value) == None
  {
    if Core(value) == [] {
      assert Split(Dashed([])) == [[]];
    }
  }

  lemma EmptyRefused()
    ensures CNormalized([]) == None
  {
  }

  lemma NoEmptyKey(catalog: Catalog, locale: Bytes, query: Query)
    requires Valid(catalog)
    ensures At(catalog, locale, [], query) == None
  {
    hide Valid, Get, Plural.CategoryC, Plural.CategoryPython;
    if Get(catalog, locale, []).Some? {
      GetValid(catalog, locale, []);
    }
    forall category: Plural.Category
      ensures Get(catalog, locale, PluralKey([], category)) == None
    {
      assert PluralKey([], category)[0] == DOT;
      if Get(catalog, locale, PluralKey([], category)).Some? {
        GetValid(catalog, locale, PluralKey([], category));
      }
    }
  }

  lemma {:induction false} NothingForEmptyKey(catalog: Catalog, chain: seq<Bytes>, query: Query)
    requires Valid(catalog)
    ensures Along(catalog, chain, [], query) == None
    decreases chain
  {
    hide Valid, At;
    if chain != [] {
      NoEmptyKey(catalog, chain[0], query);
      NothingForEmptyKey(catalog, chain[1..], query);
    }
  }

  lemma EncodeEmpty(key: Str)
    ensures EncodeAll(key) == [] <==> key == []
  {
  }

  /** The message that Translator.text chooses after set_locale(value). */
  function Chosen(catalog: Catalog, value: Bytes, key: Str): Option<Found> {
    Resolve(catalog, ChainFor(catalog, Requested(catalog, Some(value))), key)
  }

  /** What msys_i18n_lookup finds in a table. */
  function RowFor(table: CCatalog, value: Bytes, key: Str): Option<Row> {
    KeysRow(table, Some(value), EncodeAll(key), None)
  }

  lemma LookupRow(catalog: Catalog, value: Bytes, key: Str)
    requires Valid(catalog) && Comparable(value)
    ensures RowFor(Generated(catalog, Compiled), value, key) ==
            if Unstartable(catalog, value) then None else CompiledRow(Chosen(catalog, value, key))
  {
    hide Valid, Comparable, Unstartable, Requested, RequestedC, Start, ChainFor, Walk, WalkRows, Along, Resolve,
      Generated;
    var s := Requested(catalog, Some(value));
    var chain := ChainFor(catalog, s);
    StartAgrees(catalog, value);
    DefaultCompiled(catalog);
    EncodeEmpty(key);
    AlongResolve(catalog, chain, key);
    if key == [] {
      NothingForEmptyKey(catalog, chain, Whole);
    } else if !Unstartable(catalog, value) {
      ChainAgrees(catalog, s, key, Whole);
      WalkIs(Generated(catalog, Compiled).rows, s, EncodeAll(key));
    }
  }

  lemma DefaultCompiled(catalog: Catalog)
    requires Valid(catalog)
    ensures Generated(catalog, Compiled).defaultLocale == catalog.defaultLocale
  {
    ValidPlain(catalog);
    hide Valid, Plain, Compiled, Rows;
    PlainCompiled(catalog.defaultLocale);
  }

  /**
   Compilation preserves lookup. For every valid catalog whose header compiles and
   every locale name that both normalizers read alike, msys_i18n_lookup over the
   compiled table returns the row of the message that Python chooses. The
   exceptions are exact: there is a message, and its text holds a trigraph, or
   the default locale is "posix" and the name is not a locale.
   */
  lemma LookupAgrees(catalog: Catalog, table: CCatalog, value: Bytes, key: Str)
    requires Valid(catalog) && Compile(catalog) == Some(table) && Comparable(value)
    ensures var found := Chosen(catalog, value, key);
      RowFor(table, value, key) == ToRow(found) <==>
      !(found.Some? && (Unstartable(catalog, value) || CLiteral.HasTrigraph(found.value.text)))
  {
    CompiledTable(catalog, table);
    hide *;
    LookupRow(catalog, value, key);
    FaithfulRow(Chosen(catalog, value, key));
    RowsExist(Chosen(catalog, value, key));
  }

  lemma CompiledTable(catalog: Catalog, table: CCatalog)
    requires Compile(catalog) == Some(table)
    ensures table == Generated(catalog, Compiled)
  {
  }

  // ----- Plural lookup -----

  /**
   Some locale of the chain is a Portuguese name for Portugal with more subtags,
   has a singular form of the key, and is reached before any plural form.
   */
  predicate Diverges(catalog: Catalog, chain: seq<Bytes>, key: Str, count: Plural.Count)
  {
    if chain == [] then false
    else if Plural.BeyondPortugal(chain[0]) && count == 0 &&
      FoundAt(catalog, chain[0], PluralKey(key, Plural.One)).Some? then true
    else if At(catalog, chain[0], key, ByPython(count)).Some? then false
    else Diverges(catalog, chain[1..], key, count)
  }

  predicate ShortNames(chain: seq<Bytes>) {
    forall l :: l in chain ==> Canonical(l) && |l| < LOCALE_CAPACITY
  }

  lemma AtAlike(catalog: Catalog, locale: Bytes, key: Str, count: Plural.Count)
    requires Canonical(locale) && |locale| < LOCALE_CAPACITY
    ensures !(Plural.BeyondPortugal(locale) && count == 0) ==>
      At(catalog, locale, key, ByC(count)) == At(catalog, locale, key, ByPython(count))
    ensures Plural.BeyondPortugal(locale) && count == 0 ==>
              var one := FoundAt(catalog, locale, PluralKey(key, Plural.One));
              At(catalog, locale, key, ByC(count)) == if one.Some? then one
                else At(catalog, locale, key, ByPython(count))
  {
    hide Canonical, FoundAt, PluralKey, Plural.CategoryC, Plural.CategoryPython, Plural.BeyondPortugal;
    Plural.CanonicalCategories(locale, count);
  }

  lemma {:induction false} Divergence(catalog: Catalog, chain: seq<Bytes>, key: Str, count: Plural.Count)
    requires ShortNames(chain)
    ensures !Diverges(catalog, chain, key, count) ==>
      Along(catalog, chain, key, ByC(count)) == Along(catalog, chain, key, ByPython(count))
    ensures Diverges(catalog, chain, key, count) ==>
              var found := Along(catalog, chain, key, ByC(count));
              && found.Some? && found.value.key == PluralKey(key, Plural.One)
              && found.value.locale in chain && Plural.BeyondPortugal(found.value.locale) && count == 0
    decreases chain
  {
    hide Canonical, At, PluralKey, Plural.BeyondPortugal, Get;
    if chain != [] {
      AtAlike(catalog, chain[0], key, count);
      Divergence(catalog, chain[1..], key, count);
    }
  }

  /** The keys under which Python can find a plural form. */
  lemma {:induction false} PythonForms(catalog: Catalog, chain: seq<Bytes>, key: Str, count: Plural.Count)
    ensures var found := Along(catalog, chain, key, ByPython(count));
      found.Some? ==>
        && found.value.locale in chain
        && found.value.key in {PluralKey(key, Plural.Other),
          PluralKey(key, Plural.CategoryPython(found.value.locale, count))}
    decreases chain
  {
    hide Get, PluralKey, Plural.CategoryPython;
    if chain != [] {
      PythonForms(catalog, chain[1..], key, count);
    }
  }

  lemma KeysDiffer(key: Str)
    ensures PluralKey(key, Plural.One) != PluralKey(key, Plural.Other) && PluralKey(key, Plural.One) != key
  {
    assert |PluralKey(key, Plural.One)| != |PluralKey(key, Plural.Other)|;
  }

  /** The message that Translator.plural chooses after set_locale(value). */
  function ChosenPlural(catalog: Catalog, value: Bytes, key: Str, count: Plural.Count): Option<Found> {
    Counted(catalog, ChainFor(catalog, Requested(catalog, Some(value))), key, count)
  }

  /** What msys_i18n_lookup_plural finds in a table. */
  function PluralRowFor(table: CCatalog, value: Bytes, key: Str, count: Plural.Count): Option<Row> {
    CountedRow(table, Some(value), EncodeAll(key), count)
  }

  /** The chain for a name that fits C's buffer. */
  lemma ChainShort(catalog: Catalog, s: Bytes)
    requires Valid(catalog) && Start(catalog, s) && |s| < LOCALE_CAPACITY
    ensures ShortNames(ChainFor(catalog, s))
  {
    DefaultAscii(catalog);
    hide Canonical, Valid, Available, Normalized, Parents, WithDefault, Candidates;
    ChainAvailable(catalog, s);
    CandidatesFacts(catalog, s);
    CandidatesShort(s, catalog.defaultLocale);
    AvailableFacts(catalog.overlays, Candidates(s, catalog.defaultLocale));
  }

  lemma CandidatesShort(s: Bytes, locale: Bytes)
    requires Canonical(s) && |s| < LOCALE_CAPACITY && Canonical(locale) && |locale| < LOCALE_CAPACITY
    ensures forall l :: l in Candidates(s, locale) ==> |l| < LOCALE_CAPACITY
  {
    CanonicalFixed(s);
    hide Canonical, Normalized, Parents;
    ParentsCanonical(s);
    ParentsCanonical(locale);
  }

  /** What C finds, in Python's terms: plural forms with C's categories, then the key as it stands. */
  lemma PluralLookupRow(catalog: Catalog, value: Bytes, key: Str, count: Plural.Count)
    requires Valid(catalog) && Comparable(value) && !Unstartable(catalog, value)
    ensures var chain := ChainFor(catalog, Requested(catalog, Some(value)));
      var plural := Along(catalog, chain, key, ByC(count));
      PluralRowFor(Generated(catalog, Compiled), value, key, count) ==
      CompiledRow(if plural.Some? then plural else Resolve(catalog, chain, key))
  {
    hide Valid, Comparable, Unstartable, Requested, RequestedC, Start, ChainFor, WalkPlural, WalkRows, Along,
      Resolve, Generated, PluralRow, RowAt, ByC;
    var s := Requested(catalog, Some(value));
    var chain := ChainFor(catalog, s);
    StartAgrees(catalog, value);
    DefaultCompiled(catalog);
    EncodeEmpty(key);
    LookupRow(catalog, value, key);
    if key == [] {
      NothingForEmptyKey(catalog, chain, ByC(count));
      NothingForEmptyKey(catalog, chain, Whole);
      AlongResolve(catalog, chain, key);
    } else {
      RowAtC(Generated(catalog, Compiled).rows, catalog.defaultLocale, EncodeAll(key), count);
      ChainAgrees(catalog, s, key, ByC(count));
      WalkPluralIs(Generated(catalog, Compiled).rows, s, EncodeAll(key), count);
    }
  }

  lemma PythonPlural(catalog: Catalog, chain: seq<Bytes>, key: Str, count: Plural.Count)
    ensures var plural := Along(catalog, chain, key, ByPython(count));
      Counted(catalog, chain, key, count) == if plural.Some? then plural else Resolve(catalog, chain, key)
  {
    hide ResolvePlural, Resolve, Along;
    AlongPlural(catalog, chain, key, count);
  }

  /** Where the chain diverges the two sides choose different messages. */
  lemma DivergedRows(catalog: Catalog, chain: seq<Bytes>, key: Str, count: Plural.Count)
    requires Valid(catalog) && ShortNames(chain) && Diverges(catalog, chain, key, count)
    ensures Along(catalog, chain, key, ByC(count)).Some?
    ensures CompiledRow(Along(catalog, chain, key, ByC(count))) != ToRow(Counted(catalog, chain, key, count))
  {
    hide Valid, Get, PluralKey, Canonical, ShortNames, Plural.BeyondPortugal, Plural.CategoryPython, Resolve, Along,
      Counted, Diverges, Compiled, EncodeAll;
    Divergence(catalog, chain, key, count);
    PythonPlural(catalog, chain, key, count);
    PythonForms(catalog, chain, key, count);
    ResolveOrigin(catalog, chain, key);
    MineAscii(catalog, chain, key, count);
    var mine := Along(catalog, chain, key, ByC(count)).value;
    var theirs := Counted(catalog, chain, key, count);
    ShortName(chain, mine.locale);
    PortugalOther(mine.locale);
    KeysDiffer(key);
    if theirs.Some? {
      SameAscii(mine.key, theirs.value.key);
      SameAscii(mine.locale, theirs.value.locale);
    }
  }

  lemma ShortName(chain: seq<Bytes>, locale: Bytes)
    requires ShortNames(chain) && locale in chain
    ensures Canonical(locale) && |locale| < LOCALE_CAPACITY && Ascii(locale)
  {
    CanonicalAscii(locale);
  }

  lemma PortugalOther(locale: Bytes)
    requires Canonical(locale) && |locale| < LOCALE_CAPACITY && Plural.BeyondPortugal(locale)
    ensures Plural.CategoryPython(locale, 0) == Plural.Other
  {
    Plural.CanonicalCategories(locale, 0);
  }

  lemma MineAscii(catalog: Catalog, chain: seq<Bytes>, key: Str, count: Plural.Count)
    requires Valid(catalog) && Along(catalog, chain, key, ByC(count)).Some?
    ensures Ascii(Along(catalog, chain, key, ByC(count)).value.key)
  {
    AlongOrigin(catalog, chain, key, ByC(count));
    var found := Along(catalog, chain, key, ByC(count)).value;
    GetValid(catalog, found.locale, found.key);
  }

  lemma {:induction false} AlongOrigin(catalog: Catalog, chain: seq<Bytes>, key: Str, query: Query)
    ensures var found := Along(catalog, chain, key, query);
      found.Some? ==> Get(catalog, found.value.locale, found.value.key) == Some(found.value.text)
    decreases chain
  {
    hide Get, PluralKey, Plural.CategoryC, Plural.CategoryPython;
    if chain != [] {
      AlongOrigin(catalog, chain[1..], key, query);
    }
  }

  lemma RowsExist(found: Option<Found>)
    ensures CompiledRow(found) == None <==> found == None
    ensures ToRow(found) == None <==> found == None
  {
  }

  /** Without divergence both sides choose the same message. */
  lemma StartedPlural(catalog: Catalog, value: Bytes, key: Str, count: Plural.Count)
    requires Valid(catalog) && Comparable(value) && !Unstartable(catalog, value)
    ensures var chain := ChainFor(catalog, Requested(catalog, Some(value)));
      var found := ChosenPlural(catalog, value, key, count);
      PluralRowFor(Generated(catalog, Compiled), value, key, count) == ToRow(found) <==>
      !Diverges(catalog, chain, key, count) && !(found.Some? && CLiteral.HasTrigraph(found.value.text))
  {
    var s := Requested(catalog, Some(value));
    var chain := ChainFor(catalog, s);
    StartAgrees(catalog, value);
    hide Valid, Comparable, Unstartable, Requested, RequestedC, Start, ChainFor, Along, Resolve, PluralRowFor,
      Diverges, Counted, CompiledRow, ToRow, ShortNames, CLiteral.HasTrigraph;
    PluralLookupRow(catalog, value, key, count);
    ChainShort(catalog, s);
    PythonPlural(catalog, chain, key, count);
    FaithfulRow(ChosenPlural(catalog, value, key, count));
    if Diverges(catalog, chain, key, count) {
      DivergedRows(catalog, chain, key, count);
    } else {
      Divergence(catalog, chain, key, count);
    }
  }

  lemma UnstartedPlural(catalog: Catalog, value: Bytes, key: Str, count: Plural.Count)
    requires Valid(catalog) && Comparable(value) && Unstartable(catalog, value)
    ensures PluralRowFor(Generated(catalog, Compiled), value, key, count) == None
  {
    StartAgrees(catalog, value);
    DefaultCompiled(catalog);
    hide Valid, Comparable, Unstartable, Requested, RequestedC, Start, Generated;
  }

  /**
   Compilation preserves plural lookup, for every count that Python accepts.
   msys_i18n_lookup_plural returns the row of the message that Translator.plural
   chooses, exactly when the chain does not diverge on Portuguese for Portugal
   and the text holds no trigraph, or, where C has no locale to start from, when
   Python finds nothing.
   */
  lemma PluralLookupAgrees(catalog: Catalog, table: CCatalog, value: Bytes, key: Str, count: Plural.Count)
    requires Valid(catalog) && Compile(catalog) == Some(table) && Comparable(value)
    ensures var chain := ChainFor(catalog, Requested(catalog, Some(value)));
      var found := ChosenPlural(catalog, value, key, count);
      PluralRowFor(table, value, key, count) == ToRow(found) <==>
      if Unstartable(catalog, value) then found == None
      else !Diverges(catalog, chain, key, count) && !(found.Some? && CLiteral.HasTrigraph(found.value.text))
  {
    CompiledTable(catalog, table);
    hide *;
    if Unstartable(catalog, value) {
      UnstartedPlural(catalog, value, key, count);
      RowsExist(ChosenPlural(catalog, value, key, count));
    } else {
      StartedPlural(catalog, value, key, count);
    }
  }

  // ----- The exceptions happen -----

  const LATN: Bytes := [76, 97, 116, 110]
  const PT_LATN_PORTUGAL: Bytes := [112, 116, 45, 76, 97, 116, 110, 45, 80, 84]
  const KEY_K: Str := [107]
  const TEXT_A: Str := [97]
  const TEXT_B: Str := [98]

  /** A catalog with one locale. */
  function Single(locale: Bytes, messages: seq<Message>): Catalog {
    Catalog(locale, [Overlay(locale, messages)])
  }

  lemma PlainText(text: Str)
    requires |text| == 1 && text[0] != LBRACE && text[0] != RBRACE && text[0] != 0
    ensures ValidText(text)
  {
    assert text[1..] == [];
    assert Scan(text[1..], 1) == Parsed([], []);
    assert TurnOf(text) == Step(1, Char(text[0]));
  }

  lemma {:induction false} OwnText(messages: seq<Message>, k: nat)
    requires DistinctKeys(messages) && k < |messages|
    ensures FindText(messages, messages[k].key) == Some(messages[k].text)
    decreases messages
  {
    if k > 0 {
      assert messages[0].key != messages[k].key;
      OwnText(messages[1..], k - 1);
    }
  }

  lemma SingleValid(locale: Bytes, messages: seq<Message>)
    requires LocaleText(locale) && messages != [] && DistinctKeys(messages)
    requires forall k :: 0 <= k < |messages| ==> ValidKey(messages[k].key) && ValidText(messages[k].text)
    ensures Valid(Single(locale, messages))
  {
    hide LocaleText, ValidKey, ValidText, Names;
    forall k | 0 <= k < |messages|
      ensures ValidMessage(messages[k], messages)
    {
      OwnText(messages, k);
    }
    assert ValidOverlay(Overlay(locale, messages), messages);
  }

  lemma FirstInChain(locale: Bytes, messages: seq<Message>)
    requires Canonical(locale)
    ensures ChainFor(Single(locale, messages), locale)[0] == locale
  {
    CanonicalFixed(locale);
    CanonicalNonempty(locale);
    hide Canonical, Normalized;
    var overlays := [Overlay(locale, messages)];
    assert Held(overlays, locale);
    assert Candidates(locale, locale)[0] == locale;
  }

  lemma LatinPortugal()
    ensures Split(PT_LATN_PORTUGAL) == [Plural.PT, LATN, Plural.PORTUGAL] && LocaleText(PT_LATN_PORTUGAL)
  {
    var ps: seq<Bytes> := [Plural.PT, LATN, Plural.PORTUGAL];
    LatinPortugalParts();
    LatinPortugalText();
    hide LocaleParts, Split, JoinParts;
    JoinCanonical(ps);
    CanonicalAscii(PT_LATN_PORTUGAL);
  }

  lemma LatinPortugalParts()
    ensures LocaleParts([Plural.PT, LATN, Plural.PORTUGAL])
  {
    var tail: seq<Bytes> := [LATN, Plural.PORTUGAL];
    assert tail[1..] == [Plural.PORTUGAL] && tail[1..][1..] == [];
    assert Variants([]) && RegionTail(tail[1..]);
    assert [Plural.PT, LATN, Plural.PORTUGAL][1..] == tail;
  }

  lemma LatinPortugalText()
    ensures JoinParts([Plural.PT, LATN, Plural.PORTUGAL]) == PT_LATN_PORTUGAL
  {
    var tail: seq<Bytes> := [LATN, Plural.PORTUGAL];
    assert tail[1..] == [Plural.PORTUGAL];
    assert JoinParts(tail[1..]) == Plural.PORTUGAL;
    assert JoinParts(tail) == LATN + [DASH] + Plural.PORTUGAL;
    assert [Plural.PT, LATN, Plural.PORTUGAL][1..] == tail;
    assert Plural.PT + [DASH] + (LATN + [DASH] + Plural.PORTUGAL) == PT_LATN_PORTUGAL;
  }

  function PortugalMessages(): seq<Message> {
    [Message(PluralKey(KEY_K, Plural.One), TEXT_A), Message(PluralKey(KEY_K, Plural.Other), TEXT_B)]
  }

  /**
   Portuguese in Latin script for Portugal, count zero: a valid catalog in which C
   chooses the singular text and Python the other one.
   */
  lemma PortugalDiffers()
    ensures var catalog := Single(PT_LATN_PORTUGAL, PortugalMessages());
      && Valid(catalog) && Comparable(PT_LATN_PORTUGAL) && Compile(catalog).Some?
      && PluralRowFor(Compile(catalog).value, PT_LATN_PORTUGAL, KEY_K, 0)
         != ToRow(ChosenPlural(catalog, PT_LATN_PORTUGAL, KEY_K, 0))
  {
    var none: Plural.Count := 0;
    hide *;
    PortugalValid();
    PortugalCompiles();
    PortugalDiverges();
    var catalog := Single(PT_LATN_PORTUGAL, PortugalMessages());
    PluralLookupAgrees(catalog, Compile(catalog).value, PT_LATN_PORTUGAL, KEY_K, none);
  }

  lemma PortugalCompiles()
    ensures Compile(Single(PT_LATN_PORTUGAL, PortugalMessages())).Some?
  {
    hide *;
    PortugalValid();
    PortugalFree();
    SingleCompiles(PT_LATN_PORTUGAL, PortugalMessages());
  }

  lemma PortugalFree()
    ensures TrigraphFree(PortugalMessages())
  {
    PlainTrigraph(TEXT_A);
    PlainTrigraph(TEXT_B);
    hide PluralKey, CLiteral.HasTrigraph;
  }

  lemma SingleCompiles(locale: Bytes, messages: seq<Message>)
    requires Valid(Single(locale, messages)) && TrigraphFree(messages)
    ensures Compile(Single(locale, messages)).Some?
  {
    hide Valid, TrigraphFree, Rows, Compile, Compiled, EncodeAll;
    CompileExact(Single(locale, messages));
  }

  lemma PortugalValid()
    ensures Valid(Single(PT_LATN_PORTUGAL, PortugalMessages()))
  {
    hide LocaleText, ValidKey, ValidText, Valid, Single, PortugalMessages;
    LatinPortugal();
    PortugalTexts();
    SingleValid(PT_LATN_PORTUGAL, PortugalMessages());
  }

  lemma PortugalTexts()
    ensures var messages := PortugalMessages();
      && messages != [] && DistinctKeys(messages)
      && forall k :: 0 <= k < |messages| ==> ValidKey(messages[k].key) && ValidText(messages[k].text)
  {
    PlainText(TEXT_A);
    PlainText(TEXT_B);
    PortugalKeys();
    hide ValidKey, ValidText, PluralKey;
  }

  lemma PortugalKeys()
    ensures ValidKey(PluralKey(KEY_K, Plural.One)) && ValidKey(PluralKey(KEY_K, Plural.Other)) &&
      DistinctKeys(PortugalMessages())
  {
    KeysDiffer(KEY_K);
  }

  /** A canonical name that fits asks for itself. */
  lemma RequestsItself(catalog: Catalog, s: Bytes)
    requires Canonical(s) && |s| < LOCALE_CAPACITY && s != LOWER_POSIX
    ensures Comparable(s) && Normalized(s) == Some(s) && Requested(catalog, Some(s)) == s
  {
    hide Canonical, Normalized, Core, Neutral, CommonText, HasSpace, NameChars, Dashed;
    CanonicalFixed(s);
    CanonicalCommon(s);
    CanonicalChars(s);
    CoreOfName(s);
    if SelectsDefault(s) {
      NothingCanonical(s);
    }
  }

  lemma PortugalBeyond()
    ensures Plural.BeyondPortugal(PT_LATN_PORTUGAL)
  {
    LatinPortugal();
    hide Split;
    assert Split(PT_LATN_PORTUGAL)[1..][1] == Plural.PORTUGAL;
  }

  lemma PortugalSingular()
    ensures FoundAt(Single(PT_LATN_PORTUGAL, PortugalMessages()), PT_LATN_PORTUGAL, PluralKey(KEY_K, Plural.One)).Some?
  {
    hide PluralKey;
  }

  lemma PortugalDiverges()
    ensures var catalog := Single(PT_LATN_PORTUGAL, PortugalMessages());
      && Comparable(PT_LATN_PORTUGAL) && !Unstartable(catalog, PT_LATN_PORTUGAL)
      && Diverges(catalog, ChainFor(catalog, Requested(catalog, Some(PT_LATN_PORTUGAL))), KEY_K, 0)
  {
    var s := PT_LATN_PORTUGAL;
    var catalog := Single(s, PortugalMessages());
    LatinPortugal();
    hide Canonical, Normalized, Comparable, ChainFor, PluralKey, Plural.BeyondPortugal, At, Split, FoundAt,
      Requested, PortugalMessages, Single;
    RequestsItself(catalog, s);
    FirstInChain(s, PortugalMessages());
    PortugalBeyond();
    PortugalSingular();
  }

  function PosixMessages(): seq<Message> {
    [Message(KEY_K, TEXT_A)]
  }

  /** A catalog whose default locale is "posix", asked for the neutral locale: C finds nothing. */
  lemma PosixDiffers()
    ensures var catalog := Single(LOWER_POSIX, PosixMessages());
      && Valid(catalog) && Comparable(UPPER_C) && Compile(catalog).Some?
      && RowFor(Compile(catalog).value, UPPER_C, KEY_K) == None
      && Chosen(catalog, UPPER_C, KEY_K).Some?
  {
    var catalog := Single(LOWER_POSIX, PosixMessages());
    PosixCompiles();
    NeutralName();
    PosixChosen();
    CompiledTable(catalog, Compile(catalog).value);
    hide *;
    LookupRow(catalog, UPPER_C, KEY_K);
    PosixUnstartable();
  }

  lemma PosixUnstartable()
    ensures Unstartable(Single(LOWER_POSIX, PosixMessages()), UPPER_C)
  {
    NeutralName();
  }

  lemma PosixChosen()
    ensures Chosen(Single(LOWER_POSIX, PosixMessages()), UPPER_C, KEY_K).Some?
  {
    NeutralName();
    PosixLocale();
    hide Normalized, ChainFor;
    FirstInChain(LOWER_POSIX, PosixMessages());
  }

  lemma PosixCompiles()
    ensures var catalog := Single(LOWER_POSIX, PosixMessages()); Valid(catalog) && Compile(catalog).Some?
  {
    var catalog := Single(LOWER_POSIX, PosixMessages());
    PlainText(TEXT_A);
    PosixLocale();
    assert ValidKey(KEY_K);
    SingleValid(LOWER_POSIX, PosixMessages());
    PlainTrigraph(TEXT_A);
    hide Valid, CLiteral.HasTrigraph, Compile;
    SingleCompiles(LOWER_POSIX, PosixMessages());
  }

  const QUESTIONS: Str := [CLiteral.QUESTION, CLiteral.QUESTION, 33]

  function TrigraphMessages(): seq<Message> {
    [Message(KEY_K, QUESTIONS)]
  }

  /** Two question marks and an exclamation mark: a valid catalog, and C shows a bar in their place. */
  lemma TrigraphDiffers()
    ensures var catalog := Single(EN, TrigraphMessages());
      && Valid(catalog) && Comparable(EN) && Compile(catalog).Some?
      && RowFor(Compile(catalog).value, EN, KEY_K) == Some(Row(EN, KEY_K, [CLiteral.BAR]))
      && Chosen(catalog, EN, KEY_K) == Some(Found(EN, KEY_K, QUESTIONS))
  {
    hide *;
    var catalog := Single(EN, TrigraphMessages());
    TrigraphCompiles();
    TrigraphChosen();
    TrigraphRow();
    CompiledTable(catalog, Compile(catalog).value);
    EnglishStarts(catalog);
    LookupRow(catalog, EN, KEY_K);
  }

  lemma EnglishName()
    ensures Canonical(EN) && LocaleText(EN) && EN != LOWER_POSIX
  {
    BeforeDash(EN);
    assert Split(EN) == [EN] && [EN][1..] == [];
    assert Variants([]) && RegionTail([]) && ScriptTail([]);
  }

  lemma EnglishStarts(catalog: Catalog)
    ensures Comparable(EN) && !Unstartable(catalog, EN)
  {
    EnglishName();
    hide Normalized, Comparable, Canonical, Requested;
    RequestsItself(catalog, EN);
  }

  lemma TrigraphCompiles()
    ensures var catalog := Single(EN, TrigraphMessages()); Valid(catalog) && Compile(catalog).Some?
  {
    hide *;
    TrigraphCatalog();
    TrigraphLiterals();
    LiteralsCompile(Single(EN, TrigraphMessages()));
  }

  lemma LiteralsCompile(catalog: Catalog)
    requires AllLiterals(catalog)
    ensures Compile(catalog).Some?
  {
    hide AllLiterals, Generated;
  }

  lemma TrigraphCatalog()
    ensures Valid(Single(EN, TrigraphMessages()))
  {
    EnglishName();
    TrigraphValid();
    assert ValidKey(KEY_K);
    hide LocaleText, ValidText, ValidKey, Valid, Single;
    SingleValid(EN, TrigraphMessages());
  }

  lemma TrigraphLiterals()
    ensures AllLiterals(Single(EN, TrigraphMessages()))
  {
    EnglishName();
    hide IsLiteral, Canonical, LocaleText, Compiled, EncodeAll, CLiteral.HasTrigraph;
    LocalePlain(EN);
    PlainCompiled(EN);
    PlainCompiled(KEY_K);
    TrigraphLiteral();
  }

  lemma TrigraphLiteral()
    ensures IsLiteral(QUESTIONS) && Compiled(QUESTIONS) == [CLiteral.BAR]
  {
    CLiteral.TrigraphLost();
    hide CLiteral.Denotes, CLiteral.Printed;
  }

  lemma TrigraphValid()
    ensures ValidText(QUESTIONS)
  {
    var t := QUESTIONS;
    assert t[1..] == [CLiteral.QUESTION, 33] && t[1..][1..] == [33] && t[1..][1..][1..] == [];
    assert Scan(t[1..][1..][1..], 3) == Parsed([], []);
    assert TurnOf([33]) == Step(1, Char(33));
    assert Scan([33], 2).errors == [];
    assert TurnOf(t[1..]) == Step(1, Char(CLiteral.QUESTION));
    assert Scan(t[1..], 1).errors == [];
    assert TurnOf(t) == Step(1, Char(CLiteral.QUESTION));
  }

  lemma TrigraphChosen()
    ensures Chosen(Single(EN, TrigraphMessages()), EN, KEY_K) == Some(Found(EN, KEY_K, QUESTIONS))
  {
    EnglishName();
    hide Normalized, ChainFor, Requested, Canonical;
    RequestsItself(Single(EN, TrigraphMessages()), EN);
    FirstInChain(EN, TrigraphMessages());
  }

  lemma TrigraphRow()
    ensures CompiledRow(Some(Found(EN, KEY_K, QUESTIONS))) == Some(Row(EN, KEY_K, [CLiteral.BAR]))
  {
    TrigraphLiteral();
    hide Compiled;
    SameAscii(EN, []);
    SameAscii(KEY_K, []);
  }

  lemma PosixLocale()
    ensures LocaleText(LOWER_POSIX)
  {
    BeforeDash(LOWER_POSIX);
    assert Split(LOWER_POSIX) == [LOWER_POSIX] && [LOWER_POSIX][1..] == [];
    assert Variants([]) && RegionTail([]) && ScriptTail([]);
  }

  lemma NeutralName()
    ensures Comparable(UPPER_C) && SelectsDefault(UPPER_C) && Normalized(UPPER_C) == None
  {
    CoreOfName(UPPER_C);
    assert Upper(UPPER_C) == UPPER_C;
  }
}
