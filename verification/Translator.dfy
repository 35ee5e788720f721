/** The Translator object of msys_sdk/i18n.py: its locale chain, its lookups and its bounded diagnostics. */
module Translation {
  import opened Bytes
  import opened Utf8
  import opened Template
  import opened Rendering
  import opened Locale
  import opened Catalogs
  import opened Fallback
  import LocaleCode
  import Plural

  datatype Code = InvalidLocale | LocaleFallback | MissingKey | Unrendered(problem: Problem)

  datatype Diagnostic = Diagnostic(code: Code, key: Option<Str>, locale: Bytes)

  // ----- Bounded log -----

  /** What a log of bounded length keeps of everything that was put into it: the newest. */
  function Kept(limit: nat, all: seq<Diagnostic>): (log: seq<Diagnostic>)
    ensures |log| <= limit
  {
    if |all| <= limit then all else all[|all| - limit..]
  }

  lemma KeptTwice(limit: nat, a: seq<Diagnostic>, b: seq<Diagnostic>)
    ensures Kept(limit, Kept(limit, a) + b) == Kept(limit, a + b)
  {
  }

  // ----- What the object does, as functions -----

  /** The value that set_locale works with: the explicit one, or the first variable that is not blank. */
  function Sampled(locale: Option<Bytes>, environment: seq<Option<Bytes>>): Option<Bytes>
    decreases |environment|
  {
    if locale.Some? || environment == [] then locale
    else if environment[0].Some? && StripRight(StripLeft(environment[0].value)) != [] then environment[0]
    else Sampled(None, environment[1..])
  }

  /** What set_locale reports. */
  function LocaleNotes(catalog: Catalog, raw: Option<Bytes>): seq<Diagnostic> {
    var requested := Requested(catalog, raw);
    (if raw.Some? && !SelectsDefault(raw.value) && Normalized(raw.value) == None
     then [Diagnostic(InvalidLocale, None, catalog.defaultLocale)] else [])
    + (if ChainFor(catalog, requested)[0] != requested then [Diagnostic(LocaleFallback, None, requested)] else [])
  }

  /** The diagnostics of the problems of one rendering, in order. */
  function Reports(problems: seq<Problem>, key: Str, locale: Bytes): (ds: seq<Diagnostic>)
    ensures |ds| == |problems|
  {
    if problems == [] then []
      else [Diagnostic(Unrendered(problems[0]), Some(key), locale)] + Reports(problems[1..], key, locale)
  }

  /** The text for a lookup: the message or the fallback rendered, or the key itself. */
  function Shown(found: Option<Found>, key: Str, params: seq<Binding>, fallback: Option<Str>): Text {
    if found.Some? then Rendered(found.value.text, params)
    else if fallback.Some? then Rendered(fallback.value, params)
    else key
  }

  /** What a lookup and its rendering report, when `requested` is the locale asked for. */
  function Notes(found: Option<Found>, key: Str, params: seq<Binding>, fallback: Option<Str>,
      requested: Bytes): seq<Diagnostic> {
    if found.Some? then Reports(Problems(found.value.text, params), found.value.key, found.value.locale)
    else
      [Diagnostic(MissingKey, Some(key), requested)] +
      (if fallback.Some? then Reports(Problems(fallback.value, params), key, requested) else [])
  }

  const COUNT: Str := [99, 111, 117, 110, 116]

  /** dict(params) with one name set. */
  function SetBinding(params: seq<Binding>, name: Str, value: Argument): seq<Binding> {
    if params == [] then [Binding(name, value)]
    else if params[0].name == name then [Binding(name, value)] + params[1..]
    else [params[0]] + SetBinding(params[1..], name, value)
  }

  lemma {:induction false} SetBindingLookup(params: seq<Binding>, name: Str, value: Argument, other: Text)
    ensures Lookup(SetBinding(params, name, value), other) ==
      if other == name then Some(value) else Lookup(params, other)
    decreases params
  {
    if params != [] && params[0].name != name {
      SetBindingLookup(params[1..], name, value, other);
    }
  }

  /** The default message under a key is there, and these parameters fill all its slots. */
  ghost predicate Complete(catalog: Catalog, key: Str, params: seq<Binding>) {
    && Get(catalog, catalog.defaultLocale, key).Some?
    && forall name :: name in DefaultNames(catalog, key) ==> Fills(params, name)
  }

  class Translator {
    const catalog: Catalog
    const limit: nat
    var requestedLocale: Bytes
    var chain: seq<Bytes>
    var diagnostics: seq<Diagnostic>

    /** The chain is the one of the requested locale in a valid catalog. */
    ghost predicate Valid()
      reads this
    {
      && Catalogs.Valid(catalog) && Canonical(requestedLocale)
      && chain == ChainFor(catalog, requestedLocale) && |diagnostics| <= limit
    }

    constructor (catalog: Catalog, locale: Option<Bytes>, environment: seq<Option<Bytes>>, limit: nat)
      requires Catalogs.Valid(catalog) && (locale.Some? ==> Ascii(locale.value))
      requires forall k :: 0 <= k < |environment| && environment[k].Some? ==> Ascii(environment[k].value)
      ensures Valid() && this.catalog == catalog && this.limit == limit
      ensures requestedLocale == Requested(catalog, Sampled(locale, environment))
      ensures diagnostics == Kept(limit, LocaleNotes(catalog, Sampled(locale, environment)))
    {
      this.catalog := catalog;
      this.limit := limit;
      diagnostics := [];
      requestedLocale := catalog.defaultLocale;
      chain := [catalog.defaultLocale];
      new;
      var resolved := SetLocale(locale, environment);
      assert [] + LocaleNotes(catalog, Sampled(locale, environment)) ==
        LocaleNotes(catalog, Sampled(locale, environment));
    }

    /** _emit, without the callback. */
    method Emit(diagnostic: Diagnostic)
      modifies this`diagnostics
      ensures diagnostics == Kept(limit, old(diagnostics) + [diagnostic])
    {
      var longer := diagnostics + [diagnostic];
      diagnostics := if |longer| <= limit then longer else longer[|longer| - limit..];
    }

    method SampleEnvironment(locale: Option<Bytes>, environment: seq<Option<Bytes>>) returns (raw: Option<Bytes>)
      ensures raw == Sampled(locale, environment)
    {
      hide StripLeft, StripRight;
      raw := locale;
      if raw == None {
        var i := 0;
        while i < |environment|
          invariant 0 <= i <= |environment|
          invariant Sampled(None, environment) == Sampled(None, environment[i..])
        {
          assert environment[i..][1..] == environment[i + 1..];
          var candidate := environment[i];
          if candidate.Some? && StripRight(StripLeft(candidate.value)) != [] {
            return candidate;
          }
          i := i + 1;
        }
      }
    }

    /** set_locale. */
    method SetLocale(locale: Option<Bytes>, environment: seq<Option<Bytes>>) returns (resolved: Bytes)
      requires Catalogs.Valid(catalog) && |diagnostics| <= limit && (locale.Some? ==> Ascii(locale.value))
      requires forall k :: 0 <= k < |environment| && environment[k].Some? ==> Ascii(environment[k].value)
      modifies this
      ensures Valid()
      ensures requestedLocale == Requested(catalog, Sampled(locale, environment))
      ensures resolved == chain[0]
      ensures diagnostics == Kept(limit, old(diagnostics) + LocaleNotes(catalog, Sampled(locale, environment)))
    {
      hide Catalogs.Valid, Canonical, Normalized, SelectsDefault, Available, Candidates, Sampled, Ascii;
      var raw := SampleEnvironment(locale, environment);
      SampledAscii(locale, environment);
      RequestedCanonical(catalog, raw);
      RequestedAscii(catalog, raw);
      var requested := catalog.defaultLocale;
      if raw.Some? && !SelectsDefault(raw.value) {
        var normalized := LocaleCode.NormalizeLocale(raw.value);
        if normalized.Some? {
          requested := normalized.value;
        } else {
          Emit(Diagnostic(InvalidLocale, None, catalog.defaultLocale));
        }
      }
      var unfiltered := LocaleCandidates(requested, catalog.defaultLocale);
      var available := Available(catalog.overlays, unfiltered);
      if available == [] {
        available := [catalog.defaultLocale];
      }
      requestedLocale := requested;
      chain := available;
      if available[0] != requested {
        Emit(Diagnostic(LocaleFallback, None, requested));
      }
      resolved := available[0];
      LogTwo(limit, old(diagnostics), catalog, raw);
    }

    /** _resolve for one key. */
    method ResolveKey(key: Str) returns (found: Option<Found>)
      ensures found == Resolve(catalog, chain, key)
    {
      hide FoundAt;
      var i := 0;
      while i < |chain|
        invariant 0 <= i <= |chain|
        invariant Resolve(catalog, chain, key) == Resolve(catalog, chain[i..], key)
      {
        assert chain[i..][1..] == chain[i + 1..];
        found := FoundAt(catalog, chain[i], key);
        if found.Some? {
          return;
        }
        i := i + 1;
      }
      found := None;
    }

    /** _resolve_plural: the candidate keys of each locale in turn. */
    method ResolvePluralKey(key: Str, count: int) returns (found: Option<Found>)
      ensures found == ResolvePlural(catalog, chain, key, count)
    {
      hide FoundAt, Plural.CategoryPython, PluralKey;
      var i := 0;
      while i < |chain|
        invariant 0 <= i <= |chain|
        invariant ResolvePlural(catalog, chain, key, count) == ResolvePlural(catalog, chain[i..], key, count)
      {
        assert chain[i..][1..] == chain[i + 1..];
        var category := Plural.CategoryPython(chain[i], count);
        var keys := if category == Plural.Other then [PluralKey(key, category)]
          else [PluralKey(key, category), PluralKey(key, Plural.Other)];
        var j := 0;
        while j < |keys|
          invariant 0 <= j <= |keys|
          invariant forall k :: 0 <= k < j ==> FoundAt(catalog, chain[i], keys[k]) == None
        {
          found := FoundAt(catalog, chain[i], keys[j]);
          if found.Some? {
            assert j == 1 ==> FoundAt(catalog, chain[i], keys[0]) == None;
            return;
          }
          j := j + 1;
        }
        assert FoundAt(catalog, chain[i], keys[0]) == None && FoundAt(catalog, chain[i], keys[|keys| - 1]) == None;
        i := i + 1;
      }
      found := None;
    }

    /** _render, with its diagnostics. */
    method RenderAndReport(template: Str, params: seq<Binding>, key: Str, locale: Bytes) returns (text: Text)
      modifies this`diagnostics
      ensures text == Rendered(template, params)
      ensures |old(diagnostics)| <= limit ==>
        diagnostics == Kept(limit, old(diagnostics) + Reports(Problems(template, params), key, locale))
    {
      hide Rendered, Problems;
      var problems;
      text, problems := RenderTemplate(template, params);
      var i := 0;
      ghost var was := diagnostics;
      assert problems[0..] == problems;
      assert was + Reports(problems, key, locale) == was + Reports(problems, key, locale);
      while i < |problems|
        invariant 0 <= i <= |problems|
        invariant |was| <= limit ==> |diagnostics| <= limit
        invariant |was| <= limit ==>
                    Kept(limit, diagnostics + Reports(problems[i..], key, locale)) ==
                      Kept(limit, was + Reports(problems, key, locale))
      {
        ReportStep(limit, diagnostics, problems, i, key, locale);
        Emit(Diagnostic(Unrendered(problems[i]), Some(key), locale));
        i := i + 1;
      }
      assert diagnostics + [] == diagnostics;
    }

    /** text. */
    method TextFor(key: Str, params: seq<Binding>, fallback: Option<Str>) returns (text: Text)
      requires Valid()
      modifies this`diagnostics
      ensures Valid()
      ensures text == Shown(Resolve(catalog, chain, key), key, params, fallback)
      ensures diagnostics ==
        Kept(limit, old(diagnostics) + Notes(Resolve(catalog, chain, key), key, params, fallback, requestedLocale))
      ensures Complete(catalog, key, params) ==> diagnostics == old(diagnostics)
    {
      hide Catalogs.Valid, Canonical, Get, Rendered, Problems, ChainFor, Complete, Resolve;
      var found := ResolveKey(key);
      if Complete(catalog, key, params) {
        CompleteLookup(catalog, requestedLocale, key, params);
      }
      if found == None {
        Emit(Diagnostic(MissingKey, Some(key), requestedLocale));
        if fallback == None {
          text := key;
        } else {
          text := RenderAndReport(fallback.value, params, key, requestedLocale);
        }
        MissingLog(limit, old(diagnostics), key, params, fallback, requestedLocale);
      } else {
        ResolveOrigin(catalog, chain, key);
        text := RenderAndReport(found.value.text, params, key, found.value.locale);
      }
    }

    /** plural; `raised` for a count outside the range, which is an error before anything is done. */
    method PluralFor(key: Str, count: int, params: seq<Binding>, fallback: Option<Str>)
      returns (raised: bool, text: Text)
      requires Valid()
      modifies this`diagnostics
      ensures Valid()
      ensures raised <==> !(-Plural.MAX_COUNT <= count <= Plural.MAX_COUNT)
      ensures raised ==> diagnostics == old(diagnostics)
      ensures !raised ==>
                var found := Counted(catalog, chain, key, count);
                var withCount := SetBinding(params, COUNT, Integer(count));
                && text == Shown(found, key, withCount, fallback)
                && diagnostics == Kept(limit,
                  old(diagnostics) + Notes(found, key, withCount, fallback, requestedLocale))
                && (found.Some? &&
                    (forall name :: name in DefaultNames(catalog, found.value.key) ==> Fills(withCount, name)) ==>
                      diagnostics == old(diagnostics))
    {
      hide Catalogs.Valid, Canonical, Get, Rendered, Problems, ChainFor, Resolve, ResolvePlural;
      if count < -Plural.MAX_COUNT || count > Plural.MAX_COUNT {
        return true, [];
      }
      raised := false;
      var found := ResolvePluralKey(key, count);
      if found == None {
        found := ResolveKey(key);
      }
      var withCount := SetBinding(params, COUNT, Integer(count));
      if found == None {
        Emit(Diagnostic(MissingKey, Some(key), requestedLocale));
        if fallback == None {
          text := key;
        } else {
          text := RenderAndReport(fallback.value, withCount, key, requestedLocale);
        }
        MissingLog(limit, old(diagnostics), key, withCount, fallback, requestedLocale);
      } else {
        CountedComplete(catalog, chain, key, count, withCount);
        text := RenderAndReport(found.value.text, withCount, found.value.key, found.value.locale);
      }
    }
  }

  lemma CountedComplete(catalog: Catalog, chain: seq<Bytes>, key: Str, count: int, params: seq<Binding>)
    requires Catalogs.Valid(catalog) && Counted(catalog, chain, key, count).Some?
    ensures var found := Counted(catalog, chain, key, count).value;
      (forall name :: name in DefaultNames(catalog, found.key) ==> Fills(params, name)) ==>
        Problems(found.text, params) == []
  {
    hide Catalogs.Valid, Get, Problems, Resolve, ResolvePlural, DefaultNames, Fills;
    PluralOrigin(catalog, chain, key, count);
    ResolveOrigin(catalog, chain, key);
    var found := Counted(catalog, chain, key, count).value;
    if forall name :: name in DefaultNames(catalog, found.key) ==> Fills(params, name) {
      CompleteRendering(catalog, found.locale, found.key, params);
    }
  }

  lemma {:induction false} SampledAscii(locale: Option<Bytes>, environment: seq<Option<Bytes>>)
    requires locale.Some? ==> Ascii(locale.value)
    requires forall k :: 0 <= k < |environment| && environment[k].Some? ==> Ascii(environment[k].value)
    ensures Sampled(locale, environment).Some? ==> Ascii(Sampled(locale, environment).value)
    decreases |environment|
  {
    hide Ascii, StripLeft, StripRight;
    if locale == None && environment != [] {
      SampledAscii(None, environment[1..]);
    }
  }

  lemma RequestedAscii(catalog: Catalog, raw: Option<Bytes>)
    requires Catalogs.Valid(catalog)
    ensures Ascii(Requested(catalog, raw)) && Ascii(catalog.defaultLocale)
  {
    RequestedCanonical(catalog, raw);
    assert Canonical(catalog.defaultLocale);
    hide Canonical, Requested, Catalogs.Valid;
    CanonicalAscii(Requested(catalog, raw));
    CanonicalAscii(catalog.defaultLocale);
  }

  /** Two messages at most, in this order. */
  lemma LogTwo(limit: nat, was: seq<Diagnostic>, catalog: Catalog, raw: Option<Bytes>)
    ensures var requested := Requested(catalog, raw);
      var first := if raw.Some? && !SelectsDefault(raw.value) && Normalized(raw.value) == None
                   then Kept(limit, was + [Diagnostic(InvalidLocale, None, catalog.defaultLocale)]) else was;
      (|was| <= limit && ChainFor(catalog, requested)[0] != requested ==>
        Kept(limit, first + [Diagnostic(LocaleFallback, None, requested)]) ==
          Kept(limit, was + LocaleNotes(catalog, raw)))
      && (|was| <= limit && ChainFor(catalog, requested)[0] == requested ==>
        first == Kept(limit, was + LocaleNotes(catalog, raw)))
  {
    hide SelectsDefault, Normalized, ChainFor, Requested;
    var requested := Requested(catalog, raw);
    var a := if raw.Some? && !SelectsDefault(raw.value) && Normalized(raw.value) == None
             then [Diagnostic(InvalidLocale, None, catalog.defaultLocale)] else [];
    var b := if ChainFor(catalog, requested)[0] != requested then [Diagnostic(LocaleFallback, None, requested)] else [];
    assert was + a + b == was + LocaleNotes(catalog, raw);
    assert was + [] == was;
    KeptTwice(limit, was + a, b);
  }

  lemma ReportStep(limit: nat, log: seq<Diagnostic>, problems: seq<Problem>, i: nat, key: Str, locale: Bytes)
    requires i < |problems|
    ensures var d := Diagnostic(Unrendered(problems[i]), Some(key), locale);
      Kept(limit, Kept(limit, log + [d]) + Reports(problems[i + 1..], key, locale)) ==
        Kept(limit, log + Reports(problems[i..], key, locale))
  {
    var d := Diagnostic(Unrendered(problems[i]), Some(key), locale);
    var rest := Reports(problems[i + 1..], key, locale);
    assert problems[i..][1..] == problems[i + 1..];
    assert Reports(problems[i..], key, locale) == [d] + rest;
    hide Reports, Kept;
    KeptTwice(limit, log + [d], rest);
    assert log + [d] + rest == log + ([d] + rest);
  }

  lemma MissingLog(limit: nat, was: seq<Diagnostic>, key: Str, params: seq<Binding>, fallback: Option<Str>,
      requested: Bytes)
    ensures var missing := Kept(limit, was + [Diagnostic(MissingKey, Some(key), requested)]);
      (if fallback == None then missing
       else Kept(limit, missing + Reports(Problems(fallback.value, params), key, requested)))
      == Kept(limit, was + Notes(None, key, params, fallback, requested))
  {
    hide Problems, Reports, Kept;
    var d := Diagnostic(MissingKey, Some(key), requested);
    if fallback.Some? {
      var more := Reports(Problems(fallback.value, params), key, requested);
      KeptTwice(limit, was + [d], more);
      assert was + [d] + more == was + ([d] + more);
    } else {
      assert [d] + [] == [d];
    }
  }

  /** With the default message there and its slots filled, the lookup succeeds and renders without a problem. */
  lemma CompleteLookup(catalog: Catalog, requested: Bytes, key: Str, params: seq<Binding>)
    requires Catalogs.Valid(catalog) && Canonical(requested) && Complete(catalog, key, params)
    ensures var found := Resolve(catalog, ChainFor(catalog, requested), key);
      found.Some? && Problems(found.value.text, params) == [] && found.value.key == key
  {
    hide Catalogs.Valid, Canonical, Get, Problems, ChainFor, Resolve, DefaultNames;
    DefaultKeysResolve(catalog, requested, key);
    ResolveOrigin(catalog, ChainFor(catalog, requested), key);
    var found := Resolve(catalog, ChainFor(catalog, requested), key).value;
    CompleteRendering(catalog, found.locale, key, params);
  }
}
