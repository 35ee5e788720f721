/** The flat table that msys_sdk/i18n_c.py generates, and the lookups of src/i18n.c over it. */
module Table {
  import opened Bytes
  import opened Utf8
  import opened Locale
  import opened Catalogs
  import CLiteral
  import LocaleCode
  import Plural

  // ----- The generated table -----

  datatype Row = Row(locale: Bytes, key: Bytes, value: Bytes)

  datatype CCatalog = CCatalog(defaultLocale: Bytes, rows: seq<Row>)

  /** The literal printed for a value is one for C. */
  predicate IsLiteral(value: Str) {
    CLiteral.Denotes(CLiteral.Printed(value)).Some?
  }

  /** The C string that the compiler makes of that literal; nothing stands for no literal. */
  function Compiled(value: Str): Bytes {
    if IsLiteral(value) then CLiteral.Denotes(CLiteral.Printed(value)).value else []
  }

  /** The entries of one locale, each string in the given form. */
  function MessageRows(locale: Bytes, messages: seq<Message>, form: Str -> Bytes): seq<Row> {
    if messages == [] then []
    else
      [Row(form(locale), form(messages[0].key), form(messages[0].text))] + MessageRows(locale, messages[1..], form)
  }

  function Rows(overlays: seq<Overlay>, form: Str -> Bytes): seq<Row> {
    if overlays == [] then []
    else MessageRows(overlays[0].locale, overlays[0].messages, form) + Rows(overlays[1..], form)
  }

  /** The table of render_c_header: entries locale by locale, message by message. */
  function Generated(catalog: Catalog, form: Str -> Bytes): CCatalog {
    CCatalog(form(catalog.defaultLocale), Rows(catalog.overlays, form))
  }

  /** Every initializer in the generated header is a string literal. */
  predicate AllLiterals(catalog: Catalog) {
    && IsLiteral(catalog.defaultLocale)
    && forall overlay :: overlay in catalog.overlays ==>
         && IsLiteral(overlay.locale)
         && forall message :: message in overlay.messages ==> IsLiteral(message.key) && IsLiteral(message.text)
  }

  /** The table that a C11 compiler makes of the generated header, where the header is valid C. */
  function Compile(catalog: Catalog): Option<CCatalog> {
    if AllLiterals(catalog) then Some(Generated(catalog, Compiled)) else None
  }

  // ----- Lookup -----

  function FirstRow(rows: seq<Row>, locale: Bytes, key: Bytes): Option<Row> {
    if rows == [] then None
    else if rows[0].locale == locale && rows[0].key == key then Some(rows[0])
    else FirstRow(rows[1..], locale, key)
  }

  /** lookup_exact. */
  method LookupExact(rows: seq<Row>, locale: Bytes, key: Bytes) returns (row: Option<Row>)
    ensures row == FirstRow(rows, locale, key)
  {
    var index := 0;
    while index < |rows|
      invariant 0 <= index <= |rows|
      invariant FirstRow(rows, locale, key) == FirstRow(rows[index..], locale, key)
    {
      assert rows[index..][1..] == rows[index + 1..];
      if rows[index].locale == locale && rows[index].key == key {
        return Some(rows[index]);
      }
      index := index + 1;
    }
    return None;
  }

  /** A fixed buffer that holds a C string. */
  predicate Holds(buffer: Bytes, s: Bytes) {
    |s| < |buffer| && buffer[..|s|] == s && buffer[|s|] == 0 && CString(s)
  }

  method ReadString(buffer: array<byte>, ghost s: Bytes) returns (t: Bytes)
    requires Holds(buffer[..], s)
    ensures t == s
  {
    var n := 0;
    assert forall k :: 0 <= k < |s| ==> buffer[k] == buffer[..][..|s|][k] == s[k];
    while buffer[n] != 0
      invariant 0 <= n <= |s|
      decreases |s| - n
    {
      n := n + 1;
    }
    t := buffer[..n];
    assert buffer[..][..n] == buffer[..n];
  }

  /** strrchr for a dash, and the terminator written over it. */
  method DropSubtag(buffer: array<byte>, ghost s: Bytes) returns (dropped: bool)
    requires Holds(buffer[..], s)
    modifies buffer
    ensures dropped <==> DASH in s
    ensures dropped ==> Holds(buffer[..], Parent(s))
    ensures !dropped ==> buffer[..] == old(buffer[..])
  {
    var n := 0;
    var last := -1;
    assert forall k :: 0 <= k < |s| ==> buffer[k] == buffer[..][..|s|][k] == s[k];
    while buffer[n] != 0
      invariant 0 <= n <= |s| && -1 <= last < n
      invariant last >= 0 ==> s[last] == DASH
      invariant forall k :: last < k < n ==> s[k] != DASH
      decreases |s| - n
    {
      if buffer[n] == DASH {
        last := n;
      }
      n := n + 1;
    }
    if last < 0 {
      return false;
    }
    LastDash(s, last);
    ghost var was := buffer[..];
    buffer[last] := 0;
    assert buffer[..][..last] == was[..last] == s[..last];
    return true;
  }

  lemma LastDash(s: Bytes, n: nat)
    requires n < |s| && s[n] == DASH && forall k :: n < k < |s| ==> s[k] != DASH
    ensures Parent(s) == s[..n]
  {
    ParentOf(s[..n], s[n + 1..]);
    assert s[..n] + [DASH] + s[n + 1..] == s;
  }

  /** The locale that a lookup starts from: the given one, or the default where it is no locale. */
  function RequestedC(defaultLocale: Bytes, locale: Option<Bytes>): Option<Bytes> {
    if locale == None || locale.value == [] || CNormalized(locale.value) == None then CNormalized(defaultLocale)
    else CNormalized(locale.value)
  }

  lemma NameCString(s: Bytes)
    requires NameChars(s)
    ensures CString(s)
  {
  }

  lemma TerminatedHolds(s: Bytes, tail: Bytes)
    requires CString(s)
    ensures Holds(s + [0] + tail, s)
  {
  }

  lemma OutputHolds(input: Bytes, was: Bytes)
    requires CNormalized(input).Some? && |was| == LOCALE_CAPACITY
    ensures var r := CNormalized(input).value; |r| < |was| && Holds(r + [0] + was[|r| + 1..], r)
  {
    CNormalizedCanonical(input);
    var r := CNormalized(input).value;
    hide CNormalized, Canonical, Holds;
    CanonicalChars(r);
    NameCString(r);
    TerminatedHolds(r, was[|r| + 1..]);
  }

  method NormalizeBuffer(input: Bytes, output: array<byte>) returns (ok: bool)
    requires CString(input) && output.Length == LOCALE_CAPACITY
    modifies output
    ensures ok <==> CNormalized(input).Some?
    ensures ok ==> Holds(output[..], CNormalized(input).value)
  {
    hide CNormalized, Refused, Holds;
    ghost var was := output[..];
    var status := LocaleCode.NormalizeInto(input, output);
    NeverTooSmall(input);
    ok := status == LocaleCode.LocaleOk;
    if ok {
      OutputHolds(input, was);
    }
  }

  lemma NeverTooSmall(input: Bytes)
    ensures LocaleCode.StatusOf(input, LOCALE_CAPACITY) == LocaleCode.LocaleOk <==> CNormalized(input).Some?
  {
  }

  /** requested_locale. */
  method RequestedLocale(catalog: CCatalog, locale: Option<Bytes>, output: array<byte>) returns (ok: bool)
    requires CString(catalog.defaultLocale) && (locale.Some? ==> CString(locale.value)) &&
      output.Length == LOCALE_CAPACITY
    modifies output
    ensures ok <==> RequestedC(catalog.defaultLocale, locale).Some?
    ensures ok ==> Holds(output[..], RequestedC(catalog.defaultLocale, locale).value)
  {
    hide CNormalized, Holds;
    if locale.Some? && locale.value != [] {
      ok := NormalizeBuffer(locale.value, output);
      if ok {
        return;
      }
    }
    ok := NormalizeBuffer(catalog.defaultLocale, output);
  }

  /** The row of one locale for the first key, else for the second. */
  function EitherRow(rows: seq<Row>, locale: Bytes, firstKey: Bytes, secondKey: Option<Bytes>): Option<Row> {
    var first := FirstRow(rows, locale, firstKey);
    if first == None && secondKey.Some? then FirstRow(rows, locale, secondKey.value) else first
  }

  method LookupEither(rows: seq<Row>, locale: Bytes, firstKey: Bytes, secondKey: Option<Bytes>)
    returns (row: Option<Row>)
    ensures row == EitherRow(rows, locale, firstKey, secondKey)
  {
    row := LookupExact(rows, locale, firstKey);
    if row == None && secondKey.Some? {
      row := LookupExact(rows, locale, secondKey.value);
    }
  }

  /** The loop over a candidate that loses a subtag each time. */
  function Walk(rows: seq<Row>, candidate: Bytes, firstKey: Bytes, secondKey: Option<Bytes>): Option<Row>
    decreases |candidate|
  {
    var here := EitherRow(rows, candidate, firstKey, secondKey);
    if here.Some? then here
    else if DASH !in candidate then None
    else Walk(rows, Parent(candidate), firstKey, secondKey)
  }

  function KeysRow(catalog: CCatalog, locale: Option<Bytes>, firstKey: Bytes, secondKey: Option<Bytes>): Option<Row> {
    var start := RequestedC(catalog.defaultLocale, locale);
    if firstKey == [] || start == None then None
    else
      var found := Walk(catalog.rows, start.value, firstKey, secondKey);
      if found.Some? then found else EitherRow(catalog.rows, catalog.defaultLocale, firstKey, secondKey)
  }

  /** lookup_keys; msys_i18n_lookup is the call without a second key. */
  method LookupKeys(catalog: CCatalog, locale: Option<Bytes>, firstKey: Bytes, secondKey: Option<Bytes>)
    returns (row: Option<Row>)
    requires CString(catalog.defaultLocale) && (locale.Some? ==> CString(locale.value))
    ensures row == KeysRow(catalog, locale, firstKey, secondKey)
  {
    hide RequestedC, Holds, EitherRow, Parent;
    if firstKey == [] {
      return None;
    }
    var candidate := new byte[LOCALE_CAPACITY];
    var ok := RequestedLocale(catalog, locale, candidate);
    if !ok {
      return None;
    }
    ghost var s := RequestedC(catalog.defaultLocale, locale).value;
    ghost var whole := Walk(catalog.rows, s, firstKey, secondKey);
    while true
      invariant Holds(candidate[..], s)
      invariant Walk(catalog.rows, s, firstKey, secondKey) == whole
      decreases |s|
    {
      var name := ReadString(candidate, s);
      row := LookupEither(catalog.rows, name, firstKey, secondKey);
      if row.Some? {
        return;
      }
      var dropped := DropSubtag(candidate, s);
      if !dropped {
        break;
      }
      ShorterParent(s);
      s := Parent(s);
    }
    row := LookupEither(catalog.rows, catalog.defaultLocale, firstKey, secondKey);
  }

  lemma ShorterParent(s: Bytes)
    requires DASH in s
    ensures |Parent(s)| < |s|
  {
  }

  // ----- Plural lookup -----

  const KEY_CAPACITY := 256

  function JoinKey(key: Bytes, category: Plural.Category): Bytes {
    key + [DOT] + Plural.Suffix(category)
  }

  /** The row of one locale for a category, else for "other", with two bounded key buffers. */
  function CategoryRow(rows: seq<Row>, locale: Bytes, key: Bytes, category: Plural.Category): Option<Row> {
    var categoryKey := JoinKey(key, category);
    var otherKey := JoinKey(key, Plural.Other);
    if |categoryKey| >= KEY_CAPACITY || |otherKey| >= KEY_CAPACITY then None
    else
      var exact := FirstRow(rows, locale, categoryKey);
      if exact.Some? then exact else FirstRow(rows, locale, otherKey)
  }

  /** lookup_plural_exact: the category is the locale's own. */
  function PluralRow(rows: seq<Row>, locale: Bytes, key: Bytes, count: int): Option<Row>
    requires Plural.INT64_MIN <= count <= Plural.INT64_MAX
  {
    CategoryRow(rows, locale, key, Plural.CategoryC(locale, count))
  }

  method LookupPluralExact(rows: seq<Row>, locale: Bytes, key: Bytes, count: int) returns (row: Option<Row>)
    requires Plural.INT64_MIN <= count <= Plural.INT64_MAX
    ensures row == PluralRow(rows, locale, key, count)
  {
    hide Plural.CategoryC;
    var categoryKey := JoinKey(key, Plural.CategoryC(locale, count));
    var otherKey := JoinKey(key, Plural.Other);
    if |categoryKey| >= KEY_CAPACITY || |otherKey| >= KEY_CAPACITY {
      return None;
    }
    row := LookupExact(rows, locale, categoryKey);
    if row == None {
      row := LookupExact(rows, locale, otherKey);
    }
  }

  function WalkPlural(rows: seq<Row>, candidate: Bytes, key: Bytes, count: int): Option<Row>
    requires Plural.INT64_MIN <= count <= Plural.INT64_MAX
    decreases |candidate|
  {
    var here := PluralRow(rows, candidate, key, count);
    if here.Some? then here
    else if DASH !in candidate then None
    else WalkPlural(rows, Parent(candidate), key, count)
  }

  function CountedRow(catalog: CCatalog, locale: Option<Bytes>, key: Bytes, count: int): Option<Row>
    requires Plural.INT64_MIN <= count <= Plural.INT64_MAX
  {
    var start := RequestedC(catalog.defaultLocale, locale);
    if key == [] || start == None then None
    else
      var found := WalkPlural(catalog.rows, start.value, key, count);
      if found.Some? then found
      else
        var default := PluralRow(catalog.rows, catalog.defaultLocale, key, count);
        if default.Some? then default else KeysRow(catalog, locale, key, None)
  }

  /** msys_i18n_lookup_plural. */
  method LookupPlural(catalog: CCatalog, locale: Option<Bytes>, key: Bytes, count: int) returns (row: Option<Row>)
    requires CString(catalog.defaultLocale) && (locale.Some? ==> CString(locale.value))
    requires Plural.INT64_MIN <= count <= Plural.INT64_MAX
    ensures row == CountedRow(catalog, locale, key, count)
  {
    hide RequestedC, Holds, PluralRow, Parent;
    if key == [] {
      return None;
    }
    var candidate := new byte[LOCALE_CAPACITY];
    var ok := RequestedLocale(catalog, locale, candidate);
    if !ok {
      return None;
    }
    ghost var s := RequestedC(catalog.defaultLocale, locale).value;
    ghost var whole := WalkPlural(catalog.rows, s, key, count);
    while true
      invariant Holds(candidate[..], s)
      invariant WalkPlural(catalog.rows, s, key, count) == whole
      decreases |s|
    {
      var name := ReadString(candidate, s);
      row := LookupPluralExact(catalog.rows, name, key, count);
      if row.Some? {
        return;
      }
      var dropped := DropSubtag(candidate, s);
      if !dropped {
        break;
      }
      ShorterParent(s);
      s := Parent(s);
    }
    row := LookupPluralExact(catalog.rows, catalog.defaultLocale, key, count);
    if row == None {
      row := LookupKeys(catalog, locale, key, None);
    }
  }
}
