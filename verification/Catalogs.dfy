/** Message catalogs of msys_sdk/i18n.py and their validation. */
module Catalogs {
  import opened Bytes
  import opened Utf8
  import opened Template
  import opened Locale

  // ----- Documents -----

  /** One message as the JSON has it; `None` is a value that is not a string. */
  datatype Entry = Entry(key: Str, template: Option<Str>)

  /** The messages of one locale; `None` is a value that is not an object. */
  datatype Section = Section(locale: Str, body: Option<seq<Entry>>)

  /** `headed`: the fields that this model does not look into are well-formed. */
  datatype Document = Document(headed: bool, defaultLocale: Option<Str>, messages: Option<seq<Section>>)

  /** JSON objects are read with distinct member names. */
  predicate Strict(doc: Document) {
    doc.messages.Some? ==>
      && (forall j, k :: 0 <= j < k < |doc.messages.value| ==>
        doc.messages.value[j].locale != doc.messages.value[k].locale)
      && (forall k :: 0 <= k < |doc.messages.value| ==> StrictSection(doc.messages.value[k]))
  }

  predicate StrictSection(section: Section) {
    section.body.Some? ==>
      forall j, k :: 0 <= j < k < |section.body.value| ==> section.body.value[j].key != section.body.value[k].key
  }

  const MAX_LOCALE := 63
  const MAX_LOCALES := 128
  const MAX_MESSAGES := 20000
  const MAX_KEY := 160
  const MAX_TEXT := 16384

  // ----- What a valid catalog is -----

  predicate KeyStart(c: int) {
    IsLower(c) || IsDigit(c)
  }

  predicate KeyChar(c: int) {
    KeyStart(c) || c == UNDERSCORE || c == DASH
  }

  /** Segments of key characters joined by dots; the first starts with a letter, the others with a letter or digit. */
  predicate KeyText(key: Text) {
    && key != [] && IsLower(key[0])
    && (forall k :: 0 <= k < |key| ==> KeyChar(key[k]) || key[k] == DOT)
    && (forall k :: 0 <= k < |key| && key[k] == DOT ==> k + 1 < |key| && KeyStart(key[k + 1]))
  }

  predicate LocaleText(s: Str) {
    Ascii(s) && |s| <= MAX_LOCALE && Canonical(s)
  }

  predicate ValidKey(key: Str) {
    |key| <= MAX_KEY && KeyText(key)
  }

  predicate ShortText(text: Str) {
    |text| <= MAX_TEXT && 0 !in text
  }

  predicate ValidText(text: Str) {
    ShortText(text) && Scan(text, 0).errors == []
  }

  /** The names that a template has slots for. */
  function Names(text: Str): set<Text> {
    set token | token in Tokens(Scan(text, 0).pieces) && token.Placeholder? :: token.name
  }

  predicate ValidEntry(entry: Entry) {
    ValidKey(entry.key) && entry.template.Some? && ValidText(entry.template.value)
  }

  predicate ValidSection(section: Section) {
    && LocaleText(section.locale)
    && section.body.Some? && section.body.value != [] && |section.body.value| <= MAX_MESSAGES
    && forall k :: 0 <= k < |section.body.value| ==> ValidEntry(section.body.value[k])
  }

  function FindSection(sections: seq<Section>, locale: Str): Option<Section> {
    if sections == [] then None
    else if sections[0].locale == locale then Some(sections[0])
    else FindSection(sections[1..], locale)
  }

  function FindEntry(entries: seq<Entry>, key: Str): Option<Entry> {
    if entries == [] then None else if entries[0].key == key then Some(entries[0]) else FindEntry(entries[1..], key)
  }

  function EntryNames(entry: Entry): Option<set<Text>> {
    match entry.template
    case None => None
    case Some(text) => Some(Names(text))
  }

  /** The default locale has this message too, with slots for the same names. */
  predicate CoveredEntry(entry: Entry, defaults: seq<Entry>) {
    var found := FindEntry(defaults, entry.key);
    found.Some? && EntryNames(entry) == EntryNames(found.value)
  }

  predicate Covered(section: Section, defaults: seq<Entry>) {
    section.body.Some? ==> forall k :: 0 <= k < |section.body.value| ==> CoveredEntry(section.body.value[k], defaults)
  }

  predicate ValidDocument(doc: Document) {
    && doc.headed
    && doc.defaultLocale.Some? && LocaleText(doc.defaultLocale.value)
    && doc.messages.Some? && 0 < |doc.messages.value| <= MAX_LOCALES
    && (forall k :: 0 <= k < |doc.messages.value| ==> ValidSection(doc.messages.value[k]))
    && var default := FindSection(doc.messages.value, doc.defaultLocale.value);
    && default.Some? && default.value.body.Some?
    && forall k :: 0 <= k < |doc.messages.value| ==> Covered(doc.messages.value[k], default.value.body.value)
  }

  // ----- The validator -----

  datatype Issue =
    | BadHeader
    | BadDefault
    | NoMessages
    | TooManyLocales
    | DefaultAbsent
    | BadLocale(locale: Str)
    | EmptySection(locale: Str)
    | TooManyMessages(locale: Str)
    | BadKey(locale: Str, key: Str)
    | NotText(locale: Str, key: Str)
    | BadText(locale: Str, key: Str)
    | BadTemplate(locale: Str, key: Str, error: ParseError)
    | KeyAbsent(locale: Str, key: Str)
    | OtherNames(locale: Str, key: Str)

  type NameTable = map<Str, set<Text>>

  /** The table holds the names of exactly these messages, as far as they are strings. */
  ghost predicate TableOf(names: NameTable, entries: seq<Entry>) {
    && (forall k :: 0 <= k < |entries| && entries[k].template.Some? ==>
          entries[k].key in names && names[entries[k].key] == Names(entries[k].template.value))
    && (forall key :: key in names ==>
      exists k :: 0 <= k < |entries| && entries[k].key == key && entries[k].template.Some?)
  }

  method SlotNames(tokens: seq<Token>) returns (names: set<Text>)
    ensures names == set token | token in tokens && token.Placeholder? :: token.name
  {
    names := {};
    var i := 0;
    while i < |tokens|
      invariant 0 <= i <= |tokens|
      invariant names == set token | token in tokens[..i] && token.Placeholder? :: token.name
    {
      assert tokens[..i + 1] == tokens[..i] + [tokens[i]];
      if tokens[i].Placeholder? {
        names := names + {tokens[i].name};
      }
      i := i + 1;
    }
    assert tokens[..i] == tokens;
  }

  /** One message: its issues, and the names it has slots for. */
  method ValidateEntry(locale: Str, entry: Entry) returns (issues: seq<Issue>, names: Option<set<Text>>)
    ensures issues == [] <==> ValidEntry(entry)
    ensures names == EntryNames(entry)
  {
    hide KeyText, Scan, Tokens;
    issues := [];
    if |entry.key| > MAX_KEY || !KeyText(entry.key) {
      issues := issues + [BadKey(locale, entry.key)];
    }
    if entry.template == None {
      return issues + [NotText(locale, entry.key)], None;
    }
    var text := entry.template.value;
    if |text| > MAX_TEXT || 0 in text {
      issues := issues + [BadText(locale, entry.key)];
    }
    var tokens, errors := ParseTemplate(text);
    var i := 0;
    ghost var before := |issues|;
    while i < |errors|
      invariant 0 <= i <= |errors| && |issues| == before + i
    {
      issues := issues + [BadTemplate(locale, entry.key, errors[i])];
      i := i + 1;
    }
    var slots := SlotNames(tokens);
    names := Some(slots);
  }

  /** The messages of one locale: their issues, and the table of names. */
  method ValidateEntries(locale: Str, entries: seq<Entry>) returns (issues: seq<Issue>, names: NameTable)
    requires StrictSection(Section(locale, Some(entries)))
    ensures issues == [] <==> forall k :: 0 <= k < |entries| ==> ValidEntry(entries[k])
    ensures TableOf(names, entries)
  {
    hide ValidEntry, Names;
    issues, names := [], map[];
    var i := 0;
    while i < |entries|
      invariant 0 <= i <= |entries|
      invariant issues == [] <==> forall k :: 0 <= k < i ==> ValidEntry(entries[k])
      invariant TableOf(names, entries[..i])
    {
      var more, slots := ValidateEntry(locale, entries[i]);
      issues := issues + more;
      GrowTable(names, entries, i);
      if slots.Some? {
        names := names[entries[i].key := slots.value];
      }
      i := i + 1;
    }
    assert entries[..i] == entries;
  }

  lemma GrowTable(names: NameTable, entries: seq<Entry>, i: nat)
    requires i < |entries| && TableOf(names, entries[..i]) && StrictSection(Section([], Some(entries)))
    ensures var e := entries[i];
      TableOf(match EntryNames(e) case Some(slots) => names[e.key := slots] case None => names, entries[..i + 1])
  {
    hide Names;
    var e := entries[i];
    var now := match EntryNames(e) case Some(slots) => names[e.key := slots] case None => names;
    var longer := entries[..i + 1];
    forall k | 0 <= k < |longer| && longer[k].template.Some?
      ensures longer[k].key in now && now[longer[k].key] == Names(longer[k].template.value)
    {
      assert longer[k] == entries[k];
      if k < i {
        assert entries[..i][k] == entries[k];
        assert entries[k].key != e.key;
      }
    }
    forall key | key in now
      ensures exists k :: 0 <= k < |longer| && longer[k].key == key && longer[k].template.Some?
    {
      if key in names {
        var k :| 0 <= k < i && entries[..i][k].key == key && entries[..i][k].template.Some?;
        assert longer[k] == entries[..i][k];
      } else {
        assert longer[i] == e;
      }
    }
  }

  /** The table that holds the names of a section, where the validator made one. */
  ghost predicate TableFor(tables: map<Str, NameTable>, section: Section) {
    section.body.Some? && section.body.value != [] ==>
      section.locale in tables && TableOf(tables[section.locale], section.body.value)
  }

  function NamesOf(tables: map<Str, NameTable>, locale: Str, key: Str): Option<set<Text>> {
    if locale in tables && key in tables[locale] then Some(tables[locale][key]) else None
  }

  /** The first pass over the locales. */
  method ValidateSections(sections: seq<Section>) returns (issues: seq<Issue>, tables: map<Str, NameTable>)
    requires Strict(Document(true, None, Some(sections)))
    ensures issues == [] <==> forall k :: 0 <= k < |sections| ==> ValidSection(sections[k])
    ensures forall k :: 0 <= k < |sections| ==> TableFor(tables, sections[k])
    ensures forall locale :: locale in tables ==> exists k :: 0 <= k < |sections| && sections[k].locale == locale
  {
    hide LocaleText, ValidEntry, TableOf;
    issues, tables := [], map[];
    var i := 0;
    while i < |sections|
      invariant 0 <= i <= |sections|
      invariant issues == [] <==> forall k :: 0 <= k < i ==> ValidSection(sections[k])
      invariant forall k :: 0 <= k < i ==> TableFor(tables, sections[k])
      invariant forall locale :: locale in tables ==> exists k :: 0 <= k < i && sections[k].locale == locale
    {
      var section := sections[i];
      var locale := section.locale;
      if !LocaleText(locale) {
        issues := issues + [BadLocale(locale)];
      }
      if section.body == None || section.body.value == [] {
        issues := issues + [EmptySection(locale)];
        i := i + 1;
        continue;
      }
      var entries := section.body.value;
      if |entries| > MAX_MESSAGES {
        issues := issues + [TooManyMessages(locale)];
      }
      assert StrictSection(section);
      var more, names := ValidateEntries(locale, entries);
      issues := issues + more;
      tables := tables[locale := names];
      i := i + 1;
    }
  }

  method CompareNames(section: Section, locale: Str, defaults: seq<Entry>, tables: map<Str, NameTable>)
    returns (issues: seq<Issue>)
    requires section.body.Some?
    requires forall k :: 0 <= k < |section.body.value| ==>
      NamesOf(tables, section.locale, section.body.value[k].key) == EntryNames(section.body.value[k])
    requires forall k :: 0 <= k < |defaults| ==> NamesOf(tables, locale, defaults[k].key) == EntryNames(defaults[k])
    ensures issues == [] <==> Covered(section, defaults)
  {
    hide Names;
    issues := [];
    var i := 0;
    while i < |section.body.value|
      invariant 0 <= i <= |section.body.value|
      invariant issues == [] <==> forall k :: 0 <= k < i ==> CoveredEntry(section.body.value[k], defaults)
    {
      var key := section.body.value[i].key;
      FoundIn(defaults, key);
      if FindEntry(defaults, key) == None {
        issues := issues + [KeyAbsent(section.locale, key)];
      } else if NamesOf(tables, section.locale, key) != NamesOf(tables, locale, key) {
        issues := issues + [OtherNames(section.locale, key)];
      }
      i := i + 1;
    }
  }

  lemma {:induction false} FoundIn(entries: seq<Entry>, key: Str)
    ensures var found := FindEntry(entries, key);
      && (found.Some? ==> found.value in entries && found.value.key == key)
      && (found == None ==> forall k :: 0 <= k < |entries| ==> entries[k].key != key)
    decreases entries
  {
    if entries != [] {
      FoundIn(entries[1..], key);
      assert forall k :: 0 < k < |entries| ==> entries[k] == entries[1..][k - 1];
    }
  }

  lemma {:induction false} FoundSection(sections: seq<Section>, locale: Str)
    ensures var found := FindSection(sections, locale);
      && (found.Some? ==> found.value in sections && found.value.locale == locale)
      && (found == None ==> forall k :: 0 <= k < |sections| ==> sections[k].locale != locale)
    decreases sections
  {
    if sections != [] {
      FoundSection(sections[1..], locale);
      assert forall k :: 0 < k < |sections| ==> sections[k] == sections[1..][k - 1];
    }
  }

  /** A table answers for each message of its section. */
  lemma TableAnswers(tables: map<Str, NameTable>, section: Section)
    requires TableFor(tables, section) && StrictSection(section) && section.body.Some?
    ensures forall k :: 0 <= k < |section.body.value| ==>
              NamesOf(tables, section.locale, section.body.value[k].key) == EntryNames(section.body.value[k])
  {
    hide Names;
    var entries := section.body.value;
    forall k | 0 <= k < |entries|
      ensures NamesOf(tables, section.locale, entries[k].key) == EntryNames(entries[k])
    {
      var names := tables[section.locale];
      if entries[k].key in names {
        var j :| 0 <= j < |entries| && entries[j].key == entries[k].key && entries[j].template.Some?;
        assert j == k;
      }
    }
  }

  /** The default locale covers itself. */
  lemma SelfCovered(section: Section)
    requires section.body.Some? && StrictSection(section)
    ensures Covered(section, section.body.value)
  {
    var entries := section.body.value;
    forall k | 0 <= k < |entries|
      ensures CoveredEntry(entries[k], entries)
    {
      FoundIn(entries, entries[k].key);
      var found := FindEntry(entries, entries[k].key).value;
      var j :| 0 <= j < |entries| && entries[j] == found;
      assert j == k;
    }
  }

  /** The second pass: every other locale against the default one. */
  method CompareSections(sections: seq<Section>, locale: Str, defaults: seq<Entry>, tables: map<Str, NameTable>)
    returns (issues: seq<Issue>)
    requires Strict(Document(true, None, Some(sections)))
    requires FindSection(sections, locale) == Some(Section(locale, Some(defaults)))
    requires forall k :: 0 <= k < |sections| ==> TableFor(tables, sections[k])
    ensures issues == [] <==> forall k :: 0 <= k < |sections| ==> Covered(sections[k], defaults)
  {
    hide Covered, TableFor, NamesOf, FindSection;
    issues := [];
    FoundSection(sections, locale);
    var default := Section(locale, Some(defaults));
    TableAnswers(tables, default);
    var i := 0;
    while i < |sections|
      invariant 0 <= i <= |sections|
      invariant issues == [] <==> forall k :: 0 <= k < i ==> Covered(sections[k], defaults)
    {
      if sections[i].locale == locale {
        assert sections[i] == default;
        SelfCovered(default);
      } else if sections[i].body.Some? {
        TableAnswers(tables, sections[i]);
        var more := CompareNames(sections[i], locale, defaults, tables);
        issues := issues + more;
      } else {
        NothingToCover(sections[i], defaults);
      }
      i := i + 1;
    }
  }

  lemma NothingToCover(section: Section, defaults: seq<Entry>)
    requires section.body == None
    ensures Covered(section, defaults)
  {
  }

  /** _validate_catalog: it finds no issue exactly in the valid documents. */
  method ValidateCatalog(doc: Document) returns (issues: seq<Issue>)
    requires Strict(doc)
    ensures issues == [] <==> ValidDocument(doc)
  {
    hide LocaleText, ValidSection, Covered, FindSection, TableFor, StrictSection;
    issues := [];
    if !doc.headed {
      issues := issues + [BadHeader];
    }
    if doc.defaultLocale == None || !LocaleText(doc.defaultLocale.value) {
      issues := issues + [BadDefault];
    }
    if doc.messages == None || doc.messages.value == [] {
      return issues + [NoMessages];
    }
    var sections := doc.messages.value;
    if |sections| > MAX_LOCALES {
      issues := issues + [TooManyLocales];
    }
    var default := if doc.defaultLocale.Some? then FindSection(sections, doc.defaultLocale.value) else None;
    if doc.defaultLocale.Some? && default == None {
      issues := issues + [DefaultAbsent];
    }
    var more, tables := ValidateSections(sections);
    issues := issues + more;
    if default.Some? {
      FoundSection(sections, doc.defaultLocale.value);
      if default.value.body.Some? {
        var last := CompareSections(sections, doc.defaultLocale.value, default.value.body.value, tables);
        issues := issues + last;
      } else {
        var k :| 0 <= k < |sections| && sections[k] == default.value;
        NotValidSection(sections[k]);
      }
    }
  }

  lemma NotValidSection(section: Section)
    requires section.body == None
    ensures !ValidSection(section)
  {
  }

  // ----- Catalogs -----

  datatype Message = Message(key: Bytes, text: Str)

  datatype Overlay = Overlay(locale: Bytes, messages: seq<Message>)

  /** A validated catalog: locales and messages in the order of the document. */
  datatype Catalog = Catalog(defaultLocale: Bytes, overlays: seq<Overlay>)

  function FindMessages(overlays: seq<Overlay>, locale: Text): Option<seq<Message>> {
    if overlays == [] then None
    else if overlays[0].locale == locale then Some(overlays[0].messages)
    else FindMessages(overlays[1..], locale)
  }

  function FindText(messages: seq<Message>, key: Text): Option<Str> {
    if messages == [] then None
    else if messages[0].key == key then Some(messages[0].text)
    else FindText(messages[1..], key)
  }

  /** catalog.messages[locale].get(key), with None for a locale that is not there. */
  function Get(catalog: Catalog, locale: Text, key: Text): Option<Str> {
    match FindMessages(catalog.overlays, locale)
    case None => None
    case Some(messages) => FindText(messages, key)
  }

  predicate ValidMessage(message: Message, defaults: seq<Message>) {
    && ValidKey(message.key) && ValidText(message.text)
    && var text := FindText(defaults, message.key);
    && text.Some? && Names(text.value) == Names(message.text)
  }

  predicate DistinctKeys(messages: seq<Message>) {
    forall j, k :: 0 <= j < k < |messages| ==> messages[j].key != messages[k].key
  }

  predicate ValidOverlay(overlay: Overlay, defaults: seq<Message>) {
    && LocaleText(overlay.locale) && overlay.messages != [] && DistinctKeys(overlay.messages)
    && forall k :: 0 <= k < |overlay.messages| ==> ValidMessage(overlay.messages[k], defaults)
  }

  predicate DistinctLocales(overlays: seq<Overlay>) {
    forall j, k :: 0 <= j < k < |overlays| ==> overlays[j].locale != overlays[k].locale
  }

  predicate Valid(catalog: Catalog) {
    && LocaleText(catalog.defaultLocale) && DistinctLocales(catalog.overlays)
    && var defaults := FindMessages(catalog.overlays, catalog.defaultLocale);
    && defaults.Some?
    && forall k :: 0 <= k < |catalog.overlays| ==> ValidOverlay(catalog.overlays[k], defaults.value)
  }

  // ----- From document to catalog -----

  lemma KeyAscii(key: Str)
    requires KeyText(key)
    ensures Ascii(key)
  {
  }

  function ToMessage(entry: Entry): Message
    requires ValidEntry(entry)
  {
    KeyAscii(entry.key);
    Message(entry.key, entry.template.value)
  }

  function ToMessages(entries: seq<Entry>): (messages: seq<Message>)
    requires forall k :: 0 <= k < |entries| ==> ValidEntry(entries[k])
    ensures |messages| == |entries|
    ensures forall k :: 0 <= k < |entries| ==> messages[k] == ToMessage(entries[k])
  {
    if entries == [] then [] else [ToMessage(entries[0])] + ToMessages(entries[1..])
  }

  function ToOverlay(section: Section): Overlay
    requires ValidSection(section)
  {
    Overlay(section.locale, ToMessages(section.body.value))
  }

  function ToOverlays(sections: seq<Section>): (overlays: seq<Overlay>)
    requires forall k :: 0 <= k < |sections| ==> ValidSection(sections[k])
    ensures |overlays| == |sections|
    ensures forall k :: 0 <= k < |sections| ==> overlays[k] == ToOverlay(sections[k])
  {
    if sections == [] then [] else [ToOverlay(sections[0])] + ToOverlays(sections[1..])
  }

  /** Catalog.from_mapping, after validation. */
  function FromDocument(doc: Document): Catalog
    requires ValidDocument(doc)
  {
    Catalog(doc.defaultLocale.value, ToOverlays(doc.messages.value))
  }

  lemma {:induction false} FindTextOf(entries: seq<Entry>, key: Str)
    requires forall k :: 0 <= k < |entries| ==> ValidEntry(entries[k])
    ensures FindText(ToMessages(entries), key) ==
            match FindEntry(entries, key)
            case Some(entry) => entry.template
            case None => None
    decreases entries
  {
    hide KeyText, ValidText;
    if entries != [] {
      FindTextOf(entries[1..], key);
      assert ToMessages(entries)[1..] == ToMessages(entries[1..]);
    }
  }

  lemma {:induction false} FindMessagesOf(sections: seq<Section>, locale: Str)
    requires forall k :: 0 <= k < |sections| ==> ValidSection(sections[k])
    ensures var found := FindSection(sections, locale);
      match FindMessages(ToOverlays(sections), locale)
      case Some(messages) => found.Some? && ValidSection(found.value) && messages == ToMessages(found.value.body.value)
      case None => found == None
    decreases sections
  {
    hide ValidEntry;
    if sections != [] {
      FindMessagesOf(sections[1..], locale);
      assert ToOverlays(sections)[1..] == ToOverlays(sections[1..]);
    }
  }

  lemma ToMessageValid(entry: Entry, defaults: seq<Entry>)
    requires ValidEntry(entry) && CoveredEntry(entry, defaults)
    requires forall k :: 0 <= k < |defaults| ==> ValidEntry(defaults[k])
    ensures ValidMessage(ToMessage(entry), ToMessages(defaults))
  {
    hide KeyText, Scan, Names;
    FindTextOf(defaults, entry.key);
    FoundIn(defaults, entry.key);
  }

  lemma ToOverlayValid(section: Section, defaults: seq<Entry>)
    requires ValidSection(section) && StrictSection(section) && Covered(section, defaults)
    requires forall k :: 0 <= k < |defaults| ==> ValidEntry(defaults[k])
    ensures ValidOverlay(ToOverlay(section), ToMessages(defaults))
  {
    hide LocaleText, ValidEntry, CoveredEntry, ValidMessage;
    var entries := section.body.value;
    forall k | 0 <= k < |entries|
      ensures ValidMessage(ToMessages(entries)[k], ToMessages(defaults))
    {
      ToMessageValid(entries[k], defaults);
    }
    KeysKept(entries);
  }

  lemma KeysKept(entries: seq<Entry>)
    requires forall k :: 0 <= k < |entries| ==> ValidEntry(entries[k])
    ensures forall k :: 0 <= k < |entries| ==> ToMessages(entries)[k].key == entries[k].key
  {
    hide KeyText, ValidText;
  }

  /** A document without issues becomes a valid catalog. */
  lemma FromDocumentValid(doc: Document)
    requires Strict(doc) && ValidDocument(doc)
    ensures Valid(FromDocument(doc))
  {
    hide LocaleText, ValidSection, Covered, StrictSection, ValidOverlay, FindSection, FindMessages;
    var sections := doc.messages.value;
    var locale := doc.defaultLocale.value;
    FindMessagesOf(sections, locale);
    var defaults := FindSection(sections, locale).value.body.value;
    DefaultsValid(FindSection(sections, locale).value);
    forall k | 0 <= k < |sections|
      ensures ValidOverlay(ToOverlay(sections[k]), ToMessages(defaults)) &&
        ToOverlay(sections[k]).locale == sections[k].locale
    {
      ToOverlayValid(sections[k], defaults);
    }
    AsciiDefault(locale);
  }

  lemma AsciiDefault(locale: Str)
    ensures LocaleText(locale) ==> Ascii(locale)
  {
  }

  lemma DefaultsValid(section: Section)
    requires ValidSection(section)
    ensures section.body.Some? && forall k :: 0 <= k < |section.body.value| ==> ValidEntry(section.body.value[k])
  {
  }
}
