/**
 The JSON grammar of RFC 8259, sections 2 to 7, as concrete syntax trees with a
 printer. Two relaxations make it the grammar of the C scanner: white space is
 whatever isspace accepts, and bytes above 0x7f are not checked to be UTF-8.
 */
module JsonGrammar {
  import opened Bytes

  /** One character of a JSON string as it is spelt between the quotes. */
  datatype Unit =
    | Plain(b: byte)
    | Escape(letter: byte)
    | Hex(h0: byte, h1: byte, h2: byte, h3: byte)

  datatype Exponent = Exponent(letter: byte, sign: Bytes, digits: Bytes)

  datatype Number = Number(negative: bool, whole: Bytes, fraction: Option<Bytes>, exponent: Option<Exponent>)

  datatype Json =
    | Str(units: seq<Unit>)
    | Num(number: Number)
    | Word(letters: Bytes)
    | EmptyArray(gap: Bytes)
    | Array(items: seq<Item>)
    | EmptyObject(gap: Bytes)
    | Object(members: seq<Member>)

  datatype Item = Item(before: Bytes, value: Json, after: Bytes)

  datatype Member = Member(before: Bytes, key: seq<Unit>, mid: Bytes, gap: Bytes, value: Json, after: Bytes)

  const TRUE: Bytes := [116, 114, 117, 101]
  const FALSE: Bytes := [102, 97, 108, 115, 101]
  const NULL: Bytes := [110, 117, 108, 108]

  // ----- Printing -----

  function UnitText(u: Unit): Bytes {
    match u
    case Plain(b) => [b]
    case Escape(c) => [BACKSLASH, c]
    case Hex(h0, h1, h2, h3) => [BACKSLASH, LOWER_U, h0, h1, h2, h3]
  }

  function UnitsText(us: seq<Unit>): Bytes {
    if us == [] then [] else UnitText(us[0]) + UnitsText(us[1..])
  }

  function StringText(us: seq<Unit>): Bytes {
    [QUOTE] + UnitsText(us) + [QUOTE]
  }

  function SignText(n: Number): Bytes {
    if n.negative then [DASH] else []
  }

  function FractionText(f: Option<Bytes>): Bytes {
    match f
    case None => []
    case Some(ds) => [DOT] + ds
  }

  function ExponentText(e: Option<Exponent>): Bytes {
    match e
    case None => []
    case Some(x) => [x.letter] + x.sign + x.digits
  }

  function NumberText(n: Number): Bytes {
    SignText(n) + (n.whole + (FractionText(n.fraction) + ExponentText(n.exponent)))
  }

  function Text(v: Json): Bytes {
    match v
    case Str(us) => StringText(us)
    case Num(n) => NumberText(n)
    case Word(w) => w
    case EmptyArray(gap) => [LBRACKET] + gap + [RBRACKET]
    case Array(items) => [LBRACKET] + ItemsText(items)
    case EmptyObject(gap) => [LBRACE] + gap + [RBRACE]
    case Object(members) => [LBRACE] + MembersText(members)
  }

  /** A non-empty item list up to and including its closing bracket. */
  function ItemsText(items: seq<Item>): Bytes
    decreases items, 0
  {
    if items == [] then []
    else
      items[0].before + (Text(items[0].value) + (items[0].after + ItemsTail(items[1..])))
  }

  /** What follows an item: the closing bracket, or a comma and the other items. */
  function ItemsTail(rest: seq<Item>): Bytes
    decreases rest, 1
  {
    if rest == [] then [RBRACKET] else [COMMA] + ItemsText(rest)
  }

  /** A member up to and including its colon. */
  function KeyText(m: Member): Bytes {
    m.before + (StringText(m.key) + (m.mid + [COLON]))
  }

  /** A non-empty member list up to and including its closing brace. */
  function MembersText(members: seq<Member>): Bytes
    decreases members, 0
  {
    if members == [] then []
    else
      KeyText(members[0]) +
      (members[0].gap + (Text(members[0].value) + (members[0].after + MembersTail(members[1..]))))
  }

  /** What follows a member: the closing brace, or a comma and the other members. */
  function MembersTail(rest: seq<Member>): Bytes
    decreases rest, 1
  {
    if rest == [] then [RBRACE] else [COMMA] + MembersText(rest)
  }

  // ----- Well-formedness -----

  /** The letters that may follow a backslash, other than u. */
  predicate SimpleEscape(c: byte) {
    c == QUOTE || c == BACKSLASH || c == SLASH || c == 98 || c == 102 || c == 110 || c == 114 || c == 116
  }

  predicate UnitOk(u: Unit) {
    match u
    case Plain(b) => b >= 32 && b != QUOTE && b != BACKSLASH
    case Escape(c) => SimpleEscape(c)
    case Hex(h0, h1, h2, h3) => HexValue(h0) >= 0 && HexValue(h1) >= 0 && HexValue(h2) >= 0 && HexValue(h3) >= 0
  }

  predicate UnitsOk(us: seq<Unit>) {
    forall k :: 0 <= k < |us| ==> UnitOk(us[k])
  }

  predicate FractionOk(f: Option<Bytes>) {
    f.Some? ==> Digits(f.value) && |f.value| > 0
  }

  predicate ExponentOk(e: Option<Exponent>) {
    e.Some? ==>
      && (e.value.letter == LOWER_E || e.value.letter == UPPER_E)
      && (e.value.sign == [] || e.value.sign == [PLUS] || e.value.sign == [DASH])
      && Digits(e.value.digits) && |e.value.digits| > 0
  }

  predicate WholeOk(ds: Bytes) {
    Digits(ds) && |ds| > 0 && (ds[0] == ZERO ==> |ds| == 1)
  }

  predicate NumberOk(n: Number) {
    WholeOk(n.whole) && FractionOk(n.fraction) && ExponentOk(n.exponent)
  }

  predicate Ok(v: Json) {
    match v
    case Str(us) => UnitsOk(us)
    case Num(n) => NumberOk(n)
    case Word(w) => w == TRUE || w == FALSE || w == NULL
    case EmptyArray(gap) => Spaces(gap)
    case Array(items) => items != [] && ItemsOk(items)
    case EmptyObject(gap) => Spaces(gap)
    case Object(members) => members != [] && MembersOk(members)
  }

  predicate ItemsOk(items: seq<Item>) {
    items != [] ==>
      && Spaces(items[0].before) && Ok(items[0].value) && Spaces(items[0].after)
      && ItemsOk(items[1..])
  }

  predicate MemberOk(m: Member) {
    Spaces(m.before) && UnitsOk(m.key) && Spaces(m.mid) && Spaces(m.gap) && Ok(m.value) && Spaces(m.after)
  }

  predicate MembersOk(members: seq<Member>) {
    members != [] ==> MemberOk(members[0]) && MembersOk(members[1..])
  }

  // ----- Nesting -----

  /** Nesting height: 1 for a value without children. */
  function Height(v: Json): (h: nat)
    ensures h >= 1
  {
    match v
    case Array(items) => 1 + ItemsHeight(items)
    case Object(members) => 1 + MembersHeight(members)
    case _ => 1
  }

  function ItemsHeight(items: seq<Item>): nat {
    if items == [] then 0 else Max(Height(items[0].value), ItemsHeight(items[1..]))
  }

  function MembersHeight(members: seq<Member>): nat {
    if members == [] then 0 else Max(Height(members[0].value), MembersHeight(members[1..]))
  }
}
