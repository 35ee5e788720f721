/** The record printers of src/mipc.c and the round trip through its field accessors. */
module JsonRecord {
  import opened Bytes
  import opened JsonGrammar
  import opened JsonScanner
  import opened JsonLeaves
  import opened JsonValues
  import opened JsonLookup
  import opened JsonAccess
  import opened JsonStrings
  import opened JsonIntegers
  import opened JsonEscape

  const TYPE: Bytes := [116, 121, 112, 101]
  const CALL: Bytes := [99, 97, 108, 108]
  const ID: Bytes := [105, 100]
  const TARGET: Bytes := [116, 97, 114, 103, 101, 116]
  const METHOD: Bytes := [109, 101, 116, 104, 111, 100]
  const PAYLOAD: Bytes := [112, 97, 121, 108, 111, 97, 100]
  const DEADLINE_MS: Bytes := [100, 101, 97, 100, 108, 105, 110, 101, 95, 109, 115]
  const IDEMPOTENT: Bytes := [105, 100, 101, 109, 112, 111, 116, 101, 110, 116]
  const EMPTY_PAYLOAD: Bytes := [LBRACE, RBRACE]

  // ----- Printing -----

  /** One `"key":text` of a record; the text is printed as it is. */
  datatype Slot = Slot(key: Bytes, text: Bytes)

  function Quoted(t: Bytes): Bytes {
    [QUOTE] + t + [QUOTE]
  }

  function SlotsText(slots: seq<Slot>): Bytes
    decreases slots, 0
  {
    if slots == [] then [] else Quoted(slots[0].key) + [COLON] + slots[0].text + SlotsTail(slots[1..])
  }

  function SlotsTail(slots: seq<Slot>): Bytes
    decreases slots, 1
  {
    if slots == [] then [RBRACE] else [COMMA] + SlotsText(slots)
  }

  function RecordText(slots: seq<Slot>): Bytes {
    [LBRACE] + SlotsText(slots)
  }

  function CallSlots(id: nat, target: Bytes, rpc: Bytes, payload: Bytes, deadline: nat, idempotent: bool): seq<Slot> {
    [Slot(TYPE, Quoted(CALL)), Slot(ID, DecimalText(id)),
     Slot(TARGET, Quoted(EscapeText(target))), Slot(METHOD, Quoted(EscapeText(rpc))), Slot(PAYLOAD, payload),
     Slot(DEADLINE_MS, DecimalText(deadline)), Slot(IDEMPOTENT, if idempotent then TRUE else FALSE)]
  }

  // ----- Sending -----

  /** The length without trailing space. */
  function TrimEnd(s: Bytes): (n: nat)
    ensures n <= |s| && (n > 0 ==> !IsSpace(s[n - 1]))
    ensures forall k :: n <= k < |s| ==> IsSpace(s[k])
    decreases |s|
  {
    if s != [] && IsSpace(s[|s| - 1]) then TrimEnd(s[..|s| - 1]) else |s|
  }

  /** Braces around the text, but for white space. */
  predicate ObjectShape(json: Bytes) {
    var begin, end := SpaceEnd(json, 0), TrimEnd(json);
    end >= begin + 2 && json[begin] == LBRACE && json[end - 1] == RBRACE
  }

  /** Where only space follows, nothing of it is kept. */
  lemma {:induction false} TrimStops(s: Bytes, end: nat)
    requires end <= |s| && forall k :: end <= k < |s| ==> IsSpace(s[k])
    ensures TrimEnd(s) <= end
    ensures end > 0 && !IsSpace(s[end - 1]) ==> TrimEnd(s) == end
    decreases |s|
  {
    if end < |s| {
      TrimStops(s[..|s| - 1], end);
    }
  }

  method JsonObjectShape(json: Bytes) returns (shape: bool)
    requires CString(json)
    ensures shape <==> ObjectShape(json)
  {
    hide SpaceEnd, TrimEnd;
    var begin := SkipSpace(json, 0);
    var end := |json|;
    while end > begin && IsSpace(json[end - 1])
      invariant begin <= end <= |json|
      invariant forall k :: end <= k < |json| ==> IsSpace(json[k])
    {
      end := end - 1;
    }
    TrimStops(json, end);
    shape := end - begin >= 2 && json[begin] == LBRACE && json[end - 1] == RBRACE;
  }

  /** msys_mipc_send_json: the wire takes the record or fails with an I/O error. */
  method SendJson(json: Bytes, wireOk: bool) returns (status: Status, packet: Option<Bytes>)
    requires CString(json)
    ensures status == if !ObjectShape(json) then InvalidJson
                      else if |json| > MAX_PACKET then TooLarge
                      else if wireOk then Success
                      else IoError
    ensures packet == if status == Success || status == IoError then Some(json) else None
  {
    hide ObjectShape;
    var shape := JsonObjectShape(json);
    NoEmptyShape();
    if |json| == 0 || !shape {
      return InvalidJson, None;
    }
    if |json| > MAX_PACKET {
      return TooLarge, None;
    }
    return if wireOk then Success else IoError, Some(json);
  }

  lemma NoEmptyShape()
    ensures !ObjectShape([])
  {
  }

  /** send_format, for a text that the format produces. */
  method SendFormat(record: Bytes, wireOk: bool) returns (status: Status, packet: Option<Bytes>)
    requires CString(record)
    ensures status == if |record| > MAX_PACKET then TooLarge
                      else if !ObjectShape(record) then InvalidJson
                      else if wireOk then Success
                      else IoError
    ensures packet == if status == Success || status == IoError then Some(record) else None
  {
    if |record| > MAX_PACKET {
      return TooLarge, None;
    }
    status, packet := SendJson(record, wireOk);
  }

  lemma {:induction false} SlotsEnd(slots: seq<Slot>)
    requires slots != []
    ensures SlotsText(slots) != [] && SlotsText(slots)[|SlotsText(slots)| - 1] == RBRACE
    decreases slots
  {
    if |slots| > 1 {
      SlotsEnd(slots[1..]);
    }
  }

  /** Every printed record passes the shape test before it is sent. */
  lemma RecordShape(slots: seq<Slot>)
    requires slots != []
    ensures ObjectShape(RecordText(slots))
  {
    SlotsEnd(slots);
    var json := RecordText(slots);
    hide SlotsText;
    assert json[|json| - 1] == RBRACE && json[0] == LBRACE;
    assert SpaceEnd(json, 0) == 0;
    assert TrimEnd(json) == |json|;
  }

  method ValidateRawValue(json: Bytes) returns (status: Status)
    requires CString(json)
    ensures status == if |json| > MAX_PACKET then TooLarge
                      else if SpaceEnd(json, 0) == |json| then InvalidJson
                      else Success
  {
    if |json| > MAX_PACKET {
      return TooLarge;
    }
    var begin := SkipSpace(json, 0);
    if At(json, begin) == NUL {
      return InvalidJson;
    }
    return Success;
  }

  /** The status a call record is sent with: argument checks in the order the code makes them. */
  function CallStatus(target: Bytes, rpc: Bytes, payload: Bytes, record: Bytes, wireOk: bool): Status {
    if |payload| > MAX_PACKET then TooLarge
    else if SpaceEnd(payload, 0) == |payload| then InvalidJson
    else if target == [] || rpc == [] then InvalidArgument
    else if |record| > MAX_PACKET then TooLarge
    else if wireOk then Success
    else IoError
  }

  // ----- Records are C strings -----

  lemma {:induction false} SlotsAreCString(slots: seq<Slot>)
    requires forall k :: 0 <= k < |slots| ==> CString(slots[k].key) && CString(slots[k].text)
    ensures CString(SlotsText(slots))
    decreases slots
  {
    if slots != [] {
      SlotsAreCString(slots[1..]);
    }
  }

  lemma {:induction false} UnitsAreCString(us: seq<Unit>)
    requires UnitsOk(us)
    ensures CString(UnitsText(us))
    decreases us
  {
    if us != [] {
      UnitsAreCString(us[1..]);
    }
  }

  /** A call record made from C strings has no NUL, so the accessors may read it. */
  lemma CallIsCString(id: nat, target: Bytes, rpc: Bytes, payload: Bytes, deadline: nat, idempotent: bool)
    requires CString(target) && CString(rpc) && CString(payload)
    ensures CString(RecordText(CallSlots(id, target, rpc, payload, deadline, idempotent)))
  {
    hide EscapeText, DecimalText;
    QuotedIsCString(target);
    QuotedIsCString(rpc);
    DecimalIsCString(id);
    DecimalIsCString(deadline);
    hide Quoted, SlotsText;
    ConstantsAreCStrings();
    SlotsAreCString(CallSlots(id, target, rpc, payload, deadline, idempotent));
  }

  lemma QuotedIsCString(text: Bytes)
    requires CString(text)
    ensures CString(Quoted(EscapeText(text)))
  {
    hide Paired, EscapeUnits, UnitsText;
    EscapeUnitsOk(text);
    UnitsAreCString(EscapeUnits(text));
  }

  lemma DecimalIsCString(n: nat)
    ensures CString(DecimalText(n))
  {
    hide DecimalText;
  }

  lemma ConstantsAreCStrings()
    ensures CString(Quoted(CALL)) && CString(TRUE) && CString(FALSE)
    ensures CString(TYPE) && CString(ID) && CString(TARGET) && CString(METHOD) && CString(PAYLOAD)
    ensures CString(DEADLINE_MS) && CString(IDEMPOTENT)
  {
  }

  method SendCallJson(id: nat, target: Bytes, rpc: Bytes, payloadJson: Option<Bytes>, deadline: nat, idempotent: bool,
      wireOk: bool)
    returns (status: Status, packet: Option<Bytes>)
    requires CString(target) && CString(rpc) && (payloadJson.Some? ==> CString(payloadJson.value))
    requires id <= U64_MAX && deadline <= U64_MAX
    ensures var payload := if payloadJson == None then EMPTY_PAYLOAD else payloadJson.value;
            var record := RecordText(CallSlots(id, target, rpc, payload, deadline, idempotent));
            && status == CallStatus(target, rpc, payload, record, wireOk)
            && packet == if status == Success || status == IoError then Some(record) else None
  {
    var payload := if payloadJson == None then EMPTY_PAYLOAD else payloadJson.value;
    ghost var record := RecordText(CallSlots(id, target, rpc, payload, deadline, idempotent));
    packet := None;
    status := ValidateRawValue(payload);
    if status != Success {
      return;
    }
    if target == [] || rpc == [] {
      return InvalidArgument, None;
    }
    var escapedTarget, escapedMethod: array<byte>;
    status, escapedTarget := EscapedJsonString(target);
    CallIsLonger(id, target, rpc, payload, deadline, idempotent);
    if status != Success {
      return;
    }
    status, escapedMethod := EscapedJsonString(rpc);
    if status != Success {
      return;
    }
    assert escapedTarget[..escapedTarget.Length - 1] == EscapeText(target);
    assert escapedMethod[..escapedMethod.Length - 1] == EscapeText(rpc);
    CallIsCString(id, target, rpc, payload, deadline, idempotent);
    RecordShape(CallSlots(id, target, rpc, payload, deadline, idempotent));
    status, packet := SendFormat(RecordText(
      [Slot(TYPE, Quoted(CALL)), Slot(ID, DecimalText(id)),
       Slot(TARGET, Quoted(escapedTarget[..escapedTarget.Length - 1])),
       Slot(METHOD, Quoted(escapedMethod[..escapedMethod.Length - 1])), Slot(PAYLOAD, payload),
       Slot(DEADLINE_MS, DecimalText(deadline)), Slot(IDEMPOTENT, if idempotent then TRUE else FALSE)]), wireOk);
  }

  lemma {:induction false} SlotIsShorter(slots: seq<Slot>, n: nat)
    requires n < |slots|
    ensures |slots[n].text| <= |SlotsText(slots)|
    decreases n
  {
    if n > 0 {
      SlotIsShorter(slots[1..], n - 1);
      assert slots[1..][n - 1] == slots[n];
    }
  }

  lemma CallIsLonger(id: nat, target: Bytes, rpc: Bytes, payload: Bytes, deadline: nat, idempotent: bool)
    ensures |EscapeText(target)| <= |RecordText(CallSlots(id, target, rpc, payload, deadline, idempotent))|
    ensures |EscapeText(rpc)| <= |RecordText(CallSlots(id, target, rpc, payload, deadline, idempotent))|
  {
    var slots := CallSlots(id, target, rpc, payload, deadline, idempotent);
    SlotIsShorter(slots, 2);
    SlotIsShorter(slots, 3);
  }

  // ----- Records as syntax trees -----

  /** A parsed slot: its value, and the white space around it. */
  datatype Parsed = Parsed(before: Bytes, value: Json, after: Bytes)

  predicate PlainKey(key: Bytes) {
    forall k :: 0 <= k < |key| ==> key[k] >= 32 && key[k] != QUOTE && key[k] != BACKSLASH
  }

  function PlainUnits(key: Bytes): (us: seq<Unit>)
    ensures |us| == |key| && forall k :: 0 <= k < |us| ==> us[k] == Plain(key[k])
  {
    seq(|key|, k requires 0 <= k < |key| => Plain(key[k]))
  }

  lemma {:induction false} PlainText(key: Bytes)
    requires PlainKey(key)
    ensures UnitsOk(PlainUnits(key)) && UnitsText(PlainUnits(key)) == key && SimpleKey(PlainUnits(key)) == Some(key)
    decreases key
  {
    if key != [] {
      PlainText(key[1..]);
      assert PlainUnits(key)[1..] == PlainUnits(key[1..]);
      assert key == [key[0]] + key[1..];
    }
  }

  predicate SlotOk(s: Slot, p: Parsed) {
    && PlainKey(s.key) && Spaces(p.before) && Ok(p.value) && Spaces(p.after)
    && Height(p.value) <= MAX_DEPTH
    && s.text == p.before + Text(p.value) + p.after
  }

  predicate SlotsOk(slots: seq<Slot>, ps: seq<Parsed>) {
    |ps| == |slots| && forall k :: 0 <= k < |slots| ==> SlotOk(slots[k], ps[k])
  }

  function ToMember(s: Slot, p: Parsed): Member {
    Member([], PlainUnits(s.key), [], p.before, p.value, p.after)
  }

  function ToMembers(slots: seq<Slot>, ps: seq<Parsed>): (ms: seq<Member>)
    requires |ps| == |slots|
    ensures |ms| == |slots| && forall k :: 0 <= k < |ms| ==> ms[k] == ToMember(slots[k], ps[k])
  {
    seq(|slots|, k requires 0 <= k < |slots| => ToMember(slots[k], ps[k]))
  }

  lemma MemberKey(s: Slot, p: Parsed)
    requires SlotOk(s, p)
    ensures MemberOk(ToMember(s, p)) && KeyText(ToMember(s, p)) == Quoted(s.key) + [COLON]
  {
    PlainText(s.key);
    hide UnitsText, UnitsOk, PlainUnits, Ok, Height, Text, PlainKey;
    assert [] + (StringText(PlainUnits(s.key)) + ([] + [COLON])) == Quoted(s.key) + [COLON];
  }

  lemma SlotTextIs(s: Slot, p: Parsed)
    requires SlotOk(s, p)
    ensures s.text == p.before + Text(p.value) + p.after
  {
    hide Text, Ok, Height;
  }

  lemma Regrouped(a: Bytes, b: Bytes, c: Bytes, d: Bytes, e: Bytes)
    ensures a + (b + (c + (d + e))) == a + (b + c + d) + e
  {
  }

  lemma MemberText(s: Slot, p: Parsed, tail: Bytes)
    requires SlotOk(s, p)
    ensures MemberOk(ToMember(s, p))
    ensures KeyText(ToMember(s, p)) + (p.before + (Text(p.value) + (p.after + tail))) ==
            Quoted(s.key) + [COLON] + s.text + tail
  {
    hide *;
    MemberKey(s, p);
    SlotTextIs(s, p);
    Regrouped(Quoted(s.key) + [COLON], p.before, Text(p.value), p.after, tail);
  }

  lemma {:induction false} SlotsAreMembers(slots: seq<Slot>, ps: seq<Parsed>)
    requires SlotsOk(slots, ps)
    ensures MembersOk(ToMembers(slots, ps)) && MembersHeight(ToMembers(slots, ps)) <= MAX_DEPTH
    ensures SlotsText(slots) == MembersText(ToMembers(slots, ps))
    decreases slots
  {
    if slots != [] {
      SlotsAreMembers(slots[1..], ps[1..]);
      assert ToMembers(slots, ps)[1..] == ToMembers(slots[1..], ps[1..]);
      MemberText(slots[0], ps[0], SlotsTail(slots[1..]));
    }
  }

  // ----- Reading a record back -----

  lemma RecordParses(slots: seq<Slot>, ps: seq<Parsed>)
    requires slots != [] && SlotsOk(slots, ps)
    ensures MembersOk(ToMembers(slots, ps)) && MembersHeight(ToMembers(slots, ps)) <= MAX_DEPTH
    ensures RecordText(slots) == Text(Object(ToMembers(slots, ps)))
  {
    SlotsAreMembers(slots, ps);
  }

  lemma NamedSlot(s: Slot, p: Parsed, key: Bytes)
    requires PlainKey(s.key)
    ensures Named(ToMember(s, p), key) <==> s.key == key
  {
    PlainText(s.key);
  }

  /** The first slot with its key is read back as the value that was printed, whatever the other slots hold. */
  lemma RecordField(slots: seq<Slot>, ps: seq<Parsed>, n: nat)
    requires SlotsOk(slots, ps) && n < |slots| && slots[n].key != []
    requires forall k :: 0 <= k < n ==> slots[k].key != slots[n].key
    ensures Raw(RecordText(slots), slots[n].key) == Value(Text(ps[n].value))
  {
    hide Occurs, Text, Raw, FindValue, RecordText, SlotOk, MembersOk, MembersHeight;
    var members := ToMembers(slots, ps);
    var key := slots[n].key;
    assert forall k :: 0 <= k <= n ==> (Named(members[k], key) <==> k == n) by {
      forall k | 0 <= k <= n
        ensures Named(members[k], key) <==> k == n
      {
        assert SlotOk(slots[k], ps[k]) && PlainKey(slots[k].key) by { SlotKey(slots, ps, k); }
        NamedSlot(slots[k], ps[k], key);
      }
    }
    assert FirstNamed(members, key) == Some(n);
    RecordParses(slots, ps);
    ObjectField(members, key, n);
  }

  lemma SlotKey(slots: seq<Slot>, ps: seq<Parsed>, k: nat)
    requires SlotsOk(slots, ps) && k < |slots|
    ensures SlotOk(slots[k], ps[k]) && PlainKey(slots[k].key)
  {
  }

  // ----- The syntax trees of printed slots -----

  function ParsedString(text: Bytes): Parsed {
    Parsed([], Str(EscapeUnits(text)), [])
  }

  lemma PlainSlot(key: Bytes, text: Bytes)
    requires PlainKey(key) && PlainKey(text) && CString(text)
    ensures SlotOk(Slot(key, Quoted(text)), Parsed([], Str(PlainUnits(text)), []))
    ensures DecodeText(text) == Some(text)
  {
    PlainPaired(text);
    PlainText(text);
    hide UnitOk, Paired, PlainUnits, DecodeText, Denoted, PlainKey, UnitsText, UnitsOk;
    var us := PlainUnits(text);
    DecodeExact(us);
    PlainDenotes(text, 0);
    assert text[0..] == text;
    PlainTree(us, text);
  }

  lemma PlainTree(us: seq<Unit>, text: Bytes)
    requires UnitsOk(us) && UnitsText(us) == text
    ensures Ok(Str(us)) && Height(Str(us)) <= MAX_DEPTH && Quoted(text) == [] + Text(Str(us)) + []
  {
    hide UnitsOk, UnitsText;
  }

  lemma PlainPaired(text: Bytes)
    requires PlainKey(text)
    ensures Paired(PlainUnits(text))
  {
    var us := PlainUnits(text);
    assert forall k :: 0 <= k < |us| ==> us[k].Plain?;
    hide PlainUnits, PlainKey;
  }

  lemma {:induction false} PlainDenotes(text: Bytes, k: nat)
    requires PlainKey(text) && k <= |text| && UnitsOk(PlainUnits(text)) && Paired(PlainUnits(text))
    ensures Denoted(PlainUnits(text), k) == text[k..]
    decreases |text| - k
  {
    if k < |text| {
      PlainDenotes(text, k + 1);
      assert !Unpaired(PlainUnits(text), k);
      assert text[k..] == [text[k]] + text[k + 1..];
    }
  }

  lemma StringSlot(key: Bytes, text: Bytes)
    requires PlainKey(key) && CString(text)
    ensures SlotOk(Slot(key, Quoted(EscapeText(text))), ParsedString(text))
  {
    EscapeUnitsOk(text);
    assert Quoted(EscapeText(text)) == [] + StringText(EscapeUnits(text)) + [];
  }

  function ParsedNumber(n: nat): Parsed {
    Parsed([], Num(Number(false, DecimalText(n), None, None)), [])
  }

  lemma NumberSlot(key: Bytes, n: nat)
    requires PlainKey(key)
    ensures SlotOk(Slot(key, DecimalText(n)), ParsedNumber(n))
    ensures Text(ParsedNumber(n).value) == DecimalText(n)
  {
    assert Text(ParsedNumber(n).value) == DecimalText(n);
  }

  // ----- Round trips -----

  /** Reading a string slot gives the string that was escaped into it. */
  lemma ReadString(s: Bytes, key: Bytes, text: Bytes)
    requires CString(text) && Raw(s, key) == Value(StringText(EscapeUnits(text)))
    ensures StringField(s, key) == Value(text)
  {
    var t := StringText(EscapeUnits(text));
    assert t[1..|t| - 1] == EscapeText(text);
    EscapeRoundTrip(text);
  }

  lemma ReadNumber(s: Bytes, key: Bytes, n: nat)
    requires n <= U64_MAX && Raw(s, key) == Value(DecimalText(n))
    ensures Raw(s, key).Value? && U64Text(Raw(s, key).value) == Some(n)
  {
    DecimalRoundTrip(n);
  }

  /** The parsed slots of a call record; the payload is a value with white space around it. */
  function CallParsed(id: nat, target: Bytes, rpc: Bytes, payload: Parsed, deadline: nat,
      idempotent: bool): seq<Parsed> {
    [Parsed([], Str(PlainUnits(CALL)), []), ParsedNumber(id), ParsedString(target), ParsedString(rpc), payload,
     ParsedNumber(deadline), Parsed([], Word(if idempotent then TRUE else FALSE), [])]
  }

  predicate PayloadOk(p: Parsed) {
    Spaces(p.before) && Ok(p.value) && Spaces(p.after) && Height(p.value) <= MAX_DEPTH
  }

  function PayloadText(p: Parsed): Bytes {
    p.before + Text(p.value) + p.after
  }

  lemma CallSlotsOk(id: nat, target: Bytes, rpc: Bytes, payload: Parsed, deadline: nat, idempotent: bool)
    requires CString(target) && CString(rpc) && PayloadOk(payload)
    ensures SlotsOk(CallSlots(id, target, rpc, PayloadText(payload), deadline, idempotent),
                    CallParsed(id, target, rpc, payload, deadline, idempotent))
  {
    hide SlotOk, Text, Height, DecodeText, EscapeText, DecimalText, PayloadText, PayloadOk, ParsedNumber,
      ParsedString, Quoted, PlainUnits, PlainKey;
    CallKeysPlain();
    PlainSlot(TYPE, CALL);
    NumberSlot(ID, id);
    StringSlot(TARGET, target);
    StringSlot(METHOD, rpc);
    PayloadSlot(payload);
    NumberSlot(DEADLINE_MS, deadline);
    FlagSlot(idempotent);
  }

  lemma CallKeysPlain()
    ensures PlainKey(TYPE) && PlainKey(CALL) && PlainKey(ID) && PlainKey(TARGET) && PlainKey(METHOD) &&
      PlainKey(DEADLINE_MS)
    ensures CString(CALL)
  {
  }

  lemma PayloadSlot(payload: Parsed)
    requires PayloadOk(payload)
    ensures SlotOk(Slot(PAYLOAD, PayloadText(payload)), payload)
  {
  }

  lemma FlagSlot(idempotent: bool)
    ensures var w := if idempotent then TRUE else FALSE;
      SlotOk(Slot(IDEMPOTENT, w), Parsed([], Word(w), [])) && Text(Word(w)) == w
  {
    var w := if idempotent then TRUE else FALSE;
    assert w == [] + Text(Word(w)) + [];
  }

  /**
   A call record is read back as exactly the values it was made from, for every
   pair of C strings, all 64-bit numbers and every payload within the depth
   bound, whatever keys the payload nests. The raw payload comes back without
   the white space around it.
   */
  lemma CallRoundTrip(id: nat, target: Bytes, rpc: Bytes, payload: Parsed, deadline: nat, idempotent: bool)
    requires CString(target) && CString(rpc) && PayloadOk(payload) && id <= U64_MAX && deadline <= U64_MAX
    ensures var s := RecordText(CallSlots(id, target, rpc, PayloadText(payload), deadline, idempotent));
      && StringField(s, TYPE) == Value(CALL)
      && Raw(s, ID).Value? && U64Text(Raw(s, ID).value) == Some(id)
      && StringField(s, TARGET) == Value(target)
      && StringField(s, METHOD) == Value(rpc)
      && Raw(s, PAYLOAD) == Value(Text(payload.value))
      && Raw(s, DEADLINE_MS).Value? && U64Text(Raw(s, DEADLINE_MS).value) == Some(deadline)
      && Raw(s, IDEMPOTENT) == Value(if idempotent then TRUE else FALSE)
  {
    hide RecordText, Raw, DecodeText, EscapeText, StringField, U64Text;
    var s := RecordText(CallSlots(id, target, rpc, PayloadText(payload), deadline, idempotent));
    CallFields(id, target, rpc, payload, deadline, idempotent);
    ReadPlain(s, TYPE, CALL);
    ReadNumber(s, ID, id);
    ReadString(s, TARGET, target);
    ReadString(s, METHOD, rpc);
    ReadNumber(s, DEADLINE_MS, deadline);
  }

  lemma CallFields(id: nat, target: Bytes, rpc: Bytes, payload: Parsed, deadline: nat, idempotent: bool)
    requires CString(target) && CString(rpc) && PayloadOk(payload)
    ensures var s := RecordText(CallSlots(id, target, rpc, PayloadText(payload), deadline, idempotent));
      && Raw(s, TYPE) == Value(StringText(PlainUnits(CALL)))
      && Raw(s, ID) == Value(DecimalText(id))
      && Raw(s, TARGET) == Value(StringText(EscapeUnits(target)))
      && Raw(s, METHOD) == Value(StringText(EscapeUnits(rpc)))
      && Raw(s, PAYLOAD) == Value(Text(payload.value))
      && Raw(s, DEADLINE_MS) == Value(DecimalText(deadline))
      && Raw(s, IDEMPOTENT) == Value(if idempotent then TRUE else FALSE)
  {
    hide *;
    var slots := CallSlots(id, target, rpc, PayloadText(payload), deadline, idempotent);
    var ps := CallParsed(id, target, rpc, payload, deadline, idempotent);
    CallSlotsOk(id, target, rpc, payload, deadline, idempotent);
    CallKeys(id, target, rpc, PayloadText(payload), deadline, idempotent);
    CallValues(id, target, rpc, payload, deadline, idempotent);
    RecordField(slots, ps, 0);
    RecordField(slots, ps, 1);
    RecordField(slots, ps, 2);
    RecordField(slots, ps, 3);
    RecordField(slots, ps, 4);
    RecordField(slots, ps, 5);
    RecordField(slots, ps, 6);
  }

  lemma CallKeys(id: nat, target: Bytes, rpc: Bytes, payload: Bytes, deadline: nat, idempotent: bool)
    ensures var slots := CallSlots(id, target, rpc, payload, deadline, idempotent);
      && |slots| == 7
      && slots[0].key == TYPE && slots[1].key == ID && slots[2].key == TARGET && slots[3].key == METHOD
      && slots[4].key == PAYLOAD && slots[5].key == DEADLINE_MS && slots[6].key == IDEMPOTENT
      && (forall k :: 0 <= k < 7 ==> slots[k].key != [])
      && forall j, k :: 0 <= j < k < 7 ==> slots[j].key != slots[k].key
  {
    hide EscapeText, DecimalText, Quoted;
  }

  lemma CallValues(id: nat, target: Bytes, rpc: Bytes, payload: Parsed, deadline: nat, idempotent: bool)
    ensures var ps := CallParsed(id, target, rpc, payload, deadline, idempotent);
      && |ps| == 7
      && Text(ps[0].value) == StringText(PlainUnits(CALL)) && Text(ps[1].value) == DecimalText(id)
      && Text(ps[2].value) == StringText(EscapeUnits(target)) && Text(ps[3].value) == StringText(EscapeUnits(rpc))
      && ps[4] == payload && Text(ps[5].value) == DecimalText(deadline)
      && Text(ps[6].value) == if idempotent then TRUE else FALSE
  {
    hide StringText, PlainUnits, EscapeUnits, DecimalText, ParsedNumber, PlainKey, SlotOk;
    CallKeysPlain();
    NumberSlot(ID, id);
    NumberSlot(DEADLINE_MS, deadline);
  }

  lemma ReadPlain(s: Bytes, key: Bytes, text: Bytes)
    requires PlainKey(text) && CString(text) && Raw(s, key) == Value(StringText(PlainUnits(text)))
    ensures StringField(s, key) == Value(text)
  {
    var t := StringText(PlainUnits(text));
    PlainText(text);
    PlainSlot([], text);
    assert t[1..|t| - 1] == text;
  }
}
