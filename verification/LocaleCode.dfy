/** The two normalizers as they are written: list building in Python, in place in C. */
module LocaleCode {
  import opened Bytes
  import opened Locale
  import opened Utf8

  // ----- Python -----

  function Extend(done: seq<Bytes>, rest: Option<seq<Bytes>>): Option<seq<Bytes>> {
    match rest
    case None => None
    case Some(ps) => Some(done + ps)
  }

  lemma ExtendCons(done: seq<Bytes>, p: Bytes, rest: Option<seq<Bytes>>)
    ensures Extend(done, Cons(p, rest)) == Extend(done + [p], rest)
  {
    if rest.Some? {
      assert done + ([p] + rest.value) == done + [p] + rest.value;
    }
  }

  /** normalize_locale. The last test, against the pattern, never fails. */
  method NormalizeLocale(value: Bytes) returns (r: Option<Bytes>)
    requires Ascii(value)
    ensures r == Normalized(value)
  {
    hide PythonParts, Upper, Lower, Title, Dashed, Before, StripLeft, StripRight, LooseVariant, LooseRegion,
      LooseScript, LooseLanguage, Canonical;
    var raw := StripRight(StripLeft(value));
    EmptyCore(raw);
    if raw == [] {
      return None;
    }
    var withoutEncoding := Before(Before(raw, AT_SIGN), DOT);
    if Neutral(withoutEncoding) {
      return None;
    }
    var parts := Split(Dashed(withoutEncoding));
    PartsSteps(parts);
    if !LooseLanguage(parts[0]) {
      return None;
    }
    var canonical := [Lower(parts[0])];
    var index := 1;
    if index < |parts| && LooseScript(parts[index]) {
      canonical := canonical + [Title(parts[index])];
      index := index + 1;
    }
    assert Extend(canonical, PythonRegion(parts[index..])) == PythonParts(parts);
    if index < |parts| && LooseRegion(parts[index]) {
      ExtendCons(canonical, Upper(parts[index]), PythonVariants(parts[index + 1..]));
      assert parts[index..][1..] == parts[index + 1..];
      canonical := canonical + [Upper(parts[index])];
      index := index + 1;
    }
    while index < |parts|
      invariant index <= |parts| && canonical != []
      invariant Extend(canonical, PythonVariants(parts[index..])) == PythonParts(parts)
    {
      var part := parts[index];
      assert parts[index..][1..] == parts[index + 1..];
      if !LooseVariant(part) {
        return None;
      }
      ExtendCons(canonical, Lower(part), PythonVariants(parts[index + 1..]));
      canonical := canonical + [Lower(part)];
      index := index + 1;
    }
    assert parts[index..] == [] && canonical + [] == canonical;
    PartsCanonical(parts);
    JoinCanonical(canonical);
    var result := JoinParts(canonical);
    r := if Canonical(result) then Some(result) else None;
  }

  lemma EmptyCore(raw: Bytes)
    ensures raw == [] ==>
      Before(Before(raw, AT_SIGN), DOT) == [] && Dashed([]) == [] && PythonParts(Split([])) == None && !Neutral([])
  {
  }

  lemma PartsSteps(ps: seq<Bytes>)
    requires ps != []
    ensures !LooseLanguage(ps[0]) ==> PythonParts(ps) == None
    ensures LooseLanguage(ps[0]) && |ps| > 1 && LooseScript(ps[1]) ==>
              PythonParts(ps) == Extend([Lower(ps[0])] + [Title(ps[1])], PythonRegion(ps[2..]))
    ensures LooseLanguage(ps[0]) && !(|ps| > 1 && LooseScript(ps[1])) ==>
              PythonParts(ps) == Extend([Lower(ps[0])], PythonRegion(ps[1..]))
  {
    hide PythonRegion, LooseLanguage, LooseScript;
    if |ps| > 1 {
      assert ps[1..][1..] == ps[2..];
      if LooseScript(ps[1]) {
        ExtendCons([Lower(ps[0])], Title(ps[1]), PythonRegion(ps[2..]));
      }
    }
  }

  // ----- C -----

  datatype LocaleStatus = LocaleOk | LocaleTooSmall | BadLocaleArgument | InvalidLocale

  /** Every status the C function can return, for a name and a capacity. */
  function StatusOf(input: Bytes, capacity: nat): LocaleStatus {
    if capacity == 0 then BadLocaleArgument
    else if Refused(RawName(input)) then InvalidLocale
    else if |RawName(input)| + 1 > capacity then LocaleTooSmall
    else if CNormalized(input) == None then InvalidLocale
    else LocaleOk
  }

  /** ascii_equal_fold. */
  method EqualFold(left: Bytes, right: Bytes) returns (same: bool)
    ensures same <==> Lower(left) == Lower(right)
  {
    hide Lower;
    ghost var a, b := Lower(left), Lower(right);
    var i := 0;
    while i < |left| && i < |right|
      invariant i <= |left| && i <= |right|
      invariant forall k :: 0 <= k < i ==> a[k] == b[k]
    {
      if ToLower(left[i]) != ToLower(right[i]) {
        assert a[i] != b[i];
        return false;
      }
      i := i + 1;
    }
    same := i == |left| && i == |right|;
  }

  lemma {:induction false} FoldUpper(a: Bytes, b: Bytes)
    ensures Lower(a) == Lower(b) <==> Upper(a) == Upper(b)
  {
    if Lower(a) == Lower(b) {
      assert forall k :: 0 <= k < |a| ==> ToLower(a[k]) == ToLower(b[k]);
      assert forall k :: 0 <= k < |a| ==> Upper(a)[k] == ToUpper(a[k]) == ToUpper(b[k]) == Upper(b)[k];
    }
    if Upper(a) == Upper(b) {
      assert forall k :: 0 <= k < |a| ==> ToUpper(a[k]) == ToUpper(b[k]);
      assert forall k :: 0 <= k < |a| ==> Lower(a)[k] == ToLower(a[k]) == ToLower(b[k]) == Lower(b)[k];
    }
  }

  lemma NeutralFold(s: Bytes)
    ensures Neutral(s) <==> Lower(s) == Lower(UPPER_C) || Lower(s) == Lower(UPPER_POSIX)
  {
    FoldUpper(s, UPPER_C);
    FoldUpper(s, UPPER_POSIX);
    assert Upper(UPPER_C) == UPPER_C && Upper(UPPER_POSIX) == UPPER_POSIX;
  }

  /** The array with one subtag of it replaced. */
  function Patched(raw: Bytes, begin: nat, part: Bytes): (r: Bytes)
    requires begin + |part| <= |raw|
    ensures |r| == |raw|
  {
    raw[..begin] + part + raw[begin + |part|..]
  }

  lemma PatchedIs(was: Bytes, now: Bytes, begin: nat, part: Bytes)
    requires |now| == |was| && begin + |part| <= |was|
    requires forall k :: 0 <= k < |was| ==> now[k] == if begin <= k < begin + |part| then part[k - begin] else was[k]
    ensures now == Patched(was, begin, part)
  {
  }

  /** A loop that lowers a subtag and stops at the first byte of the wrong class. */
  method LowerPart(raw: array<byte>, begin: nat, end: nat, digits: bool) returns (ok: bool)
    requires begin <= end <= raw.Length
    modifies raw
    ensures ok <==> if digits then AllAlnum(old(raw[begin..end])) else AllAlpha(old(raw[begin..end]))
    ensures ok ==> raw[..] == Patched(old(raw[..]), begin, Lower(old(raw[begin..end])))
  {
    hide Lower, Patched;
    ghost var was := raw[..];
    ghost var part := raw[begin..end];
    ghost var lowered := Lower(part);
    var cursor := begin;
    while cursor < end
      invariant begin <= cursor <= end
      invariant forall k :: begin <= k < cursor ==> if digits then IsAlnum(was[k]) else IsAlpha(was[k])
      invariant forall k :: 0 <= k < raw.Length ==> raw[k] == if begin <= k < cursor then lowered[k - begin] else was[k]
    {
      if if digits then !IsAlnum(raw[cursor]) else !IsAlpha(raw[cursor]) {
        assert part[cursor - begin] == was[cursor];
        return false;
      }
      assert raw[cursor] == was[cursor] == part[cursor - begin];
      raw[cursor] := ToLower(raw[cursor]);
      cursor := cursor + 1;
    }
    assert forall k :: 0 <= k < |part| ==> part[k] == was[begin + k];
    assert if digits then AllAlnum(part) else AllAlpha(part);
    PatchedIs(was, raw[..], begin, lowered);
    return true;
  }

  method UpperPart(raw: array<byte>, begin: nat, end: nat) returns (ok: bool)
    requires begin <= end <= raw.Length
    modifies raw
    ensures ok <==> AllAlpha(old(raw[begin..end]))
    ensures ok ==> raw[..] == Patched(old(raw[..]), begin, Upper(old(raw[begin..end])))
  {
    hide Upper, Patched;
    ghost var was := raw[..];
    ghost var part := raw[begin..end];
    ghost var raised := Upper(part);
    var cursor := begin;
    while cursor < end
      invariant begin <= cursor <= end
      invariant forall k :: begin <= k < cursor ==> IsAlpha(was[k])
      invariant forall k :: 0 <= k < raw.Length ==> raw[k] == if begin <= k < cursor then raised[k - begin] else was[k]
    {
      if !IsAlpha(raw[cursor]) {
        assert part[cursor - begin] == was[cursor];
        return false;
      }
      assert raw[cursor] == was[cursor] == part[cursor - begin];
      raw[cursor] := ToUpper(raw[cursor]);
      cursor := cursor + 1;
    }
    assert forall k :: 0 <= k < |part| ==> part[k] == was[begin + k];
    assert AllAlpha(part);
    PatchedIs(was, raw[..], begin, raised);
    return true;
  }

  method AlphaPart(raw: array<byte>, begin: nat, end: nat) returns (all: bool)
    requires begin <= end <= raw.Length
    ensures all <==> AllAlpha(raw[begin..end])
  {
    var cursor := begin;
    while cursor < end
      invariant begin <= cursor <= end
      invariant forall k :: begin <= k < cursor ==> IsAlpha(raw[k])
    {
      if !IsAlpha(raw[cursor]) {
        assert raw[begin..end][cursor - begin] == raw[cursor];
        return false;
      }
      cursor := cursor + 1;
    }
    return true;
  }

  method DigitsPart(raw: array<byte>, begin: nat, end: nat) returns (all: bool)
    requires begin <= end <= raw.Length
    ensures all <==> AllDigits(raw[begin..end])
  {
    var cursor := begin;
    while cursor < end
      invariant begin <= cursor <= end
      invariant forall k :: begin <= k < cursor ==> IsDigit(raw[k])
    {
      if !IsDigit(raw[cursor]) {
        assert raw[begin..end][cursor - begin] == raw[cursor];
        return false;
      }
      cursor := cursor + 1;
    }
    return true;
  }

  /** Title case in place: one byte raised, the rest lowered. */
  method TitlePart(raw: array<byte>, begin: nat, end: nat)
    requires begin < end <= raw.Length
    modifies raw
    ensures raw[..] == Patched(old(raw[..]), begin, Title(old(raw[begin..end])))
  {
    hide Title, Patched;
    ghost var was := raw[..];
    ghost var titled := Title(raw[begin..end]);
    raw[begin] := ToUpper(raw[begin]);
    var cursor := begin + 1;
    while cursor < end
      invariant begin < cursor <= end
      invariant forall k :: 0 <= k < raw.Length ==> raw[k] == if begin <= k < cursor then titled[k - begin] else was[k]
    {
      assert raw[cursor] == was[cursor] == was[begin..end][cursor - begin];
      raw[cursor] := ToLower(raw[cursor]);
      cursor := cursor + 1;
    }
    PatchedIs(was, raw[..], begin, titled);
  }

  /** The body of the loop over subtags, for the one between `begin` and `end`. */
  method NormalizePart(raw: array<byte>, begin: nat, end: nat, part: nat, sawScript: bool) returns (ok: bool, saw: bool)
    requires begin <= end <= raw.Length
    modifies raw
    ensures var was := old(raw[begin..end]);
      && (ok <==> RawPart(was, part, sawScript).Some?)
      && (ok ==>
            && raw[..] == Patched(old(raw[..]), begin, RawPart(was, part, sawScript).value)
            && saw == SeesScript(was, part, sawScript))
  {
    hide Lower, Upper, Title, Patched;
    saw := sawScript;
    var size := end - begin;
    if size == 0 {
      return false, saw;
    }
    ghost var was := raw[begin..end];
    assert raw[begin] == was[0];
    if part == 0 {
      if size < 2 || size > 8 {
        return false, saw;
      }
      ok := LowerPart(raw, begin, end, false);
    } else if part == 1 && size == 4 {
      var alpha := AlphaPart(raw, begin, end);
      if alpha {
        TitlePart(raw, begin, end);
        return true, true;
      }
      if !IsDigit(raw[begin]) {
        return false, saw;
      }
      ok := LowerPart(raw, begin, end, true);
    } else if part == (if sawScript then 2 else 1) && size == 2 {
      ok := UpperPart(raw, begin, end);
    } else if part == (if sawScript then 2 else 1) && size == 3 {
      ok := DigitsPart(raw, begin, end);
      PatchedSame(raw[..], begin, end);
    } else {
      if !((5 <= size <= 8) || (size == 4 && IsDigit(raw[begin]))) {
        return false, saw;
      }
      ok := LowerPart(raw, begin, end, true);
    }
  }

  lemma PatchedSame(raw: Bytes, begin: nat, end: nat)
    requires begin <= end <= |raw|
    ensures Patched(raw, begin, raw[begin..end]) == raw
  {
  }

  /** Subtags, each with the dash behind it. */
  function Closed(ps: seq<Bytes>): Bytes {
    if ps == [] then [] else Closed(ps[..|ps| - 1]) + ps[|ps| - 1] + [DASH]
  }

  lemma {:induction false} ClosedFront(p: Bytes, ps: seq<Bytes>)
    ensures Closed([p] + ps) == p + [DASH] + Closed(ps)
    decreases |ps|
  {
    var all := [p] + ps;
    if ps == [] {
      assert all[..0] == [];
    } else {
      assert all[..|all| - 1] == [p] + ps[..|ps| - 1];
      ClosedFront(p, ps[..|ps| - 1]);
    }
  }

  lemma {:induction false} JoinClosed(done: seq<Bytes>, p: Bytes)
    ensures JoinParts(done + [p]) == Closed(done) + p
    decreases done
  {
    if done == [] {
      assert [] + [p] == [p];
    } else {
      assert (done + [p])[1..] == done[1..] + [p];
      JoinClosed(done[1..], p);
      ClosedFront(done[0], done[1..]);
      assert [done[0]] + done[1..] == done;
    }
  }

  /** The subtags that are left behind the one that ends at `index`. */
  function Behind(cut: Bytes, index: nat): seq<Bytes>
    requires index <= |cut|
  {
    if index == |cut| then [] else Split(cut[index + 1..])
  }

  lemma SubtagStep(cut: Bytes, start: nat, index: nat)
    requires start <= index <= |cut| && DASH !in cut[start..index] && (index < |cut| ==> cut[index] == DASH)
    ensures Split(cut[start..]) == [cut[start..index]] + Behind(cut, index)
  {
    var rest := cut[start..];
    assert rest[..index - start] == cut[start..index];
    DashIs(rest, index - start);
    if index == |cut| {
      assert cut[start..index] == rest;
    } else {
      assert rest[index - start + 1..] == cut[index + 1..];
    }
  }

  /** The state of the loop over subtags: the array, with `done` for the subtags behind the cursor. */
  ghost predicate Between(raw: Bytes, cut: Bytes, was: Bytes, start: nat, done: seq<Bytes>) {
    && |raw| == |was| && |cut| < |raw| && cut == was[..|cut|]
    && if start <= |cut| then raw[..start] == Closed(done) && raw[start..] == was[start..]
       else done != [] && raw[..|cut|] == JoinParts(done) && raw[|cut|..] == was[|cut|..]
  }

  /** The subtags before the cursor are done; the rest decides. */
  ghost predicate Decided(cut: Bytes, start: nat, part: nat, saw: bool, done: seq<Bytes>) {
    if start <= |cut| then Extend(done, RawParts(Split(cut[start..]), part, saw)) == RawParts(Split(cut), 0, false)
    else RawParts(Split(cut), 0, false) == Some(done)
  }

  lemma DecidedStep(cut: Bytes, start: nat, index: nat, part: nat, saw: bool, done: seq<Bytes>)
    requires Decided(cut, start, part, saw, done)
    requires start <= index <= |cut| && DASH !in cut[start..index] && (index < |cut| ==> cut[index] == DASH)
    ensures var p := RawPart(cut[start..index], part, saw);
      if p == None then RawParts(Split(cut), 0, false) == None
      else Decided(cut, index + 1, part + 1, SeesScript(cut[start..index], part, saw), done + [p.value])
  {
    hide RawPart, SeesScript, Split;
    var sub := cut[start..index];
    SubtagStep(cut, start, index);
    assert ([sub] + Behind(cut, index))[1..] == Behind(cut, index);
    var p := RawPart(sub, part, saw);
    if p.Some? {
      ExtendCons(done, p.value, RawParts(Behind(cut, index), part + 1, SeesScript(sub, part, saw)));
      assert done + [p.value] + [] == done + [p.value];
    }
  }

  lemma PatchedEnds(raw: Bytes, start: nat, p: Bytes)
    requires start + |p| <= |raw|
    ensures Patched(raw, start, p)[..start + |p|] == raw[..start] + p
    ensures Patched(raw, start, p)[start + |p|..] == raw[start + |p|..]
  {
  }

  lemma BetweenStep(raw: Bytes, cut: Bytes, was: Bytes, start: nat, index: nat, p: Bytes, done: seq<Bytes>)
    requires Between(raw, cut, was, start, done)
    requires start <= index <= |cut| && |p| == index - start && (index < |cut| ==> cut[index] == DASH)
    ensures Between(Patched(raw, start, p), cut, was, index + 1, done + [p])
  {
    var now := Patched(raw, start, p);
    PatchedEnds(raw, start, p);
    hide JoinParts, Closed, Patched;
    assert now[..index] == Closed(done) + p;
    assert now[index..] == was[index..] by {
      assert raw[index..] == raw[start..][index - start..];
      assert was[index..] == was[start..][index - start..];
    }
    JoinClosed(done, p);
    ClosedLast(done, p);
    if index < |cut| {
      assert now[index] == now[index..][0] == was[index..][0] == DASH;
      assert now[..index + 1] == now[..index] + [DASH];
      assert now[index + 1..] == now[index..][1..];
      assert was[index + 1..] == was[index..][1..];
    }
  }

  lemma BetweenSub(raw: Bytes, cut: Bytes, was: Bytes, start: nat, done: seq<Bytes>, index: nat)
    requires Between(raw, cut, was, start, done) && start <= index <= |cut|
    ensures raw[start..index] == cut[start..index] && (index < |cut| ==> raw[index] == cut[index])
  {
    assert raw[start..index] == raw[start..][..index - start];
    assert cut[start..index] == was[start..][..index - start];
    assert index < |cut| ==> raw[index] == raw[start..][index - start] && was[index] == was[start..][index - start];
  }

  lemma ClosedLast(done: seq<Bytes>, p: Bytes)
    ensures Closed(done + [p]) == Closed(done) + p + [DASH]
  {
    assert (done + [p])[..|done|] == done;
  }

  lemma BetweenStart(was: Bytes, cut: Bytes)
    requires |cut| < |was| && cut == was[..|cut|]
    ensures Between(was, cut, was, 0, []) && Decided(cut, 0, 0, false, [])
  {
    assert cut[0..] == cut && was[0..] == was;
    var all := RawParts(Split(cut), 0, false);
    assert all.Some? ==> [] + all.value == all.value;
  }

  /** The loop over the raw name, subtag by subtag. */
  method NormalizeRaw(raw: array<byte>, length: nat) returns (ok: bool)
    requires length < raw.Length
    modifies raw
    ensures var ps := RawParts(Split(old(raw[..length])), 0, false);
      && (ok <==> ps.Some?)
      && (ok ==> ps.value != [] && raw[..length] == JoinParts(ps.value) && raw[length..] == old(raw[length..]))
  {
    hide Between, Decided, RawPart, SeesScript, Patched, JoinParts, Split, RawParts;
    ghost var was := raw[..];
    ghost var cut := raw[..length];
    ghost var done: seq<Bytes> := [];
    var index, part, start, saw := 0, 0, 0, false;
    BetweenStart(was, cut);
    while index <= length
      invariant start <= index <= length + 1 && (index == length + 1 <==> start == length + 1)
      invariant Between(raw[..], cut, was, start, done)
      invariant Decided(cut, start, part, saw, done)
      invariant start <= index <= length ==> DASH !in cut[start..index]
    {
      BetweenSub(raw[..], cut, was, start, done, index);
      if index != length && raw[index] != DASH {
        assert cut[start..index + 1] == cut[start..index] + [cut[index]];
        index := index + 1;
        continue;
      }
      DecidedStep(cut, start, index, part, saw, done);
      assert raw[start..index] == cut[start..index];
      ghost var p := RawPart(cut[start..index], part, saw);
      ghost var before := raw[..];
      var fine, sees := NormalizePart(raw, start, index, part, saw);
      if !fine {
        return false;
      }
      BetweenStep(before, cut, was, start, index, p.value, done);
      done := done + [p.value];
      saw := sees;
      part := part + 1;
      start := index + 1;
      index := index + 1;
    }
    BetweenEnd(raw[..], cut, was, start, part, saw, done);
    return true;
  }

  lemma BetweenEnd(raw: Bytes, cut: Bytes, was: Bytes, start: nat, part: nat, saw: bool, done: seq<Bytes>)
    requires Between(raw, cut, was, start, done) && Decided(cut, start, part, saw, done) && start == |cut| + 1
    ensures RawParts(Split(cut), 0, false) == Some(done) && done != []
    ensures raw[..|cut|] == JoinParts(done) && raw[|cut|..] == was[|cut|..]
  {
  }

  /** msys_i18n_normalize_locale; an output of length 0 stands for the absent buffer. */
  method NormalizeInto(input: Bytes, output: array<byte>) returns (status: LocaleStatus)
    requires CString(input)
    modifies output
    ensures status == StatusOf(input, output.Length)
    ensures status != LocaleOk ==> output[..] == old(output[..])
    ensures status == LocaleOk ==>
              var r := CNormalized(input).value;
              |r| < output.Length && output[..] == r + [0] + old(output[..])[|r| + 1..]
  {
    hide Split, RawParts, JoinParts, Neutral, Lower, Upper, SkipSpaces, TakeName, Dashed;
    if output.Length == 0 {
      return BadLocaleArgument;
    }
    var raw := new byte[LOCALE_CAPACITY];
    var length, tooLong := CopyName(input, raw);
    if tooLong {
      return InvalidLocale;
    }
    ghost var cut := raw[..length];
    NeutralFold(cut);
    var c := EqualFold(raw[..length], UPPER_C);
    var posix := EqualFold(raw[..length], UPPER_POSIX);
    if length == 0 || c || posix {
      return InvalidLocale;
    }
    if length + 1 > output.Length {
      return LocaleTooSmall;
    }
    assert raw[length..][0] == 0;
    var ok := NormalizeRaw(raw, length);
    if !ok {
      return InvalidLocale;
    }
    RawLengthOf(cut);
    assert raw[length] == raw[length..][0];
    CopyOut(raw, output, length + 1);
    assert raw[..length + 1] == raw[..length] + [0];
    return LocaleOk;
  }

  /** The first two loops: leading space is passed over, then the name goes to the buffer. */
  method CopyName(input: Bytes, raw: array<byte>) returns (length: nat, tooLong: bool)
    requires raw.Length == LOCALE_CAPACITY
    modifies raw
    ensures tooLong <==> |RawName(input)| >= LOCALE_CAPACITY
    ensures !tooLong ==> length < LOCALE_CAPACITY && raw[..length] == RawName(input) && raw[length] == 0
  {
    var begin := SkipLeading(input);
    ghost var name := input[begin..];
    hide SkipSpaces;
    length, tooLong := CopyUntilStop(input, begin, raw);
    hide TakeName, Dashed, Copied, Stop;
    if tooLong {
      LongName(name, raw[..length]);
    } else {
      NameCopied(name, raw[..length]);
    }
  }

  /** The copying loop: it ends at a stop, or when the buffer is full and no stop was met. */
  method CopyUntilStop(input: Bytes, begin: nat, raw: array<byte>) returns (length: nat, tooLong: bool)
    requires begin <= |input| && raw.Length == LOCALE_CAPACITY
    modifies raw
    ensures length < LOCALE_CAPACITY && Copied(input[begin..], raw[..length])
    ensures tooLong ==> length == LOCALE_CAPACITY - 1 && begin + length < |input| && !Stop(input[begin..][length])
    ensures !tooLong ==> raw[length] == 0 && (length < |input[begin..]| ==> Stop(input[begin..][length]))
  {
    ghost var name := input[begin..];
    hide Copied, Stop;
    length := 0;
    ghost var done: Bytes := [];
    StartCopied(name);
    while begin + length < |input| && !Stop(input[begin + length])
      invariant length == |done| < LOCALE_CAPACITY && begin + length <= |input|
      invariant Copied(name, done) && raw[..length] == done
    {
      assert input[begin + length] == name[length];
      if length + 1 >= LOCALE_CAPACITY {
        return length, true;
      }
      MoreCopied(name, done);
      raw[length] := if input[begin + length] == UNDERSCORE then DASH else input[begin + length];
      done := done + [raw[length]];
      length := length + 1;
    }
    assert length < |name| ==> input[begin + length] == name[length];
    raw[length] := 0;
    assert raw[..length] == done;
    return length, false;
  }

  /** The front of a name, without a stop in it and with its underscores replaced. */
  predicate Copied(name: Bytes, part: Bytes) {
    && |part| <= |name|
    && (forall k :: 0 <= k < |part| ==> !Stop(name[k]))
    && (forall k :: 0 <= k < |part| ==> part[k] == if name[k] == UNDERSCORE then DASH else name[k])
  }

  lemma StartCopied(name: Bytes)
    ensures Copied(name, [])
  {
  }

  lemma MoreCopied(name: Bytes, part: Bytes)
    requires Copied(name, part) && |part| < |name| && !Stop(name[|part|])
    ensures Copied(name, part + [if name[|part|] == UNDERSCORE then DASH else name[|part|]])
  {
  }

  lemma NameCopied(name: Bytes, part: Bytes)
    requires Copied(name, part) && (|part| < |name| ==> Stop(name[|part|]))
    ensures part == Dashed(TakeName(name))
  {
    TakeNameIs(name, |part|);
  }

  lemma LongName(name: Bytes, part: Bytes)
    requires Copied(name, part) && |part| < |name| && !Stop(name[|part|])
    ensures |Dashed(TakeName(name))| > |part|
  {
    var r := TakeName(name);
    assert |r| < |name| ==> Stop(name[|r|]);
  }

  method SkipLeading(input: Bytes) returns (cursor: nat)
    ensures cursor <= |input| && input[cursor..] == SkipSpaces(input)
  {
    cursor := 0;
    while cursor < |input| && IsSpace(input[cursor])
      invariant 0 <= cursor <= |input|
      invariant SkipSpaces(input) == SkipSpaces(input[cursor..])
    {
      assert input[cursor..][1..] == input[cursor + 1..];
      cursor := cursor + 1;
    }
  }

  lemma RawLengthOf(cut: Bytes)
    requires RawParts(Split(cut), 0, false).Some?
    ensures var ps := RawParts(Split(cut), 0, false).value; ps != [] && |JoinParts(ps)| == |cut|
  {
    RawLength(Split(cut), 0, false);
    JoinSplit(cut);
  }

  /** memcpy. */
  method CopyOut(from: array<byte>, to: array<byte>, n: nat)
    requires from != to && n <= from.Length && n <= to.Length
    modifies to
    ensures to[..] == from[..n] + old(to[n..])
  {
    ghost var was := to[..];
    var i := 0;
    while i < n
      invariant 0 <= i <= n
      invariant forall k :: 0 <= k < to.Length ==> to[k] == if k < i then from[k] else was[k]
    {
      to[i] := from[i];
      i := i + 1;
    }
    assert old(to[n..]) == was[n..];
  }
}
