/** Unsigned 64-bit fields: msys_mipc_json_get_u64 and the PRIu64 conversion it reads back. */
module JsonIntegers {
  import opened Bytes
  import opened JsonAccess

  const U64_MAX := 0xFFFF_FFFF_FFFF_FFFF

  /** The number that decimal digits continue from `high`. */
  function Decimal(high: nat, ds: Bytes): (n: nat)
    requires Digits(ds)
    ensures n >= high
    decreases |ds|
  {
    if ds == [] then high else Decimal(high * 10 + (ds[0] - 48), ds[1..])
  }

  /** The value of a field text: digits only, and within 64 bits. */
  function U64Text(t: Bytes): Option<nat> {
    if t != [] && Digits(t) && Decimal(0, t) <= U64_MAX then Some(Decimal(0, t)) else None
  }

  method GetU64(s: Bytes, key: Bytes) returns (status: Status, value: nat)
    requires CString(s) && CString(key)
    ensures match Raw(s, key)
      case Failed(r) => status == r && value == 0
      case Value(t) =>
        match U64Text(t)
        case None => status == InvalidJson && value == 0
        case Some(n) => status == Success && value == n
  {
    var result, begin, span := GetRaw(s, key);
    if result != Success {
      return result, 0;
    }
    var t := s[begin..begin + span];
    if t[0] == DASH || !IsDigit(t[0]) {
      return InvalidJson, 0;
    }
    var parsed, inRange := ParseDigits(t);
    if !inRange {
      return InvalidJson, 0;
    }
    return Success, parsed;
  }

  /** The accumulating loop with its overflow guard; `inRange` is false on the two error returns. */
  method ParseDigits(t: Bytes) returns (parsed: nat, inRange: bool)
    ensures inRange <==> Digits(t) && Decimal(0, t) <= U64_MAX
    ensures inRange ==> parsed == Decimal(0, t)
  {
    parsed := 0;
    var cursor := 0;
    while cursor < |t| && IsDigit(t[cursor])
      invariant 0 <= cursor <= |t| && parsed <= U64_MAX
      invariant Digits(t[..cursor])
      invariant Digits(t) ==> Decimal(0, t) == Decimal(parsed, t[cursor..])
    {
      var digit := t[cursor] - 48;
      if parsed > (U64_MAX - digit) / 10 {
        assert Digits(t) ==> Decimal(0, t) == Decimal(parsed * 10 + digit, t[cursor..][1..]);
        return 0, false;
      }
      assert t[cursor..][1..] == t[cursor + 1..];
      parsed := parsed * 10 + digit;
      cursor := cursor + 1;
    }
    if cursor != |t| {
      return 0, false;
    }
    assert t[..cursor] == t && t[cursor..] == [];
    return parsed, true;
  }

  // ----- Printing -----

  /** The decimal digits of `n`, without leading zeros. */
  function DecimalText(n: nat): (t: Bytes)
    ensures t != [] && Digits(t) && (t[0] == ZERO ==> n == 0)
    ensures n < 10 ==> |t| == 1
  {
    if n < 10 then [48 + n] else DecimalText(n / 10) + [48 + n % 10]
  }

  lemma {:induction false} DecimalSplit(high: nat, a: Bytes, b: Bytes)
    requires Digits(a) && Digits(b)
    ensures Digits(a + b) && Decimal(high, a + b) == Decimal(Decimal(high, a), b)
    decreases |a|
  {
    if a == [] {
      assert a + b == b;
    } else {
      assert (a + b)[1..] == a[1..] + b;
      DecimalSplit(high * 10 + (a[0] - 48), a[1..], b);
    }
  }

  /** Printing a number and reading it back gives the number. */
  lemma {:induction false} DecimalRoundTrip(n: nat)
    ensures Decimal(0, DecimalText(n)) == n
  {
    if n < 10 {
      assert DecimalText(n)[1..] == [];
    } else {
      DecimalRoundTrip(n / 10);
      DecimalSplit(0, DecimalText(n / 10), [48 + n % 10]);
      assert [48 + n % 10][1..] == [];
    }
  }
}
