/** UTF-8: the encoder of both SDKs against RFC 3629, sections 3 and 4. */
module Utf8 {
  import opened Bytes

  /** A Unicode scalar value: a code point that is not a surrogate. */
  type Scalar = c: int | 0 <= c < 0xD800 || 0xE000 <= c < 0x110000

  /** A Python string without lone surrogates. */
  type Str = seq<Scalar>

  function Encode(c: int): (b: Bytes)
    requires 0 <= c < 0x110000
    ensures 1 <= |b| <= 4
    ensures c < 0x80 ==> b == [c]
    ensures c >= 0x80 ==> forall k :: 0 <= k < |b| ==> b[k] >= 0x80
  {
    if c <= 0x7F then [c]
    else if c <= 0x7FF then [0xC0 + c / 64, 0x80 + c % 64]
    else if c <= 0xFFFF then [0xE0 + c / 4096, 0x80 + c / 64 % 64, 0x80 + c % 64]
    else [0xF0 + c / 262144, 0x80 + c / 4096 % 64, 0x80 + c / 64 % 64, 0x80 + c % 64]
  }

  predicate Tail(b: byte) {
    0x80 <= b <= 0xBF
  }

  /** The four productions of a UTF8-char in section 4 of RFC 3629. */
  predicate IsUtf8Char(b: Bytes) {
    || (|b| == 1 && b[0] <= 0x7F)
    || (|b| == 2 && 0xC2 <= b[0] <= 0xDF && Tail(b[1]))
    || (|b| == 3 && Tail(b[2]) &&
        (|| (b[0] == 0xE0 && 0xA0 <= b[1] <= 0xBF)
         || (0xE1 <= b[0] <= 0xEC && Tail(b[1]))
         || (b[0] == 0xED && 0x80 <= b[1] <= 0x9F)
         || (0xEE <= b[0] <= 0xEF && Tail(b[1]))))
    || (|b| == 4 && Tail(b[2]) && Tail(b[3]) &&
        (|| (b[0] == 0xF0 && 0x90 <= b[1] <= 0xBF)
         || (0xF1 <= b[0] <= 0xF3 && Tail(b[1]))
         || (b[0] == 0xF4 && 0x80 <= b[1] <= 0x8F)))
  }

  /** The bits of an octet below its marker. */
  function Payload(b: byte, marker: int): int {
    b - marker
  }

  /** The number whose bits the octets carry, as the table in section 3 lays them out. */
  function Decode(b: Bytes): int
    requires IsUtf8Char(b)
  {
    if |b| == 1 then b[0]
    else if |b| == 2 then Payload(b[0], 0xC0) * 64 + Payload(b[1], 0x80)
    else if |b| == 3 then (Payload(b[0], 0xE0) * 64 + Payload(b[1], 0x80)) * 64 + Payload(b[2], 0x80)
    else ((Payload(b[0], 0xF0) * 64 + Payload(b[1], 0x80)) * 64 + Payload(b[2], 0x80)) * 64 + Payload(b[3], 0x80)
  }

  /** Every scalar value has a well-formed encoding that carries it. */
  lemma EncodeWellFormed(c: Scalar)
    ensures IsUtf8Char(Encode(c)) && Decode(Encode(c)) == c
  {
    assert c == c / 64 * 64 + c % 64;
    assert c / 64 == c / 4096 * 64 + c / 64 % 64;
    assert c / 4096 == c / 262144 * 64 + c / 4096 % 64;
  }

  lemma DecodeEncodesLong(b: Bytes)
    requires IsUtf8Char(b) && |b| == 4
    ensures var c := Decode(b); 0x10000 <= c < 0x110000 && Encode(c) == b
  {
    var c := Decode(b);
    var high := Payload(b[0], 0xF0) * 64 + Payload(b[1], 0x80);
    assert c / 64 == high * 64 + Payload(b[2], 0x80);
    assert c / 4096 == high;
    assert c / 262144 == Payload(b[0], 0xF0);
  }

  /** Every well-formed octet sequence is the encoding of the scalar value it carries. */
  lemma DecodeEncodes(b: Bytes)
    requires IsUtf8Char(b)
    ensures var c := Decode(b); (0 <= c < 0xD800 || 0xE000 <= c < 0x110000) && Encode(c) == b
  {
    if |b| == 3 {
      var c := Decode(b);
      assert c / 64 == Payload(b[0], 0xE0) * 64 + Payload(b[1], 0x80);
      assert c / 4096 == Payload(b[0], 0xE0);
    } else if |b| == 4 {
      DecodeEncodesLong(b);
    }
  }

  /** encode_utf8: the octets go to the front of a four-byte buffer. */
  method EncodeUtf8(codepoint: int, output: array<byte>) returns (count: nat)
    requires 0 <= codepoint < 0x110000 && output.Length == 4
    modifies output
    ensures count == |Encode(codepoint)| && output[..count] == Encode(codepoint)
  {
    if codepoint <= 0x7F {
      output[0] := codepoint;
      return 1;
    }
    if codepoint <= 0x7FF {
      output[0] := 0xC0 + codepoint / 64;
      output[1] := 0x80 + codepoint % 64;
      return 2;
    }
    if codepoint <= 0xFFFF {
      output[0] := 0xE0 + codepoint / 4096;
      output[1] := 0x80 + codepoint / 64 % 64;
      output[2] := 0x80 + codepoint % 64;
      return 3;
    }
    output[0] := 0xF0 + codepoint / 262144;
    output[1] := 0x80 + codepoint / 4096 % 64;
    output[2] := 0x80 + codepoint / 64 % 64;
    output[3] := 0x80 + codepoint % 64;
    assert output[..4] == [output[0], output[1], output[2], output[3]];
    return 4;
  }

  // ----- Strings -----

  /** The bytes of a Python string, as str.encode("utf-8") gives them. */
  function EncodeAll(s: Str): Bytes {
    if s == [] then [] else Encode(s[0]) + EncodeAll(s[1..])
  }

  predicate Ascii(s: seq<int>) {
    forall k :: 0 <= k < |s| ==> 0 <= s[k] < 0x80
  }

  lemma {:induction false} EncodeAllConcat(a: Str, b: Str)
    ensures EncodeAll(a + b) == EncodeAll(a) + EncodeAll(b)
    decreases a
  {
    if a == [] {
      assert a + b == b;
    } else {
      assert (a + b)[1..] == a[1..] + b;
      EncodeAllConcat(a[1..], b);
    }
  }

  /** ASCII text is its own encoding, and nothing else encodes to ASCII. */
  lemma {:induction false} EncodeAllAscii(s: Str)
    ensures Ascii(s) ==> EncodeAll(s) == s
    ensures Ascii(EncodeAll(s)) ==> Ascii(s)
    decreases s
  {
    if s != [] {
      EncodeAllAscii(s[1..]);
      var e := EncodeAll(s);
      assert e[|Encode(s[0])|..] == EncodeAll(s[1..]);
      if Ascii(s) {
        assert e == [s[0]] + s[1..];
      }
      if Ascii(e) {
        assert e[0] == Encode(s[0])[0];
        assert s[0] < 0x80;
      }
    }
  }

  lemma {:induction false} EncodeAllNul(s: Str)
    requires forall k :: 0 <= k < |s| ==> s[k] != 0
    ensures CString(EncodeAll(s))
    decreases s
  {
    if s != [] {
      EncodeAllNul(s[1..]);
    }
  }
}
