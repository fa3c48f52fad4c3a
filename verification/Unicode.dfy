/** Escapes of any Unicode text: written as `\uXXXX` and surrogate pairs, it is read
    as its UTF-8 encoding (RFC 8259, section 7; RFC 3629, section 3). */
module Unicode {
  import opened JsonValue
  import opened JsonGrammar
  import opened RoundTrip
  import opened StringSizing

  /** Scalar values without NUL, which would end the C string. */
  predicate Scalar(code: nat) {
    0 < code <= 0x10FFFF && !HighSurrogate(code) && !LowSurrogate(code)
  }

  predicate Scalars(codes: seq<nat>) {
    forall i :: 0 <= i < |codes| ==> Scalar(codes[i])
  }

  function UpperHexChar(d: int): char
    requires 0 <= d < 16
  {
    if d < 10 then ('0' as int + d) as char else ('A' as int + d - 10) as char
  }

  function HexText(d: int, upper: bool): char
    requires 0 <= d < 16
  {
    if upper then UpperHexChar(d) else HexChar(d)
  }

  /** Which digits of an escape are upper case; those behind the end are lower case. */
  predicate Upper(upper: seq<bool>, i: nat) {
    i < |upper| && upper[i]
  }

  function Later(upper: seq<bool>, k: nat): seq<bool> {
    if k <= |upper| then upper[k..] else []
  }

  /** `\uXXXX` for one UTF-16 code unit, each digit in its own letter case. */
  function UnitEscape(unit: nat, upper: seq<bool>): (e: string)
    requires unit < 0x10000
    ensures |e| == 6
  {
    "\\u" + [HexText(unit / 16 / 16 / 16, Upper(upper, 0)), HexText(unit / 16 / 16 % 16, Upper(upper, 1)),
             HexText(unit / 16 % 16, Upper(upper, 2)), HexText(unit % 16, Upper(upper, 3))]
  }

  /** One code unit, or the surrogate pair of a supplementary character. */
  function ScalarEscape(code: nat, upper: seq<bool>): (e: string)
    requires Scalar(code)
    ensures |e| == if code < 0x10000 then 6 else 12
  {
    if code < 0x10000 then UnitEscape(code, upper)
    else
      UnitEscape(0xD800 + (code - 0x10000) / 1024, upper) + UnitEscape(0xDC00 + (code - 0x10000) % 1024, Later(upper, 4))
  }

  function EscapeDigits(code: nat): nat {
    if code < 0x10000 then 4 else 8
  }

  function TextEscape(codes: seq<nat>, upper: seq<bool>): string
    requires Scalars(codes)
  {
    if codes == [] then "" else ScalarEscape(codes[0], upper) + TextEscape(codes[1..], Later(upper, EscapeDigits(codes[0])))
  }

  function Utf8Text(codes: seq<nat>): string
    requires Scalars(codes)
  {
    if codes == [] then "" else Utf8(codes[0]) + Utf8Text(codes[1..])
  }

  lemma HexTextDigit(d: int, upper: bool)
    requires 0 <= d < 16
    ensures HexDigit(HexText(d, upper)) == d
  {
  }

  lemma UnitRoundTrip(unit: nat, upper: seq<bool>)
    requires unit < 0x10000
    ensures Hex4(UnitEscape(unit, upper)[2..6]) == unit
  {
    var e := UnitEscape(unit, upper)[2..6];
    HexTextDigit(unit / 16 / 16 / 16, Upper(upper, 0));
    HexTextDigit(unit / 16 / 16 % 16, Upper(upper, 1));
    HexTextDigit(unit / 16 % 16, Upper(upper, 2));
    HexTextDigit(unit % 16, Upper(upper, 3));
    assert e == [HexText(unit / 16 / 16 / 16, Upper(upper, 0)), HexText(unit / 16 / 16 % 16, Upper(upper, 1)),
                 HexText(unit / 16 % 16, Upper(upper, 2)), HexText(unit % 16, Upper(upper, 3))];
  }

  /** The second pass reads one escaped character and writes its UTF-8 bytes. */
  lemma ScalarToken(code: nat, upper: seq<bool>, t: string, end: nat)
    requires Scalar(code) && end < |t|
    ensures var e := ScalarEscape(code, upper);
      Token(e + t, |e| + end) == (|e|, Utf8(code))
  {
    hide Utf8, Hex4, HexText;
    var e := ScalarEscape(code, upper);
    var s := e + t;
    if code < 0x10000 {
      UnitRoundTrip(code, upper);
      assert s[2..6] == e[2..6];
    } else {
      var high, low := 0xD800 + (code - 0x10000) / 1024, 0xDC00 + (code - 0x10000) % 1024;
      UnitRoundTrip(high, upper);
      UnitRoundTrip(low, Later(upper, 4));
      assert s[2..6] == UnitEscape(high, upper)[2..6];
      assert s[8..12] == UnitEscape(low, Later(upper, 4))[2..6];
    }
  }

  lemma {:induction false} UnescapeOfText(codes: seq<nat>, upper: seq<bool>, tail: string)
    requires Scalars(codes) && tail != ""
    ensures Unescape(TextEscape(codes, upper) + tail, |TextEscape(codes, upper)|) == Ok(Utf8Text(codes), tail)
  {
    hide Unescape, Utf8, ScalarEscape, Scalar;
    var s := TextEscape(codes, upper) + tail;
    if codes == [] {
      assert s == tail;
      UnescapeEnd(tail, 0);
    } else {
      var e := ScalarEscape(codes[0], upper);
      var more := TextEscape(codes[1..], Later(upper, EscapeDigits(codes[0])));
      UnescapeOfText(codes[1..], Later(upper, EscapeDigits(codes[0])), tail);
      assert s == e + (more + tail);
      UnescapeScalar(codes[0], upper, more + tail, |more|);
    }
  }

  lemma UnescapeScalar(code: nat, upper: seq<bool>, t: string, end: nat)
    requires Scalar(code) && end < |t|
    ensures var e := ScalarEscape(code, upper);
      Unescape(e + t, |e| + end) == Prepend(Utf8(code), Unescape(t, end))
  {
    hide Token, Utf8, ScalarEscape;
    var e := ScalarEscape(code, upper);
    ScalarToken(code, upper, t, end);
    assert (e + t)[|e|..] == t;
    UnescapeStep(e + t, |e| + end);
  }

  lemma {:induction false} ClosingQuoteOfText(codes: seq<nat>, upper: seq<bool>, tail: string)
    requires Scalars(codes) && tail != "" && tail[0] == QUOTE
    ensures ClosingQuote(TextEscape(codes, upper) + tail) == |TextEscape(codes, upper)|
  {
    hide Scalar, ScalarEscape, ClosingQuote, Room;
    if codes == [] {
      assert TextEscape(codes, upper) + tail == tail;
      NoMoreSteps(tail);
    } else {
      var more := TextEscape(codes[1..], Later(upper, EscapeDigits(codes[0]))) + tail;
      ClosingQuoteOfText(codes[1..], Later(upper, EscapeDigits(codes[0])), tail);
      assert TextEscape(codes, upper) + tail == ScalarEscape(codes[0], upper) + more;
      ClosingQuoteSkipsScalar(codes[0], upper, more);
    }
  }

  lemma ClosingQuoteSkipsScalar(code: nat, upper: seq<bool>, t: string)
    requires Scalar(code) && ClosingQuote(t) >= 0
    ensures ClosingQuote(ScalarEscape(code, upper) + t) == |ScalarEscape(code, upper)| + ClosingQuote(t)
  {
    hide UnitEscape, ClosingQuote;
    if code < 0x10000 {
      ClosingQuoteSkipsUnit(code, upper, t);
    } else {
      var high, low := 0xD800 + (code - 0x10000) / 1024, 0xDC00 + (code - 0x10000) % 1024;
      ClosingQuoteSkipsUnit(low, Later(upper, 4), t);
      ClosingQuoteSkipsUnit(high, upper, UnitEscape(low, Later(upper, 4)) + t);
      assert ScalarEscape(code, upper) + t == UnitEscape(high, upper) + (UnitEscape(low, Later(upper, 4)) + t);
    }
  }

  lemma ClosingQuoteSkipsUnit(unit: nat, upper: seq<bool>, t: string)
    requires unit < 0x10000 && ClosingQuote(t) >= 0
    ensures ClosingQuote(UnitEscape(unit, upper) + t) == 6 + ClosingQuote(t)
  {
    var e := UnitEscape(unit, upper);
    ClosingQuoteSkipsPlain(e[2..], t);
    assert (e + t)[2..] == e[2..] + t;
  }

  lemma {:induction false} TextNulFree(codes: seq<nat>, upper: seq<bool>)
    requires Scalars(codes)
    ensures NulFree(TextEscape(codes, upper)) && NulFree(Utf8Text(codes))
  {
    hide Scalar, Utf8, ScalarEscape;
    if codes != [] {
      TextNulFree(codes[1..], Later(upper, EscapeDigits(codes[0])));
      Utf8NulFree(codes[0]);
      ScalarNulFree(codes[0], upper);
    }
  }

  lemma UnitNulFree(unit: nat, upper: seq<bool>)
    requires unit < 0x10000
    ensures NulFree(UnitEscape(unit, upper))
  {
  }

  lemma ScalarNulFree(code: nat, upper: seq<bool>)
    requires Scalar(code)
    ensures NulFree(ScalarEscape(code, upper))
  {
    hide UnitEscape;
    if code < 0x10000 {
      UnitNulFree(code, upper);
    } else {
      UnitNulFree(0xD800 + (code - 0x10000) / 1024, upper);
      UnitNulFree(0xDC00 + (code - 0x10000) % 1024, Later(upper, 4));
    }
  }

  lemma Utf8NulFree(code: nat)
    requires Scalar(code)
    ensures NulFree(Utf8(code))
  {
  }

  /** Any sequence of scalar values, escaped between quotes, is read as its UTF-8 text,
      whatever mix of letter cases the digits are in. */
  lemma EscapedTextParses(codes: seq<nat>, upper: seq<bool>, rest: string)
    requires Scalars(codes) && Terminated(rest)
    ensures var s := [QUOTE] + TextEscape(codes, upper) + [QUOTE] + rest;
      Terminated(s) && ParseString(s) == Ok(Utf8Text(codes), rest)
  {
    hide TextEscape, Utf8Text, Unescape, ClosingQuote, Scalar;
    var e := TextEscape(codes, upper);
    var quoted := [QUOTE] + e + [QUOTE];
    TextNulFree(codes, upper);
    TerminatedAppend(quoted, rest);
    var s, tail := quoted + rest, [QUOTE] + rest;
    assert s[1..] == e + tail;
    ClosingQuoteOfText(codes, upper, tail);
    UnescapeOfText(codes, upper, tail);
    assert s[|e| + 2..] == rest;
  }

  // ----- UTF-8 is decodable

  function Continuation(c: char): (x: int)
    ensures -1 <= x < 64
  {
    if 0x80 <= c as int < 0xC0 then c as int - 0x80 else -1
  }

  /** The code point that starts `s` (RFC 3629, section 3) and its length, or length 0.
      Overlong forms, surrogates and values above 0x10FFFF are invalid. */
  function DecodeUtf8(s: string): (r: (nat, nat))
    requires s != ""
  {
    var b := s[0] as int;
    if b < 0x80 then (1, b)
    else if 0xC2 <= b < 0xE0 && |s| >= 2 && Continuation(s[1]) >= 0 then
      (2, (b - 0xC0) * 64 + Continuation(s[1]))
    else if 0xE0 <= b < 0xF0 && |s| >= 3 && Continuation(s[1]) >= 0 && Continuation(s[2]) >= 0 then
      var code := ((b - 0xE0) * 64 + Continuation(s[1])) * 64 + Continuation(s[2]);
      if code < 0x800 || 0xD800 <= code <= 0xDFFF then (0, 0) else (3, code)
    else if 0xF0 <= b < 0xF5 && |s| >= 4 &&
            Continuation(s[1]) >= 0 && Continuation(s[2]) >= 0 && Continuation(s[3]) >= 0 then
      var code := (((b - 0xF0) * 64 + Continuation(s[1])) * 64 + Continuation(s[2])) * 64 + Continuation(s[3]);
      if code < 0x10000 || code > 0x10FFFF then (0, 0) else (4, code)
    else (0, 0)
  }

  lemma Utf8Decodes(code: nat, rest: string)
    requires Scalar(code)
    ensures DecodeUtf8(Utf8(code) + rest) == (|Utf8(code)|, code)
  {
    var s := Utf8(code) + rest;
    assert forall i :: 0 <= i < |Utf8(code)| ==> s[i] == Utf8(code)[i];
  }

  /** The bytes determine the characters. */
  lemma {:induction false} Utf8TextInjective(a: seq<nat>, b: seq<nat>)
    requires Scalars(a) && Scalars(b) && Utf8Text(a) == Utf8Text(b)
    ensures a == b
  {
    hide Utf8, DecodeUtf8;
    if a != [] && b != [] {
      Utf8Decodes(a[0], Utf8Text(a[1..]));
      Utf8Decodes(b[0], Utf8Text(b[1..]));
      assert Utf8Text(a)[|Utf8(a[0])|..] == Utf8Text(a[1..]);
      assert Utf8Text(b)[|Utf8(b[0])|..] == Utf8Text(b[1..]);
      Utf8TextInjective(a[1..], b[1..]);
      assert a == [a[0]] + a[1..] && b == [b[0]] + b[1..];
    }
  }
}
