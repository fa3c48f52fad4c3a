/** What the recursive-descent parser computes, on the NUL-terminated text that
    is left to read: the value and the text after it, or the place of the error. */
module JsonGrammar {
  import opened JsonNumber
  import opened JsonValue

  datatype Parsed<+T> = Ok(value: T, rest: string) | Err(at: string)

  /** Text as the parse buffer sees it: one NUL, at the end. */
  predicate Terminated(s: string) {
    s != "" && s[|s| - 1] == '\0' && NulFree(s[..|s| - 1])
  }

  /** The text after its first `k` characters, the NUL excepted. */
  function From(s: string, k: nat): (r: string)
    requires Terminated(s) && k < |s|
    ensures Terminated(r) && |r| == |s| - k
  {
    assert s[k..][..|s| - k - 1] == s[..|s| - 1][k..];
    s[k..]
  }

  /** `buffer_skip_whitespace`: characters up to 32 are skipped; at the very end
      the cursor steps back on the last character. */
  function SkipWhitespace(s: string): (r: string)
    requires Terminated(s)
    ensures Terminated(r) && |r| <= |s|
  {
    if |s| > 1 && s[0] <= ' ' then SkipWhitespace(From(s, 1)) else s
  }

  /** First pass of `parse_string`: index of the closing quote, or -1. */
  function ClosingQuote(t: string): (k: int)
    ensures -1 <= k < |t|
    ensures k >= 0 ==> t[k] == QUOTE
    decreases |t|
  {
    if t == "" then -1
    else if t[0] == QUOTE then 0
    else
      var step := if t[0] == BACKSLASH then 2 else 1;
      if |t| < step then -1
      else
        var k := ClosingQuote(t[step..]);
        if k < 0 then -1 else step + k
  }

  /** One digit of `parse_hex4`, or -1. */
  function HexDigit(c: char): (d: int)
    ensures -1 <= d < 16
  {
    if '0' <= c <= '9' then c as int - '0' as int
    else if 'A' <= c <= 'F' then 10 + (c as int - 'A' as int)
    else if 'a' <= c <= 'f' then 10 + (c as int - 'a' as int)
    else -1
  }

  /** `parse_hex4`: the number, or 0 when one of the four characters is no digit. */
  function Hex4(s: string): (h: nat)
    requires |s| >= 4
    ensures h < 0x10000
  {
    var a, b, c, d := HexDigit(s[0]), HexDigit(s[1]), HexDigit(s[2]), HexDigit(s[3]);
    if a < 0 || b < 0 || c < 0 || d < 0 then 0 else 16 * (16 * (16 * a + b) + c) + d
  }

  /** UTF-8 of a code point (RFC 3629, section 3).  Defined for surrogates too. */
  function Utf8(code: nat): (u: string)
    requires code <= 0x10FFFF
    ensures 1 <= |u| <= 4
  {
    if code < 0x80 then [code as char]
    else if code < 0x800 then [(0xC0 + code / 64) as char, (0x80 + code % 64) as char]
    else if code < 0x10000 then
      [(0xE0 + code / 64 / 64) as char, (0x80 + code / 64 % 64) as char, (0x80 + code % 64) as char]
    else
      [(0xF0 + code / 64 / 64 / 64) as char, (0x80 + code / 64 / 64 % 64) as char,
       (0x80 + code / 64 % 64) as char, (0x80 + code % 64) as char]
  }

  predicate HighSurrogate(code: nat) {
    0xD800 <= code <= 0xDBFF
  }

  predicate LowSurrogate(code: nat) {
    0xDC00 <= code <= 0xDFFF
  }

  /** `utf16_literal_to_utf8` on text starting with a backslash and 'u', of which
      `end` characters come before the closing quote: characters consumed (0 for
      an error) and the UTF-8 bytes. */
  function Utf16Literal(t: string, end: int): (r: (nat, string))
    requires end <= |t|
    ensures (r.0 == 0 && r.1 == "") || (r.0 == 6 && |r.1| <= 3) || (r.0 == 12 && |r.1| <= 4)
    ensures r.0 <= end || r.0 == 0
  {
    if end < 6 then (0, "")
    else
      var first := Hex4(t[2..6]);
      if LowSurrogate(first) then (0, "")
      else if HighSurrogate(first) then
        if end < 12 || t[6] != BACKSLASH || t[7] != 'u' then (0, "")
        else
          var second := Hex4(t[8..12]);
          if !LowSurrogate(second) then (0, "")
          else (12, Utf8(0x10000 + (first - 0xD800) * 1024 + (second - 0xDC00)))
      else (6, Utf8(first))
  }

  /** The character a two-character escape stands for, if there is one. */
  function Unescaped(c: char): (u: seq<char>)
    ensures |u| <= 1
  {
    if c == 'b' then ['\U{8}']
    else if c == 'f' then ['\U{c}']
    else if c == 'n' then ['\n']
    else if c == 'r' then ['\r']
    else if c == 't' then ['\t']
    else if c == QUOTE || c == BACKSLASH || c == '/' then [c]
    else []
  }

  /** One turn of the second pass of `parse_string`, `end` characters before the
      closing quote: characters read (0 for an invalid escape) and bytes written. */
  function Token(t: string, end: int): (r: (nat, string))
    requires 0 < end < |t|
    ensures r.0 <= end + 1 && |r.1| <= 4 && (r.0 == 0 ==> r.1 == "")
  {
    if t[0] != BACKSLASH then (1, [t[0]])
    else if t[1] == 'u' then Utf16Literal(t, end)
    else if Unescaped(t[1]) == [] then (0, "")
    else (2, Unescaped(t[1]))
  }

  /** Second pass of `parse_string`: the bytes written while the read pointer is
      before the closing quote `t[end]`.  It may stop one past that quote. */
  function Unescape(t: string, end: int): (r: Parsed<string>)
    requires end < |t|
    decreases end
  {
    if end <= 0 then Ok("", t)
    else
      var token := Token(t, end);
      if token.0 == 0 then Err(t) else Prepend(token.1, Unescape(t[token.0..], end - token.0))
  }

  function Prepend(head: string, r: Parsed<string>): Parsed<string> {
    match r
    case Ok(out, rest) => Ok(head + out, rest)
    case Err(at) => Err(at)
  }

  /** The C string in a character buffer: what precedes the first NUL. */
  function CString(s: string): (c: string)
    ensures c <= s && NulFree(c)
    ensures NulFree(s) ==> c == s
    ensures |c| < |s| ==> s[|c|] == '\0'
  {
    if s == "" || s[0] == '\0' then "" else [s[0]] + CString(s[1..])
  }

  function ParseString(s: string): (r: Parsed<string>)
    requires Terminated(s)
    ensures r.Ok? ==> Terminated(r.rest) && |r.rest| < |s|
  {
    if s[0] != QUOTE then Err(s[1..])
    else
      var body := s[1..];
      var end := ClosingQuote(body);
      if end < 0 then Err(body)
      else
        match Unescape(body, end)
        case Err(at) => Err(at)
        case Ok(out, _) => Ok(CString(out), From(s, end + 2))
  }

  function ParseNumber(s: string): (r: Parsed<Json>)
    requires Terminated(s)
    ensures r.Ok? ==> Terminated(r.rest) && |r.rest| < |s|
  {
    var x := Strtod(NumericPrefix(s, 63));
    if x.0 == 0 then Err(s) else Ok(Number(x.1), From(s, x.0))
  }

  function ParseValue(s: string, depth: nat): (r: Parsed<Json>)
    requires Terminated(s)
    ensures r.Ok? ==> Terminated(r.rest) && |r.rest| < |s|
    decreases |s|, 2
  {
    if "null" <= s then Ok(Null, From(s, 4))
    else if "false" <= s then Ok(Bool(false), From(s, 5))
    else if "true" <= s then Ok(Bool(true), From(s, 4))
    else if s[0] == QUOTE then
      match ParseString(s)
      case Ok(str, rest) => Ok(String(str), rest)
      case Err(at) => Err(at)
    else if s[0] == '-' || IsDigit(s[0]) then ParseNumber(s)
    else if s[0] == '[' then ParseArray(s, depth)
    else if s[0] == '{' then ParseObject(s, depth)
    else Err(s)
  }

  function ParseArray(s: string, depth: nat): (r: Parsed<Json>)
    requires Terminated(s) && s[0] == '['
    ensures r.Ok? ==> Terminated(r.rest) && |r.rest| < |s|
    decreases |s|, 1
  {
    if depth >= NESTING_LIMIT then Err(s)
    else
      var inner := SkipWhitespace(From(s, 1));
      if inner[0] == ']' then Ok(Array([]), From(inner, 1))
      else
        match ParseElements(inner, depth + 1)
        case Ok(items, rest) => Ok(Array(items), rest)
        case Err(at) => Err(at)
  }

  function ParseElements(s: string, depth: nat): (r: Parsed<seq<Json>>)
    requires Terminated(s)
    ensures r.Ok? ==> Terminated(r.rest) && |r.rest| < |s|
    decreases |s|, 3
  {
    match ParseValue(s, depth)
    case Err(at) => Err(at)
    case Ok(v, after) =>
      var rest := SkipWhitespace(after);
      if rest[0] == ',' then
        match ParseElements(SkipWhitespace(From(rest, 1)), depth)
        case Ok(more, end) => Ok([v] + more, end)
        case Err(at) => Err(at)
      else if rest[0] == ']' then Ok([v], From(rest, 1))
      else Err(rest)
  }

  function ParseObject(s: string, depth: nat): (r: Parsed<Json>)
    requires Terminated(s) && s[0] == '{'
    ensures r.Ok? ==> Terminated(r.rest) && |r.rest| < |s|
    decreases |s|, 1
  {
    if depth >= NESTING_LIMIT then Err(s)
    else
      var inner := SkipWhitespace(From(s, 1));
      if inner[0] == '}' then Ok(Object([]), From(inner, 1))
      else
        match ParseMembers(inner, depth + 1)
        case Ok(members, rest) => Ok(Object(members), rest)
        case Err(at) => Err(at)
  }

  function ParseMembers(s: string, depth: nat): (r: Parsed<seq<Member>>)
    requires Terminated(s)
    ensures r.Ok? ==> Terminated(r.rest) && |r.rest| < |s|
    decreases |s|, 3
  {
    match ParseMember(s, depth)
    case Err(at) => Err(at)
    case Ok(m, after) =>
      var rest := SkipWhitespace(after);
      if rest[0] == ',' then
        match ParseMembers(SkipWhitespace(From(rest, 1)), depth)
        case Ok(more, end) => Ok([m] + more, end)
        case Err(at) => Err(at)
      else if rest[0] == '}' then Ok([m], From(rest, 1))
      else Err(rest)
  }

  function ParseMember(s: string, depth: nat): (r: Parsed<Member>)
    requires Terminated(s)
    ensures r.Ok? ==> Terminated(r.rest) && |r.rest| < |s|
    decreases |s|, 2
  {
    match ParseString(s)
    case Err(at) => Err(at)
    case Ok(key, after) =>
      var rest := SkipWhitespace(after);
      if rest[0] != ':' then Err(rest)
      else
        match ParseValue(SkipWhitespace(From(rest, 1)), depth)
        case Ok(v, end) => Ok(Member(key, v), end)
        case Err(at) => Err(at)
  }

  /** `skip_utf8_bom` at the start of the buffer. */
  function SkipBom(s: string): (r: string)
    requires Terminated(s)
    ensures Terminated(r) && |r| <= |s|
  {
    if |s| > 4 && "\U{EF}\U{BB}\U{BF}" <= s then From(s, 3) else s
  }

  /** `cJSON_ParseWithOpts` on a buffer; `whole` asks for nothing but whitespace after
      the value. */
  function ParseContent(content: string, whole: bool): (r: Parsed<Json>)
    requires Terminated(content)
  {
    match ParseValue(SkipWhitespace(SkipBom(content)), 0)
    case Err(at) => Err(at)
    case Ok(v, rest) =>
      if !whole then Ok(v, rest)
      else
        var end := SkipWhitespace(rest);
        if end[0] == '\0' then Ok(v, end) else Err(end)
  }

  /** The same on a C string: the buffer includes its NUL. */
  function ParseText(text: string, whole: bool): (r: Parsed<Json>)
    requires NulFree(text)
  {
    assert (text + "\0")[..|text|] == text;
    ParseContent(text + "\0", whole)
  }

  // ----- lists of elements or members, from the loop's point of view

  function PrependAll<T>(head: seq<T>, r: Parsed<seq<T>>): Parsed<seq<T>> {
    match r
    case Ok(tail, rest) => Ok(head + tail, rest)
    case Err(at) => Err(at)
  }

  lemma PrependAllStep<T>(head: seq<T>, x: T, r: Parsed<seq<T>>)
    ensures PrependAll(head, PrependAll([x], r)) == PrependAll(head + [x], r)
  {
    if r.Ok? {
      assert head + ([x] + r.value) == head + [x] + r.value;
    }
  }

  lemma PrependAllNothing<T>(r: Parsed<seq<T>>)
    ensures PrependAll([], r) == r
  {
    if r.Ok? {
      assert [] + r.value == r.value;
    }
  }

  lemma {:induction false} SkipTwice(s: string)
    requires Terminated(s)
    ensures SkipWhitespace(SkipWhitespace(s)) == SkipWhitespace(s)
  {
    if |s| > 1 && s[0] <= ' ' {
      SkipTwice(From(s, 1));
    }
  }

  /** One turn of the loop of `parse_array`, by how it ends. */
  lemma ElementsTurn(s: string, depth: nat)
    requires Terminated(s)
    ensures var v := ParseValue(s, depth);
      ParseElements(s, depth) ==
        if v.Err? then Err(v.at)
        else
          var rest := SkipWhitespace(v.rest);
          if rest[0] == ',' then
            PrependAll([v.value], ParseElements(SkipWhitespace(From(rest, 1)), depth))
          else if rest[0] == ']' then Ok([v.value], From(rest, 1))
          else Err(rest)
  {
  }

  /** One turn of the loop of `parse_object`. */
  lemma MembersTurn(s: string, depth: nat)
    requires Terminated(s)
    ensures var m := ParseMember(s, depth);
      ParseMembers(s, depth) ==
        if m.Err? then Err(m.at)
        else
          var rest := SkipWhitespace(m.rest);
          if rest[0] == ',' then
            PrependAll([m.value], ParseMembers(SkipWhitespace(From(rest, 1)), depth))
          else if rest[0] == '}' then Ok([m.value], From(rest, 1))
          else Err(rest)
  {
  }

  lemma MemberTurn(s: string, depth: nat)
    requires Terminated(s)
    ensures var key := ParseString(s);
      ParseMember(s, depth) ==
        if key.Err? then Err(key.at)
        else
          var rest := SkipWhitespace(key.rest);
          if rest[0] != ':' then Err(rest)
          else
            var v := ParseValue(SkipWhitespace(From(rest, 1)), depth);
            if v.Ok? then Ok(Member(key.value, v.value), v.rest) else Err(v.at)
  {
  }

  lemma ArrayTurn(s: string, depth: nat)
    requires Terminated(s) && s[0] == '['
    ensures ParseArray(s, depth) ==
      if depth >= NESTING_LIMIT then Err(s)
      else
        var inner := SkipWhitespace(From(s, 1));
        if inner[0] == ']' then Ok(Array([]), From(inner, 1))
        else
          var r := ParseElements(inner, depth + 1);
          if r.Ok? then Ok(Array(r.value), r.rest) else Err(r.at)
  {
  }

  lemma ObjectTurn(s: string, depth: nat)
    requires Terminated(s) && s[0] == '{'
    ensures ParseObject(s, depth) ==
      if depth >= NESTING_LIMIT then Err(s)
      else
        var inner := SkipWhitespace(From(s, 1));
        if inner[0] == '}' then Ok(Object([]), From(inner, 1))
        else
          var r := ParseMembers(inner, depth + 1);
          if r.Ok? then Ok(Object(r.value), r.rest) else Err(r.at)
  {
  }
}
