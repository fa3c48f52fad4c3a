/** Reading back what the printer wrote gives the value that was printed. */
module RoundTrip {
  import opened JsonNumber
  import opened JsonValue
  import opened JsonGrammar
  import opened JsonText

  /** Text that may follow a value: it does not continue a number. */
  predicate Delimited(rest: string) {
    Terminated(rest) && rest[0] in ",]}\n\0"
  }

  lemma TerminatedAppend(s: string, rest: string)
    requires NulFree(s) && Terminated(rest)
    ensures Terminated(s + rest)
  {
    assert (s + rest)[..|s + rest| - 1] == s + rest[..|rest| - 1];
  }

  // ----- strings

  /** The first pass finds the quote that ends an escaped string. */
  lemma {:induction false} ClosingQuoteOfEscape(s: string, tail: string)
    requires tail != "" && tail[0] == QUOTE
    ensures ClosingQuote(Escape(s) + tail) == |Escape(s)|
  {
    hide EscapeChar;
    if s == "" {
      assert Escape(s) + tail == tail;
    } else {
      var more := Escape(s[1..]) + tail;
      ClosingQuoteOfEscape(s[1..], tail);
      assert Escape(s) + tail == EscapeChar(s[0]) + more;
      ClosingQuoteSkips(s[0], more);
    }
  }

  lemma ClosingQuoteSkips(c: char, t: string)
    requires ClosingQuote(t) >= 0
    ensures ClosingQuote(EscapeChar(c) + t) == |EscapeChar(c)| + ClosingQuote(t)
  {
    var e := EscapeChar(c);
    if |e| == 1 {
      ClosingQuoteSkipsPlain(e, t);
    } else {
      var p := e[2..];
      ClosingQuoteSkipsPlain(p, t);
      assert (e + t)[2..] == p + t;
    }
  }

  lemma {:induction false} ClosingQuoteSkipsPlain(p: string, t: string)
    requires QUOTE !in p && BACKSLASH !in p && ClosingQuote(t) >= 0
    ensures ClosingQuote(p + t) == |p| + ClosingQuote(t)
  {
    if p == "" {
      assert p + t == t;
    } else {
      assert (p + t)[1..] == p[1..] + t;
      ClosingQuoteSkipsPlain(p[1..], t);
    }
  }

  lemma HexRoundTrip(d: int)
    requires 0 <= d < 16
    ensures HexDigit(HexChar(d)) == d
  {
  }

  lemma TokenOfEscape(c: char, t: string, end: nat)
    requires end < |t| && c != '\0'
    ensures Token(EscapeChar(c) + t, |EscapeChar(c)| + end) == (|EscapeChar(c)|, [c])
  {
    var e := EscapeChar(c);
    var s := e + t;
    if |e| > 2 {
      assert s[2..6] == e[2..6] == ['0', '0', e[4], e[5]];
      HexRoundTrip(c as int / 16);
      HexRoundTrip(c as int % 16);
      assert Hex4(s[2..6]) == c as int;
    }
  }

  lemma UnescapeChar(c: char, t: string, end: nat)
    requires end < |t| && c != '\0'
    ensures Unescape(EscapeChar(c) + t, |EscapeChar(c)| + end) == Prepend([c], Unescape(t, end))
  {
    hide Token, EscapeChar;
    var e := EscapeChar(c);
    TokenOfEscape(c, t, end);
    assert (e + t)[|e|..] == t;
  }

  /** Unescaping an escaped string gives it back. */
  lemma {:induction false} UnescapeOfEscape(s: string, tail: string)
    requires NulFree(s) && tail != ""
    ensures Unescape(Escape(s) + tail, |Escape(s)|) == Ok(s, tail)
  {
    hide EscapeChar, Utf16Literal, Unescaped;
    if s == "" {
      assert Escape(s) + tail == tail;
    } else {
      var more := Escape(s[1..]);
      UnescapeOfEscape(s[1..], tail);
      assert Escape(s) + tail == EscapeChar(s[0]) + (more + tail);
      UnescapeChar(s[0], more + tail, |more|);
      assert [s[0]] + s[1..] == s;
    }
  }

  /** `parse_string` reads back unchanged what `print_string_ptr` writes. */
  lemma StringRoundTrip(s: string, rest: string)
    requires NulFree(s) && Terminated(rest)
    ensures NulFree(Quote(s)) && Terminated(Quote(s) + rest)
    ensures ParseString(Quote(s) + rest) == Ok(s, rest)
  {
    hide Escape, EscapeChar, Unescape, ClosingQuote;
    EscapeNulFree(s);
    TerminatedAppend(Quote(s), rest);
    var text := Quote(s) + rest;
    var tail := [QUOTE] + rest;
    assert text[1..] == Escape(s) + tail;
    ClosingQuoteOfEscape(s, tail);
    UnescapeOfEscape(s, tail);
    assert text[|Escape(s)| + 2..] == rest;
  }

  // ----- numbers

  lemma NumberRoundTrip(x: real, rest: string)
    requires PlainInteger(x) && Delimited(rest)
    ensures NulFree(Decimal(x.Floor)) && Terminated(Decimal(x.Floor) + rest)
    ensures ParseNumber(Decimal(x.Floor) + rest) == Ok(Number(x), rest)
  {
    var d := Decimal(x.Floor);
    DecimalText(x.Floor);
    TerminatedAppend(d, rest);
    NumericPrefixStops(d, rest, 63);
    StrtodDecimal(x.Floor);
    assert (d + rest)[|d|..] == rest;
  }

  // ----- the parser, one step at a time

  /** Leading blanks do not change where skipping stops. */
  lemma {:induction false} SkipLeadingBlanks(blank: string, rest: string)
    requires Blank(blank) && Terminated(rest)
    ensures Terminated(blank + rest) && SkipWhitespace(blank + rest) == SkipWhitespace(rest)
  {
    TerminatedAppend(blank, rest);
    if blank == "" {
      assert blank + rest == rest;
    } else {
      assert (blank + rest)[1..] == blank[1..] + rest;
      SkipLeadingBlanks(blank[1..], rest);
    }
  }

  predicate Blank(s: string) {
    NulFree(s) && forall i :: 0 <= i < |s| ==> s[i] <= ' '
  }

  lemma SkipNothing(s: string)
    requires Terminated(s) && s[0] > ' '
    ensures SkipWhitespace(s) == s
  {
  }

  lemma ElementsStep(s: string, depth: nat, v: Json, after: string, next: string, more: seq<Json>, end: string)
    requires Terminated(s) && ParseValue(s, depth) == Ok(v, after)
    requires Terminated(after) && after[0] == ',' && next == SkipWhitespace(From(after, 1))
    requires ParseElements(next, depth) == Ok(more, end)
    ensures ParseElements(s, depth) == Ok([v] + more, end)
  {
    hide ParseValue, Terminated;
    SkipNothing(after);
  }

  lemma ElementsEnd(s: string, depth: nat, v: Json, after: string)
    requires Terminated(s) && ParseValue(s, depth) == Ok(v, after)
    requires Terminated(after) && after[0] == ']'
    ensures ParseElements(s, depth) == Ok([v], From(after, 1))
  {
    hide ParseValue, Terminated;
    SkipNothing(after);
  }

  lemma MembersStep(s: string, depth: nat, m: Member, after: string, next: string, more: seq<Member>, end: string)
    requires Terminated(s) && ParseMember(s, depth) == Ok(m, after)
    requires Terminated(after) && after[0] == ',' && next == SkipWhitespace(From(after, 1))
    requires ParseMembers(next, depth) == Ok(more, end)
    ensures ParseMembers(s, depth) == Ok([m] + more, end)
  {
    hide ParseMember, Terminated;
    SkipNothing(after);
  }

  lemma MembersEnd(s: string, depth: nat, m: Member, after: string, brace: string)
    requires Terminated(s) && ParseMember(s, depth) == Ok(m, after)
    requires Terminated(after) && SkipWhitespace(after) == brace && brace[0] == '}'
    ensures ParseMembers(s, depth) == Ok([m], From(brace, 1))
  {
    hide ParseMember, Terminated;
  }

  lemma MemberStep(s: string, depth: nat, m: Member, after: string, value: string, end: string)
    requires Terminated(s) && ParseString(s) == Ok(m.key, after)
    requires Terminated(after) && after[0] == ':' && value == SkipWhitespace(From(after, 1))
    requires ParseValue(value, depth) == Ok(m.value, end)
    ensures ParseMember(s, depth) == Ok(m, end)
  {
    hide ParseString, ParseValue, Terminated;
    SkipNothing(after);
  }

  // ----- values

  /** Parsing the text of a value gives the value and stops after it. */
  lemma {:induction false} ValueRoundTrip(v: Json, format: bool, indent: nat, depth: nat, rest: string)
    requires Printable(v) && Delimited(rest) && depth + Nesting(v) <= NESTING_LIMIT
    ensures Terminated(Render(v, format, indent) + rest)
    ensures ParseValue(Render(v, format, indent) + rest, depth) == Ok(v, rest)
    decreases v, 2
  {
    RenderNulFree(v, format, indent);
    TerminatedAppend(Render(v, format, indent), rest);
    match v
    case Null => KeywordRoundTrip(v, format, indent, depth, rest);
    case Bool(_) => KeywordRoundTrip(v, format, indent, depth, rest);
    case Number(n) => NumberValue(n, format, indent, depth, rest);
    case String(str) => StringValue(str, format, indent, depth, rest);
    case Array(items) => ArrayRoundTrip(items, format, indent, depth, rest);
    case Object(members) => ObjectRoundTrip(members, format, indent, depth, rest);
  }

  lemma KeywordRoundTrip(v: Json, format: bool, indent: nat, depth: nat, rest: string)
    requires (v.Null? || v.Bool?) && Terminated(rest)
    ensures Terminated(Render(v, format, indent) + rest)
    ensures ParseValue(Render(v, format, indent) + rest, depth) == Ok(v, rest)
  {
    hide NulFree, ParseString, ParseNumber, ParseArray, ParseObject;
    var r := Render(v, format, indent);
    RenderNulFree(v, format, indent);
    TerminatedAppend(r, rest);
    assert (r + rest)[0] == r[0];
    assert (r + rest)[|r|..] == rest;
  }

  lemma NumberValue(n: real, format: bool, indent: nat, depth: nat, rest: string)
    requires PlainInteger(n) && Delimited(rest)
    ensures Terminated(Render(Number(n), format, indent) + rest)
    ensures ParseValue(Render(Number(n), format, indent) + rest, depth) == Ok(Number(n), rest)
  {
    hide NulFree, ParseString, ParseNumber, ParseArray, ParseObject, Decimal;
    NumberRoundTrip(n, rest);
    DecimalText(n.Floor);
    assert (Decimal(n.Floor) + rest)[0] == Decimal(n.Floor)[0];
  }

  lemma StringValue(s: string, format: bool, indent: nat, depth: nat, rest: string)
    requires NulFree(s) && Terminated(rest)
    ensures Terminated(Render(String(s), format, indent) + rest)
    ensures ParseValue(Render(String(s), format, indent) + rest, depth) == Ok(String(s), rest)
  {
    hide Escape, ParseString, ParseNumber, ParseArray, ParseObject;
    StringRoundTrip(s, rest);
    assert (Quote(s) + rest)[0] == QUOTE;
  }

  lemma {:induction false} ArrayRoundTrip(items: seq<Json>, format: bool, indent: nat, depth: nat, rest: string)
    requires PrintableItems(items) && Delimited(rest) && depth + 1 + NestingItems(items) <= NESTING_LIMIT
    ensures Terminated(Render(Array(items), format, indent) + rest)
    ensures ParseValue(Render(Array(items), format, indent) + rest, depth) == Ok(Array(items), rest)
    decreases items, 1
  {
    hide ParseElements, RenderItems, Render, PrintableItems, NestingItems, NulFree;
    var tail := "]" + rest;
    TerminatedAppend("]", rest);
    assert tail[1..] == rest;
    var body := RenderItems(items, format, indent + 1) + tail;
    ItemsRoundTrip(items, format, indent + 1, depth + 1, tail);
    ArrayText(items, format, indent, rest);
    var s := "[" + body;
    TerminatedAppend("[", body);
    assert s[1..] == body;
    SkipNothing(body);
    ArrayStep(s, depth, body, items, rest);
  }

  lemma ArrayStep(s: string, depth: nat, body: string, items: seq<Json>, rest: string)
    requires Terminated(s) && s[0] == '[' && depth < NESTING_LIMIT
    requires s[1..] == body && Terminated(body) && SkipWhitespace(body) == body
    requires if items == [] then body[0] == ']' && rest == From(body, 1)
             else body[0] != ']' && ParseElements(body, depth + 1) == Ok(items, rest)
    ensures ParseValue(s, depth) == Ok(Array(items), rest)
  {
    hide ParseElements, NulFree;
  }

  /** The elements up to and with the closing bracket that starts `tail`. */
  lemma {:induction false} ItemsRoundTrip(items: seq<Json>, format: bool, indent: nat, depth: nat, tail: string)
    requires PrintableItems(items) && depth + NestingItems(items) <= NESTING_LIMIT
    requires Terminated(tail) && tail[0] == ']'
    ensures var body := RenderItems(items, format, indent) + tail;
      Terminated(body) && body[0] > ' ' &&
      if items == [] then body == tail
      else body[0] != ']' && ParseElements(body, depth) == Ok(items, From(tail, 1))
    decreases items, 0
  {
    hide ParseValue, ParseElements, Render, Printable, Nesting, NulFree, SkipWhitespace;
    if items == [] {
      assert RenderItems(items, format, indent) + tail == tail;
    } else {
      var first := Render(items[0], format, indent);
      var next := RenderItems(items[1..], format, indent) + tail;
      ItemsRoundTrip(items[1..], format, indent, depth, tail);
      var after := Comma(format, |items| > 1) + next;
      if |items| == 1 {
        assert after == tail;
      } else {
        CommaText(format, next);
      }
      ValueRoundTrip(items[0], format, indent, depth, after);
      RenderHead(items[0], format, indent);
      assert (first + after)[0] == first[0];
      ItemsText(items, format, indent, tail);
      ItemsTailStep(first + after, items, depth, after, next, tail);
    }
  }

  lemma ItemsTailStep(s: string, items: seq<Json>, depth: nat, after: string, next: string, tail: string)
    requires items != [] && Terminated(s) && Terminated(next) && Terminated(tail) && Terminated(after)
    requires ParseValue(s, depth) == Ok(items[0], after) && tail[0] == ']'
    requires if |items| == 1 then after == tail
             else after[0] == ',' && SkipWhitespace(From(after, 1)) == next &&
                  ParseElements(next, depth) == Ok(items[1..], From(tail, 1))
    ensures ParseElements(s, depth) == Ok(items, From(tail, 1))
  {
    hide ParseValue, ParseElements, NulFree, SkipWhitespace;
    if |items| == 1 {
      assert [items[0]] == items;
      ElementsEnd(s, depth, items[0], after);
    } else {
      assert [items[0]] + items[1..] == items;
      ElementsStep(s, depth, items[0], after, next, items[1..], From(tail, 1));
    }
  }

  lemma CommaText(format: bool, next: string)
    requires Terminated(next) && next[0] > ' '
    ensures var after := Comma(format, true) + next;
      Terminated(after) && after[0] == ',' && SkipWhitespace(From(after, 1)) == next
  {
    hide SkipWhitespace;
    var comma := Comma(format, true);
    TerminatedAppend(comma, next);
    assert (comma + next)[1..] == comma[1..] + next;
    SkipLeadingBlanks(comma[1..], next);
    SkipNothing(next);
  }

  lemma {:induction false} ObjectRoundTrip(members: seq<Member>, format: bool, indent: nat, depth: nat, rest: string)
    requires PrintableMembers(members) && Delimited(rest) && depth + 1 + NestingMembers(members) <= NESTING_LIMIT
    ensures Terminated(Render(Object(members), format, indent) + rest)
    ensures ParseValue(Render(Object(members), format, indent) + rest, depth) == Ok(Object(members), rest)
    decreases members, 1
  {
    hide ParseMembers, RenderMembers, Render, PrintableMembers, NestingMembers, NulFree, SkipWhitespace;
    var open, tail := OpenBrace(format), CloseBrace(format, indent) + rest;
    CloseText(format, indent, rest);
    var body := RenderMembers(members, format, indent + 1) + tail;
    MembersRoundTrip(members, format, indent + 1, depth + 1, tail);
    ObjectText(members, format, indent, rest);
    var s := open + body;
    OpenText(format, body);
    ObjectStep(s, depth, SkipWhitespace(body), members, rest);
  }

  lemma CloseText(format: bool, indent: nat, rest: string)
    requires Terminated(rest)
    ensures var tail := CloseBrace(format, indent) + rest;
      Terminated(tail) && (format || tail[0] == '}') &&
      SkipWhitespace(tail) == "}" + rest && SkipWhitespace(tail)[1..] == rest
  {
    hide SkipWhitespace;
    var brace := "}" + rest;
    TerminatedAppend("}", rest);
    var blank := Indent(format, indent);
    assert CloseBrace(format, indent) + rest == blank + brace;
    SkipLeadingBlanks(blank, brace);
    SkipNothing(brace);
  }

  lemma OpenText(format: bool, body: string)
    requires Terminated(body)
    ensures var s := OpenBrace(format) + body;
      Terminated(s) && s[0] == '{' && SkipWhitespace(From(s, 1)) == SkipWhitespace(body)
  {
    hide SkipWhitespace;
    var open := OpenBrace(format);
    TerminatedAppend(open, body);
    assert (open + body)[1..] == open[1..] + body;
    SkipLeadingBlanks(open[1..], body);
  }

  lemma ObjectStep(s: string, depth: nat, body: string, members: seq<Member>, rest: string)
    requires Terminated(s) && s[0] == '{' && depth < NESTING_LIMIT
    requires SkipWhitespace(From(s, 1)) == body && Terminated(body)
    requires if members == [] then body[0] == '}' && rest == From(body, 1)
             else body[0] != '}' && ParseMembers(body, depth + 1) == Ok(members, rest)
    ensures ParseValue(s, depth) == Ok(Object(members), rest)
  {
    hide ParseMembers, SkipWhitespace, NulFree;
  }

  /** The members after the whitespace that leads to them, up to and with the
      closing brace that `tail` leads to. */
  lemma {:induction false} MembersRoundTrip(members: seq<Member>, format: bool, indent: nat, depth: nat, tail: string)
    requires PrintableMembers(members) && depth + NestingMembers(members) <= NESTING_LIMIT
    requires Terminated(tail) && (format || tail[0] == '}') && SkipWhitespace(tail)[0] == '}'
    ensures var text := RenderMembers(members, format, indent) + tail;
      Terminated(text) && var body := SkipWhitespace(text);
      if members == [] then text == tail
      else body[0] == QUOTE && ParseMembers(body, depth) == Ok(members, From(SkipWhitespace(tail), 1))
    decreases members, 0
  {
    hide ParseMember, ParseMembers, Render, Printable, Nesting, NulFree, SkipWhitespace, Quote;
    if members == [] {
      assert RenderMembers(members, format, indent) + tail == tail;
    } else {
      var m := members[0];
      var next := RenderMembers(members[1..], format, indent) + tail;
      MembersRoundTrip(members[1..], format, indent, depth, tail);
      var after := EndMember(format, |members| > 1) + next;
      EndText(format, |members| > 1, next);
      ValueRoundTrip(m.value, format, indent, depth, after);
      var member := Quote(m.key) + (Colon(format) + (Render(m.value, format, indent) + after));
      MemberRoundTrip(m, format, indent, after, depth);
      LeadText(format, indent, member);
      MembersText(members, format, indent, tail);
      MembersTailStep(member, members, format, depth, after, next, tail);
    }
  }

  lemma LeadText(format: bool, indent: nat, member: string)
    requires Terminated(member) && member[0] > ' '
    ensures Terminated(Indent(format, indent) + member)
    ensures SkipWhitespace(Indent(format, indent) + member) == member
  {
    hide SkipWhitespace;
    SkipLeadingBlanks(Indent(format, indent), member);
    SkipNothing(member);
  }

  lemma EndText(format: bool, more: bool, next: string)
    requires Terminated(next) && (format || more || next[0] == '}')
    ensures var after := EndMember(format, more) + next;
      Delimited(after) &&
      if more then after[0] == ',' && SkipWhitespace(From(after, 1)) == SkipWhitespace(next)
      else SkipWhitespace(after) == SkipWhitespace(next)
  {
    hide SkipWhitespace;
    var end := EndMember(format, more);
    TerminatedAppend(end, next);
    if more {
      assert (end + next)[1..] == end[1..] + next;
      SkipLeadingBlanks(end[1..], next);
    } else {
      SkipLeadingBlanks(end, next);
      assert !format ==> end + next == next;
    }
  }

  lemma MembersTailStep(
      s: string, members: seq<Member>, format: bool, depth: nat, after: string, next: string, tail: string)
    requires members != [] && Terminated(s) && Terminated(next) && Terminated(tail) && Terminated(after)
    requires SkipWhitespace(tail)[0] == '}'
    requires ParseMember(s, depth) == Ok(members[0], after)
    requires if |members| == 1 then next == tail && SkipWhitespace(after) == SkipWhitespace(next)
             else after[0] == ',' && SkipWhitespace(From(after, 1)) == SkipWhitespace(next) &&
                  ParseMembers(SkipWhitespace(next), depth) == Ok(members[1..], From(SkipWhitespace(tail), 1))
    ensures ParseMembers(s, depth) == Ok(members, From(SkipWhitespace(tail), 1))
  {
    hide ParseMember, ParseMembers, NulFree, SkipWhitespace;
    if |members| == 1 {
      assert [members[0]] == members;
      MembersEnd(s, depth, members[0], after, SkipWhitespace(tail));
    } else {
      assert [members[0]] + members[1..] == members;
      MembersStep(s, depth, members[0], after, SkipWhitespace(next), members[1..], From(SkipWhitespace(tail), 1));
    }
  }

  lemma MemberRoundTrip(m: Member, format: bool, indent: nat, after: string, depth: nat)
    requires NulFree(m.key) && Printable(m.value) && Terminated(after)
    requires Terminated(Render(m.value, format, indent) + after)
    requires ParseValue(Render(m.value, format, indent) + after, depth) == Ok(m.value, after)
    ensures var member := Quote(m.key) + (Colon(format) + (Render(m.value, format, indent) + after));
      Terminated(member) && member[0] == QUOTE && ParseMember(member, depth) == Ok(m, after)
  {
    hide Render, ParseValue, Escape, ParseMember, ParseString, NulFree, SkipWhitespace;
    var text := Render(m.value, format, indent) + after;
    RenderHead(m.value, format, indent);
    assert text[0] > ' ';
    var rest := Colon(format) + text;
    ColonText(format, text);
    StringRoundTrip(m.key, rest);
    MemberStep(Quote(m.key) + rest, depth, m, rest, text, after);
  }

  lemma ColonText(format: bool, text: string)
    requires Terminated(text) && text[0] > ' '
    ensures var rest := Colon(format) + text;
      Terminated(rest) && rest[0] == ':' && SkipWhitespace(From(rest, 1)) == text
  {
    hide SkipWhitespace;
    var colon := Colon(format);
    TerminatedAppend(colon, text);
    assert (colon + text)[1..] == colon[1..] + text;
    SkipLeadingBlanks(colon[1..], text);
    SkipNothing(text);
  }

  /** Printing and then parsing a whole text, in null-terminated mode. */
  lemma TextRoundTrip(v: Json, format: bool)
    requires Printable(v) && Nesting(v) <= NESTING_LIMIT
    ensures NulFree(Render(v, format, 0))
    ensures ParseText(Render(v, format, 0), true) == Ok(v, "\0")
  {
    hide Render, ParseValue, SkipWhitespace, Nesting, Printable;
    var s := Render(v, format, 0) + "\0";
    RenderNulFree(v, format, 0);
    ValueRoundTrip(v, format, 0, 0, "\0");
    RenderHead(v, format, 0);
    assert s[0] == Render(v, format, 0)[0];
    assert SkipBom(s) == s;
    SkipNothing(s);
    assert SkipWhitespace("\0") == "\0" by { SkipEnd(); }
  }

  lemma SkipEnd()
    ensures Terminated("\0") && SkipWhitespace("\0") == "\0"
  {
  }
}
