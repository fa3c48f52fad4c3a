/** What the parser keeps on every input: the cursor only moves forward inside the
    text, and nesting stays within the limit. */
module ParserLaws {
  import opened JsonValue
  import opened JsonGrammar
  import opened JsonText
  import opened RoundTrip

  /** The rest is a proper suffix: something was consumed, and not the NUL. */
  predicate Consumed(s: string, rest: string) {
    Terminated(rest) && |rest| < |s| && rest == s[|s| - |rest|..]
  }

  lemma SuffixTransitive(s: string, t: string, u: string)
    requires |u| <= |t| <= |s| && t == s[|s| - |t|..] && u == t[|t| - |u|..]
    ensures u == s[|s| - |u|..]
  {
  }

  lemma {:induction false} SkipIsSuffix(s: string)
    requires Terminated(s)
    ensures SkipWhitespace(s) == s[|s| - |SkipWhitespace(s)|..]
  {
    if |s| > 1 && s[0] <= ' ' {
      SkipIsSuffix(From(s, 1));
      SuffixTransitive(s, From(s, 1), SkipWhitespace(s));
    } else {
      assert s == s[0..];
    }
  }

  /** After skipping whitespace from a consumed position, and after one more character. */
  lemma ConsumedMore(s: string, t: string, skipped: string)
    requires Consumed(s, t) && skipped == SkipWhitespace(t)
    ensures Consumed(s, skipped)
    ensures skipped[0] != '\0' ==> Consumed(s, From(skipped, 1))
  {
    hide NulFree, SkipWhitespace;
    SkipIsSuffix(t);
    SuffixTransitive(s, t, skipped);
    if skipped[0] != '\0' {
      SuffixTransitive(s, skipped, From(skipped, 1));
    }
  }

  lemma ConsumedThrough(s: string, t: string, u: string)
    requires Consumed(s, t) && Consumed(t, u)
    ensures Consumed(s, u)
  {
    hide Terminated;
    SuffixTransitive(s, t, u);
  }

  lemma StringConsumes(s: string)
    requires Terminated(s) && ParseString(s).Ok?
    ensures Consumed(s, ParseString(s).rest)
  {
    hide Unescape, ClosingQuote, Terminated, NulFree;
  }

  lemma {:induction false} ValueConsumes(s: string, depth: nat)
    requires Terminated(s) && ParseValue(s, depth).Ok?
    ensures Consumed(s, ParseValue(s, depth).rest)
    decreases |s|, 2
  {
    hide Terminated, NulFree, ParseArray, ParseObject, ParseString;
    if s[0] == QUOTE {
      StringConsumes(s);
    } else if s[0] == '[' {
      ArrayConsumes(s, depth);
    } else if s[0] == '{' {
      ObjectConsumes(s, depth);
    }
  }

  lemma {:induction false} ArrayConsumes(s: string, depth: nat)
    requires Terminated(s) && s[0] == '[' && ParseArray(s, depth).Ok?
    ensures Consumed(s, ParseArray(s, depth).rest)
    decreases |s|, 1
  {
    hide ParseElements, ParseArray, SkipWhitespace, Terminated, NulFree;
    ArrayTurn(s, depth);
    OpenConsumes(s);
    var inner := SkipWhitespace(From(s, 1));
    if inner[0] != ']' {
      ElementsConsume(inner, depth + 1);
      ConsumedThrough(s, inner, ParseElements(inner, depth + 1).rest);
    }
  }

  lemma OpenConsumes(s: string)
    requires Terminated(s) && s[0] != '\0'
    ensures var inner := SkipWhitespace(From(s, 1));
      Consumed(s, inner) && (inner[0] != '\0' ==> Consumed(s, From(inner, 1)))
  {
    hide SkipWhitespace, NulFree;
    ConsumedMore(s, From(s, 1), SkipWhitespace(From(s, 1)));
  }

  lemma {:induction false} ElementsConsume(s: string, depth: nat)
    requires Terminated(s) && ParseElements(s, depth).Ok?
    ensures Consumed(s, ParseElements(s, depth).rest)
    decreases |s|, 3
  {
    hide ParseElements, ParseValue, SkipWhitespace, NulFree, Terminated;
    ElementsTurn(s, depth);
    ValueConsumes(s, depth);
    var rest := SkipWhitespace(ParseValue(s, depth).rest);
    ConsumedMore(s, ParseValue(s, depth).rest, rest);
    if rest[0] == ',' {
      var next := SkipWhitespace(From(rest, 1));
      ConsumedMore(s, From(rest, 1), next);
      ElementsConsume(next, depth);
      ConsumedThrough(s, next, ParseElements(next, depth).rest);
    }
  }

  lemma {:induction false} ObjectConsumes(s: string, depth: nat)
    requires Terminated(s) && s[0] == '{' && ParseObject(s, depth).Ok?
    ensures Consumed(s, ParseObject(s, depth).rest)
    decreases |s|, 1
  {
    hide ParseMembers, ParseObject, SkipWhitespace, Terminated, NulFree;
    ObjectTurn(s, depth);
    OpenConsumes(s);
    var inner := SkipWhitespace(From(s, 1));
    if inner[0] != '}' {
      MembersConsume(inner, depth + 1);
      ConsumedThrough(s, inner, ParseMembers(inner, depth + 1).rest);
    }
  }

  lemma {:induction false} MembersConsume(s: string, depth: nat)
    requires Terminated(s) && ParseMembers(s, depth).Ok?
    ensures Consumed(s, ParseMembers(s, depth).rest)
    decreases |s|, 4
  {
    hide ParseMembers, ParseMember, SkipWhitespace, NulFree, Terminated;
    MembersTurn(s, depth);
    MemberConsumes(s, depth);
    var rest := SkipWhitespace(ParseMember(s, depth).rest);
    ConsumedMore(s, ParseMember(s, depth).rest, rest);
    if rest[0] == ',' {
      var next := SkipWhitespace(From(rest, 1));
      ConsumedMore(s, From(rest, 1), next);
      MembersConsume(next, depth);
      ConsumedThrough(s, next, ParseMembers(next, depth).rest);
    }
  }

  lemma {:induction false} MemberConsumes(s: string, depth: nat)
    requires Terminated(s) && ParseMember(s, depth).Ok?
    ensures Consumed(s, ParseMember(s, depth).rest)
    decreases |s|, 3
  {
    hide ParseMember, ParseValue, ParseString, SkipWhitespace, NulFree, Terminated;
    MemberTurn(s, depth);
    StringConsumes(s);
    var name := ParseString(s).rest;
    ConsumedMore(s, name, SkipWhitespace(name));
    var value := SkipWhitespace(From(SkipWhitespace(name), 1));
    ConsumedMore(s, From(SkipWhitespace(name), 1), value);
    ValueConsumes(value, depth);
    ConsumedThrough(s, value, ParseValue(value, depth).rest);
  }

  // ----- nesting

  /** A value parsed at nesting `depth` ends within the limit. */
  lemma {:induction false} NestingBound(s: string, depth: nat)
    requires Terminated(s) && depth <= NESTING_LIMIT && ParseValue(s, depth).Ok?
    ensures depth + Nesting(ParseValue(s, depth).value) <= NESTING_LIMIT
    decreases |s|, 2
  {
    hide Terminated, NulFree, ParseArray, ParseObject, ParseString, SkipWhitespace, NestingItems, NestingMembers;
    hide ParseElements, ParseMembers;
    if s[0] == '[' {
      ArrayTurn(s, depth);
      var inner := SkipWhitespace(From(s, 1));
      if depth < NESTING_LIMIT && inner[0] != ']' {
        ElementsBound(inner, depth + 1);
      }
      NoNesting();
    } else if s[0] == '{' {
      ObjectTurn(s, depth);
      var inner := SkipWhitespace(From(s, 1));
      if depth < NESTING_LIMIT && inner[0] != '}' {
        MembersBound(inner, depth + 1);
      }
      NoNesting();
    }
  }

  lemma NoNesting()
    ensures NestingItems([]) == 0 && NestingMembers([]) == 0
  {
  }

  lemma {:induction false} ElementsBound(s: string, depth: nat)
    requires Terminated(s) && depth <= NESTING_LIMIT && ParseElements(s, depth).Ok?
    ensures depth + NestingItems(ParseElements(s, depth).value) <= NESTING_LIMIT
    decreases |s|, 3
  {
    hide ParseElements, ParseValue, SkipWhitespace, NulFree, Terminated, Nesting;
    ElementsTurn(s, depth);
    NestingBound(s, depth);
    var rest := SkipWhitespace(ParseValue(s, depth).rest);
    NoNesting();
    if rest[0] == ',' {
      var next := SkipWhitespace(From(rest, 1));
      ElementsBound(next, depth);
      assert ParseElements(s, depth).value[1..] == ParseElements(next, depth).value;
    }
  }

  lemma {:induction false} MembersBound(s: string, depth: nat)
    requires Terminated(s) && depth <= NESTING_LIMIT && ParseMembers(s, depth).Ok?
    ensures depth + NestingMembers(ParseMembers(s, depth).value) <= NESTING_LIMIT
    decreases |s|, 3
  {
    hide ParseMembers, ParseMember, ParseValue, ParseString, SkipWhitespace, NulFree, Terminated, Nesting;
    MembersTurn(s, depth);
    MemberTurn(s, depth);
    var value := SkipWhitespace(From(SkipWhitespace(ParseString(s).rest), 1));
    NestingBound(value, depth);
    var rest := SkipWhitespace(ParseMember(s, depth).rest);
    NoNesting();
    if rest[0] == ',' {
      var next := SkipWhitespace(From(rest, 1));
      MembersBound(next, depth);
      assert ParseMembers(s, depth).value[1..] == ParseMembers(next, depth).value;
    }
  }

  // ----- text that nests too deep

  /** The text of a value that nests beyond the limit is an error, whatever follows it. */
  lemma {:induction false} ValueTooDeep(v: Json, format: bool, indent: nat, depth: nat, rest: string)
    requires Printable(v) && Delimited(rest) && depth <= NESTING_LIMIT < depth + Nesting(v)
    ensures Terminated(Render(v, format, indent) + rest)
    ensures ParseValue(Render(v, format, indent) + rest, depth).Err?
    decreases v, 2
  {
    hide Render, ParseValue, Terminated, NulFree;
    RenderNulFree(v, format, indent);
    TerminatedAppend(Render(v, format, indent), rest);
    match v
    case Array(items) => ArrayTooDeep(items, format, indent, depth, rest);
    case Object(members) => ObjectTooDeep(members, format, indent, depth, rest);
  }

  lemma {:induction false} ArrayTooDeep(items: seq<Json>, format: bool, indent: nat, depth: nat, rest: string)
    requires PrintableItems(items) && Delimited(rest)
    requires depth <= NESTING_LIMIT < depth + 1 + NestingItems(items)
    ensures Terminated(Render(Array(items), format, indent) + rest)
    ensures ParseValue(Render(Array(items), format, indent) + rest, depth).Err?
    decreases items, 1
  {
    hide ParseArray, ParseElements, RenderItems, Render, PrintableItems, NestingItems, NulFree, SkipWhitespace;
    var tail := "]" + rest;
    TerminatedAppend("]", rest);
    var body := RenderItems(items, format, indent + 1) + tail;
    ArrayText(items, format, indent, rest);
    RenderItemsNulFree(items, format, indent + 1);
    TerminatedAppend(RenderItems(items, format, indent + 1), tail);
    var s := "[" + body;
    TerminatedAppend("[", body);
    assert s[1..] == body;
    ArrayTurn(s, depth);
    ValueIsArray(s, depth);
    if depth < NESTING_LIMIT {
      ItemsTooDeep(items, format, indent + 1, depth + 1, tail);
      SkipNothing(body);
    }
  }

  lemma ValueIsArray(s: string, depth: nat)
    requires Terminated(s) && s[0] == '['
    ensures ParseValue(s, depth) == ParseArray(s, depth)
  {
    hide ParseArray, ParseObject, ParseString, ParseNumber;
  }

  lemma ValueIsObject(s: string, depth: nat)
    requires Terminated(s) && s[0] == '{'
    ensures ParseValue(s, depth) == ParseObject(s, depth)
  {
    hide ParseArray, ParseObject, ParseString, ParseNumber;
  }

  /** The elements up to the first that is too deep are read, and it is the error. */
  lemma {:induction false} ItemsTooDeep(items: seq<Json>, format: bool, indent: nat, depth: nat, tail: string)
    requires PrintableItems(items) && Terminated(tail) && tail[0] == ']'
    requires depth <= NESTING_LIMIT < depth + NestingItems(items)
    ensures var body := RenderItems(items, format, indent) + tail;
      Terminated(body) && body[0] > ' ' && body[0] != ']' && ParseElements(body, depth).Err?
    decreases items, 0
  {
    hide ParseValue, ParseElements, Render, RenderItems, Printable, Nesting, NulFree, Terminated, SkipWhitespace, Comma;
    var first := Render(items[0], format, indent);
    var next := RenderItems(items[1..], format, indent) + tail;
    var after := Comma(format, |items| > 1) + next;
    AfterItem(items, format, indent, tail);
    ItemsText(items, format, indent, tail);
    RenderHead(items[0], format, indent);
    assert (first + after)[0] == first[0];
    if depth + Nesting(items[0]) > NESTING_LIMIT {
      ValueTooDeep(items[0], format, indent, depth, after);
    } else {
      ValueRoundTrip(items[0], format, indent, depth, after);
      NoNesting();
      ItemsTooDeep(items[1..], format, indent, depth, tail);
      SkipNothing(after);
    }
    ElementsTurn(first + after, depth);
  }

  /** What follows the first element. */
  lemma AfterItem(items: seq<Json>, format: bool, indent: nat, tail: string)
    requires items != [] && PrintableItems(items) && Terminated(tail) && tail[0] == ']'
    ensures var next := RenderItems(items[1..], format, indent) + tail;
      var after := Comma(format, |items| > 1) + next;
      Delimited(after) && Terminated(next) &&
      (|items| > 1 ==> after[0] == ',' && SkipWhitespace(From(after, 1)) == next)
  {
    hide Render, RenderItems, NulFree, SkipWhitespace;
    var text := RenderItems(items[1..], format, indent);
    var next := text + tail;
    RenderItemsNulFree(items[1..], format, indent);
    TerminatedAppend(text, tail);
    if |items| > 1 {
      ItemsHead(items[1..], format, indent);
      assert next[0] == text[0];
      CommaText(format, next);
    } else {
      NoItems(format, indent);
      assert items[1..] == [];
      assert Comma(format, false) + next == tail;
    }
  }

  lemma {:induction false} ObjectTooDeep(members: seq<Member>, format: bool, indent: nat, depth: nat, rest: string)
    requires PrintableMembers(members) && Delimited(rest)
    requires depth <= NESTING_LIMIT < depth + 1 + NestingMembers(members)
    ensures Terminated(Render(Object(members), format, indent) + rest)
    ensures ParseValue(Render(Object(members), format, indent) + rest, depth).Err?
    decreases members, 1
  {
    hide ParseObject, ParseMembers, RenderMembers, Render, PrintableMembers, NestingMembers, NulFree, SkipWhitespace;
    var tail := CloseBrace(format, indent) + rest;
    CloseText(format, indent, rest);
    var text := RenderMembers(members, format, indent + 1);
    RenderMembersNulFree(members, format, indent + 1);
    TerminatedAppend(text, tail);
    ObjectText(members, format, indent, rest);
    var s := OpenBrace(format) + (text + tail);
    OpenText(format, text + tail);
    ObjectTurn(s, depth);
    ValueIsObject(s, depth);
    if depth < NESTING_LIMIT {
      MembersTooDeep(members, format, indent + 1, depth + 1, tail);
    }
  }

  lemma {:induction false} MembersTooDeep(members: seq<Member>, format: bool, indent: nat, depth: nat, tail: string)
    requires PrintableMembers(members) && Terminated(tail) && (format || tail[0] == '}')
    requires depth <= NESTING_LIMIT < depth + NestingMembers(members)
    ensures var text := RenderMembers(members, format, indent) + tail;
      Terminated(text) && var body := SkipWhitespace(text);
      body[0] == QUOTE && ParseMembers(body, depth).Err?
    decreases members, 0
  {
    hide ParseMember, ParseMembers, Render, RenderMembers, Printable, Nesting, NulFree, Terminated, SkipWhitespace, Quote;
    hide EndMember, Colon;
    var m := members[0];
    var next := RenderMembers(members[1..], format, indent) + tail;
    var after := EndMember(format, |members| > 1) + next;
    AfterMember(members, format, indent, tail);
    var member := Quote(m.key) + (Colon(format) + (Render(m.value, format, indent) + after));
    if depth + Nesting(m.value) > NESTING_LIMIT {
      ValueTooDeep(m.value, format, indent, depth, after);
      MemberTooDeep(m, format, indent, after, depth);
    } else {
      ValueRoundTrip(m.value, format, indent, depth, after);
      MemberRoundTrip(m, format, indent, after, depth);
      NoNesting();
      MembersTooDeep(members[1..], format, indent, depth, tail);
      SkipNothing(after);
    }
    LeadText(format, indent, member);
    MembersText(members, format, indent, tail);
    MembersTurn(member, depth);
  }

  /** What follows the first member. */
  lemma AfterMember(members: seq<Member>, format: bool, indent: nat, tail: string)
    requires members != [] && PrintableMembers(members) && Terminated(tail) && (format || tail[0] == '}')
    ensures var next := RenderMembers(members[1..], format, indent) + tail;
      var after := EndMember(format, |members| > 1) + next;
      Delimited(after) && Terminated(next) &&
      (|members| > 1 ==> after[0] == ',' && SkipWhitespace(From(after, 1)) == SkipWhitespace(next))
  {
    hide RenderMembers, NulFree, SkipWhitespace, RenderMember, PrintableMember;
    var text := RenderMembers(members[1..], format, indent);
    RenderMembersNulFree(members[1..], format, indent);
    TerminatedAppend(text, tail);
    if |members| == 1 {
      NoItems(format, indent);
      assert members[1..] == [];
      assert text + tail == tail;
    }
    EndText(format, |members| > 1, text + tail);
  }

  lemma MemberTooDeep(m: Member, format: bool, indent: nat, after: string, depth: nat)
    requires NulFree(m.key) && Printable(m.value) && Terminated(after)
    requires Terminated(Render(m.value, format, indent) + after)
    requires ParseValue(Render(m.value, format, indent) + after, depth).Err?
    ensures var member := Quote(m.key) + (Colon(format) + (Render(m.value, format, indent) + after));
      Terminated(member) && member[0] == QUOTE && ParseMember(member, depth).Err?
  {
    hide Render, ParseValue, Escape, ParseMember, ParseString, NulFree, SkipWhitespace;
    var text := Render(m.value, format, indent) + after;
    RenderHead(m.value, format, indent);
    assert text[0] > ' ';
    var rest := Colon(format) + text;
    ColonText(format, text);
    StringRoundTrip(m.key, rest);
    MemberTurn(Quote(m.key) + rest, depth);
    SkipNothing(rest);
  }

  /** What the printer wrote is read back when it nests within the limit, and is an error when
      it nests deeper. */
  lemma PrintedTextParses(v: Json, format: bool)
    requires Printable(v)
    ensures NulFree(Render(v, format, 0))
    ensures Nesting(v) <= NESTING_LIMIT ==> ParseText(Render(v, format, 0), true) == Ok(v, "\0")
    ensures Nesting(v) > NESTING_LIMIT ==> ParseText(Render(v, format, 0), true).Err?
    ensures Nesting(v) > NESTING_LIMIT ==> ParseText(Render(v, format, 0), false).Err?
  {
    hide Render, Printable, ParseValue, SkipWhitespace, Nesting;
    RenderNulFree(v, format, 0);
    if Nesting(v) <= NESTING_LIMIT {
      TextRoundTrip(v, format);
    } else {
      var s := Render(v, format, 0) + "\0";
      SkipEnd();
      ValueTooDeep(v, format, 0, 0, "\0");
      RenderHead(v, format, 0);
      assert s[0] == Render(v, format, 0)[0];
      assert SkipBom(s) == s;
      SkipNothing(s);
    }
  }
}
