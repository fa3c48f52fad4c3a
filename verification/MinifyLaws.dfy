/** Minifying formatted text gives the unformatted text of the same value, exactly
    when no string that ends in a backslash is followed by formatting: its closing
    quote is then taken for an escaped one, and what follows is kept as it is. */
module MinifyLaws {
  import opened JsonNumber
  import opened JsonValue
  import opened JsonText
  import opened Minify

  predicate Trailing(s: string) {
    s != "" && s[|s| - 1] == BACKSLASH
  }

  /** Closed: every string of the text is seen to end.  Open: all do but one, which is
      the very last token before closing brackets.  Broken: one is not seen to end and
      whitespace follows it. */
  datatype Outcome = Closed | Open | Broken

  function Run(v: Json): Outcome
    decreases v, 1
  {
    match v
    case String(s) => if Trailing(s) then Open else Closed
    case Array(items) => RunItems(items)
    case Object(members) => RunMembers(members)
    case _ => Closed
  }

  /** Elements are separated by whitespace, and the last is followed by none. */
  function RunItems(items: seq<Json>): Outcome
    decreases items, 0
  {
    if items == [] then Closed
    else
      match Run(items[0])
      case Closed => RunItems(items[1..])
      case Open => if |items| == 1 then Open else Broken
      case Broken => Broken
  }

  /** Whitespace follows every key and every value. */
  function RunMembers(members: seq<Member>): (r: Outcome)
    ensures r != Open
    decreases members, 0
  {
    if members == [] then Closed
    else if Trailing(members[0].key) || Run(members[0].value) != Closed then Broken
    else RunMembers(members[1..])
  }

  // ----- minifying pieces of text

  /** Minifying in the middle of a string. */
  function InString(s: string): string {
    s[..StringLength(s)] + Minified(s[StringLength(s)..])
  }

  predicate Plain(s: string) {
    forall i :: 0 <= i < |s| ==> !Whitespace(s[i]) && s[i] != '/' && s[i] != QUOTE && s[i] != BACKSLASH
  }

  predicate Blank(s: string) {
    forall i :: 0 <= i < |s| ==> Whitespace(s[i])
  }

  lemma {:induction false} MinifiedPlain(p: string, rest: string)
    requires Plain(p)
    ensures Minified(p + rest) == p + Minified(rest)
  {
    if p == "" {
      assert p + rest == rest;
    } else {
      assert (p + rest)[1..] == p[1..] + rest;
      MinifiedPlain(p[1..], rest);
    }
  }

  lemma {:induction false} MinifiedBlank(b: string, rest: string)
    requires Blank(b)
    ensures Minified(b + rest) == Minified(rest)
  {
    if b == "" {
      assert b + rest == rest;
    } else {
      assert (b + rest)[1..] == b[1..] + rest;
      MinifiedBlank(b[1..], rest);
    }
  }

  /** In the middle of a string everything up to the next quote is kept. */
  lemma InStringKeeps(c: char, rest: string)
    requires c != QUOTE && c != BACKSLASH
    ensures InString([c] + rest) == [c] + InString(rest)
  {
    hide Minified;
    var s := [c] + rest;
    assert s[1..] == rest;
    var k := StringLength(rest);
    assert s[..1 + k] == [c] + rest[..k] && s[1 + k..] == rest[k..];
  }

  lemma {:induction false} StringLengthKeepsAll(p: string, t: string)
    requires QUOTE !in p && BACKSLASH !in p
    ensures StringLength(p + t) == |p| + StringLength(t)
  {
    if p == "" {
      assert p + t == t;
    } else {
      assert (p + t)[1..] == p[1..] + t;
      StringLengthKeepsAll(p[1..], t);
    }
  }

  /** An escaped character is passed over, unless it is a backslash before a quote. */
  lemma StringLengthOfEscape(c: char, t: string)
    requires t != "" && (c != BACKSLASH || t[0] != QUOTE)
    ensures StringLength(EscapeChar(c) + t) == |EscapeChar(c)| + StringLength(t)
  {
    hide StringLength;
    var e := EscapeChar(c);
    if |e| == 1 {
      StringLengthKeepsAll(e, t);
    } else if e[1] == QUOTE || e[1] == BACKSLASH {
      StringLengthOfPair(e[1], t);
      assert e + t == [BACKSLASH, e[1]] + t;
    } else {
      StringLengthKeepsAll(e[1..], t);
      StringLengthOfBackslash(e[1..] + t);
      assert e + t == [BACKSLASH] + (e[1..] + t);
    }
  }

  lemma StringLengthOfBackslash(t: string)
    requires t != "" && t[0] != QUOTE
    ensures StringLength([BACKSLASH] + t) == 1 + StringLength(t)
  {
    assert ([BACKSLASH] + t)[1..] == t;
  }

  lemma StringLengthOfPair(c: char, t: string)
    requires c == QUOTE || (c == BACKSLASH && t != "" && t[0] != QUOTE)
    ensures StringLength([BACKSLASH, c] + t) == 2 + StringLength(t)
  {
    var s := [BACKSLASH, c] + t;
    if c == QUOTE {
      assert s[2..] == t;
    } else {
      StringLengthOfBackslash(t);
      StringLengthOfBackslash([c] + t);
      assert s == [BACKSLASH] + ([c] + t);
    }
  }

  /** A string's text up to its quote, and past the quote when a backslash precedes it. */
  lemma {:induction false} StringLengthOfString(s: string, rest: string)
    ensures StringLength(Escape(s) + ([QUOTE] + rest))
      == |Escape(s)| + 1 + if Trailing(s) then StringLength(rest) else 0
  {
    hide StringLength, EscapeChar;
    var tail := [QUOTE] + rest;
    if s == "" {
      assert Escape(s) + tail == tail;
      StringLengthOfQuote(rest);
    } else if |s| == 1 && s[0] == BACKSLASH {
      TrailingEscape(rest);
      assert s == [BACKSLASH];
    } else {
      var more := Escape(s[1..]) + tail;
      StringLengthOfString(s[1..], rest);
      assert Escape(s) + tail == EscapeChar(s[0]) + more;
      MoreHead(s, tail);
      StringLengthOfEscape(s[0], more);
    }
  }

  lemma StringLengthOfQuote(rest: string)
    ensures StringLength([QUOTE] + rest) == 1
  {
  }

  lemma TrailingEscape(rest: string)
    ensures Escape([BACKSLASH]) == [BACKSLASH, BACKSLASH]
    ensures StringLength(Escape([BACKSLASH]) + ([QUOTE] + rest)) == 3 + StringLength(rest)
  {
    assert Escape([BACKSLASH]) == [BACKSLASH, BACKSLASH];
    StringLengthOfPair(QUOTE, rest);
    StringLengthOfBackslash([BACKSLASH, QUOTE] + rest);
    assert [BACKSLASH] + ([BACKSLASH, QUOTE] + rest) == Escape([BACKSLASH]) + ([QUOTE] + rest);
  }

  lemma MoreHead(s: string, tail: string)
    requires s != "" && tail != "" && (|s| > 1 || s[0] != BACKSLASH)
    ensures var more := Escape(s[1..]) + tail; more != "" && (s[0] != BACKSLASH || more[0] != QUOTE)
  {
    hide EscapeChar;
    if |s| > 1 {
      var e := EscapeChar(s[1]);
      assert (Escape(s[1..]) + tail)[0] == e[0];
      EscapeHead(s[1]);
    }
  }

  lemma EscapeHead(c: char)
    ensures EscapeChar(c)[0] != QUOTE
  {
  }

  /** A quoted string is kept, and leaves the minifier in a string when it ends in a backslash. */
  lemma MinifiedString(s: string, rest: string)
    ensures Minified(Quote(s) + rest) == Quote(s) + if Trailing(s) then InString(rest) else Minified(rest)
  {
    hide StringLength, Escape, Minified, Trailing;
    var text := Quote(s) + rest;
    var body := Escape(s) + ([QUOTE] + rest);
    assert text[1..] == body && text[0] == QUOTE;
    StringLengthOfString(s, rest);
    var k := 1 + StringLength(body);
    MinifiedQuote(text);
    if Trailing(s) {
      var j := StringLength(rest);
      assert text[..k] == Quote(s) + rest[..j] && text[k..] == rest[j..];
      assert Quote(s) + rest[..j] + Minified(rest[j..]) == Quote(s) + (rest[..j] + Minified(rest[j..]));
    } else {
      assert text[..k] == Quote(s) && text[k..] == rest;
    }
  }

  lemma MinifiedQuote(text: string)
    requires text != "" && text[0] == QUOTE
    ensures var k := 1 + StringLength(text[1..]);
      Minified(text) == text[..k] + Minified(text[k..])
  {
    hide StringLength;
  }

  // ----- values

  /** What minifying makes of the text after a value. */
  function After(o: Outcome, rest: string): string {
    if o == Closed then Minified(rest) else InString(rest)
  }

  lemma Cancel(a: string, x: string, y: string)
    requires x != y
    ensures a + x != a + y
  {
    assert (a + x)[|a|..] == x && (a + y)[|a|..] == y;
  }

  lemma DifferAt(a: string, b: string, i: nat)
    requires i < |a| && i < |b| && a[i] != b[i]
    ensures a != b
  {
  }

  /** The formatted text of a value becomes its unformatted text, unless the value is broken:
      then no continuation makes the two texts agree. */
  lemma {:induction false} ValueMinifies(v: Json, d: nat, e: nat, rest: string, restU: string)
    requires Printable(v)
    ensures
      if Run(v) == Broken then Minified(Render(v, true, d) + rest) != Render(v, false, e) + restU
      else Minified(Render(v, true, d) + rest) == Render(v, false, e) + After(Run(v), rest)
    decreases v, 2
  {
    hide Minified, InString, Quote, Decimal, RenderItems, RenderMembers, After, Trailing;
    AfterIs(rest);
    match v
    case Null =>
      MinifiedPlain("null", rest);
    case Bool(b) =>
      MinifiedPlain(if b then "true" else "false", rest);
    case Number(n) =>
      DecimalPlain(n);
      MinifiedPlain(Decimal(n.Floor), rest);
    case String(s) =>
      MinifiedString(s, rest);
    case Array(items) =>
      ArrayMinifies(items, d, e, rest, restU);
    case Object(members) =>
      ObjectMinifies(members, d, e, rest, restU);
  }

  lemma AfterIs(rest: string)
    ensures After(Closed, rest) == Minified(rest) && After(Open, rest) == InString(rest)
  {
  }

  lemma DecimalPlain(n: real)
    requires PlainInteger(n)
    ensures Plain(Decimal(n.Floor))
  {
    hide Decimal;
    DecimalText(n.Floor);
  }

  lemma {:induction false} ArrayMinifies(items: seq<Json>, d: nat, e: nat, rest: string, restU: string)
    requires PrintableItems(items)
    ensures
      if RunItems(items) == Broken then
        Minified(Render(Array(items), true, d) + rest) != Render(Array(items), false, e) + restU
      else
        Minified(Render(Array(items), true, d) + rest) == Render(Array(items), false, e) + After(RunItems(items), rest)
    decreases items, 1
  {
    hide Minified, InString, RenderItems, Render, PrintableItems, RunItems;
    var items', itemsU := RenderItems(items, true, d + 1), RenderItems(items, false, e + 1);
    ArrayText(items, true, d, rest);
    ArrayText(items, false, e, restU);
    ArrayText(items, false, e, After(RunItems(items), rest));
    MinifiedPlain("[", items' + ("]" + rest));
    ItemsMinify(items, d + 1, e + 1, "]" + rest, "]" + restU);
    MinifiedPlain("]", rest);
    InStringKeeps(']', rest);
    if RunItems(items) == Broken {
      Cancel("[", Minified(items' + ("]" + rest)), itemsU + ("]" + restU));
    }
  }

  lemma {:induction false} ItemsMinify(items: seq<Json>, d: nat, e: nat, rest: string, restU: string)
    requires PrintableItems(items)
    ensures
      if RunItems(items) == Broken then
        Minified(RenderItems(items, true, d) + rest) != RenderItems(items, false, e) + restU
      else
        Minified(RenderItems(items, true, d) + rest) == RenderItems(items, false, e) + After(RunItems(items), rest)
    decreases items, 0
  {
    hide Minified, InString, Render, RenderItems, Printable, Run, After, Comma;
    AfterIs(rest);
    if items == [] {
      NoItems(true, d);
      NoItems(false, e);
      assert "" + rest == rest && "" + Minified(rest) == Minified(rest);
    } else {
      var more := |items| > 1;
      var first := Render(items[0], false, e);
      var next, nextU := RenderItems(items[1..], true, d) + rest, RenderItems(items[1..], false, e) + restU;
      var after, afterU := Comma(true, more) + next, Comma(false, more) + nextU;
      ItemsText(items, true, d, rest);
      ItemsText(items, false, e, restU);
      ItemsText(items, false, e, After(RunItems(items), rest));
      ValueMinifies(items[0], d, e, after, afterU);
      if Run(items[0]) == Closed {
        ItemsMinify(items[1..], d, e, rest, restU);
        CommaMinifies(more, next);
        AfterIs(after);
        if RunItems(items) == Broken {
          Cancel(Comma(false, more), Minified(next), nextU);
          Cancel(first, Comma(false, more) + Minified(next), afterU);
        }
      } else if Run(items[0]) == Open {
        OpenItem(items, d, e, rest, restU, first);
      }
    }
  }

  lemma CommaMinifies(more: bool, next: string)
    ensures Minified(Comma(true, more) + next) == Comma(false, more) + Minified(next)
  {
    hide Minified;
    if more {
      MinifiedBlank(" ", next);
      MinifiedPlain(",", " " + next);
      assert Comma(true, more) + next == "," + (" " + next);
    } else {
      assert Comma(true, more) + next == next;
      assert Comma(false, more) + Minified(next) == Minified(next);
    }
  }

  /** After an element that is not seen to end, the space that follows the comma is kept. */
  lemma OpenItem(items: seq<Json>, d: nat, e: nat, rest: string, restU: string, first: string)
    requires items != [] && PrintableItems(items[1..])
    ensures var more := |items| > 1;
      var next, nextU := RenderItems(items[1..], true, d) + rest, RenderItems(items[1..], false, e) + restU;
      if more then first + After(Open, Comma(true, more) + next) != first + (Comma(false, more) + nextU)
      else After(Open, Comma(true, more) + next) == Comma(false, more) + (RenderItems(items[1..], false, e) + InString(rest))
  {
    hide Minified, InString, RenderItems, PrintableItems;
    var next, nextU := RenderItems(items[1..], true, d) + rest, RenderItems(items[1..], false, e) + restU;
    if |items| > 1 {
      InStringKeeps(',', " " + next);
      InStringKeeps(' ', next);
      assert [','] + (" " + next) == ", " + next;
      ItemsHead(items[1..], false, e);
      assert nextU[0] > ' ';
      DifferAt(InString(", " + next), "," + nextU, 1);
      Cancel(first, InString(", " + next), "," + nextU);
    } else {
      NoItems(true, d);
      NoItems(false, e);
      assert items[1..] == [];
      assert "" + ("" + rest) == rest && "" + ("" + InString(rest)) == InString(rest);
    }
  }

  lemma {:induction false} ObjectMinifies(members: seq<Member>, d: nat, e: nat, rest: string, restU: string)
    requires PrintableMembers(members)
    ensures
      if RunMembers(members) == Broken then
        Minified(Render(Object(members), true, d) + rest) != Render(Object(members), false, e) + restU
      else
        Minified(Render(Object(members), true, d) + rest)
          == Render(Object(members), false, e) + After(RunMembers(members), rest)
    decreases members, 1
  {
    hide Minified, InString, RenderMembers, Render, PrintableMembers, RunMembers;
    var body := RenderMembers(members, true, d + 1) + (CloseBrace(true, d) + rest);
    var bodyU := RenderMembers(members, false, e + 1) + ("}" + restU);
    ObjectText(members, true, d, rest);
    ObjectText(members, false, e, restU);
    ObjectText(members, false, e, Minified(rest));
    BraceMinifies(d, body, rest);
    MembersMinify(members, d + 1, e + 1, CloseBrace(true, d) + rest, restU);
    if RunMembers(members) == Broken {
      Cancel("{", Minified(body), bodyU);
    }
  }

  lemma BraceMinifies(d: nat, body: string, rest: string)
    ensures Minified(OpenBrace(true) + body) == "{" + Minified(body)
    ensures Minified(CloseBrace(true, d) + rest) == "}" + Minified(rest)
  {
    hide Minified;
    MinifiedBlank("\n", body);
    MinifiedPlain("{", "\n" + body);
    assert OpenBrace(true) + body == "{" + ("\n" + body);
    MinifiedBlank(Tabs(d), "}" + rest);
    MinifiedPlain("}", rest);
    assert CloseBrace(true, d) + rest == Tabs(d) + ("}" + rest);
  }

  /** The members of an object, followed by its closing brace in the unformatted text. */
  lemma {:induction false} MembersMinify(members: seq<Member>, d: nat, e: nat, rest: string, restU: string)
    requires PrintableMembers(members)
    ensures
      if RunMembers(members) == Broken then
        Minified(RenderMembers(members, true, d) + rest) != RenderMembers(members, false, e) + ("}" + restU)
      else Minified(RenderMembers(members, true, d) + rest) == RenderMembers(members, false, e) + Minified(rest)
    decreases members, 0
  {
    hide Minified, InString, Render, RenderMembers, Printable, Run, After, Quote, Trailing;
    if members == [] {
      NoItems(true, d);
      NoItems(false, e);
      assert "" + rest == rest && "" + Minified(rest) == Minified(rest);
    } else {
      var m, more := members[0], |members| > 1;
      var next := RenderMembers(members[1..], true, d) + rest;
      var nextU := RenderMembers(members[1..], false, e) + ("}" + restU);
      var after, afterU := EndMember(true, more) + next, EndMember(false, more) + nextU;
      MembersText(members, true, d, rest);
      MembersText(members, false, e, "}" + restU);
      MembersText(members, false, e, Minified(rest));
      var text := Quote(m.key) + (Colon(true) + (Render(m.value, true, d) + after));
      MinifiedBlank(Tabs(d), text);
      assert Indent(false, e) + text == text;
      MembersMinify(members[1..], d, e, rest, restU);
      EndMinifies(more, next);
      MemberMinifies(m, d, e, after, afterU);
      AfterIs(after);
      var value := Render(m.value, false, e);
      if Run(m.value) == Open {
        OpenMember(members, e, next, restU);
        CancelMember(m.key, value, InString(after), afterU);
      } else if RunMembers(members[1..]) == Broken {
        Cancel(EndMember(false, more), Minified(next), nextU);
        CancelMember(m.key, value, Minified(after), afterU);
      }
    }
  }

  lemma CancelMember(key: string, value: string, x: string, y: string)
    requires x != y
    ensures Quote(key) + (Colon(false) + (value + x)) != Quote(key) + (Colon(false) + (value + y))
  {
    hide Quote, Colon;
    Cancel(value, x, y);
    Cancel(Colon(false), value + x, value + y);
    Cancel(Quote(key), Colon(false) + (value + x), Colon(false) + (value + y));
  }

  /** A key and its value, as they leave the minifier. */
  lemma {:induction false} MemberMinifies(m: Member, d: nat, e: nat, after: string, afterU: string)
    requires PrintableMember(m)
    ensures var text := Quote(m.key) + (Colon(true) + (Render(m.value, true, d) + after));
      var textU := Quote(m.key) + (Colon(false) + (Render(m.value, false, e) + afterU));
      if Trailing(m.key) || Run(m.value) == Broken then Minified(text) != textU
      else Minified(text) == Quote(m.key) + (Colon(false) + (Render(m.value, false, e) + After(Run(m.value), after)))
    decreases m, 3
  {
    hide Minified, InString, Render, Printable, Run, After, Quote, Trailing;
    var value, valueU := Render(m.value, true, d) + after, Render(m.value, false, e) + afterU;
    MinifiedString(m.key, Colon(true) + value);
    if Trailing(m.key) {
      InStringKeeps(':', "\t" + value);
      InStringKeeps('\t', value);
      assert [':'] + ("\t" + value) == Colon(true) + value;
      RenderHead(m.value, false, e);
      assert valueU[0] == Render(m.value, false, e)[0];
      DifferAt(InString(Colon(true) + value), Colon(false) + valueU, 1);
      Cancel(Quote(m.key), InString(Colon(true) + value), Colon(false) + valueU);
    } else {
      ValueMinifies(m.value, d, e, after, afterU);
      MinifiedBlank("\t", value);
      MinifiedPlain(":", "\t" + value);
      assert Colon(true) + value == ":" + ("\t" + value);
      if Run(m.value) == Broken {
        Cancel(Colon(false), Minified(value), valueU);
        Cancel(Quote(m.key), Colon(false) + Minified(value), Colon(false) + valueU);
      }
    }
  }

  /** After a member value that is not seen to end, the line break is kept. */
  lemma OpenMember(members: seq<Member>, e: nat, next: string, restU: string)
    requires members != [] && PrintableMembers(members[1..])
    ensures var more := |members| > 1;
      InString(EndMember(true, more) + next)
        != EndMember(false, more) + (RenderMembers(members[1..], false, e) + ("}" + restU))
  {
    hide Minified, InString, RenderMembers, PrintableMembers;
    InStringKeeps('\n', next);
    if |members| > 1 {
      InStringKeeps(',', "\n" + next);
      assert [','] + ("\n" + next) == EndMember(true, true) + next;
      MembersHead(members[1..], e);
      DifferAt(InString(EndMember(true, true) + next),
               "," + (RenderMembers(members[1..], false, e) + ("}" + restU)), 1);
    } else {
      NoItems(false, e);
      assert members[1..] == [];
      assert "" + ("" + ("}" + restU)) == "}" + restU;
      assert EndMember(true, false) + next == ['\n'] + next;
      DifferAt(InString(EndMember(true, false) + next), "}" + restU, 0);
    }
  }

  /** Minifying the formatted text of a value gives its unformatted text exactly when no
      string that ends in a backslash is followed by formatting. */
  lemma MinifyUndoesFormatting(v: Json)
    requires Printable(v)
    ensures Minified(Render(v, true, 0)) == Render(v, false, 0) <==> Run(v) != Broken
  {
    hide Minified, Render, Run, Printable;
    ValueMinifies(v, 0, 0, "", "");
    assert Render(v, true, 0) + "" == Render(v, true, 0);
    assert Render(v, false, 0) + "" == Render(v, false, 0);
    NothingToMinify();
    AfterIs("");
  }

  lemma NothingToMinify()
    ensures Minified("") == "" && InString("") == ""
  {
  }

  /** No string or key ends in a backslash. */
  predicate NoTrailing(v: Json)
    decreases v, 1
  {
    match v
    case String(s) => !Trailing(s)
    case Array(items) => NoTrailingItems(items)
    case Object(members) => NoTrailingMembers(members)
    case _ => true
  }

  predicate NoTrailingItems(items: seq<Json>)
    decreases items, 0
  {
    items == [] || (NoTrailing(items[0]) && NoTrailingItems(items[1..]))
  }

  predicate NoTrailingMembers(members: seq<Member>)
    decreases members, 0
  {
    members == [] ||
    (!Trailing(members[0].key) && NoTrailing(members[0].value) && NoTrailingMembers(members[1..]))
  }

  /** The plain case: without trailing backslashes every string is seen to end. */
  lemma {:induction false} NoTrailingCloses(v: Json)
    ensures NoTrailing(v) <==> Run(v) == Closed
    decreases v, 1
  {
    match v
    case Array(items) => NoTrailingItemsClose(items);
    case Object(members) => NoTrailingMembersClose(members);
    case _ =>
  }

  lemma {:induction false} NoTrailingItemsClose(items: seq<Json>)
    ensures NoTrailingItems(items) <==> RunItems(items) == Closed
    decreases items, 0
  {
    if items != [] {
      NoTrailingCloses(items[0]);
      NoTrailingItemsClose(items[1..]);
    }
  }

  lemma {:induction false} NoTrailingMembersClose(members: seq<Member>)
    ensures NoTrailingMembers(members) <==> RunMembers(members) == Closed
    decreases members, 0
  {
    if members != [] {
      NoTrailingCloses(members[0].value);
      NoTrailingMembersClose(members[1..]);
    }
  }

  /** `["\\", 1]`: the string is not seen to end, and the space after the comma is kept. */
  lemma TrailingBackslashBreaks()
    ensures var v := Array([String([BACKSLASH]), Number(1.0)]);
      Printable(v) && Minified(Render(v, true, 0)) != Render(v, false, 0)
  {
    var items := [String([BACKSLASH]), Number(1.0)];
    assert Run(items[0]) == Open;
    assert PrintableItems(items) by {
      assert Printable(items[0]) && Printable(items[1]);
      assert PrintableItems(items[2..]) && items[1..][1..] == items[2..];
    }
    MinifyUndoesFormatting(Array(items));
  }

  lemma EndMinifies(more: bool, next: string)
    ensures Minified(EndMember(true, more) + next) == EndMember(false, more) + Minified(next)
  {
    hide Minified;
    MinifiedBlank("\n", next);
    if more {
      MinifiedPlain(",", "\n" + next);
      assert EndMember(true, more) + next == "," + ("\n" + next);
    } else {
      assert EndMember(true, more) + next == "\n" + next;
      assert "" + Minified(next) == Minified(next);
    }
  }

  // ----- every text

  /** A string is measured alike when only the text behind it changes. */
  lemma {:induction false} StringLengthStable(t: string, x: string)
    requires StringLength(t) < |t| || x == ""
    ensures StringLength(t[..StringLength(t)] + x) == StringLength(t)
  {
    var j := StringLength(t);
    var s := t[..j] + x;
    if t == "" {
    } else if t[0] == QUOTE {
      assert s[0] == QUOTE;
    } else if t[0] == BACKSLASH && |t| > 1 && t[1] == QUOTE {
      StringLengthStable(t[2..], x);
      assert s[2..] == t[2..][..j - 2] + x;
    } else {
      StringLengthStable(t[1..], x);
      assert s[1..] == t[1..][..j - 1] + x;
    }
  }

  /** Minifying is done after one pass, on any text. */
  lemma {:induction false} MinifiedTwice(s: string)
    ensures Minified(Minified(s)) == Minified(s)
    decreases |s|
  {
    hide StringLength, SkipLine, SkipComment;
    if s == "" {
    } else if Whitespace(s[0]) {
      MinifiedTwice(s[1..]);
    } else if s[0] == '/' {
      if |s| > 1 && s[1] == '/' {
        MinifiedTwice(SkipLine(s[2..]));
      } else if |s| > 1 && s[1] == '*' {
        MinifiedTwice(SkipComment(s[2..]));
      } else {
        MinifiedTwice(s[1..]);
      }
    } else if s[0] == QUOTE {
      var k := 1 + StringLength(s[1..]);
      MinifiedTwice(s[k..]);
      MinifiedQuoteTwice(s, Minified(s[k..]));
    } else {
      MinifiedTwice(s[1..]);
      assert ([s[0]] + Minified(s[1..]))[1..] == Minified(s[1..]);
    }
  }

  lemma MinifiedQuoteTwice(s: string, rest: string)
    requires s != "" && s[0] == QUOTE
    requires rest == "" || 1 + StringLength(s[1..]) < |s|
    requires Minified(rest) == rest
    ensures var k := 1 + StringLength(s[1..]);
      Minified(s[..k] + rest) == s[..k] + rest
  {
    hide Minified, StringLength;
    var k := 1 + StringLength(s[1..]);
    var t := s[..k] + rest;
    StringLengthStable(s[1..], rest);
    assert t[1..] == s[1..][..k - 1] + rest;
    MinifiedQuote(t);
    assert t[..k] == s[..k] && t[k..] == rest;
  }
}
