/** Where the printer puts whitespace: nowhere in compact text; in formatted text a space
    after the commas of an array, a tab after a colon, and a line for every member and every
    closing brace, indented by the brackets that are open around it. */
module JsonLayout {
  import opened JsonNumber
  import opened JsonValue
  import opened JsonText
  import opened JsonGrammar
  import opened RoundTrip

  function TabRun(t: string): (k: nat)
    ensures k <= |t|
  {
    if t != "" && t[0] == '\t' then 1 + TabRun(t[1..]) else 0
  }

  /** A line behind its line feed: the tabs, and a member's name or the brace that closes. */
  predicate LineStart(t: string, open: string) {
    var k := TabRun(t);
    k < |t| && Inside(open, '{') && ((t[k] == '\"' && k == |open|) || (t[k] == '}' && k + 1 == |open|))
  }

  /** The bracket opened last is `c`. */
  predicate Inside(open: string, c: char) {
    open != "" && open[|open| - 1] == c
  }

  /** The whitespace of `t` is in its places, with the brackets `open` around it. */
  predicate LaidOut(t: string, open: string, format: bool)
    decreases |t|
  {
    if t == "" then true
    else
      var c, rest := t[0], t[1..];
      if c == '\"' then
        var k := ClosingQuote(rest);
        k >= 0 && LaidOut(rest[k + 1..], open, format)
      else if c == '[' then LaidOut(rest, open + "[", format)
      else if c == '{' then (format ==> rest != "" && rest[0] == '\n') && LaidOut(rest, open + "{", format)
      else if c == ']' then Inside(open, '[') && LaidOut(rest, open[..|open| - 1], format)
      else if c == '}' then !format && Inside(open, '{') && LaidOut(rest, open[..|open| - 1], format)
      else if c == ',' && format then
        && open != "" && rest != ""
        && (if open[|open| - 1] == '[' then rest[0] == ' ' && LaidOut(rest[1..], open, format)
            else rest[0] == '\n' && LaidOut(rest, open, format))
      else if c == ':' && format then rest != "" && rest[0] == '\t' && LaidOut(rest[1..], open, format)
      else if c == '\n' && format then
        var k := TabRun(rest);
        && LineStart(rest, open)
        && if rest[k] == '}' then LaidOut(rest[k + 1..], open[..|open| - 1], format) else LaidOut(rest[k..], open, format)
      else c > ' ' && LaidOut(rest, open, format)
  }

  // ----- the scanner passes over a text

  /** Characters that the scanner only looks at. */
  predicate Dull(c: char) {
    c > ' ' && c !in "\"[{]},:"
  }

  lemma {:induction false} DullLaidOut(w: string, tail: string, open: string, format: bool)
    requires (forall i :: 0 <= i < |w| ==> Dull(w[i])) && LaidOut(tail, open, format)
    ensures LaidOut(w + tail, open, format)
  {
    if w == "" {
      assert w + tail == tail;
    } else {
      DullLaidOut(w[1..], tail, open, format);
      assert (w + tail)[1..] == w[1..] + tail;
    }
  }

  lemma QuoteLaidOut(s: string, tail: string, open: string, format: bool)
    requires LaidOut(tail, open, format)
    ensures LaidOut(Quote(s) + tail, open, format)
  {
    hide Escape, ClosingQuote;
    var t, end := Quote(s) + tail, "\"" + tail;
    assert t[1..] == Escape(s) + end;
    ClosingQuoteOfEscape(s, end);
    assert t[1..][|Escape(s)| + 1..] == tail;
  }

  lemma {:induction false} TabRunOf(k: nat, t: string)
    requires t == "" || t[0] != '\t'
    ensures TabRun(Tabs(k) + t) == k
  {
    if k == 0 {
      assert Tabs(0) + t == t;
    } else {
      TabRunOf(k - 1, t);
      assert (Tabs(k) + t)[1..] == Tabs(k - 1) + t;
    }
  }

  lemma NameLaidOut(t: string, open: string)
    requires t != "" && t[0] == '\"' && Inside(open, '{') && LaidOut(t, open, true)
    ensures LaidOut("\n" + (Tabs(|open|) + t), open, true)
  {
    var k, line := |open|, Tabs(|open|) + t;
    TabRunOf(k, t);
    assert ("\n" + line)[1..] == line && line[k] == t[0] && line[k..] == t;
  }

  /** The brace that closes an object, on a line of its own when formatted. */
  lemma BraceEnds(tail: string, open: string, format: bool)
    requires LaidOut(tail, open, format)
    ensures LaidOut((if format then "\n" else "") + (Indent(format, |open|) + ("}" + tail)), open + "{", format)
  {
    var k, brace := |open|, "}" + tail;
    assert (open + "{")[..k] == open && brace[1..] == tail;
    if format {
      var line := Tabs(k) + brace;
      TabRunOf(k, brace);
      assert ("\n" + line)[1..] == line && line[k] == '}' && line[k + 1..] == tail;
    } else {
      assert "" + ("" + brace) == brace;
    }
  }

  // ----- values

  lemma {:induction false} ValueLaidOut(v: Json, tail: string, open: string, format: bool)
    requires Printable(v) && LaidOut(tail, open, format)
    ensures LaidOut(Render(v, format, |open|) + tail, open, format)
    decreases v, 1
  {
    hide LaidOut, RenderItems, RenderMembers, Quote, Decimal;
    match v
    case Null => DullLaidOut("null", tail, open, format);
    case Bool(b) =>
      if b {
        DullLaidOut("true", tail, open, format);
      } else {
        DullLaidOut("false", tail, open, format);
      }
    case Number(n) =>
      DecimalText(n.Floor);
      NumericDull(Decimal(n.Floor));
      DullLaidOut(Decimal(n.Floor), tail, open, format);
    case String(s) => QuoteLaidOut(s, tail, open, format);
    case Array(items) =>
      var inner := RenderItems(items, format, |open| + 1) + ("]" + tail);
      assert (open + "[")[..|open|] == open;
      CloseLaidOut(tail, open + "[", format);
      ItemsLaidOut(items, "]" + tail, open, format);
      BracketLaidOut(inner, open, format);
      assert Render(v, format, |open|) + tail == "[" + inner;
    case Object(members) => ObjectLaidOut(members, tail, open, format);
  }

  lemma NumericDull(w: string)
    requires forall i :: 0 <= i < |w| ==> IsNumeric(w[i])
    ensures forall i :: 0 <= i < |w| ==> Dull(w[i])
  {
  }

  lemma CloseLaidOut(tail: string, open: string, format: bool)
    requires Inside(open, '[') && LaidOut(tail, open[..|open| - 1], format)
    ensures LaidOut("]" + tail, open, format)
  {
    assert ("]" + tail)[1..] == tail;
  }

  lemma BracketLaidOut(inner: string, open: string, format: bool)
    requires LaidOut(inner, open + "[", format)
    ensures LaidOut("[" + inner, open, format)
  {
    assert ("[" + inner)[1..] == inner;
  }

  lemma BraceLaidOut(inner: string, open: string, format: bool)
    requires LaidOut(inner, open + "{", format) && (format ==> inner != "" && inner[0] == '\n')
    ensures LaidOut("{" + inner, open, format)
  {
    assert ("{" + inner)[1..] == inner;
  }

  lemma ColonLaidOut(t: string, open: string, format: bool)
    requires LaidOut(t, open, format)
    ensures LaidOut(Colon(format) + t, open, format)
  {
    var s := Colon(format) + t;
    if format {
      assert s[1..][1..] == t;
    } else {
      assert s[1..] == t;
    }
  }

  lemma CommaLaidOut(t: string, open: string, format: bool)
    requires LaidOut(t, open + "[", format)
    ensures LaidOut(Comma(format, true) + t, open + "[", format)
  {
    var s := Comma(format, true) + t;
    if format {
      assert s[1..][1..] == t;
    } else {
      assert s[1..] == t;
    }
  }

  /** The elements, in front of the closing bracket that `tail` starts with. */
  lemma {:induction false} ItemsLaidOut(items: seq<Json>, tail: string, open: string, format: bool)
    requires PrintableItems(items) && LaidOut(tail, open + "[", format)
    ensures LaidOut(RenderItems(items, format, |open| + 1) + tail, open + "[", format)
    decreases items, 0
  {
    hide LaidOut, Render, Printable;
    if items == [] {
      assert RenderItems(items, format, |open| + 1) + tail == tail;
    } else {
      var more := RenderItems(items[1..], format, |open| + 1) + tail;
      ItemsLaidOut(items[1..], tail, open, format);
      var after := Comma(format, |items| > 1) + more;
      if |items| > 1 {
        CommaLaidOut(more, open, format);
      } else {
        assert after == more;
      }
      ValueLaidOut(items[0], after, open + "[", format);
      ItemsText(items, format, |open| + 1, tail);
    }
  }

  lemma {:induction false} ObjectLaidOut(members: seq<Member>, tail: string, open: string, format: bool)
    requires PrintableMembers(members) && LaidOut(tail, open, format)
    ensures LaidOut(Render(Object(members), format, |open|) + tail, open, format)
    decreases members, 1
  {
    hide LaidOut, Printable, RenderMembers;
    MembersLaidOut(members, tail, open, format);
    var feed := if format then "\n" else "";
    var inner := feed + (RenderMembers(members, format, |open| + 1) + (Indent(format, |open|) + ("}" + tail)));
    BraceLaidOut(inner, open, format);
    ObjectJoin(members, tail, open, format);
  }

  lemma ObjectJoin(members: seq<Member>, tail: string, open: string, format: bool)
    requires PrintableMembers(members)
    ensures var feed := if format then "\n" else "";
      Render(Object(members), format, |open|) + tail
        == "{" + (feed + (RenderMembers(members, format, |open| + 1) + (Indent(format, |open|) + ("}" + tail))))
  {
    hide RenderMembers;
  }

  /** The members and the closing brace, behind the line feed of a formatted text. */
  lemma {:induction false} MembersLaidOut(members: seq<Member>, tail: string, open: string, format: bool)
    requires PrintableMembers(members) && LaidOut(tail, open, format)
    ensures var feed := if format then "\n" else "";
      LaidOut(feed + (RenderMembers(members, format, |open| + 1) + (Indent(format, |open|) + ("}" + tail))),
              open + "{", format)
    decreases members, 0
  {
    hide LaidOut, Render, Printable, Quote;
    var inside := open + "{";
    var feed := if format then "\n" else "";
    var end := Indent(format, |open|) + ("}" + tail);
    if members == [] {
      assert RenderMembers(members, format, |open| + 1) + end == end;
      BraceEnds(tail, open, format);
    } else {
      var m := members[0];
      var more := RenderMembers(members[1..], format, |open| + 1) + end;
      MembersLaidOut(members[1..], tail, open, format);
      SeparatorLaidOut(|members| > 1, more, open, format);
      var after := EndMember(format, |members| > 1) + more;
      ValueLaidOut(m.value, after, inside, format);
      var value := Render(m.value, format, |open| + 1) + after;
      ColonLaidOut(value, inside, format);
      QuoteLaidOut(m.key, Colon(format) + value, inside, format);
      var name := Quote(m.key) + (Colon(format) + value);
      QuoteHead(m.key, Colon(format) + value);
      MembersText(members, format, |open| + 1, end);
      if format {
        NameLaidOut(name, inside);
      } else {
        assert "" + ("" + name) == name;
      }
    }
  }

  lemma QuoteHead(s: string, t: string)
    ensures Quote(s) + t != "" && (Quote(s) + t)[0] == '\"'
  {
  }

  lemma SeparatorLaidOut(more: bool, t: string, open: string, format: bool)
    requires var feed := if format then "\n" else ""; LaidOut(feed + t, open + "{", format)
    ensures LaidOut(EndMember(format, more) + t, open + "{", format)
  {
    var feed := if format then "\n" else "";
    if more {
      var s := "," + (feed + t);
      assert EndMember(format, more) + t == s;
      assert s[1..] == feed + t;
    } else {
      assert EndMember(format, more) + t == feed + t;
    }
  }

  /** All printed text is laid out. */
  lemma PrintedLayout(v: Json, format: bool)
    requires Printable(v)
    ensures LaidOut(Render(v, format, 0), "", format)
  {
    ValueLaidOut(v, "", "", format);
    assert Render(v, format, 0) + "" == Render(v, format, 0);
  }
}
