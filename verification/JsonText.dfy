/** Facts about the text of a value: it holds no NUL and starts visibly. */
module JsonText {
  import opened JsonNumber
  import opened JsonValue

  lemma {:induction false} EscapeNulFree(s: string)
    requires NulFree(s)
    ensures NulFree(Escape(s))
  {
    if s != "" {
      EscapeNulFree(s[1..]);
    }
  }

  lemma DecimalText(n: int)
    requires -1000000000000000 < n < 1000000000000000
    ensures 0 < |Decimal(n)| <= 16
    ensures forall i :: 0 <= i < |Decimal(n)| ==> IsNumeric(Decimal(n)[i])
    ensures Decimal(n)[0] == '-' || IsDigit(Decimal(n)[0])
  {
    var m := if n < 0 then -n else n;
    DigitsAreDigits(m);
    PowerFifteen();
    DigitsLength(m, 15);
  }

  lemma PowerFifteen()
    ensures Pow10(15) == 1000000000000000.0
  {
    assert Pow10(3) == 1000.0;
    assert Pow10(6) == 1000000.0;
    assert Pow10(9) == 1000000000.0;
    assert Pow10(12) == 1000000000000.0;
  }

  /** The first character of a rendered value is never whitespace, a closing
      bracket or the start of a byte order mark. */
  lemma RenderHead(v: Json, format: bool, depth: nat)
    requires Printable(v)
    ensures Render(v, format, depth) != "" && Render(v, format, depth)[0] > ' '
    ensures Render(v, format, depth)[0] != ']' && Render(v, format, depth)[0] != '\U{EF}'
  {
    if v.Number? {
      DecimalText(v.n.Floor);
    }
  }

  lemma {:induction false} RenderNulFree(v: Json, format: bool, depth: nat)
    requires Printable(v)
    ensures NulFree(Render(v, format, depth))
    decreases v, 1
  {
    hide Decimal, Escape, RenderItems, RenderMembers;
    match v
    case Null =>
    case Bool(_) =>
    case Number(n) => DecimalText(n.Floor);
    case String(s) => EscapeNulFree(s);
    case Array(items) => RenderItemsNulFree(items, format, depth + 1);
    case Object(members) => RenderMembersNulFree(members, format, depth + 1);
  }

  lemma {:induction false} RenderItemsNulFree(items: seq<Json>, format: bool, depth: nat)
    requires PrintableItems(items)
    ensures NulFree(RenderItems(items, format, depth))
    decreases items, 0
  {
    hide Render;
    if items != [] {
      RenderNulFree(items[0], format, depth);
      RenderItemsNulFree(items[1..], format, depth);
    }
  }

  lemma {:induction false} RenderMembersNulFree(members: seq<Member>, format: bool, depth: nat)
    requires PrintableMembers(members)
    ensures NulFree(RenderMembers(members, format, depth))
    decreases members, 0
  {
    hide Render, Escape;
    if members != [] {
      EscapeNulFree(members[0].key);
      RenderNulFree(members[0].value, format, depth);
      RenderMembersNulFree(members[1..], format, depth);
    }
  }

  lemma {:induction false} EscapeLength(s: string)
    ensures |Escape(s)| >= |s|
    ensures |Escape(s)| == |s| <==> Escape(s) == s
  {
    if s != "" {
      EscapeLength(s[1..]);
    }
  }

  lemma EscapeStep(s: string, i: nat)
    requires i <= |s|
    ensures Escape(s[i..]) == if i == |s| then "" else EscapeChar(s[i]) + Escape(s[i + 1..])
  {
    if i < |s| {
      assert s[i..][1..] == s[i + 1..];
    }
  }

  lemma RenderItemsStep(items: seq<Json>, i: nat, format: bool, depth: nat)
    requires i <= |items| && PrintableItems(items[i..])
    ensures i == |items| ==> RenderItems(items[i..], format, depth) == ""
    ensures i < |items| ==> Printable(items[i]) && PrintableItems(items[i + 1..])
    ensures i < |items| ==>
      RenderItems(items[i..], format, depth)
        == Render(items[i], format, depth) + Comma(format, i + 1 < |items|) + RenderItems(items[i + 1..], format, depth)
  {
    hide Render, Printable;
    if i < |items| {
      assert items[i..][1..] == items[i + 1..];
    }
  }

  lemma RenderMembersStep(members: seq<Member>, i: nat, format: bool, depth: nat)
    requires i <= |members| && PrintableMembers(members[i..])
    ensures i == |members| ==> RenderMembers(members[i..], format, depth) == ""
    ensures i < |members| ==> PrintableMember(members[i]) && PrintableMembers(members[i + 1..])
    ensures i < |members| ==>
      RenderMembers(members[i..], format, depth)
        == RenderMember(members[i], format, depth, i + 1 < |members|) + RenderMembers(members[i + 1..], format, depth)
  {
    hide RenderMember, PrintableMember;
    if i < |members| {
      assert members[i..][1..] == members[i + 1..];
    }
  }

  lemma RenderArray(items: seq<Json>, format: bool, depth: nat)
    requires PrintableItems(items)
    ensures Render(Array(items), format, depth) == "[" + RenderItems(items, format, depth + 1) + "]"
  {
  }

  lemma RenderObject(members: seq<Member>, format: bool, depth: nat)
    requires PrintableMembers(members)
    ensures Render(Object(members), format, depth)
      == OpenBrace(format) + RenderMembers(members, format, depth + 1) + CloseBrace(format, depth)
  {
  }

  // ----- the text of a value, one layer at a time

  lemma ArrayText(items: seq<Json>, format: bool, depth: nat, rest: string)
    requires PrintableItems(items)
    ensures Render(Array(items), format, depth) + rest
         == "[" + (RenderItems(items, format, depth + 1) + ("]" + rest))
  {
    hide RenderItems, PrintableItems;
  }

  lemma ItemsText(items: seq<Json>, format: bool, depth: nat, tail: string)
    requires items != [] && PrintableItems(items)
    ensures RenderItems(items, format, depth) + tail
         == Render(items[0], format, depth)
            + (Comma(format, |items| > 1) + (RenderItems(items[1..], format, depth) + tail))
  {
    hide Render, Printable, Comma;
  }

  lemma ObjectText(members: seq<Member>, format: bool, depth: nat, rest: string)
    requires PrintableMembers(members)
    ensures Render(Object(members), format, depth) + rest
         == OpenBrace(format) + (RenderMembers(members, format, depth + 1) + (CloseBrace(format, depth) + rest))
  {
    hide RenderMembers, PrintableMembers, OpenBrace, CloseBrace;
  }

  lemma MembersText(members: seq<Member>, format: bool, depth: nat, tail: string)
    requires members != [] && PrintableMember(members[0]) && PrintableMembers(members[1..])
    ensures RenderMembers(members, format, depth) + tail
         == Indent(format, depth) + (Quote(members[0].key) + (Colon(format) + (Render(members[0].value, format, depth)
            + (EndMember(format, |members| > 1) + (RenderMembers(members[1..], format, depth) + tail)))))
  {
    hide Render, Quote, Printable, Indent, Colon, EndMember;
    var m := members[0];
    Reassociate(Indent(format, depth), Quote(m.key), Colon(format), Render(m.value, format, depth),
                EndMember(format, |members| > 1), RenderMembers(members[1..], format, depth), tail);
  }

  lemma Reassociate(a: string, b: string, c: string, d: string, e: string, f: string, g: string)
    ensures a + b + c + d + e + f + g == a + (b + (c + (d + (e + (f + g)))))
  {
  }

  /** A list of elements starts like its first element. */
  lemma ItemsHead(items: seq<Json>, format: bool, depth: nat)
    requires items != [] && PrintableItems(items)
    ensures RenderItems(items, format, depth) != "" && RenderItems(items, format, depth)[0] > ' '
  {
    hide Render, Printable;
    RenderHead(items[0], format, depth);
  }

  lemma NoItems(format: bool, depth: nat)
    ensures RenderItems([], format, depth) == "" && RenderMembers([], format, depth) == ""
  {
  }

  /** Unformatted members start with the quote of the first key. */
  lemma MembersHead(members: seq<Member>, depth: nat)
    requires members != [] && PrintableMembers(members)
    ensures RenderMembers(members, false, depth) != "" && RenderMembers(members, false, depth)[0] == QUOTE
  {
    hide Render, Escape, Printable;
  }
}
