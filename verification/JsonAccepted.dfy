/** What the parser accepts, and nothing else: values in brackets, braces, commas and colons
    as JSON has them, with any characters up to the space between them. */
module JsonAccepted {
  import opened JsonNumber
  import opened JsonValue
  import opened JsonGrammar
  import opened RoundTrip
  import opened ParserLaws

  datatype Loose =
    | Word(word: string)
    | Numeral(digits: string, n: real)
    | Quoted(between: string, s: string)
    | Brackets(inside: string, slots: seq<Slot>)
    | Braces(inside: string, fields: seq<Field>)

  datatype Slot = Slot(before: string, item: Loose, after: string)

  datatype Field = Field(before: string, between: string, key: string, beforeColon: string, afterColon: string,
                         item: Loose, after: string)

  /** What the two leaf parsers take for the value. */
  ghost predicate NumeralOf(digits: string, n: real) {
    && 0 < |digits| <= 63 && (digits[0] == '-' || '0' <= digits[0] <= '9')
    && (forall i :: 0 <= i < |digits| ==> digits[i] in "0123456789+-eE.")
    && exists rest :: Terminated(digits + rest) && ParseNumber(digits + rest) == Ok(Number(n), rest)
  }

  ghost predicate QuotedAs(between: string, s: string) {
    exists rest :: Terminated("\"" + between + "\"" + rest) && ParseString("\"" + between + "\"" + rest) == Ok(s, rest)
  }

  ghost predicate Valid(f: Loose)
    decreases f, 1
  {
    match f
    case Word(w) => w in ["null", "true", "false"]
    case Numeral(digits, n) => NumeralOf(digits, n)
    case Quoted(between, s) => QuotedAs(between, s)
    case Brackets(inside, slots) => Blank(inside) && ValidSlots(slots)
    case Braces(inside, fields) => Blank(inside) && ValidFields(fields)
  }

  ghost predicate ValidSlots(slots: seq<Slot>)
    decreases slots, 0
  {
    slots == [] ||
    (Blank(slots[0].before) && Valid(slots[0].item) && Blank(slots[0].after) && ValidSlots(slots[1..]))
  }

  ghost predicate ValidFields(fields: seq<Field>)
    decreases fields, 0
  {
    fields == [] || (ValidField(fields[0]) && ValidFields(fields[1..]))
  }

  ghost predicate ValidField(m: Field)
    decreases m, 2
  {
    && Blank(m.before) && QuotedAs(m.between, m.key) && Blank(m.beforeColon) && Blank(m.afterColon)
    && Valid(m.item) && Blank(m.after)
  }

  function Text(f: Loose): string
    decreases f, 1
  {
    match f
    case Word(w) => w
    case Numeral(digits, _) => digits
    case Quoted(between, _) => "\"" + between + "\""
    case Brackets(inside, slots) => "[" + inside + SlotsText(slots) + "]"
    case Braces(inside, fields) => "{" + inside + FieldsText(fields) + "}"
  }

  function SlotsText(slots: seq<Slot>): string
    decreases slots, 0
  {
    if slots == [] then ""
    else slots[0].before + Text(slots[0].item) + slots[0].after
           + (if |slots| > 1 then "," + SlotsText(slots[1..]) else "")
  }

  function FieldsText(fields: seq<Field>): string
    decreases fields, 0
  {
    if fields == [] then "" else FieldText(fields[0]) + (if |fields| > 1 then "," + FieldsText(fields[1..]) else "")
  }

  function FieldText(m: Field): string
    decreases m, 2
  {
    m.before + ("\"" + m.between + "\"") + m.beforeColon + ":" + m.afterColon + Text(m.item) + m.after
  }

  function Meaning(f: Loose): Json
    decreases f, 1
  {
    match f
    case Word(w) => if w == "null" then Null else Bool(w == "true")
    case Numeral(_, n) => Number(n)
    case Quoted(_, s) => String(s)
    case Brackets(_, slots) => Array(Items(slots))
    case Braces(_, fields) => Object(Members(fields))
  }

  function Items(slots: seq<Slot>): seq<Json>
    decreases slots, 0
  {
    if slots == [] then [] else [Meaning(slots[0].item)] + Items(slots[1..])
  }

  function Members(fields: seq<Field>): seq<Member>
    decreases fields, 0
  {
    if fields == [] then [] else [Member(fields[0].key, Meaning(fields[0].item))] + Members(fields[1..])
  }

  // ----- what was skipped

  lemma {:induction false} Skipped(s: string) returns (blank: string)
    requires Terminated(s)
    ensures Blank(blank) && s == blank + SkipWhitespace(s)
  {
    hide NulFree, Blank;
    SkipStep(s);
    if |s| > 1 && s[0] <= ' ' {
      hide SkipWhitespace;
      FirstNotNul(s);
      var more := Skipped(From(s, 1));
      BlankStep(s[0], more);
      blank := [s[0]] + more;
      Cut(s, more, SkipWhitespace(s));
    } else {
      blank := "";
      NothingBlank();
      assert "" + s == s;
    }
  }

  lemma SkipStep(s: string)
    requires Terminated(s)
    ensures SkipWhitespace(s) == if |s| > 1 && s[0] <= ' ' then SkipWhitespace(From(s, 1)) else s
  {
  }

  lemma Cut(s: string, more: string, t: string)
    requires s != "" && s[1..] == more + t
    ensures s == [s[0]] + more + t
  {
    assert s == [s[0]] + s[1..];
  }

  lemma BlankStep(c: char, more: string)
    requires '\0' < c <= ' ' && Blank(more)
    ensures Blank([c] + more)
  {
  }

  lemma FirstNotNul(s: string)
    requires Terminated(s)
    ensures |s| > 1 ==> s[0] != '\0'
  {
    if |s| > 1 {
      assert s[0] in s[..|s| - 1];
    }
  }

  /** A character and the whitespace behind it. */
  lemma SkippedAfter(s: string) returns (blank: string)
    requires Terminated(s) && s[0] != '\0'
    ensures Blank(blank) && s == [s[0]] + blank + SkipWhitespace(From(s, 1))
  {
    hide SkipWhitespace;
    blank := Skipped(From(s, 1));
    assert s == [s[0]] + s[1..];
  }

  // ----- leaves

  lemma WordAccepted(s: string, depth: nat) returns (f: Loose)
    requires Terminated(s) && ("null" <= s || "false" <= s || "true" <= s)
    ensures ParseValue(s, depth).Ok? && Valid(f) && Meaning(f) == ParseValue(s, depth).value
    ensures s == Text(f) + ParseValue(s, depth).rest
  {
    hide NulFree, ParseString, ParseNumber, ParseArray, ParseObject;
    var w := if "null" <= s then "null" else if "false" <= s then "false" else "true";
    f := Word(w);
    assert s == w + s[|w|..];
  }

  lemma NumeralAccepted(s: string) returns (f: Loose)
    requires Terminated(s) && (s[0] == '-' || IsDigit(s[0])) && ParseNumber(s).Ok?
    ensures Valid(f) && Meaning(f) == ParseNumber(s).value && s == Text(f) + ParseNumber(s).rest
  {
    hide Strtod;
    var p := NumericPrefix(s, 63);
    var x := Strtod(p);
    f := Numeral(s[..x.0], x.1);
    assert s == s[..x.0] + s[x.0..];
    forall i | 0 <= i < x.0
      ensures s[i] in "0123456789+-eE."
    {
      assert p[i] == s[i] && IsNumeric(p[i]);
      NumericIn(s[i]);
    }
  }

  lemma NumericIn(c: char)
    requires IsNumeric(c)
    ensures c in "0123456789+-eE."
  {
    if IsDigit(c) {
      var d := c as int - '0' as int;
      assert c == "0123456789"[d] == "0123456789+-eE."[d];
    } else {
      assert "0123456789+-eE."[10..] == "+-eE.";
      assert c in "+-eE.";
    }
  }

  lemma QuotedAccepted(s: string) returns (between: string)
    requires Terminated(s) && ParseString(s).Ok?
    ensures s == "\"" + between + "\"" + ParseString(s).rest && QuotedAs(between, ParseString(s).value)
  {
    hide Unescape, ClosingQuote, NulFree;
    var end := ClosingQuote(s[1..]);
    between := s[1..][..end];
    assert s == "\"" + between + "\"" + s[end + 2..];
  }

  // ----- values

  lemma {:induction false} ValueAccepted(s: string, depth: nat) returns (f: Loose)
    requires Terminated(s) && ParseValue(s, depth).Ok?
    ensures Valid(f) && Meaning(f) == ParseValue(s, depth).value && s == Text(f) + ParseValue(s, depth).rest
    decreases |s|, 2
  {
    hide Terminated, NulFree, ParseNumber, ParseArray, ParseObject, ParseString, QuotedAs, NumeralOf;
    if "null" <= s || "false" <= s || "true" <= s {
      f := WordAccepted(s, depth);
    } else if s[0] == QUOTE {
      var between := QuotedAccepted(s);
      f := Quoted(between, ParseString(s).value);
    } else if s[0] == '-' || IsDigit(s[0]) {
      f := NumeralAccepted(s);
    } else if s[0] == '[' {
      f := ArrayAccepted(s, depth);
    } else {
      f := ObjectAccepted(s, depth);
    }
  }

  lemma {:induction false} ArrayAccepted(s: string, depth: nat) returns (f: Loose)
    requires Terminated(s) && s[0] == '[' && ParseArray(s, depth).Ok?
    ensures Valid(f) && Meaning(f) == ParseArray(s, depth).value && s == Text(f) + ParseArray(s, depth).rest
    decreases |s|, 1
  {
    hide ParseElements, ParseArray, SkipWhitespace, NulFree, Text, Blank, SlotsText, ValidSlots, Items;
    ArrayTurn(s, depth);
    var blank := SkippedAfter(s);
    var inner := SkipWhitespace(From(s, 1));
    if inner[0] == ']' {
      f := Brackets(blank, []);
      assert inner == "]" + From(inner, 1);
      NoSlots(blank, From(inner, 1));
    } else {
      var slots := ElementsAccepted(inner, depth + 1, blank);
      f := Brackets("", slots);
      NothingBlank();
      SlotsJoin(slots, ParseElements(inner, depth + 1).rest);
    }
  }

  lemma NothingBlank()
    ensures Blank("") && ValidSlots([]) && ValidFields([]) && Items([]) == [] && Members([]) == []
  {
  }

  lemma NoSlots(blank: string, rest: string)
    ensures Text(Brackets(blank, [])) + rest == "[" + blank + ("]" + rest)
    ensures Text(Braces(blank, [])) + rest == "{" + blank + ("}" + rest)
    ensures ValidSlots([]) && ValidFields([]) && Items([]) == [] && Members([]) == []
  {
  }

  lemma SlotsJoin(slots: seq<Slot>, rest: string)
    ensures Text(Brackets("", slots)) + rest == "[" + (SlotsText(slots) + "]" + rest)
  {
    hide SlotsText;
  }

  lemma FieldsJoin(fields: seq<Field>, rest: string)
    ensures Text(Braces("", fields)) + rest == "{" + (FieldsText(fields) + "}" + rest)
  {
    hide FieldsText;
  }

  /** The elements up to the closing bracket, the first of them behind `before`. */
  lemma {:induction false} ElementsAccepted(s: string, depth: nat, before: string) returns (slots: seq<Slot>)
    requires Terminated(s) && ParseElements(s, depth).Ok? && Blank(before)
    ensures slots != [] && ValidSlots(slots) && Items(slots) == ParseElements(s, depth).value
    ensures before + s == SlotsText(slots) + "]" + ParseElements(s, depth).rest
    decreases |s|, 3
  {
    hide ParseElements, ParseValue, SkipWhitespace, NulFree, Text, Meaning, Valid, Blank, SlotsText, ValidSlots, Items;
    ElementsTurn(s, depth);
    var item := ValueAccepted(s, depth);
    var v := ParseValue(s, depth);
    var after := Skipped(v.rest);
    var rest := SkipWhitespace(v.rest);
    var slot := Slot(before, item, after);
    if rest[0] == ',' {
      var gap := SkippedAfter(rest);
      var next := SkipWhitespace(From(rest, 1));
      var more := ElementsAccepted(next, depth, gap);
      slots := [slot] + more;
      SlotStep(slot, more, s, v.rest, rest, gap + next, ParseElements(next, depth).rest);
    } else {
      slots := [slot];
      assert rest == "]" + From(rest, 1);
      SlotEnd(slot, s, v.rest, rest, From(rest, 1));
    }
  }

  lemma SlotStep(slot: Slot, more: seq<Slot>, s: string, after: string, rest: string, next: string, end: string)
    requires more != [] && s == Text(slot.item) + after && after == slot.after + rest && rest == "," + next
    requires next == SlotsText(more) + "]" + end
    ensures slot.before + s == SlotsText([slot] + more) + "]" + end
    ensures ValidSlots([slot] + more) <==>
              Blank(slot.before) && Valid(slot.item) && Blank(slot.after) && ValidSlots(more)
    ensures Items([slot] + more) == [Meaning(slot.item)] + Items(more)
  {
    hide Text, Meaning, Valid, Blank;
    assert ([slot] + more)[1..] == more;
    Concatenated(slot.before, Text(slot.item), slot.after, ",", SlotsText(more), "]", end);
  }

  lemma SlotEnd(slot: Slot, s: string, after: string, rest: string, end: string)
    requires s == Text(slot.item) + after && after == slot.after + rest && rest == "]" + end
    ensures slot.before + s == SlotsText([slot]) + "]" + end
    ensures ValidSlots([slot]) <==> Blank(slot.before) && Valid(slot.item) && Blank(slot.after)
    ensures Items([slot]) == [Meaning(slot.item)]
  {
    hide Text, Meaning, Valid, Blank;
    Concatenated(slot.before, Text(slot.item), slot.after, "", "", "]", end);
  }

  lemma Concatenated(a: string, b: string, c: string, d: string, e: string, f: string, g: string)
    ensures a + (b + (c + (d + (e + f + g)))) == a + b + c + (d + e) + f + g
    ensures a + (b + (c + (f + g))) == a + b + c + "" + f + g
  {
  }

  lemma {:induction false} ObjectAccepted(s: string, depth: nat) returns (f: Loose)
    requires Terminated(s) && s[0] == '{' && ParseObject(s, depth).Ok?
    ensures Valid(f) && Meaning(f) == ParseObject(s, depth).value && s == Text(f) + ParseObject(s, depth).rest
    decreases |s|, 1
  {
    hide ParseMembers, ParseObject, SkipWhitespace, NulFree, Text, Blank, FieldsText, ValidFields, Members;
    ObjectTurn(s, depth);
    var blank := SkippedAfter(s);
    var inner := SkipWhitespace(From(s, 1));
    if inner[0] == '}' {
      f := Braces(blank, []);
      assert inner == "}" + From(inner, 1);
      NoSlots(blank, From(inner, 1));
    } else {
      var fields := MembersAccepted(inner, depth + 1, blank);
      f := Braces("", fields);
      NothingBlank();
      FieldsJoin(fields, ParseMembers(inner, depth + 1).rest);
    }
  }

  lemma {:induction false} MembersAccepted(s: string, depth: nat, before: string) returns (fields: seq<Field>)
    requires Terminated(s) && ParseMembers(s, depth).Ok? && Blank(before)
    ensures fields != [] && ValidFields(fields) && Members(fields) == ParseMembers(s, depth).value
    ensures before + s == FieldsText(fields) + "}" + ParseMembers(s, depth).rest
    decreases |s|, 3
  {
    hide ParseMembers, ParseMember, SkipWhitespace, NulFree, FieldText, Meaning, ValidField, Blank;
    hide FieldsText, ValidFields, Members;
    MembersTurn(s, depth);
    var v := ParseMember(s, depth);
    var rest := SkipWhitespace(v.rest);
    var field := MemberAccepted(s, depth, before);
    if rest[0] == ',' {
      var gap := SkippedAfter(rest);
      var next := SkipWhitespace(From(rest, 1));
      var more := MembersAccepted(next, depth, gap);
      fields := [field] + more;
      FieldStep(field, more, before + s, rest, gap + next, ParseMembers(next, depth).rest);
    } else {
      fields := [field];
      assert rest == "}" + From(rest, 1);
      FieldEnd(field, before + s, rest, From(rest, 1));
    }
  }

  lemma FieldStep(field: Field, more: seq<Field>, s: string, rest: string, next: string, end: string)
    requires more != [] && s == FieldText(field) + rest && rest == "," + next
    requires next == FieldsText(more) + "}" + end
    ensures s == FieldsText([field] + more) + "}" + end
    ensures ValidFields([field] + more) <==> ValidField(field) && ValidFields(more)
    ensures Members([field] + more) == [Member(field.key, Meaning(field.item))] + Members(more)
  {
    hide FieldText, Meaning, ValidField;
    assert ([field] + more)[1..] == more;
    assert FieldsText([field] + more) == FieldText(field) + ("," + FieldsText(more));
    hide FieldsText, ValidFields, Members;
    Joined(FieldText(field), ",", FieldsText(more), "}", end);
  }

  lemma Joined(a: string, b: string, c: string, d: string, e: string)
    ensures a + (b + (c + d + e)) == a + (b + c) + d + e
  {
  }

  lemma FieldEnd(field: Field, s: string, rest: string, end: string)
    requires s == FieldText(field) + rest && rest == "}" + end
    ensures s == FieldsText([field]) + "}" + end
    ensures ValidFields([field]) <==> ValidField(field)
    ensures Members([field]) == [Member(field.key, Meaning(field.item))]
  {
    hide FieldText, Meaning, ValidField;
  }

  /** One member, and the whitespace behind its value. */
  lemma {:induction false} MemberAccepted(s: string, depth: nat, before: string) returns (field: Field)
    requires Terminated(s) && ParseMember(s, depth).Ok? && Blank(before)
    ensures ValidField(field) && Member(field.key, Meaning(field.item)) == ParseMember(s, depth).value
    ensures before + s == FieldText(field) + SkipWhitespace(ParseMember(s, depth).rest)
    decreases |s|, 2
  {
    hide ParseMember, ParseString, ParseValue, SkipWhitespace, NulFree, Text, Meaning, Valid, Blank, QuotedAs;
    MemberTurn(s, depth);
    var between := QuotedAccepted(s);
    var name := ParseString(s);
    var beforeColon := Skipped(name.rest);
    var colon := SkipWhitespace(name.rest);
    var afterColon := SkippedAfter(colon);
    var value := SkipWhitespace(From(colon, 1));
    var item := ValueAccepted(value, depth);
    var v := ParseValue(value, depth);
    var after := Skipped(v.rest);
    field := Field(before, between, name.value, beforeColon, afterColon, item, after);
    FieldJoin(field, SkipWhitespace(v.rest));
  }

  lemma FieldJoin(m: Field, rest: string)
    ensures FieldText(m) + rest
              == m.before + ("\"" + m.between + "\"" + (m.beforeColon + (":" + m.afterColon + (Text(m.item) + (m.after + rest)))))
  {
    hide Text;
  }

  // ----- the theorem

  /** A whole text that is accepted is a value between blanks, perhaps behind a byte order
      mark, and it is that value. */
  lemma TextAccepted(text: string) returns (mark: string, before: string, f: Loose, after: string)
    requires NulFree(text) && ParseText(text, true).Ok?
    ensures mark in ["", "\U{EF}\U{BB}\U{BF}"] && Blank(before) && Valid(f) && Blank(after)
    ensures text == mark + before + Text(f) + after && ParseText(text, true).value == Meaning(f)
  {
    hide ParseValue, SkipWhitespace, SkipBom, Text, Meaning, Valid, Blank;
    var s := text + "\0";
    assert s[..|text|] == text;
    var t := SkipBom(s);
    mark := MarkSkipped(s);
    before := Skipped(t);
    var body := SkipWhitespace(t);
    f := ValueAccepted(body, 0);
    var rest := ParseValue(body, 0).rest;
    after := Skipped(rest);
    FirstNotNul(SkipWhitespace(rest));
    TextJoin(mark, before, Text(f), after, text);
  }

  lemma MarkSkipped(s: string) returns (mark: string)
    requires Terminated(s)
    ensures mark in ["", "\U{EF}\U{BB}\U{BF}"] && s == mark + SkipBom(s)
  {
    if |s| > 4 && "\U{EF}\U{BB}\U{BF}" <= s {
      mark := "\U{EF}\U{BB}\U{BF}";
      assert s == mark + s[3..];
    } else {
      mark := "";
      assert "" + s == s;
    }
  }

  lemma TextJoin(mark: string, before: string, value: string, after: string, text: string)
    requires text + "\0" == mark + (before + (value + (after + "\0")))
    ensures text == mark + before + value + after
  {
    var t := mark + before + value + after;
    assert text + "\0" == t + "\0";
    assert text == (text + "\0")[..|text|] && t == (t + "\0")[..|t|];
  }
}
