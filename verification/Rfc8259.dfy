/** Every text of RFC 8259 is parsed to what it means, unless it nests too deep or holds a
    number too long for the scratch buffer, and then it is an error. */
module Rfc8259 {
  import opened JsonValue
  import opened JsonGrammar
  import opened JsonNumber
  import opened RoundTrip
  import opened ParserLaws
  import opened Rfc8259Numbers
  import opened Rfc8259Strings

  // ----- the grammar of sections 2 to 5: what a text is made of

  datatype Form =
    | NullForm
    | FalseForm
    | TrueForm
    | NumberForm(numeral: Numeral)
    | StringForm(pieces: seq<Piece>)
    | ArrayForm(inside: string, elements: seq<Element>)
    | ObjectForm(inside: string, entries: seq<Entry>)

  /** One element with the whitespace around it. */
  datatype Element = Element(before: string, item: Form, after: string)

  /** One member with the whitespace around its name, its colon and its value. */
  datatype Entry = Entry(before: string, name: seq<Piece>, beforeColon: string, afterColon: string,
                         item: Form, after: string)

  /** Space, horizontal tab, line feed and carriage return. */
  predicate Whitespace(s: string) {
    forall i :: 0 <= i < |s| ==> s[i] in "\U{20}\U{9}\U{A}\U{D}"
  }

  predicate Valid(f: Form)
    decreases f, 1
  {
    match f
    case NumberForm(n) => ValidNumeral(n)
    case StringForm(ps) => ValidPieces(ps)
    case ArrayForm(inside, es) => Whitespace(inside) && ValidElements(es)
    case ObjectForm(inside, es) => Whitespace(inside) && ValidEntries(es)
    case _ => true
  }

  predicate ValidElements(es: seq<Element>)
    decreases es, 0
  {
    es == [] ||
    (Whitespace(es[0].before) && Valid(es[0].item) && Whitespace(es[0].after) && ValidElements(es[1..]))
  }

  predicate ValidEntries(es: seq<Entry>)
    decreases es, 0
  {
    es == [] || (ValidEntry(es[0]) && ValidEntries(es[1..]))
  }

  predicate ValidEntry(e: Entry)
    decreases e, 2
  {
    && Whitespace(e.before) && ValidPieces(e.name) && Whitespace(e.beforeColon)
    && Whitespace(e.afterColon) && Valid(e.item) && Whitespace(e.after)
  }

  function Text(f: Form): string
    requires Valid(f)
    decreases f, 1
  {
    match f
    case NullForm => "null"
    case FalseForm => "false"
    case TrueForm => "true"
    case NumberForm(n) => NumeralText(n)
    case StringForm(ps) => StringText(ps)
    case ArrayForm(inside, es) => "[" + inside + ElementsText(es) + "]"
    case ObjectForm(inside, es) => "{" + inside + EntriesText(es) + "}"
  }

  function ElementsText(es: seq<Element>): string
    requires ValidElements(es)
    decreases es, 0
  {
    if es == [] then ""
    else es[0].before + Text(es[0].item) + es[0].after + (if |es| > 1 then "," else "") + ElementsText(es[1..])
  }

  function EntriesText(es: seq<Entry>): string
    requires ValidEntries(es)
    decreases es, 0
  {
    if es == [] then "" else EntryText(es[0]) + (if |es| > 1 then "," else "") + EntriesText(es[1..])
  }

  function EntryText(e: Entry): string
    requires ValidEntry(e)
    decreases e, 2
  {
    e.before + StringText(e.name) + e.beforeColon + ":" + e.afterColon + Text(e.item) + e.after
  }

  // ----- what it means

  function Meaning(f: Form): Json
    requires Valid(f)
    decreases f, 1
  {
    match f
    case NullForm => Null
    case FalseForm => Bool(false)
    case TrueForm => Bool(true)
    case NumberForm(n) => Number(NumeralValue(n))
    case StringForm(ps) => String(StringMeaning(ps))
    case ArrayForm(_, es) => Array(Items(es))
    case ObjectForm(_, es) => Object(Members(es))
  }

  function Items(es: seq<Element>): seq<Json>
    requires ValidElements(es)
    decreases es, 0
  {
    if es == [] then [] else [Meaning(es[0].item)] + Items(es[1..])
  }

  function Members(es: seq<Entry>): seq<Member>
    requires ValidEntries(es)
    decreases es, 0
  {
    if es == [] then []
    else
      assert ValidEntry(es[0]);
      [Member(StringMeaning(es[0].name), Meaning(es[0].item))] + Members(es[1..])
  }

  /** Within the two limits of the parser: nesting, from `depth` on, and the length of a number. */
  predicate Fits(f: Form, depth: nat)
    decreases f, 1
  {
    match f
    case NumberForm(n) => |NumeralText(n)| <= 63
    case ArrayForm(_, es) => depth < 1000 && ElementsFit(es, depth + 1)
    case ObjectForm(_, es) => depth < 1000 && EntriesFit(es, depth + 1)
    case _ => true
  }

  predicate ElementsFit(es: seq<Element>, depth: nat)
    decreases es, 0
  {
    es == [] || (Fits(es[0].item, depth) && ElementsFit(es[1..], depth))
  }

  predicate EntriesFit(es: seq<Entry>, depth: nat)
    decreases es, 0
  {
    es == [] || (Fits(es[0].item, depth) && EntriesFit(es[1..], depth))
  }

  // ----- the proof

  lemma WhitespaceIsBlank(s: string)
    requires Whitespace(s)
    ensures Blank(s) && forall i :: 0 <= i < |s| ==> !IsNumeric(s[i])
  {
  }

  /** What the parser leaves of a value that does not fit: an error, or the rest of a number. */
  predicate Rejected<T>(r: Parsed<T>) {
    r.Ok? ==> r.rest != "" && IsNumeric(r.rest[0])
  }

  predicate Read(f: Form, depth: nat, s: string, rest: string)
    requires Valid(f) && Terminated(s)
  {
    if Fits(f, depth) then ParseValue(s, depth) == Ok(Meaning(f), rest) else Rejected(ParseValue(s, depth))
  }

  /** Values start visibly, and not with a closing bracket or a byte order mark. */
  predicate Visible(s: string) {
    s != "" && ' ' < s[0] <= '~' && s[0] !in "],}:"
  }

  lemma TextVisible(f: Form)
    requires Valid(f)
    ensures Visible(Text(f))
  {
    if f.NumberForm? {
      NumeralIsNumeric(f.numeral);
    }
  }

  lemma {:induction false} TextNulFree(f: Form)
    requires Valid(f)
    ensures NulFree(Text(f))
    decreases f, 1
  {
    hide NumeralText, StringText, ElementsText, EntriesText;
    match f
    case NumberForm(n) => NumeralNulFree(n);
    case StringForm(ps) => StringParses(ps, "\0");
    case ArrayForm(inside, es) => ElementsNulFree(es);
    case ObjectForm(inside, es) => EntriesNulFree(es);
    case _ =>
  }

  lemma {:induction false} ElementsNulFree(es: seq<Element>)
    requires ValidElements(es)
    ensures NulFree(ElementsText(es))
    decreases es, 0
  {
    hide Text, Valid;
    if es != [] {
      TextNulFree(es[0].item);
      ElementsNulFree(es[1..]);
    }
  }

  lemma {:induction false} EntriesNulFree(es: seq<Entry>)
    requires ValidEntries(es)
    ensures NulFree(EntriesText(es))
    decreases es, 0
  {
    hide EntryText, ValidEntry;
    if es != [] {
      EntryNulFree(es[0]);
      EntriesNulFree(es[1..]);
    }
  }

  lemma {:induction false} EntryNulFree(e: Entry)
    requires ValidEntry(e)
    ensures NulFree(EntryText(e))
    decreases e, 2
  {
    hide Text, Valid, StringText, ValidPieces;
    StringParses(e.name, "\0");
    TextNulFree(e.item);
  }

  lemma {:induction false} FormParses(f: Form, depth: nat, rest: string)
    requires Valid(f) && Terminated(rest) && !IsNumeric(rest[0]) && depth <= NESTING_LIMIT
    ensures Terminated(Text(f) + rest) && Read(f, depth, Text(f) + rest, rest)
    decreases f, 1
  {
    hide Terminated, NulFree, Text, Read;
    TextNulFree(f);
    TerminatedAppend(Text(f), rest);
    match f
    case NumberForm(n) => NumberFormParses(n, depth, rest);
    case StringForm(ps) => StringFormParses(ps, depth, rest);
    case ArrayForm(inside, es) => ArrayParses(inside, es, depth, rest);
    case ObjectForm(inside, es) => ObjectParses(inside, es, depth, rest);
    case _ => KeywordParses(f, depth, rest);
  }

  lemma KeywordParses(f: Form, depth: nat, rest: string)
    requires f.NullForm? || f.FalseForm? || f.TrueForm?
    requires Terminated(rest)
    ensures Terminated(Text(f) + rest) && Read(f, depth, Text(f) + rest, rest)
  {
    hide NulFree, ParseString, ParseNumber, ParseArray, ParseObject;
    KeywordNulFree(f);
    TerminatedAppend(Text(f), rest);
    assert (Text(f) + rest)[0] == Text(f)[0];
    assert (Text(f) + rest)[|Text(f)|..] == rest;
  }

  lemma KeywordNulFree(f: Form)
    requires f.NullForm? || f.FalseForm? || f.TrueForm?
    ensures NulFree(Text(f))
  {
  }

  lemma NumberFormParses(n: Numeral, depth: nat, rest: string)
    requires ValidNumeral(n) && Terminated(rest) && !IsNumeric(rest[0])
    ensures var f := NumberForm(n);
      Terminated(Text(f) + rest) && Read(f, depth, Text(f) + rest, rest)
  {
    hide NulFree, ParseValue, ParseNumber, NumeralText, NumeralValue, ValidNumeral;
    NumberParses(n, rest);
    NumeralIsNumeric(n);
    ValueIsNumber(NumeralText(n) + rest, depth);
  }

  lemma ValueIsNumber(s: string, depth: nat)
    requires Terminated(s) && (s[0] == '-' || IsDigit(s[0]))
    ensures ParseValue(s, depth) == ParseNumber(s)
  {
    hide ParseArray, ParseObject, ParseString, ParseNumber;
  }

  lemma StringFormParses(ps: seq<Piece>, depth: nat, rest: string)
    requires ValidPieces(ps) && Terminated(rest)
    ensures var f := StringForm(ps);
      Terminated(Text(f) + rest) && Read(f, depth, Text(f) + rest, rest)
  {
    hide NulFree, ParseString, ParseNumber, ParseArray, ParseObject, PiecesText, StringMeaning;
    StringParses(ps, rest);
    assert (StringText(ps) + rest)[0] == QUOTE;
  }

  // ----- arrays

  /** Blanks and then something visible, behind a bracket or a separator. */
  lemma SkipTo(open: string, blank: string, body: string)
    requires |open| == 1 && open[0] != '\0' && Whitespace(blank) && Terminated(body) && body[0] > ' '
    ensures var s := open + blank + body;
      Terminated(s) && s[0] == open[0] && SkipWhitespace(From(s, 1)) == body
  {
    hide SkipWhitespace;
    WhitespaceIsBlank(blank);
    SkipLeadingBlanks(blank, body);
    SkipNothing(body);
    TerminatedAppend(open, blank + body);
    var s := open + blank + body;
    assert s == open + (blank + body) && s[1..] == blank + body;
  }

  lemma SkipAfter(blank: string, body: string)
    requires Whitespace(blank) && Terminated(body) && body[0] > ' ' && !IsNumeric(body[0])
    ensures Terminated(blank + body) && SkipWhitespace(blank + body) == body
    ensures !IsNumeric((blank + body)[0])
  {
    hide SkipWhitespace;
    WhitespaceIsBlank(blank);
    SkipLeadingBlanks(blank, body);
    SkipNothing(body);
    assert (blank + body)[0] == if blank == "" then body[0] else blank[0];
  }

  lemma WhitespaceAppend(a: string, b: string)
    requires Whitespace(a) && Whitespace(b)
    ensures Whitespace(a + b)
  {
  }

  lemma NothingInside(depth: nat)
    ensures Items([]) == [] && ElementsFit([], depth) && ElementsText([]) == ""
    ensures Members([]) == [] && EntriesFit([], depth) && EntriesText([]) == ""
  {
  }

  lemma {:induction false} ArrayParses(inside: string, es: seq<Element>, depth: nat, rest: string)
    requires Whitespace(inside) && ValidElements(es) && Terminated(rest) && depth <= NESTING_LIMIT
    ensures var f := ArrayForm(inside, es);
      Terminated(Text(f) + rest) && Read(f, depth, Text(f) + rest, rest)
    decreases es, 1
  {
    hide ParseValue, ParseArray, ParseElements, ElementsText, ValidElements, ElementsFit, NulFree, Terminated;
    hide SkipWhitespace, Items, Whitespace;
    var f := ArrayForm(inside, es);
    var s := Text(f) + rest;
    TextNulFree(f);
    TerminatedAppend(Text(f), rest);
    ArrayTurn(s, depth);
    ValueIsArray(s, depth);
    if depth < NESTING_LIMIT {
      TerminatedAppend("]", rest);
      var tail := "]" + rest;
      assert tail[1..] == rest;
      var lead, body := ElementsBody(es, depth + 1, tail);
      WhitespaceAppend(inside, lead);
      SkipTo("[", inside + lead, body);
      Bracketed("[", inside, ElementsText(es), "]", rest, lead, body);
      assert s == "[" + (inside + lead) + body;
      NothingInside(depth + 1);
    }
  }

  /** The elements and the closing bracket that starts `tail`, behind their leading
      whitespace. */
  lemma {:induction false} ElementsBody(es: seq<Element>, depth: nat, tail: string) returns (lead: string, body: string)
    requires ValidElements(es) && Terminated(tail) && tail[0] == ']' && depth <= NESTING_LIMIT
    ensures Whitespace(lead) && ElementsText(es) + tail == lead + body
    ensures Terminated(body) && body[0] > ' '
    ensures if es == [] then body == tail
            else body[0] != ']' &&
                 if ElementsFit(es, depth) then ParseElements(body, depth) == Ok(Items(es), From(tail, 1))
                 else ParseElements(body, depth).Err?
    decreases es, 0
  {
    hide ParseValue, ParseElements, Text, Meaning, Fits, Valid, NulFree, Terminated, SkipWhitespace, Whitespace;
    hide Items, ElementsFit;
    if es == [] {
      lead, body := "", tail;
      assert ElementsText(es) + tail == tail && "" + tail == tail;
      NoWhitespace();
    } else {
      var e := es[0];
      var gap, next := ElementsBody(es[1..], depth, tail);
      var sep := if |es| > 1 then "," + gap + next else tail;
      if |es| > 1 {
        SkipTo(",", gap, next);
      }
      SkipAfter(e.after, sep);
      var after := e.after + sep;
      lead, body := e.before, Text(e.item) + after;
      TextVisible(e.item);
      assert body[0] == Text(e.item)[0];
      ElementsJoin(es, gap, next, tail);
      FormParses(e.item, depth, after);
      ElementsRead(es, depth, body, after, sep, next, tail);
    }
  }

  lemma NoWhitespace()
    ensures Whitespace("")
  {
  }

  lemma Bracketed(open: string, inside: string, mid: string, end: string, rest: string, lead: string, body: string)
    requires mid + (end + rest) == lead + body
    ensures open + inside + mid + end + rest == open + (inside + lead) + body
  {
    assert open + inside + mid + end + rest == open + inside + (mid + (end + rest));
  }

  lemma Separated(head: string, comma: string, more: string, tail: string, gap: string, next: string)
    requires more + tail == gap + next
    ensures head + comma + more + tail == head + (comma + gap + next)
  {
    assert head + comma + more + tail == head + comma + (more + tail);
  }

  lemma Regrouped(a: string, b: string, c: string, x: string)
    ensures a + b + c + x == a + (b + (c + x))
  {
  }

  /** The text of the elements, from the first value on. */
  lemma ElementsJoin(es: seq<Element>, gap: string, next: string, tail: string)
    requires es != [] && ValidElements(es) && ElementsText(es[1..]) + tail == gap + next
    ensures var sep := if |es| > 1 then "," + gap + next else tail;
      ElementsText(es) + tail == es[0].before + (Text(es[0].item) + (es[0].after + sep))
  {
    hide ElementsText, Text, Valid, Whitespace;
    ElementsStep(es, 0);
    var head := es[0].before + Text(es[0].item) + es[0].after;
    if |es| > 1 {
      Separated(head, ",", ElementsText(es[1..]), tail, gap, next);
      Regrouped(es[0].before, Text(es[0].item), es[0].after, "," + gap + next);
    } else {
      Regrouped(es[0].before, Text(es[0].item), es[0].after, tail);
    }
  }

  lemma ElementsStep(es: seq<Element>, depth: nat)
    requires es != [] && ValidElements(es)
    ensures Valid(es[0].item) && ValidElements(es[1..])
    ensures Items(es) == [Meaning(es[0].item)] + Items(es[1..])
    ensures ElementsFit(es, depth) <==> Fits(es[0].item, depth) && ElementsFit(es[1..], depth)
    ensures var head := es[0].before + Text(es[0].item) + es[0].after;
      ElementsText(es) == if |es| > 1 then head + "," + ElementsText(es[1..]) else head
  {
    hide Text, Meaning, Fits, Whitespace;
    NothingInside(depth);
    var head := es[0].before + Text(es[0].item) + es[0].after;
    assert head + "" + "" == head;
  }

  lemma SkipNumeric(s: string)
    requires Terminated(s) && IsNumeric(s[0])
    ensures SkipWhitespace(s) == s && s[0] !in ",]}\0"
  {
  }

  lemma ElementRejected(body: string, depth: nat)
    requires Terminated(body) && Rejected(ParseValue(body, depth))
    ensures ParseElements(body, depth).Err?
  {
    hide ParseValue, ParseElements, Terminated, SkipWhitespace, IsNumeric;
    ElementsTurn(body, depth);
    if ParseValue(body, depth).Ok? {
      SkipNumeric(ParseValue(body, depth).rest);
    }
  }

  lemma ElementAccepted(body: string, depth: nat, v: Json, after: string, sep: string)
    requires Terminated(body) && ParseValue(body, depth) == Ok(v, after)
    requires Terminated(after) && SkipWhitespace(after) == sep && Terminated(sep)
    ensures sep[0] == ',' ==>
              ParseElements(body, depth) == PrependAll([v], ParseElements(SkipWhitespace(From(sep, 1)), depth))
    ensures sep[0] == ']' ==> ParseElements(body, depth) == Ok([v], From(sep, 1))
  {
    hide ParseValue, ParseElements, Terminated, SkipWhitespace;
    ElementsTurn(body, depth);
  }

  /** One turn of the loop and the turns after it. */
  lemma ElementsRead(es: seq<Element>, depth: nat, body: string, after: string, sep: string,
                     next: string, tail: string)
    requires es != [] && ValidElements(es) && Terminated(body) && Terminated(after) && Terminated(sep)
    requires Terminated(tail) && tail[0] == ']' && Terminated(next)
    requires Read(es[0].item, depth, body, after) && SkipWhitespace(after) == sep
    requires if |es| > 1 then sep[0] == ',' && SkipWhitespace(From(sep, 1)) == next else sep == tail
    requires |es| > 1 ==>
               if ElementsFit(es[1..], depth) then ParseElements(next, depth) == Ok(Items(es[1..]), From(tail, 1))
               else ParseElements(next, depth).Err?
    ensures if ElementsFit(es, depth) then ParseElements(body, depth) == Ok(Items(es), From(tail, 1))
            else ParseElements(body, depth).Err?
  {
    assert |tail| > 1 && (|es| > 1 ==> |sep| > 1);
    hide ParseValue, ParseElements, Text, Meaning, Fits, Valid, NulFree, Terminated, SkipWhitespace, Whitespace;
    hide Items, ElementsFit, ElementsText, ValidElements, Rejected, From;
    ElementsStep(es, depth);
    if Fits(es[0].item, depth) {
      ElementAccepted(body, depth, Meaning(es[0].item), after, sep);
      if |es| == 1 {
        assert es[1..] == [];
        NothingInside(depth);
        assert Items(es) == [Meaning(es[0].item)];
      }
    } else {
      ElementRejected(body, depth);
    }
  }

  // ----- objects

  lemma {:induction false} ObjectParses(inside: string, es: seq<Entry>, depth: nat, rest: string)
    requires Whitespace(inside) && ValidEntries(es) && Terminated(rest) && depth <= NESTING_LIMIT
    ensures var f := ObjectForm(inside, es);
      Terminated(Text(f) + rest) && Read(f, depth, Text(f) + rest, rest)
    decreases es, 1
  {
    hide ParseValue, ParseObject, ParseMembers, EntriesText, ValidEntries, EntriesFit, NulFree, Terminated;
    hide SkipWhitespace, Members, Whitespace;
    var f := ObjectForm(inside, es);
    var s := Text(f) + rest;
    TextNulFree(f);
    TerminatedAppend(Text(f), rest);
    ObjectTurn(s, depth);
    ValueIsObject(s, depth);
    if depth < NESTING_LIMIT {
      TerminatedAppend("}", rest);
      var tail := "}" + rest;
      assert tail[1..] == rest;
      var lead, body := EntriesBody(es, depth + 1, tail);
      WhitespaceAppend(inside, lead);
      SkipTo("{", inside + lead, body);
      Bracketed("{", inside, EntriesText(es), "}", rest, lead, body);
      assert s == "{" + (inside + lead) + body;
      NothingInside(depth + 1);
    }
  }

  /** The members and the closing brace that starts `tail`, behind their leading
      whitespace. */
  lemma {:induction false} EntriesBody(es: seq<Entry>, depth: nat, tail: string) returns (lead: string, body: string)
    requires ValidEntries(es) && Terminated(tail) && tail[0] == '}' && depth <= NESTING_LIMIT
    ensures Whitespace(lead) && EntriesText(es) + tail == lead + body
    ensures Terminated(body) && body[0] > ' '
    ensures if es == [] then body == tail
            else body[0] != '}' &&
                 if EntriesFit(es, depth) then ParseMembers(body, depth) == Ok(Members(es), From(tail, 1))
                 else ParseMembers(body, depth).Err?
    decreases es, 0
  {
    hide ParseMember, ParseMembers, EntryText, Text, Meaning, Fits, ValidEntry, NulFree, Terminated, SkipWhitespace, Whitespace;
    hide Members, EntriesFit, StringMeaning;
    if es == [] {
      lead, body := "", tail;
      assert EntriesText(es) + tail == tail && "" + tail == tail;
      NoWhitespace();
    } else {
      var gap, next := EntriesBody(es[1..], depth, tail);
      var sep := if |es| > 1 then "," + gap + next else tail;
      if |es| > 1 {
        SkipTo(",", gap, next);
      }
      var after;
      body, after := EntryBody(es[0], depth, sep);
      lead := es[0].before;
      EntriesJoin(es, gap, next, tail);
      EntriesRead(es, depth, body, after, sep, next, tail);
    }
  }

  lemma EntriesJoin(es: seq<Entry>, gap: string, next: string, tail: string)
    requires es != [] && ValidEntries(es) && EntriesText(es[1..]) + tail == gap + next
    ensures var sep := if |es| > 1 then "," + gap + next else tail;
      EntriesText(es) + tail == EntryText(es[0]) + sep
  {
    hide EntriesText, EntryText, ValidEntry;
    EntriesStep(es, 0);
    if |es| > 1 {
      Separated(EntryText(es[0]), ",", EntriesText(es[1..]), tail, gap, next);
    }
  }

  lemma EntriesStep(es: seq<Entry>, depth: nat)
    requires es != [] && ValidEntries(es)
    ensures ValidEntry(es[0]) && ValidEntries(es[1..]) && Valid(es[0].item) && ValidPieces(es[0].name)
    ensures Members(es) == [Member(StringMeaning(es[0].name), Meaning(es[0].item))] + Members(es[1..])
    ensures EntriesFit(es, depth) <==> Fits(es[0].item, depth) && EntriesFit(es[1..], depth)
    ensures EntriesText(es)
              == if |es| > 1 then EntryText(es[0]) + "," + EntriesText(es[1..]) else EntryText(es[0])
  {
    hide EntryText, Meaning, Fits, Whitespace, StringMeaning;
    NothingInside(depth);
    assert EntryText(es[0]) + "" + "" == EntryText(es[0]);
  }

  /** What a member that does not fit leaves. */
  predicate ReadEntry(e: Entry, depth: nat, s: string, rest: string)
    requires ValidEntry(e) && Terminated(s)
  {
    if Fits(e.item, depth) then ParseMember(s, depth) == Ok(Member(StringMeaning(e.name), Meaning(e.item)), rest)
    else Rejected(ParseMember(s, depth))
  }

  /** One member, from its name on, and what follows its value. */
  lemma {:induction false} EntryBody(e: Entry, depth: nat, sep: string) returns (body: string, after: string)
    requires ValidEntry(e) && Terminated(sep) && sep[0] > ' ' && !IsNumeric(sep[0]) && depth <= NESTING_LIMIT
    ensures Whitespace(e.before) && EntryText(e) + sep == e.before + body && body != "" && body[0] == QUOTE
    ensures Terminated(body) && Terminated(after) && SkipWhitespace(after) == sep
    ensures ReadEntry(e, depth, body, after)
    decreases e, 0
  {
    hide ParseMember, ParseValue, ParseString, Text, Meaning, Fits, Valid, NulFree, Terminated, SkipWhitespace, Whitespace;
    hide StringText, StringMeaning, ValidPieces;
    SkipAfter(e.after, sep);
    after := e.after + sep;
    FormParses(e.item, depth, after);
    TextVisible(e.item);
    var value := Text(e.item) + after;
    assert value[0] == Text(e.item)[0];
    SkipTo(":", e.afterColon, value);
    var colon := ":" + e.afterColon + value;
    SkipAfter(e.beforeColon, colon);
    var rest := e.beforeColon + colon;
    StringParses(e.name, rest);
    body := StringText(e.name) + rest;
    StringQuoted(e.name);
    assert body[0] == QUOTE;
    EntryJoin(e, sep);
    MemberTurn(body, depth);
  }

  lemma StringQuoted(ps: seq<Piece>)
    requires ValidPieces(ps)
    ensures StringText(ps) != "" && StringText(ps)[0] == QUOTE
  {
  }

  lemma EntryJoin(e: Entry, sep: string)
    requires ValidEntry(e)
    ensures EntryText(e) + sep
              == e.before + (StringText(e.name) + (e.beforeColon + (":" + e.afterColon + (Text(e.item) + (e.after + sep)))))
  {
    hide Text, Valid, StringText, ValidPieces, Whitespace;
  }

  lemma EntryRejected(body: string, depth: nat)
    requires Terminated(body) && Rejected(ParseMember(body, depth))
    ensures ParseMembers(body, depth).Err?
  {
    hide ParseMember, ParseMembers, Terminated, SkipWhitespace, IsNumeric;
    MembersTurn(body, depth);
    if ParseMember(body, depth).Ok? {
      SkipNumeric(ParseMember(body, depth).rest);
    }
  }

  lemma EntryAccepted(body: string, depth: nat, m: Member, after: string, sep: string)
    requires Terminated(body) && ParseMember(body, depth) == Ok(m, after)
    requires Terminated(after) && SkipWhitespace(after) == sep && Terminated(sep)
    ensures sep[0] == ',' ==>
              ParseMembers(body, depth) == PrependAll([m], ParseMembers(SkipWhitespace(From(sep, 1)), depth))
    ensures sep[0] == '}' ==> ParseMembers(body, depth) == Ok([m], From(sep, 1))
  {
    hide ParseMember, ParseMembers, Terminated, SkipWhitespace;
    MembersTurn(body, depth);
  }

  lemma EntriesRead(es: seq<Entry>, depth: nat, body: string, after: string, sep: string,
                    next: string, tail: string)
    requires es != [] && ValidEntries(es) && Terminated(body) && Terminated(after) && Terminated(sep)
    requires Terminated(tail) && tail[0] == '}' && Terminated(next)
    requires ReadEntry(es[0], depth, body, after) && SkipWhitespace(after) == sep
    requires if |es| > 1 then sep[0] == ',' && SkipWhitespace(From(sep, 1)) == next else sep == tail
    requires |es| > 1 ==>
               if EntriesFit(es[1..], depth) then ParseMembers(next, depth) == Ok(Members(es[1..]), From(tail, 1))
               else ParseMembers(next, depth).Err?
    ensures if EntriesFit(es, depth) then ParseMembers(body, depth) == Ok(Members(es), From(tail, 1))
            else ParseMembers(body, depth).Err?
  {
    assert |tail| > 1 && (|es| > 1 ==> |sep| > 1);
    hide ParseMember, ParseMembers, EntryText, Meaning, Fits, ValidEntry, NulFree, Terminated, SkipWhitespace, Whitespace;
    hide StringMeaning, Members, EntriesFit, EntriesText, ValidEntries, Rejected, From;
    EntriesStep(es, depth);
    if Fits(es[0].item, depth) {
      EntryAccepted(body, depth, Member(StringMeaning(es[0].name), Meaning(es[0].item)), after, sep);
      if |es| == 1 {
        assert es[1..] == [];
        NothingInside(depth);
        assert Members(es) == [Member(StringMeaning(es[0].name), Meaning(es[0].item))];
      }
    } else {
      EntryRejected(body, depth);
    }
  }

  // ----- the theorem

  /** A whole text, whitespace around the value included, in null-terminated mode. */
  lemma TextParses(before: string, f: Form, after: string)
    requires Whitespace(before) && Valid(f) && Whitespace(after)
    ensures var text := before + Text(f) + after;
      NulFree(text) &&
      if Fits(f, 0) then ParseText(text, true) == Ok(Meaning(f), "\0") else ParseText(text, true).Err?
  {
    hide Text, Meaning, Fits, Valid, ParseValue, ParseContent, SkipWhitespace, Whitespace, IsNumeric, SkipBom, Rejected;
    var text := before + Text(f) + after;
    TextNulFree(f);
    TextVisible(f);
    WhitespaceIsBlank(before);
    WhitespaceIsBlank(after);
    EndOfText(after);
    var rest := after + "\0";
    FormParses(f, 0, rest);
    var s := text + "\0";
    Regrouped(before, Text(f), after, "\0");
    StartOfText(before, Text(f), rest);
    WholeText(s, Text(f) + rest);
  }

  lemma WholeText(s: string, body: string)
    requires Terminated(s) && Terminated(body) && SkipBom(s) == s && SkipWhitespace(s) == body
    ensures var v := ParseValue(body, 0);
      && (v.Ok? && Terminated(v.rest) && SkipWhitespace(v.rest) == "\0" ==> ParseContent(s, true) == Ok(v.value, "\0"))
      && (Rejected(v) ==> ParseContent(s, true).Err?)
  {
    hide ParseValue, SkipWhitespace, IsNumeric, SkipBom;
    var v := ParseValue(body, 0);
    if v.Ok? && IsNumeric(v.rest[0]) {
      SkipNumeric(v.rest);
    }
  }

  lemma EndOfText(after: string)
    requires Whitespace(after)
    ensures var rest := after + "\0";
      Terminated(rest) && !IsNumeric(rest[0]) && SkipWhitespace(rest) == "\0"
  {
    hide SkipWhitespace;
    WhitespaceIsBlank(after);
    SkipLeadingBlanks(after, "\0");
    SkipEnd();
    if after == "" {
      assert after + "\0" == "\0";
    } else {
      assert (after + "\0")[0] == after[0];
    }
  }

  lemma StartOfText(before: string, text: string, rest: string)
    requires Whitespace(before) && Visible(text) && Terminated(text + rest)
    ensures var s := before + (text + rest);
      Terminated(s) && SkipBom(s) == s && SkipWhitespace(s) == text + rest
  {
    hide SkipWhitespace;
    WhitespaceIsBlank(before);
    SkipLeadingBlanks(before, text + rest);
    SkipNothing(text + rest);
    var s := before + (text + rest);
    assert s[0] == if before == "" then text[0] else before[0];
    assert s[0] <= '~';
    assert "\U{EF}\U{BB}\U{BF}"[0] == '\U{EF}';
  }
}
