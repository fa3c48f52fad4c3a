/** What minifying leaves of a text, told by the parts that the text is made of. */
module MinifySegments {
  import opened JsonValue
  import opened Minify

  /** A part of a text with comments; a `Plain` character is none of the others' business. */
  datatype Segment =
    | Blank(blank: char)
    | LineComment(line: string)
    | BlockComment(block: string)
    | Str(body: seq<StringPart>)
    | Plain(c: char)

  datatype StringPart = One(one: char) | EscapedQuote

  predicate ValidSegment(s: Segment) {
    match s
    case Blank(c) => c in "\U{20}\U{9}\U{D}\U{A}"
    case LineComment(t) => '\n' !in t
    case BlockComment(t) => forall i :: 0 <= i < |t| - 1 ==> !(t[i] == '*' && t[i + 1] == '/')
    case Str(ps) => (forall i :: 0 <= i < |ps| ==> ps[i] != One('\"')) && (ps != [] ==> ps[|ps| - 1] != One('\\'))
    case Plain(c) => c !in "\U{20}\U{9}\U{D}\U{A}/\""
  }

  predicate ValidSegments(ss: seq<Segment>) {
    forall i :: 0 <= i < |ss| ==> ValidSegment(ss[i])
  }

  function PartText(p: StringPart): string {
    if p.One? then [p.one] else "\\\""
  }

  function PartsText(ps: seq<StringPart>): string {
    if ps == [] then "" else PartText(ps[0]) + PartsText(ps[1..])
  }

  function SegmentText(s: Segment): string {
    match s
    case Blank(c) => [c]
    case LineComment(t) => "//" + t + "\n"
    case BlockComment(t) => "/*" + t + "*/"
    case Str(ps) => "\"" + PartsText(ps) + "\""
    case Plain(c) => [c]
  }

  function Written(ss: seq<Segment>): string {
    if ss == [] then "" else SegmentText(ss[0]) + Written(ss[1..])
  }

  /** The strings and the plain characters, in their order. */
  function Kept(ss: seq<Segment>): string {
    if ss == [] then ""
    else (if ss[0].Str? || ss[0].Plain? then SegmentText(ss[0]) else "") + Kept(ss[1..])
  }

  // ----- the comments are skipped, the strings are found

  lemma {:induction false} SkipsLine(t: string, rest: string)
    requires '\n' !in t
    ensures SkipLine(t + "\n" + rest) == rest
  {
    var s := t + "\n" + rest;
    if t == "" {
      assert s[1..] == rest;
    } else {
      SkipsLine(t[1..], rest);
      assert s[1..] == t[1..] + "\n" + rest;
    }
  }

  lemma {:induction false} SkipsComment(t: string, rest: string)
    requires forall i :: 0 <= i < |t| - 1 ==> !(t[i] == '*' && t[i + 1] == '/')
    ensures SkipComment(t + "*/" + rest) == rest
  {
    var s := t + "*/" + rest;
    if t == "" {
      assert s[2..] == rest;
    } else {
      assert s[1] == if |t| > 1 then t[1] else '*';
      SkipsComment(t[1..], rest);
      assert s[1..] == t[1..] + "*/" + rest;
    }
  }

  lemma {:induction false} FindsEnd(ps: seq<StringPart>, rest: string)
    requires ValidSegment(Str(ps))
    ensures StringLength(PartsText(ps) + "\"" + rest) == |PartsText(ps)| + 1
  {
    var s := PartsText(ps) + "\"" + rest;
    if ps == [] {
      assert s[0] == '\"';
    } else {
      var more := PartsText(ps[1..]) + "\"" + rest;
      FindsEnd(ps[1..], rest);
      assert s == PartText(ps[0]) + more;
      EndStep(ps[0], ps[1..], more);
    }
  }

  lemma EndStep(p: StringPart, ps: seq<StringPart>, more: string)
    requires p != One('\"') && (ps == [] ==> p != One('\\')) && more != ""
    requires ps != [] ==> more[0] == PartText(ps[0])[0] && ps[0] != One('\"')
    ensures StringLength(PartText(p) + more) == |PartText(p)| + StringLength(more)
  {
    var s := PartText(p) + more;
    if p.One? {
      assert s[1..] == more;
    } else {
      assert s[2..] == more;
    }
  }

  lemma MinifiesString(ps: seq<StringPart>, rest: string)
    requires ValidSegment(Str(ps))
    ensures var t := SegmentText(Str(ps));
      Minified(t + rest) == t + Minified(rest)
  {
    hide Minified, StringLength, PartsText, SkipLine, SkipComment, ValidSegment;
    var t := "\"" + PartsText(ps) + "\"" + rest;
    FindsEnd(ps, rest);
    assert t[1..] == PartsText(ps) + "\"" + rest;
    assert t[0..] == t;
    MinifiedTurn(t, 0);
    var k := |SegmentText(Str(ps))|;
    assert t[0..k] == SegmentText(Str(ps)) && t[k..] == rest;
  }

  lemma MinifiesLine(line: string, rest: string)
    requires ValidSegment(LineComment(line))
    ensures Minified(SegmentText(LineComment(line)) + rest) == Minified(rest)
  {
    SkipsLine(line, rest);
    hide Minified, StringLength, SkipLine, SkipComment, ValidSegment;
    CommentTurn("//", line + "\n" + rest);
    Regrouped("//", line, "\n", rest);
  }

  lemma MinifiesBlock(block: string, rest: string)
    requires ValidSegment(BlockComment(block))
    ensures Minified(SegmentText(BlockComment(block)) + rest) == Minified(rest)
  {
    SkipsComment(block, rest);
    hide Minified, StringLength, SkipLine, SkipComment, ValidSegment;
    CommentTurn("/*", block + "*/" + rest);
    Regrouped("/*", block, "*/", rest);
  }

  lemma Regrouped(a: string, b: string, c: string, d: string)
    ensures a + b + c + d == a + (b + c + d)
  {
  }

  lemma CommentTurn(start: string, t: string)
    requires start == "//" || start == "/*"
    ensures Minified(start + t) == Minified(if start == "//" then SkipLine(t) else SkipComment(t))
  {
    hide Minified, StringLength, SkipLine, SkipComment;
    var s := start + t;
    assert s[2..] == t && s[0..] == s;
    MinifiedTurn(s, 0);
  }

  lemma MinifiesChar(c: char, rest: string)
    requires c != '/' && c != '\"'
    ensures Minified([c] + rest) == (if Whitespace(c) then "" else [c]) + Minified(rest)
  {
    assert ([c] + rest)[1..] == rest;
  }

  /** One part of the text. */
  lemma MinifiesSegment(s: Segment, rest: string)
    requires ValidSegment(s)
    ensures Minified(SegmentText(s) + rest)
              == (if s.Str? || s.Plain? then SegmentText(s) else "") + Minified(rest)
  {
    hide Minified, PartsText;
    assert "" + Minified(rest) == Minified(rest);
    match s
    case Blank(c) => MinifiesChar(c, rest);
    case Plain(c) => MinifiesChar(c, rest);
    case LineComment(line) => MinifiesLine(line, rest);
    case BlockComment(block) => MinifiesBlock(block, rest);
    case Str(ps) => MinifiesString(ps, rest);
  }

  /** Blanks and comments vanish, wherever they stand, and nothing else does. */
  lemma {:induction false} MinifiesWritten(ss: seq<Segment>)
    requires ValidSegments(ss)
    ensures Minified(Written(ss)) == Kept(ss)
  {
    hide Minified, SegmentText, ValidSegment;
    if ss == [] {
      NothingLeft();
    } else {
      MinifiesWritten(ss[1..]);
      MinifiesSegment(ss[0], Written(ss[1..]));
    }
  }
}
