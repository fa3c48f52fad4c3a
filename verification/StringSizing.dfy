/** The size that the first pass of `parse_string` computes is enough for what the
    second pass writes, even when an invalid escape sets the two passes out of step. */
module StringSizing {
  import opened JsonValue
  import opened JsonGrammar

  /** Characters among the first `end` that do not start an escape sequence, when
      the first pass begins in state `escaped`: what the size computation counts. */
  ghost function Room(t: string, end: int, escaped: bool): nat
    requires end <= |t|
  {
    if end <= 0 then 0
    else (if escaped || t[0] != BACKSLASH then 1 else 0) + Room(t[1..], end - 1, EscapedNext(t[0], escaped))
  }

  /** State of the first pass after the character `c`. */
  predicate EscapedNext(c: char, escaped: bool) {
    !escaped && c == BACKSLASH
  }

  /** The first pass does not end in the middle of an escape sequence. */
  ghost predicate Aligned(t: string, end: int, escaped: bool)
    requires end <= |t|
  {
    if end <= 0 then end < 0 || !escaped else Aligned(t[1..], end - 1, EscapedNext(t[0], escaped))
  }

  /** The first pass of `parse_string` counts `end - Room` skipped bytes. */
  lemma {:induction false} ClosingQuoteAligned(t: string)
    requires ClosingQuote(t) >= 0
    ensures Aligned(t, ClosingQuote(t), false)
  {
    if t[0] != QUOTE {
      var step := if t[0] == BACKSLASH then 2 else 1;
      ClosingQuoteAligned(t[step..]);
      if step == 2 {
        assert t[1..][1..] == t[2..];
      }
    }
  }

  /** Consuming a second-pass token of `k` characters leaves the room for what follows. */
  lemma {:induction false} RoomAfter(t: string, end: int, escaped: bool, k: nat) returns (after: bool)
    requires k <= end <= |t| && Aligned(t, end, escaped)
    ensures Aligned(t[k..], end - k, after)
    ensures 2 * Room(t, end, escaped) + (if escaped then 0 else 1) >= 2 * Room(t[k..], end - k, after) + k
  {
    after := escaped;
    if k > 0 {
      var next := EscapedNext(t[0], escaped);
      after := RoomAfter(t[1..], end - 1, next, k - 1);
      assert t[1..][k - 1..] == t[k..];
    }
  }

  /** A two-character escape uses one place of the room, even where it reaches over the closing quote. */
  lemma ShortEscapeRoom(t: string, end: int, escaped: bool) returns (after: bool)
    requires 0 < end < |t| && Aligned(t, end, escaped) && t[0] == BACKSLASH
    ensures Aligned(t[2..], end - 2, after)
    ensures Room(t, end, escaped) >= Room(t[2..], end - 2, after) + 1
  {
    if end == 1 {
      after := false;
      assert Aligned(t[1..], 0, EscapedNext(t[0], escaped));
    } else {
      after := RoomAfter(t, end, escaped, 2);
    }
  }

  /** A token never writes more than the room its characters make. */
  lemma TokenRoom(t: string, end: int, escaped: bool) returns (after: bool)
    requires 0 < end < |t| && Aligned(t, end, escaped) && Token(t, end).0 > 0
    ensures var token := Token(t, end);
      Aligned(t[token.0..], end - token.0, after) &&
      Room(t, end, escaped) >= |token.1| + Room(t[token.0..], end - token.0, after)
  {
    hide Utf16Literal, Unescaped;
    if t[0] != BACKSLASH {
      after := false;
    } else if t[1] == 'u' {
      after := RoomAfter(t, end, escaped, Token(t, end).0);
    } else {
      after := ShortEscapeRoom(t, end, escaped);
    }
  }

  /** Whatever the second pass writes fits, terminator included: the block has
      `Room + 2` characters. */
  lemma {:induction false} Sizing(t: string, end: int, escaped: bool)
    requires end < |t| && Aligned(t, end, escaped)
    ensures Unescape(t, end).Ok? ==> |Unescape(t, end).value| <= Room(t, end, escaped)
    decreases end
  {
    hide Token, Room, Aligned;
    if end > 0 && Token(t, end).0 > 0 {
      var k := Token(t, end).0;
      var after := TokenRoom(t, end, escaped);
      Sizing(t[k..], end - k, after);
    }
  }

  /** Escape sequences that the first pass sees before the closing quote. */
  function Skipped(t: string): nat
    requires ClosingQuote(t) >= 0
    decreases |t|
  {
    if t[0] == QUOTE then 0
    else if t[0] == BACKSLASH then 1 + Skipped(t[2..])
    else Skipped(t[1..])
  }

  lemma {:induction false} RoomIsUnskipped(t: string)
    requires ClosingQuote(t) >= 0
    ensures Room(t, ClosingQuote(t), false) == ClosingQuote(t) - Skipped(t)
    decreases |t|
  {
    hide Room;
    if t[0] == QUOTE {
      NoMoreSteps(t);
    } else {
      var step := if t[0] == BACKSLASH then 2 else 1;
      FirstPassStep(t, step);
      RoomIsUnskipped(t[step..]);
    }
  }

  /** The unescaped string and its terminator are at least one character shorter than
      the block: its size counts the opening quote and a terminator, and leaves out
      one character for every escape sequence of the first pass. */
  lemma StringFits(t: string)
    requires ClosingQuote(t) >= 0 && Unescape(t, ClosingQuote(t)).Ok?
    ensures |Unescape(t, ClosingQuote(t)).value| + 1 < (1 + ClosingQuote(t) - Skipped(t)) + 1
  {
    hide Room, Aligned, Skipped, Unescape, ClosingQuote;
    ClosingQuoteAligned(t);
    Sizing(t, ClosingQuote(t), false);
    RoomIsUnskipped(t);
  }

  /** The passes can fall out of step: here the invalid `\uabc\` swallows half of an
      escaped backslash, and the second pass stops one past the closing quote. */
  lemma OutOfStep()
    ensures var t := "\\uabc\\\\\"";
      ClosingQuote(t) == 7 && Unescape(t, 7) == Ok("\0\"", t[8..])
  {
    hide ClosingQuote, Unescape, Token;
    var t := "\\uabc\\\\\"";
    OutOfStepFirstPass();
    OutOfStepTokens();
    assert t[6..] == "\\\"" && "\\\""[2..] == "" && t[8..] == "";
    UnescapeStep(t, 7);
    UnescapeStep("\\\"", 1);
    UnescapeEnd("", -1);
    assert "\"" + "" == "\"" && "\0" + "\"" == "\0\"";
  }

  lemma OutOfStepFirstPass()
    ensures ClosingQuote("\\uabc\\\\\"") == 7
  {
    hide ClosingQuote, Room;
    var t := "\\uabc\\\\\"";
    assert t[2..] == "abc\\\\\"" && "abc\\\\\""[1..] == "bc\\\\\"" && "bc\\\\\""[1..] == "c\\\\\"";
    assert "c\\\\\""[1..] == "\\\\\"" && "\\\\\""[2..] == "\"";
    NoMoreSteps("\"");
    FirstPassStep("\\\\\"", 2);
    FirstPassStep("c\\\\\"", 1);
    FirstPassStep("bc\\\\\"", 1);
    FirstPassStep("abc\\\\\"", 1);
    FirstPassStep(t, 2);
  }

  lemma OutOfStepTokens()
    ensures Token("\\uabc\\\\\"", 7) == (6, "\0")
    ensures Token("\\\"", 1) == (2, "\"")
  {
    var t := "\\uabc\\\\\"";
    assert t[2..6] == "abc\\";
  }

  lemma PrependPrepend(a: string, b: string, r: Parsed<string>)
    ensures Prepend(a, Prepend(b, r)) == Prepend(a + b, r)
  {
    if r.Ok? {
      assert a + (b + r.value) == a + b + r.value;
    }
  }

  lemma PrependNothing(r: Parsed<string>)
    ensures Prepend("", r) == r
  {
    if r.Ok? {
      assert "" + r.value == r.value;
    }
  }

  lemma UnescapeStep(t: string, end: int)
    requires 0 < end < |t|
    ensures var token := Token(t, end);
      Unescape(t, end)
        == if token.0 == 0 then Err(t) else Prepend(token.1, Unescape(t[token.0..], end - token.0))
  {
  }

  lemma UnescapeEnd(t: string, end: int)
    requires end <= 0 && end < |t|
    ensures Unescape(t, end) == Ok("", t)
  {
  }

  lemma FirstPassStep(t: string, step: nat)
    requires t != "" && t[0] != QUOTE && step == (if t[0] == BACKSLASH then 2 else 1) <= |t|
    ensures ClosingQuote(t) == if ClosingQuote(t[step..]) < 0 then -1 else step + ClosingQuote(t[step..])
    ensures ClosingQuote(t) >= 0 ==>
      Room(t, ClosingQuote(t), false) == 1 + Room(t[step..], ClosingQuote(t[step..]), false)
  {
    if step == 2 {
      assert t[1..][1..] == t[2..];
    }
  }

  lemma LoneBackslash(t: string)
    requires |t| == 1 && t[0] == BACKSLASH
    ensures ClosingQuote(t) == -1
  {
  }

  lemma NoMoreSteps(t: string)
    requires t == "" || t[0] == QUOTE
    ensures ClosingQuote(t) == if t == "" then -1 else 0
    ensures t != "" ==> Room(t, 0, false) == 0
  {
  }
}
