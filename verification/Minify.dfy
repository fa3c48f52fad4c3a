/** `cJSON_Minify`: whitespace and comments leave a text in place, strings stay. */
module Minify {
  import opened JsonNumber
  import opened JsonValue
  import opened JsonText

  // ----- the text that is left, as a function

  predicate Whitespace(c: char) {
    c == ' ' || c == '\t' || c == '\r' || c == '\n'
  }

  /** After `//`: up to and with the end of the line. */
  function SkipLine(s: string): (r: string)
    ensures |r| <= |s|
  {
    if s == "" then "" else if s[0] == '\n' then s[1..] else SkipLine(s[1..])
  }

  /** Behind the opening of a comment: up to and with its end. */
  function SkipComment(s: string): (r: string)
    ensures |r| <= |s|
  {
    if s == "" then ""
    else if s[0] == '*' && |s| > 1 && s[1] == '/' then s[2..]
    else SkipComment(s[1..])
  }

  /** Length of a string's text behind its opening quote, closing quote included; only
      `\"` counts as an escape. */
  function StringLength(s: string): (k: nat)
    ensures k <= |s|
  {
    if s == "" then 0
    else if s[0] == QUOTE then 1
    else if s[0] == BACKSLASH && |s| > 1 && s[1] == QUOTE then 2 + StringLength(s[2..])
    else 1 + StringLength(s[1..])
  }

  function Minified(s: string): (m: string)
    ensures |m| <= |s|
    decreases |s|
  {
    if s == "" then ""
    else if Whitespace(s[0]) then Minified(s[1..])
    else if s[0] == '/' then
      if |s| > 1 && s[1] == '/' then Minified(SkipLine(s[2..]))
      else if |s| > 1 && s[1] == '*' then Minified(SkipComment(s[2..]))
      else Minified(s[1..])
    else if s[0] == QUOTE then
      var k := 1 + StringLength(s[1..]);
      s[..k] + Minified(s[k..])
    else [s[0]] + Minified(s[1..])
  }

  // ----- in place

  /** What is left to read: `a[r..n]` is the unread part of `text`, and the NUL at `n` ends it. */
  ghost predicate Unread(a: array<char>, text: string, r: nat)
    reads a
  {
    r <= |text| < a.Length && NulFree(text) && a[|text|] == '\0' &&
    forall i :: r <= i < |text| ==> a[i] == text[i]
  }

  lemma UnreadAt(a: array<char>, text: string, r: nat)
    requires Unread(a, text, r)
    ensures forall i :: r <= i < |text| ==> a[i] != '\0'
  {
    forall i | r <= i < |text| ensures a[i] != '\0' {
      assert text[i] in text;
    }
  }

  /** `skip_oneline_comment`. */
  method SkipOneLine(a: array<char>, start: nat, ghost text: string) returns (r: nat)
    requires start + 2 <= |text| && Unread(a, text, start)
    ensures start < r <= |text| && text[r..] == SkipLine(text[start + 2..])
  {
    UnreadAt(a, text, start);
    r := start + 2;
    while a[r] != '\0'
      invariant start + 2 <= r <= |text|
      invariant SkipLine(text[r..]) == SkipLine(text[start + 2..])
      decreases |text| - r
    {
      assert text[r..][1..] == text[r + 1..];
      if a[r] == '\n' {
        return r + 1;
      }
      r := r + 1;
    }
  }

  /** `skip_multiline_comment`. */
  method SkipMultiLine(a: array<char>, start: nat, ghost text: string) returns (r: nat)
    requires start + 2 <= |text| && Unread(a, text, start)
    ensures start < r <= |text| && text[r..] == SkipComment(text[start + 2..])
  {
    UnreadAt(a, text, start);
    r := start + 2;
    while a[r] != '\0'
      invariant start + 2 <= r <= |text|
      invariant SkipComment(text[r..]) == SkipComment(text[start + 2..])
      decreases |text| - r
    {
      ghost var rest := text[r..];
      assert rest[1..] == text[r + 1..];
      if a[r] == '*' && a[r + 1] == '/' {
        assert rest[2..] == text[r + 2..];
        return r + 2;
      }
      r := r + 1;
    }
  }

  /** `output[0] = input[0]`, the write pointer not being past the read pointer. */
  method CopyChar(a: array<char>, r: nat, w: nat, ghost text: string)
    requires w <= r < |text| && Unread(a, text, r)
    modifies a
    ensures Unread(a, text, r) && a[..w + 1] == old(a[..w]) + [text[r]]
    ensures forall i :: w < i < a.Length ==> a[i] == old(a[i])
  {
    a[w] := a[r];
  }

  /** One turn of the loop of `minify_string`: `k` characters are copied. */
  method MinifyStringTurn(a: array<char>, r: nat, w: nat, ghost text: string) returns (closed: bool, k: nat)
    requires w <= r < |text| && Unread(a, text, r)
    modifies a
    ensures 0 < k <= |text| - r && Unread(a, text, r + k)
    ensures a[..w + k] == old(a[..w]) + text[r..r + k]
    ensures forall i :: |text| < i < a.Length ==> a[i] == old(a[i])
    ensures StringLength(text[r..]) == k + if closed then 0 else StringLength(text[r + k..])
  {
    hide StringLength, NulFree;
    StringTurn(text, r);
    CopyChar(a, r, w, text);
    closed, k := false, 1;
    if a[r] == QUOTE {
      a[w] := QUOTE;
      closed := true;
    } else if a[r] == BACKSLASH && a[r + 1] == QUOTE {
      CopyChar(a, r + 1, w + 1, text);
      k := 2;
    }
  }

  /** `minify_string`: the string at the read pointer `start` goes to the write pointer `into`. */
  method MinifyString(a: array<char>, start: nat, into: nat, ghost text: string) returns (r: nat, w: nat)
    requires into <= start < |text| && text[start] == QUOTE && Unread(a, text, start)
    modifies a
    ensures start < r == start + 1 + StringLength(text[start + 1..]) <= |text|
    ensures w == into + (r - start) && Unread(a, text, r)
    ensures a[..w] == old(a[..into]) + text[start..r]
    ensures forall i :: |text| < i < a.Length ==> a[i] == old(a[i])
  {
    hide StringLength, NulFree;
    UnreadAt(a, text, start);
    CopyChar(a, start, into, text);
    r, w := start + 1, into + 1;
    while a[r] != '\0'
      invariant start < r <= |text| && w == into + (r - start)
      invariant Unread(a, text, r)
      invariant a[..w] == old(a[..into]) + text[start..r]
      invariant forall i :: |text| < i < a.Length ==> a[i] == old(a[i])
      invariant r - start + StringLength(text[r..]) == 1 + StringLength(text[start + 1..])
      decreases |text| - r
    {
      var closed, k := MinifyStringTurn(a, r, w, text);
      assert text[start..r + k] == text[start..r] + text[r..r + k];
      r, w := r + k, w + k;
      if closed {
        return;
      }
    }
    UnreadAt(a, text, r);
    assert text[r..] == "";
    EmptyString();
  }

  lemma EmptyString()
    ensures StringLength("") == 0
  {
  }

  lemma StringTurn(text: string, r: nat)
    requires r < |text|
    ensures StringLength(text[r..]) ==
      if text[r] == QUOTE then 1
      else if text[r] == BACKSLASH && r + 1 < |text| && text[r + 1] == QUOTE then 2 + StringLength(text[r + 2..])
      else 1 + StringLength(text[r + 1..])
  {
    var rest := text[r..];
    assert rest[1..] == text[r + 1..];
    assert |rest| > 1 ==> rest[2..] == text[r + 2..];
  }

  lemma MinifiedTurn(text: string, r: nat)
    requires r < |text|
    ensures var c := text[r];
      Minified(text[r..]) ==
        if Whitespace(c) then Minified(text[r + 1..])
        else if c == '/' then
          if r + 1 < |text| && text[r + 1] == '/' then Minified(SkipLine(text[r + 2..]))
          else if r + 1 < |text| && text[r + 1] == '*' then Minified(SkipComment(text[r + 2..]))
          else Minified(text[r + 1..])
        else if c == QUOTE then
          var k := r + 1 + StringLength(text[r + 1..]);
          text[r..k] + Minified(text[k..])
        else [c] + Minified(text[r + 1..])
  {
    hide StringLength, SkipLine, SkipComment;
    var rest := text[r..];
    assert rest[1..] == text[r + 1..];
    assert |rest| > 1 ==> rest[2..] == text[r + 2..];
    if text[r] == QUOTE {
      var k := 1 + StringLength(text[r + 1..]);
      assert rest[..k] == text[r..r + k] && rest[k..] == text[r + k..];
    }
  }

  /** One turn of the loop of `cJSON_Minify`; the write pointer never passes the read pointer. */
  method MinifyTurn(a: array<char>, r: nat, w: nat, ghost text: string) returns (r': nat, w': nat)
    requires w <= r < |text| && Unread(a, text, r)
    modifies a
    ensures r < r' <= |text| && w <= w' <= r' && Unread(a, text, r')
    ensures a[..w'] + Minified(text[r'..]) == old(a[..w]) + Minified(text[r..])
    ensures forall i :: |text| < i < a.Length ==> a[i] == old(a[i])
  {
    hide Minified, SkipLine, SkipComment, StringLength, NulFree;
    MinifiedTurn(text, r);
    var c := a[r];
    r', w' := r + 1, w;
    if c == ' ' || c == '\t' || c == '\r' || c == '\n' {
    } else if c == '/' {
      if a[r + 1] == '/' {
        r' := SkipOneLine(a, r, text);
      } else if a[r + 1] == '*' {
        r' := SkipMultiLine(a, r, text);
      }
    } else if c == QUOTE {
      r', w' := MinifyString(a, r, w, text);
    } else {
      CopyChar(a, r, w, text);
      w' := w + 1;
    }
  }

  /** `cJSON_Minify` on the C string `text` in `a`. */
  method MinifyInPlace(a: array<char>, ghost text: string)
    requires Unread(a, text, 0)
    modifies a
    ensures |Minified(text)| < a.Length
    ensures a[..|Minified(text)|] == Minified(text) && a[|Minified(text)|] == '\0'
    ensures forall i :: |text| < i < a.Length ==> a[i] == old(a[i])
  {
    hide Minified, NulFree;
    var r, w := 0, 0;
    assert text[0..] == text;
    while a[r] != '\0'
      invariant 0 <= w <= r <= |text| && Unread(a, text, r)
      invariant a[..w] + Minified(text[r..]) == Minified(text)
      invariant forall i :: |text| < i < a.Length ==> a[i] == old(a[i])
      decreases |text| - r
    {
      r, w := MinifyTurn(a, r, w, text);
    }
    UnreadAt(a, text, r);
    NothingLeft();
    assert text[r..] == "";
    a[w] := '\0';
  }

  lemma NothingLeft()
    ensures Minified("") == ""
  {
  }
}
