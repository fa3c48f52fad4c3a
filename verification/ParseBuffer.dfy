/** The parser: a cursor over NUL-terminated text, recursive descent, and strings
    unescaped in two passes into a block of the size the first pass computes. */
module ParseBuffer {
  import opened JsonNumber
  import opened JsonValue
  import opened JsonGrammar
  import opened JsonNode
  import opened StringSizing

  class Parser {
    const content: string
    var offset: nat
    var depth: nat
    const heap: Heap

    ghost predicate Valid()
      reads this, heap
    {
      Terminated(content) && offset <= |content| && heap.Valid()
    }

    /** There is a character at the cursor. */
    ghost predicate Ready()
      reads this, heap
    {
      Valid() && offset < |content|
    }

    /** The text that is left. */
    ghost function Rest(): (r: string)
      reads this
      requires offset <= |content|
      ensures |r| == |content| - offset
    {
      content[offset..]
    }

    constructor (text: string, heap: Heap)
      requires NulFree(text) && heap.Valid()
      ensures Ready() && content == text + "\0" && offset == 0 && depth == 0 && this.heap == heap
    {
      content, offset, depth := text + "\0", 0, 0;
      this.heap := heap;
      new;
      assert content[..|content| - 1] == text;
    }

    /** Suffixes of the text are terminated too. */
    lemma RestTerminated(k: nat)
      requires Terminated(content) && k < |content|
      ensures Terminated(content[k..])
    {
      var r := From(content, k);
    }

    lemma NotLast()
      requires Ready() && content[offset] != '\0'
      ensures offset + 1 < |content|
    {
    }

    /** `buffer_skip_whitespace`. */
    method SkipWhitespace()
      requires Ready()
      modifies this`offset
      ensures Ready() && Terminated(old(Rest())) && Rest() == JsonGrammar.SkipWhitespace(old(Rest()))
      ensures old(offset) <= offset
    {
      hide JsonGrammar.SkipWhitespace, NulFree;
      RestTerminated(offset);
      while offset < |content| && content[offset] <= ' '
        invariant old(offset) <= offset <= |content|
        invariant offset < |content| ==> Terminated(Rest())
        invariant offset < |content| ==> JsonGrammar.SkipWhitespace(Rest()) == JsonGrammar.SkipWhitespace(old(Rest()))
        invariant offset == |content| ==> JsonGrammar.SkipWhitespace(old(Rest())) == content[offset - 1..]
        decreases |content| - offset
      {
        SkipStep(Rest());
        if offset + 1 < |content| {
          RestTerminated(offset + 1);
          assert Rest()[1..] == content[offset + 1..];
        }
        offset := offset + 1;
      }
      if offset == |content| {
        offset := offset - 1;
      } else {
        SkipStep(Rest());
      }
      RestTerminated(offset);
    }

    /** `parse_hex4`. */
    method ParseHex4(at: nat) returns (h: nat)
      requires at + 4 <= |content|
      ensures h == Hex4(content[at..at + 4])
    {
      h := 0;
      var i := 0;
      ghost var digits := content[at..at + 4];
      while i < 4
        invariant 0 <= i <= 4
        invariant forall j :: 0 <= j < i ==> HexDigit(digits[j]) >= 0
        invariant i == 0 ==> h == 0
        invariant i == 1 ==> h == 16 * HexDigit(digits[0])
        invariant i == 2 ==> h == 16 * (16 * HexDigit(digits[0]) + HexDigit(digits[1]))
        invariant i == 3 ==> h == 16 * (16 * (16 * HexDigit(digits[0]) + HexDigit(digits[1])) + HexDigit(digits[2]))
        invariant i == 4 ==> h == Hex4(digits)
      {
        var c := content[at + i];
        assert c == digits[i];
        if '0' <= c <= '9' {
          h := h + (c as int - '0' as int);
        } else if 'A' <= c <= 'F' {
          h := h + (10 + (c as int - 'A' as int));
        } else if 'a' <= c <= 'f' {
          h := h + (10 + (c as int - 'a' as int));
        } else {
          return 0;
        }
        if i < 3 {
          h := h * 16;
        }
        i := i + 1;
      }
    }

    /** The end of `utf16_literal_to_utf8`: UTF-8, last byte first.  Masks and shifts
        are written as the arithmetic they do: `(c | 0x80) & 0xBF`, cut to a byte,
        keeps six bits and marks them; `c >>= 6` divides by 64. */
    method PutUtf8(code: nat, output: array<char>, out: nat) returns (next: nat)
      requires code <= 0x10FFFF && out + |Utf8(code)| <= output.Length
      modifies output
      ensures next == out + |Utf8(code)| && output[..next] == old(output[..out]) + Utf8(code)
    {
      var codepoint := code;
      var length, mark := 1, 0;
      if codepoint < 0x80 {
      } else if codepoint < 0x800 {
        length, mark := 2, 0xC0;
      } else if codepoint < 0x10000 {
        length, mark := 3, 0xE0;
      } else {
        length, mark := 4, 0xF0;
      }
      var position := length - 1;
      ghost var bytes := Utf8(code);
      while position > 0
        invariant 0 <= position < length == |bytes|
        invariant output[..out] == old(output[..out])
        invariant forall j :: position < j < length ==> output[out + j] == bytes[j]
        invariant codepoint == if position == length - 1 then code
          else if position == length - 2 then code / 64
          else if position == length - 3 then code / 64 / 64
          else code / 64 / 64 / 64
      {
        output[out + position] := (0x80 + codepoint % 64) as char;
        codepoint := codepoint / 64;
        position := position - 1;
      }
      output[out] := (mark + codepoint) as char;
      next := out + length;
    }

    /** `utf16_literal_to_utf8`: the escape at `at`, with the closing quote at `end`,
        written to `output` from the place `out`. */
    method Utf16ToUtf8(at: nat, end: nat, output: array<char>, out: nat) returns (sequence: nat, next: nat)
      requires at < end < |content|
      requires out + |Utf16Literal(content[at..], end - at).1| <= output.Length
      modifies output
      ensures sequence == Utf16Literal(content[at..], end - at).0
      ensures next == out + |Utf16Literal(content[at..], end - at).1|
      ensures output[..next] == old(output[..out]) + Utf16Literal(content[at..], end - at).1
    {
      hide Utf8, Hex4;
      ghost var t := content[at..];
      sequence, next := 0, out;
      if end - at < 6 {
        return;
      }
      assert t[2..6] == content[at + 2..at + 6];
      var first := ParseHex4(at + 2);
      if 0xDC00 <= first <= 0xDFFF {
        return;
      }
      var codepoint := first;
      var length := 6;
      if 0xD800 <= first <= 0xDBFF {
        length := 12;
        if end - (at + 6) < 6 {
          return;
        }
        if content[at + 6] != BACKSLASH || content[at + 7] != 'u' {
          return;
        }
        assert t[8..12] == content[at + 8..at + 12];
        var second := ParseHex4(at + 8);
        if second < 0xDC00 || second > 0xDFFF {
          return;
        }
        codepoint := 0x10000 + first % 0x400 * 0x400 + second % 0x400;
      }
      next := PutUtf8(codepoint, output, out);
      sequence := length;
    }

    /** First pass of `parse_string` from `start`: the place of the closing quote and
        the number of bytes that escape sequences save. */
    method FindEnd(start: nat) returns (found: bool, end: nat, skipped: nat)
      requires start <= |content|
      ensures found ==> start <= end < |content| && ClosingQuote(content[start..]) == end - start
      ensures found ==> Room(content[start..], end - start, false) == end - start - skipped
      ensures !found ==> ClosingQuote(content[start..]) == -1
    {
      hide ClosingQuote, Room;
      ghost var t := content[start..];
      ghost var k := ClosingQuote(t);
      end, skipped := start, 0;
      while end < |content| && content[end] != QUOTE
        invariant start <= end <= |content|
        invariant k == if ClosingQuote(content[end..]) < 0 then -1 else end - start + ClosingQuote(content[end..])
        invariant k >= 0 ==>
          Room(t, k, false) == end - start - skipped + Room(content[end..], ClosingQuote(content[end..]), false)
        decreases |content| - end
      {
        ghost var rest := content[end..];
        if content[end] == BACKSLASH {
          if end + 1 >= |content| {
            LoneBackslash(rest);
            return false, end, skipped;
          }
          FirstPassStep(rest, 2);
          assert rest[2..] == content[end + 2..];
          skipped := skipped + 1;
          end := end + 1;
        } else {
          FirstPassStep(rest, 1);
          assert rest[1..] == content[end + 1..];
        }
        end := end + 1;
      }
      found := end < |content|;
      NoMoreSteps(content[end..]);
    }

    /** Second pass of `parse_string`: the unescaped text of `content[start..end]` goes to
        `output`, one character less than its size leaves room for the terminator.  On an
        invalid escape `at` is where it starts. */
    method UnescapeInto(start: nat, end: nat, output: array<char>) returns (ok: bool, out: nat, at: nat)
      requires start <= end < |content| && content[end] == QUOTE
      requires Aligned(content[start..], end - start, false)
      requires output.Length == Room(content[start..], end - start, false) + 2
      modifies output
      ensures ok ==> out + 1 < output.Length
      ensures ok ==> Unescape(content[start..], end - start).Ok?
      ensures ok ==> output[..out] == Unescape(content[start..], end - start).value
      ensures !ok ==> at <= |content| && Unescape(content[start..], end - start) == Err(content[at..])
    {
      hide Token, Unescape, Room, Aligned;
      out, at := 0, start;
      ghost var escaped := false;
      ghost var whole := Unescape(content[start..], end - start);
      PrependNothing(whole);
      assert output[..0] == "";
      while at < end
        invariant start <= at <= end + 1
        invariant out + 2 + Room(content[at..], end - at, escaped) <= output.Length
        invariant Aligned(content[at..], end - at, escaped)
        invariant whole == Prepend(output[..out], Unescape(content[at..], end - at))
        decreases end - at
      {
        ghost var before := output[..out];
        ghost var t := content[at..];
        ghost var token := Token(t, end - at);
        if token.0 > 0 {
          escaped := TokenRoom(t, end - at, escaped);
          assert t[token.0..] == content[at + token.0..];
        }
        var k;
        k, out := ReadToken(at, end, output, out);
        if k == 0 {
          UnescapeStep(t, end - at);
          return false, out, at;
        }
        UnescapeStep(t, end - at);
        at := at + k;
        PrependPrepend(before, token.1, Unescape(content[at..], end - at));
      }
      UnescapeEnd(content[at..], end - at);
      ok := true;
    }

    /** One turn of that loop. */
    method ReadToken(at: nat, end: nat, output: array<char>, out: nat) returns (k: nat, next: nat)
      requires at < end < |content|
      requires out + |Token(content[at..], end - at).1| <= output.Length
      modifies output
      ensures k == Token(content[at..], end - at).0
      ensures next == out + |Token(content[at..], end - at).1|
      ensures output[..next] == old(output[..out]) + Token(content[at..], end - at).1
    {
      hide Utf16Literal;
      ghost var t := content[at..];
      k, next := 0, out;
      if content[at] != BACKSLASH {
        output[out] := content[at];
        k, next := 1, out + 1;
      } else {
        var c := content[at + 1];
        if c == 'u' {
          k, next := Utf16ToUtf8(at, end, output, out);
          return;
        } else if c == 'b' {
          output[out] := '\U{8}';
        } else if c == 'f' {
          output[out] := '\U{c}';
        } else if c == 'n' {
          output[out] := '\n';
        } else if c == 'r' {
          output[out] := '\r';
        } else if c == 't' {
          output[out] := '\t';
        } else if c == QUOTE || c == BACKSLASH || c == '/' {
          output[out] := c;
        } else {
          return;
        }
        k, next := 2, out + 1;
      }
    }

    /** `parse_string` into `item`. */
    method ParseString(item: Node) returns (ok: bool, item': Node)
      requires Ready() && Terminated(Rest())
      modifies this`offset, heap
      ensures Valid()
      ensures ok ==> Ready() && item'.payload.StringNode? && item' == item.(payload := item'.payload)
      ensures ok ==> JsonGrammar.ParseString(old(Rest())) == Ok(item'.payload.text.chars, Rest())
      ensures ok ==> heap.live == old(heap.live) + multiset{item'.payload.text.addr}
      ensures !ok ==> item' == item && heap.live == old(heap.live)
      ensures !ok && heap.failures == old(heap.failures) ==> JsonGrammar.ParseString(old(Rest())) == Err(Rest())
      ensures old(heap.failures) <= heap.failures
    {
      hide Unescape, ClosingQuote, Room, Aligned, Heap.Valid, CString;
      item', ok := item, false;
      var start := offset + 1;
      ghost var s, t := Rest(), content[start..];
      assert s[1..] == t;
      if content[offset] != QUOTE {
        offset := start;
        return;
      }
      var found, end, skipped := FindEnd(start);
      if !found {
        offset := start;
        return;
      }
      ClosingQuoteAligned(t);
      var allocationLength := end - offset - skipped;
      var addr := heap.Allocate();
      if addr == 0 {
        offset := start;
        return;
      }
      var output := new char[allocationLength + 1];
      var out, at;
      ok, out, at := UnescapeInto(start, end, output);
      if !ok {
        heap.Free(addr, old(heap.live));
        offset := at;
        return;
      }
      output[out] := '\0';
      item' := item.(payload := StringNode(Block(addr, CString(output[..out]))));
      assert s[end - start + 2..] == content[end + 1..];
      offset := end + 1;
    }

    /** `parse_number` into `item`. */
    method ParseNumber(item: Node) returns (ok: bool, item': Node)
      requires Ready() && Terminated(Rest())
      modifies this`offset
      ensures Valid()
      ensures ok ==> Ready() && item'.payload.NumberNode? && item' == item.(payload := item'.payload)
      ensures ok ==> item'.payload.valueint == Saturated(item'.payload.n)
      ensures ok ==> JsonGrammar.ParseNumber(old(Rest())) == Ok(Number(item'.payload.n), Rest())
      ensures !ok ==> item' == item && JsonGrammar.ParseNumber(old(Rest())) == Err(Rest())
    {
      hide Strtod, NumericPrefix;
      item' := item;
      var scratch := new char[64];
      var s := content[offset..];
      var i := CopyNumber(s, scratch);
      scratch[i] := '\0';
      assert scratch[..i] == NumericPrefix(s, 63);
      var used := Strtod(scratch[..i]);
      if used.0 == 0 {
        return false, item;
      }
      var truncated;
      if used.1 >= INT_MAX as real {
        truncated := INT_MAX;
      } else if used.1 <= INT_MIN as real {
        truncated := INT_MIN;
      } else {
        truncated := if used.1 >= 0.0 then used.1.Floor else -(-used.1).Floor;
      }
      item' := item.(payload := NumberNode(used.1, truncated));
      NumberInside(s);
      assert s[used.0..] == content[offset + used.0..];
      offset := offset + used.0;
      ok := true;
    }

    /** `can_read` and `strncmp`: the text goes on with `word`. */
    predicate Keyword(word: string)
      reads this
      requires Terminated(content) && offset < |content|
      ensures Keyword(word) <==> word <= content[offset..]
      ensures Keyword(word) && NulFree(word) ==> offset + |word| < |content|
      ensures Keyword(word) && NulFree(word) ==> content[offset..][|word|..] == content[offset + |word|..]
    {
      assert word <= content[offset..] && offset + |word| == |content| ==> word[|word| - 1] == '\0';
      offset + |word| <= |content| && content[offset..offset + |word|] == word
    }

    /** `parse_value` into an item fresh from `cJSON_New_Item`. */
    method ParseValue(item: Node) returns (ok: bool, item': Node)
      requires Ready() && Terminated(Rest()) && item.payload == Invalid
      modifies this`offset, this`depth, heap
      ensures Valid() && old(heap.failures) <= heap.failures
      ensures ok ==> Ready() && depth == old(depth) && item' == item.(payload := item'.payload) && WellFormed(item')
      ensures ok ==> JsonGrammar.ParseValue(old(Rest()), old(depth)) == Ok(Value(item'), Rest())
      ensures ok ==> heap.live == old(heap.live) + PayloadBlocks(item'.payload)
      ensures !ok ==> item' == item && heap.live == old(heap.live)
      ensures !ok && heap.failures == old(heap.failures) ==> JsonGrammar.ParseValue(old(Rest()), old(depth)) == Err(Rest())
      decreases |content| - offset, 5
    {
      hide JsonGrammar.ParseString, JsonGrammar.ParseNumber, JsonGrammar.ParseArray, JsonGrammar.ParseObject;
      hide AllWellFormed, AllBlocks;
      item' := item;
      if Keyword("null") {
        item', offset, ok := item.(payload := NullNode), offset + 4, true;
      } else if Keyword("false") {
        item', offset, ok := item.(payload := FalseNode), offset + 5, true;
      } else if Keyword("true") {
        item', offset, ok := item.(payload := TrueNode), offset + 4, true;
      } else if content[offset] == QUOTE {
        ok, item' := ParseString(item);
      } else if content[offset] == '-' || '0' <= content[offset] <= '9' {
        ok, item' := ParseNumber(item);
      } else if content[offset] == '[' {
        ok, item' := ParseArray(item);
      } else if content[offset] == '{' {
        ok, item' := ParseObject(item);
      } else {
        ok := false;
      }
    }

    /** The start of `parse_array` and `parse_object`, up to the first element or the end. */
    method Enter(close: char) returns (empty: bool)
      requires Ready() && Terminated(Rest()) && content[offset] != '\0' && close != '\0'
      modifies this`offset, this`depth
      ensures Ready() && Terminated(Rest()) && offset > old(offset) && depth == old(depth) + 1
      ensures Rest() == JsonGrammar.SkipWhitespace(From(old(Rest()), 1))
      ensures empty <==> content[offset] == close
      ensures JsonGrammar.SkipWhitespace(Rest()) == Rest()
    {
      hide JsonGrammar.SkipWhitespace, NulFree;
      depth := depth + 1;
      NotLast();
      RestTerminated(offset + 1);
      assert Rest()[1..] == content[offset + 1..];
      offset := offset + 1;
      SkipTwice(Rest());
      SkipWhitespace();
      empty := content[offset] == close;
    }

    /** `parse_array`. */
    method ParseArray(item: Node) returns (ok: bool, item': Node)
      requires Ready() && Terminated(Rest()) && item.payload == Invalid && content[offset] == '['
      modifies this`offset, this`depth, heap
      ensures Valid() && old(heap.failures) <= heap.failures
      ensures ok ==> Ready() && depth == old(depth) && item' == item.(payload := item'.payload) && WellFormed(item')
      ensures ok ==> JsonGrammar.ParseArray(old(Rest()), old(depth)) == Ok(Value(item'), Rest())
      ensures ok ==> heap.live == old(heap.live) + PayloadBlocks(item'.payload)
      ensures !ok ==> item' == item && heap.live == old(heap.live)
      ensures !ok && heap.failures == old(heap.failures) ==> JsonGrammar.ParseArray(old(Rest()), old(depth)) == Err(Rest())
      decreases |content| - offset, 4
    {
      hide JsonGrammar.ParseArray, JsonGrammar.ParseElements, JsonGrammar.SkipWhitespace;
      hide AllWellFormed, AllBlocks, Values, Terminated, Heap.Valid;
      item', ok := item, false;
      ArrayTurn(Rest(), depth);
      if depth >= NESTING_LIMIT {
        return;
      }
      var empty := Enter(']');
      var children := [];
      EmptyChildren();
      if empty {
        NotLast();
        assert Rest()[1..] == content[offset + 1..];
      } else {
        offset := offset - 1;
        ok, children := ParseElements();
        if !ok {
          heap.Delete(children, old(heap.live));
          return;
        }
      }
      depth := depth - 1;
      item', ok := item.(payload := ArrayNode(children)), true;
      offset := offset + 1;
    }

    /** `cJSON_New_Item` at the start of a loop turn, and the cursor on the next text; address
        0 stands for an item that could not be allocated. */
    method NewItem() returns (node: Node)
      requires Ready() && offset + 1 < |content| && Terminated(content[offset + 1..])
      modifies this`offset, heap
      ensures Valid() && node == Node(node.addr, Invalid, NoKey)
      ensures node.addr == 0 ==> heap.live == old(heap.live) && heap.failures > old(heap.failures)
      ensures node.addr != 0 ==> heap.live == old(heap.live) + multiset{node.addr}
      ensures node.addr != 0 ==> heap.failures == old(heap.failures) && Ready() && old(offset) < offset
      ensures node.addr != 0 ==>
        Terminated(Rest()) && Rest() == JsonGrammar.SkipWhitespace(old(content[offset + 1..]))
    {
      hide JsonGrammar.SkipWhitespace, Terminated, Heap.Valid;
      var addr := heap.Allocate();
      node := Node(addr, Invalid, NoKey);
      if addr != 0 {
        offset := offset + 1;
        SkipWhitespace();
      }
    }

    /** The loop of `parse_array`, from the character before the first element to the
        closing bracket.  On failure the items made so far are left to be deleted. */
    method ParseElements() returns (ok: bool, children: seq<Node>)
      requires Ready() && offset + 1 < |content| && Terminated(content[offset + 1..])
      modifies this`offset, this`depth, heap
      ensures Valid() && old(heap.failures) <= heap.failures
      ensures heap.live == old(heap.live) + AllBlocks(children)
      ensures ok ==> Ready() && offset + 1 < |content| && depth == old(depth) && AllWellFormed(children, false)
      ensures ok ==>
        JsonGrammar.ParseElements(JsonGrammar.SkipWhitespace(old(content[offset + 1..])), depth)
          == Ok(Values(children), content[offset + 1..])
      ensures !ok && heap.failures == old(heap.failures) ==>
        JsonGrammar.ParseElements(JsonGrammar.SkipWhitespace(old(content[offset + 1..])), old(depth)) == Err(Rest())
      decreases |content| - offset, 3
    {
      hide JsonGrammar.ParseElements, JsonGrammar.ParseValue, JsonGrammar.SkipWhitespace;
      hide WellFormed, AllWellFormed, AllBlocks, Values, Value, Terminated, Heap.Valid;
      ghost var first := JsonGrammar.SkipWhitespace(content[offset + 1..]);
      children := [];
      EmptyChildren();
      PrependAllNothing(JsonGrammar.ParseElements(first, depth));
      while true
        invariant Ready() && offset + 1 < |content| && Terminated(content[offset + 1..])
        invariant depth == old(depth) && old(offset) <= offset
        invariant old(heap.failures) <= heap.failures
        invariant AllWellFormed(children, false) && heap.live == old(heap.live) + AllBlocks(children)
        invariant JsonGrammar.ParseElements(first, depth) == PrependAll(Values(children),
          JsonGrammar.ParseElements(JsonGrammar.SkipWhitespace(content[offset + 1..]), depth))
        decreases |content| - offset
      {
        ghost var done := Values(children);
        ghost var next := JsonGrammar.SkipWhitespace(content[offset + 1..]);
        ElementsTurn(next, depth);
        var node;
        ok, node := ParseElement();
        if node.addr != 0 {
          AppendBlocks(children, node);
          if ok {
            AppendNode(children, node, false);
          }
          children := children + [node];
        }
        if !ok {
          return;
        }
        if content[offset] != ',' {
          break;
        }
        NotLast();
        RestTerminated(offset + 1);
        PrependAllStep(done, Value(node), JsonGrammar.ParseElements(JsonGrammar.SkipWhitespace(content[offset + 1..]), depth));
      }
      if content[offset] != ']' {
        ok := false;
      } else {
        NotLast();
        assert Rest()[1..] == content[offset + 1..];
      }
    }

    /** One turn of that loop; address 0 stands for an item that could not be allocated. */
    method ParseElement() returns (ok: bool, node: Node)
      requires Ready() && offset + 1 < |content| && Terminated(content[offset + 1..])
      modifies this`offset, this`depth, heap
      ensures Valid() && old(heap.failures) <= heap.failures
      ensures node.addr == 0 ==> !ok && heap.live == old(heap.live)
      ensures node.addr != 0 ==> heap.live == old(heap.live) + Blocks(node)
      ensures ok ==> Ready() && depth == old(depth) && WellFormed(node) && old(offset) < offset && Terminated(Rest())
      ensures var v := JsonGrammar.ParseValue(JsonGrammar.SkipWhitespace(old(content[offset + 1..])), old(depth));
        (ok ==> v.Ok? && v.value == Value(node) && Rest() == JsonGrammar.SkipWhitespace(v.rest)) &&
        (!ok && heap.failures == old(heap.failures) ==> v == Err(Rest()))
      decreases |content| - offset, 2
    {
      hide JsonGrammar.ParseValue, JsonGrammar.SkipWhitespace, Terminated, Heap.Valid, WellFormed, Value;
      node := NewItem();
      if node.addr == 0 {
        return false, node;
      }
      ok, node := ParseValue(node);
      if ok {
        SkipWhitespace();
      }
    }

    /** `parse_object`. */
    method ParseObject(item: Node) returns (ok: bool, item': Node)
      requires Ready() && Terminated(Rest()) && item.payload == Invalid && content[offset] == '{'
      modifies this`offset, this`depth, heap
      ensures Valid() && old(heap.failures) <= heap.failures
      ensures ok ==> Ready() && depth == old(depth) && item' == item.(payload := item'.payload) && WellFormed(item')
      ensures ok ==> JsonGrammar.ParseObject(old(Rest()), old(depth)) == Ok(Value(item'), Rest())
      ensures ok ==> heap.live == old(heap.live) + PayloadBlocks(item'.payload)
      ensures !ok ==> item' == item && heap.live == old(heap.live)
      ensures !ok && heap.failures == old(heap.failures) ==> JsonGrammar.ParseObject(old(Rest()), old(depth)) == Err(Rest())
      decreases |content| - offset, 4
    {
      hide JsonGrammar.ParseObject, JsonGrammar.ParseMembers, JsonGrammar.SkipWhitespace;
      hide AllWellFormed, AllBlocks, Members, Terminated, Heap.Valid;
      item', ok := item, false;
      ObjectTurn(Rest(), depth);
      if depth >= NESTING_LIMIT {
        return;
      }
      var empty := Enter('}');
      var children := [];
      EmptyChildren();
      if empty {
        NotLast();
        assert Rest()[1..] == content[offset + 1..];
      } else {
        offset := offset - 1;
        ok, children := ParseMembers();
        if !ok {
          heap.Delete(children, old(heap.live));
          return;
        }
      }
      depth := depth - 1;
      item', ok := item.(payload := ObjectNode(children)), true;
      offset := offset + 1;
    }

    /** The loop of `parse_object`, from the character before the first member to the
        closing brace.  On failure the items made so far are left to be deleted. */
    method ParseMembers() returns (ok: bool, children: seq<Node>)
      requires Ready() && offset + 1 < |content| && Terminated(content[offset + 1..])
      modifies this`offset, this`depth, heap
      ensures Valid() && old(heap.failures) <= heap.failures
      ensures heap.live == old(heap.live) + AllBlocks(children)
      ensures ok ==> Ready() && offset + 1 < |content| && depth == old(depth) && AllWellFormed(children, true)
      ensures ok ==>
        JsonGrammar.ParseMembers(JsonGrammar.SkipWhitespace(old(content[offset + 1..])), depth)
          == Ok(Members(children), content[offset + 1..])
      ensures !ok && heap.failures == old(heap.failures) ==>
        JsonGrammar.ParseMembers(JsonGrammar.SkipWhitespace(old(content[offset + 1..])), old(depth)) == Err(Rest())
      decreases |content| - offset, 3
    {
      hide JsonGrammar.ParseMembers, JsonGrammar.ParseMember, JsonGrammar.SkipWhitespace;
      hide WellFormed, AllWellFormed, AllBlocks, Members, Value, Terminated, Heap.Valid;
      ghost var first := JsonGrammar.SkipWhitespace(content[offset + 1..]);
      children := [];
      EmptyChildren();
      PrependAllNothing(JsonGrammar.ParseMembers(first, depth));
      while true
        invariant Ready() && offset + 1 < |content| && Terminated(content[offset + 1..])
        invariant depth == old(depth) && old(offset) <= offset
        invariant old(heap.failures) <= heap.failures
        invariant AllWellFormed(children, true) && heap.live == old(heap.live) + AllBlocks(children)
        invariant JsonGrammar.ParseMembers(first, depth) == PrependAll(Members(children),
          JsonGrammar.ParseMembers(JsonGrammar.SkipWhitespace(content[offset + 1..]), depth))
        decreases |content| - offset
      {
        ghost var done := Members(children);
        ghost var next := JsonGrammar.SkipWhitespace(content[offset + 1..]);
        MembersTurn(next, depth);
        var node;
        ok, node := ParseMember();
        if node.addr != 0 {
          AppendBlocks(children, node);
          if ok {
            AppendNode(children, node, true);
          }
          children := children + [node];
        }
        if !ok {
          return;
        }
        if content[offset] != ',' {
          break;
        }
        NotLast();
        RestTerminated(offset + 1);
        PrependAllStep(done, Member(node.key.name.chars, Value(node)), JsonGrammar.ParseMembers(JsonGrammar.SkipWhitespace(content[offset + 1..]), depth));
      }
      if content[offset] != '}' {
        ok := false;
      } else {
        NotLast();
        assert Rest()[1..] == content[offset + 1..];
      }
    }

    /** One turn of that loop; address 0 stands for an item that could not be allocated. */
    method ParseMember() returns (ok: bool, node: Node)
      requires Ready() && offset + 1 < |content| && Terminated(content[offset + 1..])
      modifies this`offset, this`depth, heap
      ensures Valid() && old(heap.failures) <= heap.failures
      ensures node.addr == 0 ==> !ok && heap.live == old(heap.live)
      ensures node.addr != 0 ==> heap.live == old(heap.live) + Blocks(node)
      ensures ok ==> Ready() && depth == old(depth) && WellFormed(node) && node.key.Key?
      ensures ok ==> old(offset) < offset && Terminated(Rest())
      ensures var m := JsonGrammar.ParseMember(JsonGrammar.SkipWhitespace(old(content[offset + 1..])), old(depth));
        (ok ==> m.Ok? && m.value == Member(node.key.name.chars, Value(node)) && Rest() == JsonGrammar.SkipWhitespace(m.rest)) &&
        (!ok && heap.failures == old(heap.failures) ==> m == Err(Rest()))
      decreases |content| - offset, 2
    {
      hide JsonGrammar.ParseMember, JsonGrammar.ParseValue, JsonGrammar.ParseString, JsonGrammar.SkipWhitespace;
      hide Terminated;
      MemberTurn(JsonGrammar.SkipWhitespace(content[offset + 1..]), depth);
      ok, node := ParseName();
      if ok {
        ok, node := ParseValue(node);
        if ok {
          SkipWhitespace();
        }
      }
    }

    /** The name of a member, up to the value. */
    method ParseName() returns (ok: bool, node: Node)
      requires Ready() && offset + 1 < |content| && Terminated(content[offset + 1..])
      modifies this`offset, heap
      ensures Valid() && old(heap.failures) <= heap.failures && node.payload == Invalid
      ensures node.addr == 0 ==> !ok && heap.live == old(heap.live)
      ensures node.addr != 0 ==> heap.live == old(heap.live) + Blocks(node)
      ensures ok ==> Ready() && node.key.Key? && old(offset) < offset && Terminated(Rest())
      ensures var name := JsonGrammar.ParseString(JsonGrammar.SkipWhitespace(old(content[offset + 1..])));
        (ok ==> name.Ok? && name.value == node.key.name.chars && AfterColon(name.rest)) &&
        (!ok && heap.failures == old(heap.failures) && name.Err? ==> name.at == Rest()) &&
        (!ok && heap.failures == old(heap.failures) && name.Ok? ==> NoColon(name.rest))
    {
      hide JsonGrammar.ParseString, JsonGrammar.SkipWhitespace, Terminated, Heap.Valid;
      node := NewItem();
      if node.addr == 0 {
        return false, node;
      }
      ok, node := ParseString(node);
      if !ok {
        return;
      }
      SkipWhitespace();
      node := Node(node.addr, Invalid, Key(node.payload.text));
      ok := ParseColon();
    }

    /** The cursor is at the value after the colon that follows `name`. */
    ghost predicate AfterColon(name: string)
      reads this
      requires Terminated(name) && offset <= |content|
    {
      var colon := JsonGrammar.SkipWhitespace(name);
      colon[0] == ':' && Rest() == JsonGrammar.SkipWhitespace(From(colon, 1))
    }

    /** The cursor is where a colon should have followed `name`. */
    ghost predicate NoColon(name: string)
      reads this
      requires Terminated(name) && offset <= |content|
    {
      JsonGrammar.SkipWhitespace(name)[0] != ':' && Rest() == JsonGrammar.SkipWhitespace(name)
    }

    method ParseColon() returns (ok: bool)
      requires Ready() && Terminated(Rest())
      modifies this`offset
      ensures Ready() && Terminated(Rest()) && (ok <==> old(Rest())[0] == ':')
      ensures ok ==> offset > old(offset) && Rest() == JsonGrammar.SkipWhitespace(From(old(Rest()), 1))
      ensures !ok ==> offset == old(offset)
    {
      hide JsonGrammar.SkipWhitespace, NulFree;
      ok := content[offset] == ':';
      if ok {
        NotLast();
        RestTerminated(offset + 1);
        assert Rest()[1..] == content[offset + 1..];
        offset := offset + 1;
        SkipWhitespace();
      }
    }

    /** The body of `cJSON_ParseWithOpts` on a new buffer. */
    method ParseRoot(whole: bool) returns (ok: bool, root: Node)
      requires Ready() && offset == 0 && depth == 0
      modifies this`offset, this`depth, heap
      ensures Valid()
      ensures ok ==> Ready() && WellFormed(root) && heap.live == old(heap.live) + Blocks(root)
      ensures ok ==> ParseContent(content, whole) == Ok(Value(root), Rest())
      ensures !ok ==> heap.live == old(heap.live)
      ensures !ok && heap.failures == old(heap.failures) ==> ParseContent(content, whole) == Err(Rest())
    {
      hide ParseContent, Terminated, Heap.Valid, WellFormed, Value, AllBlocks;
      var addr := heap.Allocate();
      root := Node(addr, Invalid, NoKey);
      if addr == 0 {
        return false, root;
      }
      ok, root := ParseInto(root, whole);
      if !ok {
        heap.DeleteItem(root, old(heap.live));
      }
    }

    /** The text into the new item `item`, which on failure is left to be deleted. */
    method ParseInto(item: Node, whole: bool) returns (ok: bool, root: Node)
      requires Ready() && offset == 0 && depth == 0 && item.payload == Invalid && item.key == NoKey
      modifies this`offset, this`depth, heap
      ensures Valid() && root == item.(payload := root.payload)
      ensures ok ==> Ready() && WellFormed(root) && ParseContent(content, whole) == Ok(Value(root), Rest())
      ensures heap.live == old(heap.live) + PayloadBlocks(root.payload)
      ensures !ok && heap.failures == old(heap.failures) ==> ParseContent(content, whole) == Err(Rest())
    {
      hide JsonGrammar.ParseValue, JsonGrammar.SkipWhitespace, JsonGrammar.SkipBom, Terminated, Heap.Valid;
      hide WellFormed, Value;
      SkipBom();
      SkipWhitespace();
      ok, root := ParseValue(item);
      if ok && whole {
        SkipWhitespace();
        ok := content[offset] == '\0';
      }
    }

    /** `skip_utf8_bom`. */
    method SkipBom()
      requires Ready() && offset == 0
      modifies this`offset
      ensures Ready() && Rest() == JsonGrammar.SkipBom(content)
    {
      if 4 < |content| && content[..3] == "\U{EF}\U{BB}\U{BF}" {
        offset := 3;
      }
    }
  }

  /** `cJSON_ParseWithOpts`: the tree and the place behind it, or the place of the error
      with everything freed that was allocated. */
  method ParseWithOpts(text: string, heap: Heap, whole: bool) returns (ok: bool, root: Node, end: nat)
    requires NulFree(text) && heap.Valid()
    modifies heap
    ensures heap.Valid() && end <= |text|
    ensures ok ==> WellFormed(root) && heap.live == old(heap.live) + Blocks(root)
    ensures ok ==> ParseText(text, whole) == Ok(Value(root), (text + "\0")[end..])
    ensures !ok ==> heap.live == old(heap.live)
    ensures !ok && heap.failures == old(heap.failures) ==>
      var r := ParseText(text, whole);
      r.Err? && end == (if r.at == "" then |text| else |text| + 1 - |r.at|)
  {
    hide JsonGrammar.ParseValue, JsonGrammar.SkipWhitespace, JsonGrammar.SkipBom;
    var buffer := new Parser(text, heap);
    ok, root := buffer.ParseRoot(whole);
    end := if buffer.offset < |buffer.content| then buffer.offset else |buffer.content| - 1;
  }

  lemma SkipStep(t: string)
    requires Terminated(t)
    ensures JsonGrammar.SkipWhitespace(t) ==
      if |t| > 1 && t[0] <= ' ' then JsonGrammar.SkipWhitespace(From(t, 1)) else t
  {
  }

  lemma EmptyChildren()
    ensures AllWellFormed([], false) && AllWellFormed([], true) && AllBlocks([]) == multiset{}
    ensures Values([]) == [] && Members([]) == []
  {
  }

  /** The copying loop of `parse_number` on the text `s` that is left. */
  method CopyNumber(s: string, scratch: array<char>) returns (i: nat)
    requires scratch.Length == 64
    modifies scratch
    ensures i < 64 && scratch[..i] == NumericPrefix(s, 63)
  {
    hide NumericPrefix, IsNumeric;
    i := 0;
    while i < 63 && i < |s| && IsNumeric(s[i])
      invariant 0 <= i <= 63 && i <= |s|
      invariant forall k :: 0 <= k < i ==> scratch[k] == s[k] && IsNumeric(s[k])
    {
      scratch[i] := s[i];
      i := i + 1;
    }
    NumericPrefixIs(s, i, 63);
  }

  lemma {:induction false} NumericPrefixIs(s: string, i: nat, room: nat)
    requires i <= |s| && i <= room && forall k :: 0 <= k < i ==> IsNumeric(s[k])
    requires i == room || i == |s| || !IsNumeric(s[i])
    ensures NumericPrefix(s, room) == s[..i]
  {
    if i > 0 {
      NumericPrefixIs(s[1..], i - 1, room - 1);
    }
  }

  lemma NumberInside(s: string)
    requires Terminated(s)
    ensures |NumericPrefix(s, 63)| < |s|
  {
    var p := NumericPrefix(s, 63);
    assert |p| == |s| ==> IsNumeric(p[|s| - 1]);
  }
}
