/** The printer: it writes a value into a character buffer that either grows or is
    the caller's, and finds the end of what it wrote by looking for the NUL. */
module PrintBuffer {
  import opened JsonNumber
  import opened JsonValue
  import opened JsonText

  const INT_MAX: nat := 0x7FFF_FFFF

  class Printer {
    var buffer: array?<char>
    var length: nat
    var offset: nat
    var depth: nat
    const noalloc: bool
    const format: bool
    /** Whether the allocator has a realloc; without it, growing copies `offset + 1` characters. */
    const reallocate: bool
    /** Whether an allocation has failed. */
    ghost var exhausted: bool

    ghost predicate Valid()
      reads this, buffer
    {
      && (buffer == null <==> exhausted)
      && (buffer != null ==> length == buffer.Length <= INT_MAX)
      && (buffer != null ==> offset < length || (noalloc && offset == length == 0))
    }

    /** How long the text, its terminator and the slack of `Ensure` may get. */
    ghost function Capacity(): nat
      reads this
    {
      if noalloc then length else INT_MAX
    }

    /** What has been written before the cursor. */
    ghost function Text(): string
      reads this, buffer
      requires Valid() && buffer != null
    {
      buffer[..offset]
    }

    /** The buffer holds the C string `text`, and the cursor is somewhere in it. */
    ghost predicate Holds(text: string)
      reads this, buffer
    {
      && Valid() && buffer != null
      && offset <= |text| < length
      && buffer[..|text|] == text && buffer[|text|] == '\0'
      && NulFree(text[offset..])
    }

    /** What every printing step keeps. */
    twostate predicate Kept()
      reads this, buffer
    {
      && Valid()
      && (buffer == old(buffer) || buffer == null || fresh(buffer))
      && (noalloc ==> buffer == old(buffer) && length == old(length) && exhausted == old(exhausted))
    }

    constructor (buffer: array<char>, length: nat, noalloc: bool, format: bool, reallocate: bool)
      requires length == buffer.Length <= INT_MAX
      requires noalloc || 0 < length
      ensures Valid() && this.buffer == buffer && this.length == length && offset == 0 && depth == 0
      ensures this.noalloc == noalloc && this.format == format && !exhausted
    {
      this.buffer, this.length, offset, depth := buffer, length, 0, 0;
      this.noalloc, this.format, this.reallocate := noalloc, format, reallocate;
      exhausted := false;
    }

    /** `ensure`: room for `needed` more characters and one to spare. */
    method Ensure(needed: nat) returns (ok: bool)
      requires Valid()
      modifies this`buffer, this`length, this`exhausted
      ensures Kept() && fresh({buffer} - {old(buffer), null})
      ensures ok ==> buffer != null && offset + needed + 1 <= length
      ensures ok ==> old(buffer != null) && Text() == old(Text())
      ensures !exhausted ==> (ok <==> offset + needed + 1 <= Capacity())
    {
      if buffer == null {
        return false;
      }
      if length > 0 && offset >= length {
        return false;
      }
      if needed > INT_MAX {
        return false;
      }
      var total := needed + offset + 1;
      if total <= length {
        return true;
      }
      if noalloc {
        return false;
      }
      var newsize := 0;
      if total > INT_MAX / 2 {
        if total <= INT_MAX {
          newsize := INT_MAX;
        } else {
          return false;
        }
      } else {
        newsize := total * 2;
      }
      var newbuffer := Allocate(newsize);
      if newbuffer == null {
        length, buffer, exhausted := 0, null, true;
        return false;
      }
      var copied := if reallocate then length else offset + 1;
      forall i | 0 <= i < copied {
        newbuffer[i] := buffer[i];
      }
      length, buffer := newsize, newbuffer;
      return true;
    }

    /** The allocator may fail. */
    static method Allocate(size: nat) returns (block: array?<char>)
      ensures block != null ==> fresh(block) && block.Length == size
    {
      if * {
        block := null;
      } else {
        block := new char[size];
      }
    }

    /** Copies `text` to the place `at` of the buffer. */
    method Store(at: nat, text: string)
      requires buffer != null && at + |text| <= buffer.Length
      modifies buffer
      ensures buffer[..] == old(buffer[..at]) + text + old(buffer[at + |text|..])
    {
      var i := 0;
      while i < |text|
        invariant 0 <= i <= |text|
        invariant buffer[..] == old(buffer[..at]) + text[..i] + old(buffer[at + i..])
      {
        buffer[at + i] := text[i];
        i := i + 1;
      }
    }

    /** `Ensure`, then `text` at the cursor, a NUL after it if asked for, and the cursor behind it. */
    method Append(text: string, needed: nat, terminate: bool) returns (ok: bool)
      requires Valid() && buffer != null && |text| + (if terminate then 1 else 0) <= needed
      modifies this, buffer
      ensures Kept() && depth == old(depth)
      ensures ok ==> buffer != null && Text() == old(Text()) + text
      ensures ok ==> offset == old(offset) + |text|
      ensures !ok ==> offset == old(offset)
      ensures !exhausted ==> (ok <==> old(offset) + needed + 1 <= Capacity())
    {
      ok := Ensure(needed);
      if ok {
        Store(offset, if terminate then text + "\0" else text);
        offset := offset + |text|;
      }
    }

    /** `Ensure`, then the C string `text` at the cursor, which stays where it is. */
    method Copy(text: string) returns (ok: bool)
      requires Valid() && buffer != null && NulFree(text)
      modifies this, buffer
      ensures Kept() && depth == old(depth) && offset == old(offset)
      ensures ok ==> Holds(old(Text()) + text)
      ensures !exhausted ==> (ok <==> old(offset) + |text| + 2 <= Capacity())
    {
      ok := Ensure(|text| + 1);
      if ok {
        Store(offset, text + "\0");
      }
    }

    /** `update_offset`: the cursor moves to the NUL that ends the text. */
    method UpdateOffset(ghost text: string)
      requires Holds(text)
      modifies this`offset
      ensures Valid() && Text() == text && Holds(text)
    {
      forall k | offset <= k < |text| ensures buffer[k] != '\0' {
        assert buffer[k] == buffer[..|text|][k] == text[offset..][k - offset];
      }
      var strlen := 0;
      while buffer[offset + strlen] != '\0'
        invariant offset + strlen <= |text|
        decreases |text| - strlen
      {
        strlen := strlen + 1;
      }
      offset := offset + strlen;
      assert offset == |text|;
    }

    /** First loop of `print_string_ptr`: the characters added by escaping. */
    static method CountEscapes(input: string) returns (escapes: nat)
      ensures |input| + escapes == |Escape(input)|
      ensures escapes == 0 <==> Escape(input) == input
    {
      escapes := 0;
      var i := 0;
      while i < |input|
        invariant 0 <= i <= |input|
        invariant i + escapes + |Escape(input[i..])| == |Escape(input)|
      {
        var c := input[i];
        if c == QUOTE || c == BACKSLASH || c == '\U{8}' || c == '\U{c}' || c == '\n' || c == '\r' || c == '\t' {
          escapes := escapes + 1;
        } else if c < ' ' {
          escapes := escapes + 5;
        }
        assert input[i..][1..] == input[i + 1..];
        i := i + 1;
      }
      EscapeLength(input);
    }

    /** One turn of the copying loop of `print_string_ptr`; `sprintf` leaves a NUL behind. */
    method PutEscaped(at: nat, c: char)
      requires buffer != null && at + |EscapeChar(c)| < buffer.Length
      modifies buffer
      ensures buffer[..at + |EscapeChar(c)|] == old(buffer[..at]) + EscapeChar(c)
      ensures forall i :: at + |EscapeChar(c)| < i < buffer.Length ==> buffer[i] == old(buffer[i])
    {
      if c >= ' ' && c != QUOTE && c != BACKSLASH {
        buffer[at] := c;
      } else {
        buffer[at] := BACKSLASH;
        if c == BACKSLASH {
          buffer[at + 1] := BACKSLASH;
        } else if c == QUOTE {
          buffer[at + 1] := QUOTE;
        } else if c == '\U{8}' {
          buffer[at + 1] := 'b';
        } else if c == '\U{c}' {
          buffer[at + 1] := 'f';
        } else if c == '\n' {
          buffer[at + 1] := 'n';
        } else if c == '\r' {
          buffer[at + 1] := 'r';
        } else if c == '\t' {
          buffer[at + 1] := 't';
        } else {
          Store(at + 1, "u00" + [HexChar(c as int / 16), HexChar(c as int % 16)] + "\0");
        }
      }
    }

    /** Second loop of `print_string_ptr`: the escaped string at the place `at`. */
    method PutString(at: nat, input: string)
      requires buffer != null && at + |Escape(input)| < buffer.Length
      modifies buffer
      ensures buffer[..at + |Escape(input)|] == old(buffer[..at]) + Escape(input)
      ensures forall i :: at + |Escape(input)| < i < buffer.Length ==> buffer[i] == old(buffer[i])
    {
      hide Escape, EscapeChar;
      var out := at;
      var i := 0;
      ghost var written := "";
      assert input[0..] == input;
      while i < |input|
        invariant 0 <= i <= |input| && out == at + |written|
        invariant written + Escape(input[i..]) == Escape(input)
        invariant buffer[..out] == old(buffer[..at]) + written
        invariant forall i :: at + |Escape(input)| < i < buffer.Length ==> buffer[i] == old(buffer[i])
      {
        EscapeStep(input, i);
        PutEscaped(out, input[i]);
        written := written + EscapeChar(input[i]);
        out := out + |EscapeChar(input[i])|;
        i := i + 1;
      }
      EscapeStep(input, i);
    }

    /** The part of `print_string_ptr` after `ensure`: the quoted string and its NUL. */
    method WriteString(at: nat, input: string, escapes: nat)
      requires |input| + escapes == |Escape(input)|
      requires buffer != null && at + |Quote(input)| < buffer.Length
      modifies buffer
      ensures buffer[..at + |Quote(input)|] == old(buffer[..at]) + Quote(input)
      ensures buffer[at + |Quote(input)|] == '\0'
      ensures forall i :: at + |Quote(input)| < i < buffer.Length ==> buffer[i] == old(buffer[i])
    {
      hide Escape, EscapeChar;
      var outputLength := |input| + escapes;
      if escapes == 0 {
        EscapeLength(input);
        Store(at, [QUOTE] + input + [QUOTE, '\0']);
      } else {
        buffer[at] := QUOTE;
        PutString(at + 1, input);
        buffer[at + outputLength + 1] := QUOTE;
        buffer[at + outputLength + 2] := '\0';
      }
    }

    /** `print_string_ptr` on a C string. */
    method PrintString(input: string) returns (ok: bool)
      requires Valid() && buffer != null && NulFree(input)
      modifies this, buffer
      ensures Kept() && depth == old(depth) && offset == old(offset)
      ensures ok ==> Holds(old(Text()) + Quote(input))
      ensures !exhausted ==> (ok <==> old(offset) + |Quote(input)| + 2 <= Capacity())
    {
      hide Escape, EscapeChar;
      var escapes := CountEscapes(input);
      ok := Ensure(|input| + escapes + 3);
      if ok {
        WriteString(offset, input, escapes);
        EscapeNulFree(input);
      }
    }

    /** `print_number` on an integer that "%1.15g" writes in plain decimal. */
    method PrintNumber(n: int) returns (ok: bool)
      requires Valid() && buffer != null && -1000000000000000 < n < 1000000000000000
      modifies this, buffer
      ensures Kept() && depth == old(depth)
      ensures ok ==> Holds(old(Text()) + Decimal(n))
      ensures !exhausted ==> (ok <==> old(offset) + |Decimal(n)| + 2 <= Capacity())
    {
      DecimalText(n);
      var number := Decimal(n);
      ok := Copy(number);
      if ok {
        offset := offset + |number|;
      }
    }

    /** `print_value`. */
    method PrintValue(v: Json) returns (ok: bool)
      requires Valid() && buffer != null && Printable(v)
      modifies this, buffer
      ensures Kept()
      ensures ok ==> depth == old(depth)
      ensures ok ==> Holds(old(Text()) + Render(v, format, old(depth)))
      ensures !exhausted ==> (ok <==> old(offset) + |Render(v, format, old(depth))| + 2 <= Capacity())
      decreases v, 3
    {
      hide Decimal, Quote, RenderItems, RenderMembers, EscapeChar;
      match v
      case Null => ok := Copy("null");
      case Bool(b) =>
        if b {
          ok := Copy("true");
        } else {
          ok := Copy("false");
        }
      case Number(n) =>
        ok := PrintNumber(n.Floor);
      case String(s) => ok := PrintString(s);
      case Array(items) => ok := PrintArray(items);
      case Object(members) => ok := PrintObject(members);
    }

    /** `print_value` and `update_offset`, as every caller combines them. */
    method PrintChild(v: Json) returns (ok: bool)
      requires Valid() && buffer != null && Printable(v)
      modifies this, buffer
      ensures Kept()
      ensures ok ==> depth == old(depth)
      ensures ok ==> buffer != null && Text() == old(Text()) + Render(v, format, old(depth))
      ensures ok ==> buffer[offset] == '\0'
      ensures !exhausted ==> (ok <==> old(offset) + |Render(v, format, old(depth))| + 2 <= Capacity())
      decreases v, 4
    {
      hide Render, Printable;
      ghost var text := old(Text()) + Render(v, format, depth);
      ok := PrintValue(v);
      if ok {
        UpdateOffset(text);
      }
    }

    /** The opening bracket or brace. */
    method Open(open: string, needed: nat) returns (ok: bool)
      requires Valid() && buffer != null && |open| <= needed
      modifies this, buffer
      ensures Kept()
      ensures ok ==> depth == old(depth) + 1 && buffer != null && Text() == old(Text()) + open
      ensures !exhausted ==> (ok <==> old(offset) + needed + 1 <= Capacity())
    {
      ok := Append(open, needed, false);
      if ok {
        depth := depth + 1;
      }
    }

    /** The closing bracket, or the indented closing brace. */
    method Close(close: string) returns (ok: bool)
      requires Valid() && buffer != null && NulFree(close) && depth > 0
      modifies this, buffer
      ensures Kept()
      ensures ok ==> depth == old(depth) - 1 && Holds(old(Text()) + close)
      ensures !exhausted ==> (ok <==> old(offset) + |close| + 2 <= Capacity())
    {
      ok := Copy(close);
      if ok {
        depth := depth - 1;
      }
    }

    /** `print_array`. */
    method PrintArray(items: seq<Json>) returns (ok: bool)
      requires Valid() && buffer != null && PrintableItems(items)
      modifies this, buffer
      ensures Kept()
      ensures ok ==> depth == old(depth)
      ensures ok ==> Holds(old(Text()) + Render(Array(items), format, old(depth)))
      ensures !exhausted ==> (ok <==> old(offset) + |Render(Array(items), format, old(depth))| + 2 <= Capacity())
      decreases items, 2
    {
      hide Render, RenderItems, PrintableItems, NulFree;
      RenderArray(items, format, depth);
      ok := Open("[", 1);
      if !ok {
        return;
      }
      ok := PrintItems(items);
      if !ok {
        return;
      }
      CloseBracketNulFree();
      assert Text() + "]" == old(Text()) + Render(Array(items), format, depth - 1);
      ok := Close("]");
    }

    /** The loop of `print_array` over the child list. */
    method PrintItems(items: seq<Json>) returns (ok: bool)
      requires Valid() && buffer != null && PrintableItems(items)
      modifies this, buffer
      ensures Kept()
      ensures ok ==> depth == old(depth)
      ensures ok ==> buffer != null && Text() == old(Text()) + RenderItems(items, format, old(depth))
      ensures !exhausted && !ok ==> old(offset) + |RenderItems(items, format, old(depth))| + 2 > Capacity()
      decreases items, 1
    {
      hide Render, Printable, RenderItems, PrintableItems, Comma;
      var i := 0;
      ghost var written := "";
      assert items[0..] == items;
      while i < |items|
        invariant 0 <= i <= |items|
        invariant Kept() && buffer != null && depth == old(depth) && Capacity() == old(Capacity())
        invariant PrintableItems(items[i..])
        invariant Text() == old(Text()) + written
        invariant written + RenderItems(items[i..], format, depth) == RenderItems(items, format, depth)
      {
        RenderItemsStep(items, i, format, depth);
        ok := PrintItem(items[i], i + 1 < |items|);
        if !ok {
          return;
        }
        written := written + Render(items[i], format, depth) + Comma(format, i + 1 < |items|);
        i := i + 1;
      }
      RenderItemsStep(items, i, format, depth);
      ok := true;
    }

    /** One turn of that loop: the element, and a comma when another one follows. */
    method PrintItem(v: Json, more: bool) returns (ok: bool)
      requires Valid() && buffer != null && Printable(v)
      modifies this, buffer
      ensures Kept()
      ensures ok ==> depth == old(depth)
      ensures ok ==> buffer != null && Text() == old(Text()) + Render(v, format, old(depth)) + Comma(format, more)
      ensures !exhausted ==>
        (ok <==> old(offset) + |Render(v, format, old(depth)) + Comma(format, more)| + 2 <= Capacity())
      decreases v, 5
    {
      hide Render, Printable;
      ok := PrintChild(v);
      if ok && more {
        var comma := Comma(format, true);
        ok := Append(comma, |comma| + 1, true);
      }
    }

    /** `print_object`. */
    method PrintObject(members: seq<Member>) returns (ok: bool)
      requires Valid() && buffer != null && PrintableMembers(members)
      modifies this, buffer
      ensures Kept()
      ensures ok ==> depth == old(depth)
      ensures ok ==> Holds(old(Text()) + Render(Object(members), format, old(depth)))
      ensures !exhausted ==> (ok <==> old(offset) + |Render(Object(members), format, old(depth))| + 2 <= Capacity())
      decreases members, 2
    {
      hide Render, RenderMembers, PrintableMembers, NulFree, OpenBrace, CloseBrace;
      RenderObject(members, format, depth);
      var open := OpenBrace(format);
      ok := Open(open, |open| + 1);
      if !ok {
        return;
      }
      ok := PrintMembers(members);
      if !ok {
        return;
      }
      var close := CloseBrace(format, depth - 1);
      CloseNulFree(format, depth - 1);
      assert Text() + close == old(Text()) + Render(Object(members), format, depth - 1);
      ok := Close(close);
    }

    /** The loop of `print_object` over the child list. */
    method PrintMembers(members: seq<Member>) returns (ok: bool)
      requires Valid() && buffer != null && PrintableMembers(members)
      modifies this, buffer
      ensures Kept()
      ensures ok ==> depth == old(depth)
      ensures ok ==> buffer != null && Text() == old(Text()) + RenderMembers(members, format, old(depth))
      ensures !exhausted && !ok ==> old(offset) + |RenderMembers(members, format, old(depth))| + 2 > Capacity()
      decreases members, 1
    {
      hide RenderMember, PrintableMember, RenderMembers, PrintableMembers;
      var i := 0;
      ghost var written := "";
      assert members[0..] == members;
      while i < |members|
        invariant 0 <= i <= |members|
        invariant Kept() && buffer != null && depth == old(depth) && Capacity() == old(Capacity())
        invariant PrintableMembers(members[i..])
        invariant Text() == old(Text()) + written
        invariant written + RenderMembers(members[i..], format, depth) == RenderMembers(members, format, depth)
      {
        RenderMembersStep(members, i, format, depth);
        ok := PrintMember(members[i], i + 1 < |members|);
        if !ok {
          return;
        }
        written := written + RenderMember(members[i], format, depth, i + 1 < |members|);
        i := i + 1;
      }
      RenderMembersStep(members, i, format, depth);
      ok := true;
    }

    /** One turn of that loop: indentation, key, colon, value, and what ends the member. */
    method PrintMember(m: Member, more: bool) returns (ok: bool)
      requires Valid() && buffer != null && PrintableMember(m)
      modifies this, buffer
      ensures Kept()
      ensures ok ==> depth == old(depth)
      ensures ok ==> buffer != null && Text() == old(Text()) + RenderMember(m, format, old(depth), more)
      ensures !exhausted ==> (ok <==> old(offset) + |RenderMember(m, format, old(depth), more)| + 2 <= Capacity())
      decreases m, 4
    {
      hide Render, Printable, KeyText, EndMember;
      ok := PrintKey(m.key);
      if !ok {
        return;
      }
      ok := PrintChild(m.value);
      if !ok {
        return;
      }
      var end := EndMember(format, more);
      ok := Append(end, |end| + 1, true);
    }

    /** The part of a member before its value. */
    method PrintKey(key: string) returns (ok: bool)
      requires Valid() && buffer != null && NulFree(key)
      modifies this, buffer
      ensures Kept() && depth == old(depth)
      ensures ok ==> buffer != null
      ensures ok ==> Text() == old(Text()) + KeyText(key, format, depth)
      ensures !exhausted && ok ==> old(offset) + |KeyText(key, format, depth)| + 1 <= Capacity()
      ensures !exhausted && !ok ==> old(offset) + |KeyText(key, format, depth)| + 2 > Capacity()
    {
      hide Quote;
      if format {
        ok := Append(Tabs(depth), depth, false);
        if !ok {
          return;
        }
      }
      ghost var text := Text() + Quote(key);
      ok := PrintString(key);
      if !ok {
        return;
      }
      UpdateOffset(text);
      var colon := Colon(format);
      ok := Append(colon, |colon|, false);
    }
  }

  /** `cJSON_PrintPreallocated`: `buffer` is the memory of `length` characters that the caller owns. */
  method PrintPreallocated(v: Json, buffer: array?<char>, length: int, format: bool) returns (ok: bool)
    requires Printable(v)
    requires buffer != null && length >= 0 ==> length == buffer.Length <= INT_MAX
    modifies buffer
    ensures ok <==> buffer != null && |Render(v, format, 0)| + 2 <= length
    ensures ok ==> buffer[..|Render(v, format, 0)| + 1] == Render(v, format, 0) + "\0"
  {
    hide Render, Printable;
    if length < 0 || buffer == null {
      return false;
    }
    var p := new Printer(buffer, length, true, format, true);
    ok := p.PrintValue(v);
    assert p.buffer == buffer;
  }

  /** `cJSON_Print` and `cJSON_PrintUnformatted`: the text in a block of exactly its size.
      It fails when the allocator does, or when the text with terminator and slack exceeds `INT_MAX`. */
  method Print(v: Json, format: bool, reallocate: bool) returns (printed: array?<char>, ghost exhausted: bool)
    requires Printable(v)
    ensures printed != null ==> fresh(printed) && printed[..] == Render(v, format, 0) + "\0"
    ensures !exhausted ==> (printed != null <==> |Render(v, format, 0)| + 2 <= INT_MAX)
  {
    hide Render, Printable;
    var block := Printer.Allocate(256);
    if block == null {
      return null, true;
    }
    var p := new Printer(block, 256, false, format, reallocate);
    var ok := p.PrintChild(v);
    if !ok {
      return null, p.exhausted;
    }
    printed := Printer.Allocate(p.offset + 1);
    exhausted := printed == null;
    if printed != null {
      forall i | 0 <= i <= p.offset {
        printed[i] := p.buffer[i];
      }
    }
  }

  lemma CloseBracketNulFree()
    ensures NulFree("]")
  {
  }

  lemma CloseNulFree(format: bool, depth: nat)
    ensures NulFree(CloseBrace(format, depth))
  {
  }
}
