# Verified model of the camera firmware's data paths

A Dafny model of the parts of the camera firmware that transform data: the JSON codec
(`JSON/cJSON.c`), the streaming hash and the login signature (`mqtt/aliyun_auth.c`), the
blocking queue (`PCM/pcm.h`), the H.264 frame reader (`rtsp_h264_file.cpp`), the ring list of
the KCP header (`IOTCAMSDK/inc/KCP/ikcp.h`) and the pixel converters (`Common.c`).
`dafny verify dfyconfig.toml` checks all of it.

Code that updates state in place is modelled by classes and methods with loops. Each method is
proved against functions that say what it computes; lemmas say what those functions mean.

## JSON

- `JsonNumber`, `JsonValue`, `JsonText`: values, and their text as the printer writes it,
  compact or formatted. Printable values are null, booleans, integers below 10^15 in size,
  NUL-free strings, arrays and objects.
- `JsonGrammar`: what the parser computes on NUL-terminated text. `RoundTrip` and `ParserLaws`:
  printing and parsing are inverse up to the nesting limit, and only up to it.
- `Rfc8259`, `Rfc8259Strings`, `Rfc8259Numbers`: a grammar of RFC 8259 with meanings of its own;
  every text of it is read to its meaning. `JsonAccepted`: what else is accepted, and that it is
  no more. `JsonLayout`: where the printer puts whitespace.
- `PrintBuffer`: the growing or fixed print buffer, whose end is found again with `strlen`.
- `JsonNode`: nodes with addresses and a ledger of live blocks. `ParseBuffer`: the
  recursive-descent parser over a cursor. `StringSizing`: why the two string passes agree on
  the size of the block even where they disagree on the text.
- `Unicode`: escapes and UTF-8. `Minify`, `MinifyLaws`, `MinifySegments`: the in-place
  minifier. `Compare`, `CompareLaws`, `Duplicate`: structural comparison and the deep copy.
  `ChildList`: the doubly linked child list on the heap.

The parser has two limits: arrays and objects nest at most 1000 deep, and a number has at most 63
characters; beyond them, and only there, a text of RFC 8259 is an error (`TextParses`).

What the code does not do, each shown by a concrete input and bounded by an if-and-only-if:

- A string ends at its first `\u0000` (`NulCutsString`, `MeaningIsAll`).
- Minifying formatted text does not give the unformatted text when a string that ends in a
  backslash is followed by formatting (`TrailingBackslashBreaks`, `MinifyUndoesFormatting`).
- A tree with two members of one name need not compare equal to its copy
  (`RepeatedNamesDiffer`); it does exactly if every repeated member compares equal to the first of
  its name (`CopyExactly`).
- Numbers within the tolerance compare equal, so comparison is not transitive on all numbers
  (`ToleranceIsIntransitive`, `TransitiveExactly`, `DecidesExactly`).
- After the last child was detached or replaced, appending can lose the item
  (`DetachThenAppend`, `ReplaceThenAppend`; `DetachItem`, `ReplaceItem`, `AddItemToArray`).

## Hash and signature

`Sha256` is FIPS 180-4 (sections 4.1.2, 4.2.2, 5.1.1, 5.3.3 and 6.2.2); `Sha256Constants` derives
its tables from prime numbers, `Sha256Example` its value on "abc"; `Sha256Stream` is the
incremental context; `Hmac` section 2 of RFC 2104; `Sign` the login. The two halves of the byte
counter are numbers that wrap at 2^32, and the bitwise or of `finish` is written as a function
on numbers. Words are 32-bit vectors.

## Queue

`BlockQueue` is a step system: threads take single steps inside and outside the mutex, a wait
releases the mutex in the same step, a signal wakes at least one waiter if there is one, and
waiters may wake without a signal. With capacity 0 nothing is ever transferred.

## Frames

`H264` is the reader with its two scans; `H264Laws` says what the frames of a pass add up to, and
`H264Units` which NAL units they are. A last unit of one or two bytes can escape the scans
(`Seen`). The rewind at the end of the file is never followed by a successful read
(`RewindFails`): the call that gives the last frame has already gone back to the start. A file
with one picture is never delivered.

## Lists and pixels

`RingList` works on shared nodes on the heap. `Yuv` has the colour formulas and the subsampling;
`YuvPlanar`, `YuvSemiPlanar` and `YuvBlocks` are the three converters, each with a log of the
indices it writes. The planar converter keeps all its bytes only for even sides (`OddLosesU`,
`OnceExactly`, `Quarter`).

## Model

| member | source | states |
|---|---|---|
| JsonNumber.StrtodDecimal | JSON/cJSON.c:276-350 | `strtod` on the plain decimal text of any integer consumes all of it and gives that integer; values are reals, so the rounding of a double above 2^53 is not part of this. |
| JsonNumber.NumericPrefixStops | JSON/cJSON.c:292-319 | The copying loop of `parse_number` takes just the numeric characters that fit its scratch buffer. |
| JsonText.DecimalText | JSON/cJSON.c:512-526 | An integer below 10^15 is at most 16 numeric characters and starts with a digit or a minus sign. |
| JsonText.RenderNulFree | JSON/cJSON.c:1283-1733 | The text of a printable value holds no NUL, so `strlen` finds its end. |
| RoundTrip.StringRoundTrip | JSON/cJSON.c:714-962 | Any NUL-free byte string, quoted and escaped, is read back unchanged, and what follows is left. |
| RoundTrip.NumberRoundTrip | JSON/cJSON.c:276-350 | A plain integer before a delimiter is read back, and what follows is left. |
| RoundTrip.ValueRoundTrip | JSON/cJSON.c:1228-1733 | The text of a tree, in either mode and at any indentation, before any delimiter, is parsed back to the tree when entry depth plus nesting is at most 1000; exactly the text is consumed. |
| RoundTrip.TextRoundTrip | JSON/cJSON.c:1016-1093 | The whole text of a tree of nesting at most 1000 parses in null-terminated mode to the tree, up to the NUL. |
| ParserLaws.PrintedTextParses | JSON/cJSON.c:1357-1366 | The text of a printable value is parsed back when the value nests at most 1000 deep, and is a parse error when it nests deeper. |
| ParserLaws.ValueTooDeep | JSON/cJSON.c:1357-1366 | Inside any text, at any entry depth, the text of a value that nests beyond the limit is an error, however many elements before the deep one are good. |
| ParserLaws.ValueConsumes | JSON/cJSON.c:1228-1280 | Every successful sub-parse consumes at least one byte, never the NUL, and leaves a suffix of its text. |
| ParserLaws.SkipIsSuffix | JSON/cJSON.c:979-997 | Skipping whitespace never moves the cursor backwards, though it steps back at the very end. |
| ParserLaws.NestingBound | JSON/cJSON.c:1357-1448 | Entry depth plus the nesting of any parsed value is at most 1000. |
| Rfc8259.TextParses | JSON/cJSON.c:979-1619 | Every text of RFC 8259 whose surrogates are paired (own grammar and meaning: blanks anywhere they may be, every way to write a string, any number) is parsed in null-terminated mode to what it means if it nests at most 1000 deep and no number is longer than 63 characters, and is an error otherwise. |
| Rfc8259.FormParses | JSON/cJSON.c:1228-1619 | Inside any text, a value of that grammar is read to its meaning and what follows it is left; of a value beyond the limits only an error or the rest of a number is left. |
| Rfc8259Strings.StringParses | JSON/cJSON.c:714-840 | However its characters are written, raw, as one of the eight two-character escapes or as `\u` escapes, in any mixture, a string is read as their UTF-8 text up to the first `\u0000`, and what follows is left. |
| Rfc8259Strings.OtherEscapeFails | JSON/cJSON.c:811-812 | A backslash before any character but those of section 7 of RFC 8259 is an error, wherever in a string it is. |
| Rfc8259Strings.UnpairedFails | JSON/cJSON.c:614-655 | The escape of half a surrogate pair is an error, wherever in a string it is. |
| Rfc8259Strings.MeaningIsAll | JSON/cJSON.c:827-833 | The C string that is read is all of the text if and only if no character is written as `\u0000`. |
| Rfc8259Strings.NulCutsString | JSON/cJSON.c:659-706 | A concrete string that is cut at its `\u0000`. |
| Rfc8259Strings.PrintedAs | JSON/cJSON.c:893-953 | The printer writes the two-character escape where there is one, except for the slash, `\u00xx` for other control characters and everything else raw. |
| Rfc8259Numbers.StrtodReads | JSON/cJSON.c:324-324 | `strtod` reads any number of section 6 of RFC 8259 whole; the value is the sum of its digits by weight, times the power of ten. |
| Rfc8259Numbers.NumberParses | JSON/cJSON.c:276-350 | A number of at most 63 characters is read to its value; of a longer one some numeric character is left. |
| JsonAccepted.TextAccepted | JSON/cJSON.c:1016-1619 | Nothing else is accepted: an accepted text is, perhaps behind a byte order mark, a tree of keywords, numeric characters, quoted strings, brackets, braces, commas and colons, with only characters up to the space between them, and the value is that of the tree. |
| JsonLayout.PrintedLayout | JSON/cJSON.c:1451-1733 | The printer leaves no whitespace in compact text; in formatted text there is a space behind the commas of an array, a tab behind a colon, and a line for every member and closing brace, with one tab for each bracket open around it. |
| PrintBuffer.Printer.Ensure | JSON/cJSON.c:383-468 | Succeeds exactly when offset, request and one character fit the capacity (the buffer, or `INT_MAX` when it can grow and the allocator does not fail), and keeps the text before the cursor. |
| PrintBuffer.Printer.UpdateOffset | JSON/cJSON.c:471-481 | The `strlen` loop moves the cursor to the end of the C string in the buffer. |
| PrintBuffer.Printer.CountEscapes | JSON/cJSON.c:858-885 | The first loop computes just the length of the escaped text, and finds no escape exactly when the text is unchanged. |
| PrintBuffer.Printer.PutString | JSON/cJSON.c:915-958 | The second loop writes the escaped text and nothing behind it but one NUL. |
| PrintBuffer.Printer.PrintString | JSON/cJSON.c:843-962 | The buffer is its old text plus the quoted string, NUL-terminated; success is decided by length alone. |
| PrintBuffer.Printer.PrintNumber | JSON/cJSON.c:490-553 | The same for an integer below 10^15 in size, with the cursor already behind it. |
| PrintBuffer.Printer.PrintValue | JSON/cJSON.c:1283-1354 | The buffer is its old text plus the rendering at the current depth, NUL-terminated, and depth is restored; it succeeds exactly when text plus 2 fits the capacity. |
| PrintBuffer.Printer.PrintChild | JSON/cJSON.c:1473-1481 | After `update_offset` the cursor is at the NUL that ends the rendering. |
| PrintBuffer.Printer.PrintArray | JSON/cJSON.c:1451-1510 | The same for arrays: the sum of every `ensure` of the loop comes to the rendering plus 2. |
| PrintBuffer.Printer.PrintObject | JSON/cJSON.c:1622-1733 | The same for objects, formatted or not. |
| PrintBuffer.PrintPreallocated | JSON/cJSON.c:1208-1225 | Succeeds if and only if there is a buffer and `length` is at least the rendered length plus 2; the buffer then starts with the text and its NUL. |
| PrintBuffer.Print | JSON/cJSON.c:1103-1165 | The result is a new block holding the text and its NUL and no more; without allocation failure it fails exactly when text plus 2 exceeds `INT_MAX`. |
| JsonNode.Heap.Delete | JSON/cJSON.c:224-245 | Frees the blocks of a sibling list, each once, and no others. |
| JsonNode.Heap.DeleteItem | JSON/cJSON.c:229-243 | Children, string, key and node of one item are freed once each. |
| JsonNode.SaturatedIs | JSON/cJSON.c:332-344 | `valueint` is the number cut off towards zero, and 2147483647 or -2147483648 at and beyond the ends of the range. |
| StringSizing.Sizing | JSON/cJSON.c:727-823 | From any point where the first pass is not inside an escape, the second pass writes no more than the bytes the first pass counts as unescaped. |
| StringSizing.StringFits | JSON/cJSON.c:714-823 | For every input the unescaped string and its terminator fit the block sized by the first pass, one character being left over. |
| StringSizing.TokenRoom | JSON/cJSON.c:775-823 | Every turn of the second pass uses no more of the room than its input makes, also when the passes are out of step. |
| StringSizing.OutOfStep | JSON/cJSON.c:593-711 | An input on which the passes fall out of step and the read pointer stops one past the closing quote. |
| ParseBuffer.Parser.SkipWhitespace | JSON/cJSON.c:979-997 | The loop and its step back compute the whitespace skipping of the specification; the offset stays inside the text and does not decrease. |
| ParseBuffer.Parser.ParseHex4 | JSON/cJSON.c:556-589 | Four hexadecimal digits give their value, anything else 0. |
| ParseBuffer.Parser.PutUtf8 | JSON/cJSON.c:659-706 | The backward loop writes the UTF-8 encoding of the code point. |
| ParseBuffer.Parser.Utf16ToUtf8 | JSON/cJSON.c:593-711 | Escapes, surrogate pairs and all error exits, as bytes read and bytes written. |
| ParseBuffer.Parser.FindEnd | JSON/cJSON.c:727-760 | The first pass finds the closing quote, or that there is none, and counts the escapes before it. |
| ParseBuffer.Parser.UnescapeInto | JSON/cJSON.c:767-823 | The second pass writes the unescaped text inside its block with room for the terminator, or stops at the invalid escape. |
| ParseBuffer.Parser.ParseString | JSON/cJSON.c:714-840 | Refines the specification: value, cursor and error place; one block is allocated on success and none stays on failure. |
| ParseBuffer.Parser.ParseNumber | JSON/cJSON.c:276-350 | Refines the specification, with the 63 characters that the scratch buffer holds; `valueint` is the number cut off towards zero and saturated. |
| ParseBuffer.Parser.ParseValue | JSON/cJSON.c:1228-1280 | Refines the specification: value, rest, depth restored, and the error place if no allocation failed in the call; live blocks grow by just those of the value, and by none on failure. |
| ParseBuffer.Parser.ParseArray | JSON/cJSON.c:1357-1448 | The same for arrays, with the stepping back before the first element; on failure the items made so far are deleted. |
| ParseBuffer.Parser.ParseObject | JSON/cJSON.c:1513-1619 | The same for objects, with keys moved from `valuestring` to `string`. |
| ParseBuffer.ParseWithOpts | JSON/cJSON.c:1016-1093 | On any C string: the tree of the specification and the end position, the live blocks being those reachable from the root; or, if no allocation failed in the call, the error position of the specification; every block of a failed parse is freed once. |
| Unicode.EscapedTextParses | JSON/cJSON.c:593-840 | Any sequence of non-zero Unicode scalar values written as `\uXXXX` escapes and surrogate pairs, each digit in either letter case, is read as its UTF-8 encoding. |
| Unicode.ScalarToken | JSON/cJSON.c:593-711 | One escape or one surrogate pair is consumed whole and gives the UTF-8 of its character. |
| Unicode.Utf8Decodes | JSON/cJSON.c:659-706 | Decoding as RFC 3629, section 3, demands inverts the encoding of every scalar value. |
| Unicode.Utf8TextInjective | JSON/cJSON.c:659-706 | The bytes written determine the characters. |
| Minify.SkipOneLine | JSON/cJSON.c:2668-2679 | The read pointer ends behind the end of the line or at the NUL. |
| Minify.SkipMultiLine | JSON/cJSON.c:2681-2693 | The read pointer ends behind the end of the comment or at the NUL. |
| Minify.MinifyString | JSON/cJSON.c:2695-2715 | The string is copied as it is; only a backslash before a quote counts as an escape. |
| Minify.MinifyTurn | JSON/cJSON.c:2726-2759 | One turn moves the read pointer on, keeps the write pointer behind it and leaves the unread text alone. |
| Minify.MinifyInPlace | JSON/cJSON.c:2717-2763 | On every C string the loop ends, writes the minified text and its NUL over the start of the buffer and touches nothing behind the old NUL. |
| MinifySegments.MinifiesWritten | JSON/cJSON.c:2668-2763 | Of any text put together from strings, blanks, comments and other characters, the strings and the other characters are left: every space, tab, carriage return and line feed outside strings goes, and every comment. |
| MinifyLaws.ValueMinifies | JSON/cJSON.c:2717-2763 | The formatted text of a value becomes its unformatted text unless the value is broken, and then no continuation makes the texts agree. |
| MinifyLaws.MinifyUndoesFormatting | JSON/cJSON.c:2695-2763 | Minifying the formatted print gives the unformatted print if and only if no string ending in a backslash is followed by formatting. |
| MinifyLaws.NoTrailingCloses | JSON/cJSON.c:2695-2715 | Trees without any string or key that ends in a backslash are exactly those on which every string is seen to end. |
| MinifyLaws.TrailingBackslashBreaks | JSON/cJSON.c:2709-2713 | A concrete value on which minifying does not undo formatting. |
| MinifyLaws.MinifiedTwice | JSON/cJSON.c:2717-2763 | Minifying is idempotent on every text. |
| Compare.CaseInsensitiveStrcmp | JSON/cJSON.c:104-125 | Returns 0 exactly when the names have the same characters up to the case of the 26 letters, and else the difference at the first place where they have not. |
| Compare.GetObjectItem | JSON/cJSON.c:1788-1818 | Finds the first member whose name is the given one, up to letter case if case is ignored; in case-sensitive mode a child without a name ends the search. |
| Compare.FoldsAlike | JSON/cJSON.c:116-116 | Two characters fold alike if and only if they are equal or the two cases of one letter, by the two alphabets. |
| Compare.FoldIsRecasing | JSON/cJSON.c:104-125 | Two names fold alike if and only if they have the same letters, each in either case. |
| Compare.FindRecased | JSON/cJSON.c:1804-1811 | A name in any mixture of cases finds the same child. |
| Compare.CompareNodes | JSON/cJSON.c:2865-2988 | The loops decide the comparison of the specification, in both directions for objects. |
| CompareLaws.Symmetric | JSON/cJSON.c:2865-2988 | Comparison is symmetric on all trees. |
| CompareLaws.CompareIsCanonical | JSON/cJSON.c:2865-2988 | Uniform trees of one canonical form, in which objects are maps, compare equal; trees whose different numbers are further apart than the tolerance compare equal only then. Trees that share nodes have to be uniform. |
| CompareLaws.CompareIsEquivalence | JSON/cJSON.c:2947-2983 | On uniform trees with such numbers it is reflexive, symmetric and transitive, also where trees share nodes. |
| CompareLaws.IntegersSeparated | JSON/cJSON.c:484-487 | Different integers are further apart than the tolerance. |
| CompareLaws.DecidesExactly | JSON/cJSON.c:2865-2988 | Comparison decides equality of canonical forms on the trees with numbers from a set if and only if different numbers of the set are further apart than the tolerance. |
| CompareLaws.Transitive | JSON/cJSON.c:2865-2988 | On all trees, with repeated names too, comparison is transitive where nearness is transitive among their numbers. |
| CompareLaws.TransitiveExactly | JSON/cJSON.c:484-487 | Comparison is transitive on the trees with numbers from a set if and only if nearness is transitive on the set. |
| CompareLaws.DistinctIsUniform | JSON/cJSON.c:1788-1818 | Trees whose objects have distinct keys, after folding where case is ignored, are uniform. |
| CompareLaws.RepeatedNamesDiffer | JSON/cJSON.c:2951-2964 | With repeated names a tree need not compare equal to its copy. |
| CompareLaws.ToleranceIsIntransitive | JSON/cJSON.c:484-487 | Three numbers, each within the tolerance of the next, on which comparison is not transitive; `TransitiveExactly` says for which numbers it is. |
| Duplicate.DuplicateNode | JSON/cJSON.c:2589-2666 | The copy equals the original but for addresses (without children if not recursive) and lies in blocks of its own; a failed copy leaves nothing allocated. |
| Duplicate.SameErasure | JSON/cJSON.c:2589-2666 | Trees that differ in addresses only stand for the same value. |
| Duplicate.CopyComparesEqual | JSON/cJSON.c:2589-2988 | A uniform tree compares equal to a copy in fresh blocks; where different numbers of the tree are further apart than the tolerance, only a uniform one does. |
| Duplicate.CopyExactly | JSON/cJSON.c:2589-2988 | Whatever its numbers are, a tree in blocks allocated once compares equal to a copy in fresh blocks if and only if every repeated member compares equal to the first of its name. |
| ChildList.GetArrayItem | JSON/cJSON.c:1759-1776 | The child at the index, or nothing. |
| ChildList.GetArraySize | JSON/cJSON.c:1736-1757 | The number of children. |
| ChildList.AddItemToArray | JSON/cJSON.c:1864-1904 | Appends to the chain if and only if the shortcut is not stale and the item ends a chain, and then leaves the shortcut right; where the shortcut points out of the list the item is lost. |
| ChildList.Attach | JSON/cJSON.c:1395-1410 | How parsing and duplication link their items: the chain in order, the shortcut unset. |
| ChildList.DetachItem | JSON/cJSON.c:2104-2132 | Removes one element of the chain; the shortcut goes stale exactly when the last of several children is detached and it was set, and still points where it did. |
| ChildList.InsertItem | JSON/cJSON.c:2174-2201 | Inserts before the index whatever the shortcut is, which stays as right as it was; past the end it appends, under the conditions of appending. |
| ChildList.ReplaceItem | JSON/cJSON.c:2203-2242 | Updates one element of the chain, up to the deletion of the old item; the shortcut goes stale exactly when the last child is replaced and it was set, and still points where it did. |
| ChildList.DetachThenAppend | JSON/cJSON.c:1864-2132 | Append two items, detach the second, append a third: the third is not in the list. |
| ChildList.ReplaceThenAppend | JSON/cJSON.c:1864-2242 | Append two items, replace the second, append a fourth: the fourth is not in the list. |
| Sha256.WordRoundTrip | mqtt/aliyun_auth.c:117-135 | Storing a word big end first and loading it gives the word. |
| Sha256.BlocksConcat | mqtt/aliyun_auth.c:283-287 | Hashing full blocks and then a text is hashing their concatenation. |
| Sha256Constants.PrimesAreThePrimes | mqtt/aliyun_auth.c:181-198 | Up to 311 the table of primes holds the prime numbers, all of them and nothing else. |
| Sha256Constants.PrimesAscend | mqtt/aliyun_auth.c:181-198 | The table of primes ascends. |
| Sha256Constants.KFromCubeRoots | mqtt/aliyun_auth.c:181-198 | Constant t is the first 32 bits of the fractional part of the cube root of the prime number t (section 4.2.2 of FIPS 180-4). |
| Sha256Constants.IVFromSquareRoots | mqtt/aliyun_auth.c:168-175 | The initial words are those of the square roots of the first eight primes (section 5.3.3). |
| Sha256Example.HashOfAbc | mqtt/aliyun_auth.c:200-345 | The hash of "abc" is the one published with the standard, through padding, schedule, all 64 steps and the order of the bytes. |
| Sha256Stream.MacroF0 | mqtt/aliyun_auth.c:209-209 | The macro is the majority function of FIPS 180-4. |
| Sha256Stream.MacroF1 | mqtt/aliyun_auth.c:210-210 | The macro is the choice function of FIPS 180-4. |
| Sha256Stream.MacroS0 | mqtt/aliyun_auth.c:203-203 | The macro is the small sigma 0 of FIPS 180-4. |
| Sha256Stream.MacroS1 | mqtt/aliyun_auth.c:204-204 | The macro is the small sigma 1 of FIPS 180-4. |
| Sha256Stream.MacroS2 | mqtt/aliyun_auth.c:206-206 | The macro is the large sigma 0 of FIPS 180-4. |
| Sha256Stream.MacroS3 | mqtt/aliyun_auth.c:207-207 | The macro is the large sigma 1 of FIPS 180-4. |
| Sha256Stream.Turn | mqtt/aliyun_auth.c:242-252 | The macro on the array, then the rotation by one place, is one step of section 6.2.2. |
| Sha256Stream.ScheduleWord | mqtt/aliyun_auth.c:236-240 | Each turn adds the next word of the message schedule. |
| Sha256Stream.WorkingArray | mqtt/aliyun_auth.c:231-253 | After 64 turns the rotating array holds the working variables in order. |
| Sha256Stream.AnyCut | mqtt/aliyun_auth.c:259-295 | However a message is cut into pieces, the context carries what one piece would have left. |
| Sha256Stream.Resume | mqtt/aliyun_auth.c:259-295 | Going on from the state and the carried tail of a message is going on from the message. |
| Sha256Stream.LengthWords | mqtt/aliyun_auth.c:309-315 | The two length words are the length in bits modulo 2^64, for any message length. |
| Sha256Stream.PadIs | mqtt/aliyun_auth.c:317-322 | The two last updates make up the padding of section 5.1.1. |
| Sha256Stream.Context.Starts | mqtt/aliyun_auth.c:160-179 | A started context stands for the empty message. |
| Sha256Stream.Context.Process | mqtt/aliyun_auth.c:225-258 | The state becomes the compression of the block. |
| Sha256Stream.Context.Update | mqtt/aliyun_auth.c:259-295 | Keeps the invariant that state, buffer and counter are those of the message so far, which grows by the input; every branch of the carry buffer is taken. |
| Sha256Stream.Context.Finish | mqtt/aliyun_auth.c:304-334 | Writes the digest of the padded message, for any length the counter can carry modulo 2^64, and nothing behind it. |
| Sha256Stream.HashOnce | mqtt/aliyun_auth.c:336-345 | The output is the FIPS 180-4 hash of the input. |
| Hmac.KeyPad | mqtt/aliyun_auth.c:359-372 | The key filled with zeros and xored with the pad, in place. |
| Hmac.MacIs | mqtt/aliyun_auth.c:359-386 | The inner block is the key xored with 0x36 and 0x36 behind it, the outer block the same with 0x5C; the MAC is the hash of the outer block and the inner hash. |
| Hmac.HmacSha256 | mqtt/aliyun_auth.c:347-387 | For keys up to 64 bytes the output is the MAC of section 2 of RFC 2104, though it holds the inner digest in between; longer keys leave it unchanged. |
| Sign.HexRoundTrip | mqtt/aliyun_auth.c:32-41 | Decoding inverts the encoding for every byte string. |
| Sign.Hex2Str | mqtt/aliyun_auth.c:32-41 | Writes two upper-case digits a byte and nothing behind them. |
| Sign.HexAt | mqtt/aliyun_auth.c:20-41 | Byte by byte the text holds the digit of the upper half, then that of the lower half, from 0 to F. |
| Sign.Append | mqtt/aliyun_auth.c:62-82 | Copying to the end that `strlen` finds appends to the string in a zeroed buffer. |
| Sign.AiotMqttSign | mqtt/aliyun_auth.c:43-91 | Too long names are refused and nothing is written; otherwise the three buffers hold the client id with its fixed parameters, the user name, and the hexadecimal MAC of the fields in their literal order, each NUL-terminated. |
| BlockQueue.StepExclusive | PCM/pcm.h:32-39 | Every step keeps the mutex exclusive: a thread is inside exactly if it holds it. |
| BlockQueue.StepOwnSide | PCM/pcm.h:72-100 | Every step of a thread keeps its own side free of forgotten waiters. |
| BlockQueue.StepOtherSide | PCM/pcm.h:48-55 | Every step, with its signals, keeps the other side free of forgotten waiters. |
| BlockQueue.Reachable | PCM/pcm.h:72-100 | The invariant holds in every state of every run of any number of producers and consumers. |
| BlockQueue.QueueSafety | PCM/pcm.h:56-100 | In every reachable state the size does not exceed the capacity although `IsFull` tests with `==`, and the two ledgers differ by the queue. |
| BlockQueue.FirstInFirstOut | PCM/pcm.h:72-100 | In every run with each step labelled by its thread and datum, what the push steps were given, in order, is what the pop steps took, in order, followed by the queue; the queue never exceeds the capacity. |
| BlockQueue.NoLostWakeup | PCM/pcm.h:40-55 | When the mutex is free, a waiting consumer leaves no more items than woken consumers, and a waiting producer no more free slots than woken producers. |
| BlockQueue.NoDeadlock | PCM/pcm.h:72-100 | With capacity at least 1 and a thread on each side, from every reachable state at most six steps without spurious wakeups push or pop something. |
| BlockQueue.WaiterServed | PCM/pcm.h:40-100 | In every reachable state, a consumer that waits while there are items, or a producer that waits while there are free slots, needs no new call: at most seven steps of threads already inside a call let its side pop or push. |
| BlockQueue.ZeroCapacity | PCM/pcm.h:60-81 | With capacity 0 nothing is ever pushed or popped. |
| H264.FirstOpen | rtsp_h264_file.cpp:163-185 | The first start code with the first slice of a picture, or that there is none. |
| H264.FirstClose | rtsp_h264_file.cpp:187-209 | The first start code that ends a frame, or that there is none. |
| H264.H264File.FindStart | rtsp_h264_file.cpp:159-185 | The first scan finds the first picture start of the window and goes on four bytes behind it. |
| H264.H264File.FindEnd | rtsp_h264_file.cpp:187-209 | The second scan finds the first frame end from where the first stopped. |
| H264.H264File.Refill | rtsp_h264_file.cpp:145-157 | The window read, after a rewind when nothing was left. |
| H264.H264File.ReadFrame | rtsp_h264_file.cpp:138-241 | One call delivers the next cut of the file and moves the reader on, or closes it; flag, size limit and what stays in the buffer are all stated. |
| H264.NextSound | rtsp_h264_file.cpp:228-239 | Every call leaves the reader at the start or inside the file. |
| H264Laws.FrameEndsAtCode | rtsp_h264_file.cpp:187-240 | A frame that is not the last is at least four bytes, a slice of the file from where the reader stands, and ends at a start code; the reader moves by its length. |
| H264Laws.RewindFails | rtsp_h264_file.cpp:146-157 | A reader that finds nothing to read finds nothing at the start of the file either: the call fails and closes it. |
| H264Laws.PassIsSlice | rtsp_h264_file.cpp:211-240 | The frames of a pass are consecutive and join to the file from the reader to the end of the last buffer. |
| H264Laws.PassConserves | rtsp_h264_file.cpp:211-240 | A pass from the start joins to the file if and only if the last frame fits the buffer. |
| H264Laws.PassRepeats | rtsp_h264_file.cpp:228-239 | The calls after a pass repeat it frame by frame. |
| H264Laws.PassFails | rtsp_h264_file.cpp:219-223 | A pass that fails ends with a closed reader. |
| H264Laws.ClosedStays | rtsp_h264_file.cpp:140-143 | A closed reader stays closed. |
| H264Laws.RestPasses | rtsp_h264_file.cpp:211-223 | With the file in the buffer, a pass that has given a frame goes through if and only if some later picture is followed by no frame end. |
| H264Laws.WholePass | rtsp_h264_file.cpp:138-241 | With the file in the buffer, the file gives frames for ever if and only if a frame end follows its first picture and some picture is followed by none; the frames then join to the file. |
| H264Units.PassOfUnits | rtsp_h264_file.cpp:138-241 | On a stream of NAL units behind start codes of three or four bytes, for any buffer size, the frames of a pass are whole units: every frame but the last holds the first slice of one picture, no unit behind it starts a frame, and the next frame starts with a unit of type 6, 7 or 8 or a first slice; the last frame is what the buffer holds of the rest. |
| H264Units.StreamPasses | rtsp_h264_file.cpp:138-241 | With the stream in the buffer, it gives frames for ever if and only if the last unit that starts a frame starts a picture, and not the first. |
| H264Units.AtCode | rtsp_h264_file.cpp:189-208 | What the scans decide at a start code, from the unit type of Table 7-1 of ITU-T H.264 and the first bit of first_mb_in_slice. |
| RingList.RingDetermined | IOTCAMSDK/inc/KCP/ikcp.h:132-134 | A ring has one sequence of nodes. |
| RingList.Init | IOTCAMSDK/inc/KCP/ikcp.h:151-152 | The node becomes an empty ring. |
| RingList.IsEmpty | IOTCAMSDK/inc/KCP/ikcp.h:183-183 | Tells the empty ring. |
| RingList.Add | IOTCAMSDK/inc/KCP/ikcp.h:165-167 | Pushes to the front, also on an empty ring. |
| RingList.AddTail | IOTCAMSDK/inc/KCP/ikcp.h:169-171 | Appends, also on an empty ring. |
| RingList.Del | IOTCAMSDK/inc/KCP/ikcp.h:175-178 | Removes the node, also the only one, and clears its links. |
| RingList.DelInit | IOTCAMSDK/inc/KCP/ikcp.h:180-181 | Removes the node, which becomes an empty ring. |
| RingList.Splice | IOTCAMSDK/inc/KCP/ikcp.h:205-212 | Puts the nodes of one ring before those of the other. |
| RingList.SpliceInit | IOTCAMSDK/inc/KCP/ikcp.h:214-215 | The same, and the first ring is empty afterwards. |
| Yuv.NoClamp | Common.c:350-358 | Y lies in 16..235, U and V in 16..240, so no clamp changes a value. |
| Yuv.NearStandard | Common.c:350-352 | Y is within 0.8, U and V are within 1 of the exact values of ITU-R BT.601. |
| Yuv.BytesOf24 | Common.c:344-350 | The three bytes of a pixel are blue, green and red: its luma is within 0.8 of the standard for them. |
| Yuv.BytesOf32 | Common.c:268-274 | The same for four bytes, the last of them unused. |
| Yuv.SampledLength | Common.c:355-359 | How many pixels are sampled before any row and column, for any sides. |
| Yuv.SampleAt | Common.c:355-359 | The samples are the upper left pixels of the 2x2 blocks, those cut off at odd sides included, in order. |
| Yuv.Quarter | Common.c:333-334 | A quarter of the pixels is sampled if and only if both sides are even or the picture is empty; otherwise more are. |
| YuvPlanar.RgbToYuv420p | Common.c:329-362 | For any sides every byte of the output is determined, with the U plane grown into the V plane where a side is odd. For even sides it is the Y plane, the U samples and the V samples; every byte is written once if and only if both sides are even or the picture is empty. |
| YuvPlanar.OnceExactly | Common.c:333-338 | The writes of the planar converter hit every byte once if and only if a quarter of the pixels is sampled. |
| YuvPlanar.OddLosesU | Common.c:354-359 | Of a one-pixel picture the U byte is overwritten. |
| YuvSemiPlanar.EncodeYUV420sp | Common.c:364-394 | For any sides the output is the same Y plane and the interleaving of the V and U samples, every byte written once. |
| YuvBlocks.Rgb32ToI420 | Common.c:244-327 | For any sides the luma bytes of the 2x2 blocks, the colours of their averages, and nothing else is written; for even sides the same Y plane and the U and V planes of the averages, every byte written once, though rows are written two at a time. |
| YuvBlocks.EvenLumaLog | Common.c:265-324 | With an even width the luma bytes written block by block fill whole rows; a row of blocks covers two rows. |
| YuvBlocks.QuarterOfSum | Common.c:265-315 | Colour by colour the average of a block is a quarter of the sum of its four pixels, rounded down. |
| YuvBlocks.FlatAveraged | Common.c:265-324 | On one-colour blocks the averages, taken block by block, are the samples, taken pixel by pixel. |
| YuvBlocks.FlatPlanes | Common.c:244-362 | When the sides are even and every 2x2 block is one colour both planar converters write the same planes. |

## Left out

- JsonNumber.StrtodDecimal: rounding to double; values are reals.
- PrintBuffer.Printer.PrintNumber: numbers that are no integers below 10^15 in size, with `sprintf`, `sscanf`, NaN, infinities and locales.
- ParseBuffer.Parser.ParseNumber: rounding to double, and locales.
- ParseBuffer.Parser.ParseArray: child lists are sequences, not nodes linked as the loop goes; linking is modelled in `ChildList`, and the two are not joined.
- ParseBuffer.Parser.ParseObject: the same.
- Duplicate.DuplicateNode: the same.
- ChildList.Attach: the loop links finished items; in the source each item is parsed or copied just before it is linked.
- ChildList.ReplaceItem: the deletion of the replaced item, which is that of `JsonNode.Heap.DeleteItem`.
- JsonAccepted.TextAccepted: which loose strings and numbers are accepted, and their values, is left to `ParseString` and `ParseNumber`; the laws of RFC 8259 fix them for the valid ones.
- H264Units.PassOfUnits: zero bytes between units (leading_zero_8bits, trailing_zero_8bits).
- Raw items, reference items, constant keys: they allow sharing and unescaped text.
- NULL arguments of parsing, printing, minifying, comparing, hashing and converting, except where a contract names them; they return before doing anything.
- `cJSON_PrintBuffered`, the `cJSON_Add...`, `cJSON_Create...` and `..._FromObject` wrappers: they only combine what is modelled.
- Characters stand for bytes in the JSON modules; nothing depends on their being at most 255. Masks and shifts of the UTF-8 writer are written as the arithmetic they do.
- The global error pointer: its position is the end position of a failed parse.
- The allocation ledger of `Heap` covers parsing, duplication and deletion; the blocks of the printer are only known to be fresh.
- `utils_sha256_free` and the 224-bit variant: `is224` is always 0. `input` of an update is a value, so it cannot overlap the context.
- Sign.AiotMqttSign: overlapping output buffers.
- `BlockQueue`: a negative capacity, which compares as a huge size and leaves the queue unbounded. Fairness of the scheduler: progress is shown to be possible, not to happen.
- H264.H264File.ReadFrame: negative sizes.
- `H264`: opening a reader that is already open, and a file that changes while it is read. `fopen`, `fread` and `fseek` are a sequence of bytes and a position.
- YuvPlanar.RgbToYuv420p, and the other converters: pixel input is a value, so it cannot overlap the output. The unused `__rgb24_to_yuv420p`.
- `mqtt/mqtt.c`, `MQTTProcess.cpp`, `CRtmpPush.cpp`: thin use of client libraries whose source is not part of this model.
- `thermalUsb.cpp`: image library calls and float colour mapping.
- The KCP protocol, `IOTCAMSDK/inc/hi_include` and other SDK headers: declarations only.
- Serial port, GPIO, video capture, configuration files and thread wrappers: input and output.
