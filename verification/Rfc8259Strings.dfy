/** Reading any string of RFC 8259, section 7: every character raw where it may be, as its
    two-character escape or as `\uXXXX`, in any mixture. */
module Rfc8259Strings {
  import opened JsonValue
  import opened JsonGrammar
  import opened RoundTrip
  import opened StringSizing
  import Unicode

  // ----- the grammar, with tables of its own

  /** A Unicode character: a code point that is no surrogate. */
  type Character = c: nat | c <= 0x10FFFF && !(0xD800 <= c <= 0xDFFF)

  /** The letters behind the backslash, and the characters they stand for. */
  const LETTERS: string := "\"\\/bfnrt"
  const ESCAPED: seq<Character> := [0x22, 0x5C, 0x2F, 0x08, 0x0C, 0x0A, 0x0D, 0x09]

  const LOWER_DIGITS: string := "0123456789abcdef"
  const UPPER_DIGITS: string := "0123456789ABCDEF"

  /** One way to write one character; `upper` tells which hexadecimal digits are upper case. */
  datatype Piece = Raw(raw: Character) | Short(index: nat) | Hex(code: Character, upper: seq<bool>)

  predicate ValidPiece(p: Piece) {
    match p
    case Raw(c) => c >= 0x20 && c != 0x22 && c != 0x5C
    case Short(i) => i < 8
    case Hex(_, _) => true
  }

  predicate ValidPieces(ps: seq<Piece>) {
    forall i :: 0 <= i < |ps| ==> ValidPiece(ps[i])
  }

  function Digit(d: nat, upper: bool): char
    requires d < 16
  {
    if upper then UPPER_DIGITS[d] else LOWER_DIGITS[d]
  }

  function UnitText(unit: nat, upper: seq<bool>): (e: string)
    requires unit < 0x10000
    ensures |e| == 6
  {
    ['\\', 'u', Digit(unit / 16 / 16 / 16, Unicode.Upper(upper, 0)), Digit(unit / 16 / 16 % 16, Unicode.Upper(upper, 1)),
     Digit(unit / 16 % 16, Unicode.Upper(upper, 2)), Digit(unit % 16, Unicode.Upper(upper, 3))]
  }

  /** Characters beyond the basic plane are written as a surrogate pair. */
  function HexText(c: Character, upper: seq<bool>): (e: string)
    ensures |e| == if c < 0x10000 then 6 else 12
  {
    if c < 0x10000 then UnitText(c, upper)
    else UnitText(0xD800 + (c - 0x10000) / 1024, upper)
           + UnitText(0xDC00 + (c - 0x10000) % 1024, Unicode.Later(upper, 4))
  }

  function PieceText(p: Piece): string
    requires ValidPiece(p)
  {
    match p
    case Raw(c) => Utf8(c)
    case Short(i) => [BACKSLASH, LETTERS[i]]
    case Hex(c, upper) => HexText(c, upper)
  }

  function PieceCode(p: Piece): Character
    requires ValidPiece(p)
  {
    match p
    case Raw(c) => c
    case Short(i) => ESCAPED[i]
    case Hex(c, _) => c
  }

  function PiecesText(ps: seq<Piece>): string
    requires ValidPieces(ps)
  {
    if ps == [] then "" else PieceText(ps[0]) + PiecesText(ps[1..])
  }

  function StringText(ps: seq<Piece>): string
    requires ValidPieces(ps)
  {
    [QUOTE] + PiecesText(ps) + [QUOTE]
  }

  /** The UTF-8 text of the characters. */
  function Bytes(ps: seq<Piece>): string
    requires ValidPieces(ps)
  {
    if ps == [] then "" else Utf8(PieceCode(ps[0])) + Bytes(ps[1..])
  }

  /** What a C string can hold of it: the UTF-8 text up to the first `\u0000`. */
  function StringMeaning(ps: seq<Piece>): string
    requires ValidPieces(ps)
  {
    if ps == [] || PieceCode(ps[0]) == 0 then "" else Utf8(PieceCode(ps[0])) + StringMeaning(ps[1..])
  }

  // ----- the first pass

  /** The first pass goes over `w` without finding a quote. */
  ghost predicate Skips(w: string, t: string) {
    ClosingQuote(w + t) == if ClosingQuote(t) < 0 then -1 else |w| + ClosingQuote(t)
  }

  lemma SkipsBoth(v: string, w: string, t: string)
    requires Skips(v, w + t) && Skips(w, t)
    ensures Skips(v + w, t)
  {
    hide ClosingQuote;
    assert v + w + t == v + (w + t);
  }

  predicate Plain(w: string) {
    QUOTE !in w && BACKSLASH !in w
  }

  lemma {:induction false} SkipsPlain(w: string, t: string)
    requires Plain(w)
    ensures Skips(w, t)
  {
    hide ClosingQuote, Room;
    if w == "" {
      assert w + t == t;
    } else {
      SkipsPlain(w[1..], t);
      assert (w + t)[1..] == w[1..] + t;
      FirstPassStep(w + t, 1);
    }
  }

  lemma SkipsPair(c: char, t: string)
    ensures Skips([BACKSLASH, c], t)
  {
    hide ClosingQuote, Room;
    var s := [BACKSLASH, c] + t;
    assert s[2..] == t;
    FirstPassStep(s, 2);
  }

  lemma DigitPlain(d: nat, upper: bool)
    requires d < 16
    ensures Digit(d, upper) != QUOTE && Digit(d, upper) != BACKSLASH && Digit(d, upper) != '\0'
  {
  }

  lemma SkipsUnit(unit: nat, upper: seq<bool>, t: string)
    requires unit < 0x10000
    ensures Skips(UnitText(unit, upper), t)
  {
    hide ClosingQuote, Digit;
    var e := UnitText(unit, upper);
    UnitPlain(unit, upper);
    SkipsPlain(e[2..], t);
    SkipsPair('u', e[2..] + t);
    assert e[..2] == [BACKSLASH, 'u'] && e[..2] + e[2..] == e;
    SkipsBoth(e[..2], e[2..], t);
  }

  lemma UnitPlain(unit: nat, upper: seq<bool>)
    requires unit < 0x10000
    ensures Plain(UnitText(unit, upper)[2..]) && NulFree(UnitText(unit, upper))
  {
    hide Digit;
    DigitPlain(unit / 16 / 16 / 16, Unicode.Upper(upper, 0));
    DigitPlain(unit / 16 / 16 % 16, Unicode.Upper(upper, 1));
    DigitPlain(unit / 16 % 16, Unicode.Upper(upper, 2));
    DigitPlain(unit % 16, Unicode.Upper(upper, 3));
  }

  lemma SkipsPiece(p: Piece, t: string)
    requires ValidPiece(p)
    ensures Skips(PieceText(p), t)
  {
    hide Skips, UnitText;
    match p
    case Raw(c) => SkipsPlain(Utf8(c), t);
    case Short(i) => SkipsPair(LETTERS[i], t);
    case Hex(c, upper) =>
      if c < 0x10000 {
        SkipsUnit(c, upper, t);
      } else {
        var low := UnitText(0xDC00 + (c - 0x10000) % 1024, Unicode.Later(upper, 4));
        SkipsUnit(0xDC00 + (c - 0x10000) % 1024, Unicode.Later(upper, 4), t);
        SkipsUnit(0xD800 + (c - 0x10000) / 1024, upper, low + t);
        SkipsBoth(UnitText(0xD800 + (c - 0x10000) / 1024, upper), low, t);
      }
  }

  lemma {:induction false} SkipsPieces(ps: seq<Piece>, t: string)
    requires ValidPieces(ps)
    ensures Skips(PiecesText(ps), t)
  {
    hide PieceText, ValidPiece, ClosingQuote;
    if ps == [] {
      assert "" + t == t;
    } else {
      SkipsPieces(ps[1..], t);
      SkipsPiece(ps[0], PiecesText(ps[1..]) + t);
      SkipsBoth(PieceText(ps[0]), PiecesText(ps[1..]), t);
    }
  }

  // ----- the second pass

  /** The second pass reads `w` as `u`. */
  ghost predicate Reads(w: string, u: string, t: string, end: nat)
    requires end < |t|
  {
    Unescape(w + t, |w| + end) == Prepend(u, Unescape(t, end))
  }

  lemma ReadsBoth(v: string, a: string, w: string, b: string, t: string, end: nat)
    requires end < |t| && Reads(v, a, w + t, |w| + end) && Reads(w, b, t, end)
    ensures Reads(v + w, a + b, t, end)
  {
    hide Unescape;
    assert v + w + t == v + (w + t);
    PrependPrepend(a, b, Unescape(t, end));
  }

  lemma ReadsToken(w: string, u: string, t: string, end: nat)
    requires w != "" && end < |t| && Token(w + t, |w| + end) == (|w|, u)
    ensures Reads(w, u, t, end)
  {
    hide Token, Unescape;
    assert (w + t)[|w|..] == t;
    UnescapeStep(w + t, |w| + end);
  }

  lemma ReadsOne(c: char, t: string, end: nat)
    requires c != BACKSLASH && end < |t|
    ensures Reads([c], [c], t, end)
  {
    ReadsToken([c], [c], t, end);
  }

  lemma {:induction false} ReadsPlain(w: string, t: string, end: nat)
    requires Plain(w) && end < |t|
    ensures Reads(w, w, t, end)
  {
    hide Unescape;
    if w == "" {
      assert w + t == t;
      PrependNothing(Unescape(t, end));
    } else {
      ReadsPlain(w[1..], t, end);
      ReadsOne(w[0], w[1..] + t, |w| - 1 + end);
      ReadsBoth([w[0]], [w[0]], w[1..], w[1..], t, end);
      assert [w[0]] + w[1..] == w;
    }
  }

  lemma ReadsShort(i: nat, t: string, end: nat)
    requires i < 8 && end < |t|
    ensures Reads([BACKSLASH, LETTERS[i]], Utf8(ESCAPED[i]), t, end)
  {
    ReadsToken([BACKSLASH, LETTERS[i]], Utf8(ESCAPED[i]), t, end);
  }

  /** The digits are those that `Unicode.UnitEscape` writes. */
  lemma UnitTextIsEscape(unit: nat, upper: seq<bool>)
    requires unit < 0x10000
    ensures UnitText(unit, upper) == Unicode.UnitEscape(unit, upper)
  {
    hide Digit, Unicode.HexText;
    DigitIsHexText(unit / 16 / 16 / 16, Unicode.Upper(upper, 0));
    DigitIsHexText(unit / 16 / 16 % 16, Unicode.Upper(upper, 1));
    DigitIsHexText(unit / 16 % 16, Unicode.Upper(upper, 2));
    DigitIsHexText(unit % 16, Unicode.Upper(upper, 3));
  }

  lemma DigitIsHexText(d: nat, upper: bool)
    requires d < 16
    ensures Digit(d, upper) == Unicode.HexText(d, upper)
  {
  }

  lemma ReadsHex(c: Character, upper: seq<bool>, t: string, end: nat)
    requires end < |t|
    ensures Reads(HexText(c, upper), Utf8(c), t, end)
  {
    hide Token, Utf8, UnitText, Unicode.UnitEscape;
    if c == 0 {
      UnitTextIsEscape(0, upper);
      NulToken(upper, t, end);
    } else {
      if c < 0x10000 {
        UnitTextIsEscape(c, upper);
      } else {
        UnitTextIsEscape(0xD800 + (c - 0x10000) / 1024, upper);
        UnitTextIsEscape(0xDC00 + (c - 0x10000) % 1024, Unicode.Later(upper, 4));
      }
      assert HexText(c, upper) == Unicode.ScalarEscape(c, upper);
      Unicode.ScalarToken(c, upper, t, end);
    }
    ReadsToken(HexText(c, upper), Utf8(c), t, end);
  }

  lemma NulToken(upper: seq<bool>, t: string, end: nat)
    requires end < |t|
    ensures Token(Unicode.UnitEscape(0, upper) + t, 6 + end) == (6, Utf8(0))
  {
    hide Utf8, Hex4;
    var e := Unicode.UnitEscape(0, upper);
    Unicode.UnitRoundTrip(0, upper);
    assert (e + t)[2..6] == e[2..6];
  }

  lemma ReadsPiece(p: Piece, t: string, end: nat)
    requires ValidPiece(p) && end < |t|
    ensures Reads(PieceText(p), Utf8(PieceCode(p)), t, end)
  {
    hide Reads, HexText;
    match p
    case Raw(c) => ReadsPlain(Utf8(c), t, end);
    case Short(i) => ReadsShort(i, t, end);
    case Hex(c, upper) => ReadsHex(c, upper, t, end);
  }

  lemma {:induction false} ReadsPieces(ps: seq<Piece>, t: string, end: nat)
    requires ValidPieces(ps) && end < |t|
    ensures Reads(PiecesText(ps), Bytes(ps), t, end)
  {
    hide PieceText, PieceCode, ValidPiece, Unescape, Utf8;
    if ps == [] {
      assert "" + t == t;
      PrependNothing(Unescape(t, end));
    } else {
      var more := PiecesText(ps[1..]);
      ReadsPieces(ps[1..], t, end);
      ReadsPiece(ps[0], more + t, |more| + end);
      ReadsBoth(PieceText(ps[0]), Utf8(PieceCode(ps[0])), more, Bytes(ps[1..]), t, end);
    }
  }

  // ----- no NUL in the text, and the C string that is left

  lemma Utf8NulFree(c: Character)
    ensures NulFree(Utf8(c)) <==> c != 0
    ensures c == 0 ==> Utf8(c) == "\0"
  {
  }

  lemma PieceNulFree(p: Piece)
    requires ValidPiece(p)
    ensures NulFree(PieceText(p))
  {
    hide UnitText, Utf8;
    match p
    case Raw(c) => Utf8NulFree(c);
    case Short(i) =>
    case Hex(c, upper) =>
      if c < 0x10000 {
        UnitPlain(c, upper);
      } else {
        UnitPlain(0xD800 + (c - 0x10000) / 1024, upper);
        UnitPlain(0xDC00 + (c - 0x10000) % 1024, Unicode.Later(upper, 4));
      }
  }

  lemma {:induction false} PiecesNulFree(ps: seq<Piece>)
    requires ValidPieces(ps)
    ensures NulFree(PiecesText(ps))
  {
    hide PieceText, ValidPiece;
    if ps != [] {
      PieceNulFree(ps[0]);
      PiecesNulFree(ps[1..]);
    }
  }

  lemma CStringStep(s: string)
    requires s != "" && s[0] != '\0'
    ensures CString(s) == [s[0]] + CString(s[1..])
  {
  }

  lemma {:induction false} CStringAppend(u: string, t: string)
    requires NulFree(u)
    ensures CString(u + t) == u + CString(t)
  {
    hide CString;
    if u == "" {
      assert u + t == t;
    } else {
      assert u[0] != '\0';
      CStringAppend(u[1..], t);
      CStringStep(u + t);
      assert (u + t)[1..] == u[1..] + t;
      assert u == [u[0]] + u[1..];
    }
  }

  lemma {:induction false} CStringOfBytes(ps: seq<Piece>)
    requires ValidPieces(ps)
    ensures CString(Bytes(ps)) == StringMeaning(ps)
  {
    hide Utf8, PieceCode, ValidPiece;
    if ps != [] {
      var c := PieceCode(ps[0]);
      Utf8NulFree(c);
      if c == 0 {
        assert Bytes(ps)[0] == '\0';
      } else {
        CStringOfBytes(ps[1..]);
        CStringAppend(Utf8(c), Bytes(ps[1..]));
      }
    }
  }

  // ----- the law

  /** However its characters are written, a string is read as their UTF-8 text, up to the
      first `\u0000`, and what follows the closing quote is left. */
  lemma StringParses(ps: seq<Piece>, rest: string)
    requires ValidPieces(ps) && Terminated(rest)
    ensures var s := StringText(ps) + rest;
      NulFree(StringText(ps)) && Terminated(s) && ParseString(s) == Ok(StringMeaning(ps), rest)
  {
    hide PiecesText, StringMeaning, Bytes, Unescape, ClosingQuote, ValidPieces, CString;
    var w, tail := PiecesText(ps), [QUOTE] + rest;
    PiecesNulFree(ps);
    TerminatedAppend(StringText(ps), rest);
    var s := StringText(ps) + rest;
    assert s[1..] == w + tail;
    SkipsPieces(ps, tail);
    NoMoreSteps(tail);
    ReadsPieces(ps, tail, 0);
    UnescapeEnd(tail, 0);
    CStringOfBytes(ps);
    assert Bytes(ps) + "" == Bytes(ps);
    assert s[|w| + 2..] == rest;
  }

  /** That is all of the text exactly if no character is written as `\u0000`. */
  lemma {:induction false} MeaningIsAll(ps: seq<Piece>)
    requires ValidPieces(ps)
    ensures StringMeaning(ps) == Bytes(ps) <==> forall i :: 0 <= i < |ps| ==> PieceCode(ps[i]) != 0
  {
    hide Utf8, ValidPiece, PieceCode;
    if ps != [] {
      var c := PieceCode(ps[0]);
      Utf8NulFree(c);
      MeaningIsAll(ps[1..]);
      if c != 0 {
        assert forall i :: 0 < i < |ps| ==> ps[i] == ps[1..][i - 1];
        assert Bytes(ps)[|Utf8(c)|..] == Bytes(ps[1..]);
        assert StringMeaning(ps)[|Utf8(c)|..] == StringMeaning(ps[1..]);
      }
    }
  }

  /** Behind the pieces stands an escape that the second pass refuses. */
  lemma BadEscapeFails(ps: seq<Piece>, e: string, rest: string)
    requires ValidPieces(ps) && |e| >= 2 && NulFree(e) && Terminated(rest)
    requires Skips(e, rest)
    requires forall end: nat :: 0 < end < |e + rest| ==> Token(e + rest, end).0 == 0
    ensures var s := [QUOTE] + PiecesText(ps) + e + rest;
      Terminated(s) && ParseString(s).Err?
  {
    hide PiecesText, Bytes, Unescape, ClosingQuote, ValidPieces, CString, Token;
    var w, t := PiecesText(ps), e + rest;
    PiecesNulFree(ps);
    TerminatedAppend([QUOTE] + w + e, rest);
    var s := [QUOTE] + w + e + rest;
    assert s[1..] == w + t;
    SkipsPieces(ps, t);
    if ClosingQuote(rest) >= 0 {
      var end := ClosingQuote(t);
      ReadsPieces(ps, t, end);
      UnescapeStep(t, end);
    }
  }

  /** A backslash before any other character is an error, wherever in the string it is. */
  lemma OtherEscapeFails(ps: seq<Piece>, c: char, rest: string)
    requires ValidPieces(ps) && c != '\0' && c !in LETTERS && c != 'u' && Terminated(rest)
    ensures var s := [QUOTE] + PiecesText(ps) + [BACKSLASH, c] + rest;
      Terminated(s) && ParseString(s).Err?
  {
    hide PiecesText, ValidPieces, Skips, Terminated;
    SkipsPair(c, rest);
    forall end: nat | 0 < end < |[BACKSLASH, c] + rest|
      ensures Token([BACKSLASH, c] + rest, end).0 == 0
    {
      NotAnEscape(c, rest, end);
    }
    BadEscapeFails(ps, [BACKSLASH, c], rest);
  }

  lemma NotAnEscape(c: char, rest: string, end: nat)
    requires c !in LETTERS && c != 'u' && 0 < end < |rest| + 2
    ensures Token([BACKSLASH, c] + rest, end).0 == 0
  {
    assert forall i :: 0 <= i < 8 ==> c != LETTERS[i];
  }

  /** No other half of a surrogate pair stands behind the escape of `unit`. */
  ghost predicate Unpaired(unit: nat, next: string) {
    || 0xDC00 <= unit <= 0xDFFF
    || (0xD800 <= unit <= 0xDBFF && !("\\u" <= next))
    || (0xD800 <= unit <= 0xDBFF
        && exists u: nat, upper :: u < 0x10000 && !(0xDC00 <= u <= 0xDFFF) && UnitText(u, upper) <= next)
  }

  /** Half of a surrogate pair is an error. */
  lemma UnpairedFails(ps: seq<Piece>, unit: nat, upper: seq<bool>, rest: string)
    requires ValidPieces(ps) && unit < 0x10000 && Unpaired(unit, rest) && Terminated(rest)
    ensures var s := [QUOTE] + PiecesText(ps) + UnitText(unit, upper) + rest;
      Terminated(s) && ParseString(s).Err?
  {
    hide PiecesText, ValidPieces, Skips, Terminated, Digit, Unpaired, Token;
    UnitPlain(unit, upper);
    SkipsUnit(unit, upper, rest);
    forall end: nat | 0 < end < |UnitText(unit, upper) + rest|
      ensures Token(UnitText(unit, upper) + rest, end).0 == 0
    {
      HalfToken(unit, upper, rest, end);
    }
    BadEscapeFails(ps, UnitText(unit, upper), rest);
  }

  lemma HalfToken(unit: nat, upper: seq<bool>, rest: string, end: nat)
    requires unit < 0x10000 && Unpaired(unit, rest) && 0 < end < 6 + |rest|
    ensures Token(UnitText(unit, upper) + rest, end).0 == 0
  {
    hide Hex4, Utf8, Unicode.UnitEscape;
    var e := UnitText(unit, upper);
    var t := e + rest;
    UnitTextIsEscape(unit, upper);
    Unicode.UnitRoundTrip(unit, upper);
    assert t[2..6] == e[2..6];
    if end >= 12 {
      if u: nat, up :| u < 0x10000 && !(0xDC00 <= u <= 0xDFFF) && UnitText(u, up) <= rest {
        UnitTextIsEscape(u, up);
        Unicode.UnitRoundTrip(u, up);
        assert t[8..12] == UnitText(u, up)[2..6];
      }
    }
  }

  /** A string with a `\u0000` inside is cut there. */
  lemma NulCutsString(rest: string)
    requires Terminated(rest)
    ensures Terminated("\"a\\u0000b\"" + rest) && ParseString("\"a\\u0000b\"" + rest) == Ok("a", rest)
  {
    var ps := [Raw(0x61), Hex(0, []), Raw(0x62)];
    assert StringText(ps) == "\"a\\u0000b\"" by {
      NulPieces();
    }
    hide StringText, ParseString, Terminated;
    StringParses(ps, rest);
    NulMeaning();
  }

  lemma NulPieces()
    ensures var ps := [Raw(0x61), Hex(0, []), Raw(0x62)];
      StringText(ps) == "\"a\\u0000b\""
  {
    var ps := [Raw(0x61), Hex(0, []), Raw(0x62)];
    assert ps[1..] == [Hex(0, []), Raw(0x62)] && ps[1..][1..] == [Raw(0x62)] && [Raw(0x62)][1..] == [];
    assert PiecesText([Raw(0x62)]) == "b";
    assert HexText(0, []) == "\\u0000";
    assert PiecesText(ps[1..]) == "\\u0000b";
  }

  lemma NulMeaning()
    ensures StringMeaning([Raw(0x61), Hex(0, []), Raw(0x62)]) == "a"
  {
    var ps := [Raw(0x61), Hex(0, []), Raw(0x62)];
    assert ps[1..] == [Hex(0, []), Raw(0x62)];
    assert StringMeaning(ps[1..]) == "";
  }

  // ----- what the printer chooses

  /** The printer writes a character as its two-character escape if it has one other than
      `\/`, another control character as `\u00xx` in lower case, and all else raw. */
  lemma PrintedAs(c: char, i: nat)
    requires i < 8
    ensures c as int == ESCAPED[i] && i != 2 ==> EscapeChar(c) == [BACKSLASH, LETTERS[i]]
    ensures c as int < 0x20 && c as int !in ESCAPED ==> EscapeChar(c) == HexText(c as int, [])
    ensures c as int >= 0x20 && (c as int !in ESCAPED || c == '/') ==> EscapeChar(c) == [c]
  {
    if c as int < 0x20 {
      assert ESCAPED[3] == 0x08 && ESCAPED[4] == 0x0C && ESCAPED[5] == 0x0A && ESCAPED[6] == 0x0D && ESCAPED[7] == 0x09;
      ControlText(c);
    } else {
      assert ESCAPED[0] == 0x22 && ESCAPED[1] == 0x5C;
    }
  }

  lemma ControlText(c: char)
    requires c as int < 0x20
    ensures HexText(c as int, []) == "\\u00" + [HexChar(c as int / 16), HexChar(c as int % 16)]
  {
  }
}
