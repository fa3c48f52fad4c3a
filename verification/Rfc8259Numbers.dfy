/** Reading any number of RFC 8259, section 6: sign, integer, fraction and exponent. */
module Rfc8259Numbers {
  import opened JsonValue
  import opened JsonGrammar
  import RoundTrip
  import N = JsonNumber

  // ----- the grammar

  type Digit = d: nat | d < 10

  const DIGITS: string := "0123456789"

  datatype Power = NoPower | Power(letter: char, sign: string, digits: seq<Digit>)

  /** An empty fraction stands for no fraction. */
  datatype Numeral = Numeral(minus: bool, whole: seq<Digit>, fraction: seq<Digit>, power: Power)

  predicate ValidNumeral(n: Numeral) {
    && n.whole != [] && (n.whole[0] == 0 ==> |n.whole| == 1)
    && (n.power.Power? ==> n.power.letter in "eE" && n.power.sign in ["", "+", "-"] && n.power.digits != [])
  }

  function Chars(d: seq<Digit>): (s: string)
    ensures |s| == |d|
  {
    if d == [] then "" else [DIGITS[d[0]]] + Chars(d[1..])
  }

  function PowerText(p: Power): string {
    match p
    case NoPower => ""
    case Power(letter, sign, digits) => [letter] + sign + Chars(digits)
  }

  function FractionText(d: seq<Digit>): string {
    if d == [] then "" else "." + Chars(d)
  }

  function MagnitudeText(n: Numeral): string {
    Chars(n.whole) + FractionText(n.fraction) + PowerText(n.power)
  }

  function NumeralText(n: Numeral): string {
    (if n.minus then "-" else "") + MagnitudeText(n)
  }

  // ----- the meaning, digit by digit

  function Ten(k: nat): (p: nat)
    ensures p > 0
  {
    if k == 0 then 1 else 10 * Ten(k - 1)
  }

  function TenTo(e: int): (p: real)
    ensures p > 0.0
    decreases if e < 0 then -e else e
  {
    if e == 0 then 1.0 else if e > 0 then 10.0 * TenTo(e - 1) else TenTo(e + 1) / 10.0
  }

  function Whole(d: seq<Digit>): int {
    if d == [] then 0 else d[0] * Ten(|d| - 1) + Whole(d[1..])
  }

  function Fraction(d: seq<Digit>): real {
    if d == [] then 0.0 else (d[0] as real + Fraction(d[1..])) / 10.0
  }

  function PowerValue(p: Power): int {
    if p.NoPower? then 0 else if p.sign == "-" then -Whole(p.digits) else Whole(p.digits)
  }

  function Magnitude(n: Numeral): real {
    (Whole(n.whole) as real + Fraction(n.fraction)) * TenTo(PowerValue(n.power))
  }

  function NumeralValue(n: Numeral): real {
    if n.minus then -Magnitude(n) else Magnitude(n)
  }

  // ----- powers of ten

  lemma {:induction false} TenAdds(a: nat, b: nat)
    ensures Ten(a + b) == Ten(a) * Ten(b)
  {
    if a > 0 {
      TenAdds(a - 1, b);
      assert Ten(a + b) == 10 * Ten(a - 1 + b);
    }
  }

  lemma {:induction false} TenToUp(e: int)
    ensures TenTo(e + 1) == 10.0 * TenTo(e)
  {
  }

  lemma TenToNothing()
    ensures TenTo(0) == 1.0
  {
  }

  function Product(p: real, q: real): real {
    p * q
  }

  lemma {:induction false} TenToAdds(a: int, b: nat)
    ensures TenTo(a + b) == Product(TenTo(a), TenTo(b))
  {
    hide TenTo, Product;
    if b == 0 {
      TenToNothing();
      ProductStep(TenTo(a), 1.0);
    } else {
      TenToAdds(a, b - 1);
      TenToUp(a + (b - 1));
      TenToUp(b - 1);
      assert a + b == a + (b - 1) + 1;
      ProductStep(TenTo(a), TenTo(b - 1));
    }
  }

  lemma ProductStep(p: real, q: real)
    ensures Product(p, 10.0 * q) == 10.0 * Product(p, q)
    ensures Product(p, 1.0) == p
  {
  }

  lemma {:induction false} TenToNat(k: nat)
    ensures TenTo(k) == Ten(k) as real && TenTo(k) == N.Pow10(k)
  {
    if k > 0 {
      TenToNat(k - 1);
    }
  }

  lemma ScaleIs(m: real, e: int)
    ensures N.Scale(m, e) == m * TenTo(e)
  {
    hide TenTo, N.Pow10;
    if e >= 0 {
      TenToNat(e);
    } else {
      TenToNat(-e);
      TenToAdds(e, -e);
      TenToNothing();
      DividesOut(m, TenTo(e), TenTo(-e));
    }
  }

  lemma DividesOut(m: real, p: real, q: real)
    requires q > 0.0 && p * q == 1.0
    ensures m / q == m * p
  {
    assert m * p * q == m;
  }

  // ----- digits

  lemma {:induction false} CharsAppend(a: seq<Digit>, b: seq<Digit>)
    ensures Chars(a + b) == Chars(a) + Chars(b)
  {
    if a == [] {
      assert a + b == b;
    } else {
      assert (a + b)[1..] == a[1..] + b;
      CharsAppend(a[1..], b);
    }
  }

  lemma {:induction false} CharsAreDigits(d: seq<Digit>)
    ensures forall i :: 0 <= i < |d| ==> N.IsDigit(Chars(d)[i])
  {
    if d != [] {
      CharsAreDigits(d[1..]);
    }
  }

  lemma {:induction false} WholeAppend(a: seq<Digit>, b: seq<Digit>)
    ensures Whole(a + b) == Whole(a) * Ten(|b|) + Whole(b)
  {
    if a == [] {
      assert a + b == b;
    } else {
      assert (a + b)[1..] == a[1..] + b;
      WholeAppend(a[1..], b);
      TenAdds(|a| - 1, |b|);
      Distributes(a[0], Ten(|a| - 1), Ten(|b|), Whole(a[1..]));
    }
  }

  lemma Distributes(x: int, p: int, q: int, y: int)
    ensures (x * p + y) * q == x * (p * q) + y * q
  {
  }

  /** The program's reading, which goes from the last digit to the first. */
  lemma {:induction false} DigitsValueIs(d: seq<Digit>)
    ensures N.DigitsValue(Chars(d)) == Whole(d)
  {
    if d != [] {
      var a, x := d[..|d| - 1], d[|d| - 1];
      assert d == a + [x];
      CharsAppend(a, [x]);
      assert Chars([x]) == [DIGITS[x]];
      assert Chars(d)[..|d| - 1] == Chars(a) && Chars(d)[|d| - 1] == DIGITS[x];
      DigitsValueIs(a);
      WholeAppend(a, [x]);
      OneDigit(x);
    }
  }

  lemma OneDigit(x: Digit)
    ensures Ten(1) == 10 && Whole([x]) == x && DIGITS[x] as int - '0' as int == x
  {
    assert Ten(0) == 1;
    assert [x][1..] == [];
  }

  /** Dividing by the weight of the last digit gives the fraction. */
  lemma {:induction false} FractionIs(d: seq<Digit>)
    ensures Fraction(d) * TenTo(|d|) == Whole(d) as real
  {
    if d != [] {
      FractionIs(d[1..]);
      TenToNat(|d| - 1);
      Tenth(d[0] as real, Fraction(d[1..]), TenTo(|d| - 1));
    }
  }

  lemma Tenth(x: real, y: real, p: real)
    ensures (x + y) / 10.0 * (10.0 * p) == x * p + y * p
  {
    assert (x + y) / 10.0 * 10.0 == x + y;
  }

  // ----- what strtod reads

  lemma {:induction false} RunOfDigits(s: string, t: string)
    requires forall i :: 0 <= i < |s| ==> N.IsDigit(s[i])
    requires t == "" || !N.IsDigit(t[0])
    ensures N.DigitRun(s + t) == |s|
  {
    if s == "" {
      assert s + t == t;
    } else {
      assert (s + t)[1..] == s[1..] + t;
      RunOfDigits(s[1..], t);
    }
  }

  lemma ExponentReads(p: Power)
    requires p.Power? ==> p.letter in "eE" && p.sign in ["", "+", "-"] && p.digits != []
    ensures N.Exponent(PowerText(p)) == (|PowerText(p)|, PowerValue(p))
  {
    hide N.DigitRun, N.DigitsValue, Whole;
    if p.Power? {
      var s, c := PowerText(p), Chars(p.digits);
      var at := 1 + |p.sign|;
      CharsAreDigits(p.digits);
      DigitsValueIs(p.digits);
      assert c + "" == c;
      RunOfDigits(c, "");
      assert s[at..] == c && c[..|c|] == c;
      assert |p.sign| == 1 ==> s[1] == p.sign[0];
      assert p.sign == "" ==> s[1] == c[0];
      SignOf(p.sign);
    }
  }

  lemma SignOf(sign: string)
    requires sign in ["", "+", "-"]
    ensures |sign| <= 1 && (sign == "" || sign == "+" || sign == "-")
  {
  }

  lemma PowerHead(p: Power)
    requires p.Power? ==> p.letter in "eE"
    ensures PowerText(p) == "" || PowerText(p)[0] == 'e' || PowerText(p)[0] == 'E'
  {
  }

  /** What `Unsigned` finds: the two runs of digits and the exponent. */
  lemma UnsignedParts(w: string, f: string, x: string, e: int)
    requires w != "" && forall i :: 0 <= i < |w| ==> N.IsDigit(w[i])
    requires forall i :: 0 <= i < |f| ==> N.IsDigit(f[i])
    requires x == "" || x[0] == 'e' || x[0] == 'E'
    requires N.Exponent(x) == (|x|, e)
    ensures var s := w + (if f == "" then "" else "." + f) + x;
      N.Unsigned(s) == (|s|, N.Scale(N.DigitsValue(w + f) as real, e - |f|))
  {
    hide N.DigitRun, N.DigitsValue, N.Exponent, N.Scale;
    if f == "" {
      var s := w + "" + x;
      assert s == w + x && w + "" == w;
      RunOfDigits(w, x);
      assert s[..|w|] == w && s[|w|..] == x;
    } else {
      var s := w + ("." + f) + x;
      assert s == w + ("." + f + x);
      RunOfDigits(w, "." + f + x);
      assert s[|w| + 1..] == f + x;
      RunOfDigits(f, x);
      assert s[..|w|] == w && s[|w| + 1..|w| + 1 + |f|] == f;
      assert s[|w| + 1 + |f|..] == x;
    }
  }

  /** The scaled mantissa is the number. */
  lemma ScaledMantissa(n: Numeral, e: int)
    requires e == PowerValue(n.power)
    ensures N.Scale(Whole(n.whole + n.fraction) as real, e - |n.fraction|) == Magnitude(n)
  {
    hide Whole, Fraction, TenTo, Ten, N.Scale;
    var f := |n.fraction|;
    WholeAppend(n.whole, n.fraction);
    TenToNat(f);
    FractionIs(n.fraction);
    ScaleIs(Whole(n.whole + n.fraction) as real, e - f);
    TenToAdds(e - f, f);
    assert e - f + f == e;
    Regroup(Whole(n.whole) as real, Fraction(n.fraction), TenTo(f), TenTo(e - f));
    assert (Whole(n.whole) * Ten(f)) as real == Whole(n.whole) as real * Ten(f) as real;
  }

  lemma Regroup(w: real, x: real, p: real, q: real)
    ensures (w * p + x * p) * q == (w + x) * (q * p)
  {
  }

  lemma MagnitudeReads(n: Numeral)
    requires ValidNumeral(n)
    ensures N.Unsigned(MagnitudeText(n)) == (|MagnitudeText(n)|, Magnitude(n))
    ensures MagnitudeText(n) != "" && N.IsDigit(MagnitudeText(n)[0])
  {
    hide N.Unsigned, N.Scale, Whole, Magnitude, Chars, PowerText, PowerValue, N.DigitsValue, N.Exponent;
    CharsAreDigits(n.whole);
    CharsAreDigits(n.fraction);
    ExponentReads(n.power);
    PowerHead(n.power);
    UnsignedParts(Chars(n.whole), Chars(n.fraction), PowerText(n.power), PowerValue(n.power));
    CharsAppend(n.whole, n.fraction);
    DigitsValueIs(n.whole + n.fraction);
    ScaledMantissa(n, PowerValue(n.power));
    assert MagnitudeText(n)[0] == Chars(n.whole)[0];
  }

  lemma StrtodReads(n: Numeral)
    requires ValidNumeral(n)
    ensures N.Strtod(NumeralText(n)) == (|NumeralText(n)|, NumeralValue(n))
  {
    hide N.Unsigned, Magnitude, MagnitudeText, ValidNumeral;
    MagnitudeReads(n);
    var m := MagnitudeText(n);
    if n.minus {
      assert NumeralText(n)[1..] == m;
    } else {
      assert NumeralText(n) == m;
    }
  }

  // ----- the number in its text

  lemma NumeralIsNumeric(n: Numeral)
    requires ValidNumeral(n)
    ensures forall i :: 0 <= i < |NumeralText(n)| ==> N.IsNumeric(NumeralText(n)[i])
    ensures NumeralText(n) != "" && (NumeralText(n)[0] == '-' || N.IsDigit(NumeralText(n)[0]))
  {
    CharsAreDigits(n.whole);
    CharsAreDigits(n.fraction);
    PowerIsNumeric(n.power);
    hide Chars, PowerText;
    assert MagnitudeText(n)[0] == Chars(n.whole)[0];
  }

  lemma PowerIsNumeric(p: Power)
    requires p.Power? ==> p.letter in "eE" && p.sign in ["", "+", "-"] && p.digits != []
    ensures forall i :: 0 <= i < |PowerText(p)| ==> N.IsNumeric(PowerText(p)[i])
  {
    if p.Power? {
      CharsAreDigits(p.digits);
      SignOf(p.sign);
    }
  }

  lemma NumeralNulFree(n: Numeral)
    requires ValidNumeral(n)
    ensures NulFree(NumeralText(n))
  {
    NumeralIsNumeric(n);
  }

  /** The scratch buffer holds 63 characters: a number that fits is read whole, and of a longer
      one a part is left, which starts with one of its characters. */
  lemma NumberParses(n: Numeral, rest: string)
    requires ValidNumeral(n) && Terminated(rest) && !N.IsNumeric(rest[0])
    ensures var s := NumeralText(n) + rest;
      Terminated(s) &&
      if |NumeralText(n)| <= 63 then ParseNumber(s) == Ok(Number(NumeralValue(n)), rest)
      else ParseNumber(s).Ok? ==> N.IsNumeric(ParseNumber(s).rest[0])
  {
    hide N.Strtod, NumeralText, NumeralValue, N.NumericPrefix;
    var w := NumeralText(n);
    NumeralIsNumeric(n);
    NumeralNulFree(n);
    RoundTrip.TerminatedAppend(w, rest);
    var s := w + rest;
    if |w| <= 63 {
      N.NumericPrefixStops(w, rest, 63);
      StrtodReads(n);
      assert s[|w|..] == rest;
    } else {
      var k := N.Strtod(N.NumericPrefix(s, 63)).0;
      assert s[k] == w[k];
    }
  }
}
