/** The text of a number: `print_number`'s "%1.15g" on integers it writes in
    plain decimal, and the part of `strtod` that the ten digits, '+', '-', 'e',
    'E' and '.' can reach.  Values are reals: rounding to double is left out. */
module JsonNumber {

  predicate IsDigit(c: char) {
    '0' <= c <= '9'
  }

  /** The characters `parse_number` copies into its scratch buffer. */
  predicate IsNumeric(c: char) {
    IsDigit(c) || c == '+' || c == '-' || c == 'e' || c == 'E' || c == '.'
  }

  function DigitChar(d: int): char
    requires 0 <= d < 10
  {
    ('0' as int + d) as char
  }

  function Digits(n: nat): string {
    (if n < 10 then "" else Digits(n / 10)) + [DigitChar(n % 10)]
  }

  /** Plain decimal notation. */
  function Decimal(n: int): string {
    if n < 0 then "-" + Digits(-n) else Digits(n)
  }

  /** Number of leading digits. */
  function DigitRun(s: string): (k: nat)
    ensures k <= |s|
  {
    if s != "" && IsDigit(s[0]) then 1 + DigitRun(s[1..]) else 0
  }

  /** Value of a string of digits, most significant first. */
  function DigitsValue(s: string): int
    decreases |s|
  {
    if s == "" then 0
    else 10 * DigitsValue(s[..|s| - 1]) + (s[|s| - 1] as int - '0' as int)
  }

  function Pow10(k: nat): (p: real)
    ensures p >= 1.0
  {
    if k == 0 then 1.0 else 10.0 * Pow10(k - 1)
  }

  function Scale(m: real, e: int): real {
    if e >= 0 then m * Pow10(e) else m / Pow10(-e)
  }

  /** Length and value of an optional exponent part. */
  function Exponent(s: string): (r: (nat, int))
    ensures r.0 <= |s|
  {
    if s != "" && (s[0] == 'e' || s[0] == 'E') then
      var signed := |s| > 1 && (s[1] == '+' || s[1] == '-');
      var at := if signed then 2 else 1;
      var k := DigitRun(s[at..]);
      var e := DigitsValue(s[at..][..k]);
      if k == 0 then (0, 0) else (at + k, if signed && s[1] == '-' then -e else e)
    else (0, 0)
  }

  /** Unsigned `strtod`: how much is consumed (0 when there is no number) and its value. */
  function Unsigned(s: string): (r: (nat, real))
    ensures r.0 <= |s|
  {
    var i := DigitRun(s);
    var dot := i < |s| && s[i] == '.';
    var f := if dot then DigitRun(s[i + 1..]) else 0;
    if i + f == 0 then (0, 0.0)
    else
      var end := if dot then i + 1 + f else i;
      var mantissa := DigitsValue(s[..i] + if dot then s[i + 1..i + 1 + f] else "");
      var x := Exponent(s[end..]);
      (end + x.0, Scale(mantissa as real, x.1 - f))
  }

  function Strtod(s: string): (r: (nat, real))
    ensures r.0 <= |s|
  {
    if s != "" && (s[0] == '-' || s[0] == '+') then
      var r := Unsigned(s[1..]);
      if r.0 == 0 then (0, 0.0) else (1 + r.0, if s[0] == '-' then -r.1 else r.1)
    else Unsigned(s)
  }

  /** What the copying loop of `parse_number` collects: at most `room` numeric characters. */
  function NumericPrefix(s: string, room: nat): (p: string)
    ensures p <= s && |p| <= room
    ensures forall i :: 0 <= i < |p| ==> IsNumeric(p[i])
  {
    if room > 0 && s != "" && IsNumeric(s[0]) then [s[0]] + NumericPrefix(s[1..], room - 1) else ""
  }

  lemma {:induction false} DigitsAreDigits(n: nat)
    ensures forall i :: 0 <= i < |Digits(n)| ==> IsDigit(Digits(n)[i])
    ensures Digits(n) != ""
  {
    if n >= 10 {
      DigitsAreDigits(n / 10);
    }
  }

  lemma {:induction false} DigitsLength(n: nat, k: nat)
    requires n as real < Pow10(k) && k > 0
    ensures |Digits(n)| <= k
  {
    if n >= 10 {
      assert Pow10(k) == 10.0 * Pow10(k - 1);
      assert 10 * (n / 10) <= n;
      assert (n / 10) as real * 10.0 <= n as real;
      DigitsLength(n / 10, k - 1);
    }
  }

  lemma {:induction false} DigitsValueOfDigits(n: nat)
    ensures DigitsValue(Digits(n)) == n
  {
    var s := Digits(n);
    if n < 10 {
      assert s == [DigitChar(n)] && s[..0] == "";
      assert DigitsValue(s[..0]) == 0;
    } else {
      DigitsValueOfDigits(n / 10);
      assert s[..|s| - 1] == Digits(n / 10);
    }
  }

  lemma {:induction false} DigitRunOfDigits(s: string)
    requires forall i :: 0 <= i < |s| ==> IsDigit(s[i])
    ensures DigitRun(s) == |s|
  {
    if s != "" {
      DigitRunOfDigits(s[1..]);
    }
  }

  /** Reading back a decimal integer consumes all of it and gives its value. */
  lemma StrtodDecimal(n: int)
    ensures Strtod(Decimal(n)) == (|Decimal(n)|, n as real)
  {
    var m := if n < 0 then -n else n;
    var d := Digits(m);
    DigitsAreDigits(m);
    UnsignedDigits(m);
    if n < 0 {
      assert Decimal(n)[1..] == d;
      assert -(m as real) == n as real;
    } else {
      assert IsDigit(d[0]);
    }
  }

  lemma ScaleByOne(x: real)
    ensures Scale(x, 0) == x
  {
    assert Pow10(0) == 1.0;
  }

  lemma UnsignedDigits(m: nat)
    ensures Unsigned(Digits(m)) == (|Digits(m)|, m as real)
  {
    hide Digits, DigitRun, DigitsValue;
    var d := Digits(m);
    DigitsAreDigits(m);
    DigitRunOfDigits(d);
    DigitsValueOfDigits(m);
    assert d[..|d|] + "" == d;
    assert d[|d|..] == "";
    assert Exponent("") == (0, 0);
    ScaleByOne(m as real);
  }

  lemma {:induction false} NumericPrefixStops(s: string, rest: string, room: nat)
    requires |s| <= room
    requires forall i :: 0 <= i < |s| ==> IsNumeric(s[i])
    requires rest != "" && !IsNumeric(rest[0])
    ensures NumericPrefix(s + rest, room) == s
  {
    if s == "" {
      assert s + rest == rest;
    } else {
      NumericPrefixStops(s[1..], rest, room - 1);
      assert (s + rest)[1..] == s[1..] + rest;
    }
  }
}
