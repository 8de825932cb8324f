/**
 * Python's numeric conversions as the add-on uses them: `str(n)` of an
 * integer, `int(text)`, `float(text)` on plain decimal text (over exact
 * reals), `int(x)` of a float (truncation toward zero), and the rounding
 * `int((x + 0.005) * 100)` that turns a ratio such as 2.35 into 235.
 */
module Numbers {
  import opened Wrappers
  import opened Strings

  predicate IsDigit(c: char) {
    '0' <= c <= '9'
  }

  predicate AllDigits(s: string) {
    forall i :: 0 <= i < |s| ==> IsDigit(s[i])
  }

  function DigitValue(c: char): nat
    requires IsDigit(c)
  {
    c as int - '0' as int
  }

  function DigitChar(d: nat): (c: char)
    requires d < 10
    ensures IsDigit(c) && DigitValue(c) == d
  {
    ('0' as int + d) as char
  }

  /** The value of a run of decimal digits (0 for the empty run). */
  function DigitsValue(s: string): nat
    requires AllDigits(s)
  {
    if s == [] then 0 else DigitsValue(s[..|s| - 1]) * 10 + DigitValue(s[|s| - 1])
  }

  /** `str(n)` for `n >= 0`: the shortest decimal spelling, whose digits read back as `n`. */
  function NatToString(n: nat): (s: string)
    ensures s != [] && AllDigits(s) && DigitsValue(s) == n
    ensures |s| > 1 ==> s[0] != '0'
  {
    if n < 10 then [DigitChar(n)]
    else
      var s := NatToString(n / 10) + [DigitChar(n % 10)];
      assert s[..|s| - 1] == NatToString(n / 10);
      s
  }

  /** `str(n)` */
  function IntToString(n: int): (s: string)
    ensures s != [] && NoSpace(s)
  {
    var s := if n < 0 then "-" + NatToString(-n) else NatToString(n);
    assert forall i :: 0 <= i < |s| ==> s[i] == '-' || IsDigit(s[i]);
    s
  }

  /** An optional leading sign: whether it is `-`, and the text after it. */
  function SignOf(t: string): (r: (bool, string))
    ensures r.1 == (if t != [] && (t[0] == '-' || t[0] == '+') then t[1..] else t)
    ensures r.0 <==> (t != [] && t[0] == '-')
  {
    if t != [] && (t[0] == '-' || t[0] == '+') then (t[0] == '-', t[1..]) else (false, t)
  }

  /** `int(s)` on decimal text: surrounding whitespace, an optional sign and at
      least one digit. `None` is Python's `ValueError`. */
  function ParseInt(s: string): Option<int> {
    var (negative, body) := SignOf(Strip(s));
    if IsDigits(body) then
      Some(if negative then -(DigitsValue(body) as int) else DigitsValue(body))
    else None
  }

  /** `int(str(n)) == n` */
  lemma ParseIntToString(n: int)
    ensures ParseInt(IntToString(n)) == Some(n)
  {
    var s := IntToString(n);
    StripNoSpace(s);
    if n < 0 {
      assert s[1..] == NatToString(-n);
    }
  }

  /** `float(s)` on plain decimal text: surrounding whitespace, an optional sign,
      digits with at most one `.`, and at least one digit, read as an exact real.
      `None` is Python's `ValueError`. */
  function ParseDecimal(s: string): Option<real> {
    var (negative, body) := SignOf(Strip(s));
    match UnsignedDecimal(body)
    case None => None
    case Some(magnitude) => Some(if negative then -magnitude else magnitude)
  }

  /** Digits with at most one `.` and at least one digit, read as an exact real. */
  function UnsignedDecimal(body: string): Option<real> {
    var k := IndexOf(body, '.');
    var whole := body[..k];
    var fraction := if k < |body| then body[k + 1..] else [];
    if AllDigits(whole) && AllDigits(fraction) && |whole| + |fraction| > 0 then
      Some(DecimalValue(whole, fraction))
    else None
  }

  /** The value of the decimal `whole.fraction`. */
  function DecimalValue(whole: string, fraction: string): real
    requires AllDigits(whole) && AllDigits(fraction)
  {
    DigitsValue(whole) as real + FractionValue(fraction)
  }

  /** The value of the digits after the point, `0.d1 d2 ...`. */
  function FractionValue(f: string): (x: real)
    requires AllDigits(f)
    ensures 0.0 <= x < 1.0
    decreases |f|
  {
    if f == [] then 0.0 else (DigitValue(f[0]) as real + FractionValue(f[1..])) / 10.0
  }

  /** The first two fractional digits as hundredths: "35" is 35, "8" is 80. */
  function Cents(f: string): (c: nat)
    requires AllDigits(f) && |f| <= 2
    ensures c < 100
  {
    if f == [] then 0
    else if |f| == 1 then 10 * DigitValue(f[0])
    else 10 * DigitValue(f[0]) + DigitValue(f[1])
  }

  /** `float` of a digit run `N`. */
  lemma ParseDecimalWhole(whole: string)
    requires AllDigits(whole) && whole != []
    ensures ParseDecimal(whole) == Some(DigitsValue(whole) as real)
  {
    UnsignedWhole(whole);
    UnsignedText(whole);
  }

  lemma UnsignedWhole(whole: string)
    requires AllDigits(whole) && whole != []
    ensures UnsignedDecimal(whole) == Some(DigitsValue(whole) as real)
  {
    assert '.' !in whole;
    assert whole[..|whole|] == whole;
  }

  /** Text made of digits and dots. */
  predicate DecimalText(t: string) {
    forall i :: 0 <= i < |t| ==> t[i] == '.' || IsDigit(t[i])
  }

  lemma DecimalTextOf(whole: string, fraction: string)
    requires AllDigits(whole) && AllDigits(fraction)
    ensures DecimalText(whole + ['.'] + fraction)
  {
    var t := whole + ['.'] + fraction;
    forall i | 0 <= i < |t|
      ensures t[i] == '.' || IsDigit(t[i])
    {
      if i < |whole| {
        assert t[i] == whole[i];
      } else if i > |whole| {
        assert t[i] == fraction[i - |whole| - 1];
      }
    }
  }

  /** Unsigned digit text is its own stripped, sign-free body. */
  lemma UnsignedText(t: string)
    requires t != [] && DecimalText(t)
    ensures SignOf(Strip(t)) == (false, t)
  {
    assert NoSpace(t);
    StripNoSpace(t);
    assert t[0] != '-' && t[0] != '+';
  }

  /** `float` of `N.F` with digit runs `N` and `F`, not both empty. */
  lemma ParseDecimalFraction(whole: string, fraction: string)
    requires AllDigits(whole) && AllDigits(fraction) && |whole| + |fraction| > 0
    ensures ParseDecimal(whole + ['.'] + fraction) == Some(DecimalValue(whole, fraction))
  {
    DecimalTextOf(whole, fraction);
    UnsignedText(whole + ['.'] + fraction);
    UnsignedFraction(whole, fraction);
  }

  lemma UnsignedFraction(whole: string, fraction: string)
    requires AllDigits(whole) && AllDigits(fraction) && |whole| + |fraction| > 0
    ensures UnsignedDecimal(whole + ['.'] + fraction) == Some(DecimalValue(whole, fraction))
  {
    assert '.' !in whole;
    IndexOfAfter(whole, '.', fraction);
  }

  /** `int(x)` for a float `x`: truncation toward zero. */
  function Trunc(x: real): (n: int)
    ensures x >= 0.0 ==> n == x.Floor
    ensures 0.0 <= x - n as real < 1.0 || 0.0 <= n as real - x < 1.0
    ensures (x >= 0.0 ==> n >= 0) && (x <= 0.0 ==> n <= 0)
  {
    if x >= 0.0 then x.Floor else -((-x).Floor)
  }

  /** `int((x + 0.005) * 100)`: a ratio as the integer hundredths the add-on
      works with, rounded half up for non-negative `x`. */
  function RatioInt(x: real): (r: int)
    ensures x >= -0.005 ==> r as real <= 100.0 * x + 0.5 < r as real + 1.0
    ensures x <= -0.005 ==> r as real - 1.0 < 100.0 * x + 0.5 <= r as real
  {
    Trunc((x + 0.005) * 100.0)
  }

  /** A non-negative decimal with at most two fractional digits is read exactly:
      "2.35" gives 235, "1.8" gives 180 and "2" gives 200. */
  lemma RatioIntTwoDecimals(whole: string, fraction: string)
    requires AllDigits(whole) && AllDigits(fraction) && |fraction| <= 2
    ensures RatioInt(DecimalValue(whole, fraction)) == 100 * DigitsValue(whole) + Cents(fraction)
  {
    var n := 100 * DigitsValue(whole) + Cents(fraction);
    var x := DecimalValue(whole, fraction);
    assert FractionValue(fraction) * 100.0 == Cents(fraction) as real by {
      if |fraction| == 2 {
        var t := fraction[1..];
        assert t[0] == fraction[1] && t[1..] == [];
        assert FractionValue(t) == DigitValue(t[0]) as real / 10.0;
      } else if |fraction| == 1 {
        assert fraction[1..] == [];
      }
    }
    assert (x + 0.005) * 100.0 == n as real + 0.5;
  }

  /** Integer division is the floor of the exact quotient. */
  lemma FloorOfQuotient(q: nat, d: nat)
    requires d > 0
    ensures (q as real / d as real).Floor == q / d
  {
    var k, m := q / d, q % d;
    assert q == k * d + m;
    assert q as real == k as real * d as real + m as real;
    assert q as real / d as real == k as real + m as real / d as real;
    assert 0.0 <= m as real / d as real < 1.0;
  }

  /** The ratio of a width and a height in hundredths, rounded half up, in
      integer arithmetic: `(200 * w + h) / (2 * h)`. */
  lemma RatioIntOfQuotient(w: nat, h: nat)
    requires h > 0
    ensures RatioInt(w as real / h as real) == (200 * w + h) / (2 * h)
  {
    var x := w as real / h as real;
    var y := (x + 0.005) * 100.0;
    assert x * h as real == w as real;
    assert y * (2 * h) as real == 200.0 * (x * h as real) + h as real;
    assert y * (2 * h) as real == (200 * w + h) as real;
    assert y == (200 * w + h) as real / (2 * h) as real;
    FloorOfQuotient(200 * w + h, 2 * h);
  }
}
