/**
 * Decimal text and numbers: Kotlin's `String.toLong()` and `Long.toString()`, and
 * `String.toDouble()` (Java's `Double.parseDouble`) with the parsed value kept as an
 * exact decimal instead of a binary floating-point number.
 */
module Numbers {
  import opened Wrappers

  predicate IsDigit(c: char) {
    '0' <= c <= '9'
  }

  predicate AllDigits(s: string) {
    forall i :: 0 <= i < |s| ==> IsDigit(s[i])
  }

  function DigitValue(c: char): nat
    requires IsDigit(c)
  {
    c as int - '0' as int
  }

  function DigitChar(d: nat): (c: char)
    requires d < 10
    ensures IsDigit(c) && DigitValue(c) == d
  {
    ('0' as int + d) as char
  }

  /** The value of a run of decimal digits, most significant first. */
  function DigitsValue(s: string): nat
    requires AllDigits(s)
    decreases |s|
  {
    if |s| == 0 then 0 else 10 * DigitsValue(s[..|s| - 1]) + DigitValue(s[|s| - 1])
  }

  /** The shortest decimal digits of `n`: no leading zero except for `0` itself. */
  function NatToDigits(n: nat): (s: string)
    ensures |s| > 0 && AllDigits(s)
    ensures DigitsValue(s) == n
    ensures s[0] == '0' ==> n == 0
    decreases n
  {
    if n < 10 then [DigitChar(n)]
    else
      var high := NatToDigits(n / 10);
      var s := high + [DigitChar(n % 10)];
      assert s[..|s| - 1] == high;
      s
  }

  /** The length of the longest prefix of `s` made of digits. */
  function DigitRun(s: string): (n: nat)
    ensures n <= |s| && AllDigits(s[..n])
    ensures n == |s| || !IsDigit(s[n])
    decreases |s|
  {
    if |s| == 0 || !IsDigit(s[0]) then 0
    else
      var n := 1 + DigitRun(s[1..]);
      assert s[..n] == [s[0]] + s[1..][..n - 1];
      n
  }

  /** The digit run of `a + b` ends where `a` ends when `a` is all digits and `b` does not start with one. */
  lemma DigitRunStopsAt(a: string, b: string)
    requires AllDigits(a)
    requires |b| == 0 || !IsDigit(b[0])
    ensures DigitRun(a + b) == |a|
  {
    var s := a + b;
    assert forall k :: 0 <= k < |a| ==> s[k] == a[k];
    assert |b| > 0 ==> s[|a|] == b[0];
    assert forall m :: |a| < m <= |s| ==> s[..m][|a|] == s[|a|];
  }

  // ----- Kotlin Long -----

  const LONG_MIN: int := -0x8000_0000_0000_0000
  const LONG_MAX: int := 0x7FFF_FFFF_FFFF_FFFF

  predicate IsLong(n: int) {
    LONG_MIN <= n <= LONG_MAX
  }

  /**
   * Kotlin's `String.toLong()`: an optional `+` or `-`, then at least one digit, and a
   * value that fits in 64 bits; anything else is a `NumberFormatException` (`None`).
   */
  function ParseLong(s: string): (r: Option<int>)
    ensures r.Some? ==> IsLong(r.value)
    ensures r.Some? ==> |s| > 0 && AllDigits(s[1..]) && (IsDigit(s[0]) || (|s| > 1 && s[0] in "+-"))
  {
    if |s| == 0 then None
    else
      var digits := if s[0] == '-' || s[0] == '+' then s[1..] else s;
      if |digits| == 0 || !AllDigits(digits) then None
      else
        var magnitude: int := DigitsValue(digits);
        var v := if s[0] == '-' then -magnitude else magnitude;
        if IsLong(v) then Some(v) else None
  }

  /** Kotlin's `Long.toString()`: a `-` for negative numbers, then the shortest digits. */
  function IntText(n: int): (s: string)
    ensures |s| > 0
    ensures forall i :: 0 <= i < |s| ==> IsDigit(s[i]) || (i == 0 && s[i] == '-')
  {
    if n < 0 then "-" + NatToDigits(-n) else NatToDigits(n)
  }

  /** Printing a 64-bit number and parsing it back gives the number. */
  lemma ParseLongIntText(n: int)
    requires IsLong(n)
    ensures ParseLong(IntText(n)) == Some(n)
  {
    if n < 0 {
      assert IntText(n)[1..] == NatToDigits(-n);
    }
  }

  /** Distinct 64-bit numbers print differently. */
  lemma IntTextInjective(a: int, b: int)
    requires IsLong(a) && IsLong(b) && IntText(a) == IntText(b)
    ensures a == b
  {
    ParseLongIntText(a);
    ParseLongIntText(b);
  }

  // ----- Kotlin Double -----

  /** The exact number `mantissa * 10^exponent`. */
  datatype Decimal = Decimal(mantissa: int, exponent: int)

  function Pow10(k: nat): (p: nat)
    ensures p >= 1
  {
    if k == 0 then 1 else 10 * Pow10(k - 1)
  }

  /** `a <= b` on the exact values. */
  predicate DecimalLe(a: Decimal, b: Decimal) {
    if a.exponent <= b.exponent then a.mantissa <= b.mantissa * Pow10(b.exponent - a.exponent)
    else a.mantissa * Pow10(a.exponent - b.exponent) <= b.mantissa
  }

  /** What `toDouble` can produce: a number, not-a-number, or an infinity. */
  datatype DoubleValue = Finite(value: Decimal) | NaN | PositiveInfinity | NegativeInfinity

  /** Kotlin's `<=` on doubles: false whenever either side is NaN. */
  predicate DoubleLe(a: DoubleValue, b: DoubleValue) {
    match (a, b)
    case (NaN, _) => false
    case (_, NaN) => false
    case (NegativeInfinity, _) => true
    case (_, PositiveInfinity) => true
    case (PositiveInfinity, _) => false
    case (_, NegativeInfinity) => false
    case (Finite(x), Finite(y)) => DecimalLe(x, y)
  }

  /** Characters Java's `String.trim` removes from both ends. */
  predicate IsBlank(c: char) {
    c <= ' '
  }

  /** Java's `String.trim()`. */
  function Trim(s: string): (t: string)
    ensures |t| <= |s|
    ensures |t| > 0 ==> !IsBlank(t[0]) && !IsBlank(t[|t| - 1])
    ensures |s| > 0 && !IsBlank(s[0]) && !IsBlank(s[|s| - 1]) ==> t == s
    decreases |s|
  {
    if |s| == 0 then s
    else if IsBlank(s[0]) then Trim(s[1..])
    else if IsBlank(s[|s| - 1]) then Trim(s[..|s| - 1])
    else s
  }

  /** The float/double type letter Java allows after a number. */
  predicate IsTypeSuffix(s: string) {
    s == "" || s == "f" || s == "F" || s == "d" || s == "D"
  }

  /** An optional exponent (`e`/`E`, an optional sign, digits) and an optional type letter; the power of ten. */
  function ParseExponent(s: string): (r: Option<int>)
    ensures IsTypeSuffix(s) ==> r == Some(0)
  {
    if |s| > 0 && (s[0] == 'e' || s[0] == 'E') then
      var t := s[1..];
      var digits := if |t| > 0 && (t[0] == '-' || t[0] == '+') then t[1..] else t;
      var n := DigitRun(digits);
      if n == 0 || !IsTypeSuffix(digits[n..]) then None
      else
        var magnitude: int := DigitsValue(digits[..n]);
        Some(if |t| > 0 && t[0] == '-' then -magnitude else magnitude)
    else if IsTypeSuffix(s) then Some(0)
    else None
  }

  /** Digits with at most one `.` and at least one digit, then `ParseExponent`. */
  function ParseUnsignedDecimal(s: string): (r: Option<Decimal>)
    ensures r.Some? ==> r.value.mantissa >= 0
    ensures r.Some? ==> |s| > 0 && (IsDigit(s[0]) || s[0] == '.')
  {
    var i := DigitRun(s);
    ParseAfterIntegerPart(s[..i], s[i..])
  }

  /** The rest of a decimal once its leading digits `intPart` are read. */
  function ParseAfterIntegerPart(intPart: string, rest: string): (r: Option<Decimal>)
    requires AllDigits(intPart)
    ensures r.Some? ==> r.value.mantissa >= 0
    ensures r.Some? ==> |intPart| > 0 || (|rest| > 0 && rest[0] == '.')
  {
    if |rest| > 0 && rest[0] == '.' then
      var f := DigitRun(rest[1..]);
      ParseMantissaExponent(intPart, rest[1..][..f], rest[1..][f..])
    else ParseMantissaExponent(intPart, "", rest)
  }

  /** Integer digits, fraction digits and the exponent text, at least one digit in all. */
  function ParseMantissaExponent(intPart: string, fraction: string, rest: string): (r: Option<Decimal>)
    requires AllDigits(intPart) && AllDigits(fraction)
    ensures r.Some? ==> r.value.mantissa >= 0
    ensures r.Some? ==> |intPart| + |fraction| > 0
  {
    if |intPart| + |fraction| == 0 then None
    else match ParseExponent(rest)
      case None => None
      case Some(e) => Some(Decimal(DigitsValue(intPart + fraction), e - |fraction|))
  }

  /**
   * Kotlin's `String.toDouble()`: surrounding blanks are ignored, then an optional
   * sign and `NaN`, `Infinity` or a decimal number; `None` is a `NumberFormatException`.
   */
  function ParseDouble(s: string): (r: Option<DoubleValue>)
    ensures Trim(s) == "" ==> r.None?
  {
    ParseSignedNumber(Trim(s))
  }

  /** An optional sign followed by `NaN`, `Infinity` or an unsigned decimal. */
  function ParseSignedNumber(t: string): (r: Option<DoubleValue>)
    ensures t == "" ==> r.None?
  {
    var negative := |t| > 0 && t[0] == '-';
    var body := if |t| > 0 && (t[0] == '-' || t[0] == '+') then t[1..] else t;
    if body == "NaN" then Some(NaN)
    else if body == "Infinity" then Some(if negative then NegativeInfinity else PositiveInfinity)
    else match ParseUnsignedDecimal(body)
      case None => None
      case Some(d) => Some(Finite(if negative then Decimal(-d.mantissa, d.exponent) else d))
  }

  /** Scientific notation for an exact decimal: `<mantissa>E<exponent>`. */
  function ScientificText(d: Decimal): string {
    IntText(d.mantissa) + "E" + IntText(d.exponent)
  }

  /** The exponent part `E<n>` parses back to `n`. */
  lemma ParseExponentIntText(n: int)
    ensures ParseExponent("E" + IntText(n)) == Some(n)
  {
    var s := "E" + IntText(n);
    var t := s[1..];
    assert t == IntText(n);
    var digits := NatToDigits(if n < 0 then -n else n);
    if n < 0 {
      assert t[1..] == digits;
    }
    DigitRunStopsAt(digits, "");
    assert digits + "" == digits;
    assert digits[|digits|..] == "";
    assert digits[..|digits|] == digits;
  }

  /** The integer part of `a + rest` is `a` when `a` is digits and `rest` does not start with one. */
  lemma ParseUnsignedSplit(a: string, rest: string)
    requires AllDigits(a)
    requires |rest| == 0 || !IsDigit(rest[0])
    ensures ParseUnsignedDecimal(a + rest) == ParseAfterIntegerPart(a, rest)
  {
    var s := a + rest;
    DigitRunStopsAt(a, rest);
    assert s[..|a|] == a && s[|a|..] == rest;
  }

  /** A point followed only by digits `f` is a fraction with no exponent. */
  lemma ParseFractionOnly(a: string, f: string)
    requires AllDigits(a) && AllDigits(f)
    ensures ParseAfterIntegerPart(a, "." + f) == ParseMantissaExponent(a, f, "")
  {
    var rest := "." + f;
    assert rest[1..] == f;
    DigitRunStopsAt(f, "");
    assert f + "" == f;
    assert f[..|f|] == f && f[|f|..] == "";
  }

  /** Digits followed by a tail that starts with neither a digit nor a point: the tail is the exponent. */
  lemma ParseUnsignedDigitsThen(digits: string, tail: string, e: int)
    requires |digits| > 0 && AllDigits(digits)
    requires |tail| == 0 || (!IsDigit(tail[0]) && tail[0] != '.')
    requires ParseExponent(tail) == Some(e)
    ensures ParseUnsignedDecimal(digits + tail) == Some(Decimal(DigitsValue(digits), e))
  {
    ParseUnsignedSplit(digits, tail);
    assert digits + "" == digits;
  }

  /** `a.f` with `a` non-empty digits and `f` digits reads as the digits of `af` shifted by `|f|` places. */
  lemma ParseUnsignedPointed(a: string, f: string)
    requires |a| > 0 && AllDigits(a) && AllDigits(f)
    ensures AllDigits(a + f)
    ensures ParseUnsignedDecimal(a + "." + f) == Some(Decimal(DigitsValue(a + f), -|f|))
  {
    assert a + "." + f == a + ("." + f);
    ParseUnsignedSplit(a, "." + f);
    ParseFractionOnly(a, f);
    ParseMantissaNoExponent(a, f);
  }

  /** Digits with nothing after them have exponent zero. */
  lemma ParseMantissaNoExponent(a: string, f: string)
    requires |a| > 0 && AllDigits(a) && AllDigits(f)
    ensures AllDigits(a + f)
    ensures ParseMantissaExponent(a, f, "") == Some(Decimal(DigitsValue(a + f), -|f|))
  {
    assert ParseExponent("") == Some(0);
  }

  /** A text that starts with a digit is parsed as an unsigned decimal. */
  lemma ParseSignedDigitFirst(t: string)
    requires |t| > 0 && IsDigit(t[0])
    ensures ParseSignedNumber(t) == (match ParseUnsignedDecimal(t) case None => None case Some(d) => Some(Finite(d)))
  {
    assert t != "NaN" && t != "Infinity";
  }

  /** A `-` followed by a digit negates the unsigned decimal after it. */
  lemma ParseSignedMinus(body: string, u: Decimal)
    requires |body| > 0 && IsDigit(body[0])
    requires ParseUnsignedDecimal(body) == Some(u)
    ensures ParseSignedNumber("-" + body) == Some(Finite(Decimal(-u.mantissa, u.exponent)))
  {
    assert ("-" + body)[1..] == body;
    assert body != "NaN" && body != "Infinity";
  }

  /** The unsigned part of scientific notation. */
  lemma ParseUnsignedScientific(n: nat, e: int)
    ensures ParseUnsignedDecimal(NatToDigits(n) + ("E" + IntText(e))) == Some(Decimal(n, e))
  {
    ParseExponentIntText(e);
    ParseUnsignedDigitsThen(NatToDigits(n), "E" + IntText(e), e);
  }

  /** Scientific notation has no surrounding blanks. */
  lemma ScientificTextTrimmed(d: Decimal)
    ensures Trim(ScientificText(d)) == ScientificText(d)
  {
    var s := ScientificText(d);
    assert !IsBlank(s[0]) && !IsBlank(s[|s| - 1]);
  }

  /** The digits and exponent of scientific notation, without the sign. */
  function ScientificBody(d: Decimal): string {
    NatToDigits(if d.mantissa < 0 then -d.mantissa else d.mantissa) + ("E" + IntText(d.exponent))
  }

  /** Scientific notation is the sign, if negative, then the body. */
  lemma ScientificTextShape(d: Decimal)
    ensures ScientificText(d) == (if d.mantissa < 0 then "-" else "") + ScientificBody(d)
  {
    if d.mantissa < 0 {
      assert IntText(d.mantissa) == "-" + NatToDigits(-d.mantissa);
    }
  }

  /** The sign and the body together give back the decimal. */
  lemma ParseSignedScientific(d: Decimal)
    ensures ParseSignedNumber((if d.mantissa < 0 then "-" else "") + ScientificBody(d)) == Some(Finite(d))
  {
    if d.mantissa < 0 {
      ParseScientificNegative(d);
    } else {
      assert "" + ScientificBody(d) == ScientificBody(d);
      ParseScientificNonNegative(d);
    }
  }

  lemma ParseScientificNegative(d: Decimal)
    requires d.mantissa < 0
    ensures ParseSignedNumber("-" + ScientificBody(d)) == Some(Finite(d))
  {
    var m: nat := -d.mantissa;
    var body := ScientificBody(d);
    assert body == NatToDigits(m) + ("E" + IntText(d.exponent));
    assert body[0] == NatToDigits(m)[0];
    ParseUnsignedScientific(m, d.exponent);
    var u := Decimal(m, d.exponent);
    ParseSignedMinus(body, u);
    var negated := Decimal(-u.mantissa, u.exponent);
    assert negated == d;
    assert ParseSignedNumber("-" + body) == Some(Finite(negated));
  }

  lemma ParseScientificNonNegative(d: Decimal)
    requires d.mantissa >= 0
    ensures ParseSignedNumber(ScientificBody(d)) == Some(Finite(d))
  {
    ParseUnsignedScientific(d.mantissa, d.exponent);
    ParseSignedDigitFirst(ScientificBody(d));
  }

  /** `toDouble` reads back exactly the decimal that `ScientificText` printed. */
  lemma ParseDoubleScientific(d: Decimal)
    ensures ParseDouble(ScientificText(d)) == Some(Finite(d))
  {
    ScientificTextTrimmed(d);
    ScientificTextShape(d);
    ParseSignedScientific(d);
  }

  /** A version-style number `a.f` (`a` non-empty digits, `f` digits) parses to `af * 10^-|f|`. */
  lemma ParseDoublePointed(a: string, f: string)
    requires |a| > 0 && AllDigits(a) && AllDigits(f)
    ensures AllDigits(a + f)
    ensures ParseDouble(a + "." + f) == Some(Finite(Decimal(DigitsValue(a + f), -|f|)))
  {
    var s := a + "." + f;
    assert !IsBlank(s[0]) && !IsBlank(s[|s| - 1]);
    assert Trim(s) == s;
    ParseUnsignedPointed(a, f);
    ParseSignedDigitFirst(s);
  }

  /** A number without a point parses to its digits' value. */
  lemma ParseDoubleWhole(a: string)
    requires |a| > 0 && AllDigits(a)
    ensures ParseDouble(a) == Some(Finite(Decimal(DigitsValue(a), 0)))
  {
    assert !IsBlank(a[0]) && !IsBlank(a[|a| - 1]);
    assert Trim(a) == a;
    assert a + "" == a;
    ParseUnsignedDigitsThen(a, "", 0);
    ParseSignedDigitFirst(a);
  }
}
