/**
 * The number/text conversions the app uses from the JVM libraries:
 * `String.format("%.2f", x)`, `Long.toDouble().toString()` and Kotlin's
 * `String.toFloatOrNull()`. Floating-point values are modelled as exact
 * decimal `real`s (the value the producer wrote), so binary rounding is not
 * part of the model; the decimal separator is always '.'.
 */
module Numbers {
  import opened Text

  // ---------------------------------------------------------------------------
  // Digits

  predicate IsDigit(c: char) { '0' <= c <= '9' }

  predicate AllDigits(s: string)
  {
    forall i :: 0 <= i < |s| ==> IsDigit(s[i])
  }

  function DigitChar(d: nat): (c: char)
    requires d < 10
    ensures IsDigit(c) && c as int - '0' as int == d
  {
    ('0' as int + d) as char
  }

  function DigitValue(c: char): (d: nat)
    requires IsDigit(c)
    ensures d < 10 && DigitChar(d) == c
  {
    c as int - '0' as int
  }

  /** The decimal digits of `n`, most significant first, with no leading zero. */
  function NatToString(n: nat): (s: string)
    ensures s != [] && AllDigits(s)
    ensures |s| > 1 ==> s[0] != '0'
  {
    if n < 10 then [DigitChar(n)] else NatToString(n / 10) + [DigitChar(n % 10)]
  }

  /** The number a string of decimal digits denotes (0 for the empty string). */
  function DigitsValue(s: string): nat
    requires AllDigits(s)
  {
    if s == [] then 0 else DigitsValue(s[..|s| - 1]) * 10 + DigitValue(s[|s| - 1])
  }

  /** Reading back the digits of `n` gives `n`. */
  lemma {:induction false} NatToStringValue(n: nat)
    ensures DigitsValue(NatToString(n)) == n
  {
    if n >= 10 {
      NatToStringValue(n / 10);
      var s := NatToString(n);
      assert s[..|s| - 1] == NatToString(n / 10);
    }
  }

  // ---------------------------------------------------------------------------
  // String.format("%.2f", x)

  function Abs(d: real): (a: real)
    ensures a >= 0.0 && (a == d || a == -d)
  {
    if d < 0.0 then -d else d
  }

  /** The magnitude of `d` in hundredths, rounded half up, as `%.2f` rounds. */
  function Hundredths(d: real): (q: nat)
    ensures q as real <= Abs(d) * 100.0 + 0.5 < q as real + 1.0
  {
    (Abs(d) * 100.0 + 0.5).Floor
  }

  /** The value `%.2f` displays for `d`: `d` rounded half up to two decimals. */
  function Round2(d: real): (r: real)
    ensures -0.005 <= r - d <= 0.005
    ensures (r == 0.0) || (r < 0.0 <==> d < 0.0)
  {
    SignedHundredths(d < 0.0, Hundredths(d))
  }

  /** `q` hundredths, negated when `neg`. */
  function SignedHundredths(neg: bool, q: nat): real
  {
    if neg then -(q as real / 100.0) else q as real / 100.0
  }

  /** Optional '-', one or more digits, '.', exactly two digits. */
  predicate IsTwoDecimal(s: string)
  {
    && |s| >= 4
    && s[|s| - 3] == '.' && IsDigit(s[|s| - 2]) && IsDigit(s[|s| - 1])
    && var whole := if s[0] == '-' then s[1..|s| - 3] else s[..|s| - 3];
       whole != [] && AllDigits(whole)
  }

  /** The unsigned part of `%.2f` output for `q` hundredths: whole part, '.', two digits. */
  function Fixed2Body(q: nat): string
  {
    NatToString(q / 100) + "." + [DigitChar(q / 10 % 10), DigitChar(q % 10)]
  }

  /** `String.format("%.2f", d)`: sign, whole part, '.', two rounded decimals. */
  function Fixed2(d: real): (s: string)
    ensures IsTwoDecimal(s)
    ensures s[0] == '-' <==> d < 0.0
  {
    Fixed2Text(d < 0.0, Hundredths(d))
  }

  /** `q` hundredths written with two decimals, after a '-' when `neg`. */
  function Fixed2Text(neg: bool, q: nat): (s: string)
    ensures IsTwoDecimal(s)
    ensures s[0] == '-' <==> neg
  {
    var body := Fixed2Body(q);
    var s := if neg then "-" + body else body;
    assert (if neg then s[1..|s| - 3] else s[..|s| - 3]) == NatToString(q / 100);
    s
  }

  // ---------------------------------------------------------------------------
  // Float.toInt() / Double.toLong()

  /** Conversion of a floating value to an integer: the fraction is dropped, toward zero. */
  function Truncate(d: real): (n: int)
    ensures d >= 0.0 ==> 0 <= n && n as real <= d < n as real + 1.0
    ensures d < 0.0 ==> n <= 0 && n as real - 1.0 < d <= n as real
  {
    if d >= 0.0 then d.Floor else -((-d).Floor)
  }

  // ---------------------------------------------------------------------------
  // Long.toDouble().toString()

  function StripTrailingZeros(s: string): (r: string)
    ensures r <= s && (r != [] ==> r[|r| - 1] != '0')
  {
    if s != [] && s[|s| - 1] == '0' then StripTrailingZeros(s[..|s| - 1]) else s
  }

  /**
   * `Double.toString` of a whole number `m >= 0`: below 10^7 the plain form
   * "m.0"; from 10^7 on the computerized scientific form.
   */
  function WholeDoubleString(m: nat): string
  {
    if m < 10000000 then PlainDoubleString(m) else ScientificDoubleString(m)
  }

  function PlainDoubleString(m: nat): string
  {
    NatToString(m) + ".0"
  }

  /** "d.dddE<k>": the fraction's trailing zeros dropped, but at least one digit kept. */
  function ScientificDoubleString(m: nat): string
  {
    var ds := NatToString(m);
    var frac := StripTrailingZeros(ds[1..]);
    [ds[0]] + "." + (if frac == [] then "0" else frac) + "E" + NatToString(|ds| - 1)
  }

  /** `n.toDouble().toString()` for a `Long` `n`. */
  function LongToDoubleString(n: int): (s: string)
    ensures s != [] && (s[0] == '-' <==> n < 0)
  {
    if n < 0 then "-" + WholeDoubleString(-n) else WholeDoubleString(n)
  }

  // ---------------------------------------------------------------------------
  // String.toFloatOrNull()

  /** Position of the first character of `s` in `cs`, or `|s|` when there is none. */
  function IndexOfAny(s: string, cs: set<char>): (k: nat)
    ensures k <= |s|
  {
    if s == [] then 0 else if s[0] in cs then 0 else 1 + IndexOfAny(s[1..], cs)
  }

  /** Drops the characters U+0000..U+0020 at both ends, as the float grammar allows. */
  function StripControl(s: string): (r: string)
    ensures |r| <= |s|
    ensures s != [] && s[0] > ' ' && s[|s| - 1] > ' ' ==> r == s
  {
    if s != [] && s[0] <= ' ' then StripControl(s[1..])
    else if s != [] && s[|s| - 1] <= ' ' then StripControl(s[..|s| - 1])
    else s
  }

  /** `whole` followed by the `k` fraction digits whose value is `frac`. */
  function Decimal(whole: nat, frac: nat, k: nat): real
  {
    whole as real + ScaleByPowerOfTen(frac as real, -(k as int))
  }

  /** `digits? ('.' digits?)?` with at least one digit: the unsigned mantissa. */
  function ParseMantissa(m: string): (r: Option<real>)
    ensures r.Some? ==> r.value >= 0.0
    ensures m == [] ==> r == None
  {
    var k := IndexOfAny(m, {'.'});
    var whole := m[..k];
    var frac := if k < |m| then m[k + 1..] else [];
    if AllDigits(whole) && AllDigits(frac) && (whole != [] || frac != []) then
      Some(Decimal(DigitsValue(whole), DigitsValue(frac), |frac|))
    else None
  }

  /** `[+-]? digits`: the decimal exponent. */
  function ParseExponent(e: string): Option<int>
  {
    var neg := e != [] && e[0] == '-';
    var ds := if e != [] && (e[0] == '-' || e[0] == '+') then e[1..] else e;
    if ds != [] && AllDigits(ds) then
      var v: int := DigitsValue(ds);
      Some(if neg then -v else v)
    else None
  }

  /** `v` times ten to the power `x`. */
  function ScaleByPowerOfTen(v: real, x: int): (r: real)
    ensures v >= 0.0 ==> r >= 0.0
    decreases if x >= 0 then x else -x
  {
    if x == 0 then v
    else if x > 0 then ScaleByPowerOfTen(v, x - 1) * 10.0
    else ScaleByPowerOfTen(v, x + 1) / 10.0
  }

  /** An unsigned mantissa with an optional `e`/`E` exponent. */
  function ParseUnsigned(u: string): (r: Option<real>)
    ensures r.Some? ==> r.value >= 0.0
    ensures u == [] ==> r == None
  {
    var k := IndexOfAny(u, {'e', 'E'});
    if k == |u| then ParseMantissa(u)
    else
      match (ParseMantissa(u[..k]), ParseExponent(u[k + 1..]))
      case (Some(v), Some(x)) =>
        Some(ScaleByPowerOfTen(v, x))
      case _ => None
  }

  /**
   * `s.toFloatOrNull()` over decimal text: surrounding control characters and
   * spaces, an optional sign, a mantissa, an optional exponent and an optional
   * `f`/`F`/`d`/`D` suffix; anything else is `None`.
   */
  function ParseFloat(s: string): (r: Option<real>)
    ensures StripControl(s) == [] ==> r == None
    ensures r.Some? && IsNegative(StripControl(s)) ==> r.value <= 0.0
    ensures r.Some? && !IsNegative(StripControl(s)) ==> r.value >= 0.0
  {
    var t := StripControl(s);
    Signed(IsNegative(t), ParseUnsigned(Core(t)))
  }

  /** Stripped text that starts with '-'. */
  predicate IsNegative(t: string)
  {
    t != [] && t[0] == '-'
  }

  /** Stripped text without its sign and its `f`/`F`/`d`/`D` suffix. */
  function Core(t: string): string
  {
    var body := if t != [] && (t[0] == '-' || t[0] == '+') then t[1..] else t;
    if body != [] && body[|body| - 1] in {'f', 'F', 'd', 'D'} then body[..|body| - 1] else body
  }

  function Signed(neg: bool, o: Option<real>): Option<real>
  {
    match o
    case None => None
    case Some(v) => Some(if neg then -v else v)
  }

  /** `toFloatOrNull() ?: 0f`: unparseable text counts as zero. */
  function ParseFloatOrZero(s: string): (r: real)
    ensures ParseFloat(s) == None ==> r == 0.0
    ensures r != 0.0 ==> ParseFloat(s) == Some(r)
    ensures StripControl(s) == [] ==> r == 0.0
    ensures r < 0.0 ==> IsNegative(StripControl(s))
  {
    match ParseFloat(s)
    case Some(v) => v
    case None => 0.0
  }

  // ---------------------------------------------------------------------------
  // Round trips

  /** The first position holding one of `cs` is the index `IndexOfAny` reports. */
  lemma {:induction false} IndexOfAnyIs(s: string, cs: set<char>, k: nat)
    requires k <= |s| && (k < |s| ==> s[k] in cs)
    requires forall j :: 0 <= j < k ==> s[j] !in cs
    ensures IndexOfAny(s, cs) == k
    decreases k
  {
    if k > 0 {
      assert s[0] !in cs;
      IndexOfAnyIs(s[1..], cs, k - 1);
    }
  }

  /** Text with no exponent marker is read as a bare mantissa. */
  lemma NoExponent(u: string)
    requires forall j :: 0 <= j < |u| ==> u[j] != 'e' && u[j] != 'E'
    ensures ParseUnsigned(u) == ParseMantissa(u)
  {
    IndexOfAnyIs(u, {'e', 'E'}, |u|);
  }

  /** Whole digits, '.', and fraction digits read back as whole + fraction / 10^|fraction|. */
  lemma MantissaOfDigits(whole: string, frac: string)
    requires AllDigits(whole) && AllDigits(frac)
    ensures ParseMantissa(whole + "." + frac)
            == if whole != [] || frac != [] then
                 Some(Decimal(DigitsValue(whole), DigitsValue(frac), |frac|))
               else None
  {
    var m := whole + "." + frac;
    forall j | 0 <= j < |whole| ensures m[j] !in {'.'} {
      assert m[j] == whole[j];
    }
    IndexOfAnyIs(m, {'.'}, |whole|);
    assert m[..|whole|] == whole;
    assert m[|whole| + 1..] == frac;
  }

  /** Whole digits, '.', and fraction digits read back as whole + fraction / 10^|fraction|. */
  lemma DecimalOfDigits(whole: string, frac: string)
    requires AllDigits(whole) && AllDigits(frac) && whole != []
    ensures ParseUnsigned(whole + "." + frac)
            == Some(Decimal(DigitsValue(whole), DigitsValue(frac), |frac|))
  {
    var m := whole + "." + frac;
    forall j | 0 <= j < |m| ensures m[j] != 'e' && m[j] != 'E' {
      if j < |whole| { assert m[j] == whole[j]; }
      else if j > |whole| { assert m[j] == frac[j - |whole| - 1]; }
    }
    NoExponent(m);
    MantissaOfDigits(whole, frac);
  }

  /** Text that starts and ends with a digit has no control characters, sign or suffix to strip. */
  lemma PlainCore(body: string)
    requires body != [] && IsDigit(body[0]) && IsDigit(body[|body| - 1])
    ensures StripControl(body) == body && !IsNegative(body) && Core(body) == body
  {
    var last := body[|body| - 1];
    assert last != 'f' && last != 'F' && last != 'd' && last != 'D';
  }

  /** A '-' before digit-delimited text is the sign, and the text after it is the core. */
  lemma NegatedCore(body: string)
    requires body != [] && IsDigit(body[0]) && IsDigit(body[|body| - 1])
    ensures var s := "-" + body; StripControl(s) == s && IsNegative(s) && Core(s) == body
  {
    var s := "-" + body;
    assert s[|s| - 1] == body[|body| - 1];
    assert s[1..] == body;
    var last := body[|body| - 1];
    assert last != 'f' && last != 'F' && last != 'd' && last != 'D';
  }

  /** Quotient and remainder by ten are determined by any decomposition `10 * x + y` with `y` a digit. */
  lemma DivTen(n: int, x: int, y: int)
    requires n == 10 * x + y && 0 <= y < 10
    ensures n / 10 == x && n % 10 == y
  {
  }

  lemma TwoDigits(q: nat)
    ensures (q / 10 % 10) * 10 + q % 10 == q % 100
  {
    var a, r := q / 100, q % 100;
    var t, u := r / 10, r % 10;
    DivTen(r, t, u);
    DivTen(q, 10 * a + t, u);
    DivTen(10 * a + t, a, t);
  }

  lemma TwoDigitValue(q: nat)
    ensures DigitsValue([DigitChar(q / 10 % 10), DigitChar(q % 10)]) == q % 100
  {
    var frac := [DigitChar(q / 10 % 10), DigitChar(q % 10)];
    var hi := [DigitChar(q / 10 % 10)];
    assert frac[..1] == hi && hi[..0] == [];
    assert DigitsValue(hi) == q / 10 % 10;
    assert DigitsValue(frac) == DigitsValue(hi) * 10 + DigitValue(frac[1]);
    TwoDigits(q);
  }

  lemma HundredthsValue(q: nat)
    ensures Decimal(q / 100, q % 100, 2) == q as real / 100.0
  {
    var a, r := q / 100, q % 100;
    assert ScaleByPowerOfTen(r as real, -2) == r as real / 100.0;
    assert q == 100 * a + r;
    assert q as real == 100.0 * (a as real) + r as real;
  }

  lemma Fixed2BodyValue(q: nat)
    ensures var b := Fixed2Body(q); b != [] && IsDigit(b[0]) && IsDigit(b[|b| - 1])
    ensures ParseUnsigned(Fixed2Body(q)) == Some(q as real / 100.0)
  {
    var whole := NatToString(q / 100);
    var frac := [DigitChar(q / 10 % 10), DigitChar(q % 10)];
    var body := whole + "." + frac;
    assert Fixed2Body(q) == body;
    assert body[0] == whole[0] && body[|body| - 1] == frac[1];
    DecimalOfDigits(whole, frac);
    NatToStringValue(q / 100);
    TwoDigitValue(q);
    HundredthsValue(q);
  }

  /** The digits of `q` hundredths read back as `q / 100`. */
  lemma PlainFixed2Value(q: nat)
    ensures ParseFloat(Fixed2Body(q)) == Some(q as real / 100.0)
  {
    Fixed2BodyValue(q);
    PlainCore(Fixed2Body(q));
  }

  /** '-' before the digits of `q` hundredths reads back as `-(q / 100)`. */
  lemma NegatedFixed2Value(q: nat)
    ensures ParseFloat("-" + Fixed2Body(q)) == Some(-(q as real / 100.0))
  {
    Fixed2BodyValue(q);
    var body := Fixed2Body(q);
    NegatedCore(body);
    assert Core("-" + body) == body;
  }

  /** Two-decimal text reads back as the signed number of hundredths it was written from. */
  lemma Fixed2TextValue(neg: bool, q: nat)
    ensures ParseFloat(Fixed2Text(neg, q)) == Some(SignedHundredths(neg, q))
  {
    if neg {
      NegatedFixed2Value(q);
    } else {
      PlainFixed2Value(q);
    }
  }

  /** What `%.2f` prints reads back, through `toFloatOrNull`, as the rounded value. */
  lemma Fixed2ParsesBack(d: real)
    ensures ParseFloat(Fixed2(d)) == Some(Round2(d))
  {
    Fixed2TextValue(d < 0.0, Hundredths(d));
  }

  lemma PlainDoubleStringValue(m: nat)
    ensures var b := PlainDoubleString(m); b != [] && IsDigit(b[0]) && IsDigit(b[|b| - 1])
    ensures ParseUnsigned(PlainDoubleString(m)) == Some(m as real)
  {
    var whole := NatToString(m);
    var zero := "0";
    assert PlainDoubleString(m) == whole + "." + zero;
    DecimalOfDigits(whole, zero);
    NatToStringValue(m);
    assert DigitsValue(zero) == 0 by {
      assert zero[..0] == [];
      assert DigitsValue(zero) == DigitsValue([]) * 10 + DigitValue('0');
    }
    assert ScaleByPowerOfTen(0.0, -1) == 0.0;
    assert Decimal(m, 0, 1) == m as real;
  }

  lemma NegativeLongText(n: int, m: nat)
    requires -10000000 < n < 0 && m == -n
    ensures LongToDoubleString(n) == "-" + PlainDoubleString(m)
  {
  }

  /** "-m.0" reads back as -m. */
  lemma NegatedPlainValue(m: nat)
    ensures ParseFloat("-" + PlainDoubleString(m)) == Some(-(m as real))
  {
    PlainDoubleStringValue(m);
    NegatedCore(PlainDoubleString(m));
  }

  lemma NegativeLongParsesBack(n: int)
    requires -10000000 < n < 0
    ensures ParseFloat(LongToDoubleString(n)) == Some(n as real)
  {
    var m: nat := -n;
    NegativeLongText(n, m);
    NegatedPlainValue(m);
  }

  lemma NonNegativeLongParsesBack(n: int)
    requires 0 <= n < 10000000
    ensures ParseFloat(LongToDoubleString(n)) == Some(n as real)
  {
    var b := PlainDoubleString(n);
    PlainDoubleStringValue(n);
    PlainCore(b);
    assert LongToDoubleString(n) == b;
  }

  /** For the magnitudes written in plain form, `Long.toDouble().toString()` reads back as the same number. */
  lemma LongToDoubleStringParsesBack(n: int)
    requires -10000000 < n < 10000000
    ensures ParseFloat(LongToDoubleString(n)) == Some(n as real)
  {
    if n < 0 {
      NegativeLongParsesBack(n);
    } else {
      NonNegativeLongParsesBack(n);
    }
  }
}
