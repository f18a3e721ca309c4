/** What exact decimals denote, and how far their comparison agrees with the rational order. */
module DecimalOrder {
  import opened Decimal
  import opened ExactDecimals
  import Lex

  // ---------------------------------------------------------------- products

  // Products are named so that proofs can use their laws without multiplying terms out.

  function Times(x: real, y: real): real {
    x * y
  }

  function TimesNat(x: nat, y: nat): nat {
    x * y
  }

  lemma TimesOrder(x: real, y: real, z: real)
    requires z > 0.0
    ensures x < y <==> Times(x, z) < Times(y, z)
    ensures x == y <==> Times(x, z) == Times(y, z)
    ensures Times(0.0, z) == 0.0
  {
    if x < y { assert (y - x) * z > 0.0; }
    if x > y { assert (x - y) * z > 0.0; }
  }

  lemma TimesLaws(x: real, y: real, z: real)
    ensures Times(x, y) == Times(y, x)
    ensures Times(x, 10.0 * y) == 10.0 * Times(x, y) == Times(10.0 * x, y)
    ensures Times(Times(x, y), z) == Times(x, Times(z, y))
    ensures Times(1.0, y) == y == Times(y, 1.0)
    ensures Times(x + z, y) == Times(x, y) + Times(z, y)
    ensures Times(-x, y) == -Times(x, y)
  {
  }

  lemma TimesNatLaws(x: nat, y: nat, z: nat)
    ensures TimesNat(x, 10 * y) == 10 * TimesNat(x, y)
    ensures TimesNat(1, y) == y == TimesNat(y, 1) && TimesNat(0, y) == 0
    ensures TimesNat(x, y) as real == Times(x as real, y as real)
    ensures x >= 1 ==> TimesNat(x, y) >= y
    ensures x <= z ==> TimesNat(z, y) == TimesNat(x, y) + TimesNat(z - x, y)
  {
    if x >= 1 { assert (x - 1) * y >= 0; }
  }

  // ---------------------------------------------------------------- powers of ten

  function Ten(n: nat): (r: real)
    ensures r >= 1.0
  {
    if n == 0 then 1.0 else 10.0 * Ten(n - 1)
  }

  function Pow10(k: int): (r: real)
    ensures r > 0.0
  {
    if k >= 0 then Ten(k) else 1.0 / Ten(-k)
  }

  lemma Pow10Step(k: int)
    ensures Pow10(k + 1) == 10.0 * Pow10(k)
  {
    if k < -1 {
      assert Ten(-k) == 10.0 * Ten(-k - 1);
      Cancel(10.0, Ten(-k - 1));
    }
  }

  lemma Cancel(a: real, b: real)
    requires a > 0.0 && b > 0.0
    ensures a * (1.0 / (a * b)) == 1.0 / b
  {
    assert (a * (1.0 / (a * b))) * b == (a * b) * (1.0 / (a * b)) == 1.0;
  }

  lemma {:induction false} Pow10Add(a: int, b: nat)
    ensures Pow10(a + b) == Times(Pow10(a), Pow10(b))
    decreases b
  {
    assert Pow10(0) == 1.0;
    hide *;
    if b > 0 {
      Pow10Add(a, b - 1);
      Pow10Step(a + b - 1);
      Pow10Step(b - 1);
      TimesLaws(Pow10(a), Pow10(b - 1), 0.0);
    } else {
      TimesLaws(0.0, Pow10(a), 0.0);
    }
  }

  lemma Pow10Mono(a: int, b: int)
    requires a <= b
    ensures Pow10(a) <= Pow10(b)
    decreases b - a
  {
    hide *;
    if a < b {
      Pow10Step(a);
      Pow10Mono(a + 1, b);
    }
  }

  // ---------------------------------------------------------------- digit strings

  function TenNat(n: nat): (r: nat)
    ensures r >= 1
  {
    if n == 0 then 1 else 10 * TenNat(n - 1)
  }

  lemma {:induction false} TenIsWhole(n: nat)
    ensures Ten(n) == TenNat(n) as real
  {
    if n > 0 { TenIsWhole(n - 1); }
  }

  lemma WholePow10(n: nat)
    ensures Pow10(n) == TenNat(n) as real
  {
    TenIsWhole(n);
  }

  lemma {:induction false} ConcatValue(a: string, b: string)
    requires AllDigits(a) && AllDigits(b)
    ensures AllDigits(a + b) && ValueOf(a + b) == TimesNat(ValueOf(a), TenNat(|b|)) + ValueOf(b)
    decreases |b|
  {
    hide TimesNat;
    if b == "" {
      assert a + b == a;
      TimesNatLaws(0, ValueOf(a), 0);
    } else {
      var c := b[..|b| - 1];
      ConcatValue(a, c);
      assert (a + b)[..|a + b| - 1] == a + c;
      TimesNatLaws(ValueOf(a), TenNat(|c|), 0);
    }
  }

  lemma {:induction false} ZerosValue(s: string)
    requires AllDigits(s) && forall i :: 0 <= i < |s| ==> s[i] == '0'
    ensures ValueOf(s) == 0
  {
    if s != "" { ZerosValue(s[..|s| - 1]); }
  }

  lemma {:induction false} ValueBelow(s: string)
    requires AllDigits(s)
    ensures ValueOf(s) < TenNat(|s|)
  {
    if s != "" { ValueBelow(s[..|s| - 1]); }
  }

  lemma ValueHead(s: string)
    requires AllDigits(s) && s != ""
    ensures ValueOf(s) == TimesNat(DigitValue(s[0]), TenNat(|s| - 1)) + ValueOf(s[1..])
  {
    hide TimesNat;
    assert s == [s[0]] + s[1..];
    ConcatValue([s[0]], s[1..]);
    assert [s[0]][..0] == "";
    assert ValueOf([s[0]]) == DigitValue(s[0]);
  }

  /** A number without leading zero has as many digits as its size says. */
  lemma ValueAtLeast(s: string)
    requires AllDigits(s) && s != "" && s[0] != '0'
    ensures TenNat(|s| - 1) <= ValueOf(s)
  {
    hide TimesNat;
    ValueHead(s);
    TimesNatLaws(DigitValue(s[0]), TenNat(|s| - 1), 0);
  }

  lemma HeadDominates(x: nat, r: nat, y: nat, q: nat, t: nat)
    requires r < t && x < y
    ensures TimesNat(x, t) + r < TimesNat(y, t) + q
  {
    hide TimesNat;
    TimesNatLaws(x, t, y);
    TimesNatLaws(y - x, t, 0);
  }

  /** Digit strings of equal length compare as texts exactly as they compare as numbers. */
  lemma {:induction false} TextOrderIsNumeric(a: string, b: string)
    requires AllDigits(a) && AllDigits(b) && |a| == |b|
    ensures Lex.Less(a, b) <==> ValueOf(a) < ValueOf(b)
    ensures a == b <==> ValueOf(a) == ValueOf(b)
  {
    hide TimesNat;
    if a != "" {
      ValueHead(a);
      ValueHead(b);
      ValueBelow(a[1..]);
      ValueBelow(b[1..]);
      TextOrderIsNumeric(a[1..], b[1..]);
      assert a == [a[0]] + a[1..] && b == [b[0]] + b[1..];
      var t := TenNat(|a| - 1);
      if a[0] < b[0] {
        HeadDominates(DigitValue(a[0]), ValueOf(a[1..]), DigitValue(b[0]), ValueOf(b[1..]), t);
      } else if b[0] < a[0] {
        HeadDominates(DigitValue(b[0]), ValueOf(b[1..]), DigitValue(a[0]), ValueOf(a[1..]), t);
      }
    }
  }

  lemma {:induction false} StripLeadingKeepsValue(s: string)
    requires AllDigits(s)
    ensures ValueOf(StripLeading(s)) == ValueOf(s)
  {
    hide TimesNat;
    if s != "" && s[0] == '0' {
      ValueHead(s);
      TimesNatLaws(0, TenNat(|s| - 1), 0);
      StripLeadingKeepsValue(s[1..]);
    }
  }

  function Number(s: string): real
    requires AllDigits(s)
  {
    ValueOf(s) as real
  }

  lemma {:induction false} StripTrailingKeepsValue(digits: string, scale: int)
    requires AllDigits(digits)
    ensures var r := StripTrailing(digits, scale);
      Times(Number(r.0), Pow10(-r.1)) == Times(Number(digits), Pow10(-scale))
    decreases |digits|
  {
    hide Times, Pow10;
    if |digits| > 1 && digits[|digits| - 1] == '0' {
      var shorter := digits[..|digits| - 1];
      StripTrailingKeepsValue(shorter, scale - 1);
      Pow10Step(-scale);
      assert ValueOf(digits) == 10 * ValueOf(shorter);
      TimesLaws(Number(shorter), Pow10(-scale), 0.0);
    }
  }

  // ---------------------------------------------------------------- values

  /** The rational value of a parsed decimal. */
  function Denotes(d: ExactDecimal): real
    requires AllDigits(d.digits)
  {
    Times(if d.negative then -Number(d.digits) else Number(d.digits), Pow10(-d.scale))
  }

  /** The form `parse_exact_decimal` leaves every valid result in. */
  ghost predicate Canonical(d: ExactDecimal) {
    && AllDigits(d.digits) && d.digits != ""
    && (d.digits[0] == '0' ==> d == ExactDecimal(false, "0", 0, true))
    && (|d.digits| > 1 ==> d.digits[|d.digits| - 1] != '0')
  }

  lemma {:induction false} StripTrailingEnds(digits: string, scale: int)
    ensures var r := StripTrailing(digits, scale); |r.0| > 1 ==> r.0[|r.0| - 1] != '0'
    decreases |digits|
  {
    if |digits| > 1 && digits[|digits| - 1] == '0' {
      StripTrailingEnds(digits[..|digits| - 1], scale - 1);
    }
  }

  lemma MantissaCanonical(negative: bool, mantissa: string, exponent: int)
    ensures ParseMantissa(negative, mantissa, exponent).valid ==> Canonical(ParseMantissa(negative, mantissa, exponent))
  {
    if MantissaChars(mantissa) {
      var point := PointAt(mantissa);
      var fraction := if point == |mantissa| then 0 else |mantissa| - point - 1;
      StripTrailingEnds(StripLeading(WithoutPoints(mantissa)), fraction - exponent);
    }
  }

  /** Every valid result is canonical, whatever the text was. */
  lemma ParseCanonical(value: string)
    ensures Parse(value).valid ==> Canonical(Parse(value))
  {
    if value != "" {
      var body := if value[0] == '+' || value[0] == '-' then value[1..] else value;
      var marker := MarkerAt(body);
      if marker == |body| {
        MantissaCanonical(value[0] == '-', body, 0);
      } else {
        var e := Stoi(body[marker + 1..]);
        if e.Some? { MantissaCanonical(value[0] == '-', body[..marker], e.value); }
      }
    }
  }

  // ---------------------------------------------------------------- comparison

  function Sign(x: real): int {
    if x < 0.0 then -1 else if x > 0.0 then 1 else 0
  }

  function Size(d: ExactDecimal): real
    requires AllDigits(d.digits)
  {
    Times(Number(d.digits), Pow10(-d.scale))
  }

  /** A non-zero decimal of magnitude m lies in [10^(m-1), 10^m). */
  lemma SizeOfMagnitude(d: ExactDecimal)
    requires Canonical(d)
    ensures Size(d) < Pow10(Magnitude(d))
    ensures d.digits[0] != '0' ==> Pow10(Magnitude(d) - 1) <= Size(d)
    ensures d.digits[0] == '0' <==> Size(d) == 0.0
  {
    hide Pow10, Times;
    var n, p := |d.digits|, Pow10(-d.scale);
    ValueBelow(d.digits);
    WholePow10(n);
    Pow10Add(-d.scale, n);
    TimesLaws(p, Pow10(n), 0.0);
    TimesOrder(Number(d.digits), Pow10(n), p);
    assert Magnitude(d) == -d.scale + n && Magnitude(d) - 1 == -d.scale + (n - 1);
    if d.digits[0] != '0' {
      ValueAtLeast(d.digits);
      WholePow10(n - 1);
      Pow10Add(-d.scale, n - 1);
      TimesLaws(p, Pow10(n - 1), 0.0);
      TimesOrder(Pow10(n - 1), Number(d.digits), p);
      TimesOrder(0.0, Number(d.digits), p);
    } else {
      assert ValueOf("0") == 0 by { assert "0"[..0] == ""; }
    }
  }

  lemma PadScales(d: ExactDecimal, width: nat)
    requires AllDigits(d.digits) && |d.digits| <= width
    ensures Times(Number(Pad(d.digits, width)), Pow10(Magnitude(d) - width)) == Size(d)
  {
    hide Pow10, Times, TimesNat;
    var zeros := seq(width - |d.digits|, i => '0');
    ConcatValue(d.digits, zeros);
    ZerosValue(zeros);
    WholePow10(|zeros|);
    Pow10Add(Magnitude(d) - width, |zeros|);
    assert Magnitude(d) - width + |zeros| == -d.scale;
    TimesNatLaws(ValueOf(d.digits), TenNat(|zeros|), 0);
    assert Number(Pad(d.digits, width)) == Times(Number(d.digits), Pow10(|zeros|));
    TimesLaws(Number(d.digits), Pow10(|zeros|), Pow10(Magnitude(d) - width));
  }

  /** Among equal magnitudes the digit texts decide, correctly. */
  lemma EqualMagnitudes(l: ExactDecimal, r: ExactDecimal)
    requires Canonical(l) && Canonical(r) && Magnitude(l) == Magnitude(r)
    ensures CompareMagnitudes(l, r) == Sign(Size(l) - Size(r))
  {
    hide Pow10, Times, ValueOf;
    var width := if |l.digits| < |r.digits| then |r.digits| else |l.digits|;
    var a, b := Pad(l.digits, width), Pad(r.digits, width);
    PadScales(l, width);
    PadScales(r, width);
    TextOrderIsNumeric(a, b);
    TextOrderIsNumeric(b, a);
    TimesOrder(Number(a), Number(b), Pow10(Magnitude(l) - width));
    TimesOrder(Number(b), Number(a), Pow10(Magnitude(l) - width));
  }

  /** One value is zero and the other lies strictly between zero and one. */
  ghost predicate ZeroAgainstFraction(x: real, y: real) {
    (x == 0.0 && 0.0 < y < 1.0) || (y == 0.0 && 0.0 < x < 1.0)
  }

  /** The comparison of sizes: right except for zero against a proper fraction, where it is
      exactly reversed. */
  lemma MagnitudesOrder(l: ExactDecimal, r: ExactDecimal)
    requires Canonical(l) && Canonical(r)
    ensures CompareMagnitudes(l, r)
         == if ZeroAgainstFraction(Size(l), Size(r)) then -Sign(Size(l) - Size(r)) else Sign(Size(l) - Size(r))
  {
    SizeOfMagnitude(l);
    SizeOfMagnitude(r);
    assert Pow10(0) == 1.0;
    if Magnitude(l) == Magnitude(r) {
      EqualMagnitudes(l, r);
      if l.digits[0] == '0' && r.digits[0] != '0' { assert Magnitude(r) == 1; }
      if r.digits[0] == '0' && l.digits[0] != '0' { assert Magnitude(l) == 1; }
    } else if Magnitude(l) < Magnitude(r) {
      Pow10Mono(Magnitude(l), Magnitude(r) - 1);
      if r.digits[0] == '0' { Pow10Mono(Magnitude(l), 0); }
      else if l.digits[0] == '0' { Pow10Mono(0, Magnitude(r) - 1); }
    } else {
      Pow10Mono(Magnitude(r), Magnitude(l) - 1);
      if l.digits[0] == '0' { Pow10Mono(Magnitude(r), 0); }
      else if r.digits[0] == '0' { Pow10Mono(0, Magnitude(l) - 1); }
    }
  }

  lemma ParsedOrder(l: ExactDecimal, r: ExactDecimal)
    requires Canonical(l) && Canonical(r)
    ensures var x, y := Denotes(l), Denotes(r);
      CompareParsed(l, r) == if ZeroAgainstFraction(x, y) then -Sign(x - y) else Sign(x - y)
  {
    hide Pow10, Times, CompareMagnitudes;
    MagnitudesOrder(l, r);
    SizeOfMagnitude(l);
    SizeOfMagnitude(r);
    SignedSize(l);
    SignedSize(r);
  }

  lemma SignedSize(d: ExactDecimal)
    requires Canonical(d)
    ensures Size(d) >= 0.0
    ensures Denotes(d) == if d.negative then -Size(d) else Size(d)
    ensures d.negative ==> Size(d) > 0.0
  {
    hide Pow10, Times;
    SizeOfMagnitude(d);
    TimesLaws(Number(d.digits), Pow10(-d.scale), 0.0);
    TimesOrder(0.0, Number(d.digits), Pow10(-d.scale));
  }

  /** `compare_exact_decimal` on valid literals returns the sign of the difference of their
      values, except exactly for zero against a value strictly between zero and one. */
  lemma CompareIsRationalOrder(left: string, right: string)
    requires Parse(left).valid && Parse(right).valid
    ensures Canonical(Parse(left)) && Canonical(Parse(right))
    ensures
      var x, y := Denotes(Parse(left)), Denotes(Parse(right));
      && Compare(left, right) == (if ZeroAgainstFraction(x, y) then -Sign(x - y) else Sign(x - y))
      && (Compare(left, right) == Sign(x - y) <==> !ZeroAgainstFraction(x, y))
  {
    ParseCanonical(left);
    ParseCanonical(right);
    ParsedOrder(Parse(left), Parse(right));
  }
}
