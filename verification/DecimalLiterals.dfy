/** Decimal literals as the language writes them, the value each one denotes, and the
    coordinate range check built on their comparison. */
module DecimalLiterals {
  import opened Options
  import opened Decimal
  import opened ExactDecimals
  import opened DecimalOrder
  import Lex

  datatype LiteralSign = NoSign | Plus | Minus

  datatype Exponent = Exponent(marker: char, sign: LiteralSign, digits: string)

  /** sign whole [ '.' fraction ] [ marker sign digits ] */
  datatype Literal = Literal(
    sign: LiteralSign, whole: string, point: bool, fraction: string, exponent: Option<Exponent>)

  function SignText(s: LiteralSign): string {
    match s case NoSign => "" case Plus => "+" case Minus => "-"
  }

  function Mantissa(l: Literal): string {
    l.whole + (if l.point then "." + l.fraction else "")
  }

  function ExponentText(e: Option<Exponent>): string {
    match e
    case None => ""
    case Some(e) => [e.marker] + (SignText(e.sign) + e.digits)
  }

  function Text(l: Literal): string {
    SignText(l.sign) + (Mantissa(l) + ExponentText(l.exponent))
  }

  function ExponentValue(e: Option<Exponent>): int
    requires e.Some? ==> AllDigits(e.value.digits)
  {
    match e
    case None => 0
    case Some(e) => var n: int := ValueOf(e.digits); if e.sign.Minus? then -n else n
  }

  /** Digits, at most one point, and an exponent behind e, E or S. */
  ghost predicate Shaped(l: Literal) {
    && AllDigits(l.whole) && AllDigits(l.fraction)
    && (!l.point ==> l.fraction == "")
    && (l.exponent.Some? ==>
          var e := l.exponent.value;
          e.marker in {'e', 'E', 'S'} && e.digits != "" && AllDigits(e.digits))
  }

  /** The exponent is an `int` of 32 bits. */
  ghost predicate WellFormed(l: Literal) {
    Shaped(l) && (l.exponent.Some? ==> -2147483648 <= ExponentValue(l.exponent) <= 2147483647)
  }

  /** (whole + fraction / 10^|fraction|) * 10^exponent, with its sign. */
  function Value(l: Literal): real
    requires WellFormed(l)
  {
    var unsigned := Number(l.whole) + Times(Number(l.fraction), Pow10(-|l.fraction|));
    Times(if l.sign.Minus? then -unsigned else unsigned, Pow10(ExponentValue(l.exponent)))
  }

  // ---------------------------------------------------------------- reading a literal

  lemma {:induction false} MarkerAfter(s: string, rest: string)
    requires forall i :: 0 <= i < |s| ==> !IsMarker(s[i])
    ensures MarkerAt(s + rest) == |s| + MarkerAt(rest)
  {
    if s == "" { assert s + rest == rest; }
    else {
      assert (s + rest)[1..] == s[1..] + rest;
      MarkerAfter(s[1..], rest);
    }
  }

  lemma {:induction false} PointAfter(s: string, rest: string)
    requires forall i :: 0 <= i < |s| ==> s[i] != '.'
    ensures PointAt(s + rest) == |s| + PointAt(rest)
  {
    if s == "" { assert s + rest == rest; }
    else {
      assert (s + rest)[1..] == s[1..] + rest;
      PointAfter(s[1..], rest);
    }
  }

  lemma {:induction false} WithoutPointsAfter(s: string, rest: string)
    requires AllDigits(s)
    ensures WithoutPoints(s + rest) == s + WithoutPoints(rest)
  {
    if s == "" { assert s + rest == rest; }
    else {
      assert (s + rest)[1..] == s[1..] + rest;
      WithoutPointsAfter(s[1..], rest);
    }
  }

  lemma {:induction false} DigitPrefixOfDigits(s: string)
    requires AllDigits(s)
    ensures DigitPrefix(s) == s
  {
    if s != "" { DigitPrefixOfDigits(s[1..]); }
  }

  lemma StoiReads(e: Exponent)
    requires e.digits != "" && AllDigits(e.digits)
    requires -INT_MAX - 1 <= ExponentValue(Some(e)) <= INT_MAX
    ensures Stoi(SignText(e.sign) + e.digits) == Some(ExponentValue(Some(e)))
  {
    hide ValueOf;
    var s := SignText(e.sign) + e.digits;
    DigitPrefixOfDigits(e.digits);
    assert SkipBlanks(s) == s;
    if e.sign.NoSign? { assert s == e.digits; } else { assert s[1..] == e.digits; }
  }

  lemma {:induction false} SkipBlanksBefore(b: string, s: string)
    requires forall i :: 0 <= i < |b| ==> b[i] as int in {32, 9, 10, 11, 12, 13}
    requires s == "" || s[0] as int !in {32, 9, 10, 11, 12, 13}
    ensures SkipBlanks(b + s) == s
  {
    if b == "" { assert b + s == s; }
    else {
      assert (b + s)[1..] == b[1..] + s;
      SkipBlanksBefore(b[1..], s);
    }
  }

  lemma {:induction false} DigitPrefixBefore(digits: string, tail: string)
    requires AllDigits(digits) && (tail == "" || !IsDigit(tail[0]))
    ensures DigitPrefix(digits + tail) == digits
  {
    if digits == "" { assert digits + tail == tail; }
    else {
      assert (digits + tail)[1..] == digits[1..] + tail;
      DigitPrefixBefore(digits[1..], tail);
    }
  }

  /** How `stoi` reads an exponent: behind whitespace a sign and digits, whatever else follows;
      nothing when there are no digits or the number is no `int`. Every text has this form. */
  lemma ExponentRead(b: string, sign: LiteralSign, digits: string, tail: string)
    requires forall i :: 0 <= i < |b| ==> b[i] as int in {32, 9, 10, 11, 12, 13}
    requires AllDigits(digits) && (tail == "" || !IsDigit(tail[0]))
    requires sign.NoSign? && digits == "" && tail != "" ==> tail[0] != '+' && tail[0] != '-' && tail[0] as int !in {32, 9, 10, 11, 12, 13}
    ensures
      var n: int := if sign.Minus? then -(ValueOf(digits) as int) else ValueOf(digits);
      Stoi(b + (SignText(sign) + (digits + tail))) ==
        if digits == "" || n < -2147483648 || n > 2147483647 then None else Some(n)
  {
    hide ValueOf, SkipBlanks, DigitPrefix;
    var s := SignText(sign) + (digits + tail);
    DigitPrefixBefore(digits, tail);
    if sign.NoSign? {
      assert s == digits + tail;
      if digits != "" { assert s[0] == digits[0]; } else { assert s == tail; }
    } else {
      assert s[1..] == digits + tail;
    }
    SkipBlanksBefore(b, s);
  }

  /** Digits alone. */
  lemma DigitsRead(s: string)
    requires AllDigits(s)
    ensures MantissaChars(s) && WithoutPoints(s) == s && PointAt(s) == |s|
  {
    assert s + "" == s;
    PointAfter(s, "");
    WithoutPointsAfter(s, "");
  }

  lemma DropWhole(whole: string, fraction: string)
    ensures (whole + ("." + fraction))[|whole| + 1..] == fraction
  {
    assert whole + ("." + fraction) == (whole + ".") + fraction;
  }

  /** Digits around a point: all digits, and where the fraction starts. */
  lemma PointRead(whole: string, fraction: string)
    requires AllDigits(whole) && AllDigits(fraction)
    ensures var m := whole + ("." + fraction);
      MantissaChars(m) && WithoutPoints(m) == whole + fraction && PointAt(m) == |whole|
  {
    var tail := "." + fraction;
    assert tail[1..] == fraction;
    assert PointAt(tail) == 0 && WithoutPoints(tail) == WithoutPoints(fraction);
    hide PointAt, WithoutPoints;
    DigitsRead(fraction);
    PointAfter(whole, tail);
    WithoutPointsAfter(whole, tail);
  }

  lemma MantissaHasNoMarker(l: Literal)
    requires Shaped(l)
    ensures forall i :: 0 <= i < |Mantissa(l)| ==> !IsMarker(Mantissa(l)[i])
    ensures Mantissa(l) != "" ==> Mantissa(l)[0] != '+' && Mantissa(l)[0] != '-'
  {
  }

  lemma BodyRead(negative: bool, l: Literal)
    requires WellFormed(l)
    ensures ParseBody(negative, Mantissa(l) + ExponentText(l.exponent))
         == ParseMantissa(negative, Mantissa(l), ExponentValue(l.exponent))
  {
    hide ParseMantissa, Stoi, ValueOf;
    MantissaHasNoMarker(l);
    hide Mantissa;
    var body := Mantissa(l) + ExponentText(l.exponent);
    MarkerAfter(Mantissa(l), ExponentText(l.exponent));
    if l.exponent.Some? {
      var e := l.exponent.value;
      assert body[..|Mantissa(l)|] == Mantissa(l);
      assert body[|Mantissa(l)| + 1..] == SignText(e.sign) + e.digits;
      StoiReads(e);
    } else {
      assert body == Mantissa(l);
    }
  }

  lemma ParseSplits(l: Literal)
    requires WellFormed(l) && Text(l) != ""
    ensures Parse(Text(l)) == ParseMantissa(l.sign.Minus?, Mantissa(l), ExponentValue(l.exponent))
  {
    hide ParseMantissa, ParseBody, ValueOf;
    MantissaHasNoMarker(l);
    hide Mantissa;
    var t, body := Text(l), Mantissa(l) + ExponentText(l.exponent);
    if l.sign.NoSign? { assert t == body; } else { assert t[1..] == body; }
    BodyRead(l.sign.Minus?, l);
  }

  lemma StoiOverflows(e: Exponent)
    requires e.digits != "" && AllDigits(e.digits)
    requires ExponentValue(Some(e)) < -2147483648 || ExponentValue(Some(e)) > 2147483647
    ensures Stoi(SignText(e.sign) + e.digits) == None
  {
    hide ValueOf;
    var s := SignText(e.sign) + e.digits;
    DigitPrefixOfDigits(e.digits);
    assert SkipBlanks(s) == s;
    if e.sign.NoSign? { assert s == e.digits; } else { assert s[1..] == e.digits; }
  }

  lemma SignSplits(l: Literal)
    requires Shaped(l) && Text(l) != ""
    ensures Parse(Text(l)) == ParseBody(l.sign.Minus?, Mantissa(l) + ExponentText(l.exponent))
  {
    hide ParseBody, ValueOf;
    MantissaHasNoMarker(l);
    hide Mantissa;
    var t, body := Text(l), Mantissa(l) + ExponentText(l.exponent);
    if l.sign.NoSign? { assert t == body; } else { assert t[1..] == body; }
  }

  lemma BodyOverflows(negative: bool, l: Literal)
    requires Shaped(l) && !WellFormed(l)
    ensures ParseBody(negative, Mantissa(l) + ExponentText(l.exponent)) == INVALID
  {
    hide ParseMantissa, Stoi, ValueOf;
    MantissaHasNoMarker(l);
    hide Mantissa;
    var e, body := l.exponent.value, Mantissa(l) + ExponentText(l.exponent);
    MarkerAfter(Mantissa(l), ExponentText(l.exponent));
    assert body[..|Mantissa(l)|] == Mantissa(l);
    assert body[|Mantissa(l)| + 1..] == SignText(e.sign) + e.digits;
    StoiOverflows(e);
  }

  /** A literal is valid exactly when its exponent is an `int`. */
  lemma LiteralValidExactly(l: Literal)
    requires Shaped(l) && Text(l) != ""
    ensures Parse(Text(l)).valid <==> WellFormed(l)
  {
    hide Parse, Text, Value, Canonical, Denotes, ParseBody, WellFormed, Shaped;
    if WellFormed(l) {
      ParseDenotesValue(l);
    } else {
      SignSplits(l);
      BodyOverflows(l.sign.Minus?, l);
    }
  }

  /** What `ParseMantissa` makes of digits and scale. */
  function Normalized(negative: bool, digits: string, scale: int): ExactDecimal {
    if StripLeading(digits) == "" then ExactDecimal(false, "0", 0, true)
    else
      var stripped := StripTrailing(StripLeading(digits), scale);
      ExactDecimal(negative, stripped.0, stripped.1, true)
  }

  lemma MantissaNormalizes(l: Literal, exponent: int)
    requires WellFormed(l)
    ensures ParseMantissa(l.sign.Minus?, Mantissa(l), exponent)
         == Normalized(l.sign.Minus?, l.whole + l.fraction, |l.fraction| - exponent)
  {
    hide ValueOf, StripLeading, StripTrailing;
    DigitsRead(l.whole);
    DigitsRead(l.fraction);
    PointRead(l.whole, l.fraction);
    DropWhole(l.whole, l.fraction);
    assert l.whole + "" == l.whole;
  }

  lemma NormalizedDenotes(negative: bool, digits: string, scale: int)
    requires AllDigits(digits)
    ensures AllDigits(Normalized(negative, digits, scale).digits)
    ensures Denotes(Normalized(negative, digits, scale))
         == Times(if negative then -Number(digits) else Number(digits), Pow10(-scale))
  {
    hide Times, Pow10, ValueOf, StripLeading, StripTrailing;
    StripLeadingKeepsValue(digits);
    StripTrailingKeepsValue(StripLeading(digits), scale);
    var d := Normalized(negative, digits, scale);
    if StripLeading(digits) == "" {
      EmptyIsZero();
      TimesOrder(0.0, 0.0, Pow10(-scale));
      TimesOrder(0.0, 0.0, Pow10(0));
    }
    TimesLaws(Number(d.digits), Pow10(-d.scale), 0.0);
    TimesLaws(Number(digits), Pow10(-scale), 0.0);
  }

  /** `parse_exact_decimal` accepts every literal and denotes its rational value. */
  lemma ParseDenotesValue(l: Literal)
    requires WellFormed(l) && Text(l) != ""
    ensures Parse(Text(l)).valid && Canonical(Parse(Text(l)))
    ensures Denotes(Parse(Text(l))) == Value(l)
  {
    hide Times, Pow10, ValueOf, Parse, ParseMantissa, StripLeading, StripTrailing;
    var exponent := ExponentValue(l.exponent);
    ParseSplits(l);
    MantissaNormalizes(l, exponent);
    ParseCanonical(Text(l));
    DigitsDenote(l);
    NormalizedDenotes(l.sign.Minus?, l.whole + l.fraction, |l.fraction| - exponent);
  }

  lemma EmptyIsZero()
    ensures ValueOf("") == 0 && ValueOf("0") == 0
  {
    assert "0"[..0] == "";
  }

  /** The digits without the point, scaled, are the value. */
  lemma DigitsDenote(l: Literal)
    requires WellFormed(l)
    ensures AllDigits(l.whole + l.fraction)
    ensures
      var n := Number(l.whole + l.fraction);
      Value(l) == Times(if l.sign.Minus? then -n else n, Pow10(ExponentValue(l.exponent) - |l.fraction|))
  {
    hide Times, TimesNat, Pow10, ValueOf;
    var w, f, k, e := Number(l.whole), Number(l.fraction), |l.fraction|, ExponentValue(l.exponent);
    ConcatValue(l.whole, l.fraction);
    TimesNatLaws(ValueOf(l.whole), TenNat(k), 0);
    WholePow10(k);
    var n := Number(l.whole + l.fraction);
    assert n == Times(w, Pow10(k)) + f;
    // n * 10^-k == w + f * 10^-k
    Pow10Add(-k, k);
    assert Pow10(0) == 1.0 by { WholePow10(0); }
    TimesLaws(Times(w, Pow10(k)), Pow10(-k), f);
    TimesLaws(w, Pow10(k), Pow10(-k));
    TimesLaws(0.0, w, 0.0);
    assert Times(n, Pow10(-k)) == w + Times(f, Pow10(-k));
    ShiftBy(n, e, k);
    ShiftBy(-n, e, k);
    TimesLaws(n, Pow10(-k), 0.0);
  }

  lemma ShiftBy(n: real, e: int, k: int)
    requires k >= 0
    ensures Times(Times(n, Pow10(-k)), Pow10(e)) == Times(n, Pow10(e - k))
  {
    hide Times, Pow10;
    Pow10Add(e - k, k);
    Pow10Add(-k, k);
    assert Pow10(0) == 1.0 by { WholePow10(0); }
    TimesLaws(n, Pow10(-k), Pow10(e));
    TimesLaws(Pow10(e - k), Pow10(k), Pow10(-k));
    TimesLaws(Pow10(-k), Pow10(k), 0.0);
    TimesLaws(0.0, Pow10(e - k), 0.0);
    TimesLaws(Pow10(e), Pow10(-k), 0.0);
  }

  /** Comparison of two literals by the value each denotes. */
  lemma LiteralOrder(a: Literal, b: Literal)
    requires WellFormed(a) && WellFormed(b) && Text(a) != "" && Text(b) != ""
    ensures Compare(Text(a), Text(b)) == Sign(Value(a) - Value(b)) <==> !ZeroAgainstFraction(Value(a), Value(b))
    ensures ZeroAgainstFraction(Value(a), Value(b)) ==> Compare(Text(a), Text(b)) == -Sign(Value(a) - Value(b))
  {
    hide *;
    ParseDenotesValue(a);
    ParseDenotesValue(b);
    CompareIsRationalOrder(Text(a), Text(b));
  }

  // ---------------------------------------------------------------- coordinate ranges

  /** One axis of a coordinate type; an empty bound is unbounded. */
  datatype NumType = NumType(min: string, max: string)

  datatype FitError =
    | NoError
    | MissingCoordinate
    | DimensionMismatch(actual: string, expected: string)
    | MissingAxis(axis: nat)
    | MinimumBelowRange(axis: nat, actual: string, expected: string)
    | MaximumAboveRange(axis: nat, actual: string, expected: string)

  type Coordinate = seq<Option<NumType>>

  function Shown(bound: string): string {
    if bound == "" then "unbounded" else bound
  }

  function AxisFit(candidate: NumType, base: NumType, axis: nat): FitError {
    if base.min != "" && (candidate.min == "" || Compare(candidate.min, base.min) < 0) then
      MinimumBelowRange(axis, Shown(candidate.min), base.min)
    else if base.max != "" && (candidate.max == "" || Compare(candidate.max, base.max) > 0) then
      MaximumAboveRange(axis, Shown(candidate.max), base.max)
    else NoError
  }

  /** The first complaint about an axis, counted from `axis`. */
  function AxesFit(concrete: Coordinate, generic: Coordinate, axis: nat): FitError
    requires |concrete| == |generic|
  {
    if concrete == [] then NoError
    else if concrete[0].None? || generic[0].None? then MissingAxis(axis)
    else
      var fit := AxisFit(concrete[0].value, generic[0].value, axis);
      if fit != NoError then fit else AxesFit(concrete[1..], generic[1..], axis + 1)
  }

  /** `coordinate_type_fit` */
  function CoordinateFit(concrete: Option<Coordinate>, generic: Option<Coordinate>): FitError {
    if concrete.None? || generic.None? then MissingCoordinate
    else if |concrete.value| != |generic.value| then DimensionMismatch(ToText(|concrete.value|), ToText(|generic.value|))
    else AxesFit(concrete.value, generic.value, 1)
  }

  method CoordinateFitLoop(concrete: Option<Coordinate>, generic: Option<Coordinate>) returns (r: FitError)
    ensures r == CoordinateFit(concrete, generic)
  {
    hide Compare, ToText;
    if concrete.None? || generic.None? { return MissingCoordinate; }
    var c, g := concrete.value, generic.value;
    if |c| != |g| { return DimensionMismatch(ToText(|c|), ToText(|g|)); }
    for i := 0 to |c|
      invariant AxesFit(c, g, 1) == AxesFit(c[i..], g[i..], i + 1)
    {
      assert c[i..][1..] == c[i + 1..] && g[i..][1..] == g[i + 1..];
      if c[i].None? || g[i].None? { return MissingAxis(i + 1); }
      var candidate, base := c[i].value, g[i].value;
      if base.min != "" && (candidate.min == "" || Compare(candidate.min, base.min) < 0) {
        return MinimumBelowRange(i + 1, Shown(candidate.min), base.min);
      }
      if base.max != "" && (candidate.max == "" || Compare(candidate.max, base.max) > 0) {
        return MaximumAboveRange(i + 1, Shown(candidate.max), base.max);
      }
    }
    return NoError;
  }

  // ---------------------------------------------------------------- what the check decides

  ghost function BoundValue(s: string): real
    requires Parse(s).valid
  {
    if Canonical(Parse(s)) then Denotes(Parse(s)) else 0.0
  }

  /** Zero against a proper fraction, the one pair of numbers that is compared wrongly. */
  ghost predicate Reversed(low: string, high: string)
    requires Parse(low).valid && Parse(high).valid
  {
    ZeroAgainstFraction(BoundValue(low), BoundValue(high))
  }

  /** What the check takes for "low is at most high": the order of the numbers, reversed in
      that one case, and the order of the texts when one of them is no decimal. */
  ghost predicate JudgedAtMost(low: string, high: string) {
    if Parse(low).valid && Parse(high).valid then (BoundValue(low) <= BoundValue(high)) != Reversed(low, high)
    else low == high || Lex.Less(low, high)
  }

  lemma CompareJudges(a: string, b: string)
    ensures Compare(a, b) >= 0 <==> JudgedAtMost(b, a)
    ensures Compare(a, b) <= 0 <==> JudgedAtMost(a, b)
  {
    hide Parse, Canonical, Denotes, CompareParsed, Lex.Less;
    if Parse(a).valid && Parse(b).valid {
      hide Compare;
      CompareIsRationalOrder(a, b);
    } else {
      Lex.Total(a, b);
      if Lex.Less(a, b) { Lex.Asymmetric(a, b); }
      if Lex.Less(b, a) { Lex.Asymmetric(b, a); }
    }
  }

  ghost predicate MinimumAccepted(candidate: NumType, base: NumType) {
    base.min != "" ==> candidate.min != "" && JudgedAtMost(base.min, candidate.min)
  }

  ghost predicate MaximumAccepted(candidate: NumType, base: NumType) {
    base.max != "" ==> candidate.max != "" && JudgedAtMost(candidate.max, base.max)
  }

  /** One axis, for all bounds: no complaint exactly when both tests hold. */
  lemma AxisFitExact(candidate: NumType, base: NumType, axis: nat)
    ensures AxisFit(candidate, base, axis) == NoError
       <==> MinimumAccepted(candidate, base) && MaximumAccepted(candidate, base)
  {
    hide Compare, JudgedAtMost;
    CompareJudges(candidate.min, base.min);
    CompareJudges(candidate.max, base.max);
  }

  ghost predicate AxisAccepted(concrete: Option<NumType>, generic: Option<NumType>) {
    && concrete.Some? && generic.Some?
    && MinimumAccepted(concrete.value, generic.value) && MaximumAccepted(concrete.value, generic.value)
  }

  lemma {:induction false} AxesFitExact(concrete: Coordinate, generic: Coordinate, axis: nat)
    requires |concrete| == |generic|
    ensures AxesFit(concrete, generic, axis) == NoError
       <==> forall i :: 0 <= i < |concrete| ==> AxisAccepted(concrete[i], generic[i])
  {
    if concrete != [] {
      hide AxisFit, MinimumAccepted, MaximumAccepted;
      if concrete[0].Some? && generic[0].Some? {
        AxisFitExact(concrete[0].value, generic[0].value, axis);
      }
      var c, g := concrete[1..], generic[1..];
      AxesFitExact(c, g, axis + 1);
      assert AxesFit(concrete, generic, axis) == NoError
          <==> AxisAccepted(concrete[0], generic[0]) && AxesFit(c, g, axis + 1) == NoError;
      hide *;
      if AxesFit(concrete, generic, axis) == NoError {
        forall i | 0 <= i < |concrete| ensures AxisAccepted(concrete[i], generic[i]) {
          if i > 0 { assert AxisAccepted(c[i - 1], g[i - 1]); }
        }
      } else if forall i :: 0 <= i < |concrete| ==> AxisAccepted(concrete[i], generic[i]) {
        forall i | 0 <= i < |c| ensures AxisAccepted(c[i], g[i]) {
          assert AxisAccepted(concrete[i + 1], generic[i + 1]);
        }
      }
    }
  }

  /** `coordinate_type_fit` reports nothing exactly for coordinates of equal dimension whose
      every axis passes both tests. */
  lemma CoordinateFitExact(concrete: Option<Coordinate>, generic: Option<Coordinate>)
    ensures CoordinateFit(concrete, generic) == NoError
       <==> && concrete.Some? && generic.Some? && |concrete.value| == |generic.value|
            && forall i :: 0 <= i < |concrete.value| ==> AxisAccepted(concrete.value[i], generic.value[i])
  {
    hide AxisAccepted, AxesFit, ToText;
    if concrete.Some? && generic.Some? && |concrete.value| == |generic.value| {
      AxesFitExact(concrete.value, generic.value, 1);
    }
  }

  /** What a complaint about an axis says: its number, the kind, and both values. */
  ghost predicate Complains(c: Option<NumType>, g: Option<NumType>, axis: nat, e: FitError) {
    match e
    case MissingAxis(k) => k == axis && (c.None? || g.None?)
    case MinimumBelowRange(k, actual, expected) =>
      && k == axis && c.Some? && g.Some? && !MinimumAccepted(c.value, g.value)
      && expected == g.value.min && actual == (if c.value.min == "" then "unbounded" else c.value.min)
    case MaximumAboveRange(k, actual, expected) =>
      && k == axis && c.Some? && g.Some? && MinimumAccepted(c.value, g.value) && !MaximumAccepted(c.value, g.value)
      && expected == g.value.max && actual == (if c.value.max == "" then "unbounded" else c.value.max)
    case _ => false
  }

  lemma AxisComplaint(candidate: NumType, base: NumType, axis: nat)
    requires AxisFit(candidate, base, axis) != NoError
    ensures Complains(Some(candidate), Some(base), axis, AxisFit(candidate, base, axis))
  {
    hide Compare, JudgedAtMost;
    CompareJudges(candidate.min, base.min);
    CompareJudges(candidate.max, base.max);
  }

  lemma AxesFirst(concrete: Coordinate, generic: Coordinate, axis: nat)
    requires |concrete| == |generic| && AxesFit(concrete, generic, axis) != NoError
    ensures concrete != []
    ensures concrete[0].None? || generic[0].None? ==> AxesFit(concrete, generic, axis) == MissingAxis(axis)
    ensures concrete[0].Some? && generic[0].Some? ==>
      var fit := AxisFit(concrete[0].value, generic[0].value, axis);
      AxesFit(concrete, generic, axis) == if fit != NoError then fit else AxesFit(concrete[1..], generic[1..], axis + 1)
  {
    hide AxisFit;
  }

  lemma FirstComplaint(c: Option<NumType>, g: Option<NumType>, axis: nat)
    ensures c.None? || g.None? ==> Complains(c, g, axis, MissingAxis(axis))
    ensures c.Some? && g.Some? && AxisFit(c.value, g.value, axis) != NoError ==> Complains(c, g, axis, AxisFit(c.value, g.value, axis))
    ensures c.Some? && g.Some? && AxisFit(c.value, g.value, axis) == NoError ==> AxisAccepted(c, g)
  {
    if c.Some? && g.Some? {
      AxisFitExact(c.value, g.value, axis);
      if AxisFit(c.value, g.value, axis) != NoError { AxisComplaint(c.value, g.value, axis); }
    }
    hide AxisFit, MinimumAccepted, MaximumAccepted;
  }

  lemma AcceptedBefore(concrete: Coordinate, generic: Coordinate, k: nat)
    requires 0 < |concrete| == |generic| && k < |concrete| && AxisAccepted(concrete[0], generic[0])
    requires forall j :: 0 <= j < k ==> AxisAccepted(concrete[1..][j], generic[1..][j])
    ensures forall j :: 0 <= j < k + 1 ==> AxisAccepted(concrete[j], generic[j])
  {
    hide AxisAccepted;
    forall j | 0 <= j < k + 1 ensures AxisAccepted(concrete[j], generic[j]) {
      if j > 0 { assert AxisAccepted(concrete[1..][j - 1], generic[1..][j - 1]); }
    }
  }

  lemma {:induction false} AxesComplaint(concrete: Coordinate, generic: Coordinate, axis: nat) returns (k: nat)
    requires |concrete| == |generic| && AxesFit(concrete, generic, axis) != NoError
    ensures k < |concrete| && Complains(concrete[k], generic[k], axis + k, AxesFit(concrete, generic, axis))
    ensures forall j :: 0 <= j < k ==> AxisAccepted(concrete[j], generic[j])
    decreases |concrete|
  {
    hide *;
    AxesFirst(concrete, generic, axis);
    FirstComplaint(concrete[0], generic[0], axis);
    k := 0;
    if concrete[0].Some? && generic[0].Some? && AxisFit(concrete[0].value, generic[0].value, axis) == NoError {
      var rest := AxesComplaint(concrete[1..], generic[1..], axis + 1);
      AcceptedBefore(concrete, generic, rest);
      k := rest + 1;
    }
  }

  /** What `coordinate_type_fit` reports: a missing coordinate type, both dimensions when they
      differ, or else the first axis that is not accepted, counted from one. */
  lemma CoordinateReport(concrete: Option<Coordinate>, generic: Option<Coordinate>) returns (k: nat)
    requires CoordinateFit(concrete, generic) != NoError
    ensures CoordinateFit(concrete, generic) == MissingCoordinate <==> concrete.None? || generic.None?
    ensures concrete.Some? && generic.Some? && |concrete.value| != |generic.value| ==>
      var e := CoordinateFit(concrete, generic);
      e.DimensionMismatch? && ValueOf(e.actual) == |concrete.value| && ValueOf(e.expected) == |generic.value|
    ensures concrete.Some? && generic.Some? && |concrete.value| == |generic.value| ==>
      && k < |concrete.value| && Complains(concrete.value[k], generic.value[k], k + 1, CoordinateFit(concrete, generic))
      && forall j :: 0 <= j < k ==> AxisAccepted(concrete.value[j], generic.value[j])
  {
    hide AxisAccepted, AxesFit, ToText, ValueOf, MinimumAccepted, MaximumAccepted;
    k := 0;
    if concrete.Some? && generic.Some? {
      if |concrete.value| == |generic.value| {
        k := AxesComplaint(concrete.value, generic.value, 1);
      } else {
        TextRoundTrip(|concrete.value|);
        TextRoundTrip(|generic.value|);
      }
    }
  }

  // ---------------------------------------------------------------- against intervals

  ghost predicate Bounds(t: NumType) {
    (t.min == "" || Parse(t.min).valid) && (t.max == "" || Parse(t.max).valid)
  }

  ghost predicate MinimumWithin(candidate: NumType, base: NumType)
    requires Bounds(candidate) && Bounds(base)
  {
    base.min != "" ==> candidate.min != "" && BoundValue(base.min) <= BoundValue(candidate.min)
  }

  ghost predicate MaximumWithin(candidate: NumType, base: NumType)
    requires Bounds(candidate) && Bounds(base)
  {
    base.max != "" ==> candidate.max != "" && BoundValue(candidate.max) <= BoundValue(base.max)
  }

  ghost predicate MinimumReversed(candidate: NumType, base: NumType)
    requires Bounds(candidate) && Bounds(base)
  {
    base.min != "" && candidate.min != "" && Reversed(base.min, candidate.min)
  }

  ghost predicate MaximumReversed(candidate: NumType, base: NumType)
    requires Bounds(candidate) && Bounds(base)
  {
    base.max != "" && candidate.max != "" && Reversed(candidate.max, base.max)
  }

  /** A reversed comparison that is not outvoted by the other bound. */
  ghost predicate Misjudged(candidate: NumType, base: NumType)
    requires Bounds(candidate) && Bounds(base)
  {
    if MinimumReversed(candidate, base) && MaximumReversed(candidate, base) then
      MinimumWithin(candidate, base) == MaximumWithin(candidate, base)
    else
      || (MinimumReversed(candidate, base) && MaximumWithin(candidate, base))
      || (MaximumReversed(candidate, base) && MinimumWithin(candidate, base))
  }

  /** For decimal bounds the check of an axis is containment of its interval, except exactly
      where a comparison of zero against a proper fraction decides. */
  lemma AxisFitAgrees(candidate: NumType, base: NumType, axis: nat)
    requires Bounds(candidate) && Bounds(base)
    ensures (AxisFit(candidate, base, axis) == NoError
             <==> MinimumWithin(candidate, base) && MaximumWithin(candidate, base))
       <==> !Misjudged(candidate, base)
  {
    hide AxisFit, Parse, BoundValue, ZeroAgainstFraction;
    AxisFitExact(candidate, base, axis);
  }

  lemma ZeroRead()
    ensures Parse("0") == ExactDecimal(false, "0", 0, true)
  {
    assert "0"[1..] == "";
  }

  lemma HalfRead()
    ensures Parse("0.5") == ExactDecimal(false, "5", 1, true)
  {
    assert "0.5"[1..] == ".5" && ".5"[1..] == "5" && "5"[1..] == "";
    assert MarkerAt("0.5") == 3 && PointAt("0.5") == 1;
    assert "0.5"[2..] == "5" && PointAt("5") == 1;
    assert WithoutPoints("0.5") == "0" + (WithoutPoints("5"));
    assert "05"[1..] == "5";
    assert StripLeading("05") == "5";
  }

  /** The boundary case: a concrete minimum of 0.5 is refused against a generic minimum of 0,
      and a concrete minimum of 0 is accepted against a generic minimum of 0.5. */
  lemma ZeroBoundMisjudged()
    ensures AxisFit(NumType("0.5", ""), NumType("0", ""), 1) == MinimumBelowRange(1, "0.5", "0")
    ensures AxisFit(NumType("0", ""), NumType("0.5", ""), 1) == NoError
  {
    hide Parse;
    ZeroRead();
    HalfRead();
  }
}
