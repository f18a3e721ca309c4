/** Exact decimal literals of coordinate ranges: parsing to sign, digits and scale, and the
    comparison that is meant to agree with the order of the rational values. */
module ExactDecimals {
  import opened Options
  import opened Decimal
  import Lex

  datatype ExactDecimal = ExactDecimal(negative: bool, digits: string, scale: int, valid: bool)

  /** No caller reads the other fields of an invalid result. */
  const INVALID := ExactDecimal(false, "", 0, false)

  // ---------------------------------------------------------------- parsing

  predicate IsMarker(c: char) {
    c == 'e' || c == 'E' || c == 'S'
  }

  /** `find_first_of("eES")`, or the length. */
  function MarkerAt(s: string): (i: nat)
    ensures i <= |s|
    ensures forall k :: 0 <= k < i ==> !IsMarker(s[k])
    ensures i < |s| ==> IsMarker(s[i])
  {
    if s == "" || IsMarker(s[0]) then 0 else 1 + MarkerAt(s[1..])
  }

  /** `find('.')`, or the length. */
  function PointAt(s: string): (i: nat)
    ensures i <= |s|
    ensures forall k :: 0 <= k < i ==> s[k] != '.'
    ensures i < |s| ==> s[i] == '.'
  {
    if s == "" || s[0] == '.' then 0 else 1 + PointAt(s[1..])
  }

  function SkipBlanks(s: string): string {
    if s != "" && (s[0] == ' ' || '\t' <= s[0] <= '\r') then SkipBlanks(s[1..]) else s
  }

  function DigitPrefix(s: string): (r: string)
    ensures AllDigits(r) && r <= s
  {
    if s != "" && IsDigit(s[0]) then [s[0]] + DigitPrefix(s[1..]) else ""
  }

  const INT_MAX := 2147483647

  /** `stoi`: blanks, a sign, the longest run of digits; what follows is ignored. Nothing
      to convert and a value outside 32 bits are errors. */
  function Stoi(text: string): Option<int> {
    var s := SkipBlanks(text);
    var signed := s != "" && (s[0] == '+' || s[0] == '-');
    var digits := DigitPrefix(if signed then s[1..] else s);
    var magnitude: int := ValueOf(digits);
    var n := if signed && s[0] == '-' then -magnitude else magnitude;
    if digits == "" || n > INT_MAX || n < -INT_MAX - 1 then None else Some(n)
  }

  function WithoutPoints(s: string): (r: string)
    ensures (forall i :: 0 <= i < |s| ==> s[i] == '.' || IsDigit(s[i])) ==> AllDigits(r)
  {
    if s == "" then "" else if s[0] == '.' then WithoutPoints(s[1..]) else [s[0]] + WithoutPoints(s[1..])
  }

  function StripLeading(s: string): (r: string)
    ensures AllDigits(s) ==> AllDigits(r)
    ensures r == "" || r[0] != '0'
  {
    if s != "" && s[0] == '0' then StripLeading(s[1..]) else s
  }

  /** Drops trailing zeros, keeping one digit, and adjusts the scale. */
  function StripTrailing(digits: string, scale: int): (r: (string, int))
    ensures AllDigits(digits) ==> AllDigits(r.0)
    ensures digits != "" ==> r.0 != "" && r.0[0] == digits[0]
  {
    if |digits| > 1 && digits[|digits| - 1] == '0' then StripTrailing(digits[..|digits| - 1], scale - 1)
    else (digits, scale)
  }

  predicate MantissaChars(s: string) {
    forall i :: 0 <= i < |s| ==> s[i] == '.' || IsDigit(s[i])
  }

  function ParseMantissa(negative: bool, mantissa: string, exponent: int): ExactDecimal {
    var point := PointAt(mantissa);
    if point < |mantissa| && PointAt(mantissa[point + 1..]) < |mantissa| - point - 1 then INVALID
    else if !MantissaChars(mantissa) then INVALID
    else
      var fraction := if point == |mantissa| then 0 else |mantissa| - point - 1;
      var digits := StripLeading(WithoutPoints(mantissa));
      if digits == "" then ExactDecimal(false, "0", 0, true)
      else
        var stripped := StripTrailing(digits, fraction - exponent);
        ExactDecimal(negative, stripped.0, stripped.1, true)
  }

  /** Mantissa and exponent of a literal without its sign. */
  function ParseBody(negative: bool, body: string): ExactDecimal {
    var marker := MarkerAt(body);
    if marker == |body| then ParseMantissa(negative, body, 0)
    else
      match Stoi(body[marker + 1..])
      case None => INVALID
      case Some(exponent) => ParseMantissa(negative, body[..marker], exponent)
  }

  /** `parse_exact_decimal` */
  function Parse(value: string): ExactDecimal {
    if value == "" then INVALID
    else ParseBody(value[0] == '-', if value[0] == '+' || value[0] == '-' then value[1..] else value)
  }

  // ---------------------------------------------------------------- comparison

  function Pad(s: string, width: nat): (r: string)
    requires |s| <= width
    ensures |r| == width
    ensures AllDigits(s) ==> AllDigits(r)
  {
    s + seq(width - |s|, i => '0')
  }

  function CompareText(a: string, b: string): int {
    if Lex.Less(a, b) then -1 else if Lex.Less(b, a) then 1 else 0
  }

  function Magnitude(d: ExactDecimal): int {
    |d.digits| - d.scale
  }

  function CompareMagnitudes(l: ExactDecimal, r: ExactDecimal): int {
    if Magnitude(l) != Magnitude(r) then (if Magnitude(l) < Magnitude(r) then -1 else 1)
    else
      var width := if |l.digits| < |r.digits| then |r.digits| else |l.digits|;
      CompareText(Pad(l.digits, width), Pad(r.digits, width))
  }

  function CompareParsed(l: ExactDecimal, r: ExactDecimal): int {
    if l.negative != r.negative then (if l.negative then -1 else 1)
    else if l.negative then -CompareMagnitudes(l, r)
    else CompareMagnitudes(l, r)
  }

  /** `compare_exact_decimal` */
  function Compare(left: string, right: string): int {
    var l, r := Parse(left), Parse(right);
    if !l.valid || !r.valid then CompareText(left, right) else CompareParsed(l, r)
  }

  // ---------------------------------------------------------------- the code's loops

  method CollectDigits(mantissa: string) returns (ok: bool, digits: string)
    ensures ok == MantissaChars(mantissa)
    ensures ok ==> digits == WithoutPoints(mantissa)
  {
    digits := "";
    var i := 0;
    while i < |mantissa|
      invariant i <= |mantissa| && forall k :: 0 <= k < i ==> mantissa[k] == '.' || IsDigit(mantissa[k])
      invariant digits + WithoutPoints(mantissa[i..]) == WithoutPoints(mantissa)
      decreases |mantissa| - i
    {
      assert mantissa[i..][1..] == mantissa[i + 1..];
      if mantissa[i] == '.' {
        i := i + 1;
        continue;
      }
      if !IsDigit(mantissa[i]) { return false, digits; }
      digits := digits + [mantissa[i]];
      i := i + 1;
    }
    ok := true;
  }

  method DropTrailingZeros(digits: string, scale: int) returns (digits': string, scale': int)
    ensures (digits', scale') == StripTrailing(digits, scale)
  {
    digits', scale' := digits, scale;
    while |digits'| > 1 && digits'[|digits'| - 1] == '0'
      invariant StripTrailing(digits', scale') == StripTrailing(digits, scale)
    {
      digits' := digits'[..|digits'| - 1];
      scale' := scale' - 1;
    }
  }

  method ParseMantissaLoop(negative: bool, mantissa: string, exponent: int) returns (result: ExactDecimal)
    ensures result == ParseMantissa(negative, mantissa, exponent)
  {
    var point := PointAt(mantissa);
    if point < |mantissa| && PointAt(mantissa[point + 1..]) < |mantissa| - point - 1 { return INVALID; }
    var fractionDigits := if point == |mantissa| then 0 else |mantissa| - point - 1;
    var ok, digits := CollectDigits(mantissa);
    if !ok { return INVALID; }
    digits := StripLeading(digits);
    if digits == "" { return ExactDecimal(false, "0", 0, true); }
    var scale;
    digits, scale := DropTrailingZeros(digits, fractionDigits - exponent);
    return ExactDecimal(negative, digits, scale, true);
  }

  /** `parse_exact_decimal` with its digit loops. */
  method ParseLoop(value: string) returns (result: ExactDecimal)
    ensures result == Parse(value)
  {
    if value == "" { return INVALID; }
    var negative := value[0] == '-';
    var body := if value[0] == '+' || value[0] == '-' then value[1..] else value;
    var marker := MarkerAt(body);
    if marker == |body| {
      result := ParseMantissaLoop(negative, body, 0);
    } else {
      var parsed := Stoi(body[marker + 1..]);
      if parsed.None? { return INVALID; }
      result := ParseMantissaLoop(negative, body[..marker], parsed.value);
    }
  }
}
