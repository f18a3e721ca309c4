/** Decimal text of natural numbers, as the stream operator `<<` and `std::to_string`
    write it, and the reading of digit strings. Shared by the cache keys, the JSON
    printer and the exact decimal comparison. */
module Decimal {

  predicate IsDigit(c: char) {
    '0' <= c <= '9'
  }

  predicate AllDigits(s: string) {
    forall i :: 0 <= i < |s| ==> IsDigit(s[i])
  }

  function DigitChar(d: nat): (c: char)
    requires d < 10
    ensures IsDigit(c)
  {
    ('0' as int + d) as char
  }

  function DigitValue(c: char): (d: nat)
    requires IsDigit(c)
    ensures d < 10
  {
    c as int - '0' as int
  }

  /** The decimal text of n, without leading zeros. */
  function ToText(n: nat): (s: string)
    ensures s != [] && AllDigits(s)
    ensures |s| > 1 ==> s[0] != '0'
  {
    if n < 10 then [DigitChar(n)] else ToText(n / 10) + [DigitChar(n % 10)]
  }

  /** The number a digit string denotes; the empty string denotes 0. */
  function ValueOf(s: string): (n: nat)
    requires AllDigits(s)
  {
    if s == [] then 0 else ValueOf(s[..|s| - 1]) * 10 + DigitValue(s[|s| - 1])
  }

  lemma {:induction false} TextRoundTrip(n: nat)
    ensures ValueOf(ToText(n)) == n
  {
    if n >= 10 {
      TextRoundTrip(n / 10);
      assert ToText(n)[..|ToText(n)| - 1] == ToText(n / 10);
    }
  }

  lemma DigitRunEnds(a: string, x: string)
    requires AllDigits(a) && x != [] && !IsDigit(x[0])
    ensures AllDigits((a + x)[..|a|]) && !IsDigit((a + x)[|a|])
    ensures a == (a + x)[..|a|] && x == (a + x)[|a|..]
  {
  }

  /** A run of digits is delimited by the first character that is not a digit. */
  lemma DigitRunUnique(a: string, x: string, b: string, y: string)
    requires AllDigits(a) && AllDigits(b)
    requires x != [] && y != [] && !IsDigit(x[0]) && !IsDigit(y[0])
    requires a + x == b + y
    ensures a == b && x == y
  {
    DigitRunEnds(a, x);
    DigitRunEnds(b, y);
    assert !IsDigit((a + x)[|b|]) && !IsDigit((b + y)[|a|]);
    assert |a| <= |b| by {
      assert forall i :: 0 <= i < |a| ==> IsDigit((a + x)[..|a|][i]);
      assert forall i :: 0 <= i < |a| ==> (a + x)[..|a|][i] == (a + x)[i];
    }
    assert |b| <= |a| by {
      assert forall i :: 0 <= i < |b| ==> IsDigit((b + y)[..|b|][i]);
      assert forall i :: 0 <= i < |b| ==> (b + y)[..|b|][i] == (b + y)[i];
    }
  }

  /** Two numbers written before a non-digit are recovered from the text. */
  lemma NumberUnique(m: nat, x: string, n: nat, y: string)
    requires x != [] && y != [] && !IsDigit(x[0]) && !IsDigit(y[0])
    requires ToText(m) + x == ToText(n) + y
    ensures m == n && x == y
  {
    DigitRunUnique(ToText(m), x, ToText(n), y);
    TextRoundTrip(m);
    TextRoundTrip(n);
  }
}
