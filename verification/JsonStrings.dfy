/** Every way to spell a JSON string, independent of the printer: characters written raw, by a
    short escape or by four hexadecimal digits, and the bytes they stand for. */
module JsonStrings {
  import opened Bytes
  import opened Json
  import Utf8

  /** One character of a string literal. The digits of a code unit may each be upper case. */
  datatype Spelled =
    | Raw(c: char)
    | Short(letter: char)
    | Unicode(value: nat, upper: seq<bool>)

  predicate Legal(x: Spelled) {
    match x
    case Raw(c) => c != '\"' && c != '\\'
    case Short(letter) => letter in "\"\\/bfnrt"
    case Unicode(value, upper) => value < 0x10000 && |upper| == 4
  }

  function HexCase(digit: nat, upper: bool): char
    requires digit < 16
  {
    if upper then "0123456789ABCDEF"[digit] else "0123456789abcdef"[digit]
  }

  function HexText(value: nat, upper: seq<bool>): string
    requires value < 0x10000 && |upper| == 4
  {
    [HexCase(value / 4096, upper[0]), HexCase(value / 256 % 16, upper[1]), HexCase(value / 16 % 16, upper[2]), HexCase(value % 16, upper[3])]
  }

  /** What is written. */
  function Spell(x: Spelled): string
    requires Legal(x)
  {
    match x
    case Raw(c) => [c]
    case Short(letter) => "\\" + [letter]
    case Unicode(value, upper) => "\\u" + HexText(value, upper)
  }

  predicate Surrogate(value: nat) {
    0xd800 <= value <= 0xdfff
  }

  function Chars(bytes: seq<Utf8.Byte>): string {
    seq(|bytes|, i requires 0 <= i < |bytes| => bytes[i] as char)
  }

  /** The ASCII code a short escape stands for. */
  function ShortCode(letter: char): nat {
    if letter == 'b' then 8 else if letter == 't' then 9 else if letter == 'n' then 10
    else if letter == 'f' then 12 else if letter == 'r' then 13
    else if letter == '\"' then 34 else if letter == '/' then 47 else 92
  }

  /** The bytes it stands for: a code unit is the UTF-8 encoding of its scalar value; a
      surrogate, which is none, gets the three bytes of the same pattern. */
  function Means(x: Spelled): string
    requires Legal(x)
  {
    match x
    case Raw(c) => [c]
    case Short(letter) => [ShortCode(letter) as char]
    case Unicode(value, _) =>
      if Surrogate(value) then Chars([0xed, 0x80 + value / 64 % 64, 0x80 + value % 64])
      else Chars(Utf8.Encode(value))
  }

  predicate AllLegal(xs: seq<Spelled>) {
    forall i :: 0 <= i < |xs| ==> Legal(xs[i])
  }

  function SpellAll(xs: seq<Spelled>): string
    requires AllLegal(xs)
  {
    if xs == [] then "" else Spell(xs[0]) + SpellAll(xs[1..])
  }

  function MeansAll(xs: seq<Spelled>): string
    requires AllLegal(xs)
  {
    if xs == [] then "" else Means(xs[0]) + MeansAll(xs[1..])
  }

  // ---------------------------------------------------------------- code units

  lemma CodeUnitBytes(value: nat)
    requires value < 0x10000
    ensures Utf8Of(value) == if Surrogate(value) then Chars([0xed, 0x80 + value / 64 % 64, 0x80 + value % 64]) else Chars(Utf8.Encode(value))
  {
  }

  /** The bytes of a code unit that is no surrogate decode to it. */
  lemma CodeUnitDecodes(value: nat, rest: seq<Utf8.Byte>)
    requires value < 0x10000 && !Surrogate(value)
    ensures Utf8Of(value) == Chars(Utf8.Encode(value)) && Utf8.Decode(Utf8.Encode(value) + rest).value == value
  {
    CodeUnitBytes(value);
    Utf8.DecodeEncode(value, rest);
  }

  lemma HexCaseValue(digit: nat, upper: bool)
    requires digit < 16
    ensures HexValue(HexCase(digit, upper)) == digit
  {
  }

  /** One digit in front. */
  lemma HexDigitRead(digit: nat, upper: bool, rest: string, count: nat, codepoint: nat)
    requires digit < 16 && 0 < count <= |rest| + 1 && codepoint * Pow16(count) + Pow16(count) <= 0x10000
    ensures (codepoint * 16 + digit) * Pow16(count - 1) + Pow16(count - 1) <= 0x10000
    ensures ParseHex([HexCase(digit, upper)] + rest, count, codepoint) == ParseHex(rest, count - 1, codepoint * 16 + digit)
  {
    HexCaseValue(digit, upper);
    HexFits(codepoint, Pow16(count - 1), digit);
    hide HexCase, HexValue;
    assert ([HexCase(digit, upper)] + rest)[1..] == rest;
  }

  lemma HexDigits(value: nat)
    requires value < 0x10000
    ensures value / 4096 < 16 && value / 4096 * 16 + value / 256 % 16 == value / 256
    ensures value / 256 * 16 + value / 16 % 16 == value / 16 && value / 16 * 16 + value % 16 == value
  {
  }

  lemma PowersOf16()
    ensures Pow16(0) == 1 && Pow16(1) == 16 && Pow16(2) == 256 && Pow16(3) == 4096 && Pow16(4) == 65536
  {
    assert Pow16(1) == 16 * Pow16(0) && Pow16(2) == 16 * Pow16(1) && Pow16(3) == 16 * Pow16(2) && Pow16(4) == 16 * Pow16(3);
  }

  lemma HexTextIs(value: nat, upper: seq<bool>, a: nat, b: nat, c: nat, d: nat)
    requires value < 0x10000 && |upper| == 4
    requires value / 4096 == a < 16 && value / 256 % 16 == b && value / 16 % 16 == c && value % 16 == d
    ensures HexText(value, upper) == [HexCase(a, upper[0]), HexCase(b, upper[1]), HexCase(c, upper[2]), HexCase(d, upper[3])]
  {
    hide HexCase;
  }

  lemma TwoHexRead(a: nat, b: nat, u: bool, v: bool, rest: string, count: nat, codepoint: nat)
    requires a < 16 && b < 16 && 1 < count <= |rest| + 2 && codepoint * Pow16(count) + Pow16(count) <= 0x10000
    ensures ((codepoint * 16 + a) * 16 + b) * Pow16(count - 2) + Pow16(count - 2) <= 0x10000
    ensures ParseHex([HexCase(a, u)] + ([HexCase(b, v)] + rest), count, codepoint) == ParseHex(rest, count - 2, (codepoint * 16 + a) * 16 + b)
  {
    hide Pow16, HexCase, ParseHex;
    HexDigitRead(a, u, [HexCase(b, v)] + rest, count, codepoint);
    HexDigitRead(b, v, rest, count - 1, codepoint * 16 + a);
  }

  lemma FourHexRead(a: nat, b: nat, c: nat, d: nat, upper: seq<bool>, rest: string)
    requires a < 16 && b < 16 && c < 16 && d < 16 && |upper| == 4
    ensures
      var s := [HexCase(a, upper[0])] + ([HexCase(b, upper[1])] + ([HexCase(c, upper[2])] + ([HexCase(d, upper[3])] + rest)));
      Pow16(4) <= 0x10000 && ParseHex(s, 4, 0) == Ok(((a * 16 + b) * 16 + c) * 16 + d, rest)
  {
    PowersOf16();
    hide Pow16, HexCase, ParseHex;
    TwoHexRead(a, b, upper[0], upper[1], [HexCase(c, upper[2])] + ([HexCase(d, upper[3])] + rest), 4, 0);
    TwoHexRead(c, d, upper[2], upper[3], rest, 2, a * 16 + b);
    NoHexLeft(rest, ((a * 16 + b) * 16 + c) * 16 + d);
  }

  lemma HexTextRead(value: nat, upper: seq<bool>, rest: string)
    requires value < 0x10000 && |upper| == 4
    ensures Pow16(4) <= 0x10000 && ParseHex(HexText(value, upper) + rest, 4, 0) == Ok(value, rest)
  {
    HexDigits(value);
    hide Pow16, HexCase, ParseHex, HexText;
    var a, b, c, d := value / 4096, value / 256 % 16, value / 16 % 16, value % 16;
    HexTextIs(value, upper, a, b, c, d);
    FourHexRead(a, b, c, d, upper, rest);
    FourChars(HexCase(a, upper[0]), HexCase(b, upper[1]), HexCase(c, upper[2]), HexCase(d, upper[3]), rest);
  }

  lemma FourChars(a: char, b: char, c: char, d: char, rest: string)
    ensures [a, b, c, d] + rest == [a] + ([b] + ([c] + ([d] + rest)))
  {
  }

  lemma NoHexLeft(rest: string, value: nat)
    requires value * Pow16(0) + Pow16(0) <= 0x10000
    ensures ParseHex(rest, 0, value) == Ok(value, rest)
  {
  }

  // ---------------------------------------------------------------- strings

  lemma ShortRead(letter: char, rest: string)
    requires letter in "\"\\/bfnrt"
    ensures ParseEscape([letter] + rest) == Ok([ShortCode(letter) as char], rest)
  {
    assert ([letter] + rest)[1..] == rest;
  }

  lemma CodeUnitRead(value: nat, upper: seq<bool>, rest: string)
    requires value < 0x10000 && |upper| == 4
    ensures ParseEscape("u" + HexText(value, upper) + rest) == Ok(Utf8Of(value), rest)
  {
    HexTextRead(value, upper, rest);
    var h := HexText(value, upper);
    hide HexText, ParseHex, Utf8Of, Pow16;
    assert ("u" + h + rest)[1..] == h + rest;
  }

  /** Any escape, in either case of its digits, stands for what it means. */
  lemma EscapeRead(x: Spelled, rest: string)
    requires Legal(x) && !x.Raw?
    ensures Spell(x)[0] == '\\' && ParseEscape(Spell(x)[1..] + rest) == Ok(Means(x), rest)
  {
    hide ParseEscape;
    match x
    case Short(letter) =>
      ShortRead(letter, rest);
      assert Spell(x)[1..] == [letter];
    case Unicode(value, upper) =>
      CodeUnitRead(value, upper, rest);
      CodeUnitBytes(value);
      hide HexText, Utf8Of;
      assert Spell(x)[1..] == "u" + HexText(value, upper);
  }

  lemma SpelledRead(x: Spelled, rest: string, acc: string)
    requires Legal(x)
    ensures ParseString(Spell(x) + rest, acc) == ParseString(rest, acc + Means(x))
  {
    var s := Spell(x) + rest;
    if x.Raw? {
      assert s[1..] == rest;
    } else {
      EscapeRead(x, rest);
      hide Spell, Means, ParseEscape;
      assert s[0] == '\\' && s[1..] == Spell(x)[1..] + rest;
    }
  }

  /** However a string is spelled, the parser returns the concatenation of what its characters
      mean and stops behind the closing quote. */
  lemma {:induction false} StringRead(xs: seq<Spelled>, rest: string, acc: string)
    requires AllLegal(xs)
    ensures ParseString(SpellAll(xs) + ("\"" + rest), acc) == Ok(acc + MeansAll(xs), rest)
    decreases |xs|
  {
    if xs == [] {
      assert SpellAll(xs) + ("\"" + rest) == "\"" + rest && ("\"" + rest)[1..] == rest && acc + "" == acc;
    } else {
      hide Spell, Means, ParseString;
      var tail := SpellAll(xs[1..]) + ("\"" + rest);
      Associate(Spell(xs[0]), SpellAll(xs[1..]), "\"" + rest);
      SpelledRead(xs[0], tail, acc);
      StringRead(xs[1..], rest, acc + Means(xs[0]));
      Associate(acc, Means(xs[0]), MeansAll(xs[1..]));
    }
  }

  // ---------------------------------------------------------------- nothing else is a string

  lemma HexValueCase(c: char) returns (upper: bool)
    requires HexValue(c) >= 0
    ensures HexValue(c) < 16 && HexCase(HexValue(c), upper) == c
  {
    upper := 'A' <= c <= 'F';
  }

  lemma NextDigit(high: nat, digit: nat)
    requires digit < 16
    ensures (high * 16 + digit) / 16 == high && (high * 16 + digit) % 16 == digit
  {
  }

  lemma FourDigits(a: nat, b: nat, c: nat, d: nat)
    requires a < 16 && b < 16 && c < 16 && d < 16
    ensures
      var value := ((a * 16 + b) * 16 + c) * 16 + d;
      value < 0x10000 && value / 4096 == a && value / 256 % 16 == b && value / 16 % 16 == c && value % 16 == d
  {
    var ab := a * 16 + b;
    var abc := ab * 16 + c;
    var value := abc * 16 + d;
    NextDigit(a, b);
    NextDigit(ab, c);
    NextDigit(abc, d);
    assert value / 16 == abc && value / 256 == abc / 16 && value / 4096 == abc / 256 && abc / 256 == ab / 16;
  }

  lemma HexTextOf(s: string) returns (value: nat, upper: seq<bool>)
    requires |s| == 4 && forall i :: 0 <= i < 4 ==> HexValue(s[i]) >= 0
    ensures value < 0x10000 && |upper| == 4 && HexText(value, upper) == s
  {
    var u0 := HexValueCase(s[0]);
    var u1 := HexValueCase(s[1]);
    var u2 := HexValueCase(s[2]);
    var u3 := HexValueCase(s[3]);
    hide HexCase, HexValue;
    var a, b, c, d := HexValue(s[0]), HexValue(s[1]), HexValue(s[2]), HexValue(s[3]);
    FourDigits(a, b, c, d);
    value, upper := ((a * 16 + b) * 16 + c) * 16 + d, [u0, u1, u2, u3];
    HexTextIs(value, upper, a, b, c, d);
    assert s == [s[0], s[1], s[2], s[3]];
  }

  lemma {:induction false} HexDigitsRead(s: string, count: nat, codepoint: nat)
    requires count <= |s| && codepoint * Pow16(count) + Pow16(count) <= 0x10000 && ParseHex(s, count, codepoint).Ok?
    ensures forall i :: 0 <= i < count ==> HexValue(s[i]) >= 0
    decreases count
  {
    if count > 0 {
      HexFits(codepoint, Pow16(count - 1), HexValue(s[0]));
      HexDigitsRead(s[1..], count - 1, codepoint * 16 + HexValue(s[0]));
      assert forall i :: 0 < i < count ==> s[i] == s[1..][i - 1];
    }
  }

  lemma UnicodeRead(s: string) returns (x: Spelled)
    requires s != "" && s[0] == 'u' && ParseEscape(s).Ok?
    ensures x.Unicode? && Legal(x) && "\\" + s == Spell(x) + ParseEscape(s).rest && ParseEscape(s).value == Means(x)
  {
    PowersOf16();
    HexDigitsRead(s[1..], 4, 0);
    var digits, rest := s[1..5], s[5..];
    var value, upper := HexTextOf(digits);
    x := Unicode(value, upper);
    assert s == "u" + digits + rest;
    hide ParseEscape, HexText, ParseHex;
    EscapeRead(x, rest);
    assert Spell(x)[1..] == "u" + digits;
    assert "\\" + s == Spell(x) + rest;
  }

  lemma StringBegins(s: string, acc: string)
    requires ParseString(s, acc).Ok?
    ensures s != "" && (s[0] == '\\' ==> ParseEscape(s[1..]).Ok?)
    ensures s[0] == '\"' ==> ParseString(s, acc) == Ok(acc, s[1..])
  {
  }

  /** Every string the parser accepts is the spelling of some characters. */
  lemma {:induction false} StringSpelling(s: string, acc: string) returns (xs: seq<Spelled>)
    requires ParseString(s, acc).Ok?
    ensures AllLegal(xs)
    ensures s == SpellAll(xs) + ("\"" + ParseString(s, acc).rest) && ParseString(s, acc).value == acc + MeansAll(xs)
    decreases |s|
  {
    hide Spell, Means, ParseString, ParseEscape;
    StringBegins(s, acc);
    if s[0] == '\"' {
      xs := [];
      assert s == "" + ("\"" + s[1..]) && acc + "" == acc;
    } else {
      var x := FirstSpelled(s);
      var rest := s[|Spell(x)|..];
      assert s == Spell(x) + rest;
      SpelledRead(x, rest, acc);
      var tail := StringSpelling(rest, acc + Means(x));
      xs := [x] + tail;
      assert xs[1..] == tail;
      Associate(Spell(x), SpellAll(tail), "\"" + ParseString(rest, acc + Means(x)).rest);
      Associate(acc, Means(x), MeansAll(tail));
    }
  }

  lemma FirstSpelled(s: string) returns (x: Spelled)
    requires s != "" && s[0] != '\"' && (s[0] == '\\' ==> ParseEscape(s[1..]).Ok?)
    ensures Legal(x) && Spell(x) <= s && Spell(x) != ""
  {
    if s[0] != '\\' {
      x := Raw(s[0]);
    } else if s[1] == 'u' {
      x := UnicodeRead(s[1..]);
      hide Spell, ParseEscape;
      assert "\\" + s[1..] == s;
      assert s == Spell(x) + ParseEscape(s[1..]).rest;
      EscapeRead(x, "");
    } else {
      x := Short(s[1]);
      assert s[..2] == "\\" + [s[1]];
    }
  }
}
