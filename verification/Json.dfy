/** JSON values, the printer and the recursive-descent parser (grammar of RFC 8259 as the
    code reads it). A byte string is a `string`, one character per byte. Numbers are the
    integers a double holds exactly, between -2^53 and 2^53. */
module Json {
  import opened Decimal
  import Lex
  import opened Bytes

  datatype Entry = Entry(key: string, value: Value)

  datatype Value =
    | Null
    | Bool(b: bool)
    | Num(n: int)
    | Str(s: string)
    | Arr(items: seq<Value>)
    | Obj(entries: seq<Entry>)

  const EXACT := 9007199254740992

  /** Entries as `std::map` keeps them: strictly increasing keys. */
  ghost predicate Sorted(entries: seq<Entry>) {
    forall i, j :: 0 <= i < j < |entries| ==> Lex.Less(entries[i].key, entries[j].key)
  }

  ghost predicate WellFormed(v: Value) {
    match v
    case Num(n) => -EXACT <= n <= EXACT
    case Arr(items) => forall i :: 0 <= i < |items| ==> WellFormed(items[i])
    case Obj(entries) => Sorted(entries) && forall i :: 0 <= i < |entries| ==> WellFormed(entries[i].value)
    case _ => true
  }

  /** `map[key] = value` */
  function Assign(entries: seq<Entry>, key: string, value: Value): (r: seq<Entry>)
    ensures r != []
  {
    if entries == [] then [Entry(key, value)]
    else if key == entries[0].key then [Entry(key, value)] + entries[1..]
    else if Lex.Less(key, entries[0].key) then [Entry(key, value)] + entries
    else [entries[0]] + Assign(entries[1..], key, value)
  }

  // ---------------------------------------------------------------- printer

  function EscapeChar(c: char): string {
    if c == '\"' then "\\\""
    else if c == '\\' then "\\\\"
    else if c == '\U{8}' then "\\b"
    else if c == '\U{c}' then "\\f"
    else if c == '\n' then "\\n"
    else if c == '\r' then "\\r"
    else if c == '\t' then "\\t"
    else if c < ' ' then "\\u00" + ["0123456789abcdef"[c as int / 16], "0123456789abcdef"[c as int % 16]]
    else [c]
  }

  function Escape(s: string): string {
    if s == "" then "" else EscapeChar(s[0]) + Escape(s[1..])
  }

  function Quote(s: string): string {
    "\"" + (Escape(s) + "\"")
  }

  function NumberText(n: int): string {
    if n < 0 then "-" + ToText(-n) else ToText(n)
  }

  function Stringify(v: Value): string
    decreases v, 1
  {
    match v
    case Null => "null"
    case Bool(b) => if b then "true" else "false"
    case Num(n) => NumberText(n)
    case Str(s) => Quote(s)
    case Arr(items) => "[" + (ItemsText(items) + "]")
    case Obj(entries) => "{" + (MembersText(entries) + "}")
  }

  function ItemsText(items: seq<Value>): string
    decreases items, 0
  {
    if items == [] then ""
    else if |items| == 1 then Stringify(items[0])
    else Stringify(items[0]) + ("," + ItemsText(items[1..]))
  }

  function MemberText(e: Entry): string
    decreases e, 2
  {
    Quote(e.key) + (":" + Stringify(e.value))
  }

  function MembersText(entries: seq<Entry>): string
    decreases entries, 0
  {
    if entries == [] then ""
    else if |entries| == 1 then MemberText(entries[0])
    else MemberText(entries[0]) + ("," + MembersText(entries[1..]))
  }

  // ---------------------------------------------------------------- parser

  /** Outcome of a parsing function on the remaining text: the value and what is left, a
      failure with the number of bytes left, or a number outside the modelled range. */
  datatype Parsed<+T> = Ok(value: T, rest: string) | Fail(message: string, left: nat) | NoNumber | Inexact

  function SkipSpace(s: string): (r: string)
    ensures |r| <= |s| && (r == "" || !IsSpace(r[0]))
  {
    if s != "" && IsSpace(s[0]) then SkipSpace(s[1..]) else s
  }

  predicate Starts(s: string, c: char) {
    s != "" && s[0] == c
  }

  function HexValue(c: char): int {
    if '0' <= c <= '9' then c as int - '0' as int
    else if 'a' <= c <= 'f' then c as int - 'a' as int + 10
    else if 'A' <= c <= 'F' then c as int - 'A' as int + 10
    else -1
  }

  lemma HexFits(codepoint: nat, unit: nat, digit: nat)
    requires codepoint * (16 * unit) + 16 * unit <= 0x10000 && digit < 16
    ensures (codepoint * 16 + digit) * unit + unit <= 0x10000
  {
    assert (codepoint * 16 + digit) * unit + unit == codepoint * (16 * unit) + (digit + 1) * unit;
    assert (digit + 1) * unit <= 16 * unit;
  }

  /** Four hexadecimal digits, most significant first, on top of what was read so far. */
  function ParseHex(s: string, count: nat, codepoint: nat): (r: Parsed<nat>)
    requires count <= |s|
    requires codepoint * Pow16(count) + Pow16(count) <= 0x10000
    ensures r.Ok? ==> |r.rest| == |s| - count && r.value < 0x10000
  {
    if count == 0 then Ok(codepoint, s)
    else if HexValue(s[0]) < 0 then Fail("invalid unicode escape", |s| - 1)
    else
      HexFits(codepoint, Pow16(count - 1), HexValue(s[0]));
      ParseHex(s[1..], count - 1, codepoint * 16 + HexValue(s[0]))
  }

  function Pow16(n: nat): nat {
    if n == 0 then 1 else 16 * Pow16(n - 1)
  }

  /** One, two or three UTF-8 bytes. */
  function Utf8Of(codepoint: nat): string
    requires codepoint < 0x10000
  {
    if codepoint <= 0x7f then [codepoint as char]
    else if codepoint <= 0x7ff then [(0xc0 + codepoint / 64) as char, (0x80 + codepoint % 64) as char]
    else [(0xe0 + codepoint / 4096) as char, (0x80 + codepoint / 64 % 64) as char, (0x80 + codepoint % 64) as char]
  }

  /** The escape after a backslash: the bytes it stands for. */
  function ParseEscape(s: string): (r: Parsed<string>)
    ensures r.Ok? ==> |r.rest| < |s|
  {
    if s == "" then Fail("incomplete escape", 0)
    else
      var t := s[1..];
      match s[0]
      case '\"' => Ok("\"", t)
      case '\\' => Ok("\\", t)
      case '/' => Ok("/", t)
      case 'b' => Ok("\U{8}", t)
      case 'f' => Ok("\U{c}", t)
      case 'n' => Ok("\n", t)
      case 'r' => Ok("\r", t)
      case 't' => Ok("\t", t)
      case 'u' =>
        if |t| < 4 then Fail("incomplete unicode escape", |t|)
        else
          assert Pow16(4) == 16 * (16 * (16 * (16 * Pow16(0))));
          (match ParseHex(t, 4, 0)
           case Ok(codepoint, rest) => Ok(Utf8Of(codepoint), rest)
           case Fail(message, left) => Fail(message, left)
           case NoNumber => NoNumber
           case Inexact => Inexact)
      case _ => Fail("invalid escape", |t|)
  }

  /** The rest of a string literal after its opening quote. */
  function ParseString(s: string, acc: string): (r: Parsed<string>)
    ensures r.Ok? ==> |r.rest| < |s|
    decreases |s|
  {
    if s == "" then Fail("unterminated string", 0)
    else if s[0] == '\"' then Ok(acc, s[1..])
    else if s[0] != '\\' then ParseString(s[1..], acc + [s[0]])
    else
      match ParseEscape(s[1..])
      case Ok(bytes, rest) => ParseString(rest, acc + bytes)
      case Fail(message, left) => Fail(message, left)
      case NoNumber => NoNumber
      case Inexact => Inexact
  }

  function SkipDigits(s: string): (r: string)
    ensures |r| <= |s|
  {
    if s != "" && IsDigit(s[0]) then SkipDigits(s[1..]) else s
  }

  function SkipFraction(s: string): (r: string)
    ensures |r| <= |s|
  {
    if Starts(s, '.') then SkipDigits(s[1..]) else s
  }

  function SkipExponent(s: string): (r: string)
    ensures |r| <= |s|
  {
    if Starts(s, 'e') || Starts(s, 'E') then
      SkipDigits(if Starts(s[1..], '+') || Starts(s[1..], '-') then s[2..] else s[1..])
    else s
  }

  lemma {:induction false} SkippedDigits(s: string)
    ensures AllDigits(s[..|s| - |SkipDigits(s)|])
    ensures s == s[..|s| - |SkipDigits(s)|] + SkipDigits(s)
    ensures SkipDigits(s) == "" || !IsDigit(SkipDigits(s)[0])
  {
    if s != "" && IsDigit(s[0]) {
      SkippedDigits(s[1..]);
      assert s[..|s| - |SkipDigits(s)|] == [s[0]] + s[1..][..|s| - 1 - |SkipDigits(s)|];
    }
  }

  /** `stod` on a sign and digits. A sign without digits is refused by `stod` itself, which
      names no byte; a value beyond 2^53 is outside the model. */
  function NumberOf(negative: bool, digits: string, rest: string): (r: Parsed<Value>)
    requires AllDigits(digits)
    ensures r.Ok? ==> r.rest == rest && digits != ""
  {
    var magnitude: int := ValueOf(digits);
    if digits == "" then NoNumber
    else if magnitude > EXACT then Inexact
    else Ok(Num(if negative then -magnitude else magnitude), rest)
  }

  /** The digits of a number; a fraction or an exponent puts it outside the model. */
  function ParseDigits(negative: bool, t: string): (r: Parsed<Value>)
    ensures r.Ok? ==> |r.rest| < |t|
  {
    var u := SkipDigits(t);
    SkippedDigits(t);
    if SkipExponent(SkipFraction(u)) != u then Inexact
    else NumberOf(negative, t[..|t| - |u|], u)
  }

  function ParseNumber(s: string): (r: Parsed<Value>)
    requires s != "" && (s[0] == '-' || IsDigit(s[0]))
    ensures r.Ok? ==> |r.rest| < |s|
  {
    if s[0] == '-' then ParseDigits(true, s[1..]) else ParseDigits(false, s)
  }

  function ParseLiteral(s: string, expected: string, v: Value): (r: Parsed<Value>)
    requires expected != ""
    ensures r.Ok? ==> |r.rest| < |s|
  {
    if expected <= s then Ok(v, s[|expected|..]) else Fail("invalid literal", |s|)
  }

  function ParseValue(s: string): (r: Parsed<Value>)
    ensures r.Ok? ==> |r.rest| < |s|
    decreases |s|, 0
  {
    var t := SkipSpace(s);
    if t == "" then Fail("unexpected end of JSON", 0)
    else if t[0] == '{' then
      if Starts(SkipSpace(t[1..]), '}') then Ok(Obj([]), SkipSpace(t[1..])[1..])
      else ParseMembers(SkipSpace(t[1..]), [])
    else if t[0] == '[' then
      if Starts(SkipSpace(t[1..]), ']') then Ok(Arr([]), SkipSpace(t[1..])[1..])
      else ParseItems(SkipSpace(t[1..]), [])
    else if t[0] == '\"' then
      match ParseString(t[1..], "")
      case Ok(bytes, rest) => Ok(Str(bytes), rest)
      case Fail(message, left) => Fail(message, left)
      case NoNumber => NoNumber
      case Inexact => Inexact
    else if t[0] == 't' then ParseLiteral(t, "true", Bool(true))
    else if t[0] == 'f' then ParseLiteral(t, "false", Bool(false))
    else if t[0] == 'n' then ParseLiteral(t, "null", Null)
    else if t[0] == '-' || IsDigit(t[0]) then ParseNumber(t)
    else Fail("unexpected character", |t|)
  }

  /** The loop of `array`, with the items read so far. */
  function ParseItems(s: string, acc: seq<Value>): (r: Parsed<Value>)
    ensures r.Ok? ==> |r.rest| < |s|
    decreases |s|, 1
  {
    match ParseValue(s)
    case Ok(v, rest) =>
      var t := SkipSpace(rest);
      if Starts(t, ']') then Ok(Arr(acc + [v]), t[1..])
      else if Starts(t, ',') then ParseItems(t[1..], acc + [v])
      else Fail("expected ','", |t|)
    case Fail(message, left) => Fail(message, left)
    case NoNumber => NoNumber
    case Inexact => Inexact
  }

  /** One `"key": value` of the loop of `object`. */
  function ParseMember(s: string): (r: Parsed<Entry>)
    ensures r.Ok? ==> |r.rest| < |s|
    decreases |s|, 1
  {
    var k := SkipSpace(s);
    if !Starts(k, '\"') then Fail("expected object key", |k|)
    else
      match ParseString(k[1..], "")
      case Ok(key, rest) =>
        var c := SkipSpace(rest);
        if !Starts(c, ':') then Fail("expected ':'", |c|)
        else
          (match ParseValue(c[1..])
           case Ok(v, after) => Ok(Entry(key, v), after)
           case Fail(message, left) => Fail(message, left)
           case NoNumber => NoNumber
           case Inexact => Inexact)
      case Fail(message, left) => Fail(message, left)
      case NoNumber => NoNumber
      case Inexact => Inexact
  }

  /** The loop of `object`, with the entries read so far. */
  function ParseMembers(s: string, acc: seq<Entry>): (r: Parsed<Value>)
    ensures r.Ok? ==> |r.rest| < |s|
    decreases |s|, 2
  {
    match ParseMember(s)
    case Ok(e, rest) =>
      var t := SkipSpace(rest);
      if Starts(t, '}') then Ok(Obj(Assign(acc, e.key, e.value)), t[1..])
      else if Starts(t, ',') then ParseMembers(t[1..], Assign(acc, e.key, e.value))
      else Fail("expected ','", |t|)
    case Fail(message, left) => Fail(message, left)
    case NoNumber => NoNumber
    case Inexact => Inexact
  }

  /** `json::parse`: one value and nothing but whitespace after it. */
  function Parse(s: string): Parsed<Value> {
    match ParseValue(s)
    case Ok(v, rest) =>
      if SkipSpace(rest) == "" then Ok(v, "") else Fail("trailing JSON content", |SkipSpace(rest)|)
    case Fail(message, left) => Fail(message, left)
    case NoNumber => NoNumber
    case Inexact => Inexact
  }
}
