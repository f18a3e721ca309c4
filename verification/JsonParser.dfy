/** The imperative parser and printer, proved equal to the functions of `Json`. */
module JsonParser {
  import opened Decimal
  import opened Json
  import opened Bytes

  /** What a parser method returns: a value, or the exception it throws. */
  datatype Outcome<+T> = Done(value: T) | Failed(message: string, byte: nat) | NotANumber | NotExact

  /** The outcome of a method that left the cursor at `position` is the one `spec` gives. */
  ghost predicate Agrees<T>(r: Outcome<T>, position: nat, text: string, spec: Parsed<T>) {
    match r
    case Done(v) => position <= |text| && spec == Ok(v, text[position..])
    case Failed(message, byte) => byte <= |text| && spec == Fail(message, |text| - byte)
    case NotANumber => spec == NoNumber
    case NotExact => spec == Inexact
  }

  class Parser {
    const text: string
    var position: nat

    constructor (text: string)
      ensures this.text == text && position == 0
    {
      this.text := text;
      position := 0;
    }

    ghost predicate Valid()
      reads this
    {
      position <= |text|
    }

    ghost function Left(): string
      reads this
      requires Valid()
    {
      text[position..]
    }

    method Whitespace()
      requires Valid()
      modifies this
      ensures Valid() && Left() == SkipSpace(old(Left())) && old(position) <= position
    {
      while position < |text| && IsSpace(text[position])
        invariant Valid() && old(position) <= position
        invariant SkipSpace(Left()) == SkipSpace(old(Left()))
        decreases |text| - position
      {
        assert Left()[1..] == text[position + 1..];
        position := position + 1;
      }
    }

    method Consume(value: char) returns (found: bool)
      requires Valid()
      modifies this
      ensures Valid() && old(position) <= position
      ensures found == Starts(SkipSpace(old(Left())), value)
      ensures found ==> old(position) < position && Left() == SkipSpace(old(Left()))[1..]
      ensures !found ==> Left() == SkipSpace(old(Left()))
    {
      Whitespace();
      if position < |text| && text[position] == value {
        assert Left()[1..] == text[position + 1..];
        position := position + 1;
        return true;
      }
      return false;
    }

    method ParseUnicode() returns (r: Outcome<string>)
      requires Valid()
      requires position > 0 && text[position - 1] == 'u'
      modifies this
      ensures Agrees(r, position, text, ParseEscape(text[old(position) - 1..]))
      ensures r.Done? ==> old(position) <= position
    {
      hide ParseEscape, Utf8Of;
      ghost var start := Left();
      assert text[position - 1..][1..] == start;
      UnicodeEscape(text[position - 1..]);
      if position + 4 > |text| { return Failed("incomplete unicode escape", position); }
      var codepoint: nat := 0;
      assert Pow16(0) == 1 && Pow16(1) == 16 && Pow16(2) == 256 && Pow16(3) == 4096 && Pow16(4) == 65536;
      for i := 0 to 4
        invariant Valid() && position == old(position) + i
        invariant codepoint * Pow16(4 - i) + Pow16(4 - i) <= 0x10000
        invariant ParseHex(Left(), 4 - i, codepoint) == ParseHex(start, 4, 0)
      {
        var digit := text[position];
        assert Left()[1..] == text[position + 1..];
        position := position + 1;
        if HexValue(digit) < 0 { return Failed("invalid unicode escape", position); }
        HexFits(codepoint, Pow16(3 - i), HexValue(digit));
        codepoint := codepoint * 16 + HexValue(digit);
      }
      return Done(Utf8Of(codepoint));
    }

    /** `string`, called on an opening quote. */
    method String() returns (r: Outcome<string>)
      requires Valid() && Starts(Left(), '\"')
      modifies this
      ensures Agrees(r, position, text, ParseString(old(Left())[1..], ""))
      ensures r.Done? ==> old(position) < position
    {
      hide ParseEscape;
      position := position + 1;
      var result := "";
      ghost var spec := ParseString(Left(), "");
      assert Left() == old(Left())[1..];
      while position < |text|
        invariant Valid() && old(position) < position
        invariant ParseString(Left(), result) == spec
        decreases |text| - position
      {
        var current := text[position];
        assert Left()[1..] == text[position + 1..];
        position := position + 1;
        if current == '\"' { return Done(result); }
        if current != '\\' {
          result := result + [current];
          continue;
        }
        var escaped := Escaped();
        match escaped {
          case Done(bytes) => result := result + bytes;
          case Failed(m, b) => return Failed(m, b);
          case NotANumber => return NotANumber;
          case NotExact => return NotExact;
        }
      }
      return Failed("unterminated string", position);
    }

    /** The part of `string` behind a backslash. */
    method Escaped() returns (r: Outcome<string>)
      requires Valid()
      modifies this
      ensures Agrees(r, position, text, ParseEscape(old(Left())))
      ensures r.Done? ==> old(position) < position
    {
      hide ParseHex, Utf8Of;
      if position >= |text| { return Failed("incomplete escape", position); }
      var escaped := text[position];
      assert Left()[1..] == text[position + 1..];
      position := position + 1;
      match escaped
      case '\"' => return Done("\"");
      case '\\' => return Done("\\");
      case '/' => return Done("/");
      case 'b' => return Done("\U{8}");
      case 'f' => return Done("\U{c}");
      case 'n' => return Done("\n");
      case 'r' => return Done("\r");
      case 't' => return Done("\t");
      case 'u' => r := ParseUnicode();
      case _ => return Failed("invalid escape", position);
    }

    method SkipDigitRun()
      requires Valid()
      modifies this
      ensures Valid() && old(position) <= position && Left() == SkipDigits(old(Left()))
    {
      while position < |text| && IsDigit(text[position])
        invariant Valid() && old(position) <= position
        invariant SkipDigits(Left()) == SkipDigits(old(Left()))
        decreases |text| - position
      {
        assert Left()[1..] == text[position + 1..];
        position := position + 1;
      }
    }

    method SkipFractionAndExponent()
      requires Valid()
      modifies this
      ensures Valid() && old(position) <= position
      ensures Left() == SkipExponent(SkipFraction(old(Left())))
    {
      hide SkipDigits, SkipExponent;
      if position < |text| && text[position] == '.' {
        assert Left()[1..] == text[position + 1..];
        position := position + 1;
        SkipDigitRun();
      }
      SkipExponentPart();
    }

    method SkipExponentPart()
      requires Valid()
      modifies this
      ensures Valid() && old(position) <= position
      ensures Left() == SkipExponent(old(Left()))
    {
      hide SkipDigits;
      if position < |text| && (text[position] == 'e' || text[position] == 'E') {
        ghost var exponent := Left();
        assert exponent[1..] == text[position + 1..];
        position := position + 1;
        if position < |text| && (text[position] == '+' || text[position] == '-') {
          assert exponent[2..] == text[position + 1..];
          position := position + 1;
        }
        SkipDigitRun();
      }
    }

    method Digits(negative: bool) returns (r: Outcome<Value>)
      requires Valid()
      modifies this
      ensures Agrees(r, position, text, ParseDigits(negative, old(Left())))
      ensures r.Done? ==> old(position) < position
    {
      var start := position;
      SkipDigitRun();
      var stop := position;
      SkippedDigits(old(Left()));
      assert text[start..stop] == old(Left())[..stop - start];
      SkipFractionAndExponent();
      if position != stop { return NotExact; }
      if start == stop { return NotANumber; }
      var magnitude: int := ValueOf(text[start..stop]);
      if magnitude > EXACT { return NotExact; }
      return Done(Num(if negative then -magnitude else magnitude));
    }

    method Number() returns (r: Outcome<Value>)
      requires Valid() && Left() != "" && (Left()[0] == '-' || IsDigit(Left()[0]))
      modifies this
      ensures Agrees(r, position, text, ParseNumber(old(Left())))
      ensures r.Done? ==> old(position) < position
    {
      var negative := text[position] == '-';
      if negative {
        assert Left()[1..] == text[position + 1..];
        position := position + 1;
      }
      r := Digits(negative);
    }

    method Literal(expected: string, value: Value) returns (r: Outcome<Value>)
      requires Valid() && expected != ""
      modifies this
      ensures Agrees(r, position, text, ParseLiteral(old(Left()), expected, value))
      ensures r.Done? ==> old(position) < position
    {
      if !(expected <= text[position..]) { return Failed("invalid literal", position); }
      assert Left()[|expected|..] == text[position + |expected|..];
      position := position + |expected|;
      return Done(value);
    }

    method ReadValue() returns (r: Outcome<Value>)
      requires Valid()
      modifies this
      ensures Agrees(r, position, text, ParseValue(old(Left())))
      ensures r.Done? ==> old(position) < position
      decreases |text| - position, 2
    {
      Whitespace();
      if position >= |text| { return Failed("unexpected end of JSON", position); }
      var current := text[position];
      if current == '{' { r := Object(); return; }
      if current == '[' { r := Array(); return; }
      if current == '\"' {
        var s := String();
        match s
        case Done(bytes) => return Done(Str(bytes));
        case Failed(m, b) => return Failed(m, b);
        case NotANumber => return NotANumber;
        case NotExact => return NotExact;
      }
      if current == 't' { r := Literal("true", Bool(true)); return; }
      if current == 'f' { r := Literal("false", Bool(false)); return; }
      if current == 'n' { r := Literal("null", Null); return; }
      if current == '-' || IsDigit(current) { r := Number(); return; }
      return Failed("unexpected character", position);
    }

    method Array() returns (r: Outcome<Value>)
      requires Valid() && Starts(Left(), '[')
      modifies this
      ensures Agrees(r, position, text,
                var body := SkipSpace(old(Left())[1..]);
                if Starts(body, ']') then Ok(Arr([]), body[1..]) else ParseItems(body, []))
      ensures r.Done? ==> old(position) < position
      decreases |text| - position, 1
    {
      assert Left()[1..] == text[position + 1..];
      position := position + 1;
      var result: seq<Value> := [];
      var closed := Consume(']');
      if closed { return Done(Arr(result)); }
      ghost var spec := ParseItems(Left(), []);
      while true
        invariant Valid() && old(position) < position
        invariant ParseItems(Left(), result) == spec
        decreases |text| - position
      {
        var item := ReadValue();
        match item {
          case Done(v) => result := result + [v];
          case Failed(m, b) => return Failed(m, b);
          case NotANumber => return NotANumber;
          case NotExact => return NotExact;
        }
        ghost var after := Left();
        closed := Consume(']');
        if closed { break; }
        SkipSpaceTwice(after);
        var comma := Consume(',');
        if !comma { return Failed("expected ','", position); }
      }
      return Done(Arr(result));
    }

    method Member() returns (r: Outcome<Entry>)
      requires Valid()
      modifies this
      ensures Agrees(r, position, text, ParseMember(old(Left())))
      ensures r.Done? ==> old(position) < position
      decreases |text| - position, 3
    {
      Whitespace();
      if position >= |text| || text[position] != '\"' { return Failed("expected object key", position); }
      var key := String();
      match key
      case Done(k) =>
        var colon := Consume(':');
        if !colon { return Failed("expected ':'", position); }
        var item := ReadValue();
        match item {
          case Done(v) => return Done(Entry(k, v));
          case Failed(m, b) => return Failed(m, b);
          case NotANumber => return NotANumber;
          case NotExact => return NotExact;
        }
      case Failed(m, b) => return Failed(m, b);
      case NotANumber => return NotANumber;
      case NotExact => return NotExact;
    }

    method Object() returns (r: Outcome<Value>)
      requires Valid() && Starts(Left(), '{')
      modifies this
      ensures Agrees(r, position, text,
                var body := SkipSpace(old(Left())[1..]);
                if Starts(body, '}') then Ok(Obj([]), body[1..]) else ParseMembers(body, []))
      ensures r.Done? ==> old(position) < position
      decreases |text| - position, 1
    {
      assert Left()[1..] == text[position + 1..];
      position := position + 1;
      var result: seq<Entry> := [];
      var closed := Consume('}');
      if closed { return Done(Obj(result)); }
      ghost var spec := ParseMembers(Left(), []);
      while true
        invariant Valid() && old(position) < position
        invariant ParseMembers(Left(), result) == spec
        decreases |text| - position
      {
        var member := Member();
        match member {
          case Done(e) => result := Assign(result, e.key, e.value);
          case Failed(m, b) => return Failed(m, b);
          case NotANumber => return NotANumber;
          case NotExact => return NotExact;
        }
        ghost var after := Left();
        closed := Consume('}');
        if closed { break; }
        SkipSpaceTwice(after);
        var comma := Consume(',');
        if !comma { return Failed("expected ','", position); }
      }
      return Done(Obj(result));
    }
  }

  lemma UnicodeEscape(s: string)
    requires s != "" && s[0] == 'u'
    ensures |s| < 5 ==> ParseEscape(s) == Fail("incomplete unicode escape", |s| - 1)
    ensures |s| >= 5 ==> Pow16(4) <= 0x10000
    ensures |s| >= 5 ==> (match ParseHex(s[1..], 4, 0)
                          case Ok(codepoint, rest) => ParseEscape(s) == Ok(Utf8Of(codepoint), rest)
                          case Fail(message, left) => ParseEscape(s) == Fail(message, left)
                          case NoNumber => ParseEscape(s) == NoNumber
                          case Inexact => ParseEscape(s) == Inexact)
  {
    assert Pow16(4) == 16 * (16 * (16 * (16 * Pow16(0))));
    hide Utf8Of, ParseHex;
  }

  lemma SkipSpaceTwice(s: string)
    ensures SkipSpace(SkipSpace(s)) == SkipSpace(s)
  {
  }

  /** `json::parse` */
  method ParseText(text: string) returns (r: Outcome<Value>)
    ensures match r
            case Done(v) => Parse(text) == Ok(v, "")
            case Failed(message, byte) => byte <= |text| && Parse(text) == Fail(message, |text| - byte)
            case NotANumber => Parse(text) == NoNumber
            case NotExact => Parse(text) == Inexact
  {
    var parser := new Parser(text);
    assert parser.Left() == text;
    r := parser.ReadValue();
    if r.Done? {
      parser.Whitespace();
      if parser.position != |text| { r := Failed("trailing JSON content", parser.position); }
    }
  }

  // ---------------------------------------------------------------- printer

  lemma EscapeCons(s: string)
    requires s != ""
    ensures Escape(s) == EscapeChar(s[0]) + Escape(s[1..])
  {
  }

  lemma EscapeNil()
    ensures Escape("") == ""
  {
  }

  lemma {:induction false} EscapeSnoc(s: string, i: nat)
    requires i < |s|
    ensures Escape(s[..i + 1]) == Escape(s[..i]) + EscapeChar(s[i])
  {
    hide Escape, EscapeChar;
    EscapeCons(s[..i + 1]);
    if i > 0 {
      EscapeCons(s[..i]);
      EscapeSnoc(s[1..], i - 1);
      assert s[..i + 1][1..] == s[1..][..i] && s[..i][1..] == s[1..][..i - 1];
    } else {
      EscapeNil();
      assert s[..1][1..] == "" && s[..0] == "";
    }
  }

  /** `quote` by `appendEscaped` */
  method QuoteText(value: string) returns (result: string)
    ensures result == Quote(value)
  {
    var body := "";
    for i := 0 to |value|
      invariant body == Escape(value[..i])
    {
      EscapeSnoc(value, i);
      body := body + EscapeChar(value[i]);
    }
    assert value[..|value|] == value;
    result := "\"" + (body + "\"");
  }

  /** Items printed so far, with the comma that precedes every item but the first. */
  lemma ItemsCons(items: seq<Value>)
    requires |items| > 1
    ensures ItemsText(items) == Stringify(items[0]) + ("," + ItemsText(items[1..]))
  {
  }

  lemma ItemsSingle(items: seq<Value>)
    requires |items| <= 1
    ensures ItemsText(items) == if |items| == 0 then "" else Stringify(items[0])
  {
  }

  lemma {:induction false} ItemsSnoc(items: seq<Value>, i: nat)
    requires i < |items|
    ensures ItemsText(items[..i + 1]) == ItemsText(items[..i]) + (if i == 0 then "" else ",") + Stringify(items[i])
  {
    hide ItemsText, Stringify;
    if i == 0 {
      ItemsSingle(items[..0]);
      ItemsSingle(items[..1]);
    } else {
      ItemsSnoc(items[1..], i - 1);
      assert items[..i + 1][1..] == items[1..][..i] && items[..i][1..] == items[1..][..i - 1];
      ItemsCons(items[..i + 1]);
      if i == 1 { ItemsSingle(items[..i]); ItemsSingle(items[1..][..0]); } else { ItemsCons(items[..i]); }
    }
  }

  lemma MembersCons(entries: seq<Entry>)
    requires |entries| > 1
    ensures MembersText(entries) == MemberText(entries[0]) + ("," + MembersText(entries[1..]))
  {
  }

  lemma MembersSingle(entries: seq<Entry>)
    requires |entries| <= 1
    ensures MembersText(entries) == if |entries| == 0 then "" else MemberText(entries[0])
  {
  }

  lemma {:induction false} MembersSnoc(entries: seq<Entry>, i: nat)
    requires i < |entries|
    ensures MembersText(entries[..i + 1]) == MembersText(entries[..i]) + (if i == 0 then "" else ",") + MemberText(entries[i])
  {
    hide MembersText, MemberText;
    if i == 0 {
      MembersSingle(entries[..0]);
      MembersSingle(entries[..1]);
    } else {
      MembersSnoc(entries[1..], i - 1);
      assert entries[..i + 1][1..] == entries[1..][..i] && entries[..i][1..] == entries[1..][..i - 1];
      MembersCons(entries[..i + 1]);
      if i == 1 { MembersSingle(entries[..i]); MembersSingle(entries[1..][..0]); } else { MembersCons(entries[..i]); }
    }
  }

  /** `stringify` */
  method Print(v: Value) returns (result: string)
    ensures result == Stringify(v)
    decreases v, 1
  {
    match v
    case Null => result := "null";
    case Bool(b) => result := if b then "true" else "false";
    case Num(n) => result := NumberText(n);
    case Str(s) => result := QuoteText(s);
    case Arr(items) => result := PrintItems(items);
    case Obj(entries) => result := PrintMembers(entries);
  }

  method PrintItems(items: seq<Value>) returns (result: string)
    ensures result == "[" + (ItemsText(items) + "]")
    decreases items, 0
  {
    var body := "";
    for i := 0 to |items|
      invariant body == ItemsText(items[..i])
    {
      ItemsSnoc(items, i);
      if i != 0 { body := body + ","; }
      var item := Print(items[i]);
      body := body + item;
    }
    assert items[..|items|] == items;
    result := "[" + (body + "]");
  }

  method PrintMembers(entries: seq<Entry>) returns (result: string)
    ensures result == "{" + (MembersText(entries) + "}")
    decreases entries, 0
  {
    var body := "";
    for i := 0 to |entries|
      invariant body == MembersText(entries[..i])
    {
      MembersSnoc(entries, i);
      if i != 0 { body := body + ","; }
      var key := QuoteText(entries[i].key);
      var item := Print(entries[i].value);
      var member := key + (":" + item);
      assert member == MemberText(entries[i]);
      body := body + member;
    }
    assert entries[..|entries|] == entries;
    result := "{" + (body + "}");
  }
}
