/** What a message of the parser says about the text from the byte it names, and the failures
    inside string literals. */
module JsonStringFailures {
  import opened Decimal
  import opened Bytes
  import opened Json
  import opened JsonStrings
  import opened JsonGrammar

  /** These two are reported behind the byte that is wrong, all others at it. */
  predicate Behind(message: string) {
    message == "invalid escape" || message == "invalid unicode escape"
  }

  predicate BeginsValue(c: char) {
    c in "{[\"tfn-" || IsDigit(c)
  }

  function WordOf(c: char): string {
    if c == 't' then "true" else if c == 'f' then "false" else "null"
  }

  /** What is wrong with the text from there on, by message. */
  predicate Offends(message: string, rest: string) {
    var ended := rest == "";
    if message == "unexpected end of JSON" || message == "unterminated string" || message == "incomplete escape" then ended
    else if message == "incomplete unicode escape" then |rest| < 4
    else if message == "invalid literal" then !ended && rest[0] in "tfn" && !(WordOf(rest[0]) <= rest)
    else if message == "unexpected character" then !ended && !IsSpace(rest[0]) && !BeginsValue(rest[0])
    else if message == "invalid escape" then !ended && rest[0] !in "\"\\/bfnrtu"
    else if message == "invalid unicode escape" then !ended && HexValue(rest[0]) < 0
    else if message == "expected ','" then ended || (!IsSpace(rest[0]) && rest[0] != ',')
    else if message == "expected ':'" then ended || (!IsSpace(rest[0]) && rest[0] != ':')
    else if message == "expected object key" then ended || (!IsSpace(rest[0]) && rest[0] != '\"')
    else message == "trailing JSON content" && !ended && !IsSpace(rest[0])
  }

  /** One wrong byte is enough, whatever follows. */
  predicate Sharp(message: string, rest: string) {
    rest != "" && message != "invalid literal" && message != "incomplete unicode escape"
  }

  /** The failure is about `rest`. */
  predicate About<T>(r: Parsed<T>, rest: string) {
    r.Fail? && Offends(r.message, rest) && |rest| == r.left + (if Behind(r.message) then 1 else 0)
  }

  // ---------------------------------------------------------------- escapes

  ghost predicate EscapeEnds(s: string, r: string) {
    ParseEscape(s).Ok? && ParseEscape(s).rest == r
  }

  lemma {:induction false} HexFailure(s: string, count: nat, codepoint: nat) returns (p: string, rest: string)
    requires count <= |s| && codepoint * Pow16(count) + Pow16(count) <= 0x10000 && !ParseHex(s, count, codepoint).Ok?
    ensures s == p + rest && |p| < count && rest != "" && HexValue(rest[0]) < 0
    ensures forall i :: 0 <= i < |p| ==> HexValue(p[i]) >= 0
    ensures ParseHex(s, count, codepoint) == Fail("invalid unicode escape", |rest| - 1)
    decreases count
  {
    if HexValue(s[0]) < 0 {
      p, rest := "", s;
      EmptyPrefix(s);
    } else {
      HexFits(codepoint, Pow16(count - 1), HexValue(s[0]));
      p, rest := HexFailure(s[1..], count - 1, codepoint * 16 + HexValue(s[0]));
      SplitFirstChar(s);
      Associate([s[0]], p, rest);
      p := [s[0]] + p;
    }
  }

  lemma {:induction false} HexAccepted(s: string, count: nat, codepoint: nat)
    requires count <= |s| && codepoint * Pow16(count) + Pow16(count) <= 0x10000
    ensures (forall i :: 0 <= i < count ==> HexValue(s[i]) >= 0) <==> ParseHex(s, count, codepoint).Ok?
    ensures ParseHex(s, count, codepoint).Ok? ==> ParseHex(s, count, codepoint).rest == s[count..]
    ensures !ParseHex(s, count, codepoint).Ok? ==> ParseHex(s, count, codepoint).Fail?
    decreases count
  {
    if count > 0 && HexValue(s[0]) >= 0 {
      HexFits(codepoint, Pow16(count - 1), HexValue(s[0]));
      HexAccepted(s[1..], count - 1, codepoint * 16 + HexValue(s[0]));
      assert forall i :: 0 < i < count ==> s[i] == s[1..][i - 1];
      assert s[1..][count - 1..] == s[count..];
    }
  }

  /** The escape of a code unit is read exactly when four hexadecimal digits follow. */
  lemma CodeUnitAccepted(t: string)
    ensures |t| >= 4 && (forall i :: 0 <= i < 4 ==> HexValue(t[i]) >= 0) ==> EscapeEnds("u" + t, t[4..])
    ensures |t| < 4 || (exists i :: 0 <= i < 4 && HexValue(t[i]) < 0) ==> ParseEscape("u" + t).Fail?
  {
    assert ("u" + t)[1..] == t;
    PowersOf16();
    if |t| >= 4 { HexAccepted(t, 4, 0); }
    hide Pow16, ParseHex, Utf8Of;
  }

  lemma CodeUnitFailure(t: string) returns (p: string, rest: string, w: string)
    requires ParseEscape("u" + t).Fail?
    ensures t == p + rest && About(ParseEscape("u" + t), rest)
    ensures forall r :: EscapeEnds("u" + (p + (w + r)), r)
    ensures Sharp(ParseEscape("u" + t).message, rest) ==> forall x :: ParseEscape("u" + (p + ([rest[0]] + x))).Fail?
  {
    assert ("u" + t)[1..] == t;
    if |t| < 4 {
      p, rest, w := "", t, "0000";
      EmptyPrefix(t);
    } else {
      PowersOf16();
      p, rest := HexFailure(t, 4, 0);
      w := "0000"[|p|..];
    }
    hide ParseEscape;
    forall r ensures EscapeEnds("u" + (p + (w + r)), r) {
      var y := p + (w + r);
      assert forall i :: 0 <= i < 4 ==> y[i] == if i < |p| then p[i] else '0';
      CodeUnitAccepted(y);
      assert y[4..] == r;
    }
    if |t| >= 4 {
      forall x ensures ParseEscape("u" + (p + ([rest[0]] + x))).Fail? {
        var y := p + ([rest[0]] + x);
        assert y[|p|] == rest[0];
        CodeUnitAccepted(y);
      }
    }
  }

  lemma OtherEscape(s: string)
    requires s == "" || s[0] != 'u'
    ensures s == "" ==> ParseEscape(s) == Fail("incomplete escape", 0)
    ensures s != "" && s[0] in "\"\\/bfnrt" ==> EscapeEnds(s, s[1..])
    ensures s != "" && s[0] !in "\"\\/bfnrt" ==> ParseEscape(s) == Fail("invalid escape", |s| - 1)
  {
  }

  lemma EscapeFailure(s: string) returns (p: string, rest: string, w: string)
    requires ParseEscape(s).Fail?
    ensures s == p + rest && About(ParseEscape(s), rest)
    ensures forall r :: EscapeEnds(p + (w + r), r)
    ensures Sharp(ParseEscape(s).message, rest) ==> forall x :: ParseEscape(p + ([rest[0]] + x)).Fail?
  {
    hide ParseEscape;
    if s != "" && s[0] == 'u' {
      SplitFirstChar(s);
      p, rest, w := CodeUnitFailure(s[1..]);
      Associate("u", p, rest);
      forall r ensures EscapeEnds("u" + p + (w + r), r) { Associate("u", p, w + r); }
      forall x | rest != "" ensures "u" + p + ([rest[0]] + x) == "u" + (p + ([rest[0]] + x)) { Associate("u", p, [rest[0]] + x); }
      p := "u" + p;
    } else {
      OtherEscape(s);
      p, rest, w := "", s, "n";
      EmptyPrefix(s);
      forall r ensures EscapeEnds(p + (w + r), r) {
        EmptyPrefix(w + r);
        OtherEscape(w + r);
        assert (w + r)[1..] == r;
      }
      forall x | s != "" ensures ParseEscape(p + ([s[0]] + x)).Fail? {
        EmptyPrefix([s[0]] + x);
        OtherEscape([s[0]] + x);
      }
    }
  }

  // ---------------------------------------------------------------- strings

  ghost predicate StringEnds(s: string, acc: string, r: string) {
    ParseString(s, acc).Ok? && ParseString(s, acc).rest == r
  }

  lemma StringStep(s: string, acc: string)
    ensures s == "" ==> ParseString(s, acc) == Fail("unterminated string", 0)
    ensures s != "" && s[0] == '\"' ==> ParseString(s, acc) == Ok(acc, s[1..])
    ensures s != "" && s[0] == '\\' && ParseEscape(s[1..]).Ok? ==>
      ParseString(s, acc) == ParseString(ParseEscape(s[1..]).rest, acc + ParseEscape(s[1..]).value)
    ensures s != "" && s[0] == '\\' && ParseEscape(s[1..]).Fail? ==>
      ParseString(s, acc) == Fail(ParseEscape(s[1..]).message, ParseEscape(s[1..]).left)
    ensures s != "" && s[0] == '\\' ==> ParseEscape(s[1..]).Ok? || ParseEscape(s[1..]).Fail?
  {
    EscapeOutcome(if s == "" then "" else s[1..]);
    hide ParseEscape;
  }

  lemma EscapeOutcome(s: string)
    ensures ParseEscape(s).Ok? || ParseEscape(s).Fail?
  {
    PowersOf16();
    if |s| >= 5 { HexAccepted(s[1..], 4, 0); }
    hide ParseHex, Pow16, Utf8Of;
  }

  lemma QuoteEnds(acc: string, r: string)
    ensures StringEnds("\"" + r, acc, r)
  {
    StringStep("\"" + r, acc);
    assert ("\"" + r)[1..] == r;
  }

  lemma BackslashStep(t: string, acc: string, r: string)
    ensures EscapeEnds(t, "\"" + r) ==> StringEnds("\\" + t, acc, r)
    ensures ParseEscape(t).Fail? ==> ParseString("\\" + t, acc) == Fail(ParseEscape(t).message, ParseEscape(t).left)
  {
    hide ParseString, ParseEscape;
    assert ("\\" + t)[1..] == t;
    StringStep("\\" + t, acc);
    if EscapeEnds(t, "\"" + r) { QuoteEnds(acc + ParseEscape(t).value, r); }
  }

  lemma {:induction false} StringFailure(s: string, acc: string) returns (p: string, rest: string, w: string)
    requires ParseString(s, acc).Fail?
    ensures s == p + rest && About(ParseString(s, acc), rest)
    ensures forall r :: StringEnds(p + (w + r), acc, r)
    ensures Sharp(ParseString(s, acc).message, rest) ==> forall x :: ParseString(p + ([rest[0]] + x), acc).Fail?
    decreases |s|
  {
    hide *;
    StringStep(s, acc);
    if s == "" {
      p, rest, w := "", "", "\"";
      EndOffends();
      forall r ensures StringEnds(p + (w + r), acc, r) {
        EmptyPrefix(w + r);
        QuoteEnds(acc, r);
      }
    } else if s[0] == '\\' && ParseEscape(s[1..]).Fail? {
      p, rest, w := StringFailureAtEscape(s, acc);
    } else {
      p, rest, w := StringFailureBehind(s, acc);
    }
  }

  lemma EndOffends()
    ensures About<string>(Fail("unterminated string", 0), "") && !Sharp("unterminated string", "") && "" == "" + ""
  {
  }

  lemma StringFailureAtEscape(s: string, acc: string) returns (p: string, rest: string, w: string)
    requires s != "" && s[0] == '\\' && ParseEscape(s[1..]).Fail?
    ensures s == p + rest && About(ParseString(s, acc), rest)
    ensures forall r :: StringEnds(p + (w + r), acc, r)
    ensures Sharp(ParseString(s, acc).message, rest) ==> forall x :: ParseString(p + ([rest[0]] + x), acc).Fail?
  {
    StringStep(s, acc);
    hide ParseString, ParseEscape, EscapeEnds, StringEnds, Offends;
    SplitFirstChar(s);
    var q, v;
    q, rest, v := EscapeFailure(s[1..]);
    p, w := "\\" + q, v + "\"";
    Associate("\\", q, rest);
    forall r ensures StringEnds(p + (w + r), acc, r) {
      Associate(v, "\"", r);
      Associate("\\", q, v + ("\"" + r));
      assert EscapeEnds(q + (v + ("\"" + r)), "\"" + r);
      BackslashStep(q + (v + ("\"" + r)), acc, r);
    }
    if Sharp(ParseString(s, acc).message, rest) {
      forall x ensures ParseString(p + ([rest[0]] + x), acc).Fail? {
        Associate("\\", q, [rest[0]] + x);
        BackslashStep(q + ([rest[0]] + x), acc, "");
      }
    }
  }

  lemma {:induction false} StringFailureBehind(s: string, acc: string) returns (p: string, rest: string, w: string)
    requires s != "" && ParseString(s, acc).Fail? && (s[0] == '\\' ==> ParseEscape(s[1..]).Ok?)
    ensures s == p + rest && About(ParseString(s, acc), rest)
    ensures forall r :: StringEnds(p + (w + r), acc, r)
    ensures Sharp(ParseString(s, acc).message, rest) ==> forall x :: ParseString(p + ([rest[0]] + x), acc).Fail?
    decreases |s|, 0
  {
    StringStep(s, acc);
    hide *;
    var c := FirstSpelled(s);
    var h, tail := Spell(c), s[|Spell(c)|..];
    CutPrefix(s, h);
    SpelledRead(c, tail, acc);
    var q;
    q, rest, w := StringFailure(tail, acc + Means(c));
    p := h + q;
    Associate(h, q, rest);
    forall r ensures StringEnds(p + (w + r), acc, r) {
      Associate(h, q, w + r);
      SpelledRead(c, q + (w + r), acc);
      StringEndsSame(h + (q + (w + r)), acc, q + (w + r), acc + Means(c), r);
    }
    if Sharp(ParseString(s, acc).message, rest) {
      SharpRest(ParseString(s, acc).message, rest);
      forall x ensures ParseString(p + ([rest[0]] + x), acc).Fail? {
        Associate(h, q, [rest[0]] + x);
        SpelledRead(c, q + ([rest[0]] + x), acc);
      }
    }
  }

  lemma SharpRest(message: string, rest: string)
    requires Sharp(message, rest)
    ensures rest != ""
  {
  }

  lemma StringEndsSame(s: string, a: string, t: string, b: string, r: string)
    requires ParseString(s, a) == ParseString(t, b) && StringEnds(t, b, r)
    ensures StringEnds(s, a, r)
  {
  }

  lemma CutPrefix(s: string, h: string)
    requires h <= s && h != ""
    ensures s == h + s[|h|..] && |s[|h|..]| < |s|
  {
  }
}
