/** Where the parser says a text goes wrong: what stands before the named byte can still be
    completed to a document, and with what stands there no continuation can. */
module JsonFailures {
  import opened Decimal
  import opened Bytes
  import opened Json
  import opened JsonRoundTrip
  import opened JsonStrings
  import opened JsonGrammar
  import opened JsonStringFailures

  // ---------------------------------------------------------------- what was read stays read

  /** The remainder may be replaced: by text that continues no number, or begins alike. */
  predicate Compatible(rest: string, other: string) {
    !Continues(other) || (rest != "" && other != "" && rest[0] == other[0])
  }

  lemma ValueStays(s: string) returns (head: string)
    requires ParseValue(s).Ok?
    ensures s == head + ParseValue(s).rest && SkipSpace(head) != ""
    ensures forall y :: Compatible(ParseValue(s).rest, y) ==> ParseValue(head + y) == Ok(ParseValue(s).value, y)
  {
    hide *;
    var before, d := DocSpelling(s);
    DocStarts(d);
    head := before + DocText(d);
    Associate(before, DocText(d), ParseValue(s).rest);
    SkipBlankBefore(before, DocText(d));
    forall y | Compatible(ParseValue(s).rest, y) ensures ParseValue(head + y) == Ok(ParseValue(s).value, y) {
      if d.NumberDoc? { CompatibleContinues(ParseValue(s).rest, y); }
      DocRead(d, y);
      Associate(before, DocText(d), y);
      BeginsConcat(DocText(d), y);
      SkipBlankBefore(before, DocText(d) + y);
      ValueSkips(head + y);
    }
  }

  lemma BeginsConcat(s: string, y: string)
    requires s != ""
    ensures s + y != "" && (s + y)[0] == s[0]
  {
  }

  lemma CompatibleContinues(rest: string, other: string)
    requires Compatible(rest, other) && !Continues(rest)
    ensures !Continues(other)
  {
  }

  lemma StringStays(s: string) returns (head: string)
    requires ParseString(s, "").Ok?
    ensures s == head + ParseString(s, "").rest
    ensures forall y :: ParseString(head + y, "") == Ok(ParseString(s, "").value, y)
  {
    hide *;
    var xs := StringSpelling(s, "");
    head := SpellAll(xs) + "\"";
    Associate(SpellAll(xs), "\"", ParseString(s, "").rest);
    forall y ensures ParseString(head + y, "") == Ok(ParseString(s, "").value, y) {
      StringRead(xs, y, "");
      Associate(SpellAll(xs), "\"", y);
    }
  }

  // ---------------------------------------------------------------- blanks

  /** A wrong byte that is a blank stands behind something that is not. */
  predicate Begun(p: string, rest: string) {
    rest != "" && IsSpace(rest[0]) ==> SkipSpace(p) != ""
  }

  lemma HeadStarts(p: string, y: string)
    requires SkipSpace(p) != ""
    ensures SkipSpace(p + y) != "" && SkipSpace(p + y)[0] == SkipSpace(p)[0]
  {
    var t := SkipSpace(p);
    hide SkipSpace;
    var b := SkippedIsBlank(p);
    Associate(b, t, y);
    BeginsConcat(t, y);
    SkipBlankBefore(b, t + y);
  }

  lemma StartsAlike(p: string, rest: string, x: string)
    requires rest != "" && Begun(p, rest)
    ensures SkipSpace(p + rest) != "" && SkipSpace(p + ([rest[0]] + x)) != ""
    ensures SkipSpace(p + ([rest[0]] + x))[0] == SkipSpace(p + rest)[0]
  {
    hide SkipSpace;
    if SkipSpace(p) != "" {
      HeadStarts(p, rest);
      HeadStarts(p, [rest[0]] + x);
    } else {
      var b := SkippedIsBlank(p);
      EmptySuffix(b);
      SkipBlankBefore(p, rest);
      SkipBlankBefore(p, [rest[0]] + x);
    }
  }

  lemma BlankBeforeValue(b: string, y: string)
    requires Blank(b)
    ensures ParseValue(b + y) == ParseValue(y)
  {
    hide ParseValue, SkipSpace;
    SkipBlank(b, y);
    ValueSkips(b + y);
    ValueSkips(y);
  }

  lemma BlankBeforeMember(b: string, y: string)
    requires Blank(b)
    ensures ParseMember(b + y) == ParseMember(y)
  {
    SkipBlank(b, y);
    hide ParseValue, ParseString, SkipSpace;
  }

  // ---------------------------------------------------------------- values

  ghost predicate ValueEnds(s: string, r: string) {
    ParseValue(s).Ok? && ParseValue(s).rest == r
  }

  ghost predicate ItemsEnds(s: string, acc: seq<Value>, r: string) {
    ParseItems(s, acc).Ok? && ParseItems(s, acc).rest == r
  }

  ghost predicate MemberEnds(s: string, r: string) {
    ParseMember(s).Ok? && ParseMember(s).rest == r
  }

  ghost predicate MembersEnds(s: string, acc: seq<Entry>, r: string) {
    ParseMembers(s, acc).Ok? && ParseMembers(s, acc).rest == r
  }

  lemma NullEnds(r: string)
    ensures ValueEnds("null" + r, r)
  {
    WordRoundTrip(Null, r);
    hide ParseValue;
  }

  lemma QuoteValue(y: string)
    ensures ParseString(y, "").Ok? ==> ParseValue("\"" + y) == Ok(Str(ParseString(y, "").value), ParseString(y, "").rest)
    ensures ParseString(y, "").Fail? ==> ParseValue("\"" + y) == Fail(ParseString(y, "").message, ParseString(y, "").left)
    ensures ParseValue("\"" + y).Fail? ==> ParseString(y, "").Fail?
  {
    NoSpaceSkipped("\"" + y);
    assert ("\"" + y)[1..] == y;
    hide SkipSpace, ParseString, ParseItems, ParseMembers, ParseDigits;
  }

  lemma ArrayOpens(y: string)
    ensures !Starts(SkipSpace(y), ']') ==> ParseValue("[" + y) == ParseItems(y, [])
    ensures ParseValue("[" + y).Fail? ==> !Starts(SkipSpace(y), ']')
  {
    hide ParseValue, ParseItems, SkipSpace;
    assert ("[" + y)[1..] == y;
    ArrayBegun("[" + y);
  }

  lemma ObjectOpens(y: string)
    ensures !Starts(SkipSpace(y), '}') ==> ParseValue("{" + y) == ParseMembers(y, [])
    ensures ParseValue("{" + y).Fail? ==> !Starts(SkipSpace(y), '}')
  {
    hide ParseValue, ParseMembers, SkipSpace;
    assert ("{" + y)[1..] == y;
    ObjectBegun("{" + y);
  }

  lemma ItemsNotClosed(y: string, acc: seq<Value>)
    requires ParseItems(y, acc).Ok?
    ensures !Starts(SkipSpace(y), ']')
  {
    ItemsBegin(y, acc);
    hide ParseItems, ParseValue, SkipSpace;
    NotAllBlank(y);
    ValueSkips(y);
    ValueBegins(SkipSpace(y));
  }

  lemma MembersNotClosed(y: string, acc: seq<Entry>)
    requires ParseMembers(y, acc).Ok?
    ensures !Starts(SkipSpace(y), '}')
  {
    MembersBegin(y, acc);
    hide ParseMembers, ParseMember, SkipSpace;
    MemberBegun(y);
  }

  lemma PlainFailure(t: string)
    requires t != "" && !IsSpace(t[0]) && t[0] !in "{[\"" && ParseValue(t).Fail?
    ensures About(ParseValue(t), t)
    ensures ParseValue(t).message == "invalid literal" || !BeginsValue(t[0])
  {
    hide ParseValue, Offends;
    PlainMessage(t);
    WordOffends(t);
  }

  lemma PlainMessage(t: string)
    requires t != "" && !IsSpace(t[0]) && t[0] !in "{[\"" && ParseValue(t).Fail?
    ensures !BeginsValue(t[0]) ==> ParseValue(t) == Fail("unexpected character", |t|)
    ensures BeginsValue(t[0]) ==> ParseValue(t) == Fail("invalid literal", |t|) && t[0] in "tfn" && !(WordOf(t[0]) <= t)
  {
    hide ParseValue;
    if t[0] in "tfn" { WordMessage(t); }
    else if BeginsValue(t[0]) { NumberBegins(t); NumberNeverFails(t); }
    else { UnexpectedMessage(t); }
  }

  lemma WordMessage(t: string)
    requires t != "" && t[0] in "tfn" && ParseValue(t).Fail?
    ensures ParseValue(t) == Fail("invalid literal", |t|) && !(WordOf(t[0]) <= t)
  {
    WordBegins(t);
    hide ParseValue, WordOf;
  }

  lemma WordBegins(t: string)
    requires t != "" && t[0] in "tfn"
    ensures ParseValue(t) == ParseLiteral(t, WordOf(t[0]), if t[0] == 't' then Bool(true) else if t[0] == 'f' then Bool(false) else Null)
  {
    NoSpaceSkipped(t);
    hide SkipSpace, ParseString, ParseItems, ParseMembers, ParseDigits, ParseLiteral;
  }

  lemma UnexpectedMessage(t: string)
    requires t != "" && !IsSpace(t[0]) && !BeginsValue(t[0])
    ensures ParseValue(t) == Fail("unexpected character", |t|)
  {
    NoSpaceSkipped(t);
    NotBeginning(t[0]);
    hide SkipSpace, ParseString, ParseItems, ParseMembers, ParseNumber, ParseLiteral, BeginsValue;
  }

  lemma NotBeginning(c: char)
    requires !BeginsValue(c)
    ensures c != '{' && c != '[' && c != '\"' && c != 't' && c != 'f' && c != 'n' && c != '-' && !IsDigit(c)
  {
  }

  lemma WordOffends(t: string)
    requires t != "" && !IsSpace(t[0])
    ensures !BeginsValue(t[0]) ==> About<Value>(Fail("unexpected character", |t|), t)
    ensures t[0] in "tfn" && !(WordOf(t[0]) <= t) ==> About<Value>(Fail("invalid literal", |t|), t)
  {
  }

  lemma NumberNeverFails(t: string)
    ensures !ParseDigits(false, t).Fail? && (t != "" ==> !ParseDigits(true, t[1..]).Fail?)
  {
    hide SkipDigits, SkipFraction, SkipExponent, ValueOf;
  }

  lemma EmptyValue()
    ensures ParseValue("") == Fail("unexpected end of JSON", 0) && About(ParseValue(""), "")
  {
  }

  /** What a failing value has in common, for every kind of value. */
  ghost predicate ValueGoesWrong(s: string, p: string, rest: string, w: string) {
    && s == p + rest && About(ParseValue(s), rest) && Begun(p, rest)
    && (forall r :: ValueEnds(p + (w + r), r))
    && (Sharp(ParseValue(s).message, rest) ==> forall x :: ParseValue(p + ([rest[0]] + x)).Fail?)
  }

  ghost predicate ItemsGoWrong(s: string, acc: seq<Value>, p: string, rest: string, w: string) {
    && s == p + rest && About(ParseItems(s, acc), rest) && Begun(p, rest)
    && (forall r :: ItemsEnds(p + (w + r), acc, r))
    && (Sharp(ParseItems(s, acc).message, rest) ==> forall x :: ParseItems(p + ([rest[0]] + x), acc).Fail?)
  }

  ghost predicate MemberGoesWrong(s: string, p: string, rest: string, w: string) {
    && s == p + rest && About(ParseMember(s), rest) && Begun(p, rest)
    && (forall r :: MemberEnds(p + (w + r), r))
    && (Sharp(ParseMember(s).message, rest) ==> forall x :: ParseMember(p + ([rest[0]] + x)).Fail?)
  }

  ghost predicate MembersGoWrong(s: string, acc: seq<Entry>, p: string, rest: string, w: string) {
    && s == p + rest && About(ParseMembers(s, acc), rest) && Begun(p, rest)
    && (forall r :: MembersEnds(p + (w + r), acc, r))
    && (Sharp(ParseMembers(s, acc).message, rest) ==> forall x :: ParseMembers(p + ([rest[0]] + x), acc).Fail?)
  }

  lemma OpenedBegun(c: char, q: string, rest: string)
    requires !IsSpace(c)
    ensures Begun([c] + q, rest)
  {
    NoSpaceSkipped([c] + q);
  }

  lemma PlainGoesWrong(t: string) returns (p: string, rest: string, w: string)
    requires ParseValue(t).Fail? && (t == "" || (!IsSpace(t[0]) && t[0] !in "{[\""))
    ensures ValueGoesWrong(t, p, rest, w)
  {
    if t == "" { EmptyValue(); } else { PlainFailure(t); }
    hide ParseValue;
    p, rest, w := "", t, "null";
    EmptyPrefix(t);
    forall r ensures ValueEnds(p + (w + r), r) {
      EmptyPrefix(w + r);
      NullEnds(r);
    }
    if Sharp(ParseValue(t).message, rest) {
      forall x ensures ParseValue(p + ([t[0]] + x)).Fail? {
        EmptyPrefix([t[0]] + x);
        UnexpectedMessage([t[0]] + x);
      }
    }
  }

  lemma StringGoesWrong(t: string) returns (p: string, rest: string, w: string)
    requires t != "" && t[0] == '\"' && ParseValue(t).Fail?
    ensures ValueGoesWrong(t, p, rest, w)
  {
    hide ParseValue, ParseString, Offends;
    SplitFirstChar(t);
    QuoteValue(t[1..]);
    var q;
    q, rest, w := StringFailure(t[1..], "");
    p := "\"" + q;
    Associate("\"", q, rest);
    OpenedBegun('\"', q, rest);
    forall r ensures ValueEnds(p + (w + r), r) {
      Associate("\"", q, w + r);
      assert StringEnds(q + (w + r), "", r);
      QuoteValue(q + (w + r));
    }
    if Sharp(ParseValue(t).message, rest) {
      forall x ensures ParseValue(p + ([rest[0]] + x)).Fail? {
        Associate("\"", q, [rest[0]] + x);
        QuoteValue(q + ([rest[0]] + x));
      }
    }
  }

  lemma ArrayGoesWrong(t: string, q: string, rest: string, w: string) returns (p: string)
    requires t != "" && t[0] == '[' && ParseValue(t).Fail?
    requires ItemsGoWrong(t[1..], [], q, rest, w)
    ensures ValueGoesWrong(t, p, rest, w)
  {
    hide ParseValue, ParseItems, Offends, SkipSpace;
    SplitFirstChar(t);
    ArrayOpens(t[1..]);
    p := "[" + q;
    Associate("[", q, rest);
    OpenedBegun('[', q, rest);
    forall r ensures ValueEnds(p + (w + r), r) {
      Associate("[", q, w + r);
      assert ItemsEnds(q + (w + r), [], r);
      ItemsNotClosed(q + (w + r), []);
      ArrayOpens(q + (w + r));
    }
    if Sharp(ParseValue(t).message, rest) {
      forall x ensures ParseValue(p + ([rest[0]] + x)).Fail? {
        Associate("[", q, [rest[0]] + x);
        StartsAlike(q, rest, x);
        ArrayOpens(q + ([rest[0]] + x));
      }
    }
  }

  lemma ObjectGoesWrong(t: string, q: string, rest: string, w: string) returns (p: string)
    requires t != "" && t[0] == '{' && ParseValue(t).Fail?
    requires MembersGoWrong(t[1..], [], q, rest, w)
    ensures ValueGoesWrong(t, p, rest, w)
  {
    hide ParseValue, ParseMembers, Offends, SkipSpace;
    SplitFirstChar(t);
    ObjectOpens(t[1..]);
    p := "{" + q;
    Associate("{", q, rest);
    OpenedBegun('{', q, rest);
    forall r ensures ValueEnds(p + (w + r), r) {
      Associate("{", q, w + r);
      assert MembersEnds(q + (w + r), [], r);
      MembersNotClosed(q + (w + r), []);
      ObjectOpens(q + (w + r));
    }
    if Sharp(ParseValue(t).message, rest) {
      forall x ensures ParseValue(p + ([rest[0]] + x)).Fail? {
        Associate("{", q, [rest[0]] + x);
        StartsAlike(q, rest, x);
        ObjectOpens(q + ([rest[0]] + x));
      }
    }
  }

  /** The same behind blanks. */
  lemma WrongBehindBlanks(b: string, t: string, q: string, rest: string, w: string)
    requires Blank(b) && ValueGoesWrong(t, q, rest, w)
    ensures ValueGoesWrong(b + t, b + q, rest, w)
  {
    hide ParseValue, Offends;
    BlankBeforeValue(b, t);
    Associate(b, q, rest);
    SkipBlank(b, q);
    hide SkipSpace;
    forall r ensures ValueEnds(b + q + (w + r), r) {
      Associate(b, q, w + r);
      assert ValueEnds(q + (w + r), r);
      BlankBeforeValue(b, q + (w + r));
    }
    if Sharp(ParseValue(t).message, rest) {
      forall x ensures ParseValue(b + q + ([rest[0]] + x)).Fail? {
        Associate(b, q, [rest[0]] + x);
        BlankBeforeValue(b, q + ([rest[0]] + x));
      }
    }
  }

  // ---------------------------------------------------------------- items and members

  /** What the loop over the items does after one value. */
  lemma ItemsNext(s: string, acc: seq<Value>)
    ensures ParseValue(s).Fail? ==> ParseItems(s, acc) == Fail(ParseValue(s).message, ParseValue(s).left)
    ensures ParseItems(s, acc).Fail? ==> ParseValue(s).Fail? || ParseValue(s).Ok?
    ensures ParseValue(s).Ok? ==>
      var t := SkipSpace(ParseValue(s).rest);
      ParseItems(s, acc) ==
        if Starts(t, ']') then Ok(Arr(acc + [ParseValue(s).value]), t[1..])
        else if Starts(t, ',') then ParseItems(t[1..], acc + [ParseValue(s).value])
        else Fail("expected ','", |t|)
  {
    hide ParseValue, SkipSpace;
  }

  lemma MembersNext(s: string, acc: seq<Entry>)
    ensures ParseMember(s).Fail? ==> ParseMembers(s, acc) == Fail(ParseMember(s).message, ParseMember(s).left)
    ensures ParseMembers(s, acc).Fail? ==> ParseMember(s).Fail? || ParseMember(s).Ok?
    ensures ParseMember(s).Ok? ==>
      var t, e := SkipSpace(ParseMember(s).rest), ParseMember(s).value;
      ParseMembers(s, acc) ==
        if Starts(t, '}') then Ok(Obj(Assign(acc, e.key, e.value)), t[1..])
        else if Starts(t, ',') then ParseMembers(t[1..], Assign(acc, e.key, e.value))
        else Fail("expected ','", |t|)
  {
    hide ParseMember, SkipSpace, Assign;
  }

  /** A remainder may be replaced behind the blanks it begins with. */
  lemma CompatibleBehind(b: string, t: string, y: string)
    requires Blank(b) && y != "" && !IsSpace(y[0])
    requires y[0] in "]},:" || (t != "" && t[0] == y[0])
    ensures Compatible(b + t, b + y) && SkipSpace(b + y) == y
  {
    SkipBlankBefore(b, y);
    hide SkipSpace;
    if b == "" {
      EmptyPrefix(t);
      EmptyPrefix(y);
    } else {
      BeginsConcat(b, t);
      BeginsConcat(b, y);
    }
  }

  /** A value and the blanks behind it stay read when other text follows. */
  lemma ValueAndBlanks(s: string) returns (h: string)
    requires ParseValue(s).Ok?
    ensures
      var t := SkipSpace(ParseValue(s).rest);
      && s == h + t && SkipSpace(h) != ""
      && forall y :: y != "" && !IsSpace(y[0]) && (y[0] in "]},:" || (t != "" && t[0] == y[0])) ==>
           ParseValue(h + y).Ok? && ParseValue(h + y).value == ParseValue(s).value && SkipSpace(ParseValue(h + y).rest) == y
  {
    hide *;
    var head := ValueStays(s);
    var b := SkippedIsBlank(ParseValue(s).rest);
    var t := SkipSpace(ParseValue(s).rest);
    h := head + b;
    Associate(head, b, t);
    HeadStarts(head, b);
    forall y | y != "" && !IsSpace(y[0]) && (y[0] in "]},:" || (t != "" && t[0] == y[0]))
      ensures ParseValue(h + y).Ok? && ParseValue(h + y).value == ParseValue(s).value && SkipSpace(ParseValue(h + y).rest) == y
    {
      Associate(head, b, y);
      CompatibleBehind(b, t, y);
    }
  }

  lemma CommaOffends<T>(t: string)
    requires !Starts(t, ',') && (t == "" || !IsSpace(t[0]))
    ensures About<T>(Fail("expected ','", |t|), t)
  {
  }

  lemma NotBlank(s: string)
    ensures SkipSpace(s) == "" || !IsSpace(SkipSpace(s)[0])
    ensures |SkipSpace(s)| <= |s|
  {
  }

  lemma ItemsExpectComma(s: string, acc: seq<Value>) returns (p: string)
    requires ParseValue(s).Ok? && !Starts(SkipSpace(ParseValue(s).rest), ']') && !Starts(SkipSpace(ParseValue(s).rest), ',')
    ensures ItemsGoWrong(s, acc, p, SkipSpace(ParseValue(s).rest), "]")
  {
    hide ParseValue, ParseItems, SkipSpace, Offends, Behind;
    var t := SkipSpace(ParseValue(s).rest);
    ItemsNext(s, acc);
    NotBlank(ParseValue(s).rest);
    CommaOffends<Value>(t);
    p := ValueAndBlanks(s);
    forall r ensures ItemsEnds(p + ("]" + r), acc, r) {
      ItemsNext(p + ("]" + r), acc);
      assert ("]" + r)[1..] == r;
    }
    forall x | t != "" ensures ParseItems(p + ([t[0]] + x), acc).Fail? {
      ItemsNext(p + ([t[0]] + x), acc);
    }
  }

  lemma ItemGoesWrong(s: string, acc: seq<Value>, p: string, rest: string, v: string)
    requires ValueGoesWrong(s, p, rest, v)
    ensures ItemsGoWrong(s, acc, p, rest, v + "]")
  {
    hide ParseValue, ParseItems, SkipSpace, Offends, Behind;
    ItemsNext(s, acc);
    forall r ensures ItemsEnds(p + (v + "]" + r), acc, r) {
      Associate(v, "]", r);
      assert ValueEnds(p + (v + ("]" + r)), "]" + r);
      ItemsNext(p + (v + ("]" + r)), acc);
      NoSpaceSkipped("]" + r);
      assert ("]" + r)[1..] == r;
    }
    if Sharp(ParseItems(s, acc).message, rest) {
      forall x ensures ParseItems(p + ([rest[0]] + x), acc).Fail? {
        ItemsNext(p + ([rest[0]] + x), acc);
      }
    }
  }

  /** Behind a comma. */
  lemma LaterItemsGoWrong(s: string, acc: seq<Value>, q: string, rest: string, w: string) returns (p: string)
    requires ParseValue(s).Ok? && Starts(SkipSpace(ParseValue(s).rest), ',')
    requires ItemsGoWrong(SkipSpace(ParseValue(s).rest)[1..], acc + [ParseValue(s).value], q, rest, w)
    ensures ItemsGoWrong(s, acc, p, rest, w)
  {
    hide ParseValue, ParseItems, SkipSpace, Offends, Behind;
    var t, more := SkipSpace(ParseValue(s).rest), acc + [ParseValue(s).value];
    ItemsNext(s, acc);
    SplitFirstChar(t);
    var h := ValueAndBlanks(s);
    p := h + "," + q;
    Joined(h, ",", q, rest);
    HeadStarts(h, "," + q);
    Associate(h, ",", q);
    forall r ensures ItemsEnds(p + (w + r), acc, r) {
      Joined(h, ",", q, w + r);
      assert ItemsEnds(q + (w + r), more, r);
      ItemsAfterComma(s, acc, h, q + (w + r));
    }
    if Sharp(ParseItems(s, acc).message, rest) {
      forall x ensures ParseItems(p + ([rest[0]] + x), acc).Fail? {
        Joined(h, ",", q, [rest[0]] + x);
        ItemsAfterComma(s, acc, h, q + ([rest[0]] + x));
      }
    }
  }

  lemma ItemsAfterComma(s: string, acc: seq<Value>, h: string, y: string)
    requires ParseValue(s).Ok?
    requires ParseValue(h + ("," + y)).Ok? && ParseValue(h + ("," + y)).value == ParseValue(s).value
    requires SkipSpace(ParseValue(h + ("," + y)).rest) == "," + y
    ensures ParseItems(h + ("," + y), acc) == ParseItems(y, acc + [ParseValue(s).value])
  {
    hide ParseValue, ParseItems, SkipSpace;
    ItemsNext(h + ("," + y), acc);
    assert ("," + y)[1..] == y;
  }

  lemma Joined(h: string, c: string, q: string, y: string)
    ensures (h + c + q) + y == h + (c + (q + y))
  {
    Associate(h + c, q, y);
    Associate(h, c, q + y);
  }

  // ---------------------------------------------------------------- one member

  /** What follows a key and the blanks behind it. */
  lemma MemberNext(h: string, key: string, b: string, y: string)
    requires Blank(b) && ParseString(h + (b + y), "") == Ok(key, b + y) && (y == "" || !IsSpace(y[0]))
    ensures !Starts(y, ':') ==> ParseMember("\"" + (h + (b + y))) == Fail("expected ':'", |y|)
    ensures Starts(y, ':') ==>
      && (ParseValue(y[1..]).Ok? ==> ParseMember("\"" + (h + (b + y))) == Ok(Entry(key, ParseValue(y[1..]).value), ParseValue(y[1..]).rest))
      && (ParseValue(y[1..]).Fail? ==> ParseMember("\"" + (h + (b + y))) == Fail(ParseValue(y[1..]).message, ParseValue(y[1..]).left))
      && (ParseMember("\"" + (h + (b + y))).Fail? ==> ParseValue(y[1..]).Fail?)
  {
    var k := "\"" + (h + (b + y));
    NoSpaceSkipped(k);
    assert k[1..] == h + (b + y);
    SkipBlank(b, y);
    if y != "" { NoSpaceSkipped(y); }
    hide ParseValue, ParseString, SkipSpace;
  }

  lemma KeyFails(y: string)
    ensures ParseString(y, "").Fail? ==> ParseMember("\"" + y) == Fail(ParseString(y, "").message, ParseString(y, "").left)
    ensures ParseMember("\"" + y).Fail? ==> ParseString(y, "").Fail? || ParseString(y, "").Ok?
  {
    NoSpaceSkipped("\"" + y);
    assert ("\"" + y)[1..] == y;
    hide ParseValue, ParseString, SkipSpace;
  }

  lemma NoKey(k: string)
    requires k == "" || (!IsSpace(k[0]) && k[0] != '\"')
    ensures ParseMember(k) == Fail("expected object key", |k|)
  {
    if k != "" { NoSpaceSkipped(k); }
    hide ParseValue, ParseString, SkipSpace;
  }

  lemma KeyOffends(k: string)
    requires k == "" || (!IsSpace(k[0]) && k[0] != '\"')
    ensures About<Entry>(Fail("expected object key", |k|), k) && Begun("", k)
  {
  }

  lemma NullMember(h: string, key: string, b: string, r: string)
    requires Blank(b) && ParseString(h + (b + (":null" + r)), "") == Ok(key, b + (":null" + r))
    ensures MemberEnds("\"" + (h + (b + (":null" + r))), r)
  {
    hide ParseValue, ParseMember, ParseString;
    var y := ":null" + r;
    assert y[1..] == "null" + r;
    NullEnds(r);
    MemberNext(h, key, b, y);
  }

  lemma EmptyKey(r: string)
    ensures MemberEnds("\"\":null" + r, r)
  {
    hide ParseMember, ParseString;
    var y := ":null" + r;
    EmptyPrefix(y);
    StringStep("\"" + y, "");
    assert ("\"" + y)[1..] == y;
    NullMember("\"", "", "", r);
    TwoQuotes(r);
  }

  lemma TwoQuotes(r: string)
    ensures "\"\":null" + r == "\"" + ("\"" + (":null" + r))
  {
  }

  lemma KeyMissing(k: string)
    requires k == "" || (!IsSpace(k[0]) && k[0] != '\"')
    ensures MemberGoesWrong(k, "", k, "\"\":null")
  {
    hide ParseMember, Offends, Behind, Begun, MemberEnds;
    NoKey(k);
    KeyOffends(k);
    EmptyPrefix(k);
    var w := "\"\":null";
    forall r ensures MemberEnds("" + (w + r), r) {
      EmptyPrefix(w + r);
      EmptyKey(r);
    }
    forall x | k != "" ensures ParseMember("" + ([k[0]] + x)).Fail? {
      EmptyPrefix([k[0]] + x);
      NoKey([k[0]] + x);
    }
  }

  lemma KeyGoesWrong(k: string) returns (p: string, rest: string, w: string)
    requires k != "" && k[0] == '\"' && ParseString(k[1..], "").Fail?
    ensures MemberGoesWrong(k, p, rest, w)
  {
    hide ParseMember, ParseString, Offends, Behind, SkipSpace;
    SplitFirstChar(k);
    KeyFails(k[1..]);
    var q, v;
    q, rest, v := StringFailure(k[1..], "");
    p, w := "\"" + q, v + ":null";
    Associate("\"", q, rest);
    OpenedBegun('\"', q, rest);
    forall r ensures MemberEnds(p + (w + r), r) {
      Associate(v, ":null", r);
      Associate("\"", q, v + (":null" + r));
      assert StringEnds(q + (v + (":null" + r)), "", ":null" + r);
      Associate(q, v, ":null" + r);
      EmptyPrefix(":null" + r);
      NullMember(q + v, ParseString(q + (v + (":null" + r)), "").value, "", r);
    }
    if Sharp(ParseMember(k).message, rest) {
      forall x ensures ParseMember(p + ([rest[0]] + x)).Fail? {
        Associate("\"", q, [rest[0]] + x);
        KeyFails(q + ([rest[0]] + x));
      }
    }
  }

  lemma ColonOffends(y: string)
    requires !Starts(y, ':') && (y == "" || !IsSpace(y[0]))
    ensures About<Entry>(Fail("expected ':'", |y|), y)
  {
  }

  lemma MemberText(h: string, b: string, y: string)
    ensures "\"" + (h + b) + y == "\"" + (h + (b + y))
  {
    Associate("\"", h + b, y);
    Associate(h, b, y);
  }

  /** A key that is read, with the blanks behind it, stays read. */
  ghost predicate KeyRead(h: string, key: string) {
    forall y :: ParseString(h + y, "") == Ok(key, y)
  }

  lemma ColonMissing(h: string, key: string, b: string, c: string) returns (p: string)
    requires KeyRead(h, key) && Blank(b) && !Starts(c, ':') && (c == "" || !IsSpace(c[0]))
    ensures MemberGoesWrong("\"" + (h + (b + c)), p, c, ":null")
  {
    hide ParseMember, ParseString, Offends, Behind, Begun, MemberEnds, Blank;
    p := "\"" + (h + b);
    MemberText(h, b, c);
    MemberNext(h, key, b, c);
    ColonOffends(c);
    OpenedBegun('\"', h + b, c);
    forall r ensures MemberEnds(p + (":null" + r), r) {
      MemberText(h, b, ":null" + r);
      NullMember(h, key, b, r);
    }
    forall x | c != "" ensures ParseMember(p + ([c[0]] + x)).Fail? {
      MemberText(h, b, [c[0]] + x);
      MemberNext(h, key, b, [c[0]] + x);
    }
  }

  lemma MemberColon(h: string, key: string, b: string, y: string)
    requires KeyRead(h, key) && Blank(b)
    ensures
      var s := "\"" + (h + (b + (":" + y)));
      && (ParseValue(y).Ok? ==> ParseMember(s) == Ok(Entry(key, ParseValue(y).value), ParseValue(y).rest))
      && (ParseValue(y).Fail? ==> ParseMember(s) == Fail(ParseValue(y).message, ParseValue(y).left))
      && (ParseMember(s).Fail? ==> ParseValue(y).Fail?)
  {
    hide ParseMember, ParseValue, ParseString, Blank;
    assert (":" + y)[1..] == y;
    MemberNext(h, key, b, ":" + y);
  }

  lemma ColonText(h: string, b: string, q: string, y: string)
    ensures "\"" + (h + (b + (":" + q))) + y == "\"" + (h + (b + (":" + (q + y))))
  {
    Associate("\"", h + (b + (":" + q)), y);
    Associate(h, b + (":" + q), y);
    Associate(b, ":" + q, y);
    Associate(":", q, y);
  }

  lemma MemberValueGoesWrong(h: string, key: string, b: string, v: string, q: string, rest: string, w: string) returns (p: string)
    requires KeyRead(h, key) && Blank(b) && ValueGoesWrong(v, q, rest, w)
    ensures MemberGoesWrong("\"" + (h + (b + (":" + v))), p, rest, w)
  {
    hide ParseMember, ParseValue, ParseString, KeyRead, Offends, Behind, Begun, Blank;
    p := "\"" + (h + (b + (":" + q)));
    ColonText(h, b, q, rest);
    MemberColon(h, key, b, v);
    OpenedBegun('\"', h + (b + (":" + q)), rest);
    forall r ensures MemberEnds(p + (w + r), r) {
      ColonText(h, b, q, w + r);
      assert ValueEnds(q + (w + r), r);
      MemberColon(h, key, b, q + (w + r));
    }
    if Sharp(ParseValue(v).message, rest) {
      forall x ensures ParseMember(p + ([rest[0]] + x)).Fail? {
        ColonText(h, b, q, [rest[0]] + x);
        MemberColon(h, key, b, q + ([rest[0]] + x));
      }
    }
  }

  lemma MemberBehindBlanks(b: string, t: string, q: string, rest: string, w: string)
    requires Blank(b) && MemberGoesWrong(t, q, rest, w)
    ensures MemberGoesWrong(b + t, b + q, rest, w)
  {
    SkipBlank(b, q);
    hide ParseMember, Offends, Behind, SkipSpace;
    BlankBeforeMember(b, t);
    Associate(b, q, rest);
    forall r ensures MemberEnds(b + q + (w + r), r) {
      Associate(b, q, w + r);
      assert MemberEnds(q + (w + r), r);
      BlankBeforeMember(b, q + (w + r));
    }
    if Sharp(ParseMember(t).message, rest) {
      forall x ensures ParseMember(b + q + ([rest[0]] + x)).Fail? {
        Associate(b, q, [rest[0]] + x);
        BlankBeforeMember(b, q + ([rest[0]] + x));
      }
    }
  }

  // ---------------------------------------------------------------- the loop over the members

  lemma MemberStays(s: string) returns (head: string)
    requires ParseMember(s).Ok?
    ensures s == head + ParseMember(s).rest && SkipSpace(head) != ""
    ensures forall y :: Compatible(ParseMember(s).rest, y) ==> ParseMember(head + y) == Ok(ParseMember(s).value, y)
  {
    hide *;
    MemberBegun(s);
    var before := SkippedIsBlank(s);
    var k := SkipSpace(s);
    SplitFirstChar(k);
    var h := StringStays(k[1..]);
    var u := ParseString(k[1..], "").rest;
    var key := ParseString(k[1..], "").value;
    KeyStays(h, key);
    var b := SkippedIsBlank(u);
    var c := SkipSpace(u);
    SplitFirstChar(c);
    var q := ValueStays(c[1..]);
    var rest := ParseValue(c[1..]).rest;
    var inner := "\"" + (h + (b + (":" + q)));
    ColonText(h, b, q, rest);
    Associate(before, inner, rest);
    head := before + inner;
    assert !IsSpace(inner[0]) by { QuoteIsNoBlank(); }
    SkipBlankBefore(before, inner);
    forall y | Compatible(rest, y) ensures ParseMember(head + y) == Ok(ParseMember(s).value, y) {
      Associate(before, inner, y);
      BlankBeforeMember(before, inner + y);
      ColonText(h, b, q, y);
      MemberColon(h, key, b, q + y);
    }
  }

  lemma QuoteIsNoBlank()
    ensures !IsSpace('\"')
  {
  }

  lemma KeyStays(h: string, key: string)
    requires forall y :: ParseString(h + y, "") == Ok(key, y)
    ensures KeyRead(h, key)
  {
  }

  lemma MemberAndBlanks(s: string) returns (h: string)
    requires ParseMember(s).Ok?
    ensures
      var t := SkipSpace(ParseMember(s).rest);
      && s == h + t && SkipSpace(h) != ""
      && forall y :: y != "" && !IsSpace(y[0]) && (y[0] in "]},:" || (t != "" && t[0] == y[0])) ==>
           ParseMember(h + y).Ok? && ParseMember(h + y).value == ParseMember(s).value && SkipSpace(ParseMember(h + y).rest) == y
  {
    hide *;
    var head := MemberStays(s);
    var b := SkippedIsBlank(ParseMember(s).rest);
    var t := SkipSpace(ParseMember(s).rest);
    h := head + b;
    Associate(head, b, t);
    HeadStarts(head, b);
    forall y | y != "" && !IsSpace(y[0]) && (y[0] in "]},:" || (t != "" && t[0] == y[0]))
      ensures ParseMember(h + y).Ok? && ParseMember(h + y).value == ParseMember(s).value && SkipSpace(ParseMember(h + y).rest) == y
    {
      Associate(head, b, y);
      CompatibleBehind(b, t, y);
    }
  }

  lemma MembersExpectComma(s: string, acc: seq<Entry>) returns (p: string)
    requires ParseMember(s).Ok? && !Starts(SkipSpace(ParseMember(s).rest), '}') && !Starts(SkipSpace(ParseMember(s).rest), ',')
    ensures MembersGoWrong(s, acc, p, SkipSpace(ParseMember(s).rest), "}")
  {
    hide ParseMember, ParseMembers, SkipSpace, Offends, Behind, Assign;
    var t := SkipSpace(ParseMember(s).rest);
    MembersNext(s, acc);
    NotBlank(ParseMember(s).rest);
    CommaOffends<Value>(t);
    p := MemberAndBlanks(s);
    forall r ensures MembersEnds(p + ("}" + r), acc, r) {
      MembersNext(p + ("}" + r), acc);
      assert ("}" + r)[1..] == r;
    }
    forall x | t != "" ensures ParseMembers(p + ([t[0]] + x), acc).Fail? {
      MembersNext(p + ([t[0]] + x), acc);
    }
  }

  lemma FirstMemberGoesWrong(s: string, acc: seq<Entry>, p: string, rest: string, v: string)
    requires MemberGoesWrong(s, p, rest, v)
    ensures MembersGoWrong(s, acc, p, rest, v + "}")
  {
    hide ParseMember, ParseMembers, SkipSpace, Offends, Behind, Assign;
    MembersNext(s, acc);
    forall r ensures MembersEnds(p + (v + "}" + r), acc, r) {
      Associate(v, "}", r);
      assert MemberEnds(p + (v + ("}" + r)), "}" + r);
      MembersNext(p + (v + ("}" + r)), acc);
      NoSpaceSkipped("}" + r);
      assert ("}" + r)[1..] == r;
    }
    if Sharp(ParseMembers(s, acc).message, rest) {
      forall x ensures ParseMembers(p + ([rest[0]] + x), acc).Fail? {
        MembersNext(p + ([rest[0]] + x), acc);
      }
    }
  }

  lemma LaterMembersGoWrong(s: string, acc: seq<Entry>, more: seq<Entry>, q: string, rest: string, w: string) returns (p: string)
    requires ParseMember(s).Ok? && Starts(SkipSpace(ParseMember(s).rest), ',')
    requires more == Assign(acc, ParseMember(s).value.key, ParseMember(s).value.value)
    requires MembersGoWrong(SkipSpace(ParseMember(s).rest)[1..], more, q, rest, w)
    ensures MembersGoWrong(s, acc, p, rest, w)
  {
    hide ParseMember, ParseMembers, SkipSpace, Offends, Behind, Assign;
    var t := SkipSpace(ParseMember(s).rest);
    MembersNext(s, acc);
    SplitFirstChar(t);
    var h := MemberAndBlanks(s);
    p := h + "," + q;
    Joined(h, ",", q, rest);
    HeadStarts(h, "," + q);
    Associate(h, ",", q);
    forall r ensures MembersEnds(p + (w + r), acc, r) {
      Joined(h, ",", q, w + r);
      assert MembersEnds(q + (w + r), more, r);
      MembersAfterComma(acc, more, h, q + (w + r));
    }
    if Sharp(ParseMembers(s, acc).message, rest) {
      forall x ensures ParseMembers(p + ([rest[0]] + x), acc).Fail? {
        Joined(h, ",", q, [rest[0]] + x);
        MembersAfterComma(acc, more, h, q + ([rest[0]] + x));
      }
    }
  }

  lemma MembersAfterComma(acc: seq<Entry>, more: seq<Entry>, h: string, y: string)
    requires ParseMember(h + ("," + y)).Ok? && SkipSpace(ParseMember(h + ("," + y)).rest) == "," + y
    requires more == Assign(acc, ParseMember(h + ("," + y)).value.key, ParseMember(h + ("," + y)).value.value)
    ensures ParseMembers(h + ("," + y), acc) == ParseMembers(y, more)
  {
    hide ParseMember, ParseMembers, SkipSpace, Assign;
    MembersNext(h + ("," + y), acc);
    assert ("," + y)[1..] == y;
  }

  // ---------------------------------------------------------------- all together

  lemma {:induction false} ValueFailure(s: string) returns (p: string, rest: string, w: string)
    requires ParseValue(s).Fail?
    ensures ValueGoesWrong(s, p, rest, w)
    decreases |s|, 0
  {
    hide *;
    var b := SkippedIsBlank(s);
    var t := SkipSpace(s);
    NotBlank(s);
    BlankBeforeValue(b, t);
    var q;
    if t == "" || t[0] !in "{[\"" {
      q, rest, w := PlainGoesWrong(t);
    } else if t[0] == '\"' {
      q, rest, w := StringGoesWrong(t);
    } else if t[0] == '[' {
      SplitFirstChar(t);
      ArrayOpens(t[1..]);
      q, rest, w := ItemsFailure(t[1..], []);
      q := ArrayGoesWrong(t, q, rest, w);
    } else {
      SplitFirstChar(t);
      ObjectOpens(t[1..]);
      q, rest, w := MembersFailure(t[1..], []);
      q := ObjectGoesWrong(t, q, rest, w);
    }
    WrongBehindBlanks(b, t, q, rest, w);
    p := b + q;
  }

  lemma {:induction false} ItemsFailure(s: string, acc: seq<Value>) returns (p: string, rest: string, w: string)
    requires ParseItems(s, acc).Fail?
    ensures ItemsGoWrong(s, acc, p, rest, w)
    decreases |s|, 1
  {
    hide *;
    ItemsNext(s, acc);
    if ParseValue(s).Fail? {
      p, rest, w := ValueFailure(s);
      ItemGoesWrong(s, acc, p, rest, w);
      w := w + "]";
    } else {
      var t := SkipSpace(ParseValue(s).rest);
      NotBlank(ParseValue(s).rest);
      StartsFacts(t);
      if Starts(t, ',') {
        p, rest, w := ItemsFailure(t[1..], acc + [ParseValue(s).value]);
        p := LaterItemsGoWrong(s, acc, p, rest, w);
      } else {
        p := ItemsExpectComma(s, acc);
        rest, w := t, "]";
      }
    }
  }

  lemma StartsFacts(t: string)
    ensures Starts(t, ',') ==> t != "" && !Starts(t, ']') && !Starts(t, '}')
  {
  }

  lemma {:induction false} MembersFailure(s: string, acc: seq<Entry>) returns (p: string, rest: string, w: string)
    requires ParseMembers(s, acc).Fail?
    ensures MembersGoWrong(s, acc, p, rest, w)
    decreases |s|, 2
  {
    hide *;
    MembersNext(s, acc);
    if ParseMember(s).Fail? {
      p, rest, w := MemberFailure(s);
      FirstMemberGoesWrong(s, acc, p, rest, w);
      w := w + "}";
    } else {
      var t, e := SkipSpace(ParseMember(s).rest), ParseMember(s).value;
      NotBlank(ParseMember(s).rest);
      StartsFacts(t);
      if Starts(t, ',') {
        p, rest, w := MembersFailure(t[1..], Assign(acc, e.key, e.value));
        p := LaterMembersGoWrong(s, acc, Assign(acc, e.key, e.value), p, rest, w);
      } else {
        p := MembersExpectComma(s, acc);
        rest, w := t, "}";
      }
    }
  }

  lemma {:induction false} MemberFailure(s: string) returns (p: string, rest: string, w: string)
    requires ParseMember(s).Fail?
    ensures MemberGoesWrong(s, p, rest, w)
    decreases |s|, 1
  {
    hide *;
    var b := SkippedIsBlank(s);
    var k := SkipSpace(s);
    NotBlank(s);
    BlankBeforeMember(b, k);
    var q;
    if k == "" || k[0] != '\"' {
      KeyMissing(k);
      q, rest, w := "", k, "\"\":null";
    } else {
      SplitFirstChar(k);
      KeyFails(k[1..]);
      if ParseString(k[1..], "").Fail? {
        q, rest, w := KeyGoesWrong(k);
      } else {
        q, rest, w := MemberFailureBehindKey(k);
      }
    }
    MemberBehindBlanks(b, k, q, rest, w);
    p := b + q;
  }

  lemma {:induction false} MemberFailureBehindKey(k: string) returns (p: string, rest: string, w: string)
    requires k != "" && k[0] == '\"' && ParseString(k[1..], "").Ok? && ParseMember(k).Fail?
    ensures MemberGoesWrong(k, p, rest, w)
    decreases |k|, 0
  {
    hide *;
    SplitFirstChar(k);
    var h := StringStays(k[1..]);
    var u, key := ParseString(k[1..], "").rest, ParseString(k[1..], "").value;
    KeyStays(h, key);
    var b := SkippedIsBlank(u);
    var c := SkipSpace(u);
    NotBlank(u);
    ColonOrNot(c);
    if Starts(c, ':') {
      SplitFirstChar(c);
      MemberColon(h, key, b, c[1..]);
      p, rest, w := ValueFailure(c[1..]);
      p := MemberValueGoesWrong(h, key, b, c[1..], p, rest, w);
    } else {
      p := ColonMissing(h, key, b, c);
      rest, w := c, ":null";
    }
  }

  lemma ColonOrNot(c: string)
    ensures Starts(c, ':') <==> c != "" && c[0] == ':'
  {
  }

  lemma ParseNext(s: string)
    ensures ParseValue(s).Fail? ==> Parse(s) == Fail(ParseValue(s).message, ParseValue(s).left)
    ensures ParseValue(s).Ok? ==>
      var t := SkipSpace(ParseValue(s).rest);
      Parse(s) == if t == "" then Ok(ParseValue(s).value, "") else Fail("trailing JSON content", |t|)
    ensures Parse(s).Fail? ==> ParseValue(s).Fail? || ParseValue(s).Ok?
  {
    hide ParseValue, SkipSpace;
  }

  ghost predicate Completable(p: string) {
    exists w :: Parse(p + w).Ok?
  }

  /** A text that is refused goes wrong at the byte that is named: what is before it can be
      completed to a document, the message tells what stands there, and when that is a wrong
      byte no text that begins like this one up to and with it is a document. */
  lemma FailureIsExact(text: string) returns (p: string, rest: string)
    requires Parse(text).Fail?
    ensures text == p + rest && About(Parse(text), rest) && Completable(p)
    ensures Sharp(Parse(text).message, rest) ==> !Completable(p + [rest[0]])
  {
    hide *;
    ParseNext(text);
    if ParseValue(text).Fail? {
      var w;
      p, rest, w := ValueFailure(text);
      RefusedValue(text, p, rest, w);
    } else {
      var h := ValueAndBlanks(text);
      p, rest := h, SkipSpace(ParseValue(text).rest);
      TrailingContent(text, p);
    }
  }

  lemma RefusedValue(text: string, p: string, rest: string, w: string)
    requires ValueGoesWrong(text, p, rest, w)
    ensures text == p + rest && About(Parse(text), rest) && Completable(p)
    ensures Sharp(Parse(text).message, rest) ==> !Completable(p + [rest[0]])
  {
    hide ParseValue, Parse, Offends, Behind, Begun;
    ParseNext(text);
    assert ValueEnds(p + (w + ""), "");
    EmptySuffix(w);
    ParseNext(p + w);
    EmptySkipped();
    if Sharp(Parse(text).message, rest) {
      forall x ensures !Parse(p + [rest[0]] + x).Ok? {
        Associate(p, [rest[0]], x);
        ParseNext(p + ([rest[0]] + x));
      }
    }
  }

  lemma EmptySkipped()
    ensures SkipSpace("") == ""
  {
  }

  lemma TrailingOffends<T>(t: string)
    requires t != "" && !IsSpace(t[0])
    ensures About<T>(Fail("trailing JSON content", |t|), t)
  {
  }

  lemma TrailingContent(text: string, p: string)
    requires ParseValue(text).Ok? && SkipSpace(ParseValue(text).rest) != "" && text == p + SkipSpace(ParseValue(text).rest)
    requires forall y :: y != "" && !IsSpace(y[0]) && SkipSpace(ParseValue(text).rest)[0] == y[0] ==>
      ParseValue(p + y).Ok? && SkipSpace(ParseValue(p + y).rest) == y
    ensures About(Parse(text), SkipSpace(ParseValue(text).rest)) && Completable(p)
    ensures !Completable(p + [SkipSpace(ParseValue(text).rest)[0]])
  {
    hide ParseValue, Parse, Offends, Behind, SkipSpace;
    var t := SkipSpace(ParseValue(text).rest);
    ParseNext(text);
    NotBlank(ParseValue(text).rest);
    TrailingOffends<Value>(t);
    BeforeTrailing(text, p);
    EmptySuffix(p);
    assert Parse(p + "").Ok?;
    forall x ensures !Parse(p + [t[0]] + x).Ok? {
      Associate(p, [t[0]], x);
      ParseNext(p + ([t[0]] + x));
    }
  }

  lemma BeforeTrailing(text: string, p: string)
    requires ParseValue(text).Ok? && text == p + SkipSpace(ParseValue(text).rest)
    ensures Parse(p).Ok?
  {
    hide *;
    var before, d := DocSpelling(text);
    var b := SkippedIsBlank(ParseValue(text).rest);
    var t := SkipSpace(ParseValue(text).rest);
    var q := Padded(before, d, b);
    PaddedSpelling(q, text, t);
    SameHead(p, PaddedText(q), t);
    DocumentAccepted(q);
  }

  lemma SameHead(a: string, b: string, t: string)
    requires a + t == b + t
    ensures a == b
  {
    assert |a| == |b|;
    assert a == (a + t)[..|a|] && b == (b + t)[..|b|];
  }

  lemma DocumentAccepted(q: Padded)
    requires LegalPadded(q)
    ensures Parse(PaddedText(q)).Ok?
  {
    hide Parse, PaddedText, PaddedValue, LegalPadded;
    assert IsDocument(PaddedText(q), PaddedValue(q));
    AcceptsExactlyDocuments(PaddedText(q), PaddedValue(q));
  }
}
