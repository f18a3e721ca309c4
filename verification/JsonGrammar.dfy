/** The language the parser accepts: documents with arbitrary whitespace, arbitrary spellings of
    strings, members in any order and with repeated keys, and the value each one stands for. */
module JsonGrammar {
  import opened Decimal
  import opened Bytes
  import Lex
  import opened Json
  import opened JsonRoundTrip
  import opened JsonStrings

  datatype Doc =
    | NullDoc
    | BoolDoc(b: bool)
    | NumberDoc(negative: bool, digits: string)
    | StringDoc(chars: seq<Spelled>)
    | ArrayDoc(gap: string, items: seq<Padded>)
    | ObjectDoc(gap: string, members: seq<Member>)

  /** A document with whitespace around it. */
  datatype Padded = Padded(before: string, doc: Doc, after: string)

  datatype Member = Member(before: string, key: seq<Spelled>, colon: string, value: Padded)

  /** Blank, tab, line feed, vertical tab, form feed or carriage return. */
  predicate Blank(s: string) {
    forall i :: 0 <= i < |s| ==> s[i] as int in {32, 9, 10, 11, 12, 13}
  }

  predicate LegalDoc(d: Doc)
    decreases d, 0
  {
    match d
    case NumberDoc(_, digits) => digits != "" && AllDigits(digits) && ValueOf(digits) <= EXACT
    case StringDoc(chars) => AllLegal(chars)
    case ArrayDoc(gap, items) => Blank(gap) && forall i :: 0 <= i < |items| ==> LegalPadded(items[i])
    case ObjectDoc(gap, members) => Blank(gap) && forall i :: 0 <= i < |members| ==> LegalMember(members[i])
    case _ => true
  }

  predicate LegalPadded(p: Padded)
    decreases p, 1
  {
    Blank(p.before) && Blank(p.after) && LegalDoc(p.doc)
  }

  predicate LegalMember(m: Member)
    decreases m, 2
  {
    Blank(m.before) && Blank(m.colon) && AllLegal(m.key) && LegalPadded(m.value)
  }

  predicate LegalItems(items: seq<Padded>) {
    forall i :: 0 <= i < |items| ==> LegalPadded(items[i])
  }

  predicate LegalMembers(members: seq<Member>) {
    forall i :: 0 <= i < |members| ==> LegalMember(members[i])
  }

  // ---------------------------------------------------------------- texts

  function DocText(d: Doc): string
    requires LegalDoc(d)
    decreases d, 0
  {
    match d
    case NullDoc => "null"
    case BoolDoc(b) => if b then "true" else "false"
    case NumberDoc(negative, digits) => (if negative then "-" else "") + digits
    case StringDoc(chars) => "\"" + (SpellAll(chars) + "\"")
    case ArrayDoc(gap, items) => "[" + ((if items == [] then gap else ItemsSpelled(items)) + "]")
    case ObjectDoc(gap, members) => "{" + ((if members == [] then gap else MembersSpelled(members)) + "}")
  }

  function PaddedText(p: Padded): string
    requires LegalPadded(p)
    decreases p, 1
  {
    p.before + (DocText(p.doc) + p.after)
  }

  function ItemsSpelled(items: seq<Padded>): string
    requires LegalItems(items)
    decreases items, 0
  {
    if items == [] then ""
    else if |items| == 1 then PaddedText(items[0])
    else PaddedText(items[0]) + ("," + ItemsSpelled(items[1..]))
  }

  function MemberSpelled(m: Member): string
    requires LegalMember(m)
    decreases m, 2
  {
    m.before + ("\"" + (SpellAll(m.key) + ("\"" + (m.colon + (":" + PaddedText(m.value))))))
  }

  function MembersSpelled(members: seq<Member>): string
    requires LegalMembers(members)
    decreases members, 0
  {
    if members == [] then ""
    else if |members| == 1 then MemberSpelled(members[0])
    else MemberSpelled(members[0]) + ("," + MembersSpelled(members[1..]))
  }

  // ---------------------------------------------------------------- values

  function Signed(negative: bool, magnitude: int): int {
    if negative then -magnitude else magnitude
  }

  function DocValue(d: Doc): Value
    requires LegalDoc(d)
    decreases d, 0
  {
    match d
    case NullDoc => Null
    case BoolDoc(b) => Bool(b)
    case NumberDoc(negative, digits) => Num(Signed(negative, ValueOf(digits)))
    case StringDoc(chars) => Str(MeansAll(chars))
    case ArrayDoc(_, items) => Arr(ItemValues(items))
    case ObjectDoc(_, members) => Obj(AssignAll([], members))
  }

  function ItemValues(items: seq<Padded>): (r: seq<Value>)
    requires LegalItems(items)
    ensures |r| == |items|
    decreases items, 0
  {
    if items == [] then [] else [PaddedValue(items[0])] + ItemValues(items[1..])
  }

  function PaddedValue(p: Padded): Value
    requires LegalPadded(p)
    decreases p, 1
  {
    DocValue(p.doc)
  }

  function MemberEntry(m: Member): Entry
    requires LegalMember(m)
    decreases m, 2
  {
    Entry(MeansAll(m.key), PaddedValue(m.value))
  }

  /** Members assigned one after the other. */
  function AssignAll(acc: seq<Entry>, members: seq<Member>): seq<Entry>
    requires LegalMembers(members)
    decreases members, 0
  {
    if members == [] then acc
    else
      var e := MemberEntry(members[0]);
      AssignAll(Assign(acc, e.key, e.value), members[1..])
  }

  // ---------------------------------------------------------------- whitespace

  lemma SpaceIsBlank(c: char)
    ensures IsSpace(c) <==> c as int in {32, 9, 10, 11, 12, 13}
  {
  }

  lemma {:induction false} SkipBlank(b: string, s: string)
    requires Blank(b)
    ensures SkipSpace(b + s) == SkipSpace(s)
    decreases |b|
  {
    if b == "" { assert b + s == s; }
    else {
      SpaceIsBlank(b[0]);
      assert (b + s)[1..] == b[1..] + s;
      SkipBlank(b[1..], s);
    }
  }

  lemma SkipBlankBefore(b: string, s: string)
    requires Blank(b) && s != "" && !IsSpace(s[0])
    ensures SkipSpace(b + s) == s
  {
    SkipBlank(b, s);
    NoSpaceSkipped(s);
  }

  lemma SkippedTwice(s: string)
    ensures SkipSpace(SkipSpace(s)) == SkipSpace(s)
  {
    if SkipSpace(s) != "" { NoSpaceSkipped(SkipSpace(s)); }
  }

  /** What was skipped is blank. */
  lemma {:induction false} SkippedIsBlank(s: string) returns (b: string)
    ensures Blank(b) && s == b + SkipSpace(s)
  {
    if s != "" && IsSpace(s[0]) {
      var rest := SkippedIsBlank(s[1..]);
      SpaceIsBlank(s[0]);
      b := [s[0]] + rest;
      assert s == [s[0]] + s[1..];
      Associate([s[0]], rest, SkipSpace(s[1..]));
    } else {
      b := "";
      assert s == "" + s;
    }
  }

  lemma ValueSkips(s: string)
    ensures ParseValue(SkipSpace(s)) == ParseValue(s)
  {
    SkippedTwice(s);
  }

  lemma ItemsSkip(s: string, acc: seq<Value>)
    ensures ParseItems(SkipSpace(s), acc) == ParseItems(s, acc)
  {
    ValueSkips(s);
    hide ParseValue;
  }

  lemma MembersSkip(s: string, acc: seq<Entry>)
    ensures ParseMembers(SkipSpace(s), acc) == ParseMembers(s, acc)
  {
    SkippedTwice(s);
    hide ParseValue, ParseString;
  }

  lemma BlankDoesNotContinue(b: string, c: char, rest: string)
    requires Blank(b) && !IsDigit(c) && c != '.' && c != 'e' && c != 'E'
    ensures !Continues(b + ([c] + rest))
  {
    if b == "" { assert b + ([c] + rest) == [c] + rest; }
    else { assert (b + ([c] + rest))[0] == b[0]; }
  }

  // ---------------------------------------------------------------- reading documents

  lemma DocStarts(d: Doc)
    requires LegalDoc(d)
    ensures DocText(d) != "" && !IsSpace(DocText(d)[0]) && DocText(d)[0] != ']' && DocText(d)[0] != '}'
  {
    hide SpellAll, ItemsSpelled, MembersSpelled;
  }

  lemma DigitsRead(negative: bool, digits: string, rest: string)
    requires digits != "" && AllDigits(digits) && ValueOf(digits) <= EXACT && !Continues(rest)
    ensures ParseDigits(negative, digits + rest) == Ok(Num(Signed(negative, ValueOf(digits))), rest)
  {
    SkipDigitsExact(digits, rest);
    assert SkipExponent(SkipFraction(rest)) == rest;
    hide SkipDigits, SkipExponent, SkipFraction, ValueOf;
    assert (digits + rest)[..|digits|] == digits;
  }

  lemma NumberBegins(s: string)
    requires s != "" && (s[0] == '-' || IsDigit(s[0]))
    ensures ParseValue(s) == if s[0] == '-' then ParseDigits(true, s[1..]) else ParseDigits(false, s)
  {
    NoSpaceSkipped(s);
    hide ParseDigits, ParseItems, ParseMembers, ParseString, SkipSpace;
  }

  lemma NumberDocRead(negative: bool, digits: string, rest: string)
    requires digits != "" && AllDigits(digits) && ValueOf(digits) <= EXACT && !Continues(rest)
    ensures ParseValue((if negative then "-" else "") + digits + rest) == Ok(Num(Signed(negative, ValueOf(digits))), rest)
  {
    hide ParseValue, ParseDigits, ValueOf, Continues, Signed;
    DigitsRead(negative, digits, rest);
    var s := (if negative then "-" else "") + digits + rest;
    if negative {
      assert s[1..] == digits + rest;
    } else {
      assert s == digits + rest && s[0] == digits[0];
    }
    NumberBegins(s);
  }

  lemma StringDocRead(chars: seq<Spelled>, rest: string)
    requires AllLegal(chars)
    ensures ParseValue("\"" + (SpellAll(chars) + "\"") + rest) == Ok(Str(MeansAll(chars)), rest)
  {
    hide SpellAll, MeansAll;
    var s := "\"" + (SpellAll(chars) + "\"") + rest;
    NoSpaceSkipped(s);
    assert s[1..] == SpellAll(chars) + ("\"" + rest);
    StringRead(chars, rest, "");
    assert "" + MeansAll(chars) == MeansAll(chars);
  }

  lemma WordRead(d: Doc, rest: string)
    requires d.NullDoc? || d.BoolDoc?
    ensures ParseValue(DocText(d) + rest) == Ok(DocValue(d), rest)
  {
    WordRoundTrip(DocValue(d), rest);
  }

  /** Brackets around whitespace or around items. */
  lemma ArrayRead(body: string, rest: string)
    ensures Blank(body) ==> ParseValue("[" + (body + "]") + rest) == Ok(Arr([]), rest)
    ensures SkipSpace(body + ("]" + rest)) != "" && SkipSpace(body + ("]" + rest))[0] != ']' ==>
      ParseValue("[" + (body + "]") + rest) == ParseItems(body + ("]" + rest), [])
  {
    var s := "[" + (body + "]") + rest;
    NoSpaceSkipped(s);
    assert s[1..] == body + ("]" + rest);
    if Blank(body) {
      SkipBlankBefore(body, "]" + rest);
      assert ("]" + rest)[1..] == rest;
    }
    ItemsSkip(body + ("]" + rest), []);
    hide ParseItems, SkipSpace, ParseMembers;
  }

  lemma ObjectRead(body: string, rest: string)
    ensures Blank(body) ==> ParseValue("{" + (body + "}") + rest) == Ok(Obj([]), rest)
    ensures SkipSpace(body + ("}" + rest)) != "" && SkipSpace(body + ("}" + rest))[0] != '}' ==>
      ParseValue("{" + (body + "}") + rest) == ParseMembers(body + ("}" + rest), [])
  {
    var s := "{" + (body + "}") + rest;
    NoSpaceSkipped(s);
    assert s[1..] == body + ("}" + rest);
    if Blank(body) {
      SkipBlankBefore(body, "}" + rest);
      assert ("}" + rest)[1..] == rest;
    }
    MembersSkip(body + ("}" + rest), []);
    hide ParseItems, SkipSpace, ParseMembers;
  }

  lemma PaddedBegins(p: Padded, rest: string)
    requires LegalPadded(p)
    ensures
      var t := SkipSpace(PaddedText(p) + rest);
      t == DocText(p.doc) + (p.after + rest) && t != "" && t[0] != ']'
  {
    hide DocText, SkipSpace;
    DocStarts(p.doc);
    Associate(p.before, DocText(p.doc) + p.after, rest);
    Associate(DocText(p.doc), p.after, rest);
    SkipBlankBefore(p.before, DocText(p.doc) + (p.after + rest));
  }

  lemma MemberBegins(m: Member, rest: string)
    requires LegalMember(m)
    ensures
      var t := SkipSpace(MemberSpelled(m) + rest);
      t == "\"" + (SpellAll(m.key) + ("\"" + (m.colon + (":" + (PaddedText(m.value) + rest)))))
  {
    hide PaddedText, SkipSpace, SpellAll;
    var k, p := SpellAll(m.key), PaddedText(m.value);
    MemberParts(m.before, k, m.colon, p, rest);
    SkipBlankBefore(m.before, "\"" + (k + ("\"" + (m.colon + (":" + (p + rest))))));
  }

  lemma MemberParts(b: string, k: string, c: string, p: string, rest: string)
    ensures (b + ("\"" + (k + ("\"" + (c + (":" + p)))))) + rest == b + ("\"" + (k + ("\"" + (c + (":" + (p + rest))))))
  {
    Associate(b, "\"" + (k + ("\"" + (c + (":" + p)))), rest);
    Associate("\"", k + ("\"" + (c + (":" + p))), rest);
    Associate(k, "\"" + (c + (":" + p)), rest);
    Associate("\"", c + (":" + p), rest);
    Associate(c, ":" + p, rest);
    Associate(":", p, rest);
  }

  /** Reading a document yields its value and stops exactly behind it, whatever follows; only
      behind a number nothing may follow that continues it. */
  lemma {:induction false} DocRead(d: Doc, rest: string)
    requires LegalDoc(d) && (d.NumberDoc? ==> !Continues(rest))
    ensures ParseValue(DocText(d) + rest) == Ok(DocValue(d), rest)
    decreases d, 3
  {
    hide ParseValue, Continues;
    match d
    case NullDoc => WordRead(d, rest);
    case BoolDoc(_) => WordRead(d, rest);
    case NumberDoc(negative, digits) => NumberDocRead(negative, digits, rest);
    case StringDoc(chars) => StringDocRead(chars, rest);
    case ArrayDoc(gap, items) =>
      var body := if items == [] then gap else ItemsSpelled(items);
      ArrayRead(body, rest);
      if items != [] {
        ItemsRead(items, rest, []);
        assert [] + ItemValues(items) == ItemValues(items);
      }
    case ObjectDoc(gap, members) =>
      var body := if members == [] then gap else MembersSpelled(members);
      ObjectRead(body, rest);
      if members != [] { MembersRead(members, rest, []); }
  }

  lemma {:induction false} PaddedRead(p: Padded, c: char, rest: string)
    requires LegalPadded(p) && !IsDigit(c) && c != '.' && c != 'e' && c != 'E' && !IsSpace(c)
    ensures ParseValue(PaddedText(p) + ([c] + rest)) == Ok(PaddedValue(p), p.after + ([c] + rest))
    ensures SkipSpace(p.after + ([c] + rest)) == [c] + rest
    decreases p, 4
  {
    hide ParseValue, SkipSpace, Continues, DocText, DocValue;
    PaddedBegins(p, [c] + rest);
    ValueSkips(PaddedText(p) + ([c] + rest));
    BlankDoesNotContinue(p.after, c, rest);
    DocRead(p.doc, p.after + ([c] + rest));
    SkipBlankBefore(p.after, [c] + rest);
  }

  lemma ItemStep(s: string, v: Value, r: string, t: string, acc: seq<Value>)
    requires ParseValue(s) == Ok(v, r) && SkipSpace(r) == t && t != ""
    ensures t[0] == ']' ==> ParseItems(s, acc) == Ok(Arr(acc + [v]), t[1..])
    ensures t[0] == ',' ==> ParseItems(s, acc) == ParseItems(t[1..], acc + [v])
  {
    hide ParseValue, SkipSpace;
  }

  lemma ItemsSpelledStep(items: seq<Padded>, rest: string)
    requires LegalItems(items) && items != []
    ensures ItemsSpelled(items) + rest ==
      PaddedText(items[0]) + (if |items| == 1 then rest else "," + (ItemsSpelled(items[1..]) + rest))
  {
    hide PaddedText;
    if |items| > 1 {
      Associate(PaddedText(items[0]), "," + ItemsSpelled(items[1..]), rest);
      Associate(",", ItemsSpelled(items[1..]), rest);
    }
  }

  lemma ItemValuesCons(items: seq<Padded>, acc: seq<Value>)
    requires LegalItems(items) && items != []
    ensures acc + ItemValues(items) == acc + [PaddedValue(items[0])] + ItemValues(items[1..])
    ensures |items| == 1 ==> acc + ItemValues(items) == acc + [PaddedValue(items[0])]
  {
    hide *;
    FirstLegal(items);
    FirstValue(items);
    AssociateValues(acc, [PaddedValue(items[0])], ItemValues(items[1..]));
  }

  lemma FirstValue(items: seq<Padded>)
    requires LegalItems(items) && items != []
    ensures ItemValues(items) == [PaddedValue(items[0])] + ItemValues(items[1..])
    ensures |items| == 1 ==> ItemValues(items) == [PaddedValue(items[0])]
  {
    hide PaddedValue;
  }

  lemma AssociateValues(a: seq<Value>, b: seq<Value>, c: seq<Value>)
    ensures a + b + c == a + (b + c)
  {
  }

  lemma {:induction false} ItemsRead(items: seq<Padded>, rest: string, acc: seq<Value>)
    requires LegalItems(items) && items != []
    ensures ParseItems(ItemsSpelled(items) + ("]" + rest), acc) == Ok(Arr(acc + ItemValues(items)), rest)
    ensures SkipSpace(ItemsSpelled(items) + ("]" + rest)) != "" && SkipSpace(ItemsSpelled(items) + ("]" + rest))[0] != ']'
    decreases items, 4
  {
    hide *;
    FirstLegal(items);
    var more := ItemsSpelled(items[1..]) + ("]" + rest);
    var c, tail := if |items| == 1 then ']' else ',', if |items| == 1 then rest else more;
    SeparatorFacts(c, tail);
    ItemsSpelledStep(items, "]" + rest);
    PaddedBegins(items[0], [c] + tail);
    PaddedRead(items[0], c, tail);
    ItemStep(ItemsSpelled(items) + ("]" + rest), PaddedValue(items[0]), items[0].after + ([c] + tail), [c] + tail, acc);
    ItemValuesCons(items, acc);
    if |items| > 1 { ItemsRead(items[1..], rest, acc + [PaddedValue(items[0])]); }
  }

  lemma MemberRead(m: Member, s: string, c: char, rest: string)
    requires LegalMember(m) && s == MemberSpelled(m) + ([c] + rest)
    requires ParseValue(PaddedText(m.value) + ([c] + rest)) == Ok(PaddedValue(m.value), m.value.after + ([c] + rest))
    ensures ParseMember(s) == Ok(MemberEntry(m), m.value.after + ([c] + rest))
  {
    hide ParseValue, PaddedText, PaddedValue, MemberSpelled, SkipSpace, SpellAll, MeansAll;
    var x := PaddedText(m.value) + ([c] + rest);
    var t := m.colon + (":" + x);
    MemberBegins(m, [c] + rest);
    StringRead(m.key, t, "");
    assert "" + MeansAll(m.key) == MeansAll(m.key);
    SkipBlankBefore(m.colon, ":" + x);
    assert ("\"" + (SpellAll(m.key) + ("\"" + t)))[1..] == SpellAll(m.key) + ("\"" + t);
    assert (":" + x)[1..] == x;
  }

  lemma MemberStep(s: string, e: Entry, r: string, t: string, acc: seq<Entry>)
    requires ParseMember(s) == Ok(e, r) && SkipSpace(r) == t && t != ""
    ensures t[0] == '}' ==> ParseMembers(s, acc) == Ok(Obj(Assign(acc, e.key, e.value)), t[1..])
    ensures t[0] == ',' ==> ParseMembers(s, acc) == ParseMembers(t[1..], Assign(acc, e.key, e.value))
  {
    hide ParseMember, SkipSpace, Assign;
  }

  lemma MembersSpelledStep(members: seq<Member>, rest: string)
    requires LegalMembers(members) && members != []
    ensures MembersSpelled(members) + rest ==
      MemberSpelled(members[0]) + (if |members| == 1 then rest else "," + (MembersSpelled(members[1..]) + rest))
  {
    hide MemberSpelled;
    if |members| > 1 {
      Associate(MemberSpelled(members[0]), "," + MembersSpelled(members[1..]), rest);
      Associate(",", MembersSpelled(members[1..]), rest);
    }
  }

  lemma AssignAllCons(members: seq<Member>, acc: seq<Entry>)
    requires LegalMembers(members) && members != []
    ensures
      var e := MemberEntry(members[0]);
      && AssignAll(acc, members) == AssignAll(Assign(acc, e.key, e.value), members[1..])
      && (|members| == 1 ==> AssignAll(acc, members) == Assign(acc, e.key, e.value))
  {
    hide MemberEntry, Assign;
    if |members| == 1 { assert members[1..] == []; }
  }

  lemma {:induction false} MembersRead(members: seq<Member>, rest: string, acc: seq<Entry>)
    requires LegalMembers(members) && members != []
    ensures ParseMembers(MembersSpelled(members) + ("}" + rest), acc) == Ok(Obj(AssignAll(acc, members)), rest)
    ensures SkipSpace(MembersSpelled(members) + ("}" + rest)) != "" && SkipSpace(MembersSpelled(members) + ("}" + rest))[0] != '}'
    decreases members, 4
  {
    hide *;
    FirstMemberLegal(members);
    var m, more := members[0], MembersSpelled(members[1..]) + ("}" + rest);
    var c, tail := if |members| == 1 then '}' else ',', if |members| == 1 then rest else more;
    SeparatorFacts(c, tail);
    MembersSpelledStep(members, "}" + rest);
    MemberBegins(m, [c] + tail);
    PaddedRead(m.value, c, tail);
    MemberRead(m, MembersSpelled(members) + ("}" + rest), c, tail);
    MemberStep(MembersSpelled(members) + ("}" + rest), MemberEntry(m), m.value.after + ([c] + tail), [c] + tail, acc);
    AssignAllCons(members, acc);
    if |members| > 1 { MembersRead(members[1..], rest, Assign(acc, MemberEntry(m).key, MemberEntry(m).value)); }
  }

  lemma FirstMemberLegal(members: seq<Member>)
    requires LegalMembers(members) && members != []
    ensures LegalMember(members[0]) && LegalPadded(members[0].value) && LegalMembers(members[1..])
  {
    hide LegalPadded;
  }

  lemma FirstLegal(items: seq<Padded>)
    requires LegalItems(items) && items != []
    ensures LegalPadded(items[0]) && LegalItems(items[1..])
  {
    hide LegalPadded;
  }

  lemma SeparatorFacts(c: char, tail: string)
    ensures c in "],}:" ==> !IsDigit(c) && c != '.' && c != 'e' && c != 'E' && !IsSpace(c)
    ensures ([c] + tail)[0] == c && ([c] + tail)[1..] == tail
  {
  }

  // ---------------------------------------------------------------- nothing else is accepted

  lemma DigitsSpelling(negative: bool, t: string) returns (digits: string)
    requires ParseDigits(negative, t).Ok?
    ensures digits != "" && AllDigits(digits) && ValueOf(digits) <= EXACT
    ensures t == digits + ParseDigits(negative, t).rest && ParseDigits(negative, t).value == Num(Signed(negative, ValueOf(digits)))
    ensures !Continues(ParseDigits(negative, t).rest)
  {
    SkippedDigits(t);
    NothingSkipped(SkipDigits(t));
    hide SkipDigits, SkipExponent, SkipFraction;
    digits := t[..|t| - |SkipDigits(t)|];
  }

  lemma NothingSkipped(u: string)
    requires SkipExponent(SkipFraction(u)) == u && (u == "" || !IsDigit(u[0]))
    ensures !Continues(u)
  {
  }

  lemma SignedDigits(negative: bool, digits: string, t: string, rest: string)
    requires digits != "" && AllDigits(digits) && ValueOf(digits) <= EXACT
    requires t == if negative then "-" + (digits + rest) else digits + rest
    ensures LegalDoc(NumberDoc(negative, digits)) && t == DocText(NumberDoc(negative, digits)) + rest
  {
    Associate("-", digits, rest);
    EmptyPrefix(digits);
  }

  lemma NumberSpelling(t: string) returns (d: Doc)
    requires t != "" && (t[0] == '-' || IsDigit(t[0])) && ParseValue(t).Ok?
    ensures d.NumberDoc? && LegalDoc(d) && t == DocText(d) + ParseValue(t).rest && ParseValue(t).value == DocValue(d)
    ensures !Continues(ParseValue(t).rest)
  {
    NumberBegins(t);
    hide ParseValue, ParseDigits, DocText, LegalDoc, Continues, ValueOf;
    SplitFirstChar(t);
    var digits := DigitsSpelling(t[0] == '-', if t[0] == '-' then t[1..] else t);
    d := NumberDoc(t[0] == '-', digits);
    SignedDigits(t[0] == '-', digits, t, ParseValue(t).rest);
  }

  lemma StringBegun(t: string)
    requires t != "" && t[0] == '\"' && ParseValue(t).Ok?
    ensures ParseString(t[1..], "").Ok?
    ensures ParseValue(t) == Ok(Str(ParseString(t[1..], "").value), ParseString(t[1..], "").rest)
  {
    NoSpaceSkipped(t);
    hide ParseDigits, ParseItems, ParseMembers, ParseString, SkipSpace;
  }

  lemma StringDocSpelling(t: string) returns (d: Doc)
    requires t != "" && t[0] == '\"' && ParseValue(t).Ok?
    ensures d.StringDoc? && LegalDoc(d) && t == DocText(d) + ParseValue(t).rest && ParseValue(t).value == DocValue(d)
  {
    StringBegun(t);
    hide ParseValue, ParseString, SpellAll, MeansAll;
    var xs := StringSpelling(t[1..], "");
    d := StringDoc(xs);
    var rest := ParseValue(t).rest;
    assert "" + MeansAll(xs) == MeansAll(xs) && t == "\"" + t[1..];
    Associate("\"", SpellAll(xs) + "\"", rest);
    Associate(SpellAll(xs), "\"", rest);
  }

  lemma WordSpelling(t: string) returns (d: Doc)
    requires t != "" && t[0] in "tfn" && ParseValue(t).Ok?
    ensures (d.NullDoc? || d.BoolDoc?) && t == DocText(d) + ParseValue(t).rest && ParseValue(t).value == DocValue(d)
  {
    NoSpaceSkipped(t);
    hide ParseDigits, ParseItems, ParseMembers, ParseString, SkipSpace;
    d := if t[0] == 't' then BoolDoc(true) else if t[0] == 'f' then BoolDoc(false) else NullDoc;
    assert ParseValue(t) == ParseLiteral(t, DocText(d), DocValue(d));
    assert t == t[..|DocText(d)|] + t[|DocText(d)|..];
  }

  lemma ArrayBegun(t: string)
    requires t != "" && t[0] == '['
    ensures
      var body := SkipSpace(t[1..]);
      ParseValue(t) == if Starts(body, ']') then Ok(Arr([]), body[1..]) else ParseItems(t[1..], [])
  {
    NoSpaceSkipped(t);
    ItemsSkip(t[1..], []);
    hide ParseDigits, ParseItems, ParseMembers, ParseString, SkipSpace;
  }

  lemma ObjectBegun(t: string)
    requires t != "" && t[0] == '{'
    ensures
      var body := SkipSpace(t[1..]);
      ParseValue(t) == if Starts(body, '}') then Ok(Obj([]), body[1..]) else ParseMembers(t[1..], [])
  {
    NoSpaceSkipped(t);
    MembersSkip(t[1..], []);
    hide ParseDigits, ParseItems, ParseMembers, ParseString, SkipSpace;
  }

  lemma ValueBegins(t: string)
    requires t != "" && !IsSpace(t[0]) && ParseValue(t).Ok?
    ensures t[0] in "{[\"tfn-" || IsDigit(t[0])
  {
    NoSpaceSkipped(t);
    hide ParseDigits, ParseItems, ParseMembers, ParseString, SkipSpace;
  }

  /** Every value the parser accepts is a document, behind whitespace. */
  lemma {:induction false} DocSpelling(s: string) returns (before: string, d: Doc)
    requires ParseValue(s).Ok?
    ensures Blank(before) && LegalDoc(d) && (d.NumberDoc? ==> !Continues(ParseValue(s).rest))
    ensures s == before + (DocText(d) + ParseValue(s).rest) && ParseValue(s).value == DocValue(d)
    decreases |s|, 2
  {
    hide *;
    before := SkippedIsBlank(s);
    var t := SkipSpace(s);
    ValueSkips(s);
    NotAllBlank(s);
    ValueBegins(t);
    if t[0] == '[' {
      d := ArraySpelling(t);
    } else if t[0] == '{' {
      d := ObjectSpelling(t);
    } else if t[0] == '\"' {
      d := StringDocSpelling(t);
    } else if t[0] == '-' || IsDigit(t[0]) {
      d := NumberSpelling(t);
    } else {
      d := WordSpelling(t);
      WordIsLegal(d);
    }
  }

  lemma WordIsLegal(d: Doc)
    requires d.NullDoc? || d.BoolDoc?
    ensures LegalDoc(d)
  {
  }

  lemma NotAllBlank(s: string)
    requires ParseValue(s).Ok?
    ensures SkipSpace(s) != "" && !IsSpace(SkipSpace(s)[0]) && |SkipSpace(s)| <= |s|
  {
    hide ParseDigits, ParseItems, ParseMembers, ParseString;
  }

  lemma {:induction false} ArraySpelling(t: string) returns (d: Doc)
    requires t != "" && t[0] == '[' && ParseValue(t).Ok?
    ensures !d.NumberDoc? && LegalDoc(d) && t == DocText(d) + ParseValue(t).rest && ParseValue(t).value == DocValue(d)
    decreases |t|, 1
  {
    ArrayBegun(t);
    hide ParseValue, ParseItems, SkipSpace;
    var rest := ParseValue(t).rest;
    assert t == "[" + t[1..];
    if Starts(SkipSpace(t[1..]), ']') {
      var gap := SkippedIsBlank(t[1..]);
      d := ArrayDoc(gap, []);
      assert SkipSpace(t[1..]) == "]" + rest;
      Bracketed("[", gap, "]", rest);
    } else {
      var items := ItemsSpelling(t[1..], []);
      d := ArrayDoc("", items);
      assert [] + ItemValues(items) == ItemValues(items);
      Bracketed("[", ItemsSpelled(items), "]", rest);
    }
  }

  lemma Bracketed(a: string, body: string, z: string, rest: string)
    ensures a + (body + z) + rest == a + (body + (z + rest))
  {
    Associate(a, body + z, rest);
    Associate(body, z, rest);
  }

  lemma {:induction false} ItemsSpelling(s: string, acc: seq<Value>) returns (items: seq<Padded>)
    requires ParseItems(s, acc).Ok?
    ensures items != [] && LegalItems(items)
    ensures s == ItemsSpelled(items) + ("]" + ParseItems(s, acc).rest) && ParseItems(s, acc).value == Arr(acc + ItemValues(items))
    decreases |s|, 4
  {
    hide *;
    ItemsBegin(s, acc);
    var before, d := DocSpelling(s);
    var r := ParseValue(s).rest;
    var after := SkippedIsBlank(r);
    var p := Padded(before, d, after);
    var t := SkipSpace(r);
    PaddedSpelling(p, s, t);
    ItemStep(s, PaddedValue(p), r, t, acc);
    SplitFirstChar(t);
    if t[0] == ']' {
      items := [p];
      OneItem(p, acc);
      ItemsSpelledStep(items, "]" + t[1..]);
    } else {
      var more := ItemsSpelling(t[1..], acc + [PaddedValue(p)]);
      items := [p] + more;
      MoreItems(p, more, acc);
      ItemsSpelledStep(items, "]" + ParseItems(s, acc).rest);
    }
  }

  lemma SplitFirstChar(t: string)
    requires t != ""
    ensures t == [t[0]] + t[1..]
  {
  }

  lemma ItemsBegin(s: string, acc: seq<Value>)
    requires ParseItems(s, acc).Ok?
    ensures ParseValue(s).Ok? && SkipSpace(ParseValue(s).rest) != ""
    ensures SkipSpace(ParseValue(s).rest)[0] == ']' || SkipSpace(ParseValue(s).rest)[0] == ','
    ensures |SkipSpace(ParseValue(s).rest)| <= |ParseValue(s).rest| < |s|
  {
    hide ParseValue;
  }

  lemma PaddedSpelling(p: Padded, s: string, t: string)
    requires Blank(p.before) && Blank(p.after) && LegalDoc(p.doc) && s == p.before + (DocText(p.doc) + (p.after + t))
    ensures LegalPadded(p) && s == PaddedText(p) + t && PaddedValue(p) == DocValue(p.doc)
  {
    hide DocText, DocValue, LegalDoc, Blank;
    Associate(p.before, DocText(p.doc) + p.after, t);
    Associate(DocText(p.doc), p.after, t);
  }

  lemma OneItem(p: Padded, acc: seq<Value>)
    requires LegalPadded(p)
    ensures LegalItems([p]) && acc + ItemValues([p]) == acc + [PaddedValue(p)]
  {
    hide LegalPadded, PaddedValue;
    assert [p][1..] == [];
  }

  lemma MoreItems(p: Padded, more: seq<Padded>, acc: seq<Value>)
    requires LegalPadded(p) && LegalItems(more) && more != []
    ensures LegalItems([p] + more) && ([p] + more)[1..] == more && |[p] + more| > 1
    ensures acc + ItemValues([p] + more) == acc + [PaddedValue(p)] + ItemValues(more)
  {
    hide LegalPadded, PaddedValue;
    assert ([p] + more)[1..] == more;
  }

  lemma {:induction false} ObjectSpelling(t: string) returns (d: Doc)
    requires t != "" && t[0] == '{' && ParseValue(t).Ok?
    ensures !d.NumberDoc? && LegalDoc(d) && t == DocText(d) + ParseValue(t).rest && ParseValue(t).value == DocValue(d)
    decreases |t|, 1
  {
    ObjectBegun(t);
    hide ParseValue, ParseMembers, SkipSpace;
    var rest := ParseValue(t).rest;
    assert t == "{" + t[1..];
    if Starts(SkipSpace(t[1..]), '}') {
      var gap := SkippedIsBlank(t[1..]);
      d := ObjectDoc(gap, []);
      assert SkipSpace(t[1..]) == "}" + rest;
      Bracketed("{", gap, "}", rest);
    } else {
      var members := MembersSpelling(t[1..], []);
      d := ObjectDoc("", members);
      Bracketed("{", MembersSpelled(members), "}", rest);
    }
  }

  lemma {:induction false} MembersSpelling(s: string, acc: seq<Entry>) returns (members: seq<Member>)
    requires ParseMembers(s, acc).Ok?
    ensures members != [] && LegalMembers(members)
    ensures s == MembersSpelled(members) + ("}" + ParseMembers(s, acc).rest) && ParseMembers(s, acc).value == Obj(AssignAll(acc, members))
    decreases |s|, 4
  {
    hide *;
    MembersBegin(s, acc);
    var m, t := MemberSpelling(s);
    var e := MemberEntry(m);
    MemberStep(s, e, ParseMember(s).rest, t, acc);
    SplitFirstChar(t);
    if t[0] == '}' {
      members := [m];
      OneMember(m, acc);
      MembersSpelledStep(members, "}" + t[1..]);
    } else {
      var more := MembersSpelling(t[1..], Assign(acc, e.key, e.value));
      members := [m] + more;
      MoreMembers(m, more, acc);
      MembersSpelledStep(members, "}" + ParseMembers(s, acc).rest);
    }
  }

  lemma MembersBegin(s: string, acc: seq<Entry>)
    requires ParseMembers(s, acc).Ok?
    ensures ParseMember(s).Ok? && SkipSpace(ParseMember(s).rest) != ""
    ensures SkipSpace(ParseMember(s).rest)[0] == '}' || SkipSpace(ParseMember(s).rest)[0] == ','
    ensures |SkipSpace(ParseMember(s).rest)| <= |ParseMember(s).rest| < |s|
  {
    hide ParseMember;
  }

  lemma MemberBegun(s: string)
    requires ParseMember(s).Ok?
    ensures
      var k := SkipSpace(s);
      && k != "" && k[0] == '\"' && ParseString(k[1..], "").Ok? && |k| <= |s|
      && var c := SkipSpace(ParseString(k[1..], "").rest);
         c != "" && c[0] == ':' && |c| < |s| && ParseValue(c[1..]).Ok?
         && ParseMember(s) == Ok(Entry(ParseString(k[1..], "").value, ParseValue(c[1..]).value), ParseValue(c[1..]).rest)
  {
    hide ParseValue, ParseString;
  }

  lemma {:induction false} MemberSpelling(s: string) returns (m: Member, t: string)
    requires ParseMember(s).Ok?
    ensures LegalMember(m) && t == SkipSpace(ParseMember(s).rest)
    ensures s == MemberSpelled(m) + t && ParseMember(s).value == MemberEntry(m)
    decreases |s|, 3
  {
    hide *;
    MemberBegun(s);
    var before := SkippedIsBlank(s);
    var k := SkipSpace(s);
    var key := StringSpelling(k[1..], "");
    var u := ParseString(k[1..], "").rest;
    var colon := SkippedIsBlank(u);
    var c := SkipSpace(u);
    var b, d := DocSpelling(c[1..]);
    var r := ParseValue(c[1..]).rest;
    var after := SkippedIsBlank(r);
    t := SkipSpace(r);
    var p := Padded(b, d, after);
    PaddedSpelling(p, c[1..], t);
    m := Member(before, key, colon, p);
    SplitFirstChar(k);
    SplitFirstChar(c);
    MemberSpellingParts(m, s, t);
    EmptyPrefix(MeansAll(key));
  }

  lemma EmptyPrefix(s: string)
    ensures "" + s == s
  {
  }

  lemma MemberSpellingParts(m: Member, s: string, t: string)
    requires Blank(m.before) && Blank(m.colon) && AllLegal(m.key) && LegalPadded(m.value)
    requires s == m.before + ("\"" + (SpellAll(m.key) + ("\"" + (m.colon + (":" + (PaddedText(m.value) + t))))))
    ensures LegalMember(m) && s == MemberSpelled(m) + t && MemberEntry(m) == Entry(MeansAll(m.key), DocValue(m.value.doc))
  {
    hide SpellAll, MeansAll, PaddedText, DocValue, Blank, AllLegal, LegalPadded;
    MemberParts(m.before, SpellAll(m.key), m.colon, PaddedText(m.value), t);
  }

  lemma OneMember(m: Member, acc: seq<Entry>)
    requires LegalMember(m)
    ensures LegalMembers([m]) && AssignAll(acc, [m]) == Assign(acc, MemberEntry(m).key, MemberEntry(m).value)
  {
    hide LegalMember, MemberEntry, Assign;
    assert [m][1..] == [];
  }

  lemma MoreMembers(m: Member, more: seq<Member>, acc: seq<Entry>)
    requires LegalMember(m) && LegalMembers(more) && more != []
    ensures LegalMembers([m] + more) && ([m] + more)[1..] == more && |[m] + more| > 1
    ensures AssignAll(acc, [m] + more) == AssignAll(Assign(acc, MemberEntry(m).key, MemberEntry(m).value), more)
  {
    hide LegalMember, MemberEntry, Assign;
    assert ([m] + more)[1..] == more;
  }

  // ---------------------------------------------------------------- the language

  /** The text is a document between whitespace, with this value. */
  ghost predicate IsDocument(text: string, v: Value) {
    exists p: Padded :: LegalPadded(p) && text == PaddedText(p) && v == PaddedValue(p)
  }

  lemma BlankRest(b: string)
    requires Blank(b)
    ensures !Continues(b) && SkipSpace(b) == ""
  {
    SkipBlank(b, "");
    assert b + "" == b;
  }

  lemma ParseIs(s: string)
    ensures ParseValue(s).Ok? && SkipSpace(ParseValue(s).rest) == "" ==> Parse(s) == Ok(ParseValue(s).value, "")
    ensures Parse(s).Ok? ==> ParseValue(s).Ok? && SkipSpace(ParseValue(s).rest) == "" && Parse(s) == Ok(ParseValue(s).value, "")
  {
    hide ParseValue, SkipSpace;
  }

  /** The parser accepts exactly the documents, and yields exactly their values. */
  lemma AcceptsExactlyDocuments(text: string, v: Value)
    ensures Parse(text) == Ok(v, "") <==> IsDocument(text, v)
  {
    hide Parse, ParseValue, SkipSpace, DocText, DocValue, LegalDoc, Blank, Continues;
    ParseIs(text);
    if Parse(text) == Ok(v, "") {
      var before, d := DocSpelling(text);
      var after := SkippedIsBlank(ParseValue(text).rest);
      EmptySuffix(after);
      var p := Padded(before, d, after);
      assert LegalPadded(p) && text == PaddedText(p);
    }
    if IsDocument(text, v) {
      var p: Padded :| LegalPadded(p) && text == PaddedText(p) && v == PaddedValue(p);
      BlankRest(p.after);
      DocRead(p.doc, p.after);
      PaddedBegins(p, "");
      EmptySuffix(PaddedText(p));
      EmptySuffix(p.after);
      ValueSkips(text);
    }
  }

  lemma EmptySuffix(s: string)
    ensures s + "" == s
  {
  }

  // ---------------------------------------------------------------- objects

  lemma AssignMembers(entries: seq<Entry>, key: string, value: Value, e: Entry)
    requires Sorted(entries)
    ensures e in Assign(entries, key, value) <==> e == Entry(key, value) || (e in entries && e.key != key)
  {
    AssignKeys(entries, key, value);
    AssignHas(entries, key, value, e);
    hide Assign, Sorted;
    if e in Assign(entries, key, value) {
      var i :| 0 <= i < |Assign(entries, key, value)| && Assign(entries, key, value)[i] == e;
    }
  }

  lemma {:induction false} AssignHas(entries: seq<Entry>, key: string, value: Value, e: Entry)
    ensures e == Entry(key, value) || (e in entries && e.key != key) ==> e in Assign(entries, key, value)
    decreases |entries|
  {
    hide Lex.Less;
    if entries != [] {
      AssignHas(entries[1..], key, value, e);
      assert entries == [entries[0]] + entries[1..];
    }
  }

  /** No member from i on has this key. */
  predicate LastOfKey(members: seq<Member>, i: nat)
    requires LegalMembers(members) && i < |members|
  {
    forall j :: i < j < |members| ==> MemberEntry(members[j]).key != MemberEntry(members[i]).key
  }

  ghost predicate LastEntry(members: seq<Member>, e: Entry)
    requires LegalMembers(members)
  {
    exists i :: 0 <= i < |members| && MemberEntry(members[i]) == e && LastOfKey(members, i)
  }

  ghost predicate KeyFree(members: seq<Member>, key: string)
    requires LegalMembers(members)
  {
    forall j :: 0 <= j < |members| ==> MemberEntry(members[j]).key != key
  }

  lemma LastEntryCons(members: seq<Member>, e: Entry)
    requires LegalMembers(members) && members != []
    ensures LastEntry(members, e) <==>
      LastEntry(members[1..], e) || (MemberEntry(members[0]) == e && KeyFree(members[1..], e.key))
    ensures KeyFree(members, e.key) <==> MemberEntry(members[0]).key != e.key && KeyFree(members[1..], e.key)
  {
    hide MemberEntry, LegalMember;
    var rest := members[1..];
    assert forall j :: 0 < j < |members| ==> members[j] == rest[j - 1];
    if LastEntry(members, e) {
      var i :| 0 <= i < |members| && MemberEntry(members[i]) == e && LastOfKey(members, i);
      if i > 0 {
        assert LastOfKey(rest, i - 1);
      } else {
        assert KeyFree(rest, e.key);
      }
    }
    if LastEntry(rest, e) {
      var i :| 0 <= i < |rest| && MemberEntry(rest[i]) == e && LastOfKey(rest, i);
      assert LastOfKey(members, i + 1);
    }
    if MemberEntry(members[0]) == e && KeyFree(rest, e.key) {
      assert LastOfKey(members, 0);
    }
  }

  /** An object holds, sorted by key, exactly the last member of each key. */
  lemma {:induction false} ObjectHoldsLast(acc: seq<Entry>, members: seq<Member>, e: Entry)
    requires LegalMembers(members) && Sorted(acc)
    ensures Sorted(AssignAll(acc, members))
    ensures e in AssignAll(acc, members) <==> LastEntry(members, e) || (e in acc && KeyFree(members, e.key))
    decreases |members|
  {
    if members == [] { return; }
    hide MemberEntry, LegalMember, Assign, LastEntry, KeyFree, AssignAll, Sorted;
    var m := MemberEntry(members[0]);
    AssignAllCons(members, acc);
    AssignKeys(acc, m.key, m.value);
    AssignMembers(acc, m.key, m.value, e);
    ObjectHoldsLast(Assign(acc, m.key, m.value), members[1..], e);
    LastEntryCons(members, e);
  }
}
