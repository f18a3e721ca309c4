/** The parser undoes the printer, and everything it returns is printable. */
module JsonRoundTrip {
  import opened Decimal
  import opened Json
  import Lex
  import opened Bytes

  // ---------------------------------------------------------------- strings

  lemma HexRoundTrip(d: nat)
    requires d < 16
    ensures HexValue("0123456789abcdef"[d]) == d
  {
  }

  lemma UnicodeEscapeRoundTrip(c: char, tail: string)
    requires c < ' '
    ensures ParseEscape("u00" + ["0123456789abcdef"[c as int / 16], "0123456789abcdef"[c as int % 16]] + tail) == Ok([c], tail)
  {
    var hi, lo := "0123456789abcdef"[c as int / 16], "0123456789abcdef"[c as int % 16];
    var s3 := [lo] + tail;
    var s2 := [hi] + s3;
    var s1 := "0" + s2;
    var s0 := "0" + s1;
    HexRoundTrip(c as int / 16);
    HexRoundTrip(c as int % 16);
    assert "u00" + [hi, lo] + tail == "u" + s0;
    assert ("u" + s0)[1..] == s0 && s0[1..] == s1 && s1[1..] == s2 && s2[1..] == s3 && s3[1..] == tail;
    assert Pow16(0) == 1 && Pow16(1) == 16 && Pow16(2) == 256 && Pow16(3) == 4096;
    calc {
      ParseHex(s0, 4, 0);
      ParseHex(s1, 3, 0);
      ParseHex(s2, 2, 0);
      ParseHex(s3, 1, c as int / 16);
      ParseHex(tail, 0, c as int);
      Ok(c as int, tail);
    }
  }

  lemma EscapeRoundTrip(c: char, tail: string, acc: string)
    ensures ParseString(EscapeChar(c) + tail, acc) == ParseString(tail, acc + [c])
  {
    var s := EscapeChar(c) + tail;
    if c < ' ' && c !in {'\U{8}', '\U{c}', '\n', '\r', '\t'} {
      var e := "u00" + ["0123456789abcdef"[c as int / 16], "0123456789abcdef"[c as int % 16]] + tail;
      assert s[1..] == e;
      UnicodeEscapeRoundTrip(c, tail);
    } else if |EscapeChar(c)| == 2 {
      assert s[1..] == [EscapeChar(c)[1]] + tail;
      assert s[1..][1..] == tail;
    } else {
      assert s[1..] == tail;
    }
  }

  lemma {:induction false} StringRoundTrip(s: string, rest: string, acc: string)
    ensures ParseString(Escape(s) + ("\"" + rest), acc) == Ok(acc + s, rest)
    decreases |s|
  {
    var tail := "\"" + rest;
    if s == "" {
      assert Escape(s) + tail == tail && tail[1..] == rest && acc + s == acc;
    } else {
      assert Escape(s) + tail == EscapeChar(s[0]) + (Escape(s[1..]) + tail);
      EscapeRoundTrip(s[0], Escape(s[1..]) + tail, acc);
      StringRoundTrip(s[1..], rest, acc + [s[0]]);
      assert acc + [s[0]] + s[1..] == acc + s;
    }
  }

  // ---------------------------------------------------------------- numbers

  /** Characters that would extend a number. */
  predicate Continues(rest: string) {
    rest != "" && (IsDigit(rest[0]) || rest[0] == '.' || rest[0] == 'e' || rest[0] == 'E')
  }

  lemma {:induction false} SkipDigitsExact(digits: string, rest: string)
    requires AllDigits(digits) && (rest == "" || !IsDigit(rest[0]))
    ensures SkipDigits(digits + rest) == rest
  {
    if digits == "" {
      assert digits + rest == rest;
    } else {
      assert (digits + rest)[1..] == digits[1..] + rest;
      SkipDigitsExact(digits[1..], rest);
    }
  }

  lemma NumberRoundTrip(n: int, rest: string)
    requires -EXACT <= n <= EXACT && !Continues(rest)
    ensures ParseNumber(NumberText(n) + rest) == Ok(Num(n), rest)
  {
    hide SkipDigits, ToText;
    var digits := ToText(if n < 0 then -n else n);
    var s := NumberText(n) + rest;
    var t := if n < 0 then s[1..] else s;
    assert t == digits + rest;
    SkipDigitsExact(digits, rest);
    assert t[..|t| - |rest|] == digits;
    assert SkipExponent(SkipFraction(rest)) == rest;
    TextRoundTrip(if n < 0 then -n else n);
  }

  // ---------------------------------------------------------------- values

  lemma StringifyStart(v: Value)
    ensures Stringify(v) != ""
    ensures !IsSpace(Stringify(v)[0]) && Stringify(v)[0] != ']' && Stringify(v)[0] != '}' && Stringify(v)[0] != ','
  {
  }

  lemma NoSpaceSkipped(s: string)
    requires s != "" && !IsSpace(s[0])
    ensures SkipSpace(s) == s
  {
  }

  lemma ArrayDispatch(body: string)
    requires body != "" && !IsSpace(body[0])
    ensures ParseValue("[" + body) == if body[0] == ']' then Ok(Arr([]), body[1..]) else ParseItems(body, [])
  {
    var s := "[" + body;
    NoSpaceSkipped(s);
    assert s[1..] == body;
    NoSpaceSkipped(body);
  }

  lemma ObjectDispatch(body: string)
    requires body != "" && !IsSpace(body[0])
    ensures ParseValue("{" + body) == if body[0] == '}' then Ok(Obj([]), body[1..]) else ParseMembers(body, [])
  {
    var s := "{" + body;
    NoSpaceSkipped(s);
    assert s[1..] == body;
    NoSpaceSkipped(body);
  }

  lemma LiteralRead(word: string, v: Value, rest: string)
    requires word != ""
    ensures ParseLiteral(word + rest, word, v) == Ok(v, rest)
  {
  }

  lemma WordRoundTrip(v: Value, rest: string)
    requires v.Null? || v.Bool?
    ensures ParseValue(Stringify(v) + rest) == Ok(v, rest)
  {
    NoSpaceSkipped(Stringify(v) + rest);
    LiteralRead(Stringify(v), v, rest);
  }

  lemma StringValueRoundTrip(t: string, rest: string)
    ensures ParseValue(Quote(t) + rest) == Ok(Str(t), rest)
  {
    var s := Quote(t) + rest;
    NoSpaceSkipped(s);
    Associate("\"", Escape(t) + "\"", rest);
    Associate(Escape(t), "\"", rest);
    assert s[1..] == Escape(t) + ("\"" + rest);
    StringRoundTrip(t, rest, "");
    assert "" + t == t;
  }

  lemma NumberValueRoundTrip(n: int, rest: string)
    requires -EXACT <= n <= EXACT && !Continues(rest)
    ensures ParseValue(NumberText(n) + rest) == Ok(Num(n), rest)
  {
    NoSpaceSkipped(NumberText(n) + rest);
    NumberRoundTrip(n, rest);
  }

  /** Parsing the text of a value followed by anything that does not extend a number stops
      exactly there and returns the value. */
  lemma {:induction false} ValueRoundTrip(v: Value, rest: string)
    requires WellFormed(v) && !Continues(rest)
    ensures ParseValue(Stringify(v) + rest) == Ok(v, rest)
    decreases v, 1
  {
    if v.Arr? {
      var body := ItemsText(v.items) + ("]" + rest);
      Associate("[", ItemsText(v.items) + "]", rest);
      Associate(ItemsText(v.items), "]", rest);
      ItemsRoundTrip(v.items, rest, []);
      assert [] + v.items == v.items && ("]" + rest)[1..] == rest;
      ArrayDispatch(body);
    } else if v.Obj? {
      var body := MembersText(v.entries) + ("}" + rest);
      Associate("{", MembersText(v.entries) + "}", rest);
      Associate(MembersText(v.entries), "}", rest);
      assert [] + v.entries == v.entries && ("}" + rest)[1..] == rest;
      MembersRoundTrip(v.entries, rest, []);
      ObjectDispatch(body);
    } else if v.Str? {
      StringValueRoundTrip(v.s, rest);
    } else if v.Num? {
      NumberValueRoundTrip(v.n, rest);
    } else {
      WordRoundTrip(v, rest);
    }
  }

  lemma ItemRound(v: Value, tail: string, acc: seq<Value>)
    requires ParseValue(Stringify(v) + tail) == Ok(v, tail)
    requires Starts(tail, ']') || Starts(tail, ',')
    ensures ParseItems(Stringify(v) + tail, acc)
         == if tail[0] == ']' then Ok(Arr(acc + [v]), tail[1..]) else ParseItems(tail[1..], acc + [v])
  {
    hide ParseValue, Stringify;
    NoSpaceSkipped(tail);
  }

  /** The text of an array's items before the text that follows them. */
  lemma ItemsStep(items: seq<Value>, rest: string)
    requires items != []
    ensures ItemsText(items) + ("]" + rest) == Stringify(items[0]) +
      (if |items| == 1 then "]" + rest else "," + (ItemsText(items[1..]) + ("]" + rest)))
  {
    if |items| > 1 {
      hide Stringify;
      Associate(Stringify(items[0]), "," + ItemsText(items[1..]), "]" + rest);
      Associate(",", ItemsText(items[1..]), "]" + rest);
    }
  }

  lemma FirstItem(v: Value, tail: string)
    ensures
      var s := Stringify(v) + tail;
      s != "" && !IsSpace(s[0]) && s[0] != ']'
  {
    StringifyStart(v);
  }

  lemma BeforeSeparator(rest: string)
    ensures !Continues("]" + rest) && !Continues("," + rest)
    ensures Starts("]" + rest, ']') && Starts("," + rest, ',')
    ensures ("]" + rest)[1..] == rest && ("," + rest)[1..] == rest
  {
  }

  lemma ItemsAccumulate(acc: seq<Value>, items: seq<Value>)
    requires items != []
    ensures acc + [items[0]] + items[1..] == acc + items
    ensures |items| == 1 ==> acc + [items[0]] == acc + items
  {
  }

  /** What `array` reads after its opening bracket. */
  lemma {:induction false} ItemsRoundTrip(items: seq<Value>, rest: string, acc: seq<Value>)
    requires forall i :: 0 <= i < |items| ==> WellFormed(items[i])
    ensures items == [] ==> ItemsText(items) + ("]" + rest) == "]" + rest
    ensures items != [] ==>
      var s := ItemsText(items) + ("]" + rest);
      s != "" && !IsSpace(s[0]) && s[0] != ']' && ParseItems(s, acc) == Ok(Arr(acc + items), rest)
    decreases items, 0
  {
    if items == [] { return; }
    hide *;
    var more := ItemsText(items[1..]) + ("]" + rest);
    var tail := if |items| == 1 then "]" + rest else "," + more;
    ItemsStep(items, rest);
    BeforeSeparator(rest);
    BeforeSeparator(more);
    FirstItem(items[0], tail);
    ValueRoundTrip(items[0], tail);
    ItemRound(items[0], tail, acc);
    ItemsAccumulate(acc, items);
    if |items| > 1 { ItemsRoundTrip(items[1..], rest, acc + [items[0]]); }
  }

  /** A key above all present ones is appended. */
  lemma {:induction false} AssignAppends(entries: seq<Entry>, key: string, value: Value)
    requires forall i :: 0 <= i < |entries| ==> Lex.Less(entries[i].key, key)
    ensures Assign(entries, key, value) == entries + [Entry(key, value)]
  {
    if entries != [] {
      Lex.Asymmetric(entries[0].key, key);
      AssignAppends(entries[1..], key, value);
      assert entries == [entries[0]] + entries[1..];
    }
  }

  /** One `"key":value` member, up to what follows it. */
  lemma {:induction false} MemberSplit(e: Entry, tail: string)
    ensures
      var s := MemberText(e) + tail;
      s != "" && s[0] == '\"' && ParseString(s[1..], "") == Ok(e.key, ":" + (Stringify(e.value) + tail))
  {
    var after := ":" + (Stringify(e.value) + tail);
    hide Escape, Stringify, ParseString;
    Associate(Quote(e.key), ":" + Stringify(e.value), tail);
    Associate(":", Stringify(e.value), tail);
    Associate("\"", Escape(e.key) + "\"", after);
    Associate(Escape(e.key), "\"", after);
    assert ("\"" + (Escape(e.key) + ("\"" + after)))[1..] == Escape(e.key) + ("\"" + after);
    StringRoundTrip(e.key, after, "");
    assert "" + e.key == e.key;
  }

  /** One round of the loop of `object` on a printed member. */
  lemma MemberRound(e: Entry, tail: string, acc: seq<Entry>)
    requires ParseValue(Stringify(e.value) + tail) == Ok(e.value, tail)
    requires Starts(tail, '}') || Starts(tail, ',')
    ensures ParseMembers(MemberText(e) + tail, acc)
         == if tail[0] == '}' then Ok(Obj(Assign(acc, e.key, e.value)), tail[1..])
            else ParseMembers(tail[1..], Assign(acc, e.key, e.value))
  {
    MemberSplit(e, tail);
    assert (":" + (Stringify(e.value) + tail))[1..] == Stringify(e.value) + tail;
    NoSpaceSkipped(MemberText(e) + tail);
    NoSpaceSkipped(":" + (Stringify(e.value) + tail));
    NoSpaceSkipped(tail);
  }

  lemma SortedAppend(acc: seq<Entry>, entries: seq<Entry>)
    requires Sorted(acc + entries) && entries != []
    ensures Assign(acc, entries[0].key, entries[0].value) == acc + [entries[0]]
    ensures acc + [entries[0]] + entries[1..] == acc + entries
  {
    var e := entries[0];
    forall i | 0 <= i < |acc| ensures Lex.Less(acc[i].key, e.key) {
      assert (acc + entries)[i] == acc[i] && (acc + entries)[|acc|] == e;
    }
    AssignAppends(acc, e.key, e.value);
    assert Entry(e.key, e.value) == e;
  }

  /** What `object` reads after its opening brace. */
  lemma {:induction false} MembersRoundTrip(entries: seq<Entry>, rest: string, acc: seq<Entry>)
    requires forall i :: 0 <= i < |entries| ==> WellFormed(entries[i].value)
    requires Sorted(acc + entries)
    ensures entries == [] ==> MembersText(entries) + ("}" + rest) == "}" + rest
    ensures entries != [] ==>
      var s := MembersText(entries) + ("}" + rest);
      s != "" && s[0] == '\"' && ParseMembers(s, acc) == Ok(Obj(acc + entries), rest)
    decreases entries, 0
  {
    if entries != [] {
      var e := entries[0];
      var tail := if |entries| == 1 then "}" + rest else "," + (MembersText(entries[1..]) + ("}" + rest));
      Associate(MemberText(e), "," + MembersText(entries[1..]), "}" + rest);
      Associate(",", MembersText(entries[1..]), "}" + rest);
      ValueRoundTrip(e.value, tail);
      MemberRound(e, tail, acc);
      SortedAppend(acc, entries);
      if |entries| == 1 {
        assert tail[1..] == rest && acc + [e] == acc + entries;
      } else {
        MembersRoundTrip(entries[1..], rest, acc + [e]);
        assert tail[1..] == MembersText(entries[1..]) + ("}" + rest);
      }
    }
  }

  /** Round trip: `parse(stringify(v)) == v`. */
  lemma RoundTrip(v: Value)
    requires WellFormed(v)
    ensures Parse(Stringify(v)) == Ok(v, "")
  {
    assert Stringify(v) + "" == Stringify(v);
    ValueRoundTrip(v, "");
  }

  // ---------------------------------------------------------------- what the parser returns

  lemma {:induction false} AssignKeys(entries: seq<Entry>, key: string, value: Value)
    requires Sorted(entries)
    ensures Sorted(Assign(entries, key, value))
    ensures forall i :: 0 <= i < |Assign(entries, key, value)| ==>
      var e := Assign(entries, key, value)[i];
      e == Entry(key, value) || (e in entries && e.key != key)
  {
    hide Lex.Less;
    var r := Assign(entries, key, value);
    if entries == [] {
    } else if key == entries[0].key {
      forall i | 0 < i < |r| ensures r[i] in entries && Lex.Less(key, r[i].key) && r[i].key != key {
        assert r[i] == entries[i];
        Lex.Asymmetric(key, r[i].key);
      }
    } else if Lex.Less(key, entries[0].key) {
      forall i | 0 < i < |r| ensures r[i] in entries && Lex.Less(key, r[i].key) && r[i].key != key {
        assert r[i] == entries[i - 1];
        if i > 1 { Lex.Transitive(key, entries[0].key, r[i].key); }
        Lex.Asymmetric(key, r[i].key);
      }
    } else {
      Lex.Total(key, entries[0].key);
      AssignKeys(entries[1..], key, value);
      forall i | 0 < i < |r| ensures Lex.Less(r[0].key, r[i].key) {
        assert r[i] == Assign(entries[1..], key, value)[i - 1];
        if r[i] in entries[1..] {
          var k :| 0 <= k < |entries[1..]| && entries[1..][k] == r[i];
          assert entries[k + 1] == r[i];
        }
      }
    }
  }

  lemma AssignWellFormed(acc: seq<Entry>, key: string, v: Value)
    requires WellFormed(Obj(acc)) && WellFormed(v)
    ensures WellFormed(Obj(Assign(acc, key, v)))
  {
    AssignKeys(acc, key, v);
  }

  /** Whatever text it is given, the parser returns only values the printer can print back. */
  lemma {:induction false} ParsedIsWellFormed(s: string)
    ensures ParseValue(s).Ok? ==> WellFormed(ParseValue(s).value)
    decreases |s|, 0
  {
    var t := SkipSpace(s);
    if t != "" {
      if t[0] == '{' && !Starts(SkipSpace(t[1..]), '}') {
        ParsedMembersWellFormed(SkipSpace(t[1..]), []);
      } else if t[0] == '[' && !Starts(SkipSpace(t[1..]), ']') {
        ParsedItemsWellFormed(SkipSpace(t[1..]), []);
      }
    }
  }

  lemma {:induction false} ParsedItemsWellFormed(s: string, acc: seq<Value>)
    requires WellFormed(Arr(acc))
    ensures ParseItems(s, acc).Ok? ==> WellFormed(ParseItems(s, acc).value)
    decreases |s|, 1
  {
    ParsedIsWellFormed(s);
    var v := ParseValue(s);
    if v.Ok? && Starts(SkipSpace(v.rest), ',') {
      ParsedItemsWellFormed(SkipSpace(v.rest)[1..], acc + [v.value]);
    }
  }

  lemma {:induction false} ParsedMemberWellFormed(s: string)
    ensures ParseMember(s).Ok? ==> WellFormed(ParseMember(s).value.value)
    decreases |s|, 1
  {
    var k := SkipSpace(s);
    if Starts(k, '\"') {
      var key := ParseString(k[1..], "");
      if key.Ok? && Starts(SkipSpace(key.rest), ':') {
        ParsedIsWellFormed(SkipSpace(key.rest)[1..]);
      }
    }
  }

  lemma {:induction false} ParsedMembersWellFormed(s: string, acc: seq<Entry>)
    requires WellFormed(Obj(acc))
    ensures ParseMembers(s, acc).Ok? ==> WellFormed(ParseMembers(s, acc).value)
    decreases |s|, 2
  {
    ParsedMemberWellFormed(s);
    var m := ParseMember(s);
    if m.Ok? {
      AssignWellFormed(acc, m.value.key, m.value.value);
      if Starts(SkipSpace(m.rest), ',') {
        ParsedMembersWellFormed(SkipSpace(m.rest)[1..], Assign(acc, m.value.key, m.value.value));
      }
    }
  }

  /** Printing what was parsed and parsing again changes nothing, for every accepted text. */
  lemma ReparseIsIdentity(s: string)
    requires Parse(s).Ok?
    ensures Parse(Stringify(Parse(s).value)) == Ok(Parse(s).value, "")
  {
    ParsedIsWellFormed(s);
    RoundTrip(Parse(s).value);
  }
}
