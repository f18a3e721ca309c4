/** What the printer writes, as a document: no whitespace, members in key order, and exactly the
    escapes that are needed. */
module JsonPrinted {
  import opened Decimal
  import opened Bytes
  import opened Json
  import opened JsonRoundTrip
  import opened JsonStrings
  import opened JsonGrammar

  /** Raw unless it must be escaped; then by a short escape if there is one, else by lower-case
      digits. The solidus is not escaped. */
  predicate CompactChar(x: Spelled) {
    match x
    case Raw(c) => c >= ' ' && c != '\"' && c != '\\'
    case Short(letter) => letter in "\"\\bfnrt"
    case Unicode(value, upper) => value < 0x20 && value !in {8, 9, 10, 12, 13} && upper == [false, false, false, false]
  }

  predicate CompactString(xs: seq<Spelled>) {
    forall i :: 0 <= i < |xs| ==> CompactChar(xs[i])
  }

  predicate Compact(d: Doc)
    decreases d, 0
  {
    match d
    case NumberDoc(negative, digits) => |digits| >= 1 && (|digits| > 1 ==> digits[0] != '0') && (negative ==> digits != "0")
    case StringDoc(chars) => CompactString(chars)
    case ArrayDoc(gap, items) => gap == "" && forall i :: 0 <= i < |items| ==> CompactPadded(items[i])
    case ObjectDoc(gap, members) => gap == "" && forall i :: 0 <= i < |members| ==> CompactMember(members[i])
    case _ => true
  }

  predicate CompactPadded(p: Padded)
    decreases p, 1
  {
    p.before == "" && p.after == "" && Compact(p.doc)
  }

  predicate CompactMember(m: Member)
    decreases m, 2
  {
    m.before == "" && m.colon == "" && CompactString(m.key) && CompactPadded(m.value)
  }

  // ---------------------------------------------------------------- strings

  lemma PrintedChar(c: char) returns (x: Spelled)
    ensures Legal(x) && CompactChar(x) && Spell(x) == EscapeChar(c) && Means(x) == [c]
  {
    if c == '\"' || c == '\\' { x := Short(c); }
    else if c as int == 8 { x := Short('b'); }
    else if c as int == 12 { x := Short('f'); }
    else if c == '\n' { x := Short('n'); }
    else if c == '\r' { x := Short('r'); }
    else if c == '\t' { x := Short('t'); }
    else if c < ' ' {
      x := Unicode(c as int, [false, false, false, false]);
      PrintedControl(c);
    } else { x := Raw(c); }
  }

  lemma PrintedControl(c: char)
    requires c < ' ' && c as int !in {8, 9, 10, 12, 13}
    ensures
      var x := Unicode(c as int, [false, false, false, false]);
      Spell(x) == EscapeChar(c) && Means(x) == [c]
  {
    hide *;
    ControlSpelled(c);
    ControlMeans(c);
  }

  lemma ControlSpelled(c: char)
    requires c < ' ' && c as int !in {8, 9, 10, 12, 13}
    ensures Spell(Unicode(c as int, [false, false, false, false])) == EscapeChar(c)
  {
    ControlDigits(c as int);
    hide HexText, HexCase;
    var digits := ["0123456789abcdef"[c as int / 16], "0123456789abcdef"[c as int % 16]];
    assert "\\u" + ("00" + digits) == "\\u00" + digits;
  }

  lemma ControlDigits(n: nat)
    requires n < 32
    ensures HexText(n, [false, false, false, false]) == "00" + ["0123456789abcdef"[n / 16], "0123456789abcdef"[n % 16]]
  {
  }

  lemma ControlMeans(c: char)
    requires c < ' '
    ensures Means(Unicode(c as int, [false, false, false, false])) == [c]
  {
  }

  lemma ConsString(x: Spelled, tail: seq<Spelled>)
    requires Legal(x) && CompactChar(x) && AllLegal(tail) && CompactString(tail)
    ensures AllLegal([x] + tail) && CompactString([x] + tail)
    ensures SpellAll([x] + tail) == Spell(x) + SpellAll(tail) && MeansAll([x] + tail) == Means(x) + MeansAll(tail)
  {
    hide Spell, Means, CompactChar, Legal;
    assert ([x] + tail)[1..] == tail;
  }

  lemma {:induction false} PrintedString(s: string) returns (xs: seq<Spelled>)
    ensures AllLegal(xs) && CompactString(xs) && SpellAll(xs) == Escape(s) && MeansAll(xs) == s
  {
    hide Spell, Means, CompactChar, EscapeChar, Legal;
    if s == "" { xs := []; }
    else {
      var x := PrintedChar(s[0]);
      var tail := PrintedString(s[1..]);
      xs := [x] + tail;
      ConsString(x, tail);
      assert s == [s[0]] + s[1..];
    }
  }

  // ---------------------------------------------------------------- documents

  lemma ZeroText()
    ensures AllDigits("0") && ValueOf("0") == 0
  {
    assert "0"[..0] == "";
  }

  lemma PrintedNumber(n: int) returns (d: Doc)
    requires -EXACT <= n <= EXACT
    ensures LegalDoc(d) && Compact(d) && DocText(d) == NumberText(n) && DocValue(d) == Num(n)
  {
    hide ToText, ValueOf;
    var digits := ToText(if n < 0 then -n else n);
    TextRoundTrip(if n < 0 then -n else n);
    ZeroText();
    d := NumberDoc(n < 0, digits);
    assert "" + digits == digits;
  }

  lemma PrintedText(s: string) returns (d: Doc)
    ensures LegalDoc(d) && Compact(d) && DocText(d) == Quote(s) && DocValue(d) == Str(s)
  {
    hide SpellAll, MeansAll, CompactString, Escape, AllLegal;
    var xs := PrintedString(s);
    d := StringDoc(xs);
  }

  lemma ArrayPrinted(items: seq<Value>, ps: seq<Padded>)
    requires |ps| == |items| && LegalItems(ps) && forall i :: 0 <= i < |ps| ==> CompactPadded(ps[i])
    requires ItemsSpelled(ps) == ItemsText(items) && ItemValues(ps) == items
    ensures
      var d := ArrayDoc("", ps);
      LegalDoc(d) && Compact(d) && DocText(d) == Stringify(Arr(items)) && DocValue(d) == Arr(items)
  {
    hide ItemsSpelled, ItemValues, LegalPadded, CompactPadded, ItemsText;
    NoItems();
  }

  lemma ObjectPrinted(entries: seq<Entry>, ms: seq<Member>)
    requires |ms| == |entries| && LegalMembers(ms) && forall i :: 0 <= i < |ms| ==> CompactMember(ms[i])
    requires MembersSpelled(ms) == MembersText(entries) && AssignAll([], ms) == entries
    ensures
      var d := ObjectDoc("", ms);
      LegalDoc(d) && Compact(d) && DocText(d) == Stringify(Obj(entries)) && DocValue(d) == Obj(entries)
  {
    hide MembersSpelled, AssignAll, LegalMember, CompactMember, MembersText;
    NoMembers();
  }

  /** Every printed value is the text of a compact document with that value. */
  lemma {:induction false} PrintedDoc(v: Value) returns (d: Doc)
    requires WellFormed(v)
    ensures LegalDoc(d) && Compact(d) && DocText(d) == Stringify(v) && DocValue(d) == v
    decreases v, 1
  {
    match v
    case Null => d := NullDoc;
    case Bool(b) => d := BoolDoc(b);
    case Num(n) => d := PrintedNumber(n);
    case Str(s) => d := PrintedText(s);
    case Arr(items) =>
      hide DocText, DocValue, Stringify, LegalDoc, Compact, ItemsSpelled, ItemsText, ItemValues, LegalPadded, CompactPadded;
      var ps := PrintedItems(items);
      ArrayPrinted(items, ps);
      d := ArrayDoc("", ps);
    case Obj(entries) =>
      hide DocText, DocValue, Stringify, LegalDoc, Compact, MembersSpelled, MembersText, AssignAll, LegalMember, CompactMember;
      var ms := PrintedMembers(entries);
      assert [] + entries == entries;
      AssignSorted([], ms, entries);
      ObjectPrinted(entries, ms);
      d := ObjectDoc("", ms);
  }

  lemma NoItems()
    ensures ItemsText([]) == ""
  {
  }

  lemma NoMembers()
    ensures MembersText([]) == ""
  {
  }

  lemma PaddedNothing(d: Doc)
    requires LegalDoc(d) && Compact(d)
    ensures
      var p := Padded("", d, "");
      LegalPadded(p) && CompactPadded(p) && PaddedText(p) == DocText(d) && PaddedValue(p) == DocValue(d)
  {
    hide LegalDoc, Compact, DocText, DocValue;
    assert "" + (DocText(d) + "") == DocText(d);
  }

  lemma {:induction false} PrintedItems(items: seq<Value>) returns (ps: seq<Padded>)
    requires forall i :: 0 <= i < |items| ==> WellFormed(items[i])
    ensures |ps| == |items| && LegalItems(ps) && forall i :: 0 <= i < |ps| ==> CompactPadded(ps[i])
    ensures ItemsSpelled(ps) == ItemsText(items) && ItemValues(ps) == items
    decreases items, 0
  {
    if items == [] {
      ps := [];
    } else {
      var d := PrintedDoc(items[0]);
      PaddedNothing(d);
      var tail := PrintedItems(items[1..]);
      hide LegalPadded, CompactPadded, PaddedText, PaddedValue, Stringify, DocText, DocValue, LegalDoc, Compact;
      ps := [Padded("", d, "")] + tail;
      assert ps[1..] == tail && items == [items[0]] + items[1..];
    }
  }

  lemma PrintedMember(e: Entry, d: Doc) returns (m: Member)
    requires LegalDoc(d) && Compact(d) && DocText(d) == Stringify(e.value) && DocValue(d) == e.value
    ensures LegalMember(m) && CompactMember(m) && MemberSpelled(m) == MemberText(e) && MemberEntry(m) == e
  {
    PaddedNothing(d);
    var key := PrintedString(e.key);
    hide LegalPadded, CompactPadded, PaddedText, PaddedValue, Stringify, DocText, DocValue, LegalDoc, Compact, SpellAll, MeansAll, CompactString, AllLegal, Escape;
    m := Member("", key, "", Padded("", d, ""));
    var k, t := SpellAll(key), PaddedText(m.value);
    assert MemberText(e) == ("\"" + (k + "\"")) + (":" + t);
    assert "" + (":" + t) == ":" + t && "" + ("\"" + (k + ("\"" + (":" + t)))) == "\"" + (k + ("\"" + (":" + t)));
    Associate("\"", k + "\"", ":" + t);
    Associate(k, "\"", ":" + t);
  }

  lemma {:induction false} PrintedMembers(entries: seq<Entry>) returns (ms: seq<Member>)
    requires forall i :: 0 <= i < |entries| ==> WellFormed(entries[i].value)
    ensures |ms| == |entries| && LegalMembers(ms) && forall i :: 0 <= i < |ms| ==> CompactMember(ms[i])
    ensures MembersSpelled(ms) == MembersText(entries) && forall i :: 0 <= i < |ms| ==> MemberEntry(ms[i]) == entries[i]
    decreases entries, 0
  {
    if entries == [] {
      ms := [];
    } else {
      var d := PrintedDoc(entries[0].value);
      var m := PrintedMember(entries[0], d);
      var tail := PrintedMembers(entries[1..]);
      hide LegalMember, CompactMember, MemberSpelled, MemberEntry, MemberText;
      ms := [m] + tail;
      assert ms[1..] == tail;
    }
  }

  /** Members in key order are assigned one behind the other. */
  lemma {:induction false} AssignSorted(acc: seq<Entry>, ms: seq<Member>, entries: seq<Entry>)
    requires LegalMembers(ms) && |ms| == |entries| && Sorted(acc + entries)
    requires forall i :: 0 <= i < |ms| ==> MemberEntry(ms[i]) == entries[i]
    ensures AssignAll(acc, ms) == acc + entries
    decreases |ms|
  {
    hide MemberEntry, LegalMember, Assign, Sorted;
    if ms == [] {
      assert acc + entries == acc;
    } else {
      SortedAppend(acc, entries);
      AssignSorted(acc + [entries[0]], ms[1..], entries[1..]);
      assert acc + [entries[0]] + entries[1..] == acc + entries;
    }
  }
}
