/** What trimming and the spacing of meta attributes keep of a line. */
module FormatterLines {
  import opened Formatter
  import opened Bytes

  ghost predicate Blank(s: string) {
    forall i :: 0 <= i < |s| ==> IsSpace(s[i])
  }

  predicate Trimmed(s: string) {
    s == "" || (!IsSpace(s[0]) && !IsSpace(s[|s| - 1]))
  }

  // ---------------------------------------------------------------- trimming

  lemma {:induction false} TrimLeftPart(s: string) returns (a: string)
    ensures Blank(a) && s == a + TrimLeft(s) && (TrimLeft(s) == "" || !IsSpace(TrimLeft(s)[0]))
  {
    if s != "" && IsSpace(s[0]) {
      var rest := TrimLeftPart(s[1..]);
      a := [s[0]] + rest;
    } else {
      a := "";
    }
  }

  lemma {:induction false} TrimRightPart(s: string) returns (b: string)
    ensures Blank(b) && s == TrimRight(s) + b && (TrimRight(s) == "" || !IsSpace(TrimRight(s)[|TrimRight(s)| - 1]))
  {
    if s != "" && IsSpace(s[|s| - 1]) {
      var rest := TrimRightPart(s[..|s| - 1]);
      b := rest + [s[|s| - 1]];
    } else {
      b := "";
    }
  }

  /** A line is its trimmed text between blanks. */
  lemma TrimParts(s: string) returns (a: string, b: string)
    ensures Blank(a) && Blank(b) && s == a + Trim(s) + b && Trimmed(Trim(s))
  {
    a := TrimLeftPart(s);
    b := TrimRightPart(TrimLeft(s));
    var m := Trim(s);
    assert TrimLeft(s) == m + b;
    assert m != "" ==> m[0] == TrimLeft(s)[0];
  }

  lemma {:induction false} TrimLeftSkips(a: string, s: string)
    requires Blank(a) && (s == "" || !IsSpace(s[0]))
    ensures TrimLeft(a + s) == s
  {
    if a == "" { assert a + s == s; }
    else {
      assert (a + s)[1..] == a[1..] + s;
      TrimLeftSkips(a[1..], s);
    }
  }

  lemma {:induction false} TrimRightSkips(s: string, b: string)
    requires Blank(b) && (s == "" || !IsSpace(s[|s| - 1]))
    ensures TrimRight(s + b) == s
    decreases |b|
  {
    if b == "" { assert s + b == s; }
    else {
      assert (s + b)[..|s + b| - 1] == s + b[..|b| - 1];
      TrimRightSkips(s, b[..|b| - 1]);
    }
  }

  /** Blanks around a trimmed text are all that trimming removes. */
  lemma TrimUnique(a: string, m: string, b: string)
    requires Blank(a) && Blank(b) && Trimmed(m)
    ensures Trim(a + m + b) == m
  {
    if m == "" {
      assert Blank(a + b) && a + m + b == (a + b) + "";
      TrimLeftSkips(a + b, "");
    } else {
      assert a + m + b == a + (m + b);
      assert (m + b)[0] == m[0];
      TrimLeftSkips(a, m + b);
      TrimRightSkips(m, b);
    }
  }

  lemma TrimOfTrimmed(m: string)
    requires Trimmed(m)
    ensures Trim(m) == m
  {
    assert "" + m + "" == m;
    TrimUnique("", m, "");
  }

  lemma TrimOfIndented(a: string, m: string)
    requires Blank(a) && Trimmed(m)
    ensures Trim(a + m) == m
  {
    assert a + m + "" == a + m;
    TrimUnique(a, m, "");
  }

  lemma TrimIsTrimmed(s: string)
    ensures Trimmed(Trim(s)) && forall c :: c in Trim(s) ==> c in s
  {
    var a, b := TrimParts(s);
  }

  // ---------------------------------------------------------------- occurrences

  /** A text that neither starts nor ends with a blank. */
  predicate Solid(n: string) {
    n != "" && !IsSpace(n[0]) && !IsSpace(n[|n| - 1])
  }

  lemma OccurrenceWithin(a: string, m: string, b: string, n: string)
    ensures Contains(m, n) ==> Contains(a + m + b, n)
  {
    if Contains(m, n) {
      var i :| 0 <= i <= |m| && OccursAt(m, n, i);
      var s := a + m + b;
      assert s[|a| + i..|a| + i + |n|] == m[i..i + |n|];
      assert OccursAt(s, n, |a| + i);
    }
  }

  /** The characters of an occurrence. */
  lemma OccurrenceChar(s: string, n: string, i: nat, k: nat)
    requires k < |n|
    ensures OccursAt(s, n, i) ==> i + k < |s| && s[i + k] == n[k]
  {
    if OccursAt(s, n, i) { assert s[i..i + |n|][k] == s[i + k]; }
  }

  lemma OccurrenceAvoids(s: string, n: string, i: nat, c: char, p: nat)
    requires c !in n && p < |s|
    ensures OccursAt(s, n, i) && i <= p < i + |n| ==> s[p] != c
  {
    if OccursAt(s, n, i) && i <= p < i + |n| {
      OccurrenceChar(s, n, i, p - i);
      assert n[p - i] in n;
    }
  }

  lemma OccurrenceInBlanks(a: string, m: string, b: string, n: string)
    requires Blank(a) && Blank(b) && Solid(n)
    ensures Contains(a + m + b, n) <==> Contains(m, n)
  {
    OccurrenceWithin(a, m, b, n);
    var s := a + m + b;
    if Contains(s, n) {
      var i :| 0 <= i <= |s| && OccursAt(s, n, i);
      OccurrenceChar(s, n, i, 0);
      OccurrenceChar(s, n, i, |n| - 1);
      assert forall k :: 0 <= k < |a| ==> IsSpace(s[k]);
      assert forall k :: |a| + |m| <= k < |s| ==> IsSpace(s[k]);
      assert m[i - |a|..i - |a| + |n|] == s[i..i + |n|];
      assert OccursAt(m, n, i - |a|);
    }
  }

  lemma OccurrenceTrimmed(s: string, n: string)
    requires Solid(n)
    ensures Contains(s, n) <==> Contains(Trim(s), n)
  {
    var a, b := TrimParts(s);
    OccurrenceInBlanks(a, Trim(s), b, n);
  }

  lemma OccurrenceIndented(a: string, m: string, n: string)
    requires Blank(a) && Solid(n)
    ensures Contains(a + m, n) <==> Contains(m, n)
  {
    assert a + m + "" == a + m;
    OccurrenceInBlanks(a, m, "", n);
  }

  /** A character that the text does not contain separates its occurrences. */
  lemma OccurrenceSplit(x: string, c: char, y: string, n: string)
    requires n != "" && c !in n
    ensures Contains(x + ([c] + y), n) <==> Contains(x, n) || Contains(y, n)
  {
    var s := x + ([c] + y);
    assert "" + x + ([c] + y) == s && (x + [c]) + y + "" == s;
    OccurrenceWithin("", x, [c] + y, n);
    OccurrenceWithin(x + [c], y, "", n);
    if Contains(s, n) {
      var i :| 0 <= i <= |s| && OccursAt(s, n, i);
      OccurrenceAvoids(s, n, i, c, |x|);
      if i < |x| {
        assert x[i..i + |n|] == s[i..i + |n|];
        assert OccursAt(x, n, i);
      } else {
        var j := i - |x| - 1;
        assert y[j..j + |n|] == s[i..i + |n|];
        assert OccursAt(y, n, j);
      }
    }
  }

  // ---------------------------------------------------------------- meta attributes

  lemma EqualsSplit(v: string)
    requires IndexOf(v, '=') < |v|
    ensures var e := IndexOf(v, '='); v == v[..e] + ("=" + v[e + 1..]) && '=' !in v[..e]
  {
    var e := IndexOf(v, '=');
    hide IndexOf;
    CutAt(v, e);
  }

  lemma CutAt(v: string, e: nat)
    requires e < |v|
    ensures v == v[..e] + ([v[e]] + v[e + 1..])
  {
    assert [v[e]] + v[e + 1..] == v[e..];
  }

  lemma {:induction false} IndexOfAfter(x: string, c: char, y: string)
    requires c !in x
    ensures IndexOf(x + ([c] + y), c) == |x|
  {
    if x == "" { assert x + ([c] + y) == [c] + y; }
    else {
      assert (x + ([c] + y))[1..] == x[1..] + ([c] + y);
      IndexOfAfter(x[1..], c, y);
    }
  }

  /** The value of a meta attribute line with its spacing made canonical. */
  function MetaValue(v: string): string {
    var e := IndexOf(v, '=');
    if e == |v| then v else Trim(v[..e]) + ("=" + Trim(v[e + 1..]))
  }

  lemma CanonicalOfMeta(line: string)
    requires IsMeta(line)
    ensures Canonical(line) == "!!@ " + MetaValue(Trim(line[3..]))
  {
  }

  /** The canonical value around a first '='. */
  lemma MetaValueOfParts(x: string, y: string)
    requires '=' !in x && Trimmed(x) && Trimmed(y)
    ensures MetaValue(x + ("=" + y)) == x + ("=" + y)
  {
    hide Trim;
    var r := x + ("=" + y);
    IndexOfAfter(x, '=', y);
    hide IndexOf;
    assert r[..|x|] == x && r[|x| + 1..] == y;
    TrimOfTrimmed(x);
    TrimOfTrimmed(y);
  }

  lemma PartsTrimmed(x: string, y: string)
    requires Trimmed(x) && Trimmed(y)
    ensures Trimmed(x + ("=" + y))
    ensures (x + ("=" + y))[|x + ("=" + y)| - 1] == if y == "" then '=' else y[|y| - 1]
  {
  }

  lemma MetaValueFixed(v: string)
    requires Trimmed(v)
    ensures Trimmed(MetaValue(v)) && MetaValue(MetaValue(v)) == MetaValue(v)
    ensures v == "" <==> MetaValue(v) == ""
    ensures v != "" ==> MetaValue(v)[|MetaValue(v)| - 1] == v[|v| - 1]
  {
    var e := IndexOf(v, '=');
    if e < |v| {
      hide Trim;
      EqualsSplit(v);
      var x, y := Trim(v[..e]), Trim(v[e + 1..]);
      assert MetaValue(v) == x + ("=" + y);
      hide IndexOf, MetaValue;
      TrimIsTrimmed(v[..e]);
      TrimIsTrimmed(v[e + 1..]);
      MetaValueOfParts(x, y);
      PartsTrimmed(x, y);
      var a, b := TrimParts(v[e + 1..]);
      RegroupEquals(v[..e], a, y, b);
      LastOfTrimmed(v, v[..e] + "=" + a, y, b);
      if y == "" { BlankTail(v, v[..e], a); }
    }
  }

  lemma Regroup(h: string, a: string, y: string, b: string)
    ensures h + (a + y + b) == (h + a) + y + b
  {
  }

  lemma RegroupEquals(x: string, a: string, y: string, b: string)
    ensures x + ("=" + (a + y + b)) == (x + "=" + a) + y + b
  {
  }

  lemma BlankTail(v: string, x: string, a: string)
    requires Trimmed(v) && Blank(a) && v == x + "=" + a
    ensures v[|v| - 1] == '='
  {
    LastOfTrimmed(v, x + "=", "", a);
  }

  lemma ConcatLast(h: string, b: string)
    ensures b != "" ==> (h + b)[|h + b| - 1] == b[|b| - 1]
  {
  }

  /** When a trimmed text ends in blanks b, b is empty. */
  lemma LastOfTrimmed(v: string, head: string, y: string, b: string)
    requires v != "" && Trimmed(v) && v == head + y + b && Blank(b)
    ensures b == "" && (y != "" ==> y[|y| - 1] == v[|v| - 1]) && (y == "" ==> v == head)
  {
    ConcatLast(head + y, b);
  }

  /** A meta attribute line without a value is just its marker. */
  lemma EmptyMeta(t: string)
    requires Trimmed(t) && IsMeta(t) && Trim(t[3..]) == ""
    ensures t == "!!@" && Canonical(t) == "!!@ " && Trim(Canonical(t)) == t
  {
    var a, b := TrimParts(t[3..]);
    assert t == "!!@" + "" + (a + b) && Blank(a + b);
    LastOfTrimmed(t, "!!@", "", a + b);
    CanonicalOfMeta(t);
    assert "" + "!!@" + " " == "!!@ ";
    TrimUnique("", "!!@", " ");
  }

  lemma MetaText(m: string)
    requires Trimmed(m) && m != ""
    ensures var r := "!!@ " + m;
      Trimmed(r) && IsMeta(r) && Trim(r[3..]) == m && r[|r| - 1] == m[|m| - 1]
  {
    hide Trim;
    assert ("!!@ " + m)[3..] == " " + m;
    TrimOfIndented(" ", m);
  }

  lemma FilledMeta(t: string)
    requires Trimmed(t) && IsMeta(t) && Trim(t[3..]) != ""
    ensures Trimmed(Canonical(t)) && IsMeta(Canonical(t)) && Canonical(t) != ""
    ensures Canonical(Canonical(t)) == Canonical(t)
    ensures Canonical(t)[|Canonical(t)| - 1] == t[|t| - 1]
  {
    hide Trim, MetaValue, Canonical;
    var w := t[3..];
    var v := Trim(w);
    TrimIsTrimmed(w);
    MetaValueFixed(v);
    CanonicalOfMeta(t);
    MetaText(MetaValue(v));
    CanonicalOfMeta("!!@ " + MetaValue(v));
    LastOfMeta(t);
  }

  lemma LastOfMeta(t: string)
    requires Trimmed(t) && IsMeta(t) && Trim(t[3..]) != ""
    ensures Trim(t[3..])[|Trim(t[3..])| - 1] == t[|t| - 1]
  {
    hide Trim;
    var w := t[3..];
    var a, b := TrimParts(w);
    assert t == "!!@" + w;
    Regroup("!!@", a, Trim(w), b);
    LastOfTrimmed(t, "!!@" + a, Trim(w), b);
  }

  /** Formatting a formatted line again: same text, and same first and last character. */
  lemma CanonicalFixed(t: string)
    requires t != "" && Trimmed(t)
    ensures var r := Trim(Canonical(t));
      && r != "" && Trimmed(r) && Canonical(r) == Canonical(t)
      && r[0] == t[0] && r[|r| - 1] == t[|t| - 1]
      && IsMeta(r) == IsMeta(t) && (!IsMeta(t) ==> r == t)
  {
    hide Trim;
    if !IsMeta(t) {
      TrimOfTrimmed(t);
    } else if Trim(t[3..]) == "" {
      EmptyMeta(t);
    } else {
      FilledMeta(t);
      hide Canonical;
      TrimOfTrimmed(Canonical(t));
    }
  }

  lemma MetaValueOccurrence(v: string, n: string)
    requires Solid(n) && '=' !in n
    ensures Contains(MetaValue(v), n) <==> Contains(v, n)
  {
    var e := IndexOf(v, '=');
    if e < |v| {
      EqualsSplit(v);
      var x, y := v[..e], v[e + 1..];
      OccurrenceSplit(x, '=', y, n);
      OccurrenceSplit(Trim(x), '=', Trim(y), n);
      OccurrenceTrimmed(x, n);
      OccurrenceTrimmed(y, n);
    }
  }

  lemma ShortOccurrence(n: string)
    requires n != "" && '!' !in n
    ensures !Contains("!!", n)
  {
    assert n[0] in n;
    forall i | 0 <= i <= 2 ensures !OccursAt("!!", n, i) {
      OccurrenceChar("!!", n, i, 0);
    }
  }

  /** Canonical spacing neither creates nor destroys occurrences of such a text. */
  lemma CanonicalOccurrence(t: string, n: string)
    requires Solid(n) && '=' !in n && '!' !in n && '@' !in n
    ensures Contains(Canonical(t), n) <==> Contains(t, n)
  {
    if IsMeta(t) {
      var w := t[3..];
      var v := Trim(w);
      var m := MetaValue(v);
      hide Contains, MetaValue, Trim, IndexOf;
      CanonicalOfMeta(t);
      hide Canonical;
      ShortOccurrence(n);
      MetaTexts(t, m);
      OccurrenceSplit("!!", '@', w, n);
      OccurrenceSplit("!!", '@', " " + m, n);
      OccurrenceIndented(" ", m, n);
      OccurrenceTrimmed(w, n);
      MetaValueOccurrence(v, n);
    }
  }

  /** The comment state does not depend on the spacing of meta attributes. */
  lemma CanonicalComment(inComment: bool, t: string)
    requires t != "" && Trimmed(t)
    ensures CommentAfter(inComment, Trim(Canonical(t))) == CommentAfter(inComment, t)
    ensures Continuation(inComment, Trim(Canonical(t))) == Continuation(inComment, t)
    ensures Closes(Trim(Canonical(t))) == Closes(t)
  {
    CanonicalFixed(t);
    CanonicalOccurrence(t, "*/");
    OccurrenceTrimmed(Canonical(t), "*/");
    hide Contains, Canonical, Trim;
    var r := Trim(Canonical(t));
    if IsMeta(t) {
      assert r[0] == '!' && t[0] == '!';
      assert !("/*" <= r) && !("/*" <= t) && !("*" <= r) && !("*" <= t);
      assert !("END" <= r) && !("END" <= t) && !(")" <= r) && !(")" <= t);
    }
  }

  /** Unless a meta attribute line ends in '=', its spacing does not decide about blocks. */
  lemma CanonicalOpens(t: string)
    requires t != "" && Trimmed(t)
    requires IsMeta(t) ==> !Ends(t, '=')
    ensures Opens(Trim(Canonical(t))) == Opens(t)
  {
    CanonicalFixed(t);
    hide Contains, Canonical, Trim, Declares;
    var r := Trim(Canonical(t));
    if IsMeta(t) {
      assert !("VIEW" <= r) && !("VIEW" <= t);
    }
  }

  // ---------------------------------------------------------------- characters kept

  /** Everything but whitespace. */
  function Erase(s: string): string {
    if s == "" then "" else (if IsSpace(s[0]) then "" else [s[0]]) + Erase(s[1..])
  }

  lemma {:induction false} EraseConcat(a: string, b: string)
    ensures Erase(a + b) == Erase(a) + Erase(b)
  {
    if a == "" { assert a + b == b; }
    else {
      assert (a + b)[1..] == a[1..] + b;
      EraseConcat(a[1..], b);
    }
  }

  lemma {:induction false} EraseBlank(a: string)
    requires Blank(a)
    ensures Erase(a) == ""
  {
    if a != "" { EraseBlank(a[1..]); }
  }

  lemma EraseTrim(s: string)
    ensures Erase(Trim(s)) == Erase(s)
  {
    var a, b := TrimParts(s);
    hide Erase;
    EraseConcat(a + Trim(s), b);
    EraseConcat(a, Trim(s));
    EraseBlank(a);
    EraseBlank(b);
  }

  lemma EraseMetaValue(v: string)
    ensures Erase(MetaValue(v)) == Erase(v)
  {
    var e := IndexOf(v, '=');
    if e < |v| {
      EqualsSplit(v);
      var x, y := v[..e], v[e + 1..];
      hide Erase;
      EraseConcat(x, "=" + y);
      EraseConcat("=", y);
      EraseConcat(Trim(x), "=" + Trim(y));
      EraseConcat("=", Trim(y));
      EraseTrim(x);
      EraseTrim(y);
    }
  }

  lemma MetaTexts(t: string, m: string)
    requires IsMeta(t)
    ensures t == "!!@" + t[3..] && t == "!!" + ("@" + t[3..])
    ensures "!!@ " + m == "!!@" + (" " + m) && "!!@ " + m == "!!" + ("@" + (" " + m))
  {
  }

  lemma EraseCanonical(t: string)
    ensures Erase(Canonical(t)) == Erase(t)
  {
    if IsMeta(t) {
      var w := t[3..];
      var v := Trim(w);
      CanonicalOfMeta(t);
      MetaTexts(t, MetaValue(v));
      assert Blank(" ");
      hide Erase, MetaValue;
      EraseConcat("!!@", w);
      EraseConcat("!!@", " " + MetaValue(v));
      EraseConcat(" ", MetaValue(v));
      EraseBlank(" ");
      EraseMetaValue(v);
      EraseTrim(w);
    }
  }

  lemma MetaValueChars(v: string)
    ensures forall c :: c in MetaValue(v) ==> c in v
  {
    var e := IndexOf(v, '=');
    if e < |v| {
      hide Trim;
      TrimIsTrimmed(v[..e]);
      TrimIsTrimmed(v[e + 1..]);
    }
  }

  /** Canonical spacing adds no line end, and no carriage return at the end. */
  lemma CanonicalChars(t: string)
    requires t != "" && Trimmed(t) && '\n' !in t
    ensures Canonical(t) != "" && '\n' !in Canonical(t) && !Ends(Canonical(t), '\r')
  {
    if IsMeta(t) {
      hide Trim, MetaValue, Canonical;
      var v := Trim(t[3..]);
      TrimIsTrimmed(t[3..]);
      CanonicalOfMeta(t);
      MetaValueFixed(v);
      MetaValueChars(v);
      var m := MetaValue(v);
      assert '\n' !in m;
      assert m != "" ==> ("!!@ " + m)[|"!!@ " + m| - 1] == m[|m| - 1];
    }
  }

  // ---------------------------------------------------------------- encoding

  predicate Ascii(c: char) {
    c as int < 0x80
  }

  lemma {:induction false} ValidConcat(a: string, b: string)
    requires ValidUtf8(a) && ValidUtf8(b)
    ensures ValidUtf8(a + b)
    decreases |a|
  {
    if a == "" { assert a + b == b; }
    else {
      var count := Followers(a[0]);
      assert (a + b)[count + 1..] == a[count + 1..] + b;
      assert forall j :: 0 <= j <= count ==> (a + b)[j] == a[j];
      ValidConcat(a[count + 1..], b);
    }
  }

  /** No sequence runs across an ASCII byte. */
  lemma {:induction false} ValidSplit(a: string, c: char, b: string)
    requires Ascii(c) && ValidUtf8(a + ([c] + b))
    ensures ValidUtf8(a) && ValidUtf8(b)
    decreases |a|
  {
    var s := a + ([c] + b);
    if a == "" {
      assert s == [c] + b && s[1..] == b;
    } else {
      var count := Followers(a[0]);
      assert s[0] == a[0] && s[|a|] == c && !IsTail(s[|a|]);
      assert count < |a|;
      assert s[count + 1..] == a[count + 1..] + ([c] + b);
      assert forall j :: 0 <= j <= count ==> s[j] == a[j];
      ValidSplit(a[count + 1..], c, b);
    }
  }

  lemma {:induction false} ValidDropBlanks(a: string, m: string, b: string)
    requires Blank(a) && Blank(b) && ValidUtf8(a + m + b)
    ensures ValidUtf8(m)
    decreases |a| + |b|
  {
    if a != "" {
      assert a + m + b == "" + ([a[0]] + (a[1..] + m + b));
      ValidSplit("", a[0], a[1..] + m + b);
      ValidDropBlanks(a[1..], m, b);
    } else if b != "" {
      assert a + m + b == m + ([b[0]] + b[1..]);
      ValidSplit(m, b[0], b[1..]);
    } else {
      assert a + m + b == m;
    }
  }

  lemma ValidTrim(s: string)
    requires ValidUtf8(s)
    ensures ValidUtf8(Trim(s))
  {
    var a, b := TrimParts(s);
    ValidDropBlanks(a, Trim(s), b);
  }

  lemma {:induction false} ValidAscii(s: string)
    requires forall i :: 0 <= i < |s| ==> Ascii(s[i])
    ensures ValidUtf8(s)
  {
    if s != "" { ValidAscii(s[1..]); }
  }

  lemma ValidMetaValue(v: string)
    requires ValidUtf8(v)
    ensures ValidUtf8(MetaValue(v))
  {
    ValidAscii("=");
    var e := IndexOf(v, '=');
    if e < |v| {
      EqualsSplit(v);
      hide ValidUtf8, IndexOf, Trim;
      ValidSplit(v[..e], '=', v[e + 1..]);
      ValidTrim(v[..e]);
      ValidTrim(v[e + 1..]);
      ValidConcat("=", Trim(v[e + 1..]));
      ValidConcat(Trim(v[..e]), "=" + Trim(v[e + 1..]));
    }
  }

  lemma ValidCanonical(t: string)
    requires ValidUtf8(t)
    ensures ValidUtf8(Canonical(t))
  {
    if IsMeta(t) {
      var w := t[3..];
      assert t == "!!" + ("@" + w);
      ValidAscii("!!@ ");
      CanonicalOfMeta(t);
      hide ValidUtf8, Trim, MetaValue, Canonical, IsMeta;
      ValidSplit("!!", '@', w);
      ValidTrim(w);
      ValidMetaValue(Trim(w));
      ValidConcat("!!@ ", MetaValue(Trim(w)));
    }
  }

  lemma {:induction false} Latin1IsValid(text: string)
    ensures ValidUtf8(Latin1ToUtf8(text))
    decreases |text|
  {
    if text != "" {
      Latin1IsValid(text[..|text| - 1]);
      var byte := Latin1Byte(text[|text| - 1]);
      assert ValidUtf8(byte) by { assert byte[|byte|..] == ""; }
      ValidConcat(Latin1ToUtf8(text[..|text| - 1]), byte);
    }
  }

  lemma SourceIsValid(text: string)
    ensures ValidUtf8(Source(text))
  {
    Latin1IsValid(text);
  }
}
