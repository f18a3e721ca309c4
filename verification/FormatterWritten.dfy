/** The formatted text, line by line and without a running state: which lines are written, and
    what each of them looks like. */
module FormatterWritten {
  import opened Bytes
  import opened Formatter
  import opened FormatterLines
  import opened FormatterIdempotence
  import opened FormatterIndents
  import opened FormatterNesting
  import opened FormatterTheorems

  function Spaces(n: nat): string {
    seq(n, i => ' ')
  }

  predicate StartsComment(t: string) {
    |t| >= 2 && t[0] == '/' && t[1] == '*'
  }

  ghost predicate EndsComment(t: string) {
    exists m :: 0 <= m < |t| - 1 && t[m] == '*' && t[m + 1] == '/'
  }

  /** Line j lies in a block comment: it was started on an earlier line, and no line since then,
      that one included, ends a comment. */
  ghost predicate InComment(texts: seq<string>, j: nat)
    requires j <= |texts|
  {
    exists i :: 0 <= i < j && StartsComment(texts[i]) && NoEnd(texts, i, j)
  }

  ghost predicate NoEnd(texts: seq<string>, i: nat, j: nat)
    requires j <= |texts|
  {
    forall k :: i <= k < j ==> !EndsComment(texts[k])
  }

  ghost predicate Continued(texts: seq<string>, j: nat)
    requires j < |texts|
  {
    InComment(texts, j) && texts[j] != "" && texts[j][0] == '*'
  }

  /** The text written for the j-th line that is not blank. */
  ghost function WrittenText(texts: seq<string>, indentSize: nat, j: nat): string
    requires j < |texts|
  {
    Spaces(indentSize * Depth(texts, j)) + ((if Continued(texts, j) then " " else "") + Canonical(texts[j]))
  }

  /** Of a run of blank lines the first is written. */
  predicate Kept(lines: seq<string>, i: nat)
    requires i < |lines|
  {
    Trim(lines[i]) != "" || i == 0 || Trim(lines[i - 1]) != ""
  }

  ghost function Written(lines: seq<string>, indentSize: nat, i: nat): string
    requires i < |lines|
  {
    if Trim(lines[i]) == "" then ""
    else
      TextsSplit(lines, i);
      WrittenText(Texts(lines), indentSize, |Texts(lines[..i])|)
  }

  ghost function WrittenFrom(lines: seq<string>, indentSize: nat, i: nat): seq<string>
    requires i <= |lines|
    decreases |lines| - i
  {
    if i == |lines| then []
    else (if Kept(lines, i) then [Written(lines, indentSize, i)] else []) + WrittenFrom(lines, indentSize, i + 1)
  }

  // ---------------------------------------------------------------- texts of lines

  lemma {:induction false} TextsConcat(a: seq<string>, b: seq<string>)
    ensures Texts(a + b) == Texts(a) + Texts(b)
  {
    hide Trim;
    if a == [] { assert a + b == b; }
    else {
      assert (a + b)[1..] == a[1..] + b;
      TextsConcat(a[1..], b);
    }
  }

  lemma OneText(line: string)
    ensures Texts([line]) == if Trim(line) == "" then [] else [Trim(line)]
  {
    hide Trim;
    assert [line][1..] == [];
  }

  lemma TextsSplit(lines: seq<string>, i: nat)
    requires i < |lines|
    ensures Texts(lines[..i + 1]) == Texts(lines[..i]) + (if Trim(lines[i]) == "" then [] else [Trim(lines[i])])
    ensures Trim(lines[i]) != "" ==> |Texts(lines[..i])| < |Texts(lines)| && Texts(lines)[|Texts(lines[..i])|] == Trim(lines[i])
  {
    hide Texts, Trim;
    assert lines[..i + 1] == lines[..i] + [lines[i]];
    TextsConcat(lines[..i], [lines[i]]);
    OneText(lines[i]);
    assert lines == lines[..i + 1] + lines[i + 1..];
    TextsConcat(lines[..i + 1], lines[i + 1..]);
  }

  lemma {:induction false} TextsNotEmpty(lines: seq<string>)
    ensures AllText(Texts(lines))
  {
    hide Trim;
    if lines != [] { TextsNotEmpty(lines[1..]); }
  }

  // ---------------------------------------------------------------- comments

  lemma EndsIsContains(t: string)
    ensures EndsComment(t) <==> Contains(t, "*/")
  {
    if EndsComment(t) {
      var m :| 0 <= m < |t| - 1 && t[m] == '*' && t[m + 1] == '/';
      assert t[m..m + 2] == "*/";
      assert OccursAt(t, "*/", m);
    }
    if Contains(t, "*/") {
      var m :| 0 <= m <= |t| && OccursAt(t, "*/", m);
      assert t[m] == t[m..m + 2][0] && t[m + 1] == t[m..m + 2][1];
    }
  }

  lemma StartsIsPrefix(t: string)
    ensures StartsComment(t) <==> "/*" <= t
  {
  }

  lemma ContainsLater(t: string)
    requires |t| >= 2 && Contains(t[2..], "*/")
    ensures Contains(t, "*/")
  {
    var m :| 0 <= m <= |t[2..]| && OccursAt(t[2..], "*/", m);
    assert t[m + 2..m + 4] == t[2..][m..m + 2];
    assert OccursAt(t, "*/", m + 2);
  }

  /** The running comment state is the one defined by the lines before. */
  lemma CommentStep(texts: seq<string>, j: nat)
    requires j < |texts|
    ensures InComment(texts, j + 1) <==> CommentAfter(InComment(texts, j), texts[j])
  {
    var t := texts[j];
    EndsIsContains(t);
    StartsIsPrefix(t);
    if |t| >= 2 && Contains(t[2..], "*/") { ContainsLater(t); }
    hide EndsComment, Contains, StartsComment;
    if InComment(texts, j + 1) {
      var i :| 0 <= i < j + 1 && StartsComment(texts[i]) && NoEnd(texts, i, j + 1);
      assert !EndsComment(texts[j]);
      if i < j { assert NoEnd(texts, i, j); }
    }
    if CommentAfter(InComment(texts, j), t) {
      if InComment(texts, j) {
        var i :| 0 <= i < j && StartsComment(texts[i]) && NoEnd(texts, i, j);
        assert NoEnd(texts, i, j + 1);
      } else {
        assert NoEnd(texts, j, j + 1);
      }
    }
  }

  // ---------------------------------------------------------------- one line

  lemma {:induction false} RepeatIsSpaces(indentSize: nat, n: nat)
    ensures Repeat(Unit(indentSize), n) == Spaces(indentSize * n)
  {
    if n > 0 {
      RepeatIsSpaces(indentSize, n - 1);
      assert indentSize * n == indentSize * (n - 1) + indentSize;
      assert Spaces(indentSize * (n - 1)) + Unit(indentSize) == Spaces(indentSize * n);
    } else {
      assert Spaces(0) == "";
    }
  }

  /** The state before the line of index i, told from the lines alone. */
  ghost function StateAt(lines: seq<string>, i: nat): State
    requires i <= |lines|
  {
    TextsPrefix(lines, i);
    var texts, j := Texts(lines), |Texts(lines[..i])|;
    State(|Stack(texts, j)|, InComment(texts, j), i > 0 && Trim(lines[i - 1]) == "")
  }

  lemma TextsPrefix(lines: seq<string>, i: nat)
    requires i <= |lines|
    ensures |Texts(lines[..i])| <= |Texts(lines)|
  {
    assert lines == lines[..i] + lines[i..];
    TextsConcat(lines[..i], lines[i..]);
  }

  lemma TextLineWritten(texts: seq<string>, indentSize: nat, j: nat, blank: bool)
    requires AllText(texts) && j < |texts|
    ensures
      var st := State(|Stack(texts, j)|, InComment(texts, j), blank);
      && TextLine(st, texts[j], Unit(indentSize)) == WrittenText(texts, indentSize, j)
      && After(st, texts[j]) == State(|Stack(texts, j + 1)|, InComment(texts, j + 1), false)
  {
    var line := texts[j];
    EndsIsCloses(line);
    BeginsIsOpens(line);
    CommentStep(texts, j);
    AroundIsEnclosing(texts, j);
    RepeatIsSpaces(indentSize, Depth(texts, j));
    StackStep(texts, j);
    assert "*" <= line <==> line[0] == '*';
    hide Opens, Closes, BeginsBlock, EndsBlock, Repeat, Spaces, Unit, Canonical, Stack, Around, Depth, CommentAfter, InComment;
  }

  lemma StackStep(texts: seq<string>, j: nat)
    requires j < |texts|
    ensures |Around(texts, j)| == (if EndsBlock(texts[j]) && |Stack(texts, j)| > 0 then |Stack(texts, j)| - 1 else |Stack(texts, j)|)
    ensures |Stack(texts, j + 1)| == |Around(texts, j)| + (if BeginsBlock(texts[j]) then 1 else 0)
  {
    hide BeginsBlock, EndsBlock;
  }

  lemma StateStep(lines: seq<string>, i: nat)
    requires i < |lines|
    ensures Trim(lines[i]) == "" ==> StateAt(lines, i + 1) == StateAt(lines, i).(previousBlank := true)
    ensures Trim(lines[i]) != "" ==> After(StateAt(lines, i), Trim(lines[i])) == StateAt(lines, i + 1)
  {
    TextsSplit(lines, i);
    TextsNotEmpty(lines);
    hide Texts, Trim, Stack, InComment, After, AllText;
    if Trim(lines[i]) != "" {
      TextLineWritten(Texts(lines), 0, |Texts(lines[..i])|, i > 0 && Trim(lines[i - 1]) == "");
    }
  }

  lemma LineWritten(lines: seq<string>, indentSize: nat, i: nat)
    requires i < |lines| && Trim(lines[i]) != ""
    ensures TextLine(StateAt(lines, i), Trim(lines[i]), Unit(indentSize)) == Written(lines, indentSize, i)
  {
    TextsSplit(lines, i);
    TextsNotEmpty(lines);
    hide Texts, Trim, Stack, InComment, After, TextLine, WrittenText, AllText, Unit;
    TextLineWritten(Texts(lines), indentSize, |Texts(lines[..i])|, i > 0 && Trim(lines[i - 1]) == "");
  }

  // ---------------------------------------------------------------- the whole text

  lemma OutputStep(lines: seq<string>, st: State, unit: string)
    requires lines != []
    ensures
      var line := Trim(lines[0]);
      OutputLines(lines, st, unit) ==
        if line == "" && st.previousBlank then OutputLines(lines[1..], st, unit)
        else if line == "" then [""] + OutputLines(lines[1..], st.(previousBlank := true), unit)
        else [TextLine(st, line, unit)] + OutputLines(lines[1..], After(st, line), unit)
  {
    hide Trim, TextLine, After;
  }

  lemma PreviousBlank(lines: seq<string>, i: nat)
    requires i < |lines|
    ensures StateAt(lines, i).previousBlank <==> i > 0 && Trim(lines[i - 1]) == ""
    ensures Kept(lines, i) <==> Trim(lines[i]) != "" || !StateAt(lines, i).previousBlank
  {
    hide Trim, Texts, Stack, InComment;
  }

  lemma {:induction false} OutputFrom(lines: seq<string>, indentSize: nat, i: nat)
    requires i <= |lines|
    ensures OutputLines(lines[i..], StateAt(lines, i), Unit(indentSize)) == WrittenFrom(lines, indentSize, i)
    decreases |lines| - i
  {
    hide StateAt, OutputLines, Trim, TextLine, After, Unit, Kept, Written;
    if i == |lines| {
      NoOutput(StateAt(lines, i), Unit(indentSize));
      assert lines[i..] == [];
    } else {
      var rest := lines[i..];
      assert rest[0] == lines[i] && rest[1..] == lines[i + 1..];
      OutputStep(rest, StateAt(lines, i), Unit(indentSize));
      OutputFrom(lines, indentSize, i + 1);
      StateStep(lines, i);
      PreviousBlank(lines, i);
      if Trim(lines[i]) == "" {
        BlankWritten(lines, indentSize, i);
        assert StateAt(lines, i).previousBlank ==> StateAt(lines, i).(previousBlank := true) == StateAt(lines, i);
      } else {
        LineWritten(lines, indentSize, i);
      }
    }
  }

  lemma BlankWritten(lines: seq<string>, indentSize: nat, i: nat)
    requires i < |lines| && Trim(lines[i]) == ""
    ensures Written(lines, indentSize, i) == ""
  {
  }

  lemma NoOutput(st: State, unit: string)
    ensures OutputLines([], st, unit) == []
  {
  }

  lemma StartState(lines: seq<string>)
    ensures StateAt(lines, 0) == Begin
  {
    assert lines[..0] == [] && Texts([]) == [];
    assert Stack(Texts(lines), 0) == [] && !InComment(Texts(lines), 0);
  }

  /** An accepted source is written exactly so: the kept lines, each indented by its depth, with
      the dominant line ending. */
  lemma FormatWrites(text: string, indentSize: nat)
    requires Format(text, indentSize).applicable
    ensures
      var lines := Lines(Source(text));
      Format(text, indentSize).text == Join(WrittenFrom(lines, indentSize, 0), DominantLineEnding(Source(text)))
  {
    hide Supported, ValidUtf8, Lines, OutputLines, WrittenFrom, StateAt, Unit, Join, DominantLineEnding;
    var lines := Lines(Source(text));
    StartState(lines);
    OutputFrom(lines, indentSize, 0);
    assert lines[0..] == lines;
  }

  // ---------------------------------------------------------------- leading blanks

  function LeadingBlanks(s: string): nat {
    if s != "" && s[0] == ' ' then 1 + LeadingBlanks(s[1..]) else 0
  }

  lemma {:induction false} SpacesLead(n: nat, s: string)
    ensures LeadingBlanks(Spaces(n) + s) == n + LeadingBlanks(s)
  {
    if n == 0 {
      assert Spaces(0) + s == s;
    } else {
      assert (Spaces(n) + s)[1..] == Spaces(n - 1) + s;
      SpacesLead(n - 1, s);
    }
  }

  lemma CanonicalStarts(t: string)
    requires t != "" && !IsSpace(t[0])
    ensures Canonical(t) != "" && Canonical(t)[0] != ' '
  {
    hide Trim, IndexOf;
  }

  /** A line has as many leading blanks as its depth demands, and one more if it continues a
      comment. */
  lemma WrittenIndent(texts: seq<string>, indentSize: nat, j: nat)
    requires j < |texts| && texts[j] != "" && !IsSpace(texts[j][0])
    ensures LeadingBlanks(WrittenText(texts, indentSize, j)) == indentSize * Depth(texts, j) + (if Continued(texts, j) then 1 else 0)
  {
    CanonicalStarts(texts[j]);
    var c, rest := Canonical(texts[j]), (if Continued(texts, j) then " " else "") + Canonical(texts[j]);
    hide Canonical, Continued, Depth, Spaces;
    SpacesLead(indentSize * Depth(texts, j), rest);
    assert LeadingBlanks(c) == 0;
    if Continued(texts, j) { assert rest[1..] == c; } else { assert rest == c; }
  }

  /** The first and the last line of a block start in the same column, the lines directly inside
      it one unit further, and all others inside at least that. */
  lemma BlockAligned(texts: seq<string>, indentSize: nat, i: nat, j: nat, k: nat)
    requires k < |texts| && Matches(texts, i, k) && i < j < k
    requires forall n :: n in {i, j, k} ==> texts[n] != "" && !IsSpace(texts[n][0]) && !Continued(texts, n)
    ensures LeadingBlanks(WrittenText(texts, indentSize, k)) == LeadingBlanks(WrittenText(texts, indentSize, i))
    ensures LeadingBlanks(WrittenText(texts, indentSize, j)) >= LeadingBlanks(WrittenText(texts, indentSize, i)) + indentSize
    ensures (forall a: nat :: i < a < j ==> !Encloses(texts, a, j)) ==>
      LeadingBlanks(WrittenText(texts, indentSize, j)) == LeadingBlanks(WrittenText(texts, indentSize, i)) + indentSize
  {
    assert i in {i, j, k} && j in {i, j, k} && k in {i, j, k};
    assert Encloses(texts, i, j);
    hide LeadingBlanks, WrittenText, Continued, Depth, Matches, Encloses, IsSpace;
    MatchingLevel(texts, i, k);
    InsideDeeper(texts, i, j);
    WrittenIndent(texts, indentSize, i);
    WrittenIndent(texts, indentSize, j);
    WrittenIndent(texts, indentSize, k);
    Scaled(indentSize, Depth(texts, i), Depth(texts, j));
  }

  lemma {:induction false} Scaled(unit: nat, d: nat, e: nat)
    requires e >= d + 1
    ensures unit * e >= unit * d + unit
    ensures e == d + 1 ==> unit * e == unit * d + unit
    decreases e
  {
    assert unit * e == unit * (e - 1) + unit;
    if e > d + 1 { Scaled(unit, d, e - 1); }
  }

  // ---------------------------------------------------------------- meta attributes

  /** The spacing around the name and the value of a meta attribute is normalised. */
  lemma MetaSpacing(a: string, name: string, b: string, c: string, value: string, d: string)
    requires Blank(a) && Blank(b) && Blank(c) && Blank(d) && Trimmed(name) && Trimmed(value) && '=' !in name
    ensures Canonical("!!@" + (a + name + b + ("=" + (c + value + d)))) == "!!@ " + (name + ("=" + value))
    ensures Canonical("!!@" + (a + name + b)) == "!!@ " + name
  {
    MetaWithValue(a, name, b, c, value, d);
    MetaWithoutValue(a, name, b);
  }

  lemma BlankHasNoEquals(a: string)
    requires Blank(a)
    ensures '=' !in a
  {
  }

  lemma MetaWithoutValue(a: string, name: string, b: string)
    requires Blank(a) && Blank(b) && Trimmed(name) && '=' !in name
    ensures Canonical("!!@" + (a + name + b)) == "!!@ " + name
  {
    var t := "!!@" + (a + name + b);
    assert t[3..] == a + name + b && IsMeta(t);
    TrimUnique(a, name, b);
    CanonicalOfMeta(t);
    hide Trim, Canonical, IndexOf, IsMeta;
  }

  lemma MetaWithValue(a: string, name: string, b: string, c: string, value: string, d: string)
    requires Blank(a) && Blank(b) && Blank(c) && Blank(d) && Trimmed(name) && Trimmed(value) && '=' !in name
    ensures Canonical("!!@" + (a + name + b + ("=" + (c + value + d)))) == "!!@ " + (name + ("=" + value))
  {
    var body := a + name + b + ("=" + (c + value + d));
    MetaBody(body);
    BlankConcat(a, b);
    BlankConcat(c, d);
    var left := if name == "" then "" else name + b;
    var right := if value == "" then "" else c + value;
    var lead := if name == "" then a + b else a;
    var trail := if value == "" then c + d else d;
    hide Trim, Canonical, MetaValue, IsMeta, Blank, Trimmed;
    BodyParts(a, name, b, c, value, d);
    CoreTrimmed(name, b, c, value);
    TrimUnique(lead, left + ("=" + right), trail);
    MetaValueOfCore(name, b, c, value);
  }

  lemma MetaBody(body: string)
    ensures Canonical("!!@" + body) == "!!@ " + MetaValue(Trim(body))
  {
    var t := "!!@" + body;
    assert t[3..] == body && IsMeta(t);
    CanonicalOfMeta(t);
    hide Trim, Canonical, MetaValue;
  }

  /** The outer blanks, and from the name, or the sign, to the value, or the sign. */
  lemma BodyParts(a: string, name: string, b: string, c: string, value: string, d: string)
    ensures
      var left := if name == "" then "" else name + b;
      var right := if value == "" then "" else c + value;
      var lead := if name == "" then a + b else a;
      var trail := if value == "" then c + d else d;
      a + name + b + ("=" + (c + value + d)) == lead + (left + ("=" + right)) + trail
  {
    var left := if name == "" then "" else name + b;
    var right := if value == "" then "" else c + value;
    var lead := if name == "" then a + b else a;
    var trail := if value == "" then c + d else d;
    FrontParts(a, name, b);
    BackParts(c, value, d);
    Regrouped(lead, left, right, trail);
  }

  lemma FrontParts(a: string, name: string, b: string)
    ensures a + name + b == (if name == "" then a + b else a) + (if name == "" then "" else name + b)
  {
    if name == "" { assert a + name == a; } else { Associate(a, name, b); }
  }

  lemma BackParts(c: string, value: string, d: string)
    ensures c + value + d == (if value == "" then "" else c + value) + (if value == "" then c + d else d)
  {
    if value == "" { assert c + value == c && "" + (c + d) == c + d; }
  }

  lemma Regrouped(lead: string, left: string, right: string, trail: string)
    ensures (lead + left) + ("=" + (right + trail)) == lead + (left + ("=" + right)) + trail
  {
    Associate("=", right, trail);
    Associate(lead, left, ("=" + right) + trail);
    Associate(left, "=" + right, trail);
    Associate(lead, left + ("=" + right), trail);
  }

  lemma BlankConcat(a: string, b: string)
    requires Blank(a) && Blank(b)
    ensures Blank(a + b)
  {
  }

  lemma CoreTrimmed(name: string, b: string, c: string, value: string)
    requires Blank(b) && Blank(c) && Trimmed(name) && Trimmed(value)
    ensures Trimmed((if name == "" then "" else name + b) + ("=" + (if value == "" then "" else c + value)))
  {
    var left, right := if name == "" then "" else name + b, if value == "" then "" else c + value;
    var core := left + ("=" + right);
    assert name == "" ==> core[0] == '=';
    assert name != "" ==> core[0] == name[0];
    assert value == "" ==> core[|core| - 1] == '=';
    assert value != "" ==> core[|core| - 1] == value[|value| - 1];
  }

  lemma MetaValueOfCore(name: string, b: string, c: string, value: string)
    requires Blank(b) && Blank(c) && Trimmed(name) && Trimmed(value) && '=' !in name
    ensures
      var left, right := if name == "" then "" else name + b, if value == "" then "" else c + value;
      MetaValue(left + ("=" + right)) == name + ("=" + value)
  {
    var left, right := if name == "" then "" else name + b, if value == "" then "" else c + value;
    var core := left + ("=" + right);
    BlankHasNoEquals(b);
    assert '=' !in left;
    IndexOfAfter(left, '=', right);
    TrimEnds(name, b);
    TrimStarts(c, value);
    hide Trim, IndexOf;
    assert core[..|left|] == left && core[|left| + 1..] == right;
  }

  lemma TrimEnds(name: string, b: string)
    requires Blank(b) && Trimmed(name)
    ensures Trim(if name == "" then "" else name + b) == name
  {
    if name == "" { TrimOfTrimmed(""); }
    else {
      TrimUnique("", name, b);
      assert "" + name + b == name + b;
    }
  }

  lemma TrimStarts(c: string, value: string)
    requires Blank(c) && Trimmed(value)
    ensures Trim(if value == "" then "" else c + value) == value
  {
    if value == "" { TrimOfTrimmed(""); }
    else { TrimOfIndented(c, value); }
  }

  // ---------------------------------------------------------------- line endings and outcome

  predicate CrLfAt(text: string, i: nat) {
    0 < i < |text| && text[i] == '\n' && text[i - 1] == '\r'
  }

  predicate LfAt(text: string, i: nat) {
    i < |text| && text[i] == '\n' && (i == 0 || text[i - 1] != '\r')
  }

  ghost function Positions(text: string, n: nat, crlf: bool): set<nat>
    requires n <= |text|
  {
    set i: nat | i < n && (if crlf then CrLfAt(text, i) else LfAt(text, i))
  }

  lemma PositionsNext(text: string, m: nat, crlf: bool)
    requires m < |text|
    ensures |Positions(text, m + 1, crlf)| == |Positions(text, m, crlf)| + (if (if crlf then CrLfAt(text, m) else LfAt(text, m)) then 1 else 0)
  {
    if if crlf then CrLfAt(text, m) else LfAt(text, m) {
      assert Positions(text, m + 1, crlf) == Positions(text, m, crlf) + {m};
    } else {
      assert Positions(text, m + 1, crlf) == Positions(text, m, crlf);
    }
  }

  lemma EndingsStep(previous: char, text: string)
    requires text != ""
    ensures
      var e := Endings(text[0], text[1..]);
      Endings(previous, text) == if text[0] != '\n' then e else if previous == '\r' then (e.0 + 1, e.1) else (e.0, e.1 + 1)
  {
  }

  lemma {:induction false} EndingsFrom(text: string, n: nat)
    requires n <= |text|
    ensures
      var previous := if n == 0 then ' ' else text[n - 1];
      Endings(' ', text) == (|Positions(text, n, true)| + Endings(previous, text[n..]).0, |Positions(text, n, false)| + Endings(previous, text[n..]).1)
    decreases n
  {
    if n == 0 {
      assert text[0..] == text && Positions(text, 0, true) == {} && Positions(text, 0, false) == {};
    } else {
      hide Endings, Positions;
      var m := n - 1;
      EndingsFrom(text, m);
      assert text[m..][1..] == text[n..] && text[m..][0] == text[m];
      EndingsStep(if m == 0 then ' ' else text[m - 1], text[m..]);
      PositionsNext(text, m, true);
      PositionsNext(text, m, false);
    }
  }

  /** Carriage return and line feed are written exactly when more lines of the source end so than
      in a line feed alone. */
  lemma LineEndingExactly(text: string)
    ensures DominantLineEnding(text) ==
      if |Positions(text, |text|, true)| > |Positions(text, |text|, false)| then "\r\n" else "\n"
  {
    EndingsFrom(text, |text|);
    assert text[|text|..] == "";
  }

  /** A text is formatted exactly when it names one of the two versions; else it is returned as it
      was read. */
  lemma AppliesExactly(text: string, indentSize: nat)
    ensures
      var r, source := Format(text, indentSize), Source(text);
      && (r.applicable <==> exists i: nat :: SpelledAt(source, "INTERLIS 2.3", i) || SpelledAt(source, "INTERLIS 2.4", i))
      && (r.success <==> r.applicable) && (!r.applicable ==> r.text == source)
      && ("ILIC-FORMAT-VERSION" in r.diagnostics <==> !r.applicable)
      && ("ILIC-FORMAT-ENCODING" in r.diagnostics <==> !ValidUtf8(text))
      && (r.applicable ==> (r.changed <==> r.text != text))
  {
    hide ValidUtf8, FormattedText, Latin1ToUtf8;
    var source := Source(text);
    VersionOccurs(source, "INTERLIS 2.3");
    VersionOccurs(source, "INTERLIS 2.4");
    hide Contains;
  }

  /** The characters of the word stand one after the other from i on. */
  predicate SpelledAt(s: string, word: string, i: nat) {
    i + |word| <= |s| && forall k :: 0 <= k < |word| ==> s[i + k] == word[k]
  }

  lemma VersionOccurs(s: string, word: string)
    ensures Contains(s, word) <==> exists i: nat :: SpelledAt(s, word, i)
  {
    if exists i: nat :: SpelledAt(s, word, i) {
      var i: nat :| SpelledAt(s, word, i);
      assert s[i..i + |word|] == word;
      assert OccursAt(s, word, i);
    }
    if Contains(s, word) {
      var i: nat :| i <= |s| && OccursAt(s, word, i);
      var t := s[i..i + |word|];
      assert forall k :: 0 <= k < |word| ==> s[i + k] == t[k];
      assert SpelledAt(s, word, i);
    }
  }
}
