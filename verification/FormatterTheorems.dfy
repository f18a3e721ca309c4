/** The formatter's promises: a formatted text is formatted, and only whitespace changed. */
module FormatterTheorems {
  import opened Formatter
  import opened FormatterLines
  import opened FormatterIdempotence
  import opened FormatterIndents

  // ---------------------------------------------------------------- encoding of the output

  lemma ValidStripCr(line: string)
    requires ValidUtf8(line)
    ensures ValidUtf8(StripCr(line))
  {
    if Ends(line, '\r') {
      var short := line[..|line| - 1];
      assert line == short + ("\r" + "");
      ValidSplit(short, '\r', "");
    }
  }

  lemma AtNewline(text: string)
    requires IndexOf(text, '\n') < |text|
    ensures var i := IndexOf(text, '\n'); text == text[..i] + ("\n" + text[i + 1..])
  {
    CutAt(text, IndexOf(text, '\n'));
  }

  /** The first line of a text, and the others. */
  lemma LinesAt(text: string)
    requires text != ""
    ensures var i := IndexOf(text, '\n');
      if i == |text| then Lines(text) == [StripCr(text)] + [] else Lines(text) == [StripCr(text[..i])] + Lines(text[i + 1..])
  {
    assert text[..|text|] == text;
  }

  lemma {:induction false} ValidLines(text: string)
    requires ValidUtf8(text)
    ensures forall i :: 0 <= i < |Lines(text)| ==> ValidUtf8(Lines(text)[i])
    decreases |text|
  {
    if text != "" {
      hide *;
      LinesAt(text);
      var i := IndexOf(text, '\n');
      if i < |text| {
        AtNewline(text);
        ValidSplit(text[..i], '\n', text[i + 1..]) by { assert Ascii('\n') by { NewlineIsAscii(); } }
        ValidLines(text[i + 1..]);
        ValidStripCr(text[..i]);
      } else {
        ValidStripCr(text);
      }
    }
  }

  lemma NewlineIsAscii()
    ensures Ascii('\n')
  {
  }

  lemma {:induction false} ValidRepeat(unit: string, n: nat)
    requires ValidUtf8(unit)
    ensures ValidUtf8(Repeat(unit, n))
  {
    if n > 0 {
      ValidRepeat(unit, n - 1);
      ValidConcat(Repeat(unit, n - 1), unit);
    }
  }

  lemma ValidTextLine(st: State, line: string, unit: string)
    requires ValidUtf8(line) && ValidUtf8(unit)
    ensures ValidUtf8(TextLine(st, line, unit))
  {
    hide ValidUtf8;
    var indent := Dedent(st.indent, line);
    var space := if Continuation(st.inComment, line) then " " else "";
    ValidRepeat(unit, indent);
    ValidCanonical(line);
    ValidAscii(space);
    ValidConcat(space, Canonical(line));
    ValidConcat(Repeat(unit, indent), space + Canonical(line));
  }

  lemma {:induction false} ValidOutput(lines: seq<string>, st: State, unit: string)
    requires ValidUtf8(unit) && forall i :: 0 <= i < |lines| ==> ValidUtf8(lines[i])
    ensures forall i :: 0 <= i < |OutputLines(lines, st, unit)| ==> ValidUtf8(OutputLines(lines, st, unit)[i])
    decreases |lines|
  {
    if lines != [] {
      ValidAscii("");
      hide ValidUtf8, Trim, TextLine, After;
      ValidTrim(lines[0]);
      var line := Trim(lines[0]);
      if line == "" {
        ValidOutput(lines[1..], st.(previousBlank := true), unit);
        assert st.previousBlank ==> st.(previousBlank := true) == st;
      } else {
        ValidTextLine(st, line, unit);
        ValidOutput(lines[1..], After(st, line), unit);
      }
    }
  }

  lemma {:induction false} ValidJoin(lines: seq<string>, newline: string)
    requires LineEnd(newline) && forall i :: 0 <= i < |lines| ==> ValidUtf8(lines[i])
    ensures ValidUtf8(Join(lines, newline))
  {
    if lines != [] {
      hide ValidUtf8;
      ValidJoin(lines[1..], newline);
      ValidAscii(newline);
      ValidConcat(newline, Join(lines[1..], newline));
      ValidConcat(lines[0], newline + Join(lines[1..], newline));
    } else {
      ValidAscii("");
    }
  }

  // ---------------------------------------------------------------- the version marker

  /** Texts whose occurrences formatting keeps. */
  predicate Durable(n: string) {
    Solid(n) && '\n' !in n && '\r' !in n && '=' !in n && '!' !in n && '@' !in n
  }

  lemma StripCrOccurrence(line: string, n: string)
    requires Durable(n)
    ensures Contains(line, n) <==> Contains(StripCr(line), n)
  {
    if Ends(line, '\r') {
      var short := line[..|line| - 1];
      assert line == "" + short + "\r";
      OccurrenceInBlanks("", short, "\r", n);
    }
  }

  lemma HeadOccurrence(lines: seq<string>, first: string, rest: seq<string>, n: string)
    requires lines == [first] + rest
    ensures Contains(first, n) ==> |lines| > 0 && Contains(lines[0], n)
    ensures forall k :: 0 <= k < |rest| && Contains(rest[k], n) ==> k + 1 < |lines| && Contains(lines[k + 1], n)
  {
    hide Contains;
  }

  lemma {:induction false} OccurrenceInLines(text: string, n: string) returns (k: nat)
    requires Durable(n) && Contains(text, n)
    ensures k < |Lines(text)| && Contains(Lines(text)[k], n)
    decreases |text|
  {
    assert text != "" && '\n' !in n;
    hide *;
    LinesStep(text);
    var i := IndexOf(text, '\n');
    StripCrOccurrence(text[..i], n);
    var tail := if i == |text| then "" else text[i + 1..];
    HeadOccurrence(Lines(text), StripCr(text[..i]), Lines(tail), n);
    if i == |text| {
      assert text[..i] == text;
      k := 0;
    } else {
      AtNewline(text);
      OccurrenceSplit(text[..i], '\n', text[i + 1..], n);
      if Contains(text[..i], n) {
        k := 0;
      } else {
        var rest := OccurrenceInLines(tail, n);
        k := rest + 1;
      }
    }
  }

  lemma TextLineOccurrence(st: State, line: string, unit: string, n: string)
    requires Durable(n) && Blank(unit) && Contains(line, n)
    ensures Contains(TextLine(st, line, unit), n)
  {
    var indent := Dedent(st.indent, line);
    RepeatBlank(unit, indent);
    hide Contains, Canonical, Repeat;
    CanonicalOccurrence(line, n);
    var space := if Continuation(st.inComment, line) then " " else "";
    OccurrenceIndented(space, Canonical(line), n);
    OccurrenceIndented(Repeat(unit, indent), space + Canonical(line), n);
  }

  lemma EmptyContainsNothing(n: string)
    requires n != ""
    ensures !Contains("", n)
  {
  }

  lemma {:induction false} OutputOccurrence(lines: seq<string>, st: State, unit: string, n: string, k: nat) returns (j: nat)
    requires Durable(n) && Blank(unit) && k < |lines| && Contains(lines[k], n)
    ensures j < |OutputLines(lines, st, unit)| && Contains(OutputLines(lines, st, unit)[j], n)
    decreases |lines|
  {
    hide Contains, Trim, TextLine, After, Durable;
    var line := Trim(lines[0]);
    OccurrenceTrimmed(lines[0], n) by { assert Solid(n) by { DurableIsSolid(n); } }
    EmptyContainsNothing(n) by { DurableIsSolid(n); }
    if k == 0 {
      TextLineOccurrence(st, line, unit, n);
      j := 0;
    } else if line == "" {
      j := OutputOccurrence(lines[1..], st.(previousBlank := true), unit, n, k - 1);
      assert st.previousBlank ==> st.(previousBlank := true) == st;
      if !st.previousBlank { j := j + 1; }
    } else {
      j := OutputOccurrence(lines[1..], After(st, line), unit, n, k - 1);
      j := j + 1;
    }
  }

  lemma DurableIsSolid(n: string)
    requires Durable(n)
    ensures Solid(n)
  {
  }

  lemma {:induction false} JoinOccurrence(lines: seq<string>, newline: string, n: string, j: nat)
    requires j < |lines| && Contains(lines[j], n)
    ensures Contains(Join(lines, newline), n)
  {
    hide Contains;
    var tail := newline + Join(lines[1..], newline);
    if j == 0 {
      OccurrenceWithin("", lines[0], tail, n);
      assert "" + lines[0] + tail == Join(lines, newline);
    } else {
      JoinOccurrence(lines[1..], newline, n, j - 1);
      OccurrenceWithin(lines[0] + newline, Join(lines[1..], newline), "", n);
      assert (lines[0] + newline) + Join(lines[1..], newline) + "" == Join(lines, newline);
    }
  }

  lemma OccurrenceKept(source: string, indentSize: nat, n: string)
    requires Durable(n) && Contains(source, n)
    ensures Contains(FormattedText(source, indentSize), n)
    ensures OutputLines(Lines(source), Begin, Unit(indentSize)) != []
  {
    hide Contains, OutputLines, Join, Lines, DominantLineEnding, Durable;
    var k := OccurrenceInLines(source, n);
    var j := OutputOccurrence(Lines(source), Begin, Unit(indentSize), n, k);
    JoinOccurrence(OutputLines(Lines(source), Begin, Unit(indentSize)), DominantLineEnding(source), n, j);
  }

  /** A formatted text of a supported version is still of that version. */
  lemma SupportKept(source: string, indentSize: nat)
    requires Supported(source)
    ensures Supported(FormattedText(source, indentSize))
    ensures OutputLines(Lines(source), Begin, Unit(indentSize)) != []
  {
    hide Contains, FormattedText, OutputLines, Lines;
    if Contains(source, "INTERLIS 2.3") { OccurrenceKept(source, indentSize, "INTERLIS 2.3"); }
    else { OccurrenceKept(source, indentSize, "INTERLIS 2.4"); }
  }

  // ---------------------------------------------------------------- idempotence

  /** Every line that opens a block in only one of the two passes is the last text line, or
      stands at the left margin before a line that closes a block. */
  ghost predicate IndentsStable(source: string) {
    Steady(Texts(Lines(source)), 0)
  }

  lemma UnitIsBlank(indentSize: nat)
    ensures Blank(Unit(indentSize)) && '\n' !in Unit(indentSize) && ValidUtf8(Unit(indentSize))
    ensures Unit(indentSize) == "" <==> indentSize == 0
  {
    ValidAscii(Unit(indentSize));
  }

  /** The formatted text as the formatter reads it again. */
  lemma ReadBack(source: string, indentSize: nat)
    requires Supported(source)
    ensures var out := FormattedText(source, indentSize);
      && Lines(out) == Render(Skeleton(Lines(source), false, false), 0, Unit(indentSize))
      && DominantLineEnding(out) == DominantLineEnding(source)
  {
    hide Contains, Endings, Skeleton, Render, Lines, Join, OutputLines, Unit;
    var unit, lines, newline := Unit(indentSize), Lines(source), DominantLineEnding(source);
    UnitIsBlank(indentSize);
    SupportKept(source, indentSize);
    OutputIsRender(lines, Begin, unit);
    LinesHaveNoNewline(source);
    SkeletonOk(lines, false, false);
    RenderWritable(Skeleton(lines, false, false), 0, unit);
    LinesOfJoin(OutputLines(lines, Begin, unit), newline);
    EndingOfJoin(OutputLines(lines, Begin, unit), newline);
  }

  lemma JoinInjective(a: seq<string>, b: seq<string>, newline: string)
    requires LineEnd(newline)
    requires forall i :: 0 <= i < |a| ==> Writable(a[i])
    requires forall i :: 0 <= i < |b| ==> Writable(b[i])
    ensures Join(a, newline) == Join(b, newline) <==> a == b
  {
    LinesOfJoin(a, newline);
    LinesOfJoin(b, newline);
  }

  /** Formatting a formatted text changes it back into itself exactly when the indentation
      is stable or no indentation is written. */
  lemma SecondPass(source: string, indentSize: nat)
    requires ValidUtf8(source) && Supported(source)
    ensures var out := FormattedText(source, indentSize);
      && ValidUtf8(out) && Supported(out)
      && (FormattedText(out, indentSize) == out <==> indentSize == 0 || IndentsStable(source))
  {
    hide Contains, Endings, Skeleton, Render, Lines, Join, OutputLines, ValidUtf8, Indents, Supported, Unit, CanonicalItems, Steady, Texts;
    var unit, lines, newline := Unit(indentSize), Lines(source), DominantLineEnding(source);
    var items := Skeleton(lines, false, false);
    var out := FormattedText(source, indentSize);
    UnitIsBlank(indentSize);
    ValidLines(source);
    ValidOutput(lines, Begin, unit);
    ValidJoin(OutputLines(lines, Begin, unit), newline);
    SupportKept(source, indentSize);
    ReadBack(source, indentSize);
    OutputIsRender(lines, Begin, unit);
    LinesHaveNoNewline(source);
    SkeletonOk(lines, false, false);
    SkeletonOfRender(lines, false, false, 0, unit);
    OutputIsRender(Lines(out), Begin, unit);
    RenderTwice(items, 0, 0, unit);
    SkeletonSteady(lines);
    RenderWritable(items, 0, unit);
    CanonicalItemsOk(items);
    RenderWritable(CanonicalItems(items), 0, unit);
    JoinInjective(Render(items, 0, unit), Render(CanonicalItems(items), 0, unit), newline);
  }

  lemma CanonicalItemsOk(items: seq<Item>)
    requires forall i :: 0 <= i < |items| ==> ItemOk(items[i])
    ensures forall i :: 0 <= i < |items| ==> ItemOk(CanonicalItems(items)[i])
  {
    hide Trim, Canonical;
    forall i | 0 <= i < |items| ensures ItemOk(CanonicalItem(items[i])) {
      assert ItemOk(items[i]);
      if items[i].TextItem? {
        var t := items[i].line;
        CanonicalFixed(t);
        CanonicalChars(t);
        TrimIsTrimmed(Canonical(t));
      }
    }
  }

  /** Idempotence of `Formatter::format`, exactly. */
  lemma FormatTwice(text: string, indentSize: nat)
    requires Format(text, indentSize).applicable
    ensures var once := Format(text, indentSize);
      var twice := Format(once.text, indentSize);
      && twice.applicable && twice.diagnostics == []
      && (twice.text == once.text <==> indentSize == 0 || IndentsStable(Source(text)))
      && (twice.changed <==> twice.text != once.text)
  {
    hide ValidUtf8, Supported, FormattedText, IndentsStable;
    SourceIsValid(text);
    SecondPass(Source(text), indentSize);
  }

  /** Not a meta attribute line that ends in '='. */
  predicate ClosedLine(line: string) {
    !(IsMeta(line) && Ends(line, '='))
  }

  ghost predicate NoOpenMeta(source: string) {
    forall i :: 0 <= i < |Lines(source)| ==> ClosedLine(Trim(Lines(source)[i]))
  }

  lemma {:induction false} TextsClosed(lines: seq<string>)
    requires forall i :: 0 <= i < |lines| ==> ClosedLine(Trim(lines[i]))
    ensures forall i :: 0 <= i < |Texts(lines)| ==> ClosedLine(Texts(lines)[i])
  {
    hide Trim, ClosedLine;
    if lines != [] { TextsClosed(lines[1..]); }
  }

  lemma ClosedIsSteady(texts: seq<string>)
    requires forall i :: 0 <= i < |texts| ==> LineOk(texts[i]) && ClosedLine(texts[i])
    ensures Steady(texts, 0)
  {
    hide Turns, Harmless, IsMeta, Ends;
    forall i | 0 <= i < |texts| ensures !Turns(texts[i]) {
      if Turns(texts[i]) { TurnsOnlyOpenMeta(texts[i]); }
    }
  }

  /** Formatting is idempotent on every accepted source in which no meta attribute line
      ends in '='. */
  lemma FormatIdempotent(text: string, indentSize: nat)
    requires Format(text, indentSize).applicable && NoOpenMeta(Source(text))
    ensures Format(Format(text, indentSize).text, indentSize).text == Format(text, indentSize).text
  {
    hide Format, Steady, Texts, Trim, ClosedLine;
    FormatTwice(text, indentSize);
    var source := Source(text);
    LinesHaveNoNewline(source);
    TextsOk(Lines(source));
    TextsClosed(Lines(source));
    ClosedIsSteady(Texts(Lines(source)));
  }

  // ---------------------------------------------------------------- whitespace only

  function EraseAll(lines: seq<string>): string {
    if lines == [] then "" else Erase(lines[0]) + EraseAll(lines[1..])
  }

  lemma EraseStripCr(line: string)
    ensures Erase(StripCr(line)) == Erase(line)
  {
    if Ends(line, '\r') {
      var short := line[..|line| - 1];
      assert line == short + "\r";
      EraseConcat(short, "\r");
      EraseBlank("\r");
    }
  }

  lemma EraseCons(line: string, lines: seq<string>)
    ensures EraseAll([line] + lines) == Erase(line) + EraseAll(lines)
  {
    assert ([line] + lines)[1..] == lines;
  }

  lemma {:induction false} EraseLines(text: string)
    ensures EraseAll(Lines(text)) == Erase(text)
    decreases |text|
  {
    if text != "" {
      assert EraseAll([]) == "";
      hide *;
      LinesAt(text);
      var i := IndexOf(text, '\n');
      if i == |text| {
        EraseCons(StripCr(text), []);
        EraseStripCr(text);
      } else {
        var line, rest := text[..i], text[i + 1..];
        AtNewline(text);
        EraseCons(StripCr(line), Lines(rest));
        EraseStripCr(line);
        EraseLines(rest);
        EraseLineEnd(line, rest);
      }
    }
  }

  lemma EraseLineEnd(line: string, rest: string)
    ensures Erase(line + ("\n" + rest)) == Erase(line) + Erase(rest)
  {
    EraseBlank("\n");
    hide Erase;
    EraseConcat(line, "\n" + rest);
    EraseConcat("\n", rest);
  }

  lemma EraseTextLine(st: State, line: string, unit: string)
    requires Blank(unit)
    ensures Erase(TextLine(st, line, unit)) == Erase(line)
  {
    var spaces := Repeat(unit, Dedent(st.indent, line));
    RepeatBlank(unit, Dedent(st.indent, line));
    var space := if Continuation(st.inComment, line) then " " else "";
    assert Blank(space);
    hide Erase, Canonical, Repeat;
    EraseConcat(spaces, space + Canonical(line));
    EraseConcat(space, Canonical(line));
    EraseBlank(spaces);
    EraseBlank(space);
    EraseCanonical(line);
  }

  lemma {:induction false} EraseOutput(lines: seq<string>, st: State, unit: string)
    requires Blank(unit)
    ensures EraseAll(OutputLines(lines, st, unit)) == EraseAll(lines)
    decreases |lines|
  {
    if lines != [] {
      EraseBlank("");
      hide Erase, Trim, TextLine, After;
      EraseTrim(lines[0]);
      var line := Trim(lines[0]);
      if line == "" {
        EraseOutput(lines[1..], st.(previousBlank := true), unit);
        assert st.previousBlank ==> st.(previousBlank := true) == st;
        assert "" + EraseAll(lines[1..]) == EraseAll(lines[1..]);
      } else {
        EraseTextLine(st, line, unit);
        EraseOutput(lines[1..], After(st, line), unit);
      }
    }
  }

  lemma {:induction false} EraseJoin(lines: seq<string>, newline: string)
    requires LineEnd(newline)
    ensures Erase(Join(lines, newline)) == EraseAll(lines)
  {
    if lines != [] {
      EraseBlank(newline);
      hide Erase;
      EraseJoin(lines[1..], newline);
      EraseConcat(lines[0], newline + Join(lines[1..], newline));
      EraseConcat(newline, Join(lines[1..], newline));
    }
  }

  /** Whenever formatting applies, input and output differ in whitespace only. */
  lemma FormatKeepsText(text: string, indentSize: nat)
    requires Format(text, indentSize).applicable
    ensures Erase(Format(text, indentSize).text) == Erase(Source(text))
  {
    hide Erase, Contains, Lines, OutputLines, Join, Endings;
    var source := Source(text);
    UnitIsBlank(indentSize);
    EraseLines(source);
    EraseOutput(Lines(source), Begin, Unit(indentSize));
    EraseJoin(OutputLines(Lines(source), Begin, Unit(indentSize)), DominantLineEnding(source));
  }

  // ---------------------------------------------------------------- the boundary case

  const HEAD := "INTERLIS 2.4"
  const META := "!!@ CLASS ="
  const LAST := "x"
  const SAMPLE := [HEAD, META, LAST]

  lemma SampleTrimmed()
    ensures Trimmed("INTERLIS 2.4") && Trimmed("x") && Trimmed("CLASS =") && Trimmed("CLASS") && Trimmed("!!@ CLASS=")
    ensures Trim("INTERLIS 2.4") == "INTERLIS 2.4" && Trim("x") == "x" && Trim("!!@ CLASS=") == "!!@ CLASS=" && Trim("") == ""
  {
    hide Trim;
    TrimOfTrimmed("INTERLIS 2.4");
    TrimOfTrimmed("x");
    TrimOfTrimmed("!!@ CLASS=");
    TrimOfTrimmed("");
  }

  lemma SampleKept()
    ensures !IsMeta("INTERLIS 2.4") && !IsMeta("x")
  {
    PrefixFirst("!!@", "INTERLIS 2.4");
  }

  lemma SampleMeta()
    ensures IsMeta("!!@ CLASS =") && "!!@ CLASS ="[3..] == " " + "CLASS ="
    ensures "!!@ " + "CLASS=" == "!!@ CLASS="
  {
    assert "!!@ CLASS ="[..3] == "!!@";
  }

  lemma SampleValue()
    requires Trim("CLASS ") == "CLASS" && Trim("") == ""
    ensures MetaValue("CLASS =") == "CLASS="
  {
    hide Trim;
    assert "CLASS =" == "CLASS " + ("=" + "");
    IndexOfAfter("CLASS ", '=', "");
    hide IndexOf;
    assert "CLASS ="[..6] == "CLASS " && "CLASS ="[7..] == "";
  }

  lemma SampleWord()
    requires Trimmed("CLASS")
    ensures Trim("CLASS ") == "CLASS"
  {
    assert "" + "CLASS" + " " == "CLASS ";
    hide Trim;
    TrimUnique("", "CLASS", " ");
  }

  lemma SampleCanonical()
    ensures Trim(Canonical("!!@ CLASS =")) == "!!@ CLASS="
    ensures Trim(Canonical("INTERLIS 2.4")) == "INTERLIS 2.4" && Trim(Canonical("x")) == "x"
  {
    SampleKept();
    assert Canonical("INTERLIS 2.4") == "INTERLIS 2.4" && Canonical("x") == "x" && Blank(" ");
    hide *;
    SampleTrimmed();
    SampleMeta();
    SampleWord();
    TrimOfIndented(" ", "CLASS =");
    SampleValue();
    CanonicalOfMeta("!!@ CLASS =");
  }

  lemma OneBlankOnly(line: string, p: nat, word: string)
    requires p < |line| && forall i :: 0 <= i < |line| && i != p ==> line[i] != ' '
    ensures !Contains(line, " " + word + " ")
  {
    var n := " " + word + " ";
    forall i | 0 <= i <= |line| ensures !OccursAt(line, n, i) {
      OccurrenceChar(line, n, i, 0);
      OccurrenceChar(line, n, i, |n| - 1);
    }
  }

  lemma NotClosing(line: string)
    requires line != "" && line[0] != 'E' && line[0] != ')'
    ensures !Closes(line)
  {
    PrefixFirst("END", line);
  }

  lemma PrefixFirst(prefix: string, line: string)
    requires prefix != ""
    ensures prefix <= line ==> line != "" && line[0] == prefix[0]
  {
  }

  lemma SampleBlocks()
    ensures Opens(META) && !Opens("!!@ CLASS=") && !Opens(HEAD)
    ensures !Closes(HEAD) && !Closes(META) && !Closes("!!@ CLASS=") && !Closes(LAST)
  {
    NotClosing(HEAD);
    NotClosing(META);
    NotClosing("!!@ CLASS=");
    NotClosing(LAST);
    hide Closes;
    assert Declares(META) by {
      assert BLOCK_WORDS[6] == "CLASS" && " " + "CLASS" + " " == " CLASS ";
      assert META[3..10] == " CLASS ";
      assert OccursAt(META, " " + BLOCK_WORDS[6] + " ", 3);
    }
    var closed := "!!@ CLASS=";
    assert !Declares(closed) by {
      forall i | 0 <= i < |BLOCK_WORDS|
        ensures !StartsWord(closed, BLOCK_WORDS[i]) && !Contains(closed, " " + BLOCK_WORDS[i] + " ")
      {
        OneBlankOnly(closed, 3, BLOCK_WORDS[i]);
        assert BLOCK_WORDS[i] != "" && BLOCK_WORDS[i][0] != '!';
      }
    }
    assert !("VIEW" <= HEAD) && !Ends(HEAD, '=') && !Ends(HEAD, '(');
  }

  lemma SampleTexts()
    ensures Texts(SAMPLE) == SAMPLE
  {
    TrimOfTrimmed(HEAD);
    TrimOfTrimmed(META);
    TrimOfTrimmed(LAST);
    hide Trim;
    assert SAMPLE[1..] == [META, LAST] && [META, LAST][1..] == [LAST] && [LAST][1..] == [];
    assert Texts([LAST]) == [LAST];
    assert Texts([META, LAST]) == [META] + [LAST];
  }

  /** A meta attribute line that looks like the head of a block: the first pass indents what
      follows, the second does not. */
  lemma SampleUnsteady()
    ensures !Steady(SAMPLE, 0)
  {
    SampleCanonical();
    SampleBlocks();
    hide Trim, Canonical, Opens, Closes, Levels;
    assert SAMPLE[1] == META && SAMPLE[2] == LAST;
    assert Turns(SAMPLE[1]);
    assert !Harmless(SAMPLE, 0, 1);
  }

  predicate Plain(line: string) {
    forall i :: 0 <= i < |line| ==> Ascii(line[i]) && line[i] != '\n' && line[i] != '\r'
  }

  lemma PlainLine(line: string)
    requires Plain(line)
    ensures Writable(line) && ValidUtf8(line)
  {
    hide ValidUtf8, Ascii;
    ValidAscii(line);
  }

  lemma HeadVersion()
    ensures Contains(HEAD, "INTERLIS 2.4")
  {
    assert HEAD[0..12] == HEAD;
    assert OccursAt(HEAD, "INTERLIS 2.4", 0);
  }

  lemma SamplePlain()
    ensures Plain(HEAD) && Plain(META) && Plain(LAST)
  {
  }

  lemma SampleText()
    ensures Lines(Join(SAMPLE, "\n")) == SAMPLE && ValidUtf8(Join(SAMPLE, "\n")) && Contains(HEAD, "INTERLIS 2.4")
  {
    assert LineEnd("\n") && SAMPLE == [HEAD, META, LAST];
    hide *;
    SamplePlain();
    PlainLine(HEAD);
    PlainLine(META);
    PlainLine(LAST);
    LinesOfJoin(SAMPLE, "\n");
    ValidJoin(SAMPLE, "\n");
    HeadVersion();
  }

  /** Without the condition on meta attribute lines formatting is not idempotent. */
  lemma OpenMetaBreaksIdempotence(indentSize: nat)
    requires indentSize > 0
    ensures var text := Join(SAMPLE, "\n");
      && Format(text, indentSize).applicable
      && Format(Format(text, indentSize).text, indentSize).text != Format(text, indentSize).text
  {
    var text := Join(SAMPLE, "\n");
    SampleText();
    hide Contains, ValidUtf8, Join, Lines, FormattedText, Steady, Texts;
    JoinOccurrence(SAMPLE, "\n", "INTERLIS 2.4", 0);
    SampleTexts();
    SampleUnsteady();
    FormatTwice(text, indentSize);
  }
}
