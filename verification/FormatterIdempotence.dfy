/** Formatting twice, and what formatting keeps of a text. */
module FormatterIdempotence {
  import opened Formatter
  import opened FormatterLines

  // ---------------------------------------------------------------- lines and indentation apart

  /** What a source contributes to the output apart from indentation. */
  datatype Item = BlankLine | TextItem(continuation: bool, line: string)

  function Skeleton(lines: seq<string>, inComment: bool, previousBlank: bool): seq<Item>
    decreases |lines|
  {
    if lines == [] then []
    else
      var line := Trim(lines[0]);
      if line == "" && previousBlank then Skeleton(lines[1..], inComment, true)
      else if line == "" then [BlankLine] + Skeleton(lines[1..], inComment, true)
      else [TextItem(Continuation(inComment, line), line)] + Skeleton(lines[1..], CommentAfter(inComment, line), false)
  }

  function RenderItem(item: Item, indent: nat, unit: string): string {
    match item
    case BlankLine => ""
    case TextItem(continuation, line) =>
      Repeat(unit, Dedent(indent, line)) + ((if continuation then " " else "") + Canonical(line))
  }

  function IndentAfter(item: Item, indent: nat): nat {
    match item
    case BlankLine => indent
    case TextItem(_, line) => Dedent(indent, line) + (if Opens(line) then 1 else 0)
  }

  function Render(items: seq<Item>, indent: nat, unit: string): seq<string> {
    if items == [] then []
    else [RenderItem(items[0], indent, unit)] + Render(items[1..], IndentAfter(items[0], indent), unit)
  }

  lemma RenderCons(item: Item, items: seq<Item>, indent: nat, unit: string)
    ensures Render([item] + items, indent, unit)
      == [RenderItem(item, indent, unit)] + Render(items, IndentAfter(item, indent), unit)
  {
    assert ([item] + items)[1..] == items;
  }

  lemma TextStep(lines: seq<string>, st: State, unit: string)
    requires lines != [] && Trim(lines[0]) != ""
    ensures
      var line := Trim(lines[0]);
      && OutputLines(lines, st, unit) == [TextLine(st, line, unit)] + OutputLines(lines[1..], After(st, line), unit)
      && Skeleton(lines, st.inComment, st.previousBlank)
         == [TextItem(Continuation(st.inComment, line), line)] + Skeleton(lines[1..], CommentAfter(st.inComment, line), false)
  {
    hide Trim, Canonical, Opens, CommentAfter, Dedent, Repeat, Continuation, TextLine, After;
  }

  lemma BlankStep(lines: seq<string>, st: State, unit: string)
    requires lines != [] && Trim(lines[0]) == ""
    ensures
      var tail, items := OutputLines(lines[1..], st.(previousBlank := true), unit), Skeleton(lines[1..], st.inComment, true);
      && OutputLines(lines, st, unit) == (if st.previousBlank then tail else [""] + tail)
      && Skeleton(lines, st.inComment, st.previousBlank) == (if st.previousBlank then items else [BlankLine] + items)
  {
    hide Trim, Canonical, Opens, CommentAfter, Dedent, Repeat, Continuation, TextLine, After;
    assert st.previousBlank ==> st.(previousBlank := true) == st;
  }

  lemma TextItemRendered(st: State, line: string, unit: string)
    ensures
      var item := TextItem(Continuation(st.inComment, line), line);
      && RenderItem(item, st.indent, unit) == TextLine(st, line, unit)
      && IndentAfter(item, st.indent) == After(st, line).indent
      && After(st, line).inComment == CommentAfter(st.inComment, line) && !After(st, line).previousBlank
  {
    hide Canonical, Opens, CommentAfter, Dedent, Repeat, Continuation;
  }

  lemma BlankItemRendered(indent: nat, unit: string)
    ensures RenderItem(BlankLine, indent, unit) == "" && IndentAfter(BlankLine, indent) == indent
  {
  }

  lemma {:induction false} OutputIsRender(lines: seq<string>, st: State, unit: string)
    ensures OutputLines(lines, st, unit) == Render(Skeleton(lines, st.inComment, st.previousBlank), st.indent, unit)
    decreases |lines|
  {
    if lines == [] { return; }
    hide *;
    var line := Trim(lines[0]);
    if line == "" {
      BlankStep(lines, st, unit);
      OutputIsRender(lines[1..], st.(previousBlank := true), unit);
      var items := Skeleton(lines[1..], st.inComment, true);
      RenderCons(BlankLine, items, st.indent, unit);
      BlankItemRendered(st.indent, unit);
    } else {
      TextStep(lines, st, unit);
      OutputIsRender(lines[1..], After(st, line), unit);
      TextItemRendered(st, line, unit);
      RenderCons(TextItem(Continuation(st.inComment, line), line),
        Skeleton(lines[1..], CommentAfter(st.inComment, line), false), st.indent, unit);
    }
  }

  predicate LineOk(line: string) {
    line != "" && Trimmed(line) && '\n' !in line
  }

  predicate ItemOk(item: Item) {
    item.TextItem? ==> LineOk(item.line)
  }

  lemma {:induction false} SkeletonOk(lines: seq<string>, inComment: bool, previousBlank: bool)
    requires forall i :: 0 <= i < |lines| ==> '\n' !in lines[i]
    ensures forall i :: 0 <= i < |Skeleton(lines, inComment, previousBlank)| ==> ItemOk(Skeleton(lines, inComment, previousBlank)[i])
    decreases |lines|
  {
    if lines != [] {
      TrimIsTrimmed(lines[0]);
      hide Trim, CommentAfter;
      var line := Trim(lines[0]);
      SkeletonOk(lines[1..], if line == "" then inComment else CommentAfter(inComment, line), line == "");
    }
  }

  // ---------------------------------------------------------------- the second pass

  function CanonicalItem(item: Item): Item {
    match item
    case BlankLine => BlankLine
    case TextItem(continuation, line) => TextItem(continuation, Trim(Canonical(line)))
  }

  function CanonicalItems(items: seq<Item>): (r: seq<Item>)
    ensures |r| == |items| && forall i :: 0 <= i < |r| ==> r[i] == CanonicalItem(items[i])
  {
    if items == [] then [] else [CanonicalItem(items[0])] + CanonicalItems(items[1..])
  }

  lemma TrimPrefixed(a: string, s: string)
    requires Blank(a)
    ensures Trim(a + s) == Trim(s)
  {
    hide Trim;
    var x, y := TrimParts(s);
    assert a + (x + Trim(s) + y) == (a + x) + Trim(s) + y;
    TrimUnique(a + x, Trim(s), y);
  }

  lemma {:induction false} RepeatBlank(unit: string, n: nat)
    requires Blank(unit)
    ensures Blank(Repeat(unit, n))
  {
    if n > 0 { RepeatBlank(unit, n - 1); }
  }

  /** A written line is read back as its canonical text. */
  lemma RenderedTrims(item: Item, indent: nat, unit: string)
    requires Blank(unit)
    ensures Trim(RenderItem(item, indent, unit)) == if item.BlankLine? then "" else Trim(Canonical(item.line))
  {
    if item.TextItem? {
      var spaces := Repeat(unit, Dedent(indent, item.line));
      RepeatBlank(unit, Dedent(indent, item.line));
      var space := if item.continuation then " " else "";
      hide Trim, Canonical;
      TrimPrefixed(spaces, space + Canonical(item.line));
      TrimPrefixed(space, Canonical(item.line));
    }
  }

  /** Reading the written lines yields the items of the source in canonical spacing. */
  lemma {:induction false} SkeletonOfRender(lines: seq<string>, inComment: bool, previousBlank: bool, indent: nat, unit: string)
    requires Blank(unit) && forall i :: 0 <= i < |lines| ==> '\n' !in lines[i]
    ensures Skeleton(Render(Skeleton(lines, inComment, previousBlank), indent, unit), inComment, previousBlank)
         == CanonicalItems(Skeleton(lines, inComment, previousBlank))
    decreases |lines|
  {
    if lines != [] {
      TrimIsTrimmed(lines[0]);
      hide Trim, Canonical, RenderItem, CommentAfter, Continuation, IndentAfter;
      var line := Trim(lines[0]);
      var items := Skeleton(lines, inComment, previousBlank);
      if line == "" && previousBlank {
        SkeletonOfRender(lines[1..], inComment, true, indent, unit);
      } else {
        var inComment' := if line == "" then inComment else CommentAfter(inComment, line);
        var rest := Skeleton(lines[1..], inComment', line == "");
        assert items == [items[0]] + rest && items[1..] == rest;
        SkeletonOfRender(lines[1..], inComment', line == "", IndentAfter(items[0], indent), unit);
        var out := Render(items, indent, unit);
        assert out[1..] == Render(rest, IndentAfter(items[0], indent), unit);
        RenderedTrims(items[0], indent, unit);
        if line != "" {
          CanonicalFixed(line);
          CanonicalComment(inComment, line);
        }
      }
    }
  }

  /** The indentation of the text lines of a source. */
  function Indents(items: seq<Item>, indent: nat): seq<nat> {
    if items == [] then []
    else if items[0].BlankLine? then Indents(items[1..], indent)
    else [Dedent(indent, items[0].line)] + Indents(items[1..], IndentAfter(items[0], indent))
  }

  lemma {:induction false} RepeatGrows(unit: string, m: nat, n: nat)
    requires unit != "" && m < n
    ensures |Repeat(unit, m)| < |Repeat(unit, n)|
  {
    if m < n - 1 { RepeatGrows(unit, m, n - 1); }
  }

  lemma {:induction false} RepeatNothing(n: nat)
    ensures Repeat("", n) == ""
  {
    if n > 0 { RepeatNothing(n - 1); }
  }

  lemma SameIndent(unit: string, m: nat, n: nat, text: string)
    ensures Repeat(unit, m) + text == Repeat(unit, n) + text <==> unit == "" || m == n
  {
    if unit == "" {
      RepeatNothing(m);
      RepeatNothing(n);
    } else if m < n {
      RepeatGrows(unit, m, n);
      assert |Repeat(unit, m) + text| != |Repeat(unit, n) + text|;
    } else if n < m {
      RepeatGrows(unit, n, m);
      assert |Repeat(unit, m) + text| != |Repeat(unit, n) + text|;
    }
  }

  /** Rendered twice, the lines agree exactly when the indentations do. */
  lemma {:induction false} RenderTwice(items: seq<Item>, m: nat, n: nat, unit: string)
    requires forall i :: 0 <= i < |items| ==> ItemOk(items[i])
    ensures Render(items, m, unit) == Render(CanonicalItems(items), n, unit)
       <==> unit == "" || Indents(items, m) == Indents(CanonicalItems(items), n)
  {
    if items != [] {
      var a, b := items[0], CanonicalItem(items[0]);
      var rest := items[1..];
      var m', n' := IndentAfter(a, m), IndentAfter(b, n);
      RenderTwice(rest, m', n', unit);
      hide Trim, Canonical, Dedent, Opens;
      assert CanonicalItems(items)[1..] == CanonicalItems(rest);
      if a.TextItem? {
        assert ItemOk(a);
        CanonicalFixed(a.line);
        SameIndent(unit, Dedent(m, a.line), Dedent(n, b.line), (if a.continuation then " " else "") + Canonical(a.line));
        ConsEqual(RenderItem(a, m, unit), Render(rest, m', unit), RenderItem(b, n, unit), Render(CanonicalItems(rest), n', unit));
        ConsEqual(Dedent(m, a.line), Indents(rest, m'), Dedent(n, b.line), Indents(CanonicalItems(rest), n'));
      } else {
        assert m' == m && n' == n;
        ConsEqual("", Render(rest, m', unit), "", Render(CanonicalItems(rest), n', unit));
      }
    }
  }

  lemma ConsEqual<T>(a: T, s: seq<T>, b: T, t: seq<T>)
    ensures [a] + s == [b] + t <==> a == b && s == t
  {
    if [a] + s == [b] + t {
      assert ([a] + s)[0] == a && ([b] + t)[0] == b;
      assert ([a] + s)[1..] == s && ([b] + t)[1..] == t;
    }
  }

  // ---------------------------------------------------------------- joined lines

  predicate Writable(line: string) {
    '\n' !in line && !Ends(line, '\r')
  }

  predicate LineEnd(newline: string) {
    newline == "\n" || newline == "\r\n"
  }

  lemma {:induction false} RenderWritable(items: seq<Item>, indent: nat, unit: string)
    requires Blank(unit) && '\n' !in unit
    requires forall i :: 0 <= i < |items| ==> ItemOk(items[i])
    ensures |Render(items, indent, unit)| == |items|
    ensures forall i :: 0 <= i < |items| ==> Writable(Render(items, indent, unit)[i])
  {
    if items != [] {
      if items[0].TextItem? {
        assert ItemOk(items[0]);
        CanonicalChars(items[0].line);
        RepeatNoNewline(unit, Dedent(indent, items[0].line));
      }
      hide Canonical, Trim, Repeat, IndentAfter;
      assert Writable(RenderItem(items[0], indent, unit));
      RenderWritable(items[1..], IndentAfter(items[0], indent), unit);
    }
  }

  lemma {:induction false} RepeatNoNewline(unit: string, n: nat)
    requires '\n' !in unit
    ensures '\n' !in Repeat(unit, n)
  {
    if n > 0 { RepeatNoNewline(unit, n - 1); }
  }

  lemma IndexOfLineEnd(line: string, rest: string)
    requires '\n' !in line
    ensures IndexOf(line + ("\n" + rest), '\n') == |line|
  {
    IndexOfAfter(line, '\n', rest);
  }

  lemma CarriageReturnFirst(line: string, rest: string)
    ensures line + ("\r\n" + rest) == (line + "\r") + ("\n" + rest)
  {
  }

  lemma FirstLine(raw: string, rest: string)
    requires '\n' !in raw
    ensures Lines(raw + ("\n" + rest)) == [StripCr(raw)] + Lines(rest)
  {
    var text := raw + ("\n" + rest);
    IndexOfLineEnd(raw, rest);
    hide IndexOf;
    assert text[..|raw|] == raw;
    assert text[|raw| + 1..] == rest by { assert text == (raw + "\n") + rest; }
  }

  /** Splitting undoes joining. */
  lemma {:induction false} LinesOfJoin(lines: seq<string>, newline: string)
    requires LineEnd(newline) && forall i :: 0 <= i < |lines| ==> Writable(lines[i])
    ensures Lines(Join(lines, newline)) == lines
  {
    if lines != [] {
      var line, rest := lines[0], Join(lines[1..], newline);
      LinesOfJoin(lines[1..], newline);
      var raw := if newline == "\n" then line else line + "\r";
      assert Writable(line);
      hide Join;
      CarriageReturnFirst(line, rest);
      FirstLine(raw, rest);
      hide Lines;
      assert StripCr(raw) == line;
    }
  }

  lemma {:induction false} EndingsSkip(previous: char, line: string, rest: string)
    requires '\n' !in line
    ensures Endings(previous, line + rest) == Endings(if line == "" then previous else line[|line| - 1], rest)
    decreases |line|
  {
    if line == "" {
      assert line + rest == rest;
    } else {
      assert (line + rest)[1..] == line[1..] + rest;
      EndingsSkip(line[0], line[1..], rest);
    }
  }

  lemma {:induction false} EndingsOfJoin(previous: char, lines: seq<string>, newline: string)
    requires previous != '\r' && LineEnd(newline) && forall i :: 0 <= i < |lines| ==> Writable(lines[i])
    ensures Endings(previous, Join(lines, newline)) == if newline == "\n" then (0, |lines|) else (|lines|, 0)
    decreases |lines|
  {
    if lines != [] {
      var line, rest := lines[0], Join(lines[1..], newline);
      assert Writable(line);
      EndingsOfJoin('\n', lines[1..], newline);
      EndingsSkip(previous, line, newline + rest);
      if newline == "\n" {
        assert ("\n" + rest)[1..] == rest;
      } else {
        assert newline + rest == "\r" + ("\n" + rest);
        assert ("\r" + ("\n" + rest))[1..] == "\n" + rest && ("\n" + rest)[1..] == rest;
      }
    }
  }

  lemma EndingOfJoin(lines: seq<string>, newline: string)
    requires lines != [] && LineEnd(newline) && forall i :: 0 <= i < |lines| ==> Writable(lines[i])
    ensures DominantLineEnding(Join(lines, newline)) == newline
  {
    EndingsOfJoin(' ', lines, newline);
  }

  lemma {:induction false} LinesHaveNoNewline(text: string)
    ensures forall i :: 0 <= i < |Lines(text)| ==> '\n' !in Lines(text)[i]
    decreases |text|
  {
    if text != "" {
      var i := IndexOf(text, '\n');
      if i < |text| { LinesHaveNoNewline(text[i + 1..]); }
    }
  }
}
