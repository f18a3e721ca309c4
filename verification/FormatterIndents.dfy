/** When a second formatting pass finds the same indentation: a condition on single lines. */
module FormatterIndents {
  import opened Formatter
  import opened FormatterLines
  import opened FormatterIdempotence

  // ---------------------------------------------------------------- the levels of the lines

  /** The trimmed lines that are not blank. */
  function Texts(lines: seq<string>): (r: seq<string>) {
    if lines == [] then []
    else (if Trim(lines[0]) == "" then [] else [Trim(lines[0])]) + Texts(lines[1..])
  }

  /** The level each line is written at. */
  function Levels(texts: seq<string>, indent: nat): (r: seq<nat>)
    ensures |r| == |texts|
  {
    if texts == [] then []
    else
      var level := Dedent(indent, texts[0]);
      [level] + Levels(texts[1..], level + Opening(texts[0]))
  }

  function Opening(line: string): nat {
    if Opens(line) then 1 else 0
  }

  /** The line as a second pass reads it. */
  function Reread(line: string): string {
    Trim(Canonical(line))
  }

  function RereadAll(texts: seq<string>): (r: seq<string>)
    ensures |r| == |texts|
  {
    if texts == [] then [] else [Reread(texts[0])] + RereadAll(texts[1..])
  }

  /** A line that opens a block in one pass and not in the other. */
  predicate Turns(line: string) {
    Opens(Reread(line)) != Opens(line)
  }

  /** Such lines are meta attributes that end in '='. */
  lemma TurnsOnlyOpenMeta(line: string)
    requires line != "" && Trimmed(line) && Turns(line)
    ensures IsMeta(line) && Ends(line, '=')
  {
    hide Opens, Canonical, Trim;
    if !(IsMeta(line) && Ends(line, '=')) { CanonicalOpens(line); }
  }

  /** A turning line does no harm as the last line, nor at the left margin before a line that
      closes a block. */
  predicate Harmless(texts: seq<string>, indent: nat, i: nat)
    requires i < |texts|
  {
    i == |texts| - 1 || (Levels(texts, indent)[i] == 0 && Closes(texts[i + 1]))
  }

  ghost predicate Steady(texts: seq<string>, indent: nat) {
    forall i :: 0 <= i < |texts| && Turns(texts[i]) ==> Harmless(texts, indent, i)
  }

  // ---------------------------------------------------------------- the proof

  lemma DedentReread(line: string, indent: nat)
    requires LineOk(line)
    ensures Dedent(indent, Reread(line)) == Dedent(indent, line)
  {
    hide Trim, Canonical, Closes;
    CanonicalComment(false, line);
  }

  lemma LevelsCons(texts: seq<string>, indent: nat)
    requires texts != []
    ensures
      var level := Dedent(indent, texts[0]);
      Levels(texts, indent) == [level] + Levels(texts[1..], level + Opening(texts[0]))
  {
  }

  /** The indent counts only through the level of the next line. */
  lemma SameStart(texts: seq<string>, m: nat, n: nat)
    requires texts != [] ==> Dedent(m, texts[0]) == Dedent(n, texts[0])
    ensures Levels(texts, m) == Levels(texts, n)
  {
  }

  lemma DifferentStart(texts: seq<string>, more: seq<string>, m: nat, n: nat)
    requires texts != [] && more != [] && Dedent(m, texts[0]) != Dedent(n, more[0])
    ensures Levels(texts, m) != Levels(more, n)
  {
    assert Levels(texts, m)[0] != Levels(more, n)[0];
  }

  lemma SteadyCons(texts: seq<string>, indent: nat)
    requires texts != []
    ensures
      var next := Dedent(indent, texts[0]) + Opening(texts[0]);
      Steady(texts, indent) <==> (Turns(texts[0]) ==> Harmless(texts, indent, 0)) && Steady(texts[1..], next)
  {
    var rest, next := texts[1..], Dedent(indent, texts[0]) + Opening(texts[0]);
    LevelsCons(texts, indent);
    hide Turns, Levels, Opening, Dedent, Closes;
    forall i | 0 <= i < |rest| ensures Harmless(rest, next, i) <==> Harmless(texts, indent, i + 1) {
      assert Levels(texts, indent)[i + 1] == Levels(rest, next)[i];
    }
    if Steady(texts, indent) {
      forall i | 0 <= i < |rest| && Turns(rest[i]) ensures Harmless(rest, next, i) {
        assert Turns(texts[i + 1]);
      }
    }
    if (Turns(texts[0]) ==> Harmless(texts, indent, 0)) && Steady(rest, next) {
      forall i | 0 <= i < |texts| && Turns(texts[i]) ensures Harmless(texts, indent, i) {
        if i > 0 { assert texts[i] == rest[i - 1]; }
      }
    }
  }

  /** Two indents that may differ behind a line at `level` give the same levels exactly when
      they are equal or the next line, if any, hides the difference. */
  lemma BehindLine(rest: seq<string>, level: nat, m: nat, n: nat)
    requires forall i :: 0 <= i < |rest| ==> LineOk(rest[i])
    requires level <= m <= level + 1 && level <= n <= level + 1
    ensures Levels(rest, m) == Levels(RereadAll(rest), n)
       <==> && (m == n || |rest| == 0 || (level == 0 && Closes(rest[0])))
            && Levels(rest, m) == Levels(RereadAll(rest), m)
  {
    if m != n && rest != [] {
      hide Levels, RereadAll, Closes;
      DedentReread(rest[0], n);
      DedentReread(rest[0], m);
      RereadHead(rest);
      if level == 0 && Closes(rest[0]) { SameStart(RereadAll(rest), m, n); }
      else { DifferentStart(rest, RereadAll(rest), m, n); }
    }
  }

  lemma LevelsReread(texts: seq<string>, indent: nat)
    requires texts != [] && LineOk(texts[0])
    ensures
      var level := Dedent(indent, texts[0]);
      Levels(RereadAll(texts), indent) == [level] + Levels(RereadAll(texts[1..]), level + Opening(Reread(texts[0])))
  {
    var again := RereadAll(texts);
    assert again[1..] == RereadAll(texts[1..]) && again[0] == Reread(texts[0]);
    hide RereadAll, Reread, Dedent, Opening;
    DedentReread(texts[0], indent);
    LevelsCons(again, indent);
  }

  lemma TurnsByOpening(line: string)
    ensures Turns(line) <==> Opening(Reread(line)) != Opening(line)
    ensures Opening(line) <= 1 && Opening(Reread(line)) <= 1
  {
    hide Opens, Reread;
  }

  lemma HarmlessFirst(texts: seq<string>, indent: nat)
    requires texts != []
    ensures Harmless(texts, indent, 0) <==> |texts[1..]| == 0 || (Dedent(indent, texts[0]) == 0 && Closes(texts[1..][0]))
  {
    hide Closes, Dedent, Opening;
  }

  lemma LevelsTail(texts: seq<string>, indent: nat)
    requires texts != [] && LineOk(texts[0])
    ensures
      var level := Dedent(indent, texts[0]);
      Levels(texts, indent) == Levels(RereadAll(texts), indent) <==>
      Levels(texts[1..], level + Opening(texts[0])) == Levels(RereadAll(texts[1..]), level + Opening(Reread(texts[0])))
  {
    hide *;
    var level := Dedent(indent, texts[0]);
    LevelsCons(texts, indent);
    LevelsReread(texts, indent);
    SplitEqual(level, Levels(texts[1..], level + Opening(texts[0])), Levels(RereadAll(texts[1..]), level + Opening(Reread(texts[0]))));
  }

  lemma NothingToIndent(indent: nat)
    ensures Levels([], indent) == Levels(RereadAll([]), indent) && Steady([], indent)
  {
    hide Turns;
  }

  /** Both passes write the same levels exactly when every turning line is harmless. */
  lemma {:induction false} LevelsExact(texts: seq<string>, indent: nat)
    requires forall i :: 0 <= i < |texts| ==> LineOk(texts[i])
    ensures Levels(texts, indent) == Levels(RereadAll(texts), indent) <==> Steady(texts, indent)
    decreases |texts|
  {
    hide *;
    if texts == [] {
      NothingToIndent(indent);
      return;
    }
    var level := Dedent(indent, texts[0]);
    TurnsByOpening(texts[0]);
    LevelsTail(texts, indent);
    BehindLine(texts[1..], level, level + Opening(texts[0]), level + Opening(Reread(texts[0])));
    LevelsExact(texts[1..], level + Opening(texts[0]));
    SteadyCons(texts, indent);
    HarmlessFirst(texts, indent);
  }

  lemma RereadHead(texts: seq<string>)
    requires texts != []
    ensures RereadAll(texts) != [] && RereadAll(texts)[0] == Reread(texts[0])
  {
  }

  lemma SplitEqual(level: nat, a: seq<nat>, b: seq<nat>)
    ensures [level] + a == [level] + b <==> a == b
  {
    assert ([level] + a)[1..] == a && ([level] + b)[1..] == b;
  }

  // ---------------------------------------------------------------- from items to lines

  function ItemTexts(items: seq<Item>): seq<string> {
    if items == [] then []
    else (if items[0].BlankLine? then [] else [items[0].line]) + ItemTexts(items[1..])
  }

  lemma TextsCons(items: seq<Item>)
    requires items != []
    ensures ItemTexts(items) == (if items[0].BlankLine? then ItemTexts(items[1..]) else [items[0].line] + ItemTexts(items[1..]))
  {
  }

  lemma LevelsPrepend(line: string, texts: seq<string>, indent: nat)
    ensures
      var level := Dedent(indent, line);
      Levels([line] + texts, indent) == [level] + Levels(texts, level + Opening(line))
  {
    assert ([line] + texts)[1..] == texts;
  }

  lemma {:induction false} IndentsAreLevels(items: seq<Item>, indent: nat)
    ensures Indents(items, indent) == Levels(ItemTexts(items), indent)
  {
    if items != [] {
      hide Dedent, Opens, Levels, ItemTexts;
      TextsCons(items);
      if items[0].BlankLine? {
        IndentsAreLevels(items[1..], indent);
      } else {
        IndentsAreLevels(items[1..], IndentAfter(items[0], indent));
        LevelsPrepend(items[0].line, ItemTexts(items[1..]), indent);
      }
    } else {
      assert ItemTexts(items) == [];
    }
  }

  lemma {:induction false} TextsOfSkeleton(lines: seq<string>, inComment: bool, previousBlank: bool)
    ensures ItemTexts(Skeleton(lines, inComment, previousBlank)) == Texts(lines)
    decreases |lines|
  {
    if lines != [] {
      hide Trim, CommentAfter, Continuation;
      var line := Trim(lines[0]);
      var items := Skeleton(lines, inComment, previousBlank);
      if line == "" {
        TextsOfSkeleton(lines[1..], inComment, true);
        if !previousBlank { assert items[1..] == Skeleton(lines[1..], inComment, true); }
      } else {
        TextsOfSkeleton(lines[1..], CommentAfter(inComment, line), false);
        assert items[1..] == Skeleton(lines[1..], CommentAfter(inComment, line), false);
      }
    }
  }

  lemma {:induction false} TextsOfCanonical(items: seq<Item>)
    ensures ItemTexts(CanonicalItems(items)) == RereadAll(ItemTexts(items))
  {
    if items != [] {
      hide Trim, Canonical;
      TextsOfCanonical(items[1..]);
      assert CanonicalItems(items)[1..] == CanonicalItems(items[1..]);
      if items[0].TextItem? { assert ItemTexts(items)[1..] == ItemTexts(items[1..]); }
      else { assert ItemTexts(items) == ItemTexts(items[1..]); }
    }
  }

  lemma {:induction false} TextsOk(lines: seq<string>)
    requires forall i :: 0 <= i < |lines| ==> '\n' !in lines[i]
    ensures forall i :: 0 <= i < |Texts(lines)| ==> LineOk(Texts(lines)[i])
    decreases |lines|
  {
    if lines != [] {
      TextsOk(lines[1..]);
      var a, b := TrimParts(lines[0]);
      hide Trim, Trimmed;
      assert forall c :: c in Trim(lines[0]) ==> c in a + Trim(lines[0]) + b;
    }
  }

  /** The indentation of the skeleton is stable exactly when the lines are steady. */
  lemma SkeletonSteady(lines: seq<string>)
    requires forall i :: 0 <= i < |lines| ==> '\n' !in lines[i]
    ensures
      var items := Skeleton(lines, false, false);
      Indents(items, 0) == Indents(CanonicalItems(items), 0) <==> Steady(Texts(lines), 0)
  {
    hide *;
    var items := Skeleton(lines, false, false);
    IndentsAreLevels(items, 0);
    IndentsAreLevels(CanonicalItems(items), 0);
    TextsOfSkeleton(lines, false, false);
    TextsOfCanonical(items);
    TextsOk(lines);
    LevelsExact(Texts(lines), 0);
  }
}
