/** The nesting of blocks in a source, defined by counting lines that begin and end blocks, and
    the proof that the formatter's running indent is its depth. */
module FormatterNesting {
  import opened Bytes
  import opened Formatter
  import opened FormatterLines
  import opened FormatterIdempotence
  import opened FormatterIndents

  // ---------------------------------------------------------------- lines that begin and end blocks

  const WORDS: set<string> := {
    "MODEL", "TYPE MODEL", "REFSYSTEM MODEL", "SYMBOLOGY MODEL", "TOPIC", "VIEW TOPIC",
    "CLASS", "STRUCTURE", "ASSOCIATION", "VIEW", "GRAPHIC", "CONSTRAINTS OF"}

  predicate LetterOrDigit(c: char) {
    '0' <= c <= '9' || 'A' <= c <= 'Z' || 'a' <= c <= 'z'
  }

  /** The word begins the line and is not continued. */
  predicate Leads(line: string, word: string) {
    && |word| <= |line| && (forall k :: 0 <= k < |word| ==> line[k] == word[k])
    && (|line| == |word| || !LetterOrDigit(line[|word|]))
  }

  /** The word stands at i with a blank on either side. */
  predicate StandsAt(line: string, word: string, i: nat) {
    && 0 < i && i + |word| < |line| && line[i - 1] == ' ' && line[i + |word|] == ' '
    && (forall k :: 0 <= k < |word| ==> line[i + k] == word[k])
  }

  ghost predicate Names(line: string, word: string) {
    Leads(line, word) || exists i: nat :: StandsAt(line, word, i)
  }

  /** A line that begins a block: it ends in '(', or it names a block and ends in '=', or it is
      the head of a view without '=' that goes on. */
  ghost predicate BeginsBlock(line: string) {
    line != "" &&
    (var last := line[|line| - 1];
     || last == '('
     || ((exists word :: word in WORDS && Names(line, word))
         && (last == '=' || (Leads(line, "VIEW") && last != ';' && '=' !in line))))
  }

  /** A line that ends one: its first word is END, or it starts with ')'. */
  predicate EndsBlock(line: string) {
    line != "" && (line[0] == ')' || Leads(line, "END"))
  }

  lemma LeadsIsStartsWord(line: string, word: string)
    ensures Leads(line, word) <==> StartsWord(line, word)
  {
    if word <= line { assert forall k :: 0 <= k < |word| ==> line[k] == word[k]; }
    if |word| <= |line| && forall k :: 0 <= k < |word| ==> line[k] == word[k] { assert line[..|word|] == word; }
  }

  lemma EndsIsCloses(line: string)
    ensures line != "" ==> (EndsBlock(line) <==> Closes(line))
  {
    LeadsIsStartsWord(line, "END");
    hide Leads, StartsWord;
    if line != "" { assert ")" <= line <==> line[0] == ')'; }
  }

  lemma StandsIsOccurs(line: string, word: string, i: nat)
    ensures StandsAt(line, word, i + 1) <==> OccursAt(line, " " + word + " ", i)
  {
    var n := " " + word + " ";
    assert |n| == |word| + 2 && n[0] == ' ' && n[|word| + 1] == ' ';
    assert forall k :: 0 <= k < |word| ==> n[k + 1] == word[k];
    if i + |n| <= |line| {
      var t := line[i..i + |n|];
      assert forall k :: 0 <= k < |n| ==> t[k] == line[i + k];
      if StandsAt(line, word, i + 1) {
        forall k | 0 <= k < |n| ensures t[k] == n[k] {
          if 0 < k <= |word| { assert line[i + 1 + (k - 1)] == word[k - 1]; }
        }
        assert t == n;
      }
      if t == n {
        assert line[i] == n[0] && line[i + |word| + 1] == n[|word| + 1];
        forall k | 0 <= k < |word| ensures line[i + 1 + k] == word[k] { assert t[k + 1] == n[k + 1]; }
      }
    }
  }

  lemma NamesIsDeclared(line: string, word: string)
    ensures Names(line, word) <==> StartsWord(line, word) || Contains(line, " " + word + " ")
  {
    LeadsIsStartsWord(line, word);
    hide Leads, StartsWord, StandsAt, OccursAt;
    if exists i: nat :: StandsAt(line, word, i) {
      var i: nat :| StandsAt(line, word, i);
      StandsPositive(line, word, i);
      StandsIsOccurs(line, word, i - 1);
    }
    if Contains(line, " " + word + " ") {
      var i :| 0 <= i <= |line| && OccursAt(line, " " + word + " ", i);
      StandsIsOccurs(line, word, i);
    }
  }

  lemma StandsPositive(line: string, word: string, i: nat)
    requires StandsAt(line, word, i)
    ensures 0 < i <= |line|
  {
  }

  lemma WordsAreListed(word: string)
    ensures word in WORDS <==> exists i :: 0 <= i < |BLOCK_WORDS| && BLOCK_WORDS[i] == word
  {
    assert word in WORDS <==> word in BLOCK_WORDS;
  }

  lemma NamesIsDeclares(line: string)
    ensures (exists word :: word in WORDS && Names(line, word)) <==> Declares(line)
  {
    hide WORDS, BLOCK_WORDS, Names, StartsWord, Contains;
    if word :| word in WORDS && Names(line, word) {
      WordsAreListed(word);
      NamesIsDeclared(line, word);
    }
    if Declares(line) {
      var i :| 0 <= i < |BLOCK_WORDS| && (StartsWord(line, BLOCK_WORDS[i]) || Contains(line, " " + BLOCK_WORDS[i] + " "));
      WordsAreListed(BLOCK_WORDS[i]);
      NamesIsDeclared(line, BLOCK_WORDS[i]);
    }
  }

  lemma BeginsIsOpens(line: string)
    ensures line != "" ==> (BeginsBlock(line) <==> Opens(line))
  {
    hide WORDS, BLOCK_WORDS, Names, Declares, Leads, StartsWord;
    NamesIsDeclares(line);
    LeadsIsStartsWord(line, "VIEW");
  }

  // ---------------------------------------------------------------- nesting

  /** How many of the lines from a up to b begin a block. */
  ghost function Begins(texts: seq<string>, a: nat, b: nat): nat
    requires b <= |texts|
    decreases b
  {
    if b <= a then 0 else Begins(texts, a, b - 1) + (if BeginsBlock(texts[b - 1]) then 1 else 0)
  }

  /** How many end one. */
  ghost function Ending(texts: seq<string>, a: nat, b: nat): nat
    requires b <= |texts|
    decreases b
  {
    if b <= a then 0 else Ending(texts, a, b - 1) + (if EndsBlock(texts[b - 1]) then 1 else 0)
  }

  /** The block that line i begins is still open behind the end of a block on line k: since then
      no more blocks have ended than begun. */
  ghost predicate OpenThrough(texts: seq<string>, i: nat, k: nat)
    requires k < |texts|
  {
    Ending(texts, i + 1, k + 1) <= Begins(texts, i + 1, k)
  }

  /** Line j lies inside the block that line i begins. */
  ghost predicate Encloses(texts: seq<string>, i: nat, j: nat)
    requires j < |texts|
  {
    i < j && BeginsBlock(texts[i]) && forall k :: i < k <= j ==> OpenThrough(texts, i, k)
  }

  ghost function Enclosing(texts: seq<string>, j: nat): set<nat>
    requires j < |texts|
  {
    set i: nat | i < j && Encloses(texts, i, j)
  }

  /** The number of blocks around line j. */
  ghost function Depth(texts: seq<string>, j: nat): nat
    requires j < |texts|
  {
    |Enclosing(texts, j)|
  }

  // ---------------------------------------------------------------- the stack of open blocks

  /** The lines whose blocks are open after the first n lines. */
  ghost function Stack(texts: seq<string>, n: nat): seq<nat>
    requires n <= |texts|
    decreases n, 1
  {
    if n == 0 then [] else Around(texts, n - 1) + (if BeginsBlock(texts[n - 1]) then [n - 1] else [])
  }

  /** Those around line n. */
  ghost function Around(texts: seq<string>, n: nat): seq<nat>
    requires n < |texts|
    decreases n, 2
  {
    var s := Stack(texts, n);
    if EndsBlock(texts[n]) && s != [] then s[..|s| - 1] else s
  }

  ghost predicate Ascending(s: seq<nat>, n: nat) {
    (forall p, q :: 0 <= p < q < |s| ==> s[p] < s[q]) && (forall p :: 0 <= p < |s| ==> s[p] < n)
  }

  /** Behind an open block as many more blocks have begun than ended as are open inside it. */
  ghost predicate Balanced(texts: seq<string>, s: seq<nat>, n: nat)
    requires n <= |texts|
  {
    forall p :: 0 <= p < |s| ==> Begins(texts, s[p] + 1, n) - Ending(texts, s[p] + 1, n) == |s| - 1 - p
  }

  /** Line i begins a block that is open before line n. */
  ghost predicate IsOpen(texts: seq<string>, i: nat, n: nat)
    requires n <= |texts|
  {
    i < n && BeginsBlock(texts[i]) && forall k :: i < k < n ==> OpenThrough(texts, i, k)
  }

  ghost predicate Exact(texts: seq<string>, s: seq<nat>, n: nat)
    requires n <= |texts|
  {
    forall i: nat :: i in s <==> IsOpen(texts, i, n)
  }

  lemma AscendingHas(s: seq<nat>, i: nat) returns (p: nat)
    requires i in s
    ensures p < |s| && s[p] == i
  {
    p :| 0 <= p < |s| && s[p] == i;
  }

  /** From before line n to inside it: an ending line closes the innermost block. */
  lemma AroundExact(texts: seq<string>, n: nat)
    requires n < |texts|
    requires var s := Stack(texts, n); Ascending(s, n) && Balanced(texts, s, n) && Exact(texts, s, n)
    ensures forall i: nat :: i in Around(texts, n) <==> Encloses(texts, i, n)
    ensures Ascending(Around(texts, n), n)
  {
    var s, t := Stack(texts, n), Around(texts, n);
    hide Stack, BeginsBlock, EndsBlock;
    forall i: nat ensures i in t <==> Encloses(texts, i, n) {
      assert IsOpen(texts, i, n) <==> i in s;
      assert Encloses(texts, i, n) <==> IsOpen(texts, i, n) && OpenThrough(texts, i, n);
      if i in s {
        var p := AscendingHas(s, i);
        assert Begins(texts, s[p] + 1, n) - Ending(texts, s[p] + 1, n) == |s| - 1 - p;
        assert OpenThrough(texts, i, n) <==> !EndsBlock(texts[n]) || p < |s| - 1;
        if p < |s| - 1 { assert s[..|s| - 1][p] == i; }
        else { assert forall q :: 0 <= q < |s| - 1 ==> s[q] < s[p]; }
      }
    }
  }

  lemma {:induction false} StackExact(texts: seq<string>, n: nat)
    requires n <= |texts|
    ensures var s := Stack(texts, n); Ascending(s, n) && Balanced(texts, s, n) && Exact(texts, s, n)
    decreases n
  {
    if n > 0 {
      StackExact(texts, n - 1);
      AroundExact(texts, n - 1);
      StackBalanced(texts, n - 1);
      StackOpen(texts, n - 1);
    }
  }

  lemma StackBalanced(texts: seq<string>, n: nat)
    requires n < |texts|
    requires var s := Stack(texts, n); Ascending(s, n) && Balanced(texts, s, n)
    ensures Ascending(Stack(texts, n + 1), n + 1) && Balanced(texts, Stack(texts, n + 1), n + 1)
  {
    var s, t, u := Stack(texts, n), Around(texts, n), Stack(texts, n + 1);
    assert u == t + (if BeginsBlock(texts[n]) then [n] else []);
    hide Stack, BeginsBlock, EndsBlock;
    forall p | 0 <= p < |u| ensures Begins(texts, u[p] + 1, n + 1) - Ending(texts, u[p] + 1, n + 1) == |u| - 1 - p {
      if p < |t| {
        assert u[p] == s[p];
        assert Begins(texts, s[p] + 1, n) - Ending(texts, s[p] + 1, n) == |s| - 1 - p;
      }
    }
  }

  lemma StackOpen(texts: seq<string>, n: nat)
    requires n < |texts|
    requires forall i: nat :: i in Around(texts, n) <==> Encloses(texts, i, n)
    ensures Exact(texts, Stack(texts, n + 1), n + 1)
  {
    var t, u := Around(texts, n), Stack(texts, n + 1);
    assert u == t + (if BeginsBlock(texts[n]) then [n] else []);
    hide Stack, Around, BeginsBlock, EndsBlock, OpenThrough;
    forall i: nat ensures i in u <==> IsOpen(texts, i, n + 1) {
      assert i < n ==> (IsOpen(texts, i, n + 1) <==> Encloses(texts, i, n));
    }
  }

  lemma {:induction false} AscendingSize(s: seq<nat>, n: nat, m: set<nat>)
    requires Ascending(s, n) && forall i: nat :: i in s <==> i in m
    ensures |s| == |m|
    decreases |s|
  {
    if s == [] {
      assert forall i: nat :: i in m ==> i in s;
      assert m == {};
    } else {
      var k := |s| - 1;
      forall i: nat ensures i in s[..k] <==> i in m - {s[k]} {
        if i in s[..k] { var p := AscendingHas(s[..k], i); }
        if i in s && i != s[k] { var p := AscendingHas(s, i); assert s[..k][p] == i; }
      }
      AscendingSize(s[..k], n, m - {s[k]});
    }
  }

  /** The blocks around a line are those on the stack. */
  lemma AroundIsEnclosing(texts: seq<string>, n: nat)
    requires n < |texts|
    ensures |Around(texts, n)| == Depth(texts, n)
    ensures forall i: nat :: i in Around(texts, n) <==> Encloses(texts, i, n)
  {
    hide Stack, Around, Encloses;
    StackExact(texts, n);
    AroundExact(texts, n);
    EnclosingMembers(texts, n);
    AscendingSize(Around(texts, n), n, Enclosing(texts, n));
  }

  lemma EnclosingMembers(texts: seq<string>, n: nat)
    requires n < |texts|
    ensures forall i: nat :: i in Enclosing(texts, n) <==> Encloses(texts, i, n)
  {
  }

  // ---------------------------------------------------------------- levels are depths

  ghost predicate AllText(texts: seq<string>) {
    forall i :: 0 <= i < |texts| ==> texts[i] != ""
  }

  /** The running indent before line n is the number of open blocks. */
  lemma {:induction false} LevelsFrom(texts: seq<string>, n: nat, j: nat)
    requires AllText(texts) && n <= j < |texts|
    ensures Levels(texts[n..], |Stack(texts, n)|)[j - n] == |Around(texts, j)|
    decreases j - n
  {
    hide Opens, Closes, BeginsBlock, EndsBlock, Levels;
    var line, rest := texts[n], texts[n..];
    assert rest[0] == line && rest[1..] == texts[n + 1..];
    LevelsCons(rest, |Stack(texts, n)|);
    EndsIsCloses(line);
    BeginsIsOpens(line);
    assert Dedent(|Stack(texts, n)|, line) == |Around(texts, n)|;
    assert |Stack(texts, n + 1)| == |Around(texts, n)| + Opening(line);
    if n < j { LevelsFrom(texts, n + 1, j); }
  }

  lemma NothingOpen(texts: seq<string>)
    ensures Stack(texts, 0) == []
  {
  }

  /** A line is written at the level of its depth. */
  lemma LevelIsDepth(texts: seq<string>, j: nat)
    requires AllText(texts) && j < |texts|
    ensures Levels(texts, 0)[j] == Depth(texts, j)
  {
    hide *;
    NothingOpen(texts);
    assert texts[0..] == texts;
    LevelsFrom(texts, 0, j);
    AroundIsEnclosing(texts, j);
  }

  // ---------------------------------------------------------------- matching lines

  /** Line k ends the block that line i begins. */
  ghost predicate Matches(texts: seq<string>, i: nat, k: nat)
    requires k < |texts|
  {
    i < k && BeginsBlock(texts[i]) && (forall j :: i < j < k ==> OpenThrough(texts, i, j)) && !OpenThrough(texts, i, k)
  }

  lemma AscendingPrefix(s: seq<nat>, n: nat, p: seq<nat>, i: nat)
    requires Ascending(s, n) && p != [] && p[|p| - 1] == i && p <= s
    ensures s != [] && i in s
    ensures i in s[..|s| - 1] ==> p <= s[..|s| - 1]
    ensures s[|s| - 1] == i ==> s == p
  {
    assert s[|p| - 1] == i;
    var t := s[..|s| - 1];
    if i in t {
      var q := AscendingHas(t, i);
      assert s[q] == i;
      assert q == |p| - 1;
      assert t[..|p|] == p;
    }
    if s[|s| - 1] == i { assert |s| == |p|; }
  }

  /** As long as the block of line i is open, what was open at its beginning stays below it. */
  lemma {:induction false} StackPrefix(texts: seq<string>, i: nat, n: nat)
    requires i < n <= |texts| && i in Stack(texts, n)
    ensures Around(texts, i) + [i] <= Stack(texts, n)
    decreases n
  {
    hide OpenThrough, Balanced, BeginsBlock, EndsBlock;
    StackExact(texts, n);
    assert IsOpen(texts, i, n);
    if n > i + 1 {
      var m := n - 1;
      StackExact(texts, m);
      assert IsOpen(texts, i, m);
      StackPrefix(texts, i, m);
      assert Stack(texts, n) == Around(texts, m) + (if BeginsBlock(texts[m]) then [m] else []);
      assert i in Around(texts, m);
      AscendingPrefix(Stack(texts, m), m, Around(texts, i) + [i], i);
    }
  }

  lemma AroundPrefix(texts: seq<string>, i: nat, j: nat)
    requires i < j < |texts| && Encloses(texts, i, j)
    ensures Around(texts, i) + [i] <= Around(texts, j)
  {
    StackExact(texts, j);
    AroundIsEnclosing(texts, j);
    hide OpenThrough, Balanced, BeginsBlock, EndsBlock;
    assert IsOpen(texts, i, j);
    StackPrefix(texts, i, j);
    AscendingPrefix(Stack(texts, j), j, Around(texts, i) + [i], i);
  }

  /** The lines inside a block lie deeper than its first line, and exactly one level deeper when
      no other block begun in it lies around them. */
  lemma InsideDeeper(texts: seq<string>, i: nat, j: nat)
    requires i < j < |texts| && Encloses(texts, i, j)
    ensures Depth(texts, j) >= Depth(texts, i) + 1
    ensures (forall a: nat :: i < a < j ==> !Encloses(texts, a, j)) ==> Depth(texts, j) == Depth(texts, i) + 1
  {
    AroundPrefix(texts, i, j);
    AroundIsEnclosing(texts, i);
    AroundIsEnclosing(texts, j);
    StackExact(texts, j);
    AroundExact(texts, j);
    hide Depth, Encloses, Around, Stack, Balanced;
    var p, s := Around(texts, i) + [i], Around(texts, j);
    if |s| > |p| {
      assert s[|p| - 1] == p[|p| - 1] == i;
      assert s[|p|] in s && i < s[|p|] < j && Encloses(texts, s[|p|], j);
    }
  }

  /** The line that ends a block lies as deep as the line that begins it. */
  lemma MatchingLevel(texts: seq<string>, i: nat, k: nat)
    requires k < |texts| && Matches(texts, i, k)
    ensures EndsBlock(texts[k]) && Depth(texts, k) == Depth(texts, i)
  {
    StackExact(texts, k);
    AroundIsEnclosing(texts, i);
    AroundIsEnclosing(texts, k);
    hide Depth, BeginsBlock, EndsBlock;
    var s := Stack(texts, k);
    assert IsOpen(texts, i, k);
    StackPrefix(texts, i, k);
    var p := AscendingHas(s, i);
    assert Begins(texts, s[p] + 1, k) - Ending(texts, s[p] + 1, k) == |s| - 1 - p;
    assert Ending(texts, i + 1, k + 1) == Ending(texts, i + 1, k) + (if EndsBlock(texts[k]) then 1 else 0);
    assert EndsBlock(texts[k]) && p == |s| - 1;
    AscendingPrefix(s, k, Around(texts, i) + [i], i);
  }
}
