/** Published diagnostics are in canonical form, and no candidate is lost unaccounted. */
module DiagnosticTheorems {
  import opened Diagnostics
  import Lex
  import opened Bytes

  // ---------------------------------------------------------------- messages

  /** Single blanks only, none at the end. */
  predicate NormalMessage(s: string) {
    && (forall i :: 0 <= i < |s| ==> IsSpace(s[i]) ==> s[i] == ' ')
    && (forall i :: 0 <= i < |s| - 1 ==> !(s[i] == ' ' && s[i + 1] == ' '))
    && (s == "" || s[|s| - 1] != ' ')
  }

  /** Single blanks only, possibly one at the end. */
  predicate SingleBlanks(s: string, afterBlank: bool) {
    && (forall i :: 0 <= i < |s| ==> IsSpace(s[i]) ==> s[i] == ' ')
    && (forall i :: 0 <= i < |s| - 1 ==> !(s[i] == ' ' && s[i + 1] == ' '))
    && (afterBlank && s != "" ==> s[0] != ' ')
  }

  lemma {:induction false} CollapseSingle(s: string, afterBlank: bool)
    ensures SingleBlanks(Collapse(s, afterBlank), afterBlank)
  {
    if s != "" {
      CollapseSingle(s[1..], IsSpace(s[0]));
      var rest := Collapse(s[1..], IsSpace(s[0]));
      var r := Collapse(s, afterBlank);
      if !(IsSpace(s[0]) && afterBlank) {
        assert forall i :: 0 < i < |r| ==> r[i] == rest[i - 1];
      }
    }
  }

  lemma {:induction false} DropBlanksNormal(s: string)
    requires SingleBlanks(s, false)
    ensures NormalMessage(DropBlanks(s))
  {
    if s != "" && s[|s| - 1] == ' ' { DropBlanksNormal(s[..|s| - 1]); }
  }

  lemma {:induction false} CollapseFixed(s: string, afterBlank: bool)
    requires SingleBlanks(s, afterBlank)
    ensures Collapse(s, afterBlank) == s
  {
    if s != "" {
      assert |s| >= 2 ==> !(s[0] == ' ' && s[0 + 1] == ' ');
      CollapseFixed(s[1..], IsSpace(s[0]));
      assert s == [s[0]] + s[1..];
    }
  }

  /** Message normalisation is idempotent. */
  lemma NormalizedMessageFixed(s: string)
    ensures NormalizedMessage(NormalizedMessage(s)) == NormalizedMessage(s)
  {
    CollapseSingle(s, false);
    DropBlanksNormal(Collapse(s, false));
    CollapseFixed(NormalizedMessage(s), false);
  }

  lemma SingleBlanksConcat(a: string, b: string)
    requires SingleBlanks(a, false) && a != "" && a[|a| - 1] != ' ' && SingleBlanks(b, false)
    ensures SingleBlanks(a + b, false)
  {
  }

  lemma DefaultMessageFixed()
    ensures NormalizedMessage(DEFAULT_MESSAGE) == DEFAULT_MESSAGE
  {
    var a, b, c, d, e, f := "The", " compiler", " reported", " an", " unspecified", " diagnostic.";
    SingleBlanksConcat(e, f);
    SingleBlanksConcat(d, e + f);
    SingleBlanksConcat(c, d + (e + f));
    SingleBlanksConcat(b, c + (d + (e + f)));
    SingleBlanksConcat(a, b + (c + (d + (e + f))));
    CollapseFixed(DEFAULT_MESSAGE, false);
  }

  // ---------------------------------------------------------------- normalisation

  ghost predicate NoAdjacent(rs: seq<Related>) {
    forall i :: 0 <= i < |rs| - 1 ==> !SameRelated(rs[i], rs[i + 1])
  }

  lemma {:induction false} UniqueNoAdjacent(rs: seq<Related>)
    ensures NoAdjacent(Unique(rs))
    ensures rs != [] ==> Unique(rs) != [] && Unique(rs)[0] == rs[0]
    decreases |rs|
  {
    hide RangeKey;
    if |rs| > 1 {
      if SameRelated(rs[0], rs[1]) {
        UniqueNoAdjacent([rs[0]] + rs[2..]);
      } else {
        UniqueNoAdjacent(rs[1..]);
        var r, rest := Unique(rs), Unique(rs[1..]);
        forall i | 0 <= i < |r| - 1 ensures !SameRelated(r[i], r[i + 1]) {
          if i > 0 { assert r[i] == rest[i - 1] && r[i + 1] == rest[i]; }
        }
      }
    }
  }

  lemma {:induction false} UniqueFixed(rs: seq<Related>)
    requires NoAdjacent(rs)
    ensures Unique(rs) == rs
    decreases |rs|
  {
    if |rs| > 1 {
      assert !SameRelated(rs[0], rs[0 + 1]);
      UniqueFixed(rs[1..]);
      assert rs == [rs[0]] + rs[1..];
    }
  }

  lemma {:induction false} NonEmptyFixed(notes: seq<string>)
    ensures NonEmpty(NonEmpty(notes)) == NonEmpty(notes)
  {
    if notes != [] {
      NonEmptyFixed(notes[1..]);
      if notes[0] != "" { assert NonEmpty(notes)[1..] == NonEmpty(notes[1..]); }
      else { assert NonEmpty(notes) == NonEmpty(notes[1..]); }
    }
  }

  lemma IdentityNotEmpty(d: Diagnostic)
    ensures Identity(d) != ""
  {
  }

  /** Normalising a normalised diagnostic changes nothing. */
  lemma NormalizedFixed(catalog: Catalog, d: Diagnostic)
    ensures Normalized(catalog, Normalized(catalog, d)) == Normalized(catalog, d)
  {
    hide Identity, NormalizedMessage, Unique, NonEmpty;
    NormalizedMessageFixed(d.message);
    DefaultMessageFixed();
    UniqueNoAdjacent(d.related);
    UniqueFixed(Unique(d.related));
    NonEmptyFixed(d.notes);
    IdentityNotEmpty(NormalizedFields(catalog, d));
  }

  // ---------------------------------------------------------------- deduplication

  ghost predicate DistinctIds(cs: seq<Candidate>) {
    forall i, j :: 0 <= i < j < |cs| ==> Identity(cs[i].diagnostic) != Identity(cs[j].diagnostic)
  }

  ghost predicate FreshIds(cs: seq<Candidate>, seen: set<string>) {
    forall i :: 0 <= i < |cs| ==> Identity(cs[i].diagnostic) !in seen
  }

  lemma {:induction false} DedupDistinct(cs: seq<Candidate>, seen: set<string>)
    ensures DistinctIds(Dedup(cs, seen)) && FreshIds(Dedup(cs, seen), seen)
    ensures forall c :: c in Dedup(cs, seen) ==> c in cs
    decreases |cs|
  {
    hide Identity;
    if cs != [] {
      var id := Identity(cs[0].diagnostic);
      if id in seen {
        DedupDistinct(cs[1..], seen);
      } else {
        DedupDistinct(cs[1..], seen + {id});
        var r, rest := Dedup(cs, seen), Dedup(cs[1..], seen + {id});
        assert forall i :: 0 < i < |r| ==> r[i] == rest[i - 1];
      }
    }
  }

  lemma {:induction false} DedupFixed(cs: seq<Candidate>, seen: set<string>)
    requires DistinctIds(cs) && FreshIds(cs, seen)
    ensures Dedup(cs, seen) == cs
    decreases |cs|
  {
    hide Identity;
    if cs != [] {
      var id := Identity(cs[0].diagnostic);
      assert forall i :: 0 <= i < |cs[1..]| ==> cs[1..][i] == cs[i + 1];
      DedupFixed(cs[1..], seen + {id});
      assert cs == [cs[0]] + cs[1..];
    }
  }

  /** c has an earlier survivor with its identity. */
  ghost predicate Represented(cs: seq<Candidate>, kept: seq<Candidate>, k: nat)
    requires k < |cs|
  {
    exists i :: 0 <= i <= k && cs[i] in kept && Identity(cs[i].diagnostic) == Identity(cs[k].diagnostic)
  }

  /** Every candidate survives or has an earlier survivor with the same identity. */
  lemma {:induction false} DedupRepresents(cs: seq<Candidate>, seen: set<string>, k: nat)
    requires k < |cs| && Identity(cs[k].diagnostic) !in seen
    ensures Represented(cs, Dedup(cs, seen), k)
    decreases |cs|
  {
    hide Identity;
    var id := Identity(cs[0].diagnostic);
    if id in seen {
      DedupRepresents(cs[1..], seen, k - 1);
      Shifted(cs, Dedup(cs, seen), Dedup(cs[1..], seen), k);
    } else if Identity(cs[k].diagnostic) == id {
      assert cs[0] in Dedup(cs, seen);
    } else {
      DedupRepresents(cs[1..], seen + {id}, k - 1);
      Shifted(cs, Dedup(cs, seen), Dedup(cs[1..], seen + {id}), k);
    }
  }

  lemma Shifted(cs: seq<Candidate>, kept: seq<Candidate>, rest: seq<Candidate>, k: nat)
    requires 0 < k < |cs| && Represented(cs[1..], rest, k - 1)
    requires forall c :: c in rest ==> c in kept
    ensures Represented(cs, kept, k)
  {
    var i :| 0 <= i <= k - 1 && cs[1..][i] in rest && Identity(cs[1..][i].diagnostic) == Identity(cs[1..][k - 1].diagnostic);
    assert cs[i + 1] in kept && Identity(cs[i + 1].diagnostic) == Identity(cs[k].diagnostic);
  }

  // ---------------------------------------------------------------- cascades

  lemma {:induction false} SurvivingMembers(cs: seq<Candidate>, causes: set<nat>)
    ensures forall c :: c in Surviving(cs, causes) <==> c in cs && !Suppressed(c, causes)
    decreases |cs|
  {
    if cs != [] {
      SurvivingMembers(cs[1..], causes);
      assert cs == [cs[0]] + cs[1..];
    }
  }

  lemma {:induction false} SurvivingDistinct(cs: seq<Candidate>, causes: set<nat>)
    requires DistinctIds(cs)
    ensures DistinctIds(Surviving(cs, causes))
    decreases |cs|
  {
    hide Identity;
    if cs != [] {
      assert forall i :: 0 <= i < |cs[1..]| ==> cs[1..][i] == cs[i + 1];
      SurvivingDistinct(cs[1..], causes);
      SurvivingMembers(cs[1..], causes);
      var r, rest := Surviving(cs, causes), Surviving(cs[1..], causes);
      if !Suppressed(cs[0], causes) {
        assert forall i :: 0 < i < |r| ==> r[i] == rest[i - 1];
        forall j | 0 < j < |r| ensures Identity(r[0].diagnostic) != Identity(r[j].diagnostic) {
          assert r[j] in cs[1..];
          var k :| 0 <= k < |cs[1..]| && cs[1..][k] == r[j];
          assert cs[k + 1] == r[j];
        }
      }
    }
  }

  lemma {:induction false} SurvivingAll(cs: seq<Candidate>, causes: set<nat>)
    requires forall i :: 0 <= i < |cs| ==> cs[i].publicationClass == Primary
    ensures Surviving(cs, causes) == cs
    decreases |cs|
  {
    if cs != [] {
      SurvivingAll(cs[1..], causes);
      assert cs == [cs[0]] + cs[1..];
    }
  }

  /** A suppressed cascade depends on the cause of a surviving candidate. */
  lemma SuppressedHasCause(cs: seq<Candidate>, c: Candidate) returns (root: Candidate)
    requires c in cs && c !in Surviving(cs, Causes(cs))
    ensures c.publicationClass == Cascaded
    ensures root in Surviving(cs, Causes(cs)) && root.publicationClass != Cascaded
    ensures root.cause != 0 && root.cause in c.dependsOn
  {
    SurvivingMembers(cs, Causes(cs));
    var k :| 0 <= k < |c.dependsOn| && c.dependsOn[k] in Causes(cs);
    var i :| 0 <= i < |cs| && IsCause(cs[i]) && cs[i].cause == c.dependsOn[k];
    root := cs[i];
  }

  // ---------------------------------------------------------------- order

  /** One component of the sort key. */
  datatype Atom = Text(s: string) | Rank(n: int)

  predicate AtomLess(a: Atom, b: Atom) {
    match (a, b)
    case (Text(x), Text(y)) => Lex.Less(x, y)
    case (Rank(x), Rank(y)) => x < y
    case _ => a.Text? && b.Rank?
  }

  lemma AtomOrder(a: Atom, b: Atom, c: Atom)
    ensures !AtomLess(a, a)
    ensures AtomLess(a, b) && AtomLess(b, c) ==> AtomLess(a, c)
    ensures AtomLess(a, b) || AtomLess(b, a) || a == b
    ensures AtomLess(a, b) ==> !AtomLess(b, a)
  {
    if a.Text? { Lex.Irreflexive(a.s); }
    if a.Text? && b.Text? {
      Lex.Total(a.s, b.s);
      if Lex.Less(a.s, b.s) {
        Lex.Asymmetric(a.s, b.s);
        if c.Text? && Lex.Less(b.s, c.s) { Lex.Transitive(a.s, b.s, c.s); }
      }
    }
  }

  /** Lexicographic order of keys. */
  predicate KeyLess(a: seq<Atom>, b: seq<Atom>) {
    if a == [] || b == [] then false
    else if a[0] != b[0] then AtomLess(a[0], b[0])
    else KeyLess(a[1..], b[1..])
  }

  lemma {:induction false} KeyOrder(a: seq<Atom>, b: seq<Atom>, c: seq<Atom>)
    requires |a| == |b| == |c|
    ensures !KeyLess(a, a)
    ensures KeyLess(a, b) && KeyLess(b, c) ==> KeyLess(a, c)
    ensures KeyLess(a, b) || KeyLess(b, a) || a == b
  {
    hide AtomLess;
    if a != [] {
      AtomOrder(a[0], b[0], c[0]);
      KeyOrder(a[1..], b[1..], c[1..]);
      assert a == [a[0]] + a[1..] && b == [b[0]] + b[1..];
    }
  }

  lemma {:induction false} KeyLessAppend(a: seq<Atom>, x: Atom, b: seq<Atom>, y: Atom)
    requires |a| == |b|
    ensures KeyLess(a, b) ==> KeyLess(a + [x], b + [y])
    ensures KeyLess(a + [x], b + [x]) ==> KeyLess(a, b)
  {
    hide AtomLess;
    if a == [] {
      assert a + [x] == [x] && b + [x] == [x] && [x][1..] == [];
    } else {
      KeyLessAppend(a[1..], x, b[1..], y);
      assert (a + [x])[1..] == a[1..] + [x] && (b + [x])[1..] == b[1..] + [x] && (b + [y])[1..] == b[1..] + [y];
    }
  }

  function UriAtom(range: Range): Atom { Text(if range.valid then range.uri else "") }

  function ValidAtom(range: Range): Atom { Rank(if range.valid then 0 else 1) }

  function StartAtom(range: Range): Atom { Rank(if range.valid then range.start.byteOffset else 0) }

  function EndAtom(range: Range): Atom { Rank(if range.valid then range.end.byteOffset else 0) }

  /** What the comparison looks at, apart from the producer. */
  function DiagnosticKey(d: Diagnostic): (k: seq<Atom>)
    ensures |k| == 8
  {
    [UriAtom(d.range), ValidAtom(d.range), StartAtom(d.range), EndAtom(d.range),
     Rank(SeverityRank(d.severity)), Rank(PhaseRank(d.phase)), Text(d.code), Text(d.message)]
  }

  function Key(c: Candidate): (k: seq<Atom>)
    ensures |k| == 9
  {
    DiagnosticKey(c.diagnostic) + [Text(c.producer)]
  }

  function KeyTail(c: Candidate): (k: seq<Atom>) {
    var d := c.diagnostic;
    [Rank(SeverityRank(d.severity))] + ([Rank(PhaseRank(d.phase))] + ([Text(d.code)] + ([Text(d.message)] + [Text(c.producer)])))
  }

  lemma KeyParts(c: Candidate)
    ensures
      var range := c.diagnostic.range;
      Key(c) == [UriAtom(range)] + ([ValidAtom(range)] + ([StartAtom(range)] + ([EndAtom(range)] + KeyTail(c))))
  {
  }

  lemma RankInjective(a: Diagnostic, b: Diagnostic)
    ensures SeverityRank(a.severity) == SeverityRank(b.severity) <==> a.severity == b.severity
    ensures PhaseRank(a.phase) == PhaseRank(b.phase) <==> a.phase == b.phase
  {
  }

  lemma KeyLessCons(x: Atom, a: seq<Atom>, y: Atom, b: seq<Atom>)
    ensures KeyLess([x] + a, [y] + b) == if x != y then AtomLess(x, y) else KeyLess(a, b)
  {
    assert ([x] + a)[1..] == a && ([y] + b)[1..] == b;
  }

  /** From the severity on, the keys are compared as the candidates are. */
  lemma TailOrder(a: Candidate, b: Candidate)
    ensures KeyLess(KeyTail(a), KeyTail(b)) ==
      if a.diagnostic.severity != b.diagnostic.severity then SeverityRank(a.diagnostic.severity) < SeverityRank(b.diagnostic.severity)
      else if a.diagnostic.phase != b.diagnostic.phase then PhaseRank(a.diagnostic.phase) < PhaseRank(b.diagnostic.phase)
      else if a.diagnostic.code != b.diagnostic.code then Lex.Less(a.diagnostic.code, b.diagnostic.code)
      else if a.diagnostic.message != b.diagnostic.message then Lex.Less(a.diagnostic.message, b.diagnostic.message)
      else Lex.Less(a.producer, b.producer)
  {
    var c, d := a.diagnostic, b.diagnostic;
    RankInjective(c, d);
    Lex.Irreflexive(a.producer);
    hide KeyLess, SeverityRank, PhaseRank, Lex.Less;
    var m, n := [Text(a.producer)], [Text(b.producer)];
    KeyLessCons(Text(a.producer), [], Text(b.producer), []);
    assert m + [] == m && n + [] == n;
    KeyLessNil();
    KeyLessCons(Text(c.message), m, Text(d.message), n);
    m, n := [Text(c.message)] + m, [Text(d.message)] + n;
    KeyLessCons(Text(c.code), m, Text(d.code), n);
    m, n := [Text(c.code)] + m, [Text(d.code)] + n;
    KeyLessCons(Rank(PhaseRank(c.phase)), m, Rank(PhaseRank(d.phase)), n);
    m, n := [Rank(PhaseRank(c.phase))] + m, [Rank(PhaseRank(d.phase))] + n;
    KeyLessCons(Rank(SeverityRank(c.severity)), m, Rank(SeverityRank(d.severity)), n);
  }

  lemma KeyLessNil()
    ensures !KeyLess([], [])
  {
  }

  /** The comparison is the lexicographic order of the keys, hence a strict weak order. */
  lemma BeforeIsKeyOrder(a: Candidate, b: Candidate)
    ensures Before(a, b) == KeyLess(Key(a), Key(b))
  {
    TailOrder(a, b);
    KeyParts(a);
    KeyParts(b);
    hide KeyLess, SeverityRank, PhaseRank, Lex.Less, Key, KeyTail;
    var c, d := a.diagnostic.range, b.diagnostic.range;
    var m, n := KeyTail(a), KeyTail(b);
    KeyLessCons(EndAtom(c), m, EndAtom(d), n);
    m, n := [EndAtom(c)] + m, [EndAtom(d)] + n;
    KeyLessCons(StartAtom(c), m, StartAtom(d), n);
    m, n := [StartAtom(c)] + m, [StartAtom(d)] + n;
    KeyLessCons(ValidAtom(c), m, ValidAtom(d), n);
    m, n := [ValidAtom(c)] + m, [ValidAtom(d)] + n;
    KeyLessCons(UriAtom(c), m, UriAtom(d), n);
  }

  /** Strict weak order: irreflexive, transitive, and incomparability is transitive. */
  lemma BeforeIsStrictWeak(a: Candidate, b: Candidate, c: Candidate)
    ensures !Before(a, a)
    ensures Before(a, b) && Before(b, c) ==> Before(a, c)
    ensures !Before(a, b) && !Before(b, c) ==> !Before(a, c)
  {
    hide Before, Key, KeyLess;
    BeforeIsKeyOrder(a, a);
    BeforeIsKeyOrder(a, b);
    BeforeIsKeyOrder(b, a);
    BeforeIsKeyOrder(b, c);
    BeforeIsKeyOrder(c, b);
    BeforeIsKeyOrder(a, c);
    KeyOrder(Key(a), Key(b), Key(c));
    KeyOrder(Key(b), Key(c), Key(a));
    KeyOrder(Key(c), Key(b), Key(a));
    KeyOrder(Key(a), Key(c), Key(b));
    KeyOrder(Key(b), Key(a), Key(c));
  }

  // ---------------------------------------------------------------- sorting

  ghost predicate Sorted(cs: seq<Candidate>) {
    forall i, j :: 0 <= i < j < |cs| ==> !Before(cs[j], cs[i])
  }

  /** The candidates of one sort key, in order. */
  ghost function WithKey(cs: seq<Candidate>, key: seq<Atom>): seq<Candidate> {
    if cs == [] then []
    else WithKey(cs[..|cs| - 1], key) + (if Key(cs[|cs| - 1]) == key then [cs[|cs| - 1]] else [])
  }

  lemma {:induction false} InsertSorted(c: Candidate, cs: seq<Candidate>)
    requires Sorted(cs)
    ensures Sorted(Insert(c, cs))
    ensures forall x :: x in Insert(c, cs) <==> x in cs || x == c
    decreases |cs|
  {
    hide Before;
    var r := Insert(c, cs);
    if cs != [] {
      var n := |cs| - 1;
      var last, init := cs[n], cs[..n];
      assert cs == init + [last];
      if Before(c, last) {
        InsertSorted(c, init);
        forall i | 0 <= i < n + 1 ensures !Before(last, r[i]) {
          assert r[i] == Insert(c, init)[i];
          BeforeIsStrictWeak(last, c, last);
          if r[i] in init {
            var k :| 0 <= k < n && init[k] == r[i];
            assert cs[k] == r[i];
          }
        }
      } else {
        forall i | 0 <= i < |cs| ensures !Before(c, cs[i]) {
          BeforeIsStrictWeak(c, last, cs[i]);
        }
      }
    }
  }

  lemma {:induction false} InsertKeepsKeys(c: Candidate, cs: seq<Candidate>, key: seq<Atom>)
    ensures WithKey(Insert(c, cs), key) == WithKey(cs, key) + (if Key(c) == key then [c] else [])
    decreases |cs|
  {
    hide Before, Key;
    var r := Insert(c, cs);
    if cs != [] && Before(c, cs[|cs| - 1]) {
      var n := |cs| - 1;
      InsertKeepsKeys(c, cs[..n], key);
      assert r[..n + 1] == Insert(c, cs[..n]);
      BeforeIsKeyOrder(c, cs[n]);
      KeyOrder(Key(c), Key(c), Key(c));
    } else {
      assert r[..|cs|] == cs;
    }
  }

  /** Sorting yields a sorted sequence and keeps the order of candidates with equal keys. */
  lemma {:induction false} StableSortCorrect(cs: seq<Candidate>, key: seq<Atom>)
    ensures Sorted(StableSort(cs))
    ensures WithKey(StableSort(cs), key) == WithKey(cs, key)
    ensures forall x :: x in StableSort(cs) <==> x in cs
    decreases |cs|
  {
    hide Before, Key;
    if cs != [] {
      var n := |cs| - 1;
      StableSortCorrect(cs[..n], key);
      InsertSorted(cs[n], StableSort(cs[..n]));
      InsertKeepsKeys(cs[n], StableSort(cs[..n]), key);
      assert cs == cs[..n] + [cs[n]];
    }
  }

  lemma {:induction false} SortFixed(cs: seq<Candidate>)
    requires Sorted(cs)
    ensures StableSort(cs) == cs
    decreases |cs|
  {
    hide Before;
    if cs != [] {
      var n := |cs| - 1;
      SortFixed(cs[..n]);
      assert cs == cs[..n] + [cs[n]];
    }
  }

  // ---------------------------------------------------------------- publishing

  lemma SortStep(cs: seq<Candidate>)
    requires cs != []
    ensures StableSort(cs) == Insert(cs[|cs| - 1], StableSort(cs[..|cs| - 1]))
  {
  }

  lemma DistinctInit(cs: seq<Candidate>)
    requires DistinctIds(cs) && cs != []
    ensures DistinctIds(cs[..|cs| - 1])
    ensures forall x :: x in cs[..|cs| - 1] ==> Identity(x.diagnostic) != Identity(cs[|cs| - 1].diagnostic)
  {
    hide Identity;
    var init := cs[..|cs| - 1];
    forall x | x in init ensures Identity(x.diagnostic) != Identity(cs[|cs| - 1].diagnostic) {
      var k :| 0 <= k < |init| && init[k] == x;
      assert cs[k] == x;
    }
  }

  lemma {:induction false} SortKeepsDistinct(cs: seq<Candidate>)
    requires DistinctIds(cs)
    ensures DistinctIds(StableSort(cs))
    decreases |cs|
  {
    if cs == [] { return; }
    hide *;
    var init, last := cs[..|cs| - 1], cs[|cs| - 1];
    DistinctInit(cs);
    SortKeepsDistinct(init);
    StableSortCorrect(init, []);
    InsertKeepsDistinct(last, StableSort(init));
    SortStep(cs);
  }

  lemma {:induction false} InsertKeepsDistinct(c: Candidate, cs: seq<Candidate>)
    requires DistinctIds(cs) && forall x :: x in cs ==> Identity(x.diagnostic) != Identity(c.diagnostic)
    ensures DistinctIds(Insert(c, cs))
    ensures forall x :: x in Insert(c, cs) ==> x in cs || x == c
    decreases |cs|
  {
    hide Identity, Before;
    if cs != [] && Before(c, cs[|cs| - 1]) {
      var n := |cs| - 1;
      var init, last := cs[..n], cs[n];
      assert cs == init + [last];
      InsertKeepsDistinct(c, init);
      var r, q := Insert(c, cs), Insert(c, init);
      forall i | 0 <= i < n + 1 ensures Identity(r[i].diagnostic) != Identity(last.diagnostic) {
        assert r[i] == q[i] && q[i] in q;
        if q[i] in init {
          var k :| 0 <= k < n && init[k] == q[i];
          assert cs[k] == q[i];
        }
      }
      assert forall i :: 0 <= i < n + 1 ==> r[i] == q[i];
    }
  }

  /** Values in publication order: no later one has to precede an earlier one. */
  ghost predicate SortedValues(values: seq<Diagnostic>) {
    forall i, j :: 0 <= i < j < |values| ==> !KeyLess(DiagnosticKey(values[j]), DiagnosticKey(values[i]))
  }

  ghost predicate DistinctValues(values: seq<Diagnostic>) {
    forall i, j :: 0 <= i < j < |values| ==> Identity(values[i]) != Identity(values[j])
  }

  ghost predicate NormalValues(catalog: Catalog, values: seq<Diagnostic>) {
    forall i :: 0 <= i < |values| ==> Normalized(catalog, values[i]) == values[i]
  }

  lemma SortedDropsProducer(cs: seq<Candidate>)
    requires Sorted(cs)
    ensures SortedValues(Values(cs))
  {
    hide Before, KeyLess, DiagnosticKey;
    var vs := Values(cs);
    forall i, j | 0 <= i < j < |vs| ensures !KeyLess(DiagnosticKey(vs[j]), DiagnosticKey(vs[i])) {
      BeforeIsKeyOrder(cs[j], cs[i]);
      KeyLessAppend(DiagnosticKey(vs[j]), Text(cs[j].producer), DiagnosticKey(vs[i]), Text(cs[i].producer));
    }
  }

  /** Everything published is normalised, sorted, and of pairwise different identity. */
  lemma PublishedIsCanonical(catalog: Catalog, cs: seq<Candidate>)
    ensures SortedValues(Published(catalog, cs))
    ensures DistinctValues(Published(catalog, cs))
    ensures NormalValues(catalog, Published(catalog, cs))
  {
    hide Identity, Before, Normalized, Dedup, Surviving, StableSort, Causes;
    var normalized, dedup := NormalizedAll(catalog, cs), Deduplicated(catalog, cs);
    var surviving, published := Uncascaded(catalog, cs), PublishedCandidates(catalog, cs);
    DedupDistinct(normalized, {});
    SurvivingDistinct(dedup, Causes(dedup));
    SurvivingMembers(dedup, Causes(dedup));
    StableSortCorrect(surviving, []);
    SortKeepsDistinct(surviving);
    SortedDropsProducer(published);
    forall i | 0 <= i < |published| ensures Normalized(catalog, published[i].diagnostic) == published[i].diagnostic {
      assert published[i] in normalized;
      var k :| 0 <= k < |normalized| && normalized[k] == published[i];
      NormalizedFixed(catalog, cs[k].diagnostic);
    }
  }

  /** Values as fresh primary candidates of one producer. */
  function Fresh(values: seq<Diagnostic>, producer: string): (r: seq<Candidate>)
    ensures |r| == |values| && forall i :: 0 <= i < |r| ==> r[i] == Candidate(values[i], 0, [], Primary, producer)
  {
    seq(|values|, i requires 0 <= i < |values| => Candidate(values[i], 0, [], Primary, producer))
  }

  lemma FreshSorted(values: seq<Diagnostic>, producer: string)
    requires SortedValues(values)
    ensures Sorted(Fresh(values, producer))
  {
    hide Before, KeyLess, DiagnosticKey;
    var cs := Fresh(values, producer);
    forall i, j | 0 <= i < j < |cs| ensures !Before(cs[j], cs[i]) {
      BeforeIsKeyOrder(cs[j], cs[i]);
      KeyLessAppend(DiagnosticKey(values[j]), Text(producer), DiagnosticKey(values[i]), Text(producer));
    }
  }

  /** Publishing is a canonical form: republishing what was published returns it unchanged. */
  lemma RepublishIsIdentity(catalog: Catalog, cs: seq<Candidate>, producer: string)
    ensures Published(catalog, Fresh(Published(catalog, cs), producer)) == Published(catalog, cs)
  {
    hide Identity, Before, Normalized, Dedup, Surviving, StableSort, Causes;
    var values := Published(catalog, cs);
    var again := Fresh(values, producer);
    PublishedIsCanonical(catalog, cs);
    assert NormalizedAll(catalog, again) == again;
    DedupFixed(again, {});
    SurvivingAll(again, Causes(again));
    FreshSorted(values, producer);
    SortFixed(again);
    assert Values(again) == values;
  }

  /** Every candidate is published, or has an earlier survivor of deduplication with its
      identity, or is a cascade of something published. */
  lemma NothingLost(catalog: Catalog, cs: seq<Candidate>, k: nat)
    requires k < |cs|
    ensures
      var c := NormalizedAll(catalog, cs)[k];
      || c in PublishedCandidates(catalog, cs)
      || (c in Deduplicated(catalog, cs) && c.publicationClass == Cascaded
          && exists root :: root in PublishedCandidates(catalog, cs) && root.publicationClass != Cascaded
               && root.cause != 0 && root.cause in c.dependsOn)
      || (exists i :: 0 <= i < k && NormalizedAll(catalog, cs)[i] in Deduplicated(catalog, cs)
            && Identity(NormalizedAll(catalog, cs)[i].diagnostic) == Identity(c.diagnostic))
  {
    hide Identity, Before, Normalized, Dedup, Surviving, StableSort, Causes;
    var normalized, dedup := NormalizedAll(catalog, cs), Deduplicated(catalog, cs);
    var c := normalized[k];
    DedupRepresents(normalized, {}, k);
    StableSortCorrect(Uncascaded(catalog, cs), []);
    if c in dedup && c !in PublishedCandidates(catalog, cs) {
      var root := SuppressedHasCause(dedup, c);
      assert root in PublishedCandidates(catalog, cs);
    }
  }

  // ---------------------------------------------------------------- which identities are published

  /** The first candidate of its identity is the one that deduplication keeps. */
  lemma {:induction false} DedupKeepsFirst(cs: seq<Candidate>, seen: set<string>, i: nat)
    requires i < |cs| && Identity(cs[i].diagnostic) !in seen
    requires forall j :: 0 <= j < i ==> Identity(cs[j].diagnostic) != Identity(cs[i].diagnostic)
    ensures cs[i] in Dedup(cs, seen)
    decreases |cs|
  {
    hide Identity, Dedup;
    DedupStep(cs, seen);
    if i > 0 {
      var id, rest := Identity(cs[0].diagnostic), cs[1..];
      assert rest[i - 1] == cs[i];
      forall j | 0 <= j < i - 1 ensures Identity(rest[j].diagnostic) != Identity(cs[i].diagnostic) {
        assert rest[j] == cs[j + 1];
      }
      DedupKeepsFirst(rest, if id in seen then seen else seen + {id}, i - 1);
    }
  }

  ghost predicate IdentityPublished(catalog: Catalog, cs: seq<Candidate>, id: string) {
    exists v :: v in Published(catalog, cs) && Identity(v) == id
  }

  lemma PublishedMembers(catalog: Catalog, cs: seq<Candidate>)
    ensures forall c :: c in PublishedCandidates(catalog, cs) <==>
      c in Deduplicated(catalog, cs) && !Suppressed(c, Causes(Deduplicated(catalog, cs)))
  {
    hide Identity, Before, Normalized, Dedup, Surviving, StableSort, Causes, Suppressed;
    var dedup := Deduplicated(catalog, cs);
    StableSortCorrect(Uncascaded(catalog, cs), []);
    SurvivingMembers(dedup, Causes(dedup));
  }

  /** The identity of a candidate is published exactly when the first candidate of that
      identity is not a suppressed cascade. */
  lemma FirstDecides(catalog: Catalog, cs: seq<Candidate>, i: nat)
    requires i < |cs|
    requires
      var all := NormalizedAll(catalog, cs);
      forall j :: 0 <= j < i ==> Identity(all[j].diagnostic) != Identity(all[i].diagnostic)
    ensures
      var first := NormalizedAll(catalog, cs)[i];
      IdentityPublished(catalog, cs, Identity(first.diagnostic)) <==> !Suppressed(first, Causes(Deduplicated(catalog, cs)))
  {
    hide Identity, Normalized, Dedup, PublishedCandidates, Causes, Suppressed;
    var all, dedup := NormalizedAll(catalog, cs), Deduplicated(catalog, cs);
    var first, published := all[i], PublishedCandidates(catalog, cs);
    DedupKeepsFirst(all, {}, i);
    DedupDistinct(all, {});
    PublishedMembers(catalog, cs);
    if !Suppressed(first, Causes(dedup)) {
      var n :| 0 <= n < |published| && published[n] == first;
      assert Published(catalog, cs)[n] == first.diagnostic;
    }
    if IdentityPublished(catalog, cs, Identity(first.diagnostic)) {
      var v :| v in Published(catalog, cs) && Identity(v) == Identity(first.diagnostic);
      var n :| 0 <= n < |Published(catalog, cs)| && Published(catalog, cs)[n] == v;
      assert published[n] in dedup && published[n].diagnostic == v;
      SameIdentity(dedup, published[n], first);
    }
  }

  lemma SameIdentity(cs: seq<Candidate>, a: Candidate, b: Candidate)
    requires DistinctIds(cs) && a in cs && b in cs && Identity(a.diagnostic) == Identity(b.diagnostic)
    ensures a == b
  {
    hide Identity;
    var i :| 0 <= i < |cs| && cs[i] == a;
    var j :| 0 <= j < |cs| && cs[j] == b;
  }

  /** So a primary diagnostic can vanish: behind an equal cascaded one that is suppressed. */
  lemma PrimaryVanishes(catalog: Catalog, d: Diagnostic, root: Diagnostic, producer: string)
    requires Identity(Normalized(catalog, d)) != Identity(Normalized(catalog, root))
    ensures
      var cs := [Candidate(d, 0, [1], Cascaded, producer), Candidate(d, 0, [], Primary, producer), Candidate(root, 1, [], Primary, producer)];
      !IdentityPublished(catalog, cs, Identity(Normalized(catalog, d)))
  {
    hide Identity, Normalized, Dedup, IdentityPublished;
    var cs := [Candidate(d, 0, [1], Cascaded, producer), Candidate(d, 0, [], Primary, producer), Candidate(root, 1, [], Primary, producer)];
    var all, dedup := NormalizedAll(catalog, cs), Deduplicated(catalog, cs);
    assert all[0].diagnostic == Normalized(catalog, d) && all[1].diagnostic == Normalized(catalog, d);
    DedupKeepsFirst(all, {}, 2);
    var n :| 0 <= n < |dedup| && dedup[n] == all[2];
    assert IsCause(dedup[n]) && dedup[n].cause in Causes(dedup);
    assert all[0].dependsOn[0] in Causes(dedup);
    FirstDecides(catalog, cs, 0);
  }
}
