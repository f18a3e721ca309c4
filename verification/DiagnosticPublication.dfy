/** What normalisation keeps of a diagnostic, and exactly which candidates are published, both
    stated in the fields of the diagnostics. */
module DiagnosticPublication {
  import opened Bytes
  import opened Diagnostics
  import opened DiagnosticTheorems
  import opened DiagnosticIdentity

  // ---------------------------------------------------------------- messages

  /** The maximal runs of characters that are not whitespace, `current` being read already. */
  function Words(s: string, current: string): seq<string> {
    if s == "" then (if current == "" then [] else [current])
    else if IsSpace(s[0]) then (if current == "" then [] else [current]) + Words(s[1..], "")
    else Words(s[1..], current + [s[0]])
  }

  lemma {:induction false} WordsOfCollapse(s: string, afterBlank: bool, current: string)
    requires afterBlank ==> current == ""
    ensures Words(Collapse(s, afterBlank), current) == Words(s, current)
  {
    if s != "" {
      var rest := Collapse(s[1..], IsSpace(s[0]));
      if !IsSpace(s[0]) {
        assert ([s[0]] + rest)[1..] == rest;
        WordsOfCollapse(s[1..], false, current + [s[0]]);
      } else {
        WordsOfCollapse(s[1..], true, "");
        assert ([' '] + rest)[1..] == rest;
      }
    }
  }

  lemma {:induction false} WordsBeforeBlank(s: string, current: string)
    ensures Words(s + " ", current) == Words(s, current)
  {
    if s == "" {
      assert s + " " == " " && " "[1..] == "";
      assert Words("", "") == [];
    } else {
      assert (s + " ")[1..] == s[1..] + " ";
      WordsBeforeBlank(s[1..], if IsSpace(s[0]) then "" else current + [s[0]]);
    }
  }

  lemma {:induction false} WordsOfDropBlanks(s: string)
    ensures Words(DropBlanks(s), "") == Words(s, "")
  {
    if s != "" && s[|s| - 1] == ' ' {
      var init := s[..|s| - 1];
      assert s == init + " ";
      WordsOfDropBlanks(init);
      WordsBeforeBlank(init, "");
    }
  }

  /** A normalised message has the same words, single blanks between them, none at the end, and
      one in front exactly when there was whitespace in front. */
  lemma MessageKeepsWords(s: string)
    ensures Words(NormalizedMessage(s), "") == Words(s, "") && NormalMessage(NormalizedMessage(s))
    ensures NormalizedMessage(s) != "" ==> s != "" && (NormalizedMessage(s)[0] == ' ' <==> IsSpace(s[0]))
  {
    hide Words, NormalMessage;
    WordsOfCollapse(s, false, "");
    WordsOfDropBlanks(Collapse(s, false));
    CollapseSingle(s, false);
    DropBlanksNormal(Collapse(s, false));
    DropBlanksHead(Collapse(s, false));
  }

  lemma {:induction false} DropBlanksHead(s: string)
    ensures DropBlanks(s) != "" ==> s != "" && DropBlanks(s)[0] == s[0]
  {
    if s != "" && s[|s| - 1] == ' ' { DropBlanksHead(s[..|s| - 1]); }
  }

  // ---------------------------------------------------------------- lists

  /** Empty notes are left out, all others are kept in order. */
  lemma {:induction false} NotesKept(a: seq<string>, b: seq<string>)
    ensures NonEmpty(a + b) == NonEmpty(a) + NonEmpty(b)
    ensures forall x :: x != "" ==> NonEmpty([x]) == [x]
    ensures NonEmpty([""]) == [] && NonEmpty([]) == []
  {
    forall x: string | x != "" ensures NonEmpty([x]) == [x] { assert [x][1..] == []; }
    assert [""][1..] == [];
    if a == [] { assert a + b == b; }
    else {
      assert (a + b)[1..] == a[1..] + b;
      NotesKept(a[1..], b);
    }
  }

  /** Each run of entries of the same place and message is represented by its first: `run` says
      which of the kept entries stands for which given one. */
  ghost predicate Runs(rs: seq<Related>, kept: seq<Related>, run: seq<nat>) {
    |run| == |rs| && Represents(rs, kept, run) && Spans(rs, kept, run) && Stepwise(rs, kept, run)
  }

  ghost predicate Spans(rs: seq<Related>, kept: seq<Related>, run: seq<nat>)
    requires |run| == |rs|
  {
    && (rs == [] ==> kept == [])
    && (rs != [] ==> kept != [] && run[0] == 0 && run[|rs| - 1] == |kept| - 1 && kept[0] == rs[0])
  }

  ghost predicate Stepwise(rs: seq<Related>, kept: seq<Related>, run: seq<nat>)
    requires |run| == |rs|
  {
    forall i :: 0 <= i < |rs| - 1 ==> Follows(rs, kept, run, i)
  }

  ghost predicate Represents(rs: seq<Related>, kept: seq<Related>, run: seq<nat>)
    requires |run| == |rs|
  {
    forall i :: 0 <= i < |rs| ==> run[i] < |kept| && SameRelated(kept[run[i]], rs[i])
  }

  ghost predicate Follows(rs: seq<Related>, kept: seq<Related>, run: seq<nat>, i: nat)
    requires |run| == |rs| && i < |rs| - 1
  {
    run[i + 1] == run[i] || (run[i + 1] == run[i] + 1 && run[i + 1] < |kept| && kept[run[i + 1]] == rs[i + 1])
  }

  lemma RepresentsSame(first: Related, second: Related, tail: seq<Related>, kept: seq<Related>, run: seq<nat>)
    requires SameRelated(first, second) && |run| == |tail| + 1 && Represents([first] + tail, kept, run)
    requires kept != [] && kept[0] == first
    ensures Represents([first, second] + tail, kept, [0, 0] + run[1..])
  {
    hide SameRelated;
    SameRelatedReflexive(first);
    var shorter, rs, more := [first] + tail, [first, second] + tail, [0, 0] + run[1..];
    forall i | 0 <= i < |rs| ensures more[i] < |kept| && SameRelated(kept[more[i]], rs[i]) {
      if i > 1 { assert shorter[i - 1] == rs[i] && more[i] == run[i - 1]; }
    }
  }

  lemma SpansSame(first: Related, second: Related, tail: seq<Related>, kept: seq<Related>, run: seq<nat>)
    requires |run| == |tail| + 1 && Spans([first] + tail, kept, run)
    ensures Spans([first, second] + tail, kept, [0, 0] + run[1..])
    ensures kept != [] && kept[0] == first
  {
    if tail == [] { assert [0, 0] + run[1..] == [0, 0]; }
    else { assert ([0, 0] + run[1..])[|tail| + 1] == run[|tail|]; }
  }

  lemma StepwiseSame(first: Related, second: Related, tail: seq<Related>, kept: seq<Related>, run: seq<nat>)
    requires |run| == |tail| + 1 && run[0] == 0 && Stepwise([first] + tail, kept, run)
    ensures Stepwise([first, second] + tail, kept, [0, 0] + run[1..])
  {
    hide Follows;
    var shorter, rs, more := [first] + tail, [first, second] + tail, [0, 0] + run[1..];
    forall i | 0 <= i < |rs| - 1 ensures Follows(rs, kept, more, i) {
      if i > 0 { FollowsShift(shorter, run, i - 1, rs, more, i, kept); }
      else { FollowsAtOnce(rs, kept, more); }
    }
  }

  lemma RunsSame(first: Related, second: Related, tail: seq<Related>, kept: seq<Related>, run: seq<nat>)
    requires SameRelated(first, second) && Runs([first] + tail, kept, run)
    ensures Runs([first, second] + tail, kept, [0, 0] + run[1..])
  {
    hide SameRelated, Represents, Spans, Stepwise;
    SpansStart([first] + tail, kept, run);
    SpansSame(first, second, tail, kept, run);
    StepwiseSame(first, second, tail, kept, run);
    RepresentsSame(first, second, tail, kept, run);
  }

  lemma SpansStart(rs: seq<Related>, kept: seq<Related>, run: seq<nat>)
    requires |run| == |rs| > 0 && Spans(rs, kept, run)
    ensures run[0] == 0
  {
  }

  lemma FollowsShift(rs: seq<Related>, run: seq<nat>, i: nat, more: seq<Related>, again: seq<nat>, k: nat, kept: seq<Related>)
    requires |run| == |rs| && i < |rs| - 1 && |again| == |more| && k < |more| - 1 && Follows(rs, kept, run, i)
    requires run[i] == again[k] && run[i + 1] == again[k + 1] && rs[i + 1] == more[k + 1]
    ensures Follows(more, kept, again, k)
  {
  }

  lemma FollowsAtOnce(rs: seq<Related>, kept: seq<Related>, run: seq<nat>)
    requires |run| == |rs| > 1 && run[0] == run[1]
    ensures Follows(rs, kept, run, 0)
  {
  }

  lemma RunsDifferent(rs: seq<Related>, kept: seq<Related>, run: seq<nat>)
    requires |rs| > 1 && Runs(rs[1..], kept, run)
    ensures Runs(rs, [rs[0]] + kept, [0] + seq(|run|, i requires 0 <= i < |run| => run[i] + 1))
  {
    hide SameRelated;
    SameRelatedReflexive(rs[0]);
    var rest, all := rs[1..], [rs[0]] + kept;
    var more := [0] + seq(|run|, i requires 0 <= i < |run| => run[i] + 1);
    forall i | 0 <= i < |rs| ensures more[i] < |all| && SameRelated(all[more[i]], rs[i]) {
      if i > 0 { assert SameRelated(kept[run[i - 1]], rest[i - 1]); }
    }
    forall i | 0 <= i < |rs| - 1 ensures Follows(rs, all, more, i) {
      if i > 0 { assert Follows(rest, kept, run, i - 1); }
    }
  }

  lemma RunsShort(rs: seq<Related>)
    requires |rs| <= 1
    ensures Unique(rs) == rs && Runs(rs, rs, if rs == [] then [] else [0])
  {
    hide SameRelated;
    if rs != [] { SameRelatedReflexive(rs[0]); }
  }

  lemma TakeTwo(rs: seq<Related>)
    requires |rs| > 1
    ensures rs == [rs[0], rs[1]] + rs[2..]
  {
  }

  lemma {:induction false} RelatedRuns(rs: seq<Related>) returns (run: seq<nat>)
    ensures Runs(rs, Unique(rs), run)
    decreases |rs|
  {
    hide Runs, SameRelated, Unique;
    if |rs| <= 1 {
      RunsShort(rs);
      run := if rs == [] then [] else [0];
    } else if SameRelated(rs[0], rs[1]) {
      var r := RelatedRuns([rs[0]] + rs[2..]);
      UniqueSame(rs);
      RunsLength([rs[0]] + rs[2..], Unique(rs), r);
      RunsSame(rs[0], rs[1], rs[2..], Unique(rs), r);
      TakeTwo(rs);
      run := [0, 0] + r[1..];
    } else {
      var r := RelatedRuns(rs[1..]);
      UniqueDifferent(rs);
      RunsDifferent(rs, Unique(rs[1..]), r);
      run := [0] + seq(|r|, i requires 0 <= i < |r| => r[i] + 1);
    }
  }

  lemma RunsLength(rs: seq<Related>, kept: seq<Related>, run: seq<nat>)
    requires Runs(rs, kept, run)
    ensures |run| == |rs|
  {
  }

  lemma SameRelatedReflexive(r: Related)
    ensures SameRelated(r, r)
  {
  }

  lemma UniqueSame(rs: seq<Related>)
    requires |rs| > 1 && SameRelated(rs[0], rs[1])
    ensures Unique(rs) == Unique([rs[0]] + rs[2..])
  {
  }

  lemma UniqueDifferent(rs: seq<Related>)
    requires |rs| > 1 && !SameRelated(rs[0], rs[1])
    ensures Unique(rs) == [rs[0]] + Unique(rs[1..])
  {
  }

  // ---------------------------------------------------------------- what normalisation keeps

  /** Field by field: gaps are filled, everything else stays. */
  lemma NormalizationKeeps(catalog: Catalog, d: Diagnostic)
    ensures
      var n := Normalized(catalog, d);
      && n.severity == d.severity && n.treatedAsError == d.treatedAsError && n.tags == d.tags && n.helpId == d.helpId
      && n.code == (if d.code == "" then "ILIC-COMPILER-INTERNAL" else d.code)
      && n.source == (if d.source == "" then "compiler" else d.source)
      && n.message == (if Words(d.message, "") == [] then DEFAULT_MESSAGE else NormalizedMessage(d.message))
      && n.range.uri == d.range.uri && n.range.start == d.range.start
      && (n.range.valid <==> d.range.valid && d.range.uri != "")
      && n.range.end == (if n.range.valid && d.range.end.byteOffset < d.range.start.byteOffset then d.range.start else d.range.end)
      && n.phase == (if d.phase == Unknown && n.code in catalog then catalog[n.code] else d.phase)
      && n.notes == NonEmpty(d.notes) && n.related == Unique(d.related)
      && n.fingerprint == (if d.fingerprint == "" then Identity(n) else d.fingerprint)
  {
    EmptyMessage(d.message);
    IdentityIgnoresFingerprint(NormalizedFields(catalog, d), Identity(NormalizedFields(catalog, d)));
    hide Identity, Words, NormalizedMessage, Unique, NonEmpty;
  }

  lemma IdentityIgnoresFingerprint(d: Diagnostic, fingerprint: string)
    ensures Identity(d.(fingerprint := fingerprint)) == Identity(d)
  {
  }

  lemma EmptyMessage(s: string)
    ensures NormalizedMessage(s) == "" <==> Words(s, "") == []
  {
    MessageKeepsWords(s);
    var m := NormalizedMessage(s);
    hide NormalizedMessage;
    if m != "" {
      if IsSpace(m[0]) {
        assert m[0] == ' ' && |m| > 1 && m[1] != ' ' && !IsSpace(m[1]);
        WordsNotEmpty(m[2..], [m[1]]);
        assert m[1..][1..] == m[2..] && "" + [m[1]] == [m[1]];
        assert Words(m[1..], "") == Words(m[2..], [m[1]]);
      } else {
        WordsNotEmpty(m[1..], [m[0]]);
        assert "" + [m[0]] == [m[0]];
      }
    }
  }

  lemma {:induction false} WordsNotEmpty(s: string, current: string)
    requires current != ""
    ensures Words(s, current) != []
  {
    if s != "" && !IsSpace(s[0]) { WordsNotEmpty(s[1..], current + [s[0]]); }
  }

  lemma {:induction false} UniqueMembers(rs: seq<Related>)
    ensures forall r :: r in Unique(rs) ==> r in rs
    decreases |rs|
  {
    hide SameRelated;
    if |rs| > 1 {
      if SameRelated(rs[0], rs[1]) { UniqueMembers([rs[0]] + rs[2..]); }
      else { UniqueMembers(rs[1..]); }
    }
  }

  lemma {:induction false} NonEmptyMembers(notes: seq<string>)
    ensures forall n :: n in NonEmpty(notes) ==> n in notes
  {
    if notes != [] { NonEmptyMembers(notes[1..]); }
  }

  /** A normalised diagnostic is as readable as the given one. */
  lemma ReadableNormalized(catalog: Catalog, d: Diagnostic)
    requires Readable(d)
    ensures Readable(Normalized(catalog, d))
  {
    MessageFree(d.message, US);
    UniqueMembers(d.related);
    NonEmptyMembers(d.notes);
    DefaultsReadable();
    hide Identity, NormalizedMessage, Unique, NonEmpty, ReadableRelated, FreeOf;
    var n := Normalized(catalog, d);
    forall i | 0 <= i < |n.related| ensures ReadableRelated(n.related[i]) {
      assert n.related[i] in d.related;
    }
    forall i | 0 <= i < |n.notes| ensures FreeOf(n.notes[i], {GS}) {
      assert n.notes[i] in d.notes;
    }
  }

  lemma DefaultsReadable()
    ensures US !in DEFAULT_CODE && US !in "compiler" && US !in DEFAULT_MESSAGE
  {
  }

  // ---------------------------------------------------------------- which candidates are published

  /** The first candidate that reports what it reports. */
  ghost predicate First(all: seq<Candidate>, i: nat)
    requires i < |all|
  {
    forall j :: 0 <= j < i ==> !SameReport(all[j].diagnostic, all[i].diagnostic)
  }

  /** A cascade whose cause is among the first candidates and is no cascade itself. */
  ghost predicate HasRoot(all: seq<Candidate>, c: Candidate) {
    c.publicationClass == Cascaded &&
    exists r :: 0 <= r < |all| && First(all, r) && all[r].publicationClass != Cascaded && all[r].cause != 0 && all[r].cause in c.dependsOn
  }

  ghost predicate AllReadable(cs: seq<Candidate>) {
    forall i :: 0 <= i < |cs| ==> Readable(cs[i].diagnostic)
  }

  lemma {:induction false} DedupIsFirst(cs: seq<Candidate>, seen: set<string>, c: Candidate) returns (i: nat)
    requires c in Dedup(cs, seen)
    ensures i < |cs| && cs[i] == c && Identity(c.diagnostic) !in seen
    ensures forall j :: 0 <= j < i ==> Identity(cs[j].diagnostic) != Identity(c.diagnostic)
    decreases |cs|
  {
    hide Identity, Dedup;
    if cs == [] { DedupNothing(seen); }
    DedupStep(cs, seen);
    var id, rest := Identity(cs[0].diagnostic), cs[1..];
    if id in seen {
      var k := DedupIsFirst(rest, seen, c);
      i := k + 1;
      assert forall j :: 0 < j < i ==> cs[j] == rest[j - 1];
    } else if c == cs[0] {
      i := 0;
    } else {
      var k := DedupIsFirst(rest, seen + {id}, c);
      i := k + 1;
      assert forall j :: 0 < j < i ==> cs[j] == rest[j - 1];
    }
  }

  /** Deduplication keeps exactly the first candidate of each report. */
  lemma KeptExactly(all: seq<Candidate>, c: Candidate)
    requires AllReadable(all)
    ensures c in Dedup(all, {}) <==> exists i :: 0 <= i < |all| && all[i] == c && First(all, i)
  {
    hide Identity, Dedup, SameReport, Readable;
    if c in Dedup(all, {}) {
      var i := DedupIsFirst(all, {}, c);
      forall j | 0 <= j < i ensures !SameReport(all[j].diagnostic, all[i].diagnostic) {
        IdentityExact(all[j].diagnostic, all[i].diagnostic);
      }
    }
    if i :| 0 <= i < |all| && all[i] == c && First(all, i) {
      forall j | 0 <= j < i ensures Identity(all[j].diagnostic) != Identity(all[i].diagnostic) {
        IdentityExact(all[j].diagnostic, all[i].diagnostic);
      }
      DedupKeepsFirst(all, {}, i);
    }
  }

  lemma SuppressedExactly(all: seq<Candidate>, c: Candidate)
    requires AllReadable(all)
    ensures Suppressed(c, Causes(Dedup(all, {}))) <==> HasRoot(all, c)
  {
    var kept := Dedup(all, {});
    hide Dedup, AllReadable, First;
    if Suppressed(c, Causes(kept)) {
      var k :| 0 <= k < |c.dependsOn| && c.dependsOn[k] in Causes(kept);
      var n :| 0 <= n < |kept| && IsCause(kept[n]) && kept[n].cause == c.dependsOn[k];
      KeptExactly(all, kept[n]);
    }
    if HasRoot(all, c) {
      var r :| 0 <= r < |all| && First(all, r) && all[r].publicationClass != Cascaded && all[r].cause != 0 && all[r].cause in c.dependsOn;
      KeptExactly(all, all[r]);
      var n :| 0 <= n < |kept| && kept[n] == all[r];
      assert IsCause(kept[n]) && kept[n].cause in Causes(kept);
      var k :| 0 <= k < |c.dependsOn| && c.dependsOn[k] == all[r].cause;
    }
  }

  /** A candidate is published exactly when it is the first of its report and no cascade of a
      first candidate that is none. */
  lemma PublishedExactly(catalog: Catalog, cs: seq<Candidate>, c: Candidate)
    requires AllReadable(cs)
    ensures
      var all := NormalizedAll(catalog, cs);
      c in PublishedCandidates(catalog, cs) <==>
        (exists i :: 0 <= i < |all| && all[i] == c && First(all, i)) && !HasRoot(all, c)
  {
    var all := NormalizedAll(catalog, cs);
    AllReadableNormalized(catalog, cs);
    hide *;
    DeduplicatedIs(catalog, cs);
    PublishedMembers(catalog, cs);
    KeptExactly(all, c);
    SuppressedExactly(all, c);
  }

  lemma DeduplicatedIs(catalog: Catalog, cs: seq<Candidate>)
    ensures Deduplicated(catalog, cs) == Dedup(NormalizedAll(catalog, cs), {})
  {
  }

  lemma AllReadableNormalized(catalog: Catalog, cs: seq<Candidate>)
    requires AllReadable(cs)
    ensures AllReadable(NormalizedAll(catalog, cs))
  {
    hide Readable, Normalized;
    forall i | 0 <= i < |cs| ensures Readable(NormalizedAll(catalog, cs)[i].diagnostic) {
      ReadableNormalized(catalog, cs[i].diagnostic);
    }
  }

  /** No two published diagnostics report the same, whatever their fields hold. */
  lemma PublishedReportsDiffer(catalog: Catalog, cs: seq<Candidate>)
    ensures forall i, j :: 0 <= i < j < |Published(catalog, cs)| ==> !SameReport(Published(catalog, cs)[i], Published(catalog, cs)[j])
  {
    hide Identity, SameReport, Published;
    var vs := Published(catalog, cs);
    PublishedIsCanonical(catalog, cs);
    forall i, j | 0 <= i < j < |vs| ensures !SameReport(vs[i], vs[j]) {
      if SameReport(vs[i], vs[j]) { SameReportSameIdentity(vs[i], vs[j]); }
    }
  }

  // ---------------------------------------------------------------- the order of what is published

  /** Errors come before warnings, these before information and hints; the phases follow the
      compiler. */
  lemma RankTable()
    ensures SeverityRank(Error) < SeverityRank(Warning) < SeverityRank(Information) < SeverityRank(Hint)
    ensures PhaseRank(Unknown) < PhaseRank(Lexical) < PhaseRank(Syntax) < PhaseRank(EditorRecovery) < PhaseRank(ModelDiscovery)
    ensures PhaseRank(ModelDiscovery) < PhaseRank(Resolution) < PhaseRank(Semantic) < PhaseRank(Translation) < PhaseRank(Repository)
    ensures PhaseRank(Repository) < PhaseRank(Formatting) < PhaseRank(Request) < PhaseRank(Internal)
  {
  }

  /** At one place errors are published first. */
  lemma ErrorsFirst(catalog: Catalog, cs: seq<Candidate>, i: nat, j: nat)
    requires i < |Published(catalog, cs)| && j < |Published(catalog, cs)|
    requires
      var vs := Published(catalog, cs);
      SameRange(vs[i].range, vs[j].range) && vs[i].severity == Error && vs[j].severity != Error
    ensures i < j
  {
    var vs := Published(catalog, cs);
    PublishedIsCanonical(catalog, cs);
    hide Published;
    if j < i {
      assert !KeyLess(DiagnosticKey(vs[i]), DiagnosticKey(vs[j]));
      ErrorKeyFirst(vs[i], vs[j]);
    }
  }

  lemma ErrorKeyFirst(a: Diagnostic, b: Diagnostic)
    requires SameRange(a.range, b.range) && a.severity == Error && b.severity != Error
    ensures KeyLess(DiagnosticKey(a), DiagnosticKey(b))
  {
    RankTable();
    var k, l := DiagnosticKey(a), DiagnosticKey(b);
    assert k[0] == l[0] && k[1] == l[1] && k[2] == l[2] && k[3] == l[3] && k[4] != l[4] && AtomLess(k[4], l[4]);
    hide DiagnosticKey, AtomLess, KeyLess;
    KeyStep(k, l);
    KeyStep(k[1..], l[1..]);
    KeyStep(k[1..][1..], l[1..][1..]);
    KeyStep(k[1..][1..][1..], l[1..][1..][1..]);
    KeyStep(k[1..][1..][1..][1..], l[1..][1..][1..][1..]);
  }

  lemma KeyStep(k: seq<Atom>, l: seq<Atom>)
    requires k != [] && l != []
    ensures KeyLess(k, l) == if k[0] != l[0] then AtomLess(k[0], l[0]) else KeyLess(k[1..], l[1..])
  {
  }

  // ---------------------------------------------------------------- the counts

  predicate HasBadRange(d: Diagnostic) {
    d.range.valid && (d.range.uri == "" || d.range.end.byteOffset < d.range.start.byteOffset)
  }

  predicate HasUnknownCode(catalog: Catalog, d: Diagnostic) {
    d.code == "" || d.code !in catalog
  }

  ghost function WithBadRange(cs: seq<Candidate>): set<nat> {
    set i: nat | i < |cs| && HasBadRange(cs[i].diagnostic)
  }

  ghost function WithUnknownCode(catalog: Catalog, cs: seq<Candidate>): set<nat> {
    set i: nat | i < |cs| && HasUnknownCode(catalog, cs[i].diagnostic)
  }

  lemma BadRangeSnoc(cs: seq<Candidate>, c: Candidate)
    ensures |WithBadRange(cs + [c])| == |WithBadRange(cs)| + (if HasBadRange(c.diagnostic) then 1 else 0)
  {
    hide HasBadRange;
    if HasBadRange(c.diagnostic) { assert WithBadRange(cs + [c]) == WithBadRange(cs) + {|cs|}; }
    else { assert WithBadRange(cs + [c]) == WithBadRange(cs); }
  }

  lemma UnknownCodeSnoc(catalog: Catalog, cs: seq<Candidate>, c: Candidate)
    ensures |WithUnknownCode(catalog, cs + [c])| == |WithUnknownCode(catalog, cs)| + (if HasUnknownCode(catalog, c.diagnostic) then 1 else 0)
  {
    hide HasUnknownCode;
    if HasUnknownCode(catalog, c.diagnostic) { assert WithUnknownCode(catalog, cs + [c]) == WithUnknownCode(catalog, cs) + {|cs|}; }
    else { assert WithUnknownCode(catalog, cs + [c]) == WithUnknownCode(catalog, cs); }
  }

  lemma NothingCounted(catalog: Catalog)
    ensures WithBadRange([]) == {} && WithUnknownCode(catalog, []) == {}
  {
  }

  /** The statistics count the candidates with such a range or code. */
  lemma {:induction false} CountsExactly(catalog: Catalog, cs: seq<Candidate>)
    ensures BadRanges(cs) == |WithBadRange(cs)| && UnknownCodes(catalog, cs) == |WithUnknownCode(catalog, cs)|
    decreases |cs|
  {
    hide WithBadRange, WithUnknownCode;
    NothingCounted(catalog);
    if cs != [] {
      var init, c := cs[..|cs| - 1], cs[|cs| - 1];
      CountsExactly(catalog, init);
      BadRangeSnoc(init, c);
      UnknownCodeSnoc(catalog, init, c);
      assert cs == init + [c];
    }
  }
}
