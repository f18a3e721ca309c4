/** The publication of diagnostics: normalise, remove duplicates, suppress cascades, sort. */
module Diagnostics {
  import opened Decimal
  import Lex
  import opened Bytes

  datatype Severity = Error | Warning | Information | Hint

  datatype Phase = Unknown | Lexical | Syntax | EditorRecovery | ModelDiscovery | Resolution
                 | Semantic | Translation | Repository | Formatting | Request | Internal

  datatype PublicationClass = Primary | Independent | Cascaded | Recovery

  datatype Position = Position(line: nat, character: nat, byteOffset: nat)

  datatype Range = Range(uri: string, start: Position, end: Position, valid: bool)

  datatype Related = Related(range: Range, message: string)

  datatype Diagnostic = Diagnostic(
    severity: Severity, code: string, message: string, range: Range,
    related: seq<Related>, notes: seq<string>, treatedAsError: bool, source: string,
    phase: Phase, tags: seq<nat>, helpId: string, fingerprint: string)

  datatype Candidate = Candidate(
    diagnostic: Diagnostic, cause: nat, dependsOn: seq<nat>, publicationClass: PublicationClass, producer: string)

  datatype Stats = Stats(
    candidates: nat, published: nat, exactDuplicatesRemoved: nat, cascadesSuppressed: nat,
    invalidRangesNormalized: nat, unknownCodes: nat)

  /** Registered codes and the phase each one belongs to. */
  type Catalog = map<string, Phase>

  function SeverityRank(s: Severity): nat {
    match s case Error => 0 case Warning => 1 case Information => 2 case Hint => 3
  }

  function PhaseRank(p: Phase): nat {
    match p
    case Unknown => 0 case Lexical => 1 case Syntax => 2 case EditorRecovery => 3
    case ModelDiscovery => 4 case Resolution => 5 case Semantic => 6 case Translation => 7
    case Repository => 8 case Formatting => 9 case Request => 10 case Internal => 11
  }

  // ---------------------------------------------------------------- messages

  /** Runs of whitespace become one blank. */
  function Collapse(s: string, afterBlank: bool): string {
    if s == "" then ""
    else if !IsSpace(s[0]) then [s[0]] + Collapse(s[1..], false)
    else if afterBlank then Collapse(s[1..], true)
    else [' '] + Collapse(s[1..], true)
  }

  function DropBlanks(s: string): string {
    if s != "" && s[|s| - 1] == ' ' then DropBlanks(s[..|s| - 1]) else s
  }

  function NormalizedMessage(s: string): string {
    DropBlanks(Collapse(s, false))
  }

  method NormalizeMessage(value: string) returns (result: string)
    ensures result == NormalizedMessage(value)
  {
    result := "";
    var previousSpace := false;
    for i := 0 to |value|
      invariant Collapse(value, false) == result + Collapse(value[i..], previousSpace)
    {
      assert value[i..][1..] == value[i + 1..];
      var character := if IsSpace(value[i]) then ' ' else value[i];
      if character == ' ' {
        if previousSpace { continue; }
        previousSpace := true;
      } else {
        previousSpace := false;
      }
      result := result + [character];
    }
    assert value[|value|..] == "" && result + "" == result;
    while result != "" && result[|result| - 1] == ' '
      invariant NormalizedMessage(value) == DropBlanks(result)
      decreases |result|
    {
      result := result[..|result| - 1];
    }
  }

  // ---------------------------------------------------------------- identity

  function RangeKey(r: Range): string {
    if !r.valid then "invalid"
    else r.uri + ":" + ToText(r.start.byteOffset) + ":" + ToText(r.end.byteOffset)
  }

  function RelatedText(rs: seq<Related>): string {
    if rs == [] then ""
    else "\U{1e}" + RangeKey(rs[0].range) + "\U{1f}" + rs[0].message + RelatedText(rs[1..])
  }

  function NotesText(notes: seq<string>): string {
    if notes == [] then "" else "\U{1d}" + notes[0] + NotesText(notes[1..])
  }

  function Identity(d: Diagnostic): string {
    d.code + "\U{1f}" + ToText(SeverityRank(d.severity)) + "\U{1f}" + d.source + "\U{1f}" + RangeKey(d.range)
    + "\U{1f}" + NormalizedMessage(d.message) + "\U{1f}" + (if d.treatedAsError then "1" else "0")
    + RelatedText(d.related) + NotesText(d.notes)
  }

  // ---------------------------------------------------------------- normalisation

  predicate SameRelated(a: Related, b: Related) {
    a.message == b.message && RangeKey(a.range) == RangeKey(b.range)
  }

  /** `std::unique`: of adjacent equals the first stays. */
  function Unique(rs: seq<Related>): seq<Related>
    decreases |rs|
  {
    if |rs| <= 1 then rs
    else if SameRelated(rs[0], rs[1]) then Unique([rs[0]] + rs[2..])
    else [rs[0]] + Unique(rs[1..])
  }

  function NonEmpty(notes: seq<string>): seq<string> {
    if notes == [] then [] else (if notes[0] == "" then [] else [notes[0]]) + NonEmpty(notes[1..])
  }

  function NormalizedRange(r: Range): Range {
    if r.valid && r.uri == "" then r.(valid := false)
    else if r.valid && r.start.byteOffset > r.end.byteOffset then r.(end := r.start)
    else r
  }

  /** "The compiler reported an unspecified diagnostic." */
  const DEFAULT_MESSAGE := "The" + (" compiler" + (" reported" + (" an" + (" unspecified" + " diagnostic."))))
  const DEFAULT_CODE := "ILIC-COMPILER-INTERNAL"

  /** Everything but the fingerprint. */
  function NormalizedFields(catalog: Catalog, d: Diagnostic): Diagnostic {
    var code := if d.code == "" then DEFAULT_CODE else d.code;
    var message := NormalizedMessage(d.message);
    d.(code := code,
       source := if d.source == "" then "compiler" else d.source,
       message := if message == "" then DEFAULT_MESSAGE else message,
       range := NormalizedRange(d.range),
       phase := if d.phase == Unknown && code in catalog then catalog[code] else d.phase,
       related := Unique(d.related),
       notes := NonEmpty(d.notes))
  }

  function Normalized(catalog: Catalog, d: Diagnostic): Diagnostic {
    var n := NormalizedFields(catalog, d);
    if n.fingerprint == "" then n.(fingerprint := Identity(n)) else n
  }

  function NormalizedAll(catalog: Catalog, cs: seq<Candidate>): (r: seq<Candidate>) {
    seq(|cs|, i requires 0 <= i < |cs| => cs[i].(diagnostic := Normalized(catalog, cs[i].diagnostic)))
  }

  function UnknownCode(catalog: Catalog, d: Diagnostic): nat {
    if d.code == "" || d.code !in catalog then 1 else 0
  }

  function BadRange(d: Diagnostic): nat {
    if d.range.valid && (d.range.uri == "" || d.range.start.byteOffset > d.range.end.byteOffset) then 1 else 0
  }

  function UnknownCodes(catalog: Catalog, cs: seq<Candidate>): nat {
    if cs == [] then 0 else UnknownCodes(catalog, cs[..|cs| - 1]) + UnknownCode(catalog, cs[|cs| - 1].diagnostic)
  }

  function BadRanges(cs: seq<Candidate>): nat {
    if cs == [] then 0 else BadRanges(cs[..|cs| - 1]) + BadRange(cs[|cs| - 1].diagnostic)
  }

  // ---------------------------------------------------------------- duplicates and cascades

  /** First candidate of each identity not seen before. */
  function Dedup(cs: seq<Candidate>, seen: set<string>): (r: seq<Candidate>)
    ensures |r| <= |cs|
  {
    if cs == [] then []
    else
      var id := Identity(cs[0].diagnostic);
      if id in seen then Dedup(cs[1..], seen) else [cs[0]] + Dedup(cs[1..], seen + {id})
  }

  lemma DedupStep(cs: seq<Candidate>, seen: set<string>)
    requires cs != []
    ensures
      var id := Identity(cs[0].diagnostic);
      Dedup(cs, seen) == if id in seen then Dedup(cs[1..], seen) else [cs[0]] + Dedup(cs[1..], seen + {id})
  {
    hide Identity;
  }

  lemma DedupNothing(seen: set<string>)
    ensures Dedup([], seen) == []
  {
  }

  method Deduplicate(candidates: seq<Candidate>) returns (kept: seq<Candidate>, removed: nat)
    ensures kept == Dedup(candidates, {})
    ensures removed + |kept| == |candidates|
  {
    hide Identity, Dedup;
    kept, removed := [], 0;
    var seen: set<string> := {};
    assert candidates[0..] == candidates;
    for i := 0 to |candidates|
      invariant Dedup(candidates, {}) == kept + Dedup(candidates[i..], seen)
      invariant removed + |kept| == i
    {
      assert candidates[i..][1..] == candidates[i + 1..];
      DedupStep(candidates[i..], seen);
      var id := Identity(candidates[i].diagnostic);
      if id in seen {
        removed := removed + 1;
      } else {
        seen := seen + {id};
        kept := kept + [candidates[i]];
      }
    }
    DedupNothing(seen);
    assert candidates[|candidates|..] == [];
  }

  predicate IsCause(c: Candidate) {
    c.cause != 0 && c.publicationClass != Cascaded
  }

  function Causes(cs: seq<Candidate>): set<nat> {
    set i | 0 <= i < |cs| && IsCause(cs[i]) :: cs[i].cause
  }

  predicate Suppressed(c: Candidate, causes: set<nat>) {
    c.publicationClass == Cascaded && exists k :: 0 <= k < |c.dependsOn| && c.dependsOn[k] in causes
  }

  function Surviving(cs: seq<Candidate>, causes: set<nat>): (r: seq<Candidate>)
    ensures |r| <= |cs|
  {
    if cs == [] then []
    else if Suppressed(cs[0], causes) then Surviving(cs[1..], causes)
    else [cs[0]] + Surviving(cs[1..], causes)
  }

  lemma SurvivingStep(cs: seq<Candidate>, causes: set<nat>)
    requires cs != []
    ensures Surviving(cs, causes) == (if Suppressed(cs[0], causes) then [] else [cs[0]]) + Surviving(cs[1..], causes)
  {
  }

  lemma SurvivingNothing(causes: set<nat>)
    ensures Surviving([], causes) == []
  {
  }

  method SuppressCascades(candidates: seq<Candidate>) returns (kept: seq<Candidate>, suppressed: nat)
    ensures kept == Surviving(candidates, Causes(candidates))
    ensures suppressed + |kept| == |candidates|
  {
    hide Surviving, Suppressed;
    SurvivingNothing(Causes(candidates));
    var causes: set<nat> := {};
    for i := 0 to |candidates|
      invariant causes == Causes(candidates[..i])
    {
      CausesSnoc(candidates, i);
      if candidates[i].cause != 0 && candidates[i].publicationClass != Cascaded {
        causes := causes + {candidates[i].cause};
      }
    }
    assert candidates[..|candidates|] == candidates;
    hide Causes;
    kept, suppressed := [], 0;
    assert candidates[0..] == candidates;
    for i := 0 to |candidates|
      invariant Surviving(candidates, causes) == kept + Surviving(candidates[i..], causes)
      invariant suppressed + |kept| == i
    {
      assert candidates[i..][1..] == candidates[i + 1..];
      SurvivingStep(candidates[i..], causes);
      if Suppressed(candidates[i], causes) {
        suppressed := suppressed + 1;
      } else {
        kept := kept + [candidates[i]];
      }
    }
    assert candidates[|candidates|..] == [];
  }

  lemma CausesSnoc(cs: seq<Candidate>, i: nat)
    requires i < |cs|
    ensures Causes(cs[..i + 1]) == Causes(cs[..i]) + (if IsCause(cs[i]) then {cs[i].cause} else {})
  {
    var more, less := cs[..i + 1], cs[..i];
    forall x | x in Causes(less) ensures x in Causes(more) {
      var k :| 0 <= k < |less| && IsCause(less[k]) && less[k].cause == x;
      assert more[k] == less[k];
    }
    forall x | x in Causes(more) ensures x in Causes(less) || (IsCause(cs[i]) && x == cs[i].cause) {
      var k :| 0 <= k < |more| && IsCause(more[k]) && more[k].cause == x;
      if k < i { assert less[k] == more[k]; }
    }
    assert more[i] == cs[i];
  }

  // ---------------------------------------------------------------- order

  /** The comparison of `sort`. */
  predicate Before(left: Candidate, right: Candidate) {
    var a, b := left.diagnostic, right.diagnostic;
    var aUri := if a.range.valid then a.range.uri else "";
    var bUri := if b.range.valid then b.range.uri else "";
    if aUri != bUri then Lex.Less(aUri, bUri)
    else if a.range.valid != b.range.valid then a.range.valid
    else if a.range.valid && a.range.start.byteOffset != b.range.start.byteOffset then
      a.range.start.byteOffset < b.range.start.byteOffset
    else if a.range.valid && a.range.end.byteOffset != b.range.end.byteOffset then
      a.range.end.byteOffset < b.range.end.byteOffset
    else if a.severity != b.severity then SeverityRank(a.severity) < SeverityRank(b.severity)
    else if a.phase != b.phase then PhaseRank(a.phase) < PhaseRank(b.phase)
    else if a.code != b.code then Lex.Less(a.code, b.code)
    else if a.message != b.message then Lex.Less(a.message, b.message)
    else Lex.Less(left.producer, right.producer)
  }

  /** Places c behind everything it does not have to precede. */
  function Insert(c: Candidate, cs: seq<Candidate>): (r: seq<Candidate>)
    ensures |r| == |cs| + 1
  {
    if cs == [] || Before(c, cs[|cs| - 1]) == false then cs + [c]
    else Insert(c, cs[..|cs| - 1]) + [cs[|cs| - 1]]
  }

  /** `std::stable_sort` */
  function StableSort(cs: seq<Candidate>): (r: seq<Candidate>)
    ensures |r| == |cs|
  {
    if cs == [] then [] else Insert(cs[|cs| - 1], StableSort(cs[..|cs| - 1]))
  }

  // ---------------------------------------------------------------- publishing

  function Deduplicated(catalog: Catalog, cs: seq<Candidate>): seq<Candidate> {
    Dedup(NormalizedAll(catalog, cs), {})
  }

  function Uncascaded(catalog: Catalog, cs: seq<Candidate>): seq<Candidate> {
    var deduplicated := Deduplicated(catalog, cs);
    Surviving(deduplicated, Causes(deduplicated))
  }

  function PublishedCandidates(catalog: Catalog, cs: seq<Candidate>): seq<Candidate> {
    StableSort(Uncascaded(catalog, cs))
  }

  function Values(cs: seq<Candidate>): (r: seq<Diagnostic>)
    ensures |r| == |cs| && forall i :: 0 <= i < |cs| ==> r[i] == cs[i].diagnostic
  {
    seq(|cs|, i requires 0 <= i < |cs| => cs[i].diagnostic)
  }

  function Published(catalog: Catalog, cs: seq<Candidate>): seq<Diagnostic> {
    Values(PublishedCandidates(catalog, cs))
  }

  /** The range repairs of `normalize`, and how many there were. */
  method NormalizeRange(d: Diagnostic) returns (range: Range, badRanges: nat)
    ensures range == NormalizedRange(d.range) && badRanges == BadRange(d)
  {
    range, badRanges := d.range, 0;
    if range.valid && range.uri == "" {
      range := range.(valid := false);
      badRanges := badRanges + 1;
    }
    if range.valid && range.start.byteOffset > range.end.byteOffset {
      range := range.(end := range.start);
      badRanges := badRanges + 1;
    }
  }

  method NormalizeDiagnostic(catalog: Catalog, d: Diagnostic) returns (r: Diagnostic, badRanges: nat, unknownCodes: nat)
    ensures r == Normalized(catalog, d)
    ensures badRanges == BadRange(d) && unknownCodes == UnknownCode(catalog, d)
  {
    hide Identity, Unique, NormalizedMessage, NonEmpty, NormalizedRange, BadRange;
    badRanges, unknownCodes := 0, 0;
    var code, range, phase := d.code, d.range, d.phase;
    if code == "" {
      code := DEFAULT_CODE;
      unknownCodes := 1;
    } else if code !in catalog {
      unknownCodes := 1;
    }
    var source := if d.source == "" then "compiler" else d.source;
    var message := NormalizeMessage(d.message);
    if message == "" { message := DEFAULT_MESSAGE; }
    range, badRanges := NormalizeRange(d);
    if phase == Unknown && code in catalog { phase := catalog[code]; }
    r := d.(code := code, source := source, message := message, range := range, phase := phase,
            related := Unique(d.related), notes := NonEmpty(d.notes));
    if r.fingerprint == "" { r := r.(fingerprint := Identity(r)); }
  }

  /** `publish` */
  method Publish(catalog: Catalog, candidates: seq<Candidate>) returns (values: seq<Diagnostic>, stats: Stats)
    ensures values == Published(catalog, candidates)
    ensures stats.candidates == |candidates| && stats.published == |values|
    ensures stats.candidates == stats.published + stats.exactDuplicatesRemoved + stats.cascadesSuppressed
    ensures stats.exactDuplicatesRemoved == |candidates| - |Deduplicated(catalog, candidates)|
    ensures stats.invalidRangesNormalized == BadRanges(candidates)
    ensures stats.unknownCodes == UnknownCodes(catalog, candidates)
  {
    hide Normalized, Dedup, Surviving, StableSort, Causes;
    var badRanges, unknownCodes := 0, 0;
    var normalized: seq<Candidate> := [];
    for i := 0 to |candidates|
      invariant |normalized| == i
      invariant badRanges == BadRanges(candidates[..i]) && unknownCodes == UnknownCodes(catalog, candidates[..i])
      invariant forall k :: 0 <= k < i ==> normalized[k] == candidates[k].(diagnostic := Normalized(catalog, candidates[k].diagnostic))
    {
      assert candidates[..i + 1][..i] == candidates[..i];
      var d, bad, unknown := NormalizeDiagnostic(catalog, candidates[i].diagnostic);
      normalized := normalized + [candidates[i].(diagnostic := d)];
      badRanges, unknownCodes := badRanges + bad, unknownCodes + unknown;
    }
    assert candidates[..|candidates|] == candidates;
    assert normalized == NormalizedAll(catalog, candidates);
    var kept, removed := Deduplicate(normalized);
    var surviving, suppressed := SuppressCascades(kept);
    values := Values(StableSort(surviving));
    stats := Stats(|candidates|, |values|, removed, suppressed, badRanges, unknownCodes);
  }
}
