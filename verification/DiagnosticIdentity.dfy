/** What two diagnostics have in common when they count as the same, and which candidates are
    published, in terms of the fields of the diagnostics. */
module DiagnosticIdentity {
  import opened Decimal
  import opened Bytes
  import opened Diagnostics
  import opened DiagnosticTheorems

  // ---------------------------------------------------------------- reading texts apart

  lemma FirstSeparator(a: string, c: char, x: string, b: string, y: string)
    requires c !in a && c !in b && a + ([c] + x) == b + ([c] + y)
    ensures a == b && x == y
  {
    var s, t := a + ([c] + x), b + ([c] + y);
    assert s[|a|] == c && t[|b|] == c;
    assert forall i :: 0 <= i < |a| ==> s[i] == a[i] && a[i] in a;
    assert forall i :: 0 <= i < |b| ==> t[i] == b[i] && b[i] in b;
    assert s[..|a|] == a && t[..|b|] == b && s[|a| + 1..] == x && t[|b| + 1..] == y;
  }

  lemma LastSeparator(a: string, c: char, x: string, b: string, y: string)
    requires c !in x && c !in y && a + ([c] + x) == b + ([c] + y)
    ensures a == b && x == y
  {
    var s, t := a + ([c] + x), b + ([c] + y);
    assert s[|a|] == c && t[|b|] == c;
    assert forall i :: |a| < i < |s| ==> s[i] == x[i - |a| - 1] && s[i] in x;
    assert forall i :: |b| < i < |t| ==> t[i] == y[i - |b| - 1] && t[i] in y;
    assert s[..|a|] == a && t[..|b|] == b && s[|a| + 1..] == x && t[|b| + 1..] == y;
  }

  ghost predicate FreeOf(s: string, separators: set<char>) {
    forall i :: 0 <= i < |s| ==> s[i] !in separators
  }

  ghost predicate Delimited(x: string, separators: set<char>) {
    x == "" || x[0] in separators
  }

  lemma DelimitedUnique(a: string, x: string, b: string, y: string, separators: set<char>)
    requires FreeOf(a, separators) && FreeOf(b, separators) && Delimited(x, separators) && Delimited(y, separators)
    requires a + x == b + y
    ensures a == b && x == y
  {
    var s, t := a + x, b + y;
    assert forall i :: 0 <= i < |a| ==> s[i] == a[i];
    assert forall i :: 0 <= i < |b| ==> t[i] == b[i];
    assert (|x| > 0 ==> s[|a|] == x[0]) && (|y| > 0 ==> t[|b|] == y[0]);
    assert s[..|a|] == a && t[..|b|] == b && s[|a|..] == x && t[|b|..] == y;
  }

  lemma DropFirst(c: char, x: string, y: string)
    requires [c] + x == [c] + y
    ensures x == y
  {
    assert ([c] + x)[1..] == x && ([c] + y)[1..] == y;
  }

  lemma TextInjective(m: nat, n: nat)
    requires ToText(m) == ToText(n)
    ensures m == n
  {
    TextRoundTrip(m);
    TextRoundTrip(n);
  }

  lemma DigitsAreNo(n: nat, c: char)
    requires !IsDigit(c)
    ensures c !in ToText(n)
  {
    assert AllDigits(ToText(n));
  }

  // ---------------------------------------------------------------- ranges

  /** The same place: both without one, or the same bytes of the same source. */
  predicate SameRange(a: Range, b: Range) {
    a.valid == b.valid &&
    (a.valid ==> a.uri == b.uri && a.start.byteOffset == b.start.byteOffset && a.end.byteOffset == b.end.byteOffset)
  }

  lemma ValidKey(r: Range)
    requires r.valid
    ensures RangeKey(r) == r.uri + ":" + ToText(r.start.byteOffset) + ([':'] + ToText(r.end.byteOffset))
    ensures r.uri + ":" + ToText(r.start.byteOffset) == r.uri + ([':'] + ToText(r.start.byteOffset))
  {
    hide ToText;
    Associate(r.uri + ":" + ToText(r.start.byteOffset), ":", ToText(r.end.byteOffset));
    Associate(r.uri, ":", ToText(r.start.byteOffset));
  }

  lemma RangeKeyExact(a: Range, b: Range)
    ensures RangeKey(a) == RangeKey(b) <==> SameRange(a, b)
  {
    if a.valid && b.valid && RangeKey(a) == RangeKey(b) {
      ValidKey(a);
      ValidKey(b);
      DigitsAreNo(a.start.byteOffset, ':');
      DigitsAreNo(b.start.byteOffset, ':');
      DigitsAreNo(a.end.byteOffset, ':');
      DigitsAreNo(b.end.byteOffset, ':');
      hide ToText, RangeKey;
      LastSeparator(a.uri + ":" + ToText(a.start.byteOffset), ':', ToText(a.end.byteOffset),
        b.uri + ":" + ToText(b.start.byteOffset), ToText(b.end.byteOffset));
      LastSeparator(a.uri, ':', ToText(a.start.byteOffset), b.uri, ToText(b.start.byteOffset));
      TextInjective(a.start.byteOffset, b.start.byteOffset);
      TextInjective(a.end.byteOffset, b.end.byteOffset);
    }
    if a.valid != b.valid {
      InvalidKeyDiffers(a, b);
      InvalidKeyDiffers(b, a);
    }
  }

  lemma InvalidKeyDiffers(a: Range, b: Range)
    ensures a.valid && !b.valid ==> RangeKey(a) != RangeKey(b)
  {
    if a.valid && !b.valid {
      ValidKey(a);
      hide ToText;
      var u, v := a.uri + ":" + ToText(a.start.byteOffset), ToText(a.end.byteOffset);
      assert (u + ([':'] + v))[|u|] == ':';
      assert ':' !in "invalid";
    }
  }

  lemma RangeKeyFree(r: Range, c: char)
    requires !IsDigit(c) && c != ':' && c !in "invalid" && (r.valid ==> c !in r.uri)
    ensures c !in RangeKey(r)
  {
    DigitsAreNo(r.start.byteOffset, c);
    DigitsAreNo(r.end.byteOffset, c);
    hide ToText;
  }

  // ---------------------------------------------------------------- related entries and notes

  const GS := '\U{1d}'
  const RS := '\U{1e}'
  const US := '\U{1f}'

  predicate SameRelateds(a: seq<Related>, b: seq<Related>) {
    |a| == |b| && forall i :: 0 <= i < |a| ==> SameRange(a[i].range, b[i].range) && a[i].message == b[i].message
  }

  ghost predicate ReadableRelated(r: Related) {
    (r.range.valid ==> US !in r.range.uri) && FreeOf(r.message, {RS, GS})
  }

  ghost predicate ReadableTail(related: seq<Related>, notes: seq<string>) {
    && (forall i :: 0 <= i < |related| ==> ReadableRelated(related[i]))
    && (forall i :: 0 <= i < |notes| ==> FreeOf(notes[i], {GS}))
  }

  lemma NotesCons(notes: seq<string>)
    requires notes != []
    ensures NotesText(notes) == [GS] + (notes[0] + NotesText(notes[1..]))
  {
    Associate([GS], notes[0], NotesText(notes[1..]));
  }

  lemma NotesDelimited(notes: seq<string>)
    ensures Delimited(NotesText(notes), {GS})
    ensures NotesText(notes) == "" <==> notes == []
  {
    if notes != [] { NotesCons(notes); }
  }

  lemma {:induction false} NotesUnique(a: seq<string>, b: seq<string>)
    requires forall i :: 0 <= i < |a| ==> FreeOf(a[i], {GS})
    requires forall i :: 0 <= i < |b| ==> FreeOf(b[i], {GS})
    requires NotesText(a) == NotesText(b)
    ensures a == b
    decreases |a|
  {
    hide NotesText;
    NotesDelimited(a);
    NotesDelimited(b);
    if a != [] {
      NotesCons(a);
      NotesCons(b);
      DropFirst(GS, a[0] + NotesText(a[1..]), b[0] + NotesText(b[1..]));
      NotesDelimited(a[1..]);
      NotesDelimited(b[1..]);
      DelimitedUnique(a[0], NotesText(a[1..]), b[0], NotesText(b[1..]), {GS});
      NotesUnique(a[1..], b[1..]);
      assert a == [a[0]] + a[1..] && b == [b[0]] + b[1..];
    }
  }

  /** Related entries followed by notes. */
  function Tail(related: seq<Related>, notes: seq<string>): string {
    RelatedText(related) + NotesText(notes)
  }

  lemma TailCons(related: seq<Related>, notes: seq<string>)
    requires related != []
    ensures Tail(related, notes) == [RS] + (RangeKey(related[0].range) + ([US] + (related[0].message + Tail(related[1..], notes))))
  {
    hide RangeKey, NotesText;
    var k, m, rest := RangeKey(related[0].range), related[0].message, RelatedText(related[1..]);
    assert RelatedText(related) == [RS] + k + [US] + m + rest;
    hide RelatedText;
    FiveParts([RS], k, [US], m, rest, NotesText(notes));
  }

  lemma FiveParts(a: string, b: string, c: string, d: string, e: string, f: string)
    ensures (a + b + c + d + e) + f == a + (b + (c + (d + (e + f))))
  {
    Associate(a + b + c + d, e, f);
    Associate(a + b + c, d, e + f);
    Associate(a + b, c, d + (e + f));
    Associate(a, b, c + (d + (e + f)));
  }

  lemma TailDelimited(related: seq<Related>, notes: seq<string>)
    ensures Delimited(Tail(related, notes), {RS, GS})
    ensures related == [] ==> Delimited(Tail(related, notes), {GS})
    ensures related != [] ==> Tail(related, notes) != "" && Tail(related, notes)[0] == RS
  {
    if related == [] {
      NotesDelimited(notes);
      assert Tail(related, notes) == NotesText(notes);
    } else {
      hide Tail;
      TailCons(related, notes);
    }
  }

  lemma {:induction false} TailUnique(r: seq<Related>, m: seq<string>, q: seq<Related>, n: seq<string>)
    requires ReadableTail(r, m) && ReadableTail(q, n) && Tail(r, m) == Tail(q, n)
    ensures SameRelateds(r, q) && m == n
    decreases |r|
  {
    TailDelimited(r, m);
    TailDelimited(q, n);
    if r == [] && q == [] {
      assert Tail(r, m) == NotesText(m) && Tail(q, n) == NotesText(n);
      NotesUnique(m, n);
    } else if r != [] && q != [] {
      hide Tail, RangeKey;
      TailCons(r, m);
      TailCons(q, n);
      var k, l := RangeKey(r[0].range), RangeKey(q[0].range);
      var x, y := r[0].message + Tail(r[1..], m), q[0].message + Tail(q[1..], n);
      DropFirst(RS, k + ([US] + x), l + ([US] + y));
      assert ReadableRelated(r[0]) && ReadableRelated(q[0]);
      RangeKeyFree(r[0].range, US);
      RangeKeyFree(q[0].range, US);
      FirstSeparator(k, US, x, l, y);
      TailDelimited(r[1..], m);
      TailDelimited(q[1..], n);
      DelimitedUnique(r[0].message, Tail(r[1..], m), q[0].message, Tail(q[1..], n), {RS, GS});
      RangeKeyExact(r[0].range, q[0].range);
      TailUnique(r[1..], m, q[1..], n);
      assert forall i :: 0 < i < |r| ==> r[i] == r[1..][i - 1] && q[i] == q[1..][i - 1];
    }
  }

  lemma {:induction false} TailSame(r: seq<Related>, q: seq<Related>)
    requires SameRelateds(r, q)
    ensures RelatedText(r) == RelatedText(q)
    decreases |r|
  {
    if r != [] {
      RangeKeyExact(r[0].range, q[0].range);
      hide RangeKey;
      TailSame(r[1..], q[1..]);
    }
  }

  // ---------------------------------------------------------------- identity

  /** The two report the same: everything a reader sees but positions within the line, phase,
      tags, help and fingerprint. */
  predicate SameReport(a: Diagnostic, b: Diagnostic) {
    && a.code == b.code && a.severity == b.severity && a.source == b.source && SameRange(a.range, b.range)
    && NormalizedMessage(a.message) == NormalizedMessage(b.message) && a.treatedAsError == b.treatedAsError
    && SameRelateds(a.related, b.related) && a.notes == b.notes
  }

  /** No field holds a character that ends it. */
  ghost predicate Readable(d: Diagnostic) {
    && US !in d.code && US !in d.source && US !in d.message && (d.range.valid ==> US !in d.range.uri)
    && ReadableTail(d.related, d.notes)
  }

  function FlagText(d: Diagnostic): string {
    if d.treatedAsError then "1" else "0"
  }

  /** The text of an identity, read from the left. */
  lemma IdentityText(d: Diagnostic)
    ensures Identity(d) ==
      d.code + ([US] + (ToText(SeverityRank(d.severity)) + ([US] + (d.source + ([US] + (RangeKey(d.range)
      + ([US] + (NormalizedMessage(d.message) + ([US] + (FlagText(d) + Tail(d.related, d.notes)))))))))))
  {
    hide ToText, RangeKey, NormalizedMessage, RelatedText, NotesText, SeverityRank;
    var a, b, c, e, f, g := d.code, ToText(SeverityRank(d.severity)), d.source, RangeKey(d.range), NormalizedMessage(d.message), FlagText(d);
    var r, n := RelatedText(d.related), NotesText(d.notes);
    assert Identity(d) == a + [US] + b + [US] + c + [US] + e + [US] + f + [US] + g + r + n;
    hide Identity;
    Associate(a + [US] + b + [US] + c + [US] + e + [US] + f + [US] + g, r, n);
    FiveParts(a + [US] + b + [US] + c + [US] + e, [US], f, [US], g, r + n);
    FiveParts(a + [US] + b, [US], c, [US], e, [US] + (f + ([US] + (g + (r + n)))));
    Associate(a + [US], b, [US] + (c + ([US] + (e + ([US] + (f + ([US] + (g + (r + n)))))))));
    Associate(a, [US], b + ([US] + (c + ([US] + (e + ([US] + (f + ([US] + (g + (r + n))))))))));
  }

  lemma MessageFree(s: string, c: char)
    requires c !in s && c != ' '
    ensures c !in NormalizedMessage(s)
  {
    CollapseChars(s, false);
    DropBlanksChars(Collapse(s, false));
  }

  lemma {:induction false} CollapseChars(s: string, afterBlank: bool)
    ensures forall c :: c in Collapse(s, afterBlank) ==> c in s || c == ' '
  {
    if s != "" { CollapseChars(s[1..], IsSpace(s[0])); }
  }

  lemma {:induction false} DropBlanksChars(s: string)
    ensures forall c :: c in DropBlanks(s) ==> c in s
  {
    if s != "" && s[|s| - 1] == ' ' { DropBlanksChars(s[..|s| - 1]); }
  }

  lemma SameFlag(a: Diagnostic, b: Diagnostic, x: string, y: string)
    requires FlagText(a) + x == FlagText(b) + y
    ensures a.treatedAsError == b.treatedAsError && x == y
  {
    assert (FlagText(a) + x)[0] == FlagText(a)[0] && (FlagText(b) + y)[0] == FlagText(b)[0];
    assert (FlagText(a) + x)[1..] == x && (FlagText(b) + y)[1..] == y;
  }

  /** What follows the n-th separator of an identity. */
  function Rest(d: Diagnostic, n: nat): string {
    if n == 0 then FlagText(d) + Tail(d.related, d.notes)
    else if n == 1 then NormalizedMessage(d.message) + ([US] + Rest(d, 0))
    else if n == 2 then RangeKey(d.range) + ([US] + Rest(d, 1))
    else if n == 3 then d.source + ([US] + Rest(d, 2))
    else if n == 4 then ToText(SeverityRank(d.severity)) + ([US] + Rest(d, 3))
    else d.code + ([US] + Rest(d, 4))
  }

  lemma IdentityRest(d: Diagnostic)
    ensures Identity(d) == Rest(d, 5)
  {
    IdentityText(d);
    hide ToText, RangeKey, NormalizedMessage, Tail, SeverityRank, FlagText, Identity;
    assert Rest(d, 1) == NormalizedMessage(d.message) + ([US] + (FlagText(d) + Tail(d.related, d.notes)));
    assert Rest(d, 2) == RangeKey(d.range) + ([US] + Rest(d, 1));
    assert Rest(d, 3) == d.source + ([US] + Rest(d, 2));
    assert Rest(d, 4) == ToText(SeverityRank(d.severity)) + ([US] + Rest(d, 3));
  }

  /** Equal fields give equal identities, whatever they hold. */
  lemma SameReportSameIdentity(a: Diagnostic, b: Diagnostic)
    requires SameReport(a, b)
    ensures Identity(a) == Identity(b)
  {
    RangeKeyExact(a.range, b.range);
    TailSame(a.related, b.related);
    hide ToText, RangeKey, NormalizedMessage, RelatedText, NotesText, SeverityRank;
  }

  lemma SameHead(a: Diagnostic, b: Diagnostic)
    requires Readable(a) && Readable(b) && Rest(a, 5) == Rest(b, 5)
    ensures a.code == b.code && a.severity == b.severity && a.source == b.source && Rest(a, 2) == Rest(b, 2)
  {
    hide ToText, RangeKey, NormalizedMessage, Tail, FlagText;
    FirstSeparator(a.code, US, Rest(a, 4), b.code, Rest(b, 4));
    DigitsAreNo(SeverityRank(a.severity), US);
    DigitsAreNo(SeverityRank(b.severity), US);
    FirstSeparator(ToText(SeverityRank(a.severity)), US, Rest(a, 3), ToText(SeverityRank(b.severity)), Rest(b, 3));
    TextInjective(SeverityRank(a.severity), SeverityRank(b.severity));
    FirstSeparator(a.source, US, Rest(a, 2), b.source, Rest(b, 2));
  }

  lemma SameBody(a: Diagnostic, b: Diagnostic)
    requires Readable(a) && Readable(b) && Rest(a, 2) == Rest(b, 2)
    ensures SameRange(a.range, b.range) && NormalizedMessage(a.message) == NormalizedMessage(b.message)
    ensures a.treatedAsError == b.treatedAsError && SameRelateds(a.related, b.related) && a.notes == b.notes
  {
    RangeKeyFree(a.range, US);
    RangeKeyFree(b.range, US);
    MessageFree(a.message, US);
    MessageFree(b.message, US);
    hide ToText, RangeKey, NormalizedMessage, Tail, FlagText;
    FirstSeparator(RangeKey(a.range), US, Rest(a, 1), RangeKey(b.range), Rest(b, 1));
    RangeKeyExact(a.range, b.range);
    FirstSeparator(NormalizedMessage(a.message), US, Rest(a, 0), NormalizedMessage(b.message), Rest(b, 0));
    SameFlag(a, b, Tail(a.related, a.notes), Tail(b.related, b.notes));
    TailUnique(a.related, a.notes, b.related, b.notes);
  }

  /** Two readable diagnostics have the same identity exactly when they report the same. */
  lemma IdentityExact(a: Diagnostic, b: Diagnostic)
    requires Readable(a) && Readable(b)
    ensures Identity(a) == Identity(b) <==> SameReport(a, b)
  {
    hide Identity, Rest, Readable;
    if SameReport(a, b) { SameReportSameIdentity(a, b); }
    if Identity(a) == Identity(b) {
      IdentityRest(a);
      IdentityRest(b);
      SameHead(a, b);
      SameBody(a, b);
    }
  }

  /** Fields that hold separators can be confused: one note or two. */
  lemma SeparatorsConfuse(d: Diagnostic)
    ensures Identity(d.(notes := ["a\U{1d}b"])) == Identity(d.(notes := ["a", "b"]))
  {
    assert ["a\U{1d}b"][1..] == [] && ["a", "b"][1..] == ["b"] && ["b"][1..] == [];
    assert NotesText(["b"]) == "\U{1d}b" + NotesText([]);
    assert NotesText(["a", "b"]) == "\U{1d}a" + NotesText(["b"]);
    assert NotesText(["a\U{1d}b"]) == "\U{1d}a\U{1d}b" + NotesText([]);
    assert NotesText(["a", "b"]) == NotesText(["a\U{1d}b"]);
    hide NotesText, RelatedText, RangeKey, NormalizedMessage, ToText;
  }
}
