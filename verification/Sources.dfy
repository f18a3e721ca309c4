/** The session's registered sources: buffers, identities and the two counters of
    `SourceManager`. Byte strings are `string`, one character per byte. */
module Sources {

  datatype SourceBuffer = SourceBuffer(uri: string, text: string, version: nat)

  datatype SourceIdentity = SourceIdentity(
    uri: string, documentVersion: nat, contentRevision: nat,
    sourceGeneration: nat, contentHash: string, byteLength: nat)

  datatype UpdateKind = Added | Unchanged | VersionOnly | ContentChanged | Reintroduced | Rejected

  datatype UpdateResult = UpdateResult(
    kind: UpdateKind, previous: SourceIdentity, current: SourceIdentity,
    accepted: bool, parserInvalidated: bool, analysesInvalidated: bool)

  const EmptyIdentity := SourceIdentity("", 0, 0, 0, "", 0)
  const RejectedResult := UpdateResult(Rejected, EmptyIdentity, EmptyIdentity, false, false, false)

  predicate InvalidUri(uri: string) {
    uri == "" || '\0' in uri
  }

  // ---------------------------------------------------------------- content hash

  /** Exclusive or of the low `bits` bits. */
  function Xor(a: nat, b: nat, bits: nat): nat {
    if bits == 0 then 0
    else (if a % 2 == b % 2 then 0 else 1) + 2 * Xor(a / 2, b / 2, bits - 1)
  }

  const FNV_OFFSET: nat := 1469598103934665603
  const FNV_PRIME: nat := 1099511628211
  const TWO_64: nat := 0x1_0000_0000_0000_0000

  /** One round: xor the byte into the hash, multiply modulo 2^64. */
  function FnvRound(hash: nat, byte: char): nat {
    Xor(hash, byte as int, 64) * FNV_PRIME % TWO_64
  }

  function Fnv(bytes: string): nat {
    if bytes == "" then FNV_OFFSET else FnvRound(Fnv(bytes[..|bytes| - 1]), bytes[|bytes| - 1])
  }

  function HexChar(d: nat): (c: char)
    requires d < 16
    ensures c != ':' && c != ';'
  {
    "0123456789abcdef"[d]
  }

  function Hex(n: nat, width: nat): (s: string)
    ensures |s| == width
    ensures ':' !in s && ';' !in s
  {
    if width == 0 then "" else Hex(n / 16, width - 1) + [HexChar(n % 16)]
  }

  /** Sixteen hexadecimal digits of the FNV-1a hash. */
  function ContentHash(bytes: string): (h: string)
    ensures |h| == 16
    ensures ':' !in h && ';' !in h
  {
    Hex(Fnv(bytes), 16)
  }

  method ComputeContentHash(bytes: string) returns (h: string)
    ensures h == ContentHash(bytes)
  {
    var hash := FNV_OFFSET;
    for i := 0 to |bytes|
      invariant hash == Fnv(bytes[..i])
    {
      assert bytes[..i + 1][..i] == bytes[..i];
      hash := FnvRound(hash, bytes[i]);
    }
    assert bytes[..|bytes|] == bytes;
    h := Hex(hash, 16);
  }

  // ---------------------------------------------------------------- state machine

  datatype State = State(
    sources: map<string, SourceBuffer>,
    identities: map<string, SourceIdentity>,
    removed: map<string, SourceIdentity>,
    nextContentRevision: nat,
    generation: nat)

  const Initial := State(map[], map[], map[], 0, 0)

  datatype Op = Update(uri: string, text: string, version: nat) | Remove(uri: string)

  /** What every reachable state satisfies. */
  ghost predicate Valid(s: State) {
    && s.sources.Keys == s.identities.Keys
    && s.removed.Keys !! s.identities.Keys
    && (forall uri :: uri in s.identities ==> Registered(s, uri))
    && (forall u, v :: u in s.identities && v in s.identities && u != v
          ==> s.identities[u].contentRevision != s.identities[v].contentRevision)
  }

  /** Buffer and identity of one registered URI describe the same bytes. */
  ghost predicate Registered(s: State, uri: string)
    requires uri in s.identities
  {
    && uri in s.sources
    && !InvalidUri(uri)
    && var id, buffer := s.identities[uri], s.sources[uri];
    && id.uri == uri && buffer.uri == uri
    && 0 < id.contentRevision <= s.nextContentRevision
    && 0 < id.sourceGeneration <= s.generation
    && id.contentHash == ContentHash(buffer.text)
    && id.byteLength == |buffer.text|
    && (buffer.version == id.documentVersion || buffer.version == 0)
  }

  /** The result of `SourceManager::update`. */
  function UpdateOutcome(s: State, uri: string, text: string, version: nat): (r: UpdateResult)
    requires s.sources.Keys == s.identities.Keys
  {
    if InvalidUri(uri) then RejectedResult
    else if uri in s.sources then
      var prev := s.identities[uri];
      if version < prev.documentVersion && version != 0 then RejectedResult.(previous := prev)
      else if text == s.sources[uri].text then
        if version == prev.documentVersion || version == 0 then
          UpdateResult(Unchanged, prev, prev, true, false, false)
        else
          UpdateResult(VersionOnly, prev, prev.(documentVersion := version), true, false, false)
      else
        var current := SourceIdentity(prev.uri,
                                      if version == 0 then prev.documentVersion else version,
                                      s.nextContentRevision + 1, s.generation + 1,
                                      ContentHash(text), |text|);
        UpdateResult(ContentChanged, prev, current, true, true, true)
    else
      var current := SourceIdentity(uri, version, s.nextContentRevision + 1, s.generation + 1,
                                    ContentHash(text), |text|);
      if uri in s.removed
      then UpdateResult(Reintroduced, s.removed[uri], current, true, false, true)
      else UpdateResult(Added, EmptyIdentity, current, true, false, true)
  }

  /** The state after `SourceManager::update`. */
  function AfterUpdate(s: State, uri: string, text: string, version: nat): (s': State)
    requires s.sources.Keys == s.identities.Keys
    ensures s'.sources.Keys == s'.identities.Keys
  {
    var r := UpdateOutcome(s, uri, text, version);
    match r.kind
    case Rejected => s
    case Unchanged => s
    case VersionOnly =>
      s.(sources := s.sources[uri := s.sources[uri].(version := version)],
         identities := s.identities[uri := r.current])
    case _ =>
      State(s.sources[uri := SourceBuffer(uri, text, version)],
            s.identities[uri := r.current],
            s.removed - {uri}, s.nextContentRevision + 1, s.generation + 1)
  }

  /** The state after `SourceManager::remove`. */
  function AfterRemove(s: State, uri: string): (s': State)
    requires s.sources.Keys == s.identities.Keys
    ensures s'.sources.Keys == s'.identities.Keys
  {
    if uri !in s.sources then s
    else State(s.sources - {uri}, s.identities - {uri},
               s.removed[uri := s.identities[uri].(sourceGeneration := s.generation + 1)],
               s.nextContentRevision, s.generation + 1)
  }

  function Step(s: State, op: Op): (s': State)
    requires s.sources.Keys == s.identities.Keys
    ensures s'.sources.Keys == s'.identities.Keys
  {
    match op
    case Update(uri, text, version) => AfterUpdate(s, uri, text, version)
    case Remove(uri) => AfterRemove(s, uri)
  }

  /** The state after a whole session. */
  function Run(s: State, ops: seq<Op>): (s': State)
    requires s.sources.Keys == s.identities.Keys
    ensures s'.sources.Keys == s'.identities.Keys
  {
    if ops == [] then s else Step(Run(s, ops[..|ops| - 1]), ops[|ops| - 1])
  }

  // ---------------------------------------------------------------- the object

  class SourceManager {
    var sources: map<string, SourceBuffer>
    var identities: map<string, SourceIdentity>
    var removedIdentities: map<string, SourceIdentity>
    var nextContentRevision: nat
    var generation: nat

    ghost function Model(): State
      reads this
    {
      State(sources, identities, removedIdentities, nextContentRevision, generation)
    }

    constructor ()
      ensures Model() == Initial
    {
      sources, identities, removedIdentities := map[], map[], map[];
      nextContentRevision, generation := 0, 0;
    }

    method Update(uri: string, utf8: string, version: nat) returns (result: UpdateResult)
      requires sources.Keys == identities.Keys
      modifies this
      ensures result == UpdateOutcome(old(Model()), uri, utf8, version)
      ensures Model() == AfterUpdate(old(Model()), uri, utf8, version)
    {
      hide ContentHash, InvalidUri;
      ghost var before := Model();
      ghost var expected := UpdateOutcome(before, uri, utf8, version);
      if InvalidUri(uri) { return RejectedResult; }
      var hash := ComputeContentHash(utf8);
      if uri in sources {
        var previous := identities[uri];
        if version < previous.documentVersion && version != 0 {
          return RejectedResult.(previous := previous);
        }
        var sameBytes := |sources[uri].text| == |utf8| && sources[uri].text == utf8;
        var visibleVersion := if version == 0 then previous.documentVersion else version;
        if sameBytes && version == previous.documentVersion {
          return UpdateResult(Unchanged, previous, previous, true, false, false);
        }
        if sameBytes {
          if version == 0 || version < previous.documentVersion {
            return UpdateResult(Unchanged, previous, previous, true, false, false);
          }
          assert expected.kind == VersionOnly;
          sources := sources[uri := sources[uri].(version := visibleVersion)];
          var current := previous.(documentVersion := version);
          identities := identities[uri := current];
          return UpdateResult(VersionOnly, previous, current, true, false, false);
        }
        assert expected.kind == ContentChanged;
        nextContentRevision, generation := nextContentRevision + 1, generation + 1;
        var current := SourceIdentity(previous.uri, visibleVersion, nextContentRevision, generation, hash, |utf8|);
        result := UpdateResult(ContentChanged, previous, current, true, true, true);
      } else {
        var known := uri in removedIdentities;
        var previous := if known then removedIdentities[uri] else EmptyIdentity;
        nextContentRevision, generation := nextContentRevision + 1, generation + 1;
        var current := SourceIdentity(uri, version, nextContentRevision, generation, hash, |utf8|);
        result := UpdateResult(if known then Reintroduced else Added, previous, current, true, false, true);
      }
      assert result == expected;
      sources := sources[uri := SourceBuffer(uri, utf8, version)];
      identities := identities[uri := result.current];
      removedIdentities := removedIdentities - {uri};
      assert Model() == AfterUpdate(before, uri, utf8, version);
    }

    method Remove(uri: string) returns (found: bool)
      requires sources.Keys == identities.Keys
      modifies this
      ensures found == (uri in old(sources))
      ensures Model() == AfterRemove(old(Model()), uri)
    {
      if uri !in sources { return false; }
      if uri in identities {
        generation := generation + 1;
        removedIdentities := removedIdentities[uri := identities[uri].(sourceGeneration := generation)];
      }
      sources := sources - {uri};
      identities := identities - {uri};
      return true;
    }
  }

  // ---------------------------------------------------------------- invariants

  /** Rebinding one URI keeps the invariant when its new identity describes its new
      buffer and carries either a fresh revision or the one it had. */
  lemma RebindKeepsValid(s: State, uri: string, s': State)
    requires Valid(s)
    requires uri in s'.identities && uri in s'.sources && Registered(s', uri)
    requires s'.sources == s.sources[uri := s'.sources[uri]]
    requires s'.identities == s.identities[uri := s'.identities[uri]]
    requires s'.removed.Keys == s.removed.Keys - {uri}
    requires s.nextContentRevision <= s'.nextContentRevision && s.generation <= s'.generation
    requires s.nextContentRevision < s'.identities[uri].contentRevision
          || (uri in s.identities && s'.identities[uri].contentRevision == s.identities[uri].contentRevision)
    ensures Valid(s')
  {
    hide ContentHash, InvalidUri;
    forall u | u in s'.identities ensures Registered(s', u) {
      if u != uri { assert Registered(s, u); }
    }
    forall u, v | u in s'.identities && v in s'.identities && u != v
      ensures s'.identities[u].contentRevision != s'.identities[v].contentRevision
    {
      if u in s.identities { assert Registered(s, u); }
      if v in s.identities { assert Registered(s, v); }
    }
  }

  lemma UpdateKeepsValid(s: State, uri: string, text: string, version: nat)
    requires Valid(s)
    ensures Valid(AfterUpdate(s, uri, text, version))
  {
    hide ContentHash, InvalidUri;
    var r, s' := UpdateOutcome(s, uri, text, version), AfterUpdate(s, uri, text, version);
    if uri in s.identities { assert Registered(s, uri); }
    if r.kind != Rejected && r.kind != Unchanged {
      RebindKeepsValid(s, uri, s');
    }
  }

  lemma RemoveKeepsValid(s: State, uri: string)
    requires Valid(s)
    ensures Valid(AfterRemove(s, uri))
  {
    var s' := AfterRemove(s, uri);
    forall u | u in s'.identities ensures Registered(s', u) {
      assert Registered(s, u);
    }
  }

  /** t is a later state than s: counters only grew, and a revision that is not newer
      than s was issued for the very text s holds under that URI. */
  ghost predicate Later(s: State, t: State) {
    && s.nextContentRevision <= t.nextContentRevision
    && s.generation <= t.generation
    && forall uri :: uri in t.identities && uri in t.sources
         && t.identities[uri].contentRevision <= s.nextContentRevision
         ==> && uri in s.identities && uri in s.sources
             && s.identities[uri].contentRevision == t.identities[uri].contentRevision
             && s.sources[uri].text == t.sources[uri].text
  }

  lemma LaterUpdate(s: State, t: State, uri: string, text: string, version: nat)
    requires t.sources.Keys == t.identities.Keys && Later(s, t)
    ensures Later(s, AfterUpdate(t, uri, text, version))
  {
    var t' := AfterUpdate(t, uri, text, version);
    forall u | u in t'.identities && u in t'.sources
               && t'.identities[u].contentRevision <= s.nextContentRevision
      ensures u in t.identities && t.sources[u].text == t'.sources[u].text
      ensures t.identities[u].contentRevision == t'.identities[u].contentRevision
    {
    }
  }

  lemma LaterStep(s: State, t: State, op: Op)
    requires Valid(t) && Later(s, t)
    ensures Valid(Step(t, op)) && Later(s, Step(t, op))
  {
    match op
    case Update(uri, text, version) =>
      UpdateKeepsValid(t, uri, text, version);
      LaterUpdate(s, t, uri, text, version);
    case Remove(uri) =>
      RemoveKeepsValid(t, uri);
  }

  lemma {:induction false} RunIsLater(s: State, ops: seq<Op>)
    requires Valid(s)
    ensures Valid(Run(s, ops)) && Later(s, Run(s, ops))
  {
    if ops != [] {
      RunIsLater(s, ops[..|ops| - 1]);
      LaterStep(s, Run(s, ops[..|ops| - 1]), ops[|ops| - 1]);
    }
  }

  /** Every state a session reaches is valid. */
  lemma RunValid(ops: seq<Op>)
    ensures Valid(Run(Initial, ops))
  {
    RunIsLater(Initial, ops);
  }

  lemma {:induction false} RunConcat(s: State, a: seq<Op>, b: seq<Op>)
    requires s.sources.Keys == s.identities.Keys
    ensures Run(s, a + b) == Run(Run(s, a), b)
  {
    if b == [] {
      assert a + b == a;
    } else {
      assert (a + b)[..|a + b| - 1] == a + b[..|b| - 1];
      RunConcat(s, a, b[..|b| - 1]);
    }
  }

  /** A URI's content revision determines its bytes for ever: at any two moments of a
      session, equal revisions of one URI mean equal bytes and equal hash and length. */
  lemma RevisionDeterminesBytes(ops: seq<Op>, i: nat, j: nat, uri: string)
    requires i <= j <= |ops|
    requires uri in Run(Initial, ops[..i]).identities && uri in Run(Initial, ops[..j]).identities
    requires Run(Initial, ops[..i]).identities[uri].contentRevision
          == Run(Initial, ops[..j]).identities[uri].contentRevision
    ensures Run(Initial, ops[..i]).sources[uri].text == Run(Initial, ops[..j]).sources[uri].text
    ensures Run(Initial, ops[..i]).identities[uri].contentHash == Run(Initial, ops[..j]).identities[uri].contentHash
    ensures Run(Initial, ops[..i]).identities[uri].byteLength == Run(Initial, ops[..j]).identities[uri].byteLength
  {
    hide Run, ContentHash, InvalidUri;
    var s, t := Run(Initial, ops[..i]), Run(Initial, ops[..j]);
    RunValid(ops[..i]);
    assert ops[..j] == ops[..i] + ops[i..j];
    RunConcat(Initial, ops[..i], ops[i..j]);
    RunIsLater(s, ops[i..j]);
    assert Registered(s, uri) && Registered(t, uri);
  }

  lemma KeepsRegistered(s: State, op: Op, uri: string)
    requires s.sources.Keys == s.identities.Keys && uri in s.identities && op != Remove(uri)
    ensures uri in Step(s, op).identities
  {
    hide ContentHash, InvalidUri;
  }

  /** While a source stays registered its visible document version never decreases. */
  lemma VersionNeverDecreases(s: State, op: Op, uri: string)
    requires Valid(s)
    requires uri in s.identities && uri in Step(s, op).identities
    ensures s.identities[uri].documentVersion <= Step(s, op).identities[uri].documentVersion
  {
  }

  /** Over any stretch of a session in which the source is never removed. */
  lemma {:induction false} VersionMonotoneOverRun(s: State, ops: seq<Op>, uri: string)
    requires Valid(s) && uri in s.identities
    requires forall k :: 0 <= k < |ops| ==> ops[k] != Remove(uri)
    ensures uri in Run(s, ops).identities
    ensures s.identities[uri].documentVersion <= Run(s, ops).identities[uri].documentVersion
  {
    if ops != [] {
      hide ContentHash, InvalidUri, Valid, Registered, AfterUpdate, UpdateOutcome;
      var butLast := ops[..|ops| - 1];
      VersionMonotoneOverRun(s, butLast, uri);
      RunIsLater(s, butLast);
      KeepsRegistered(Run(s, butLast), ops[|ops| - 1], uri);
      VersionNeverDecreases(Run(s, butLast), ops[|ops| - 1], uri);
    }
  }

  ghost predicate VersionsAgree(s: State, uri: string)
    requires uri in s.identities && uri in s.sources
  {
    s.sources[uri].version == s.identities[uri].documentVersion
  }

  /** Buffer and identity lose their agreement on the version exactly when the content
      changes without a version while a non-zero version is already known, and regain it
      with the next accepted update that stores something. */
  lemma VersionAgreementStep(s: State, uri: string, text: string, version: nat)
    requires Valid(s) && !InvalidUri(uri)
    ensures
      var r, s' := UpdateOutcome(s, uri, text, version), AfterUpdate(s, uri, text, version);
      match r.kind
      case Rejected => uri in s.identities && VersionsAgree(s', uri) == VersionsAgree(s, uri)
      case Unchanged => uri in s.identities && VersionsAgree(s', uri) == VersionsAgree(s, uri)
      case _ => uri in s'.identities
                && (VersionsAgree(s', uri)
                    <==> !(r.kind == ContentChanged && version == 0 && r.previous.documentVersion != 0))
  {
    if uri in s.identities { assert Registered(s, uri); }
  }
}
