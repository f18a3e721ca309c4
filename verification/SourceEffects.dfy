/** What an update and a removal do, stated over the state before and after them, and the whole
    session against a plain table of texts and versions. */
module SourceEffects {
  import opened Sources

  /** Everything about other URIs is as before. */
  ghost predicate OthersUntouched(s: State, s': State, uri: string) {
    forall u :: u != uri ==>
      && (u in s'.sources <==> u in s.sources) && (u in s.sources ==> s'.sources[u] == s.sources[u])
      && (u in s'.identities <==> u in s.identities) && (u in s.identities ==> s'.identities[u] == s.identities[u])
      && (u in s'.removed <==> u in s.removed) && (u in s.removed ==> s'.removed[u] == s.removed[u])
  }

  predicate Acceptable(s: State, uri: string, version: nat) {
    uri != "" && '\0' !in uri && (uri in s.identities ==> version == 0 || version >= s.identities[uri].documentVersion)
  }

  /** The bytes are not those already registered. */
  predicate Differs(s: State, uri: string, text: string) {
    uri in s.sources ==> s.sources[uri].text != text
  }

  /** An update is accepted exactly when the URI is usable and the version is not older than the
      known one; then the text is stored, and revision and invalidations tell exactly whether the
      bytes differ. */
  lemma UpdateEffect(s: State, uri: string, text: string, version: nat)
    requires Valid(s)
    ensures
      var r, s' := UpdateOutcome(s, uri, text, version), AfterUpdate(s, uri, text, version);
      && (r.accepted <==> Acceptable(s, uri, version))
      && (!r.accepted ==> s' == s && r.kind == Rejected)
      && (r.accepted ==> uri in s'.sources && uri in s'.identities && uri !in s'.removed && s'.sources[uri].text == text)
      && (r.accepted ==> r.current == s'.identities[uri])
  {
    hide ContentHash;
    if uri in s.identities { assert Registered(s, uri); }
  }

  lemma UpdateLeavesOthers(s: State, uri: string, text: string, version: nat)
    requires Valid(s)
    ensures OthersUntouched(s, AfterUpdate(s, uri, text, version), uri)
  {
    var s' := AfterUpdate(s, uri, text, version);
    AfterUpdateShape(s, uri, text, version);
    hide OthersUntouched, AfterUpdate, Valid;
    if s' == s { UntouchedSame(s, uri); }
    else { UntouchedRebound(s, s', uri); }
  }

  /** At most the one URI is bound anew. */
  lemma AfterUpdateShape(s: State, uri: string, text: string, version: nat)
    requires Valid(s)
    ensures
      var s' := AfterUpdate(s, uri, text, version);
      s' == s || (
        && uri in s'.sources && uri in s'.identities
        && s'.sources == s.sources[uri := s'.sources[uri]] && s'.identities == s.identities[uri := s'.identities[uri]]
        && s'.removed == s.removed - {uri})
  {
    hide ContentHash, InvalidUri;
    if uri in s.identities { assert uri !in s.removed; assert s.removed - {uri} == s.removed; }
  }

  lemma UntouchedSame(s: State, uri: string)
    ensures OthersUntouched(s, s, uri)
  {
  }

  lemma UntouchedRebound(s: State, s': State, uri: string)
    requires uri in s'.sources && uri in s'.identities
    requires s'.sources == s.sources[uri := s'.sources[uri]] && s'.identities == s.identities[uri := s'.identities[uri]]
    requires s'.removed == s.removed - {uri}
    ensures OthersUntouched(s, s', uri)
  {
  }

  /** What is reported about the identity before the update. */
  lemma UpdateReportsPrevious(s: State, uri: string, text: string, version: nat)
    requires Valid(s)
    ensures
      var r := UpdateOutcome(s, uri, text, version);
      && (uri in s.identities && !InvalidUri(uri) ==> r.previous == s.identities[uri])
      && (r.kind == Reintroduced <==> r.accepted && uri in s.removed)
      && (r.kind == Reintroduced ==> r.previous == s.removed[uri])
      && (r.kind == Added <==> r.accepted && uri !in s.removed && uri !in s.identities)
  {
    hide ContentHash;
    if uri in s.identities { assert Registered(s, uri); }
  }

  /** Revision, generation, versions and invalidations of an accepted update. */
  lemma UpdateRevises(s: State, uri: string, text: string, version: nat)
    requires Valid(s) && Acceptable(s, uri, version)
    ensures
      var r, s' := UpdateOutcome(s, uri, text, version), AfterUpdate(s, uri, text, version);
      var known := uri in s.identities;
      && uri in s'.identities
      && s'.identities[uri].contentRevision
           == (if Differs(s, uri, text) then s.nextContentRevision + 1 else s.identities[uri].contentRevision)
      && s'.nextContentRevision == s.nextContentRevision + (if Differs(s, uri, text) then 1 else 0)
      && s'.generation == s.generation + (if Differs(s, uri, text) then 1 else 0)
      && s'.identities[uri].documentVersion == (if version == 0 && known then s.identities[uri].documentVersion else version)
      && s'.identities[uri].contentHash == ContentHash(text) && s'.identities[uri].byteLength == |text|
      && (r.analysesInvalidated <==> Differs(s, uri, text))
      && (r.parserInvalidated <==> known && Differs(s, uri, text))
      && (r.kind == ContentChanged <==> known && Differs(s, uri, text))
      && (r.kind == VersionOnly <==> !Differs(s, uri, text) && version != 0 && version != s.identities[uri].documentVersion)
      && (r.kind == Unchanged <==> !Differs(s, uri, text) && (version == 0 || version == s.identities[uri].documentVersion))
  {
    hide ContentHash;
    if uri in s.identities { assert Registered(s, uri); }
  }

  /** A removal takes away exactly this URI and remembers its identity in a new generation. */
  lemma RemoveEffect(s: State, uri: string)
    requires Valid(s)
    ensures
      var s' := AfterRemove(s, uri);
      && uri !in s'.sources && uri !in s'.identities
      && OthersUntouched(s, s', uri)
      && s'.nextContentRevision == s.nextContentRevision
      && (uri !in s.sources ==> s' == s)
      && (uri in s.sources ==> s'.generation == s.generation + 1 && uri in s'.removed)
      && (uri in s.sources ==> s'.removed[uri] == s.identities[uri].(sourceGeneration := s'.generation))
  {
  }

  // ---------------------------------------------------------------- the whole session

  datatype Document = Document(text: string, version: nat)

  type Table = map<string, Document>

  /** A table of documents in which the last acceptable text wins. */
  function TableStep(t: Table, op: Op): Table {
    match op
    case Update(uri, text, version) =>
      if uri == "" || '\0' in uri || (uri in t && version != 0 && version < t[uri].version) then t
      else t[uri := Document(text, if version == 0 && uri in t then t[uri].version else version)]
    case Remove(uri) => t - {uri}
  }

  function TableRun(ops: seq<Op>): Table {
    if ops == [] then map[] else TableStep(TableRun(ops[..|ops| - 1]), ops[|ops| - 1])
  }

  ghost function Visible(s: State): Table
    requires s.sources.Keys == s.identities.Keys
  {
    map uri | uri in s.sources :: Document(s.sources[uri].text, s.identities[uri].documentVersion)
  }

  lemma VisibleRebind(s: State, s': State, uri: string)
    requires s.sources.Keys == s.identities.Keys && s'.sources.Keys == s'.identities.Keys
    requires OthersUntouched(s, s', uri)
    ensures Visible(s') ==
      if uri in s'.sources then Visible(s)[uri := Document(s'.sources[uri].text, s'.identities[uri].documentVersion)]
      else Visible(s) - {uri}
  {
    var t := Visible(s');
    forall u | u != uri ensures u in t <==> u in Visible(s) {}
    forall u | u != uri && u in t ensures t[u] == Visible(s)[u] {}
  }

  lemma VisibleUpdate(s: State, uri: string, text: string, version: nat)
    requires Valid(s)
    ensures Visible(AfterUpdate(s, uri, text, version)) == TableStep(Visible(s), Op.Update(uri, text, version))
  {
    hide UpdateOutcome, AfterUpdate, ContentHash, OthersUntouched;
    var s' := AfterUpdate(s, uri, text, version);
    UpdateEffect(s, uri, text, version);
    if Acceptable(s, uri, version) {
      UpdateRevises(s, uri, text, version);
      UpdateLeavesOthers(s, uri, text, version);
      VisibleRebind(s, s', uri);
    }
  }

  lemma VisibleStep(s: State, op: Op)
    requires Valid(s)
    ensures Visible(Step(s, op)) == TableStep(Visible(s), op)
  {
    match op
    case Update(uri, text, version) =>
      hide AfterUpdate, Visible, TableStep, Valid;
      VisibleUpdate(s, uri, text, version);
    case Remove(uri) =>
      RemoveEffect(s, uri);
      hide AfterRemove, Visible, Valid, OthersUntouched;
      VisibleRebind(s, AfterRemove(s, uri), uri);
  }

  /** After any session the manager shows the texts and versions of the plain table. */
  lemma {:induction false} SessionRefinesTable(ops: seq<Op>)
    ensures Visible(Run(Initial, ops)) == TableRun(ops)
  {
    if ops != [] {
      hide ContentHash, InvalidUri, Visible, Step, TableStep;
      var init := ops[..|ops| - 1];
      SessionRefinesTable(init);
      RunValid(init);
      VisibleStep(Run(Initial, init), ops[|ops| - 1]);
    }
  }
}
