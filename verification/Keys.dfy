/** Cache keys of a compilation: the length-prefixed text built by `requestKey` and
    `rootKey`, and the proof that a key identifies a compilation over a whole session. */
module Keys {
  import opened Options
  import opened Decimal
  import opened Sources
  import opened Bytes

  datatype MetaAttribute = MetaAttribute(element: string, name: string, value: string)

  datatype Request = Request(
    roots: seq<string>, autoSearch: bool, warningsAsErrors: bool,
    modelDirectories: seq<string>, externalMetaAttributes: seq<MetaAttribute>)

  // ---------------------------------------------------------------- encoding

  /** size:bytes */
  function Field(s: string): (r: string)
    ensures r != [] && IsDigit(r[0])
  {
    ToText(|s|) + (":" + s)
  }

  function Strings(xs: seq<string>): string {
    if xs == [] then "" else Field(xs[0]) + (";" + Strings(xs[1..]))
  }

  function Attribute(a: MetaAttribute): (r: string)
    ensures r != [] && IsDigit(r[0])
  {
    Field(a.element) + (":" + (Field(a.name) + (":" + (Field(a.value) + ";"))))
  }

  function Attributes(xs: seq<MetaAttribute>): string {
    if xs == [] then "" else Attribute(xs[0]) + Attributes(xs[1..])
  }

  function Flag(b: bool): string {
    if b then "1" else "0"
  }

  function RequestKey(r: Request): string {
    Flag(r.autoSearch) + (":" + (Flag(r.warningsAsErrors) + (":"
    + (Strings(r.roots) + ("|" + (Strings(r.modelDirectories) + ("|"
    + Attributes(r.externalMetaAttributes))))))))
  }

  /** The identity used in keys: the recorded one, one computed from a buffer that has
      none, or the empty identity of an unknown URI. */
  function IdentityOf(s: State, uri: string): SourceIdentity {
    if uri in s.identities then s.identities[uri]
    else if uri in s.sources then
      SourceIdentity(uri, s.sources[uri].version, 0, 0,
                     ContentHash(s.sources[uri].text), |s.sources[uri].text|)
    else SourceIdentity(uri, 0, 0, 0, "", 0)
  }

  function Binding(uri: string, id: SourceIdentity): (r: string)
    ensures r != []
  {
    Field(uri) + (":" + (ToText(id.contentRevision) + (":" + (id.contentHash + (":"
    + (ToText(id.byteLength) + ";"))))))
  }

  function Bindings(s: State, uris: seq<string>): string {
    if uris == [] then "" else Binding(uris[0], IdentityOf(s, uris[0])) + Bindings(s, uris[1..])
  }

  /** The key of a compilation; `fingerprint` is the constant of the running compiler. */
  function RootKey(base: string, uris: seq<string>, s: State, fingerprint: string): string {
    base + ("|fingerprint=" + (fingerprint + (";" + Bindings(s, uris))))
  }

  // ---------------------------------------------------------------- the stream loops

  method AppendStrings(key: string, xs: seq<string>) returns (key': string)
    ensures key' == key + Strings(xs)
  {
    key' := key;
    for i := 0 to |xs|
      invariant key' == key + Strings(xs[..i])
    {
      StringsSnoc(xs, i);
      Regroup(key, Strings(xs[..i]), ToText(|xs[i]|), ":" + xs[i], ";");
      key' := key' + (ToText(|xs[i]|) + (":" + xs[i]) + ";");
    }
    assert xs[..|xs|] == xs;
  }

  method AppendAttributes(key: string, xs: seq<MetaAttribute>) returns (key': string)
    ensures key' == key + Attributes(xs)
  {
    key' := key;
    for i := 0 to |xs|
      invariant key' == key + Attributes(xs[..i])
    {
      AttributesSnoc(xs, i);
      var a := xs[i];
      var entry := (ToText(|a.element|) + (":" + a.element)) + (":" + ((ToText(|a.name|) + (":" + a.name))
                   + (":" + ((ToText(|a.value|) + (":" + a.value)) + ";"))));
      Associate(key, Attributes(xs[..i]), entry);
      key' := key' + entry;
    }
    assert xs[..|xs|] == xs;
  }

  method ComputeRequestKey(r: Request) returns (key: string)
    ensures key == RequestKey(r)
  {
    key := Flag(r.autoSearch) + ":" + Flag(r.warningsAsErrors) + ":";
    key := AppendStrings(key, r.roots);
    key := AppendStrings(key + "|", r.modelDirectories);
    key := AppendAttributes(key + "|", r.externalMetaAttributes);
    RegroupRequest(Flag(r.autoSearch), Flag(r.warningsAsErrors), Strings(r.roots), Strings(r.modelDirectories),
                   Attributes(r.externalMetaAttributes), "");
    assert RequestKey(r) + "" == RequestKey(r);
  }

  method ComputeRootKey(base: string, uris: seq<string>, sources: SourceManager, fingerprint: string)
    returns (key: string)
    ensures key == RootKey(base, uris, sources.Model(), fingerprint)
  {
    var head := base + "|fingerprint=" + fingerprint + ";";
    ghost var state := sources.Model();
    key := head;
    for i := 0 to |uris|
      invariant key == head + Bindings(state, uris[..i])
    {
      BindingsSnoc(state, uris, i);
      var id := ComputeIdentity(sources, uris[i]);
      var entry := (ToText(|uris[i]|) + (":" + uris[i])) + (":" + (ToText(id.contentRevision) + (":"
                   + (id.contentHash + (":" + (ToText(id.byteLength) + ";"))))));
      Associate(head, Bindings(state, uris[..i]), entry);
      key := key + entry;
    }
    assert uris[..|uris|] == uris;
    RegroupRoot(base, "|fingerprint=", fingerprint, ";", Bindings(state, uris));
  }

  method ComputeIdentity(sources: SourceManager, uri: string) returns (id: SourceIdentity)
    ensures id == IdentityOf(sources.Model(), uri)
  {
    if uri in sources.identities { return sources.identities[uri]; }
    if uri !in sources.sources { return SourceIdentity(uri, 0, 0, 0, "", 0); }
    var source := sources.sources[uri];
    var hash := ComputeContentHash(source.text);
    return SourceIdentity(uri, source.version, 0, 0, hash, |source.text|);
  }

  lemma Regroup(a: string, b: string, c: string, d: string, e: string)
    ensures (a + b) + (c + d + e) == a + (b + (c + d) + e)
  {
  }

  lemma RegroupRoot(a: string, b: string, c: string, d: string, e: string)
    ensures (a + b + c + d) + e == a + (b + (c + (d + e)))
  {
  }

  /** The stream order of a request key followed by x, flat and nested. */
  lemma RegroupRequest(a: string, b: string, c: string, d: string, e: string, x: string)
    ensures (a + (":" + (b + (":" + (c + ("|" + (d + ("|" + e)))))))) + x
         == (a + ":" + b + ":") + (c + ("|" + (d + ("|" + (e + x)))))
    ensures (a + ":" + b + ":") + (c + ("|" + (d + ("|" + (e + x)))))
         == ((((a + ":" + b + ":") + c) + "|") + d + "|") + e + x
  {
  }

  lemma {:induction false} StringsSnoc(xs: seq<string>, i: nat)
    requires i < |xs|
    ensures Strings(xs[..i + 1]) == Strings(xs[..i]) + Field(xs[i]) + ";"
  {
    if i > 0 {
      StringsSnoc(xs[1..], i - 1);
      assert xs[..i + 1][1..] == xs[1..][..i] && xs[..i][1..] == xs[1..][..i - 1];
    } else {
      assert xs[..1][1..] == [];
    }
  }

  lemma {:induction false} AttributesSnoc(xs: seq<MetaAttribute>, i: nat)
    requires i < |xs|
    ensures Attributes(xs[..i + 1]) == Attributes(xs[..i]) + Attribute(xs[i])
  {
    if i > 0 {
      AttributesSnoc(xs[1..], i - 1);
      assert xs[..i + 1][1..] == xs[1..][..i] && xs[..i][1..] == xs[1..][..i - 1];
      Associate(Attribute(xs[0]), Attributes(xs[1..][..i - 1]), Attribute(xs[i]));
    } else {
      assert xs[..1][1..] == [];
    }
  }

  lemma {:induction false} BindingsSnoc(s: State, uris: seq<string>, i: nat)
    requires i < |uris|
    ensures Bindings(s, uris[..i + 1]) == Bindings(s, uris[..i]) + Binding(uris[i], IdentityOf(s, uris[i]))
  {
    if i > 0 {
      BindingsSnoc(s, uris[1..], i - 1);
      assert uris[..i + 1][1..] == uris[1..][..i] && uris[..i][1..] == uris[1..][..i - 1];
      Associate(Binding(uris[0], IdentityOf(s, uris[0])), Bindings(s, uris[1..][..i - 1]),
                Binding(uris[i], IdentityOf(s, uris[i])));
    } else {
      assert uris[..1][1..] == [];
    }
  }

  // ---------------------------------------------------------------- unique decoding

  lemma SplitEqualLength(a: string, x: string, b: string, y: string)
    requires a + x == b + y && |a| == |b|
    ensures a == b && x == y
  {
    assert a == (a + x)[..|a|] && b == (b + y)[..|b|];
    assert x == (a + x)[|a|..] && y == (b + y)[|b|..];
  }

  /** A length-prefixed field followed by anything is read back uniquely. */
  lemma FieldUnique(s: string, x: string, t: string, y: string)
    requires Field(s) + x == Field(t) + y
    ensures s == t && x == y
  {
    assert Field(s) + x == ToText(|s|) + (":" + (s + x));
    assert Field(t) + y == ToText(|t|) + (":" + (t + y));
    NumberUnique(|s|, ":" + (s + x), |t|, ":" + (t + y));
    SplitEqualLength(":", s + x, ":", t + y);
    SplitEqualLength(s, x, t, y);
  }

  lemma StringsHead(xs: seq<string>, x: string)
    ensures xs == [] ==> Strings(xs) + x == x
    ensures xs != [] ==> Strings(xs) + x == Field(xs[0]) + (";" + (Strings(xs[1..]) + x))
    ensures xs != [] ==> IsDigit((Strings(xs) + x)[0])
  {
    if xs != [] {
      Associate(Field(xs[0]), ";" + Strings(xs[1..]), x);
      Associate(";", Strings(xs[1..]), x);
    }
  }

  /** A list of fields is delimited by the first character that is not a digit. */
  lemma {:induction false} StringsUnique(xs: seq<string>, x: string, ys: seq<string>, y: string)
    requires x != [] && y != [] && !IsDigit(x[0]) && !IsDigit(y[0])
    requires Strings(xs) + x == Strings(ys) + y
    ensures xs == ys && x == y
  {
    StringsHead(xs, x);
    StringsHead(ys, y);
    if xs != [] && ys != [] {
      FieldUnique(xs[0], ";" + (Strings(xs[1..]) + x), ys[0], ";" + (Strings(ys[1..]) + y));
      SplitEqualLength(";", Strings(xs[1..]) + x, ";", Strings(ys[1..]) + y);
      StringsUnique(xs[1..], x, ys[1..], y);
      assert xs == [xs[0]] + xs[1..] && ys == [ys[0]] + ys[1..];
    }
  }

  lemma AttributeUnique(a: MetaAttribute, x: string, b: MetaAttribute, y: string)
    requires Attribute(a) + x == Attribute(b) + y
    ensures a == b && x == y
  {
    var a3, b3 := ";" + x, ";" + y;
    var a2, b2 := ":" + (Field(a.value) + a3), ":" + (Field(b.value) + b3);
    var a1, b1 := ":" + (Field(a.name) + a2), ":" + (Field(b.name) + b2);
    assert Attribute(a) + x == Field(a.element) + a1;
    assert Attribute(b) + y == Field(b.element) + b1;
    FieldUnique(a.element, a1, b.element, b1);
    SplitEqualLength(":", Field(a.name) + a2, ":", Field(b.name) + b2);
    FieldUnique(a.name, a2, b.name, b2);
    SplitEqualLength(":", Field(a.value) + a3, ":", Field(b.value) + b3);
    FieldUnique(a.value, a3, b.value, b3);
    SplitEqualLength(";", x, ";", y);
  }

  lemma AttributesHead(xs: seq<MetaAttribute>, x: string)
    ensures xs == [] ==> Attributes(xs) + x == x
    ensures xs != [] ==> Attributes(xs) + x == Attribute(xs[0]) + (Attributes(xs[1..]) + x)
    ensures xs != [] ==> IsDigit((Attributes(xs) + x)[0])
  {
    if xs != [] { Associate(Attribute(xs[0]), Attributes(xs[1..]), x); }
  }

  lemma {:induction false} AttributesUnique(xs: seq<MetaAttribute>, x: string, ys: seq<MetaAttribute>, y: string)
    requires x != [] && y != [] && !IsDigit(x[0]) && !IsDigit(y[0])
    requires Attributes(xs) + x == Attributes(ys) + y
    ensures xs == ys && x == y
  {
    AttributesHead(xs, x);
    AttributesHead(ys, y);
    if xs != [] && ys != [] {
      AttributeUnique(xs[0], Attributes(xs[1..]) + x, ys[0], Attributes(ys[1..]) + y);
      AttributesUnique(xs[1..], x, ys[1..], y);
      assert xs == [xs[0]] + xs[1..] && ys == [ys[0]] + ys[1..];
    }
  }

  /** A request key followed by a character that is not a digit determines the request. */
  lemma RequestKeyUnique(r: Request, x: string, q: Request, y: string)
    requires x != [] && y != [] && !IsDigit(x[0]) && !IsDigit(y[0])
    requires RequestKey(r) + x == RequestKey(q) + y
    ensures r == q && x == y
  {
    var r4, q4 := Attributes(r.externalMetaAttributes) + x, Attributes(q.externalMetaAttributes) + y;
    var r3, q3 := Strings(r.modelDirectories) + ("|" + r4), Strings(q.modelDirectories) + ("|" + q4);
    var r2, q2 := Strings(r.roots) + ("|" + r3), Strings(q.roots) + ("|" + q3);
    var r1 := Flag(r.autoSearch) + ":" + Flag(r.warningsAsErrors) + ":";
    var q1 := Flag(q.autoSearch) + ":" + Flag(q.warningsAsErrors) + ":";
    RegroupRequest(Flag(r.autoSearch), Flag(r.warningsAsErrors), Strings(r.roots), Strings(r.modelDirectories),
                   Attributes(r.externalMetaAttributes), x);
    RegroupRequest(Flag(q.autoSearch), Flag(q.warningsAsErrors), Strings(q.roots), Strings(q.modelDirectories),
                   Attributes(q.externalMetaAttributes), y);
    SplitEqualLength(r1, r2, q1, q2);
    assert r1[0] == q1[0] && r1[2] == q1[2];
    StringsUnique(r.roots, "|" + r3, q.roots, "|" + q3);
    SplitEqualLength("|", r3, "|", q3);
    StringsUnique(r.modelDirectories, "|" + r4, q.modelDirectories, "|" + q4);
    SplitEqualLength("|", r4, "|", q4);
    AttributesUnique(r.externalMetaAttributes, x, q.externalMetaAttributes, y);
  }

  /** The key of a request determines it field by field. */
  lemma RequestKeyInjective(r: Request, q: Request)
    requires RequestKey(r) == RequestKey(q)
    ensures r == q
  {
    RequestKeyUnique(r, "|", q, "|");
  }

  /** A hash without ':' is delimited by the first ':'. */
  lemma HashUnique(a: string, x: string, b: string, y: string)
    requires ':' !in a && ':' !in b
    requires a + (":" + x) == b + (":" + y)
    ensures a == b && x == y
  {
    var s := a + (":" + x);
    assert s[|a|] == ':' && s[|b|] == ':';
    assert forall i :: 0 <= i < |a| ==> s[i] == a[i];
    assert forall i :: 0 <= i < |b| ==> s[i] == b[i];
    SplitEqualLength(a, ":" + x, b, ":" + y);
    SplitEqualLength(":", x, ":", y);
  }

  lemma BindingUnique(u: string, id: SourceIdentity, x: string, v: string, jd: SourceIdentity, y: string)
    requires ':' !in id.contentHash && ':' !in jd.contentHash
    requires Binding(u, id) + x == Binding(v, jd) + y
    ensures u == v && id.contentRevision == jd.contentRevision && id.contentHash == jd.contentHash
    ensures id.byteLength == jd.byteLength && x == y
  {
    var a3, b3 := ToText(id.byteLength) + (";" + x), ToText(jd.byteLength) + (";" + y);
    var a2, b2 := id.contentHash + (":" + a3), jd.contentHash + (":" + b3);
    var a1, b1 := ToText(id.contentRevision) + (":" + a2), ToText(jd.contentRevision) + (":" + b2);
    assert Binding(u, id) + x == Field(u) + (":" + a1);
    assert Binding(v, jd) + y == Field(v) + (":" + b1);
    FieldUnique(u, ":" + a1, v, ":" + b1);
    SplitEqualLength(":", a1, ":", b1);
    NumberUnique(id.contentRevision, ":" + a2, jd.contentRevision, ":" + b2);
    SplitEqualLength(":", a2, ":", b2);
    HashUnique(id.contentHash, a3, jd.contentHash, b3);
    NumberUnique(id.byteLength, ";" + x, jd.byteLength, ";" + y);
    SplitEqualLength(";", x, ";", y);
  }

  ghost predicate SameBinding(s: State, t: State, uri: string) {
    && IdentityOf(s, uri).contentRevision == IdentityOf(t, uri).contentRevision
    && IdentityOf(s, uri).contentHash == IdentityOf(t, uri).contentHash
    && IdentityOf(s, uri).byteLength == IdentityOf(t, uri).byteLength
  }

  lemma HashesHaveNoColon(s: State, uri: string)
    requires Valid(s)
    ensures ':' !in IdentityOf(s, uri).contentHash
  {
    if uri in s.identities { assert Registered(s, uri); }
  }

  lemma {:induction false} BindingsUnique(s: State, us: seq<string>, t: State, vs: seq<string>)
    requires Valid(s) && Valid(t)
    requires Bindings(s, us) == Bindings(t, vs)
    ensures us == vs && forall uri :: uri in us ==> SameBinding(s, t, uri)
  {
    if us != [] && vs != [] {
      HashesHaveNoColon(s, us[0]);
      HashesHaveNoColon(t, vs[0]);
      BindingUnique(us[0], IdentityOf(s, us[0]), Bindings(s, us[1..]), vs[0], IdentityOf(t, vs[0]), Bindings(t, vs[1..]));
      BindingsUnique(s, us[1..], t, vs[1..]);
      assert us == [us[0]] + us[1..] && vs == [vs[0]] + vs[1..];
    }
  }

  /** A root key determines the request, the URIs and their bindings. */
  lemma RootKeyUnique(r: Request, us: seq<string>, s: State, q: Request, vs: seq<string>, t: State, fp: string)
    requires Valid(s) && Valid(t)
    requires RootKey(RequestKey(r), us, s, fp) == RootKey(RequestKey(q), vs, t, fp)
    ensures r == q && us == vs && forall uri :: uri in us ==> SameBinding(s, t, uri)
  {
    var x := "|fingerprint=" + (fp + (";" + Bindings(s, us)));
    var y := "|fingerprint=" + (fp + (";" + Bindings(t, vs)));
    RequestKeyUnique(r, x, q, y);
    RegroupRoot("", "|fingerprint=", fp, ";", Bindings(s, us));
    RegroupRoot("", "|fingerprint=", fp, ";", Bindings(t, vs));
    var head := "" + "|fingerprint=" + fp + ";";
    SplitEqualLength(head, Bindings(s, us), head, Bindings(t, vs));
    BindingsUnique(s, us, t, vs);
  }

  lemma {:induction false} BindingsAgree(s: State, t: State, uris: seq<string>)
    requires forall uri :: uri in uris ==> SameBinding(s, t, uri)
    ensures Bindings(s, uris) == Bindings(t, uris)
  {
    if uris != [] {
      assert SameBinding(s, t, uris[0]);
      BindingsAgree(s, t, uris[1..]);
    }
  }

  // ---------------------------------------------------------------- whole sessions

  /** Revision under which a URI enters a key; 0 for an unregistered URI. */
  function RevisionOf(s: State, uri: string): nat {
    if uri in s.identities then s.identities[uri].contentRevision else 0
  }

  /** The bytes bound to a URI, if any. */
  function BytesOf(s: State, uri: string): Option<string> {
    if uri in s.sources then Some(s.sources[uri].text) else None
  }

  /** At two moments of one session, equal revisions mean equal key entries and bytes. */
  lemma RevisionDeterminesBinding(ops: seq<Op>, i: nat, j: nat, uri: string)
    requires i <= j <= |ops|
    requires RevisionOf(Run(Initial, ops[..i]), uri) == RevisionOf(Run(Initial, ops[..j]), uri)
    ensures SameBinding(Run(Initial, ops[..i]), Run(Initial, ops[..j]), uri)
    ensures BytesOf(Run(Initial, ops[..i]), uri) == BytesOf(Run(Initial, ops[..j]), uri)
  {
    var s, t := Run(Initial, ops[..i]), Run(Initial, ops[..j]);
    RunValid(ops[..i]);
    RunValid(ops[..j]);
    assert uri in s.identities ==> Registered(s, uri);
    assert uri in t.identities ==> Registered(t, uri);
    if uri in s.identities {
      RevisionDeterminesBytes(ops, i, j, uri);
    }
  }

  /** Keys at two moments of a session are the same string exactly when the requests and
      the URI lists are equal and every listed URI still has the revision it had. */
  lemma KeyEquality(ops: seq<Op>, i: nat, j: nat, r: Request, us: seq<string>, q: Request, vs: seq<string>, fp: string)
    requires i <= j <= |ops|
    ensures RootKey(RequestKey(r), us, Run(Initial, ops[..i]), fp) == RootKey(RequestKey(q), vs, Run(Initial, ops[..j]), fp)
       <==> r == q && us == vs && forall uri :: uri in us ==>
              RevisionOf(Run(Initial, ops[..i]), uri) == RevisionOf(Run(Initial, ops[..j]), uri)
  {
    var s, t := Run(Initial, ops[..i]), Run(Initial, ops[..j]);
    RunValid(ops[..i]);
    RunValid(ops[..j]);
    if RootKey(RequestKey(r), us, s, fp) == RootKey(RequestKey(q), vs, t, fp) {
      RootKeyUnique(r, us, s, q, vs, t, fp);
      forall uri | uri in us ensures RevisionOf(s, uri) == RevisionOf(t, uri) {
        assert SameBinding(s, t, uri);
      }
    } else if r == q && us == vs && forall uri :: uri in us ==> RevisionOf(s, uri) == RevisionOf(t, uri) {
      forall uri | uri in us ensures SameBinding(s, t, uri) {
        RevisionDeterminesBinding(ops, i, j, uri);
      }
      BindingsAgree(s, t, us);
    }
  }

  /** Key soundness: equal keys at two moments of any session stand for the same request
      over the same URIs with identical bytes, each URI present at both moments or at neither. */
  lemma KeySoundness(ops: seq<Op>, i: nat, j: nat, r: Request, us: seq<string>, q: Request, vs: seq<string>, fp: string)
    requires i <= j <= |ops|
    requires RootKey(RequestKey(r), us, Run(Initial, ops[..i]), fp) == RootKey(RequestKey(q), vs, Run(Initial, ops[..j]), fp)
    ensures r == q && us == vs
    ensures forall uri :: uri in us ==> BytesOf(Run(Initial, ops[..i]), uri) == BytesOf(Run(Initial, ops[..j]), uri)
  {
    KeyEquality(ops, i, j, r, us, q, vs, fp);
    forall uri | uri in us
      ensures BytesOf(Run(Initial, ops[..i]), uri) == BytesOf(Run(Initial, ops[..j]), uri)
    {
      RevisionDeterminesBinding(ops, i, j, uri);
    }
  }

  /** The converse of soundness fails: identical bytes do not give an equal key when the
      source was removed and registered again in between. */
  lemma ReintroductionChangesKey(ops: seq<Op>, uri: string, text: string, version: nat, r: Request, fp: string)
    requires !InvalidUri(uri) && BytesOf(Run(Initial, ops), uri) == Some(text)
    ensures
      var session := ops + [Op.Remove(uri), Op.Update(uri, text, version)];
      && BytesOf(Run(Initial, session), uri) == Some(text)
      && RootKey(RequestKey(r), [uri], Run(Initial, ops), fp) != RootKey(RequestKey(r), [uri], Run(Initial, session), fp)
  {
    hide ContentHash, InvalidUri, RootKey, RequestKey;
    var session := ops + [Op.Remove(uri), Op.Update(uri, text, version)];
    RunValid(ops);
    var s := Run(Initial, ops);
    assert Registered(s, uri);
    assert session[..|session| - 1] == ops + [Op.Remove(uri)];
    assert session[..|session| - 1][..|ops|] == ops;
    assert Run(Initial, session) == AfterUpdate(AfterRemove(s, uri), uri, text, version);
    assert session[..|ops|] == ops && session[..|session|] == session;
    assert uri in [uri];
    KeyEquality(session, |ops|, |session|, r, [uri], r, [uri], fp);
  }
}
