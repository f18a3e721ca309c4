/** Repositories linked by their site files: parents, subsidiaries and what they lead to. What a
    repository says (index, site links, link resolution) is given as functions. */
module SiteLinks {
  import opened Options

  /** The two lists of links of an `ilisite` file, as written there. */
  datatype Site = Site(parentSites: seq<string>, subsidiarySites: seq<string>)

  /** What an index says about a model, as far as selection needs it. */
  datatype Model = Model(name: string, schemaLanguage: string, version: string)

  datatype Network = Network(
    normalize: string -> Option<string>,
    resolve: (string, string) -> Option<string>,
    site: string -> Option<Site>,
    index: string -> Option<seq<Model>>)

  // ---------------------------------------------------------------- links

  /** The links that resolve, in order. */
  function Resolved(net: Network, repository: string, values: seq<string>): seq<string> {
    if values == [] then []
    else
      var last := values[|values| - 1];
      var rest := Resolved(net, repository, values[..|values| - 1]);
      match net.resolve(repository, last)
      case Some(uri) => rest + [uri]
      case None => rest
  }

  function ParentsOf(net: Network, r: string): seq<string> {
    match net.site(r)
    case Some(site) => Resolved(net, r, site.parentSites)
    case None => []
  }

  function SubsOf(net: Network, r: string): seq<string> {
    match net.site(r)
    case Some(site) => Resolved(net, r, site.subsidiarySites)
    case None => []
  }

  function SeedParents(net: Network, seeds: seq<string>): seq<string> {
    if seeds == [] then [] else SeedParents(net, seeds[..|seeds| - 1]) + ParentsOf(net, seeds[|seeds| - 1])
  }

  function SeedSubs(net: Network, seeds: seq<string>): seq<string> {
    if seeds == [] then [] else SeedSubs(net, seeds[..|seeds| - 1]) + SubsOf(net, seeds[|seeds| - 1])
  }

  ghost predicate LinksOfSeeds(net: Network, seeds: seq<string>, parents: seq<string>, subs: seq<string>) {
    && (forall r :: r in seeds ==> All(ParentsOf(net, r), Members(parents)) && All(SubsOf(net, r), Members(subs)))
    && (forall q :: q in parents ==> exists r :: r in seeds && q in ParentsOf(net, r))
    && (forall q :: q in subs ==> exists r :: r in seeds && q in SubsOf(net, r))
  }

  lemma LinksAppend(net: Network, rest: seq<string>, r: string, parents: seq<string>, subs: seq<string>)
    requires LinksOfSeeds(net, rest, parents, subs)
    ensures LinksOfSeeds(net, rest + [r], parents + ParentsOf(net, r), subs + SubsOf(net, r))
  {
    hide ParentsOf, SubsOf;
    var seeds, ps, ss := rest + [r], parents + ParentsOf(net, r), subs + SubsOf(net, r);
    assert forall u :: u in rest ==> u in seeds;
    assert r in seeds;
    forall q | q in ps ensures exists u :: u in seeds && q in ParentsOf(net, u) {
      if q in parents { var u :| u in rest && q in ParentsOf(net, u); assert u in seeds; }
    }
    forall q | q in ss ensures exists u :: u in seeds && q in SubsOf(net, u) {
      if q in subs { var u :| u in rest && q in SubsOf(net, u); assert u in seeds; }
    }
  }

  lemma {:induction false} SeedLinks(net: Network, seeds: seq<string>)
    ensures LinksOfSeeds(net, seeds, SeedParents(net, seeds), SeedSubs(net, seeds))
    decreases |seeds|
  {
    if seeds != [] {
      hide ParentsOf, SubsOf, LinksOfSeeds;
      var rest, r := seeds[..|seeds| - 1], seeds[|seeds| - 1];
      SeedLinks(net, rest);
      assert seeds == rest + [r];
      LinksAppend(net, rest, r, SeedParents(net, rest), SeedSubs(net, rest));
    }
  }

  /** `#links`: appends the links that resolve to a queue. */
  method Links(net: Network, repository: string, values: seq<string>, queue: seq<string>) returns (more: seq<string>)
    ensures more == queue + Resolved(net, repository, values)
  {
    more := queue;
    for i := 0 to |values|
      invariant more == queue + Resolved(net, repository, values[..i])
    {
      assert values[..i + 1][..i] == values[..i];
      var uri := net.resolve(repository, values[i]);
      if uri.Some? { more := more + [uri.value]; }
    }
    assert values[..|values|] == values;
  }

  ghost predicate Distinct(s: seq<string>) {
    forall i, j :: 0 <= i < j < |s| ==> s[i] != s[j]
  }

  /** The seeds that normalise, each where it first occurs. */
  function Normalized(net: Network, seeds: seq<string>): seq<string> {
    if seeds == [] then []
    else
      var rest := Normalized(net, seeds[..|seeds| - 1]);
      match net.normalize(seeds[|seeds| - 1])
      case Some(uri) => if uri in rest then rest else rest + [uri]
      case None => rest
  }

  /** `#seeds` */
  method NormalizedSeeds(net: Network, seeds: seq<string>) returns (result: seq<string>)
    ensures result == Normalized(net, seeds) && Distinct(result)
    ensures forall r :: r in result <==> exists i :: 0 <= i < |seeds| && net.normalize(seeds[i]) == Some(r)
  {
    result := [];
    for i := 0 to |seeds|
      invariant result == Normalized(net, seeds[..i]) && Distinct(result)
      invariant forall r :: r in result <==> exists k :: 0 <= k < i && net.normalize(seeds[k]) == Some(r)
    {
      assert seeds[..i + 1][..i] == seeds[..i];
      var normalized := net.normalize(seeds[i]);
      if normalized.Some? && normalized.value !in result { result := result + [normalized.value]; }
    }
    assert seeds[..|seeds|] == seeds;
  }

  ghost predicate All(s: seq<string>, v: iset<string>) {
    forall r :: r in s ==> r in v
  }

  /** The seeds, closed under parent links, with the subsidiaries of the expanded ones. */
  ghost predicate Covers(net: Network, seeds: seq<string>, expanded: iset<string>, v: iset<string>) {
    && All(seeds, v)
    && (forall r :: r in v ==> All(ParentsOf(net, r), v))
    && (forall r :: r in expanded ==> All(SubsOf(net, r), v))
  }

  /** The seeds and all their subsidiaries are expanded; that and all parents are covered. */
  ghost predicate Closed(net: Network, seeds: seq<string>, e: iset<string>, v: iset<string>) {
    && All(seeds, e) && e <= v
    && (forall r :: r in e ==> All(SubsOf(net, r), e))
    && (forall r :: r in v ==> All(ParentsOf(net, r), v))
  }

  ghost function Members(s: seq<string>): iset<string> {
    iset r | r in s
  }

  function AllModels(net: Network, visited: seq<string>): seq<Model> {
    if visited == [] then []
    else
      var rest := AllModels(net, visited[..|visited| - 1]);
      match net.index(visited[|visited| - 1])
      case Some(models) => rest + models
      case None => rest
  }

  // ---------------------------------------------------------------- order

  /** Links are resolved one by one, in the order in which they are written. */
  lemma {:induction false} ResolvedInOrder(net: Network, repository: string, a: seq<string>, b: seq<string>)
    ensures Resolved(net, repository, a + b) == Resolved(net, repository, a) + Resolved(net, repository, b)
    ensures forall link :: Resolved(net, repository, [link]) == (match net.resolve(repository, link) case Some(uri) => [uri] case None => [])
    decreases |b|
  {
    forall link ensures Resolved(net, repository, [link]) ==
      (match net.resolve(repository, link) case Some(uri) => [uri] case None => [])
    {
      assert [link][..0] == [];
    }
    if b == [] { assert a + b == a; }
    else {
      assert (a + b)[..|a + b| - 1] == a + b[..|b| - 1];
      ResolvedInOrder(net, repository, a, b[..|b| - 1]);
    }
  }

  /** Parents come from the parent sites of the site file, subsidiaries from the others. */
  lemma LinksOf(net: Network, r: string, site: Site)
    requires net.site(r) == Some(site)
    ensures forall uri :: uri in ParentsOf(net, r) <==> exists i :: 0 <= i < |site.parentSites| && net.resolve(r, site.parentSites[i]) == Some(uri)
    ensures forall uri :: uri in SubsOf(net, r) <==> exists i :: 0 <= i < |site.subsidiarySites| && net.resolve(r, site.subsidiarySites[i]) == Some(uri)
  {
    ResolvedMembers(net, r, site.parentSites);
    ResolvedMembers(net, r, site.subsidiarySites);
    hide Resolved;
  }

  lemma {:induction false} ResolvedMembers(net: Network, r: string, values: seq<string>)
    ensures forall uri :: uri in Resolved(net, r, values) <==> exists i :: 0 <= i < |values| && net.resolve(r, values[i]) == Some(uri)
    decreases |values|
  {
    if values != [] {
      var n := |values| - 1;
      ResolvedMembers(net, r, values[..n]);
      forall uri ensures uri in Resolved(net, r, values) <==> exists i :: 0 <= i < |values| && net.resolve(r, values[i]) == Some(uri) {
        if i :| 0 <= i < |values| && net.resolve(r, values[i]) == Some(uri) {
          if i < n { assert values[..n][i] == values[i]; }
        }
        if uri in Resolved(net, r, values[..n]) {
          var i :| 0 <= i < n && net.resolve(r, values[..n][i]) == Some(uri);
          assert values[i] == values[..n][i];
        }
        if net.resolve(r, values[n]) == Some(uri) { assert values[n] == values[|values| - 1]; }
      }
    }
  }

  /** Each seed stands where its first spelling stands among the given ones. */
  lemma {:induction false} SeedsInOrder(net: Network, given: seq<string>) returns (at: seq<nat>)
    ensures |at| == |Normalized(net, given)|
    ensures forall k :: 0 <= k < |at| ==> at[k] < |given| && net.normalize(given[at[k]]) == Some(Normalized(net, given)[k])
    ensures forall j, k :: 0 <= j < k < |at| ==> at[j] < at[k]
    ensures forall uri, i :: 0 <= i < |given| && net.normalize(given[i]) == Some(uri) ==> uri in Normalized(net, given)
    ensures forall k, i :: 0 <= k < |at| && 0 <= i < at[k] ==> net.normalize(given[i]) != Some(Normalized(net, given)[k])
    decreases |given|
  {
    if given == [] {
      at := [];
    } else {
      var n := |given| - 1;
      var init := given[..n];
      at := SeedsInOrder(net, init);
      assert forall i :: 0 <= i < n ==> given[i] == init[i];
      var last := net.normalize(given[n]);
      if last.Some? && last.value !in Normalized(net, init) { at := at + [n]; }
    }
  }

  /** The models of a listing are those of the visited indexes, one after the other. */
  lemma {:induction false} ModelsInOrder(net: Network, a: seq<string>, b: seq<string>)
    ensures AllModels(net, a + b) == AllModels(net, a) + AllModels(net, b)
    ensures forall r :: AllModels(net, [r]) == (match net.index(r) case Some(models) => models case None => [])
    decreases |b|
  {
    forall r ensures AllModels(net, [r]) == (match net.index(r) case Some(models) => models case None => []) {
      assert [r][..0] == [];
    }
    if b == [] { assert a + b == a; }
    else {
      assert (a + b)[..|a + b| - 1] == a + b[..|b| - 1];
      ModelsInOrder(net, a, b[..|b| - 1]);
    }
  }

  // ---------------------------------------------------------------- the two queues

  /** What a search has still to look at. */
  datatype Queues = Queues(parents: seq<string>, subsidiaries: seq<string>)

  const Empty := Queues([], [])

  function SeedQueues(net: Network, seeds: seq<string>): Queues {
    Queues(SeedParents(net, seeds), SeedSubs(net, seeds))
  }

  /** One round of a search without a hit: parents before subsidiaries, first in first out,
      and the links of whatever is taken are followed, visited or not. */
  function Round(net: Network, q: Queues): Queues {
    if q.parents != [] then Queues(q.parents[1..] + ParentsOf(net, q.parents[0]), q.subsidiaries)
    else if q.subsidiaries != [] then
      Queues(ParentsOf(net, q.subsidiaries[0]), q.subsidiaries[1..] + SubsOf(net, q.subsidiaries[0]))
    else q
  }

  function Rounds(net: Network, q: Queues, n: nat): Queues {
    if n == 0 then q else Round(net, Rounds(net, q, n - 1))
  }

  lemma RoundsNext(net: Network, q: Queues, n: nat)
    ensures Rounds(net, q, n + 1) == Round(net, Rounds(net, q, n))
  {
  }

  lemma {:induction false} RoundsFirst(net: Network, q: Queues, n: nat)
    ensures Rounds(net, q, n + 1) == Rounds(net, Round(net, q), n)
  {
    if n > 0 { RoundsFirst(net, q, n - 1); }
  }

  /** Once the queues are empty they stay so. */
  lemma {:induction false} EmptyStays(net: Network, q: Queues, n: nat, m: nat)
    requires Rounds(net, q, n) == Empty && n <= m
    ensures Rounds(net, q, m) == Empty
    decreases m - n
  {
    if n < m { EmptyStays(net, q, n + 1, m); }
  }
}
