/** The walk over linked model repositories: listing every model, and finding one. */
module SiteWalk {
  import opened Options
  import opened SiteLinks
  import SiteTermination

  // ---------------------------------------------------------------- the state of a listing

  ghost predicate IsParent(net: Network, from: iset<string>, q: string) {
    exists u :: u in from && q in ParentsOf(net, u)
  }

  /** Nothing is in hand that the seeds do not lead to. */
  ghost predicate Justified(net: Network, seeds: seq<string>, expanded: iset<string>, visited: seq<string>, queued: seq<string>) {
    forall v :: Covers(net, seeds, expanded, v) ==> All(visited, v) && All(queued, v)
  }

  /** Every link of what was expanded is visited or queued. */
  ghost predicate Pursued(net: Network, expanded: iset<string>, visited: seq<string>, parents: seq<string>, subsidiaries: seq<string>) {
    && (forall r :: r in visited ==> All(ParentsOf(net, r), Members(visited + parents)))
    && (forall r :: r in expanded ==> r in visited && All(SubsOf(net, r), Members(visited + subsidiaries)))
  }

  /** What is not expanded was reached over a parent link. */
  ghost predicate ParentBorn(net: Network, seeds: seq<string>, expanded: iset<string>, visited: seq<string>, parents: seq<string>) {
    && (forall q :: q in parents ==> IsParent(net, Members(visited + seeds), q))
    && (forall r :: r in visited ==> r in expanded || IsParent(net, Members(visited + seeds), r))
  }

  lemma JustifiedGrows(net: Network, seeds: seq<string>, expanded: iset<string>, visited: seq<string>, queued: seq<string>,
                          expanded': iset<string>, visited': seq<string>, queued': seq<string>)
    requires Justified(net, seeds, expanded, visited, queued) && expanded <= expanded'
    requires forall r :: r in visited' ==> r in visited + queued
    requires forall q :: q in queued' ==> || q in queued
                                          || (exists r :: r in visited + queued && q in ParentsOf(net, r))
                                          || (exists r :: r in expanded' && q in SubsOf(net, r))
    ensures Justified(net, seeds, expanded', visited', queued')
  {
    forall v | Covers(net, seeds, expanded', v) ensures All(visited', v) && All(queued', v) {
      assert Covers(net, seeds, expanded, v);
    }
  }

  lemma IsParentGrows(net: Network, from: iset<string>, from': iset<string>)
    requires from <= from'
    ensures forall q :: IsParent(net, from, q) ==> IsParent(net, from', q)
  {
  }

  /** Taking a fresh parent, or subsidiary when `asSub`, from its queue and following its links. */
  lemma FreshStep(net: Network, seeds: seq<string>, expanded: iset<string>, visited: seq<string>, parents: seq<string>, subs: seq<string>,
                     r: string, asSub: bool)
    requires ParentBorn(net, seeds, expanded, visited, parents)
    requires if asSub then subs != [] && subs[0] == r else parents != [] && parents[0] == r
    ensures
      var expanded' := if asSub then expanded + iset{r} else expanded;
      var visited' := visited + [r];
      var parents' := (if asSub then parents else parents[1..]) + ParentsOf(net, r);
      var subs' := if asSub then subs[1..] + SubsOf(net, r) else subs;
      && (Pursued(net, expanded, visited, parents, subs) ==> Pursued(net, expanded', visited', parents', subs'))
      && ParentBorn(net, seeds, expanded', visited', parents')
  {
    var expanded' := if asSub then expanded + iset{r} else expanded;
    var visited' := visited + [r];
    var parents' := (if asSub then parents else parents[1..]) + ParentsOf(net, r);
    var subs' := if asSub then subs[1..] + SubsOf(net, r) else subs;
    assert Members(visited + seeds) <= Members(visited' + seeds);
    IsParentGrows(net, Members(visited + seeds), Members(visited' + seeds));
    assert r in visited';
    assert forall q :: q in ParentsOf(net, r) ==> IsParent(net, Members(visited' + seeds), q);
    if Pursued(net, expanded, visited, parents, subs) {
      assert Members(visited + parents) <= Members(visited' + parents');
      assert Members(visited + subs) <= Members(visited' + subs');
      assert forall u :: u in visited' ==> All(ParentsOf(net, u), Members(visited' + parents'));
    }
  }

  /** Dropping a queue entry that is visited already. */
  lemma StaleStep(net: Network, seeds: seq<string>, expanded: iset<string>, visited: seq<string>, parents: seq<string>, subs: seq<string>,
                     r: string, asSub: bool)
    requires ParentBorn(net, seeds, expanded, visited, parents)
    requires if asSub then subs != [] && subs[0] == r else parents != [] && parents[0] == r
    ensures
      var parents' := if asSub then parents else parents[1..];
      var subs' := if asSub then subs[1..] else subs;
      && (Pursued(net, expanded, visited, parents, subs) && r in visited ==> Pursued(net, expanded, visited, parents', subs'))
      && ParentBorn(net, seeds, expanded, visited, parents')
  {
    if asSub {
      assert r in visited ==> Members(visited + subs) == Members(visited + subs[1..]);
    } else {
      assert r in visited ==> Members(visited + parents) == Members(visited + parents[1..]);
    }
  }

  /** Whatever is expanded, or queued to be, hangs on the seeds by subsidiary links alone. */
  ghost predicate SubBorn(net: Network, seeds: seq<string>, expanded: iset<string>, subs: seq<string>) {
    forall e, v :: Closed(net, seeds, e, v) ==> expanded <= e && All(subs, e)
  }

  lemma SubBornStep(net: Network, seeds: seq<string>, expanded: iset<string>, subs: seq<string>)
    requires SubBorn(net, seeds, expanded, subs) && subs != []
    ensures SubBorn(net, seeds, expanded, subs[1..])
    ensures SubBorn(net, seeds, expanded + iset{subs[0]}, subs[1..] + SubsOf(net, subs[0]))
  {
  }

  /** The state in which the queues hold the links of the seeds. */
  lemma SeedState(net: Network, seeds: seq<string>, visited: seq<string>, parents: seq<string>, subs: seq<string>)
    requires forall r :: r in visited ==> r in seeds
    requires LinksOfSeeds(net, seeds, parents, subs)
    ensures Justified(net, seeds, Members(seeds), visited, parents + subs)
    ensures ParentBorn(net, seeds, Members(seeds), visited, parents)
    ensures SubBorn(net, seeds, Members(seeds), subs)
    ensures visited == seeds ==> Pursued(net, Members(seeds), visited, parents, subs)
  {
    forall q | q in parents ensures IsParent(net, Members(visited + seeds), q) {
      var r :| r in seeds && q in ParentsOf(net, r);
      assert r in Members(visited + seeds);
    }
    forall v | Covers(net, seeds, Members(seeds), v) ensures All(visited, v) && All(parents + subs, v) {
      assert forall r :: r in seeds ==> r in v && All(SubsOf(net, r), v);
    }
    assert Members(parents) <= Members(visited + parents) && Members(subs) <= Members(visited + subs);
  }

  // ---------------------------------------------------------------- the state of a search

  /** `Unfinished` when the rounds considered did not suffice. */
  datatype Outcome = Found(model: Model) | Absent | Unfinished

  type Selector = seq<Model> -> Option<Model>

  /** The version selected in the index of one repository. */
  function Hit(net: Network, select: Selector, r: string): Option<Model> {
    match net.index(r)
    case Some(models) => select(models)
    case None => None
  }

  ghost predicate NoHit(net: Network, select: Selector, visited: seq<string>) {
    forall r :: r in visited ==> Hit(net, select, r).None?
  }

  /** The hit comes from the last repository visited, and no earlier one has any. */
  ghost predicate FirstHit(net: Network, select: Selector, visited: seq<string>, hit: Option<Model>) {
    && visited != [] && hit.Some? && Hit(net, select, visited[|visited| - 1]) == hit
    && NoHit(net, select, visited[..|visited| - 1])
  }

  /** What is visited or queued lies in every region closed under the links. */
  ghost predicate Within(net: Network, seeds: seq<string>, expanded: iset<string>, visited: seq<string>, parents: seq<string>, subs: seq<string>) {
    forall e, v :: Closed(net, seeds, e, v) ==> All(visited, v) && All(parents, v) && expanded <= e && All(subs, e)
  }

  /** Every link of what was reached leads to something visited or queued. */
  ghost predicate Chased(net: Network, expanded: iset<string>, visited: seq<string>, parents: seq<string>, subs: seq<string>) {
    && (forall r :: r in visited ==> All(ParentsOf(net, r), Members(visited + parents)))
    && (forall r :: r in expanded ==> r in visited && All(SubsOf(net, r), expanded + Members(subs)))
  }

  /** Taking a parent, known or not, and queueing its parents. */
  lemma ParentStep(net: Network, seeds: seq<string>, expanded: iset<string>, visited: seq<string>, parents: seq<string>, subs: seq<string>, visited': seq<string>)
    requires parents != [] && (visited' == visited || visited' == visited + [parents[0]])
    ensures
      var parents' := parents[1..] + ParentsOf(net, parents[0]);
      && (Within(net, seeds, expanded, visited, parents, subs) ==> Within(net, seeds, expanded, visited', parents', subs))
      && (Chased(net, expanded, visited, parents, subs) && parents[0] in visited' ==> Chased(net, expanded, visited', parents', subs))
  {
    var r, parents' := parents[0], parents[1..] + ParentsOf(net, parents[0]);
    if Chased(net, expanded, visited, parents, subs) && r in visited' {
      assert Members(visited + parents) <= Members(visited' + parents');
      assert All(ParentsOf(net, r), Members(visited' + parents'));
    }
  }

  /** Taking a subsidiary, known or not, and queueing its links. */
  lemma SubsidiaryStep(net: Network, seeds: seq<string>, expanded: iset<string>, visited: seq<string>, subs: seq<string>, visited': seq<string>)
    requires subs != [] && (visited' == visited || visited' == visited + [subs[0]])
    ensures
      var expanded', parents', subs' := expanded + iset{subs[0]}, ParentsOf(net, subs[0]), subs[1..] + SubsOf(net, subs[0]);
      && (Within(net, seeds, expanded, visited, [], subs) ==> Within(net, seeds, expanded', visited', parents', subs'))
      && (Chased(net, expanded, visited, [], subs) && subs[0] in visited' ==> Chased(net, expanded', visited', parents', subs'))
  {
    var r, expanded', parents', subs' := subs[0], expanded + iset{subs[0]}, ParentsOf(net, subs[0]), subs[1..] + SubsOf(net, subs[0]);
    if Chased(net, expanded, visited, [], subs) && r in visited' {
      assert Members(visited + []) <= Members(visited' + parents');
      assert expanded + Members(subs) <= expanded' + Members(subs');
    }
  }

  lemma SearchStart(net: Network, seeds: seq<string>, visited: seq<string>, parents: seq<string>, subs: seq<string>)
    requires forall r :: r in visited ==> r in seeds
    requires LinksOfSeeds(net, seeds, parents, subs)
    ensures Within(net, seeds, Members(seeds), visited, parents, subs)
    ensures visited == seeds ==> Chased(net, Members(seeds), visited, parents, subs)
  {
    assert Members(parents) <= Members(visited + parents) && Members(subs) <= Members(seeds) + Members(subs);
  }

  // ---------------------------------------------------------------- the walk

  class Walk {
    const net: Network
    const maxRepositoriesVisited: nat
    const followSiteLinks: bool
    var visited: seq<string>
    var limitHit: bool
    var models: seq<Model>
    var parents: seq<string>
    var subsidiaries: seq<string>
    ghost var expanded: iset<string>

    constructor (net: Network, maxRepositoriesVisited: nat, followSiteLinks: bool)
      ensures this.net == net && this.maxRepositoriesVisited == maxRepositoriesVisited
      ensures this.followSiteLinks == followSiteLinks && Fresh()
    {
      this.net, this.maxRepositoriesVisited, this.followSiteLinks := net, maxRepositoriesVisited, followSiteLinks;
      visited, limitHit, models, parents, subsidiaries, expanded := [], false, [], [], [], iset{};
    }

    predicate Fresh()
      reads this
    {
      visited == [] && !limitHit && models == [] && parents == [] && subsidiaries == []
    }

    /** No index is asked twice, and never more than the policy allows. */
    ghost predicate Bounded()
      reads this
    {
      Distinct(visited) && |visited| <= maxRepositoriesVisited
    }

    /** Enters a repository unless it is known or the limit is reached. */
    method Enter(r: string) returns (entered: bool)
      requires Bounded()
      modifies this`visited, this`limitHit
      ensures Bounded()
      ensures entered == (r !in old(visited) && |old(visited)| < maxRepositoriesVisited)
      ensures visited == if entered then old(visited) + [r] else old(visited)
      ensures limitHit == (old(limitHit) || (r !in old(visited) && !entered))
    {
      if r in visited { return false; }
      if |visited| >= maxRepositoriesVisited {
        limitHit := true;
        return false;
      }
      visited := visited + [r];
      return true;
    }

    /** `visit` of `listModels`. */
    method Visit(r: string) returns (entered: bool)
      requires Bounded() && models == AllModels(net, visited)
      modifies this`visited, this`limitHit, this`models
      ensures Bounded() && models == AllModels(net, visited)
      ensures entered == (r !in old(visited) && |old(visited)| < maxRepositoriesVisited)
      ensures visited == if entered then old(visited) + [r] else old(visited)
      ensures limitHit == (old(limitHit) || (r !in old(visited) && !entered))
    {
      entered := Enter(r);
      if entered {
        assert visited[..|visited| - 1] == old(visited);
        var index := net.index(r);
        if index.Some? { models := models + index.value; }
      }
    }

    ghost predicate Listing(seeds: seq<string>)
      reads this
    {
      && Bounded() && models == AllModels(net, visited)
      && Justified(net, seeds, expanded, visited, parents + subsidiaries)
      && ParentBorn(net, seeds, expanded, visited, parents)
      && SubBorn(net, seeds, expanded, subsidiaries)
      && (!limitHit ==> Pursued(net, expanded, visited, parents, subsidiaries))
    }

    method Follow(r: string)
      modifies this`parents
      ensures parents == old(parents) + ParentsOf(net, r)
    {
      var site := net.site(r);
      if site.Some? { parents := Links(net, r, site.value.parentSites, parents); }
    }

    /** `drainParents` of `listModels`. */
    method DrainParents(ghost seeds: seq<string>)
      requires Listing(seeds)
      modifies this
      ensures Listing(seeds) && parents == [] && old(visited) <= visited
      ensures subsidiaries == old(subsidiaries) && expanded == old(expanded)
      ensures !limitHit ==> !old(limitHit)
      ensures |visited| == |old(visited)| ==> visited == old(visited)
    {
      hide Justified, ParentBorn, SubBorn, Pursued, AllModels, Distinct, ParentsOf, SubsOf;
      while parents != []
        invariant Listing(seeds) && old(visited) <= visited
        invariant subsidiaries == old(subsidiaries) && expanded == old(expanded)
        invariant old(limitHit) ==> limitHit
        decreases maxRepositoriesVisited - |visited|, |parents|
      {
        var r := parents[0];
        ghost var was, queue := visited, parents;
        parents := parents[1..];
        var entered := Visit(r);
        if entered {
          FreshStep(net, seeds, expanded, was, queue, subsidiaries, r, false);
          Follow(r);
        } else {
          StaleStep(net, seeds, expanded, was, queue, subsidiaries, r, false);
        }
        JustifiedGrows(net, seeds, expanded, was, queue + subsidiaries, expanded, visited, parents + subsidiaries);
      }
    }

    /** Visits the seeds in order. */
    method VisitSeeds(seeds: seq<string>)
      requires Fresh() && Distinct(seeds)
      modifies this`visited, this`limitHit, this`models
      ensures Bounded() && models == AllModels(net, visited)
      ensures forall r :: r in visited ==> r in seeds
      ensures !limitHit ==> visited == seeds
      ensures visited <= seeds && (limitHit ==> |visited| == maxRepositoriesVisited)
    {
      assert models == AllModels(net, visited);
      hide AllModels;
      for i := 0 to |seeds|
        invariant Bounded() && models == AllModels(net, visited)
        invariant forall r :: r in visited ==> r in seeds[..i]
        invariant !limitHit ==> visited == seeds[..i]
        invariant visited <= seeds && (limitHit ==> |visited| == maxRepositoriesVisited)
      {
        assert seeds[..i + 1] == seeds[..i] + [seeds[i]];
        var entered := Visit(seeds[i]);
      }
      assert seeds[..|seeds|] == seeds;
    }

    /** Queues the links of every seed. */
    method QueueSeedLinks(seeds: seq<string>)
      requires parents == [] && subsidiaries == []
      modifies this`parents, this`subsidiaries
      ensures parents == SeedParents(net, seeds) && subsidiaries == SeedSubs(net, seeds)
    {
      hide ParentsOf, SubsOf;
      for i := 0 to |seeds|
        invariant parents == SeedParents(net, seeds[..i]) && subsidiaries == SeedSubs(net, seeds[..i])
      {
        assert seeds[..i + 1][..i] == seeds[..i];
        Follow(seeds[i]);
        FollowSubsidiaries(seeds[i]);
      }
      assert seeds[..|seeds|] == seeds;
    }

    method FollowSubsidiaries(r: string)
      modifies this`subsidiaries
      ensures subsidiaries == old(subsidiaries) + SubsOf(net, r)
    {
      var site := net.site(r);
      if site.Some? { subsidiaries := Links(net, r, site.value.subsidiarySites, subsidiaries); }
    }

    /** `listModels`. Asks each index at most once and never more than allowed, whatever the
        links are. Unless the limit is hit, the seeds and all parents are visited, and the
        subsidiaries of what was not first reached as a parent. `early` is what was visited
        before the first subsidiary. */
    method ListModels(given: seq<string>) returns (seeds: seq<string>, ghost early: iset<string>)
      requires Fresh()
      modifies this
      ensures seeds == Normalized(net, given) && (visited <= seeds || seeds <= visited)
      ensures Bounded() && models == AllModels(net, visited)
      ensures !followSiteLinks ==> (forall r :: r in visited ==> r in seeds) && (!limitHit ==> visited == seeds)
      ensures followSiteLinks ==> Listed(seeds) && All(seeds, expanded) && ParentsFirst(net, seeds, expanded, early)
      ensures followSiteLinks && !limitHit ==> Members(seeds) <= early <= Members(visited) && ParentClosed(net, early)
      ensures followSiteLinks ==> forall w :: Passable(net, seeds, early, w) ==> All(visited, w)
    {
      seeds := NormalizedSeeds(net, given);
      VisitSeeds(seeds);
      early := iset{};
      if !followSiteLinks { return; }
      ghost var start := visited;
      hide *;
      DrainSeeds(seeds);
      early := Members(visited);
      StartParentsFirst(net, seeds, early);
      ConfinedStart(net, seeds, early, subsidiaries);
      while subsidiaries != []
        invariant Listing(seeds) && parents == [] && start <= visited
        invariant All(seeds, expanded) && ParentsFirst(net, seeds, expanded, early) && early <= Members(visited)
        invariant Confined(net, seeds, early, expanded, subsidiaries)
        invariant !limitHit ==> Members(seeds) <= early && ParentClosed(net, early)
        decreases maxRepositoriesVisited - |visited|, |subsidiaries|
      {
        TakeSubsidiary(seeds, early);
      }
      IsListed(seeds);
      SeedsLead(seeds, start);
      forall w | Passable(net, seeds, early, w) ensures All(visited, w) {
        ConfinedVisits(net, seeds, early, expanded, visited, w);
      }
    }

    /** The visits begin with the seeds. */
    lemma SeedsLead(seeds: seq<string>, start: seq<string>)
      requires Bounded() && start <= seeds && start <= visited
      requires start == seeds || |start| == maxRepositoriesVisited
      ensures visited <= seeds || seeds <= visited
    {
    }

    lemma IsListed(seeds: seq<string>)
      requires Listing(seeds) && parents == [] && subsidiaries == []
      ensures Listed(seeds) && Bounded() && models == AllModels(net, visited)
      ensures Justified(net, seeds, expanded, visited, [])
    {
      hide Justified, ParentBorn, SubBorn, AllModels, Distinct, Pursued;
      assert parents + subsidiaries == [];
    }

    /** Queues the links of the seeds and visits all their parents. */
    method DrainSeeds(seeds: seq<string>)
      requires Bounded() && models == AllModels(net, visited) && parents == [] && subsidiaries == []
      requires forall r :: r in visited ==> r in seeds
      requires !limitHit ==> visited == seeds
      modifies this
      ensures Listing(seeds) && parents == [] && expanded == Members(seeds) && subsidiaries == SeedSubs(net, seeds)
      ensures !limitHit ==> Members(seeds) <= Members(visited) && ParentClosed(net, Members(visited))
      ensures old(visited) <= visited
    {
      hide Justified, ParentBorn, SubBorn, Pursued, AllModels, Distinct, ParentsOf, SubsOf, Fresh;
      QueueSeedLinks(seeds);
      SeedLinks(net, seeds);
      SeedState(net, seeds, visited, parents, subsidiaries);
      expanded := Members(seeds);
      ghost var start := visited;
      DrainParents(seeds);
      if !limitHit {
        DrainedClosed(net, expanded, visited, subsidiaries);
        assert start == seeds && start <= visited;
      }
    }

    /** One round of the loop over the subsidiaries. */
    method TakeSubsidiary(ghost seeds: seq<string>, ghost early: iset<string>)
      requires Listing(seeds) && parents == [] && subsidiaries != []
      requires All(seeds, expanded) && ParentsFirst(net, seeds, expanded, early) && early <= Members(visited)
      requires Confined(net, seeds, early, expanded, subsidiaries)
      modifies this
      ensures Confined(net, seeds, early, expanded, subsidiaries)
      ensures Listing(seeds) && parents == [] && |visited| <= maxRepositoriesVisited
      ensures All(seeds, expanded) && ParentsFirst(net, seeds, expanded, early) && early <= Members(visited)
      ensures !limitHit ==> !old(limitHit)
      ensures |visited| > |old(visited)| || (|visited| == |old(visited)| && |subsidiaries| < |old(subsidiaries)|)
      ensures old(visited) <= visited
    {
      hide Confined, Passable, Justified, ParentBorn, SubBorn, Pursued, AllModels, Distinct, ParentsOf, SubsOf;
      var r := subsidiaries[0];
      ghost var was, queue, before := visited, subsidiaries, expanded;
      SubBornStep(net, seeds, expanded, subsidiaries);
      ConfinedStep(net, seeds, early, expanded, subsidiaries);
      assert [] + queue == queue;
      subsidiaries := subsidiaries[1..];
      var entered := Visit(r);
      if !entered {
        StaleStep(net, seeds, before, was, [], queue, r, true);
        JustifiedGrows(net, seeds, before, was, queue, before, visited, parents + subsidiaries);
        return;
      }
      FreshStep(net, seeds, before, was, [], queue, r, true);
      expanded := expanded + iset{r};
      FollowSubsidiaries(r);
      Follow(r);
      JustifiedGrows(net, seeds, before, was, queue, expanded, visited, parents + subsidiaries);
      DrainParents(seeds);
      MembersGrow(was, visited);
    }

    /** `#visitIndex` */
    method VisitIndex(r: string, select: Selector) returns (hit: Option<Model>)
      requires Bounded() && NoHit(net, select, visited)
      modifies this`visited, this`limitHit
      ensures Bounded()
      ensures visited == (if r !in old(visited) && |old(visited)| < maxRepositoriesVisited then old(visited) + [r] else old(visited))
      ensures limitHit == (old(limitHit) || (r !in old(visited) && |old(visited)| >= maxRepositoriesVisited))
      ensures if hit.Some? then FirstHit(net, select, visited, hit) else NoHit(net, select, visited)
    {
      var entered := Enter(r);
      if !entered { return None; }
      assert visited[..|visited| - 1] == old(visited);
      var index := net.index(r);
      if index.None? { return None; }
      return select(index.value);
    }

    ghost predicate Searching(seeds: seq<string>, select: Selector)
      reads this
    {
      && Bounded() && NoHit(net, select, visited)
      && Within(net, seeds, expanded, visited, parents, subsidiaries)
      && (!limitHit ==> Chased(net, expanded, visited, parents, subsidiaries))
    }

    /** A hit ends the search where it is: at the first repository visited that has one. */
    ghost predicate Ended(seeds: seq<string>, select: Selector, hit: Option<Model>)
      reads this
    {
      && Bounded() && FirstHit(net, select, visited, hit)
      && Within(net, seeds, iset{}, visited, [], [])
    }

    /** One round of `drainParents` of `findModel`; the links are followed again and again. */
    method TakeParent(ghost seeds: seq<string>, select: Selector) returns (hit: Option<Model>)
      requires Searching(seeds, select) && parents != []
      modifies this`visited, this`limitHit, this`parents
      ensures if hit.Some? then Ended(seeds, select, hit) else Searching(seeds, select)
      ensures hit.None? ==> parents == old(parents)[1..] + ParentsOf(net, old(parents)[0])
      ensures old(visited) <= visited
    {
      hide Within, Chased, NoHit, FirstHit, Distinct, ParentsOf, SubsOf;
      ghost var was, queue := visited, parents;
      var r := parents[0];
      parents := parents[1..];
      hit := VisitIndex(r, select);
      ParentStep(net, seeds, expanded, was, queue, subsidiaries, visited);
      WithinVisited(net, seeds, expanded, visited, parents + ParentsOf(net, r), subsidiaries);
      if hit.None? { Follow(r); }
    }

    /** The queues are those after n rounds. */
    ghost predicate At(start: Queues, n: nat)
      reads this
    {
      Queues(parents, subsidiaries) == Rounds(net, start, n)
    }

    /** `drainParents` of `findModel`, for as many rounds as are left. */
    method DrainForModel(ghost seeds: seq<string>, select: Selector, ghost start: Queues, ghost rounds: nat, left: nat)
        returns (outcome: Outcome, left': nat)
      requires Searching(seeds, select) && left <= rounds && At(start, rounds - left)
      modifies this`visited, this`limitHit, this`parents
      ensures outcome.Found? ==> Ended(seeds, select, Some(outcome.model))
      ensures !outcome.Found? ==> Searching(seeds, select) && left' <= left && At(start, rounds - left')
      ensures outcome.Absent? ==> parents == []
      ensures outcome.Unfinished? ==> parents != [] && left' == 0
      ensures old(visited) <= visited
    {
      hide Rounds, Searching, Ended, ParentsOf;
      left' := left;
      while parents != []
        invariant Searching(seeds, select) && left' <= left && At(start, rounds - left')
        invariant old(visited) <= visited
        decreases left'
      {
        if left' == 0 { return Unfinished, left'; }
        RoundsNext(net, start, rounds - left');
        NextParent(net, Queues(parents, subsidiaries));
        var hit := TakeParent(seeds, select);
        if hit.Some? { return Found(hit.value), left'; }
        left' := left' - 1;
      }
      return Absent, left';
    }

    /** One round of the loop over the subsidiaries of `findModel`, without its parents. */
    method TakeSubsidiaryForModel(ghost seeds: seq<string>, select: Selector) returns (hit: Option<Model>)
      requires Searching(seeds, select) && parents == [] && subsidiaries != []
      modifies this
      ensures if hit.Some? then Ended(seeds, select, hit) else Searching(seeds, select)
      ensures hit.None? ==> subsidiaries == old(subsidiaries)[1..] + SubsOf(net, old(subsidiaries)[0])
      ensures hit.None? ==> parents == ParentsOf(net, old(subsidiaries)[0])
      ensures old(expanded) <= expanded
      ensures old(visited) <= visited
    {
      hide Within, Chased, NoHit, FirstHit, Distinct, ParentsOf, SubsOf;
      ghost var was, queue, before := visited, subsidiaries, expanded;
      var r := subsidiaries[0];
      subsidiaries := subsidiaries[1..];
      hit := VisitIndex(r, select);
      SubsidiaryStep(net, seeds, before, was, queue, visited);
      expanded := expanded + iset{r};
      WithinVisited(net, seeds, expanded, visited, ParentsOf(net, r), subsidiaries + SubsOf(net, r));
      if hit.Some? { return; }
      FollowSubsidiaries(r);
      Follow(r);
      assert parents == ParentsOf(net, r);
    }

    method VisitSeedsForModel(seeds: seq<string>, select: Selector) returns (hit: Option<Model>)
      requires Fresh() && Distinct(seeds)
      modifies this`visited, this`limitHit
      ensures Bounded() && forall r :: r in visited ==> r in seeds
      ensures if hit.Some? then FirstHit(net, select, visited, hit) else NoHit(net, select, visited)
      ensures hit.None? && !limitHit ==> visited == seeds
      ensures visited <= seeds && (limitHit ==> |visited| == maxRepositoriesVisited)
    {
      hit := None;
      for i := 0 to |seeds|
        invariant Bounded() && NoHit(net, select, visited) && hit.None?
        invariant forall r :: r in visited ==> r in seeds[..i]
        invariant !limitHit ==> visited == seeds[..i]
        invariant visited <= seeds && (limitHit ==> |visited| == maxRepositoriesVisited)
      {
        assert seeds[..i + 1] == seeds[..i] + [seeds[i]];
        hit := VisitIndex(seeds[i], select);
        if hit.Some? { return; }
      }
      assert seeds[..|seeds|] == seeds;
    }

    /** `findModel`, for a number of rounds. A hit is that of the first repository in visiting
        order that has one. If there is none and the limit was not hit, everything the seeds
        lead to was visited. Without a hit the search is at its end after these rounds exactly
        when both queues are empty then. */
    method FindModel(given: seq<string>, select: Selector, rounds: nat) returns (seeds: seq<string>, outcome: Outcome)
      requires Fresh()
      modifies this
      ensures seeds == Normalized(net, given) && (visited <= seeds || seeds <= visited)
      ensures Bounded() && Within(net, seeds, iset{}, visited, [], [])
      ensures outcome.Found? ==> FirstHit(net, select, visited, Some(outcome.model))
      ensures !outcome.Found? ==> NoHit(net, select, visited)
      ensures outcome.Absent? && !limitHit ==> if followSiteLinks then Closed(net, seeds, expanded, Members(visited)) else visited == seeds
      ensures !outcome.Found? && followSiteLinks ==> (outcome.Absent? <==> Rounds(net, SeedQueues(net, seeds), rounds) == Empty)
      ensures outcome.Absent? && followSiteLinks ==> SiteTermination.AcyclicFinite(net, seeds)
      ensures outcome.Unfinished? ==> followSiteLinks
    {
      hide Normalized, ParentsOf, SubsOf, SeedParents, SeedSubs, Distinct, Hit, Rounds;
      seeds := NormalizedSeeds(net, given);
      var hit := VisitSeedsForModel(seeds, select);
      SeedsWithin(net, seeds, visited);
      if hit.Some? { return seeds, Found(hit.value); }
      if !followSiteLinks { return seeds, Absent; }
      QueueSeedLinks(seeds);
      SeedLinks(net, seeds);
      SearchStart(net, seeds, visited, parents, subsidiaries);
      expanded := Members(seeds);
      NoRounds(net, SeedQueues(net, seeds));
      assert Searching(seeds, select) && At(SeedQueues(net, seeds), 0);
      ghost var start := visited;
      hide *;
      outcome := SearchQueues(seeds, select, SeedQueues(net, seeds), rounds);
      SeedsLead(seeds, start);
      SiteTermination.EnoughRounds(net, seeds);
    }

    lemma OutcomeWithin(seeds: seq<string>, select: Selector, outcome: Outcome)
      requires if outcome.Found? then Ended(seeds, select, Some(outcome.model)) else Searching(seeds, select)
      ensures Bounded() && Within(net, seeds, iset{}, visited, [], [])
      ensures outcome.Found? ==> FirstHit(net, select, visited, Some(outcome.model))
      ensures !outcome.Found? ==> NoHit(net, select, visited)
    {
      hide Within, NoHit, FirstHit, Bounded;
      if !outcome.Found? { WithinVisited(net, seeds, expanded, visited, parents, subsidiaries); }
    }

    /** A round of the loop over the subsidiaries with the rounds for the parents it brings. */
    method SearchSubsidiary(ghost seeds: seq<string>, select: Selector, ghost start: Queues, ghost rounds: nat, left: nat)
        returns (outcome: Outcome, left': nat)
      requires Searching(seeds, select) && 0 < left <= rounds && At(start, rounds - left)
      requires parents == [] && subsidiaries != []
      modifies this
      ensures outcome.Found? ==> Ended(seeds, select, Some(outcome.model))
      ensures !outcome.Found? ==> Searching(seeds, select) && left' < left && At(start, rounds - left')
      ensures outcome.Absent? ==> parents == []
      ensures outcome.Unfinished? ==> parents != [] && left' == 0
      ensures old(visited) <= visited && old(expanded) <= expanded
    {
      hide Rounds, Searching, Ended, ParentsOf, SubsOf;
      RoundsNext(net, start, rounds - left);
      NextSubsidiary(net, Queues(parents, subsidiaries));
      var hit := TakeSubsidiaryForModel(seeds, select);
      if hit.Some? { return Found(hit.value), left; }
      outcome, left' := DrainForModel(seeds, select, start, rounds, left - 1);
    }

    /** The two loops over the queues. */
    method SearchQueues(ghost seeds: seq<string>, select: Selector, ghost start: Queues, rounds: nat) returns (outcome: Outcome)
      requires Searching(seeds, select) && Members(seeds) <= expanded && At(start, 0)
      modifies this
      ensures Bounded() && Within(net, seeds, iset{}, visited, [], [])
      ensures outcome.Found? ==> FirstHit(net, select, visited, Some(outcome.model))
      ensures !outcome.Found? ==> NoHit(net, select, visited)
      ensures outcome.Absent? && !limitHit ==> Closed(net, seeds, expanded, Members(visited))
      ensures !outcome.Found? ==> (outcome.Absent? <==> Rounds(net, start, rounds) == Empty)
      ensures old(visited) <= visited
    {
      hide *;
      var left: nat;
      outcome, left := DrainForModel(seeds, select, start, rounds, rounds);
      while outcome.Absent? && subsidiaries != []
        invariant if outcome.Found? then Ended(seeds, select, Some(outcome.model)) else Searching(seeds, select)
        invariant !outcome.Found? ==> left <= rounds && At(start, rounds - left)
        invariant outcome.Absent? ==> parents == [] && Members(seeds) <= expanded
        invariant outcome.Unfinished? ==> parents + subsidiaries != [] && left == 0
        invariant old(visited) <= visited
        decreases outcome.Absent?, left
      {
        if left == 0 { outcome := Unfinished; }
        else { outcome, left := SearchSubsidiary(seeds, select, start, rounds, left); }
      }
      OutcomeWithin(seeds, select, outcome);
      if !outcome.Found? { AtEnd(start, rounds, left); }
      if outcome.Absent? && !limitHit { SearchClosed(seeds, select); }
    }

    /** With no rounds left, or nothing queued, the queues are those after all rounds. */
    lemma AtEnd(start: Queues, rounds: nat, left: nat)
      requires left <= rounds && At(start, rounds - left) && (left == 0 || parents + subsidiaries == [])
      ensures Rounds(net, start, rounds) == Empty <==> parents + subsidiaries == []
    {
      hide Rounds;
      if parents + subsidiaries == [] {
        assert parents == [] && subsidiaries == [];
        EmptyStays(net, start, rounds - left, rounds);
      }
    }

    lemma SearchClosed(seeds: seq<string>, select: Selector)
      requires Searching(seeds, select) && parents == [] && subsidiaries == [] && !limitHit && Members(seeds) <= expanded
      ensures Closed(net, seeds, expanded, Members(visited))
    {
      hide Within, NoHit, Bounded, Closed, Chased;
      ChasedClosed(net, seeds, expanded, visited);
    }

    /** The result of a listing with empty queues. */
    ghost predicate Listed(seeds: seq<string>)
      reads this
    {
      Listing(seeds) && parents == [] && subsidiaries == []
    }
  }

  lemma MembersGrow(s: seq<string>, t: seq<string>)
    requires s <= t
    ensures Members(s) <= Members(t)
  {
    assert forall r :: r in s ==> r in t[..|s|];
  }

  /** A region that follows parents everywhere, but subsidiaries only from seeds and from what
      lies outside `early`. */
  ghost predicate Passable(net: Network, seeds: seq<string>, early: iset<string>, w: iset<string>) {
    && All(seeds, w) && ParentClosed(net, w)
    && (forall r :: r in w && (r in seeds || r !in early) ==> All(SubsOf(net, r), w))
  }

  /** Whatever is expanded or queued to be lies in every such region. */
  ghost predicate Confined(net: Network, seeds: seq<string>, early: iset<string>, expanded: iset<string>, subs: seq<string>) {
    forall w :: Passable(net, seeds, early, w) ==> expanded <= w && All(subs, w)
  }

  lemma ConfinedStart(net: Network, seeds: seq<string>, early: iset<string>, subs: seq<string>)
    requires subs == SeedSubs(net, seeds)
    ensures Confined(net, seeds, early, Members(seeds), subs)
  {
    hide ParentsOf, SubsOf, SeedSubs, SeedParents;
    SeedLinks(net, seeds);
  }

  lemma ConfinedStep(net: Network, seeds: seq<string>, early: iset<string>, expanded: iset<string>, subs: seq<string>)
    requires Confined(net, seeds, early, expanded, subs) && subs != []
    ensures Confined(net, seeds, early, expanded, subs[1..])
    ensures subs[0] !in early ==> Confined(net, seeds, early, expanded + iset{subs[0]}, subs[1..] + SubsOf(net, subs[0]))
  {
    hide ParentsOf, SubsOf;
  }

  /** At the end everything visited lies in every such region. */
  lemma ConfinedVisits(net: Network, seeds: seq<string>, early: iset<string>, expanded: iset<string>, visited: seq<string>, w: iset<string>)
    requires Justified(net, seeds, expanded, visited, []) && ParentsFirst(net, seeds, expanded, early)
    requires Confined(net, seeds, early, expanded, []) && Passable(net, seeds, early, w)
    ensures All(visited, w)
  {
    hide ParentsOf, SubsOf;
    assert Covers(net, seeds, expanded, w);
  }

  /** No repository visited before the first subsidiary is expanded, unless it is a seed. */
  ghost predicate ParentsFirst(net: Network, seeds: seq<string>, expanded: iset<string>, early: iset<string>) {
    forall r :: r in expanded && r in early ==> r in seeds
  }

  lemma StartParentsFirst(net: Network, seeds: seq<string>, early: iset<string>)
    ensures ParentsFirst(net, seeds, Members(seeds), early) && All(seeds, Members(seeds))
  {
  }

  ghost predicate ParentClosed(net: Network, v: iset<string>) {
    forall r :: r in v ==> All(ParentsOf(net, r), v)
  }

  lemma DrainedClosed(net: Network, expanded: iset<string>, visited: seq<string>, subs: seq<string>)
    requires Pursued(net, expanded, visited, [], subs)
    ensures ParentClosed(net, Members(visited))
  {
    assert visited + [] == visited;
  }

  lemma WithinVisited(net: Network, seeds: seq<string>, expanded: iset<string>, visited: seq<string>, parents: seq<string>, subs: seq<string>)
    requires Within(net, seeds, expanded, visited, parents, subs)
    ensures Within(net, seeds, iset{}, visited, [], [])
  {
  }

  lemma SeedsWithin(net: Network, seeds: seq<string>, visited: seq<string>)
    requires forall r :: r in visited ==> r in seeds
    ensures Within(net, seeds, iset{}, visited, [], [])
  {
  }

  lemma NextParent(net: Network, q: Queues)
    requires q.parents != []
    ensures Round(net, q) == Queues(q.parents[1..] + ParentsOf(net, q.parents[0]), q.subsidiaries)
  {
  }

  lemma NextSubsidiary(net: Network, q: Queues)
    requires q.parents == [] && q.subsidiaries != []
    ensures Round(net, q) == Queues(ParentsOf(net, q.subsidiaries[0]), q.subsidiaries[1..] + SubsOf(net, q.subsidiaries[0]))
  {
  }

  lemma NoRounds(net: Network, q: Queues)
    ensures Rounds(net, q, 0) == q
  {
  }

  lemma ChasedClosed(net: Network, seeds: seq<string>, expanded: iset<string>, visited: seq<string>)
    requires Chased(net, expanded, visited, [], []) && Members(seeds) <= expanded
    ensures Closed(net, seeds, expanded, Members(visited))
  {
    assert visited + [] == visited && expanded + Members([]) == expanded;
    assert forall r :: r in seeds ==> r in Members(seeds);
  }

  // ---------------------------------------------------------------- what a listing covers

  /** No repository with subsidiaries of its own is reached both as a subsidiary and as a
      parent, seeds aside. */
  ghost predicate Apart(net: Network, seeds: seq<string>, e: iset<string>, v: iset<string>) {
    forall r, q :: r in e && q in SubsOf(net, r) ==> q in seeds || SubsOf(net, q) == [] || !IsParent(net, v, q)
  }

  /** The expanded repositories, and those visited that have nothing to expand. */
  ghost function Settled(net: Network, expanded: iset<string>, visited: seq<string>): iset<string> {
    iset r | r in expanded || (r in visited && SubsOf(net, r) == [])
  }

  /** Then a listing that does not hit the limit visits the least closed region. */
  lemma ListingExact(net: Network, seeds: seq<string>, expanded: iset<string>, visited: seq<string>, e: iset<string>, v: iset<string>)
    requires Justified(net, seeds, expanded, visited, []) && Pursued(net, expanded, visited, [], [])
    requires ParentBorn(net, seeds, expanded, visited, []) && SubBorn(net, seeds, expanded, [])
    requires All(seeds, expanded) && Closed(net, seeds, e, v) && Apart(net, seeds, e, v)
    ensures Closed(net, seeds, Settled(net, expanded, visited), Members(visited)) && Members(visited) <= v
  {
    hide ParentsOf, SubsOf;
    assert visited + [] == visited;
    assert Covers(net, seeds, expanded, v);
    assert Members(visited + seeds) <= v;
    IsParentGrows(net, Members(visited + seeds), v);
  }

  /** On any network, for any listing below the limit: what can only be reached through the
      subsidiaries of a repository in the parent closure of the seeds, seeds aside, is missed. */
  lemma ListingMisses(net: Network, seeds: seq<string>, visited: seq<string>, early: iset<string>,
                      parentClosure: iset<string>, w: iset<string>, missed: string)
    requires forall u :: Passable(net, seeds, early, u) ==> All(visited, u)
    requires All(seeds, early) && ParentClosed(net, early)
    requires forall p :: All(seeds, p) && ParentClosed(net, p) ==> parentClosure <= p
    requires Passable(net, seeds, parentClosure, w) && missed !in w
    ensures missed !in visited
  {
    hide ParentsOf, SubsOf, ParentClosed;
    assert parentClosure <= early;
    assert Passable(net, seeds, early, w);
  }

  /** Here A is both a parent and a subsidiary of S, and B a subsidiary of A. */
  const LINKED := Network(
    uri => Some(uri), (repository, link) => Some(link),
    uri => if uri == "S" then Some(Site(["A"], ["A"])) else if uri == "A" then Some(Site([], ["B"])) else None,
    uri => None)

  lemma LinkedLinks()
    ensures ParentsOf(LINKED, "S") == ["A"] && SubsOf(LINKED, "S") == ["A"]
    ensures ParentsOf(LINKED, "A") == [] && SubsOf(LINKED, "A") == ["B"]
    ensures forall r :: r != "S" && r != "A" ==> ParentsOf(LINKED, r) == [] && SubsOf(LINKED, r) == []
  {
    assert ["A"][..0] == [] && ["B"][..0] == [];
    assert Resolved(LINKED, "S", ["A"]) == [] + ["A"];
    assert Resolved(LINKED, "A", ["B"]) == [] + ["B"];
  }

  /** No listing from S visits B, although B lies in every closed region: A was visited as a
      parent, and its subsidiaries are not followed. */
  lemma ListingMissesRepository(expanded: iset<string>, visited: seq<string>, early: iset<string>, e: iset<string>, v: iset<string>)
    requires Justified(LINKED, ["S"], expanded, visited, []) && ParentsFirst(LINKED, ["S"], expanded, early)
    requires "S" in early && ParentClosed(LINKED, early)
    requires Closed(LINKED, ["S"], e, v)
    ensures "B" !in visited && "B" in v
  {
    LinkedLinks();
    hide ParentsOf, SubsOf, LINKED;
    assert "A" in ParentsOf(LINKED, "S") && "S" in ["S"] && "A" in SubsOf(LINKED, "S") && "B" in SubsOf(LINKED, "A");
    assert "A" in early && "A" !in expanded;
    assert Covers(LINKED, ["S"], expanded, iset{"S", "A"});
    assert "S" in e && "A" in e && "B" in e;
  }
}
