/** When the search over linked repositories comes to an end: exactly when the links it can
    follow are finite and without a cycle. */
module SiteTermination {
  import opened Options
  import opened SiteLinks

  type Links = string -> seq<string>

  // ---------------------------------------------------------------- cycles

  /** A walk along links that stays in a set. */
  ghost predicate Walk(links: Links, within: set<string>, p: seq<string>) {
    && p != [] && (forall i :: 0 <= i < |p| ==> p[i] in within)
    && (forall i :: 0 <= i < |p| - 1 ==> p[i + 1] in links(p[i]))
  }

  ghost predicate CycleIn(links: Links, within: set<string>, p: seq<string>) {
    Walk(links, within, p) && |p| >= 2 && p[0] == p[|p| - 1]
  }

  ghost predicate Acyclic(links: Links, within: set<string>) {
    forall p :: !CycleIn(links, within, p)
  }

  ghost predicate ClosedUnder(links: Links, within: set<string>) {
    forall r, q :: r in within && q in links(r) ==> q in within
  }

  lemma {:induction false} DistinctFits(p: seq<string>, within: set<string>)
    requires forall i :: 0 <= i < |p| ==> p[i] in within
    requires forall i, j :: 0 <= i < j < |p| ==> p[i] != p[j]
    ensures |p| <= |within|
    decreases |p|
  {
    if p != [] {
      var n := |p| - 1;
      DistinctFits(p[..n], within - {p[n]});
    }
  }

  /** A walk longer than the set it stays in runs into a cycle. */
  lemma LongWalkCycles(links: Links, within: set<string>, p: seq<string>)
    requires Walk(links, within, p) && |p| > |within|
    ensures !Acyclic(links, within)
  {
    if forall i, j :: 0 <= i < j < |p| ==> p[i] != p[j] {
      DistinctFits(p, within);
    } else {
      var i, j :| 0 <= i < j < |p| && p[i] == p[j];
      var q := p[i..j + 1];
      forall k | 0 <= k < |q| - 1 ensures q[k + 1] in links(q[k]) {
        assert q[k] == p[i + k] && q[k + 1] == p[i + k + 1];
      }
      assert CycleIn(links, within, q);
    }
  }

  /** One more node whose links all lead into a closed set makes no cycle. */
  lemma NewNode(links: Links, within: set<string>, r: string)
    requires Acyclic(links, within) && ClosedUnder(links, within)
    requires forall q :: q in links(r) ==> q in within
    ensures Acyclic(links, within + {r}) && ClosedUnder(links, within + {r})
  {
    forall p ensures !CycleIn(links, within + {r}, p) {
      if CycleIn(links, within + {r}, p) {
        StaysInside(links, within, r, p, |p| - 1);
        forall i | 0 <= i < |p| ensures p[i] in within {
          if i > 0 { StaysInside(links, within, r, p, i); }
        }
        assert CycleIn(links, within, p);
      }
    }
  }

  lemma {:induction false} StaysInside(links: Links, within: set<string>, r: string, p: seq<string>, i: nat)
    requires ClosedUnder(links, within) && (forall q :: q in links(r) ==> q in within)
    requires Walk(links, within + {r}, p) && 0 < i < |p|
    ensures p[i] in within
  {
    assert p[i - 1 + 1] in links(p[i - 1]);
    if i > 1 { StaysInside(links, within, r, p, i - 1); }
  }

  // ---------------------------------------------------------------- weights

  ghost function Total(weight: string -> nat, s: seq<string>): nat {
    if s == [] then 0 else weight(s[0]) + Total(weight, s[1..])
  }

  lemma {:induction false} TotalAppend(weight: string -> nat, s: seq<string>, t: seq<string>)
    ensures Total(weight, s + t) == Total(weight, s) + Total(weight, t)
  {
    if s == [] { assert s + t == t; }
    else {
      assert (s + t)[1..] == s[1..] + t;
      TotalAppend(weight, s[1..], t);
    }
  }

  lemma {:induction false} TotalSame(f: string -> nat, g: string -> nat, s: seq<string>)
    requires forall q :: q in s ==> f(q) == g(q)
    ensures Total(f, s) == Total(g, s)
  {
    if s != [] { TotalSame(f, g, s[1..]); }
  }

  /** The cost of everything reached from r in fewer than `depth` steps, with repetition. */
  ghost function Size(links: Links, cost: string -> nat, r: string, depth: nat): nat
    decreases depth
  {
    if depth == 0 then 0
    else 1 + cost(r) + Total((q: string) => Size(links, cost, q, depth - 1), links(r))
  }

  lemma GrowingLink(links: Links, cost: string -> nat, r: string, depth: nat) returns (q: string)
    requires depth > 0 && Size(links, cost, r, depth) != Size(links, cost, r, depth + 1)
    ensures q in links(r) && Size(links, cost, q, depth - 1) != Size(links, cost, q, depth)
  {
    var f := (p: string) => Size(links, cost, p, depth - 1);
    var g := (p: string) => Size(links, cost, p, depth);
    if forall p :: p in links(r) ==> f(p) == g(p) {
      TotalSame(f, g, links(r));
      assert false;
    }
    q :| q in links(r) && f(q) != g(q);
  }

  lemma WalkCons(links: Links, within: set<string>, r: string, rest: seq<string>)
    requires Walk(links, within, rest) && r in within && rest[0] in links(r)
    ensures Walk(links, within, [r] + rest)
  {
    var p := [r] + rest;
    forall i | 0 <= i < |p| - 1 ensures p[i + 1] in links(p[i]) {
      if i > 0 { assert p[i] == rest[i - 1] && p[i + 1] == rest[i]; }
    }
  }

  /** A size that still grows has a walk of that length. */
  lemma {:induction false} GrowingWalk(links: Links, cost: string -> nat, within: set<string>, r: string, depth: nat) returns (p: seq<string>)
    requires ClosedUnder(links, within) && r in within && Size(links, cost, r, depth) != Size(links, cost, r, depth + 1)
    ensures Walk(links, within, p) && p[0] == r && |p| == depth + 1
    decreases depth
  {
    if depth == 0 { p := [r]; }
    else {
      hide Size;
      var q := GrowingLink(links, cost, r, depth);
      var rest := GrowingWalk(links, cost, within, q, depth - 1);
      WalkCons(links, within, r, rest);
      p := [r] + rest;
    }
  }

  ghost function Weight(links: Links, cost: string -> nat, depth: nat): string -> nat {
    r => Size(links, cost, r, depth)
  }

  /** On a finite acyclic set the sizes stop growing, and pay for all links. */
  lemma AcyclicWeight(links: Links, cost: string -> nat, within: set<string>, r: string)
    requires ClosedUnder(links, within) && Acyclic(links, within) && r in within
    ensures var w := Weight(links, cost, |within|); w(r) == 1 + cost(r) + Total(w, links(r))
  {
    var n := |within|;
    var w := Weight(links, cost, n);
    if Size(links, cost, r, n) != Size(links, cost, r, n + 1) {
      var p := GrowingWalk(links, cost, within, r, n);
      LongWalkCycles(links, within, p);
    }
    TotalSame((q: string) => Size(links, cost, q, n), w, links(r));
  }

  // ---------------------------------------------------------------- acyclic and finite links

  ghost function Parents(net: Network): Links {
    r => ParentsOf(net, r)
  }

  ghost function Subsidiaries(net: Network): Links {
    r => SubsOf(net, r)
  }

  /** Finite sets closed under the links that a search follows, without a cycle. */
  ghost predicate AcyclicRegion(net: Network, e: set<string>, v: set<string>) {
    && e <= v
    && ClosedUnder(Subsidiaries(net), e) && Acyclic(Subsidiaries(net), e)
    && ClosedUnder(Parents(net), v) && Acyclic(Parents(net), v)
  }

  ghost predicate Includes(e: set<string>, seeds: seq<string>) {
    forall r :: r in seeds ==> r in e
  }

  /** All seeds lie in such a region. */
  ghost predicate AcyclicFinite(net: Network, seeds: seq<string>) {
    exists e, v :: AcyclicRegion(net, e, v) && Includes(e, seeds)
  }

  ghost predicate Holds(e: set<string>, v: set<string>, q: Queues) {
    (forall r :: r in q.parents ==> r in v) && (forall r :: r in q.subsidiaries ==> r in e)
  }

  ghost function NoCost(r: string): nat {
    0
  }

  ghost function ParentCost(net: Network, v: set<string>): string -> nat {
    Weight(Parents(net), NoCost, |v|)
  }

  ghost function SubCost(net: Network, e: set<string>, v: set<string>): string -> nat {
    Weight(Subsidiaries(net), r => Total(ParentCost(net, v), ParentsOf(net, r)), |e|)
  }

  ghost function Load(net: Network, e: set<string>, v: set<string>, q: Queues): nat {
    Total(ParentCost(net, v), q.parents) + Total(SubCost(net, e, v), q.subsidiaries)
  }

  lemma RegionPays(net: Network, e: set<string>, v: set<string>, r: string)
    requires AcyclicRegion(net, e, v)
    ensures r in v ==> ParentCost(net, v)(r) > Total(ParentCost(net, v), ParentsOf(net, r))
    ensures r in e ==> SubCost(net, e, v)(r) > Total(ParentCost(net, v), ParentsOf(net, r)) + Total(SubCost(net, e, v), SubsOf(net, r))
  {
    hide Acyclic, ClosedUnder, Weight, Total, ParentsOf, SubsOf;
    if r in v { AcyclicWeight(Parents(net), NoCost, v, r); }
    if r in e { AcyclicWeight(Subsidiaries(net), q => Total(ParentCost(net, v), ParentsOf(net, q)), e, r); }
  }

  /** In an acyclic region every round lowers the load. */
  lemma RoundPays(net: Network, e: set<string>, v: set<string>, q: Queues)
    requires AcyclicRegion(net, e, v) && Holds(e, v, q)
    ensures Holds(e, v, Round(net, q))
    ensures q != Empty ==> Load(net, e, v, Round(net, q)) < Load(net, e, v, q)
  {
    var w, u := ParentCost(net, v), SubCost(net, e, v);
    hide Acyclic, ParentCost, SubCost, ParentsOf, SubsOf;
    if q.parents != [] {
      var r := q.parents[0];
      RegionPays(net, e, v, r);
      TotalAppend(w, q.parents[1..], ParentsOf(net, r));
    } else if q.subsidiaries != [] {
      var r := q.subsidiaries[0];
      RegionPays(net, e, v, r);
      TotalAppend(u, q.subsidiaries[1..], SubsOf(net, r));
    }
  }

  lemma {:induction false} RoundsPay(net: Network, e: set<string>, v: set<string>, q: Queues, n: nat)
    requires AcyclicRegion(net, e, v) && Holds(e, v, q)
    ensures Holds(e, v, Rounds(net, q, n))
    ensures Rounds(net, q, n) == Empty || n + Load(net, e, v, Rounds(net, q, n)) <= Load(net, e, v, q)
  {
    if n > 0 {
      hide Round, Load, AcyclicRegion, Holds;
      RoundsPay(net, e, v, q, n - 1);
      RoundPays(net, e, v, Rounds(net, q, n - 1));
      RoundOfEmpty(net);
    }
  }

  lemma RoundOfEmpty(net: Network)
    ensures Round(net, Empty) == Empty
  {
  }

  lemma SeedsHeld(net: Network, seeds: seq<string>, e: set<string>, v: set<string>)
    requires AcyclicRegion(net, e, v) && Includes(e, seeds)
    ensures Holds(e, v, SeedQueues(net, seeds))
  {
    SeedLinks(net, seeds);
    hide ParentsOf, SubsOf, Acyclic, SeedParents, SeedSubs;
  }

  ghost predicate Ends(net: Network, seeds: seq<string>) {
    exists n: nat :: Rounds(net, SeedQueues(net, seeds), n) == Empty
  }

  /** Acyclic finite links: the queues run empty within as many rounds as their load. */
  lemma AcyclicEnds(net: Network, seeds: seq<string>, e: set<string>, v: set<string>) returns (n: nat)
    requires AcyclicRegion(net, e, v) && Includes(e, seeds)
    ensures n == Load(net, e, v, SeedQueues(net, seeds)) + 1 && Rounds(net, SeedQueues(net, seeds), n) == Empty
  {
    hide *;
    n := Load(net, e, v, SeedQueues(net, seeds)) + 1;
    SeedsHeld(net, seeds, e, v);
    RoundsPay(net, e, v, SeedQueues(net, seeds), n);
  }

  // ---------------------------------------------------------------- the other way round

  /** What was taken from the queues before they ran empty is an acyclic region. */
  lemma {:induction false} TakenRegion(net: Network, q: Queues, n: nat) returns (e: set<string>, v: set<string>)
    requires Rounds(net, q, n) == Empty
    ensures AcyclicRegion(net, e, v) && Holds(e, v, q)
    decreases n
  {
    if q == Empty {
      e, v := {}, {};
      NothingAcyclic(net);
    } else {
      assert n > 0;
      hide AcyclicRegion, Round, Rounds, Holds;
      RoundsFirst(net, q, n - 1);
      e, v := TakenRegion(net, Round(net, q), n - 1);
      if q.parents != [] {
        v := AddParent(net, e, v, q);
      } else {
        e, v := AddSubsidiary(net, e, v, q);
      }
    }
  }

  lemma NothingAcyclic(net: Network)
    ensures AcyclicRegion(net, {}, {})
  {
  }

  lemma AddParent(net: Network, e: set<string>, v: set<string>, q: Queues) returns (v': set<string>)
    requires AcyclicRegion(net, e, v) && q.parents != [] && Holds(e, v, Round(net, q))
    ensures AcyclicRegion(net, e, v') && Holds(e, v', q)
  {
    hide Acyclic, ClosedUnder, ParentsOf, SubsOf;
    var r := q.parents[0];
    v' := v + {r};
    NewNode(Parents(net), v, r);
  }

  lemma AddSubsidiary(net: Network, e: set<string>, v: set<string>, q: Queues) returns (e': set<string>, v': set<string>)
    requires AcyclicRegion(net, e, v) && q.parents == [] && q.subsidiaries != [] && Holds(e, v, Round(net, q))
    ensures AcyclicRegion(net, e', v') && Holds(e', v', q)
  {
    hide Acyclic, ClosedUnder, ParentsOf, SubsOf;
    var r := q.subsidiaries[0];
    e', v' := e + {r}, v + {r};
    NewNode(Parents(net), v, r);
    NewNode(Subsidiaries(net), e, r);
  }

  lemma AddSeed(net: Network, e: set<string>, v: set<string>, r: string)
    requires AcyclicRegion(net, e, v)
    requires (forall q :: q in ParentsOf(net, r) ==> q in v) && (forall q :: q in SubsOf(net, r) ==> q in e)
    ensures AcyclicRegion(net, e + {r}, v + {r})
  {
    hide Acyclic, ClosedUnder, ParentsOf, SubsOf;
    NewNode(Parents(net), v, r);
    NewNode(Subsidiaries(net), e, r);
  }

  lemma SeedLinksHeld(net: Network, seeds: seq<string>, e: set<string>, v: set<string>, r: string)
    requires Holds(e, v, SeedQueues(net, seeds)) && r in seeds
    ensures (forall q :: q in ParentsOf(net, r) ==> q in v) && (forall q :: q in SubsOf(net, r) ==> q in e)
  {
    hide ParentsOf, SubsOf, SeedParents, SeedSubs;
    SeedLinks(net, seeds);
  }

  lemma {:induction false} AddSeeds(net: Network, seeds: seq<string>, some: seq<string>, e: set<string>, v: set<string>)
      returns (e': set<string>, v': set<string>)
    requires AcyclicRegion(net, e, v) && Holds(e, v, SeedQueues(net, seeds))
    requires forall r :: r in some ==> r in seeds
    ensures AcyclicRegion(net, e', v') && e <= e' && v <= v' && Includes(e', some)
    decreases |some|
  {
    e', v' := e, v;
    if some != [] {
      hide AcyclicRegion, Holds, ParentsOf, SubsOf;
      var n := |some| - 1;
      e', v' := AddSeeds(net, seeds, some[..n], e, v);
      SeedLinksHeld(net, seeds, e, v, some[n]);
      AddSeed(net, e', v', some[n]);
      e', v' := e' + {some[n]}, v' + {some[n]};
    }
  }

  /** A search without a hit ends if and only if the links it can follow are finite and have
      no cycle, neither of parents nor of subsidiaries. */
  lemma EndsExactly(net: Network, seeds: seq<string>)
    ensures Ends(net, seeds) <==> AcyclicFinite(net, seeds)
  {
    hide AcyclicRegion, Rounds, SeedQueues, Load;
    if Ends(net, seeds) {
      var n :| Rounds(net, SeedQueues(net, seeds), n) == Empty;
      var e, v := TakenRegion(net, SeedQueues(net, seeds), n);
      e, v := AddSeeds(net, seeds, seeds, e, v);
    }
    if AcyclicFinite(net, seeds) {
      var e, v :| AcyclicRegion(net, e, v) && Includes(e, seeds);
      var n := AcyclicEnds(net, seeds, e, v);
    }
  }

  ghost predicate EmptyFrom(net: Network, seeds: seq<string>, n: nat) {
    forall m: nat :: n <= m ==> Rounds(net, SeedQueues(net, seeds), m) == Empty
  }

  /** Then some number of rounds, and every greater one, leaves both queues empty, so that a
      search of so many rounds is not left unfinished; otherwise no number of rounds does. */
  lemma EnoughRounds(net: Network, seeds: seq<string>)
    ensures AcyclicFinite(net, seeds) ==>
      exists n: nat :: EmptyFrom(net, seeds, n)
    ensures !AcyclicFinite(net, seeds) ==> forall n: nat :: Rounds(net, SeedQueues(net, seeds), n) != Empty
  {
    EndsExactly(net, seeds);
    hide Rounds, SeedQueues, AcyclicFinite;
    if Ends(net, seeds) {
      var n: nat :| Rounds(net, SeedQueues(net, seeds), n) == Empty;
      forall m: nat | n <= m ensures Rounds(net, SeedQueues(net, seeds), m) == Empty {
        EmptyStays(net, SeedQueues(net, seeds), n, m);
      }
      assert EmptyFrom(net, seeds, n);
    }
  }

  lemma SelfLinkCycles(links: Links, within: set<string>, r: string)
    requires r in within && r in links(r)
    ensures !Acyclic(links, within)
  {
    assert CycleIn(links, within, [r, r]);
  }

  /** For instance it does not when a seed links to itself, as a parent or as a subsidiary. */
  lemma SelfLinkNeverEnds(net: Network, seeds: seq<string>, r: string)
    requires r in seeds && (r in ParentsOf(net, r) || r in SubsOf(net, r))
    ensures !Ends(net, seeds)
  {
    EndsExactly(net, seeds);
    hide ParentsOf, SubsOf, Ends, Acyclic, ClosedUnder;
    forall e, v | AcyclicRegion(net, e, v) ensures !Includes(e, seeds) {
      if Includes(e, seeds) {
        if r in ParentsOf(net, r) { SelfLinkCycles(Parents(net), v, r); }
        else { SelfLinkCycles(Subsidiaries(net), e, r); }
      }
    }
  }
}
