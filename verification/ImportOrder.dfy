/** Which of several visible definitions is found: the one at the end of the first chain of
    imports, later imports going before earlier ones and short chains before their extensions. */
module ImportOrder {
  import opened Options
  import opened ImportSearch

  // ---------------------------------------------------------------- within one model

  /** The definition at place j of context i maps the domain, and none before it does. */
  predicate FirstAt(contexts: seq<seq<GenericDef>>, generic: DomainId, i: nat, j: nat) {
    && i < |contexts| && j < |contexts[i]| && Maps(contexts[i][j], generic)
    && (forall n :: 0 <= n < j ==> !Maps(contexts[i][n], generic))
    && (forall m, n :: 0 <= m < i && 0 <= n < |contexts[m]| ==> !Maps(contexts[m][n], generic))
  }

  lemma {:induction false} FirstOfExact(defs: seq<GenericDef>, generic: DomainId) returns (j: nat)
    ensures FirstOf(defs, generic).None? ==> forall n :: 0 <= n < |defs| ==> !Maps(defs[n], generic)
    ensures FirstOf(defs, generic).Some? ==>
      j < |defs| && FirstOf(defs, generic) == Some(defs[j]) && Maps(defs[j], generic) && forall n :: 0 <= n < j ==> !Maps(defs[n], generic)
  {
    j := 0;
    if defs != [] && !Maps(defs[0], generic) {
      var k := FirstOfExact(defs[1..], generic);
      j := k + 1;
      assert forall n :: 0 < n < |defs| ==> defs[n] == defs[1..][n - 1];
    }
  }

  /** A model's own definition is its first one in declaration order. */
  lemma {:induction false} FirstInExact(contexts: seq<seq<GenericDef>>, generic: DomainId) returns (i: nat, j: nat)
    ensures FirstIn(contexts, generic).None? ==> forall m, n :: 0 <= m < |contexts| && 0 <= n < |contexts[m]| ==> !Maps(contexts[m][n], generic)
    ensures FirstIn(contexts, generic).Some? ==> FirstAt(contexts, generic, i, j) && FirstIn(contexts, generic) == Some(contexts[i][j])
  {
    i, j := 0, 0;
    if contexts != [] {
      j := FirstOfExact(contexts[0], generic);
      if FirstOf(contexts[0], generic).None? {
        var k;
        k, j := FirstInExact(contexts[1..], generic);
        i := k + 1;
        hide FirstOf, Maps;
        assert forall m :: 0 < m < |contexts| ==> contexts[m] == contexts[1..][m - 1];
      }
    }
  }

  lemma DeclaredIsFirst(store: Store, model: ModelId, generic: DomainId)
    ensures DeclaresSome(store, model, generic) <==> FirstIn(ContextsOf(store, model), generic).Some?
  {
    var contexts := ContextsOf(store, model);
    var i, j := FirstInExact(contexts, generic);
    hide FirstIn, Maps, ContextsOf;
    if FirstIn(contexts, generic).Some? {
      assert contexts[i][j] in contexts[i];
      assert Declares(store, model, generic, contexts[i][j]);
    }
    if DeclaresSome(store, model, generic) {
      var d :| Declares(store, model, generic, d);
      var m :| 0 <= m < |contexts| && d in contexts[m];
      var n :| 0 <= n < |contexts[m]| && contexts[m][n] == d;
    }
  }

  // ---------------------------------------------------------------- the order of imports

  /** `at` gives the import statement of each of the models, the last statement first, and leaves
      out no statement of the importing model. */
  ghost predicate Reversed(imports: seq<Import>, model: ModelId, models: seq<ModelId>, at: seq<nat>) {
    && |at| == |models|
    && (forall k :: 0 <= k < |at| ==> at[k] < |imports| && imports[at[k]] == Import(model, Some(models[k])))
    && (forall j, k :: 0 <= j < k < |at| ==> at[j] > at[k])
    && (forall i :: 0 <= i < |imports| && imports[i].importing == model && imports[i].imported.Some? ==> i in at)
  }

  lemma ReversedSkip(rest: seq<Import>, last: Import, model: ModelId, models: seq<ModelId>, at: seq<nat>)
    requires Reversed(rest, model, models, at) && !(last.importing == model && last.imported.Some?)
    ensures Reversed(rest + [last], model, models, at)
  {
  }

  lemma ReversedCons(rest: seq<Import>, b: ModelId, model: ModelId, models: seq<ModelId>, at: seq<nat>)
    requires Reversed(rest, model, models, at)
    ensures Reversed(rest + [Import(model, Some(b))], model, [b] + models, [|rest|] + at)
  {
    var imports, more, all := rest + [Import(model, Some(b))], [|rest|] + at, [b] + models;
    forall k | 0 <= k < |more| ensures more[k] < |imports| && imports[more[k]] == Import(model, Some(all[k])) {
      if k > 0 { assert more[k] == at[k - 1] && all[k] == models[k - 1]; }
    }
    forall j, k | 0 <= j < k < |more| ensures more[j] > more[k] {
      assert more[k] == at[k - 1];
      if j > 0 { assert more[j] == at[j - 1]; }
    }
    forall i | 0 <= i < |imports| && imports[i].importing == model && imports[i].imported.Some? ensures i in more {
      if i < |rest| { assert rest[i] == imports[i]; assert i in at; } else { assert more[0] == i; }
    }
  }

  /** The imported models stand in the reverse order of their import statements. */
  lemma {:induction false} ImportsReversed(imports: seq<Import>, model: ModelId) returns (at: seq<nat>)
    ensures Reversed(imports, model, ImportedBy(imports, model), at)
    decreases |imports|
  {
    if imports == [] { at := []; }
    else {
      var rest, last := imports[..|imports| - 1], imports[|imports| - 1];
      at := ImportsReversed(rest, model);
      hide Reversed;
      assert imports == rest + [last];
      if last.importing == model && last.imported.Some? {
        ReversedCons(rest, last.imported.value, model, ImportedBy(rest, model), at);
        assert last == Import(model, Some(last.imported.value));
        at := [|rest|] + at;
      } else {
        ReversedSkip(rest, last, model, ImportedBy(rest, model), at);
      }
    }
  }

  // ---------------------------------------------------------------- chains of imports

  function ImportsOf(store: Store, m: ModelId): seq<ModelId> {
    ImportedBy(store.imports, m)
  }

  /** The chain that takes these imports from m on meets no model twice and none of `taken`. */
  ghost predicate Free(store: Store, m: ModelId, p: seq<nat>, taken: set<ModelId>)
    decreases |p|
  {
    m !in taken &&
    (p == [] || (p[0] < |ImportsOf(store, m)| && Free(store, ImportsOf(store, m)[p[0]], p[1..], taken + {m})))
  }

  /** Where it ends. */
  ghost function End(store: Store, m: ModelId, p: seq<nat>): ModelId
    decreases |p|
  {
    if p == [] || p[0] >= |ImportsOf(store, m)| then m else End(store, ImportsOf(store, m)[p[0]], p[1..])
  }

  /** Earlier or the same in the order of chains. */
  predicate NotAfter(p: seq<nat>, q: seq<nat>)
    decreases |p|
  {
    p == [] || (q != [] && (p[0] < q[0] || (p[0] == q[0] && NotAfter(p[1..], q[1..]))))
  }

  ghost predicate Candidate(store: Store, m: ModelId, generic: DomainId, q: seq<nat>, taken: set<ModelId>) {
    q != [] && Free(store, m, q, taken) && DeclaresSome(store, End(store, m, q), generic)
  }

  /** The first chain to a model that declares a definition. */
  ghost predicate Least(store: Store, m: ModelId, generic: DomainId, p: seq<nat>, taken: set<ModelId>) {
    Candidate(store, m, generic, p, taken) && forall q :: Candidate(store, m, generic, q, taken) ==> NotAfter(p, q)
  }

  lemma {:induction false} FreeOfLess(store: Store, m: ModelId, p: seq<nat>, taken: set<ModelId>, fewer: set<ModelId>)
    requires Free(store, m, p, taken) && fewer <= taken
    ensures Free(store, m, p, fewer)
    decreases |p|
  {
    if p != [] { FreeOfLess(store, ImportsOf(store, m)[p[0]], p[1..], taken + {m}, fewer + {m}); }
  }

  /** From a finished model no free chain leads to a definition. */
  lemma {:induction false} FinishedLeadsNowhere(store: Store, generic: DomainId, marked: set<ModelId>, taken: set<ModelId>, m: ModelId, q: seq<nat>)
    requires AllFinished(store, generic, marked, marked - taken) && m in marked - taken
    requires q != [] && Free(store, m, q, taken)
    ensures !DeclaresSome(store, End(store, m, q), generic)
    decreases |q|
  {
    var n := ImportsOf(store, m)[q[0]];
    assert Imports(store, m, n) && Finished(store, generic, marked, m);
    hide DeclaresSome;
    if |q| > 1 {
      FreeOfLess(store, n, q[1..], taken + {m}, taken);
      FinishedLeadsNowhere(store, generic, marked, taken, n, q[1..]);
    } else {
      assert q[1..] == [];
    }
  }

  /** What the search knows when it enters a model: the marked models are finished or on the way
      to it, and nothing on the way declares a definition. */
  ghost predicate OnTheWay(store: Store, generic: DomainId, marked: set<ModelId>, taken: set<ModelId>) {
    taken <= marked && AllFinished(store, generic, marked, marked - taken) && forall x :: x in taken ==> !DeclaresSome(store, x, generic)
  }

  lemma {:induction false} SearchIsLeast(store: Store, model: ModelId, generic: DomainId, marked: set<ModelId>, all: set<ModelId>, taken: set<ModelId>)
      returns (p: seq<nat>)
    requires marked <= all && model in all && Mentioned(store) <= all
    requires OnTheWay(store, generic, marked, taken) && model !in marked && !DeclaresSome(store, model, generic)
    ensures
      var (r, more) := Search(store, model, generic, marked, all);
      && (r.None? ==> OnTheWay(store, generic, more, taken) && model in more)
      && (r.Some? ==> Least(store, model, generic, p, taken) && FirstIn(ContextsOf(store, End(store, model, p)), generic) == r)
    decreases all - marked, 0, 0
  {
    ImportedAreMentioned(store, model);
    var models := ImportsOf(store, model);
    hide Least, DeclaresSome, SearchList, End, FirstIn;
    assert models[0..] == models;
    FinishedGrows(store, generic, marked, marked + {model}, marked - taken);
    assert (marked + {model}) - (taken + {model}) == marked - taken;
    p := ListIsLeast(store, model, 0, generic, marked + {model}, all, taken);
  }

  /** The imports before the i-th are marked and declare nothing. */
  ghost predicate Behind(store: Store, model: ModelId, i: nat, generic: DomainId, marked: set<ModelId>) {
    i <= |ImportsOf(store, model)| && forall k :: 0 <= k < i ==> ImportsOf(store, model)[k] in marked && !DeclaresSome(store, ImportsOf(store, model)[k], generic)
  }

  /** No free chain to a definition begins with one of these imports. */
  lemma NotBehind(store: Store, model: ModelId, i: nat, generic: DomainId, marked: set<ModelId>, taken: set<ModelId>, q: seq<nat>)
    requires Behind(store, model, i, generic, marked) && model !in taken
    requires AllFinished(store, generic, marked, marked - (taken + {model})) && Candidate(store, model, generic, q, taken)
    ensures q[0] >= i
  {
    var n := ImportsOf(store, model)[q[0]];
    assert Free(store, n, q[1..], taken + {model}) && n !in taken + {model};
    assert End(store, model, q) == End(store, n, q[1..]) && End(store, n, []) == n;
    assert |q| == 1 ==> q[1..] == [];
    if q[0] < i && |q| > 1 {
      FinishedLeadsNowhere(store, generic, marked, taken + {model}, n, q[1..]);
    }
  }

  lemma {:induction false} ListIsLeast(store: Store, model: ModelId, i: nat, generic: DomainId, marked: set<ModelId>, all: set<ModelId>, taken: set<ModelId>)
      returns (p: seq<nat>)
    requires marked <= all && Mentioned(store) <= all && forall m :: m in ImportsOf(store, model) ==> m in all
    requires model in marked && model !in taken && OnTheWay(store, generic, marked, taken + {model})
    requires Behind(store, model, i, generic, marked)
    ensures
      var (r, more) := SearchList(store, ImportsOf(store, model)[i..], generic, marked, all);
      && (r.None? ==> OnTheWay(store, generic, more, taken) && model in more)
      && (r.Some? ==> Least(store, model, generic, p, taken) && FirstIn(ContextsOf(store, End(store, model, p)), generic) == r)
    decreases all - marked, 1, |ImportsOf(store, model)| - i
  {
    var models := ImportsOf(store, model);
    p := [];
    ListStep(store, models, i, generic, marked, all);
    hide SearchList, Search, FirstIn, DeclaresSome;
    if i == |models| {
      AllBehind(store, model, generic, marked, taken);
    } else {
      var n := models[i];
      DeclaredIsFirst(store, n, generic);
      if DeclaresSome(store, n, generic) {
        p := [i];
        HereIsLeast(store, model, i, generic, marked, taken);
      } else {
        var (found, more) := Search(store, n, generic, marked, all);
        var tail: seq<nat> := [];
        if n in marked {
          SearchMarked(store, n, generic, marked, all);
        } else {
          tail := SearchIsLeast(store, n, generic, marked, all, taken + {model});
        }
        if found.Some? {
          p := [i] + tail;
          ThereIsLeast(store, model, i, generic, marked, taken, tail);
        } else {
          assert Behind(store, model, i + 1, generic, more);
          p := ListIsLeast(store, model, i + 1, generic, more, all, taken);
        }
      }
    }
  }

  lemma SearchMarked(store: Store, n: ModelId, generic: DomainId, marked: set<ModelId>, all: set<ModelId>)
    requires marked <= all && n in all && Mentioned(store) <= all && n in marked
    ensures Search(store, n, generic, marked, all) == (None, marked)
  {
  }

  lemma ListStep(store: Store, models: seq<ModelId>, i: nat, generic: DomainId, marked: set<ModelId>, all: set<ModelId>)
    requires marked <= all && Mentioned(store) <= all && (forall m :: m in models ==> m in all) && i <= |models|
    ensures i == |models| ==> SearchList(store, models[i..], generic, marked, all) == (None, marked)
    ensures i < |models| && FirstIn(ContextsOf(store, models[i]), generic).Some? ==>
      SearchList(store, models[i..], generic, marked, all) == (FirstIn(ContextsOf(store, models[i]), generic), marked)
    ensures i < |models| && FirstIn(ContextsOf(store, models[i]), generic).None? ==>
      SearchList(store, models[i..], generic, marked, all) ==
        var (found, more) := Search(store, models[i], generic, marked, all);
        if found.Some? then (found, more) else SearchList(store, models[i + 1..], generic, more, all)
  {
    hide Search, FirstIn;
    if i < |models| { assert models[i..][0] == models[i] && models[i..][1..] == models[i + 1..]; }
  }

  lemma AllBehind(store: Store, model: ModelId, generic: DomainId, marked: set<ModelId>, taken: set<ModelId>)
    requires model in marked && model !in taken && OnTheWay(store, generic, marked, taken + {model})
    requires Behind(store, model, |ImportsOf(store, model)|, generic, marked)
    ensures OnTheWay(store, generic, marked, taken)
  {
    hide DeclaresSome;
    assert Finished(store, generic, marked, model);
    forall m | m in marked - taken ensures Finished(store, generic, marked, m) {
      if m != model { assert m in marked - (taken + {model}); }
    }
  }

  lemma HereIsLeast(store: Store, model: ModelId, i: nat, generic: DomainId, marked: set<ModelId>, taken: set<ModelId>)
    requires model !in taken && OnTheWay(store, generic, marked, taken + {model}) && Behind(store, model, i, generic, marked)
    requires i < |ImportsOf(store, model)| && DeclaresSome(store, ImportsOf(store, model)[i], generic)
    ensures Least(store, model, generic, [i], taken) && End(store, model, [i]) == ImportsOf(store, model)[i]
  {
    hide DeclaresSome, Behind, AllFinished;
    var n := ImportsOf(store, model)[i];
    assert n !in taken + {model};
    assert [i][1..] == [];
    assert Free(store, n, [], taken + {model}) && End(store, n, []) == n;
    assert Candidate(store, model, generic, [i], taken);
    forall q | Candidate(store, model, generic, q, taken) ensures NotAfter([i], q) {
      NotBehind(store, model, i, generic, marked, taken, q);
      assert NotAfter([], q[1..]);
    }
  }

  lemma ThereIsLeast(store: Store, model: ModelId, i: nat, generic: DomainId, marked: set<ModelId>, taken: set<ModelId>, tail: seq<nat>)
    requires model !in taken && OnTheWay(store, generic, marked, taken + {model}) && Behind(store, model, i, generic, marked)
    requires i < |ImportsOf(store, model)| && !DeclaresSome(store, ImportsOf(store, model)[i], generic)
    requires Least(store, ImportsOf(store, model)[i], generic, tail, taken + {model})
    ensures Least(store, model, generic, [i] + tail, taken) && End(store, model, [i] + tail) == End(store, ImportsOf(store, model)[i], tail)
  {
    hide DeclaresSome, Behind, AllFinished;
    var n, p := ImportsOf(store, model)[i], [i] + tail;
    assert p[1..] == tail;
    assert Candidate(store, model, generic, p, taken);
    forall q | Candidate(store, model, generic, q, taken) ensures NotAfter(p, q) {
      NotBehind(store, model, i, generic, marked, taken, q);
      if q[0] == i {
        if q[1..] == [] { assert End(store, n, []) == n; }
        assert Candidate(store, n, generic, q[1..], taken + {model});
      }
    }
  }

  /** A definition found in the imports is the own one of the model at the end of the first chain
      of different models that leads to a model with a definition. */
  lemma FoundIsFirst(store: Store, model: ModelId, generic: DomainId) returns (p: seq<nat>)
    requires !DeclaresSome(store, model, generic)
    requires Search(store, model, generic, {}, Mentioned(store) + {model}).0.Some?
    ensures Least(store, model, generic, p, {})
    ensures FirstIn(ContextsOf(store, End(store, model, p)), generic) == Search(store, model, generic, {}, Mentioned(store) + {model}).0
  {
    hide Search, Least, DeclaresSome, End, FirstIn;
    assert OnTheWay(store, generic, {}, {});
    p := SearchIsLeast(store, model, generic, {}, Mentioned(store) + {model}, {});
  }
}
