/** The search for a generic domain's definition in a model and, transitively, in the models
    it imports. Imports may be cyclic. */
module ImportSearch {
  import opened Options

  type ModelId = nat
  type DomainId = nat

  datatype GenericDef = GenericDef(id: nat, domains: seq<DomainId>)

  /** An import statement; what is imported need not be a model. */
  datatype Import = Import(importing: ModelId, imported: Option<ModelId>)

  /** Contexts of every model, in declaration order, and all imports. */
  datatype Store = Store(contexts: map<ModelId, seq<seq<GenericDef>>>, imports: seq<Import>)

  function ContextsOf(store: Store, model: ModelId): seq<seq<GenericDef>> {
    if model in store.contexts then store.contexts[model] else []
  }

  predicate Maps(d: GenericDef, generic: DomainId) {
    d.domains != [] && d.domains[0] == generic
  }

  /** The model declares this definition for the domain. */
  predicate Declares(store: Store, model: ModelId, generic: DomainId, d: GenericDef) {
    Maps(d, generic) && exists i :: 0 <= i < |ContextsOf(store, model)| && d in ContextsOf(store, model)[i]
  }

  ghost predicate DeclaresSome(store: Store, model: ModelId, generic: DomainId) {
    exists d :: Declares(store, model, generic, d)
  }

  /** The first definition of a sequence that maps the domain. */
  function FirstOf(defs: seq<GenericDef>, generic: DomainId): Option<GenericDef> {
    if defs == [] then None else if Maps(defs[0], generic) then Some(defs[0]) else FirstOf(defs[1..], generic)
  }

  function FirstIn(contexts: seq<seq<GenericDef>>, generic: DomainId): Option<GenericDef> {
    if contexts == [] then None
    else if FirstOf(contexts[0], generic).Some? then FirstOf(contexts[0], generic)
    else FirstIn(contexts[1..], generic)
  }

  /** `generic_definition_in`: the first definition for the domain, in declaration order. */
  method DefinitionIn(store: Store, model: ModelId, generic: DomainId) returns (r: Option<GenericDef>)
    ensures r == FirstIn(ContextsOf(store, model), generic)
    ensures r.Some? ==> Declares(store, model, generic, r.value)
    ensures r.None? ==> !DeclaresSome(store, model, generic)
  {
    var contexts := ContextsOf(store, model);
    for i := 0 to |contexts|
      invariant FirstIn(contexts, generic) == FirstIn(contexts[i..], generic)
      invariant forall k, d :: 0 <= k < i && d in contexts[k] ==> !Maps(d, generic)
    {
      assert contexts[i..][1..] == contexts[i + 1..];
      for j := 0 to |contexts[i]|
        invariant FirstOf(contexts[i], generic) == FirstOf(contexts[i][j..], generic)
        invariant forall n :: 0 <= n < j ==> !Maps(contexts[i][n], generic)
      {
        assert contexts[i][j..][1..] == contexts[i][j + 1..];
        if Maps(contexts[i][j], generic) {
          assert contexts[i][j] in contexts[i];
          return Some(contexts[i][j]);
        }
      }
    }
    return None;
  }

  predicate Imports(store: Store, a: ModelId, b: ModelId) {
    Import(a, Some(b)) in store.imports
  }

  /** The models a model imports, the last declared import first. */
  function ImportedBy(imports: seq<Import>, model: ModelId): (r: seq<ModelId>)
    ensures forall b :: b in r <==> Import(model, Some(b)) in imports
  {
    if imports == [] then []
    else
      var rest, last := imports[..|imports| - 1], imports[|imports| - 1];
      assert imports == rest + [last];
      if last.importing == model && last.imported.Some? then [last.imported.value] + ImportedBy(rest, model)
      else ImportedBy(rest, model)
  }

  /** `directly_imported_models`: collected in order, then reversed. */
  method DirectlyImported(store: Store, model: ModelId) returns (result: seq<ModelId>)
    ensures result == ImportedBy(store.imports, model)
  {
    result := [];
    for i := 0 to |store.imports|
      invariant result == ImportedBy(store.imports[..i], model)
    {
      var imp := store.imports[i];
      assert store.imports[..i + 1][..i] == store.imports[..i];
      if imp.importing == model && imp.imported.Some? { result := [imp.imported.value] + result; }
    }
    assert store.imports[..|store.imports|] == store.imports;
  }

  // ---------------------------------------------------------------- reachability

  /** A chain of imports. */
  ghost predicate Chain(store: Store, p: seq<ModelId>) {
    p != [] && forall i :: 0 <= i < |p| - 1 ==> Imports(store, p[i], p[i + 1])
  }

  /** b is reached from a by one or more imports. */
  ghost predicate ReachedFrom(store: Store, a: ModelId, b: ModelId) {
    exists p :: Chain(store, p) && |p| >= 2 && p[0] == a && p[|p| - 1] == b
  }

  lemma ChainCons(store: Store, a: ModelId, p: seq<ModelId>)
    requires Chain(store, p) && Imports(store, a, p[0])
    ensures Chain(store, [a] + p)
  {
    var q := [a] + p;
    forall i | 0 <= i < |q| - 1 ensures Imports(store, q[i], q[i + 1]) {
      if i > 0 { assert q[i] == p[i - 1] && q[i + 1] == p[i]; }
    }
  }

  lemma ReachedStep(store: Store, a: ModelId, b: ModelId, c: ModelId)
    requires Imports(store, a, b) && (c == b || ReachedFrom(store, b, c))
    ensures ReachedFrom(store, a, c)
  {
    if c == b {
      assert Chain(store, [a, b]);
      var p := [a, b];
      assert p[0] == a && p[|p| - 1] == b;
    } else {
      var p :| Chain(store, p) && |p| >= 2 && p[0] == b && p[|p| - 1] == c;
      ChainCons(store, a, p);
      var q := [a] + p;
      assert Chain(store, q) && |q| >= 2 && q[0] == a && q[|q| - 1] == c;
    }
  }

  // ---------------------------------------------------------------- the search

  /** All models an import mentions; the search marks no other models but its start. */
  ghost function Mentioned(store: Store): set<ModelId> {
    set i | 0 <= i < |store.imports| && store.imports[i].imported.Some? :: store.imports[i].imported.value
  }

  lemma ImportedIsMentioned(store: Store, a: ModelId, b: ModelId)
    requires Imports(store, a, b)
    ensures b in Mentioned(store)
  {
    var i :| 0 <= i < |store.imports| && store.imports[i] == Import(a, Some(b));
    assert store.imports[i].imported.value == b;
  }

  lemma ImportedAreMentioned(store: Store, model: ModelId)
    ensures forall m :: m in ImportedBy(store.imports, model) ==> m in Mentioned(store)
  {
    forall m | m in ImportedBy(store.imports, model) ensures m in Mentioned(store) {
      ImportedIsMentioned(store, model, m);
    }
  }

  /** The search in its order: each imported model first, then what it imports, with the
      marked models threaded through. `all` bounds what can be marked. */
  ghost function Search(store: Store, model: ModelId, generic: DomainId, marked: set<ModelId>, all: set<ModelId>):
    (r: (Option<GenericDef>, set<ModelId>))
    requires marked <= all && model in all && Mentioned(store) <= all
    ensures marked <= r.1 <= all
    decreases all - marked, 0, 0
  {
    if model in marked then (None, marked)
    else
      ImportedAreMentioned(store, model);
      SearchList(store, ImportedBy(store.imports, model), generic, marked + {model}, all)
  }

  ghost function SearchList(store: Store, models: seq<ModelId>, generic: DomainId, marked: set<ModelId>, all: set<ModelId>):
    (r: (Option<GenericDef>, set<ModelId>))
    requires marked <= all && Mentioned(store) <= all && forall m :: m in models ==> m in all
    ensures marked <= r.1 <= all
    decreases all - marked, 1, |models|
  {
    if models == [] then (None, marked)
    else
      var declared := FirstIn(ContextsOf(store, models[0]), generic);
      if declared.Some? then (declared, marked)
      else
        var (found, more) := Search(store, models[0], generic, marked, all);
        assert all - more <= all - marked;
        if found.Some? then (found, more) else SearchList(store, models[1..], generic, more, all)
  }

  /** Model m is finished: everything it imports is marked and declares nothing. */
  ghost predicate Finished(store: Store, generic: DomainId, marked: set<ModelId>, m: ModelId) {
    forall b :: Imports(store, m, b) ==> b in marked && !DeclaresSome(store, b, generic)
  }

  ghost predicate AllFinished(store: Store, generic: DomainId, marked: set<ModelId>, ms: set<ModelId>) {
    forall m :: m in ms ==> Finished(store, generic, marked, m)
  }

  lemma FinishedGrows(store: Store, generic: DomainId, marked: set<ModelId>, more: set<ModelId>, ms: set<ModelId>)
    requires AllFinished(store, generic, marked, ms) && marked <= more
    ensures AllFinished(store, generic, more, ms)
  {
    forall m | m in ms ensures Finished(store, generic, more, m) {
      assert Finished(store, generic, marked, m);
    }
  }

  /** `generic_definition_in_imports`; the set of visited models is passed on and returned. */
  method DefinitionInImports(store: Store, model: ModelId, generic: DomainId, visited: set<ModelId>, ghost all: set<ModelId>)
    returns (r: Option<GenericDef>, visited': set<ModelId>)
    requires visited <= all && model in all && Mentioned(store) <= all
    ensures visited <= visited' <= all && model in visited'
    ensures r.Some? ==> exists m :: ReachedFrom(store, model, m) && Declares(store, m, generic, r.value)
    ensures r.None? ==> AllFinished(store, generic, visited', visited' - visited)
    ensures (r, visited') == Search(store, model, generic, visited, all)
    decreases all - visited
  {
    if model in visited { return None, visited; }
    visited' := visited + {model};
    var imported := DirectlyImported(store, model);
    ImportedAreMentioned(store, model);
    for i := 0 to |imported|
      invariant visited + {model} <= visited' <= all
      invariant Search(store, model, generic, visited, all) == SearchList(store, imported[i..], generic, visited', all)
      invariant AllFinished(store, generic, visited', visited' - visited - {model})
      invariant forall k :: 0 <= k < i ==> imported[k] in visited' && !DeclaresSome(store, imported[k], generic)
    {
      var m := imported[i];
      assert Imports(store, model, m);
      assert imported[i..][1..] == imported[i + 1..];
      r := DefinitionIn(store, m, generic);
      if r.Some? {
        ReachedStep(store, model, m, m);
        return;
      }
      ghost var before := visited';
      r, visited' := DefinitionInImports(store, m, generic, visited', all);
      if r.Some? {
        var d := r.value;
        ghost var reached :| ReachedFrom(store, m, reached) && Declares(store, reached, generic, d);
        ReachedStep(store, model, m, reached);
        return;
      }
      FinishedGrows(store, generic, before, visited', before - visited - {model});
      assert visited' - visited - {model} == (before - visited - {model}) + (visited' - before);
    }
    assert Finished(store, generic, visited', model);
    assert visited' - visited == (visited' - visited - {model}) + {model};
    r := None;
  }

  lemma {:induction false} NothingReached(store: Store, generic: DomainId, marked: set<ModelId>, p: seq<ModelId>)
    requires AllFinished(store, generic, marked, marked)
    requires Chain(store, p) && p[0] in marked
    ensures p[|p| - 1] in marked && (|p| >= 2 ==> !DeclaresSome(store, p[|p| - 1], generic))
    decreases |p|
  {
    if |p| >= 2 {
      assert Imports(store, p[0], p[1]) && Finished(store, generic, marked, p[0]);
      var q := p[1..];
      assert forall i :: 0 <= i < |q| - 1 ==> Imports(store, q[i], q[i + 1]) by {
        forall i | 0 <= i < |q| - 1 ensures Imports(store, q[i], q[i + 1]) {
          assert q[i] == p[i + 1] && q[i + 1] == p[i + 2];
        }
      }
      NothingReached(store, generic, marked, q);
    }
  }

  /** `visible_generic_definition` finds a definition exactly when the model itself or a model
      reached by one or more imports declares one, and returns such a definition. */
  method VisibleDefinition(store: Store, model: ModelId, generic: DomainId) returns (r: Option<GenericDef>)
    ensures r.Some? <==>
      (DeclaresSome(store, model, generic) || exists m :: ReachedFrom(store, model, m) && DeclaresSome(store, m, generic))
    ensures r.Some? ==>
      (Declares(store, model, generic, r.value) || exists m :: ReachedFrom(store, model, m) && Declares(store, m, generic, r.value))
    ensures r == (if FirstIn(ContextsOf(store, model), generic).Some? then FirstIn(ContextsOf(store, model), generic)
                  else Search(store, model, generic, {}, Mentioned(store) + {model}).0)
  {
    r := DefinitionIn(store, model, generic);
    if r.Some? { return; }
    var visited;
    r, visited := DefinitionInImports(store, model, generic, {}, Mentioned(store) + {model});
    if r.None? {
      assert visited - {} == visited;
      forall m | ReachedFrom(store, model, m) ensures !DeclaresSome(store, m, generic) {
        var p :| Chain(store, p) && |p| >= 2 && p[0] == model && p[|p| - 1] == m;
        NothingReached(store, generic, visited, p);
      }
    }
  }
}
