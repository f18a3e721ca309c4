/** The compile passes of a compilation run: files are compiled once all models they
    require are compiled, in repeated passes over the loaded files. */
module Scheduler {
  import opened Options

  /** A loaded file; the table position stands for the object's identity. */
  datatype File = File(path: string, version: string, models: seq<string>, required: seq<string>)

  type Table = seq<File>
  type FileId = nat

  predicate Supported(f: File) {
    f.version == "1.0" || f.version == "2.3" || f.version == "2.4"
  }

  /** The models a compiled file makes available. */
  function Provides(f: File): set<string> {
    (set m | m in f.models) + (if f.path == "INTERLIS" then {"INTERLIS"} else {})
  }

  predicate Known(table: Table, id: FileId) {
    id < |table|
  }

  ghost predicate Provided(table: Table, done: set<FileId>, model: string) {
    exists id :: id in done && Known(table, id) && model in Provides(table[id])
  }

  /** Every required model is declared in the file itself or compiled already. */
  ghost predicate Ready(table: Table, done: set<FileId>, id: FileId)
    requires Known(table, id)
  {
    forall r :: r in table[id].required ==> r in table[id].models || Provided(table, done, r)
  }

  ghost predicate Compilable(table: Table, done: set<FileId>, file: Option<FileId>) {
    file.Some? && Known(table, file.value) && Supported(table[file.value]) && Ready(table, done, file.value)
  }

  // ---------------------------------------------------------------- the least fixpoint

  /** What the attempt on the built-in file before the passes compiles. */
  ghost function Initially(table: Table, builtin: Option<FileId>): set<FileId> {
    if Compilable(table, {}, builtin) then {builtin.value} else {}
  }

  /** No loaded file that is ready is missing. */
  ghost predicate Closed(table: Table, files: seq<Option<FileId>>, done: set<FileId>) {
    forall k :: 0 <= k < |files| && Compilable(table, done, files[k]) ==> files[k].value in done
  }

  ghost predicate Fixpoint(table: Table, files: seq<Option<FileId>>, start: set<FileId>, done: set<FileId>) {
    start <= done && Closed(table, files, done)
  }

  ghost predicate LeastFixpoint(table: Table, files: seq<Option<FileId>>, start: set<FileId>, done: set<FileId>) {
    Fixpoint(table, files, start, done) &&
    forall other :: Fixpoint(table, files, start, other) ==> done <= other
  }

  lemma ReadyGrows(table: Table, done: set<FileId>, more: set<FileId>, id: FileId)
    requires Known(table, id) && done <= more && Ready(table, done, id)
    ensures Ready(table, more, id)
  {
    forall r | r in table[id].required ensures r in table[id].models || Provided(table, more, r) {
      if r !in table[id].models {
        assert Provided(table, done, r);
      }
    }
  }

  /** There is only one least fixpoint. */
  lemma LeastIsUnique(table: Table, files: seq<Option<FileId>>, start: set<FileId>, a: set<FileId>, b: set<FileId>)
    requires LeastFixpoint(table, files, start, a) && LeastFixpoint(table, files, start, b)
    ensures a == b
  {
    assert a <= b && b <= a;
  }

  // ---------------------------------------------------------------- compiling one file

  ghost function Ids(compiled: seq<FileId>): set<FileId> {
    set i | 0 <= i < |compiled| :: compiled[i]
  }

  ghost predicate Distinct(compiled: seq<FileId>) {
    forall i, j :: 0 <= i < j < |compiled| ==> compiled[i] != compiled[j]
  }

  /** Every compiled file found its required models in itself or in files compiled before. */
  ghost predicate InOrder(table: Table, compiled: seq<FileId>) {
    forall i :: 0 <= i < |compiled| ==> Known(table, compiled[i]) && Ready(table, Ids(compiled[..i]), compiled[i])
  }

  ghost predicate Consistent(table: Table, compiled: seq<FileId>, models: set<string>) {
    && Distinct(compiled) && InOrder(table, compiled)
    && (forall i :: 0 <= i < |compiled| ==> Supported(table[compiled[i]]))
    && (forall m :: m in models <==> Provided(table, Ids(compiled), m))
  }

  lemma IdsAppend(compiled: seq<FileId>, id: FileId)
    ensures Ids(compiled + [id]) == Ids(compiled) + {id}
  {
    var more := compiled + [id];
    assert more[|compiled|] == id;
    forall x | x in Ids(compiled) ensures x in Ids(more) {
      var i :| 0 <= i < |compiled| && compiled[i] == x;
      assert more[i] == x;
    }
  }

  lemma AppendConsistent(table: Table, compiled: seq<FileId>, models: set<string>, id: FileId)
    requires Consistent(table, compiled, models)
    requires Known(table, id) && id !in Ids(compiled) && Supported(table[id]) && Ready(table, Ids(compiled), id)
    ensures Consistent(table, compiled + [id], models + Provides(table[id]))
  {
    var more := compiled + [id];
    IdsAppend(compiled, id);
    forall i | 0 <= i < |more| ensures Known(table, more[i]) && Ready(table, Ids(more[..i]), more[i]) {
      if i < |compiled| {
        assert more[..i] == compiled[..i] && more[i] == compiled[i];
      } else {
        assert more[..i] == compiled;
      }
    }
    forall m ensures m in models + Provides(table[id]) <==> Provided(table, Ids(more), m) {
      if Provided(table, Ids(more), m) {
        var f :| f in Ids(more) && Known(table, f) && m in Provides(table[f]);
        if f != id { assert Provided(table, Ids(compiled), m); }
      } else {
        assert id in Ids(more);
      }
    }
  }

  /** `compileFile`: whether nothing remains to be done for the file, and what is compiled. */
  method CompileFile(table: Table, file: Option<FileId>, compiledFiles: seq<FileId>, compiledModels: set<string>)
    returns (ok: bool, compiledFiles': seq<FileId>, compiledModels': set<string>)
    requires Consistent(table, compiledFiles, compiledModels)
    requires file.Some? ==> Known(table, file.value)
    ensures Consistent(table, compiledFiles', compiledModels')
    ensures var done := Ids(compiledFiles);
      if Compilable(table, done, file) && file.value !in done then
        ok && compiledFiles' == compiledFiles + [file.value] && Ids(compiledFiles') == done + {file.value}
      else
        && compiledFiles' == compiledFiles && compiledModels' == compiledModels
        && (ok <==> file.Some? && (!Supported(table[file.value]) || file.value in done))
  {
    compiledFiles', compiledModels' := compiledFiles, compiledModels;
    if file.None? { return false, compiledFiles', compiledModels'; }
    var id := file.value;
    if !Supported(table[id]) { return true, compiledFiles', compiledModels'; }
    for i := 0 to |compiledFiles|
      invariant forall k :: 0 <= k < i ==> compiledFiles[k] != id
    {
      if compiledFiles[i] == id { return true, compiledFiles', compiledModels'; }
    }
    var required := table[id].required;
    for i := 0 to |required|
      invariant forall k :: 0 <= k < i ==> required[k] in compiledModels || required[k] in table[id].models
    {
      var found := required[i] in compiledModels;
      for k := 0 to |table[id].models|
        invariant found <==> required[i] in compiledModels || exists n :: 0 <= n < k && table[id].models[n] == required[i]
      {
        found := found || table[id].models[k] == required[i];
      }
      if !found { return false, compiledFiles', compiledModels'; }
    }
    AppendConsistent(table, compiledFiles, compiledModels, id);
    IdsAppend(compiledFiles, id);
    compiledFiles' := compiledFiles + [id];
    compiledModels' := compiledModels + Provides(table[id]);
    ok := true;
  }

  // ---------------------------------------------------------------- the passes

  ghost function Listed(files: seq<Option<FileId>>): set<FileId> {
    set k | 0 <= k < |files| && files[k].Some? :: files[k].value
  }

  lemma {:induction false} ListedCount(files: seq<Option<FileId>>)
    ensures |Listed(files)| <= |files|
  {
    if files != [] {
      var n := |files| - 1;
      ListedCount(files[..n]);
      var last := if files[n].Some? then {files[n].value} else {};
      assert Listed(files) <= Listed(files[..n]) + last by {
        forall x | x in Listed(files) ensures x in Listed(files[..n]) + last {
          var k :| 0 <= k < |files| && files[k].Some? && files[k].value == x;
          if k < n { assert files[..n][k] == files[k]; }
        }
      }
      SubsetCount(Listed(files), Listed(files[..n]) + last);
    }
  }

  lemma {:induction false} SubsetCount<T>(a: set<T>, b: set<T>)
    requires a <= b
    ensures |a| <= |b|
    ensures |a| == |b| ==> a == b
  {
    if a != {} {
      var x :| x in a;
      SubsetCount(a - {x}, b - {x});
    }
  }

  /** Nothing is left over: neither a missing file object nor a supported file. */
  ghost predicate Settled(table: Table, files: seq<Option<FileId>>, done: set<FileId>) {
    forall k :: 0 <= k < |files| ==> FileSettled(table, files[k], done)
  }

  ghost predicate FileSettled(table: Table, file: Option<FileId>, done: set<FileId>) {
    file.Some? && Known(table, file.value) && (Supported(table[file.value]) ==> file.value in done)
  }

  /** The part of the compiled set that every fixpoint contains. */
  ghost predicate Below(table: Table, files: seq<Option<FileId>>, start: set<FileId>, done: set<FileId>) {
    && start <= done && done - start <= Listed(files)
    && forall other :: Fixpoint(table, files, start, other) ==> done <= other
  }

  lemma BelowStep(table: Table, files: seq<Option<FileId>>, start: set<FileId>, done: set<FileId>, k: nat)
    requires Below(table, files, start, done) && k < |files| && Compilable(table, done, files[k])
    ensures Below(table, files, start, done + {files[k].value})
  {
    var id := files[k].value;
    assert id in Listed(files);
    forall other | Fixpoint(table, files, start, other) ensures done + {id} <= other {
      ReadyGrows(table, done, other, id);
      assert Compilable(table, other, files[k]);
    }
  }

  /** One pass over the files. If it compiled nothing, nothing ready was left. */
  method Pass(table: Table, files: seq<Option<FileId>>, ghost start: set<FileId>,
              compiledFiles: seq<FileId>, compiledModels: set<string>)
    returns (allCompiled: bool, compiledFiles': seq<FileId>, compiledModels': set<string>)
    requires Consistent(table, compiledFiles, compiledModels)
    requires forall k :: 0 <= k < |files| && files[k].Some? ==> Known(table, files[k].value)
    requires Below(table, files, start, Ids(compiledFiles))
    ensures Consistent(table, compiledFiles', compiledModels')
    ensures Below(table, files, start, Ids(compiledFiles'))
    ensures compiledFiles <= compiledFiles' && Ids(compiledFiles) <= Ids(compiledFiles')
    ensures Ids(compiledFiles') == Ids(compiledFiles) ==> Closed(table, files, Ids(compiledFiles'))
    ensures Closed(table, files, Ids(compiledFiles)) ==> Ids(compiledFiles') == Ids(compiledFiles)
    ensures allCompiled ==> Settled(table, files, Ids(compiledFiles'))
    ensures Settled(table, files, Ids(compiledFiles)) ==> allCompiled
  {
    hide Consistent, Below;
    ghost var before := Ids(compiledFiles);
    allCompiled, compiledFiles', compiledModels' := true, compiledFiles, compiledModels;
    for i := 0 to |files|
      invariant Consistent(table, compiledFiles', compiledModels')
      invariant Below(table, files, start, Ids(compiledFiles'))
      invariant compiledFiles <= compiledFiles' && before <= Ids(compiledFiles')
      invariant Ids(compiledFiles') == before ==>
        forall k :: 0 <= k < i && Compilable(table, before, files[k]) ==> files[k].value in before
      invariant Closed(table, files, before) ==> Ids(compiledFiles') == before
      invariant allCompiled ==> forall k :: 0 <= k < i ==> FileSettled(table, files[k], Ids(compiledFiles'))
      invariant (forall k :: 0 <= k < i ==> FileSettled(table, files[k], before)) ==> allCompiled
    {
      ghost var done := Ids(compiledFiles');
      if Compilable(table, done, files[i]) { BelowStep(table, files, start, done, i); }
      var ok;
      ok, compiledFiles', compiledModels' := CompileFile(table, files[i], compiledFiles', compiledModels');
      allCompiled := ok && allCompiled;
    }
  }

  lemma SettledIsClosed(table: Table, files: seq<Option<FileId>>, done: set<FileId>)
    requires Settled(table, files, done)
    ensures Closed(table, files, done)
  {
    forall k | 0 <= k < |files| && Compilable(table, done, files[k]) ensures files[k].value in done {
      assert FileSettled(table, files[k], done);
    }
  }

  /** As many new files as entries in the list: every listed file is compiled. */
  lemma CountedIsClosed(table: Table, files: seq<Option<FileId>>, start: set<FileId>, done: set<FileId>)
    requires Below(table, files, start, done) && |done - start| >= |files|
    ensures Closed(table, files, done)
  {
    ListedCount(files);
    SubsetCount(done - start, Listed(files));
    forall k | 0 <= k < |files| && Compilable(table, done, files[k]) ensures files[k].value in done {
      assert files[k].value in Listed(files);
    }
  }

  // ---------------------------------------------------------------- orders of compilation

  /** A model is at hand: declared in one of the files, or the built-in one by its file. */
  ghost predicate AtHand(table: Table, done: seq<FileId>, model: string) {
    exists j :: 0 <= j < |done| && Known(table, done[j]) &&
      (model in table[done[j]].models || (model == "INTERLIS" && table[done[j]].path == "INTERLIS"))
  }

  /** The file may come next: its version is one of the three, and every model it requires is its
      own or at hand. */
  ghost predicate MayFollow(table: Table, done: seq<FileId>, id: FileId) {
    && Known(table, id) && table[id].version in {"1.0", "2.3", "2.4"}
    && forall r :: r in table[id].required ==> r in table[id].models || AtHand(table, done, r)
  }

  /** An order in which files of the list can be compiled, the built-in file possibly first. */
  ghost predicate Derivation(table: Table, files: seq<Option<FileId>>, builtin: Option<FileId>, d: seq<FileId>) {
    forall k :: 0 <= k < |d| ==> MayFollow(table, d[..k], d[k]) && (Some(d[k]) in files || (k == 0 && builtin == Some(d[k])))
  }

  /** A file that should have been compiled, or is missing. */
  ghost predicate Stranded(table: Table, file: Option<FileId>, compiled: seq<FileId>) {
    file.None? || (Known(table, file.value) && table[file.value].version in {"1.0", "2.3", "2.4"} && file.value !in compiled)
  }

  lemma AtHandIsProvided(table: Table, done: seq<FileId>, model: string)
    ensures AtHand(table, done, model) <==> Provided(table, Ids(done), model)
  {
    if AtHand(table, done, model) {
      var j :| 0 <= j < |done| && Known(table, done[j]) &&
        (model in table[done[j]].models || (model == "INTERLIS" && table[done[j]].path == "INTERLIS"));
      assert done[j] in Ids(done) && model in Provides(table[done[j]]);
    }
    if Provided(table, Ids(done), model) {
      var id :| id in Ids(done) && Known(table, id) && model in Provides(table[id]);
      var j :| 0 <= j < |done| && done[j] == id;
    }
  }

  lemma MayFollowIsReady(table: Table, done: seq<FileId>, id: FileId)
    requires Known(table, id)
    ensures MayFollow(table, done, id) <==> Supported(table[id]) && Ready(table, Ids(done), id)
  {
    hide AtHand, Provided;
    forall r | r in table[id].required ensures AtHand(table, done, r) <==> Provided(table, Ids(done), r) {
      AtHandIsProvided(table, done, r);
    }
  }

  lemma {:induction false} DerivedIsCompiled(table: Table, files: seq<Option<FileId>>, builtin: Option<FileId>, d: seq<FileId>,
                                             done: set<FileId>, id: FileId)
    requires Derivation(table, files, builtin, d) && id in d
    requires LeastFixpoint(table, files, Initially(table, builtin), done)
    ensures id in done
    decreases |d|
  {
    var n := |d| - 1;
    var init := d[..n];
    hide MayFollow, Provided;
    forall k | 0 <= k < n ensures MayFollow(table, init[..k], init[k]) && (Some(init[k]) in files || (k == 0 && builtin == Some(init[k]))) {
      assert init[..k] == d[..k] && init[k] == d[k];
    }
    assert Derivation(table, files, builtin, init);
    forall x | x in init ensures x in done { DerivedIsCompiled(table, files, builtin, init, done, x); }
    assert MayFollow(table, d[..n], d[n]);
    LastIsCompiled(table, files, builtin, init, d[n], done);
    assert d == init + [d[n]];
  }

  lemma LastIsCompiled(table: Table, files: seq<Option<FileId>>, builtin: Option<FileId>, before: seq<FileId>, id: FileId, done: set<FileId>)
    requires MayFollow(table, before, id) && (Some(id) in files || (before == [] && builtin == Some(id)))
    requires LeastFixpoint(table, files, Initially(table, builtin), done) && forall x :: x in before ==> x in done
    ensures id in done
  {
    assert Known(table, id);
    MayFollowIsReady(table, before, id);
    hide MayFollow, Provided, Supported;
    if Some(id) in files {
      ReadyGrows(table, Ids(before), done, id);
      var k :| 0 <= k < |files| && files[k] == Some(id);
      assert Compilable(table, done, files[k]);
    } else {
      assert Ids(before) == {};
      assert Compilable(table, {}, builtin);
    }
  }

  ghost predicate AllSupported(table: Table, compiled: seq<FileId>) {
    forall i :: 0 <= i < |compiled| ==> Known(table, compiled[i]) && Supported(table[compiled[i]])
  }

  ghost predicate BuiltinFirst(table: Table, builtin: Option<FileId>, compiled: seq<FileId>) {
    Initially(table, builtin) != {} ==> compiled != [] && Initially(table, builtin) == {compiled[0]} && builtin == Some(compiled[0])
  }

  lemma CompiledIsDerivation(table: Table, files: seq<Option<FileId>>, builtin: Option<FileId>, compiled: seq<FileId>)
    requires Distinct(compiled) && InOrder(table, compiled) && AllSupported(table, compiled)
    requires Ids(compiled) - Initially(table, builtin) <= Listed(files)
    requires BuiltinFirst(table, builtin, compiled)
    ensures Derivation(table, files, builtin, compiled)
  {
    forall k | 0 <= k < |compiled| ensures MayFollow(table, compiled[..k], compiled[k]) && (Some(compiled[k]) in files || (k == 0 && builtin == Some(compiled[k]))) {
      MayFollowIsReady(table, compiled[..k], compiled[k]);
      assert compiled[k] in Ids(compiled);
      if compiled[k] in Listed(files) {
        var n :| 0 <= n < |files| && files[n].Some? && files[n].value == compiled[k];
        assert files[n] == Some(compiled[k]);
      } else {
        assert compiled[k] in Initially(table, builtin);
      }
    }
  }

  lemma StrandedUnsettled(table: Table, files: seq<Option<FileId>>, compiled: seq<FileId>)
    requires forall k :: 0 <= k < |files| && files[k].Some? ==> Known(table, files[k].value)
    ensures Settled(table, files, Ids(compiled)) <==> forall k :: 0 <= k < |files| ==> !Stranded(table, files[k], compiled)
  {
    forall k | 0 <= k < |files| ensures FileSettled(table, files[k], Ids(compiled)) <==> !Stranded(table, files[k], compiled) {
    }
  }

  /** The attempt on the built-in file and the loop over the passes. */
  method RunPasses(table: Table, files: seq<Option<FileId>>, builtin: Option<FileId>)
    returns (compiledFiles: seq<FileId>, unableToOrder: bool)
    requires forall k :: 0 <= k < |files| && files[k].Some? ==> Known(table, files[k].value)
    requires builtin.Some? ==> Known(table, builtin.value)
    ensures Distinct(compiledFiles) && InOrder(table, compiledFiles)
    ensures LeastFixpoint(table, files, Initially(table, builtin), Ids(compiledFiles))
    ensures unableToOrder <==> !Settled(table, files, Ids(compiledFiles))
    ensures AllSupported(table, compiledFiles) && BuiltinFirst(table, builtin, compiledFiles)
    ensures Ids(compiledFiles) - Initially(table, builtin) <= Listed(files)
  {
    compiledFiles := [];
    var compiledModels: set<string> := {};
    assert Ids(compiledFiles) == {};
    var _, compiledFiles', compiledModels' := CompileFile(table, builtin, compiledFiles, compiledModels);
    compiledFiles, compiledModels := compiledFiles', compiledModels';
    ghost var start := Initially(table, builtin);
    assert Ids(compiledFiles) == start;
    unableToOrder := false;
    var allCompiled := false;
    var pass := 0;
    while pass <= |files| && !allCompiled
      invariant pass <= |files| + 1
      invariant Consistent(table, compiledFiles, compiledModels)
      invariant Below(table, files, start, Ids(compiledFiles)) && BuiltinFirst(table, builtin, compiledFiles)
      invariant PassState(table, files, start, Ids(compiledFiles), pass, allCompiled, unableToOrder)
      decreases |files| + 1 - pass
    {
      ghost var before := Ids(compiledFiles);
      allCompiled, compiledFiles, compiledModels := Pass(table, files, start, compiledFiles, compiledModels);
      PassAdvances(table, files, start, before, Ids(compiledFiles), pass, allCompiled);
      if !allCompiled && pass == |files| { unableToOrder := true; }
      pass := pass + 1;
    }
    if allCompiled { SettledIsClosed(table, files, Ids(compiledFiles)); }
  }

  lemma IdIsCompiled(compiled: seq<FileId>, id: FileId)
    requires id in Ids(compiled)
    ensures id in compiled
  {
  }

  /** The scheduling part of `CompilationRun::run`: one attempt on the built-in file, then
      passes over the files, as many as there are files and one more. */
  method Schedule(table: Table, files: seq<Option<FileId>>, builtin: Option<FileId>)
    returns (compiledFiles: seq<FileId>, unableToOrder: bool)
    requires forall k :: 0 <= k < |files| && files[k].Some? ==> Known(table, files[k].value)
    requires builtin.Some? ==> Known(table, builtin.value)
    ensures Distinct(compiledFiles) && InOrder(table, compiledFiles)
    ensures LeastFixpoint(table, files, Initially(table, builtin), Ids(compiledFiles))
    ensures unableToOrder <==> !Settled(table, files, Ids(compiledFiles))
    ensures Derivation(table, files, builtin, compiledFiles)
    ensures forall d, id :: Derivation(table, files, builtin, d) && id in d ==> id in compiledFiles
    ensures unableToOrder <==> exists k :: 0 <= k < |files| && Stranded(table, files[k], compiledFiles)
  {
    hide Known, Derivation, Stranded, LeastFixpoint, Distinct, InOrder, Settled, AllSupported, BuiltinFirst, Initially, Listed;
    compiledFiles, unableToOrder := RunPasses(table, files, builtin);
    CompiledIsDerivation(table, files, builtin, compiledFiles);
    forall d, id | Derivation(table, files, builtin, d) && id in d ensures id in compiledFiles {
      DerivedIsCompiled(table, files, builtin, d, Ids(compiledFiles), id);
      IdIsCompiled(compiledFiles, id);
    }
    StrandedUnsettled(table, files, compiledFiles);
  }

  /** Between passes: still running with enough progress, all compiled, or given up. */
  ghost predicate PassState(table: Table, files: seq<Option<FileId>>, start: set<FileId>, done: set<FileId>,
                            pass: nat, allCompiled: bool, unableToOrder: bool)
  {
    if allCompiled then !unableToOrder && Settled(table, files, done)
    else if pass <= |files| then !unableToOrder && (Closed(table, files, done) || |done - start| >= pass)
    else unableToOrder && Closed(table, files, done) && !Settled(table, files, done)
  }

  lemma PassAdvances(table: Table, files: seq<Option<FileId>>, start: set<FileId>, before: set<FileId>, done: set<FileId>,
                     pass: nat, allCompiled: bool)
    requires pass <= |files| && PassState(table, files, start, before, pass, false, false)
    requires Below(table, files, start, before) && before <= done
    requires done == before ==> Closed(table, files, done)
    requires Closed(table, files, before) ==> done == before
    requires allCompiled ==> Settled(table, files, done)
    requires Settled(table, files, before) ==> allCompiled
    ensures PassState(table, files, start, done, pass + 1, allCompiled, !allCompiled && pass == |files|)
  {
    hide Closed, Settled;
    if pass == |files| && |before - start| >= |files| { CountedIsClosed(table, files, start, before); }
    if before != done { Progress(start, before, done); }
  }

  lemma Progress(start: set<FileId>, before: set<FileId>, done: set<FileId>)
    requires start <= before <= done && before != done
    ensures |done - start| >= |before - start| + 1
  {
    SubsetCount(before - start, done - start);
    assert before - start != done - start by {
      var x :| x in done && x !in before;
      assert x in done - start && x !in before - start;
    }
  }
}
