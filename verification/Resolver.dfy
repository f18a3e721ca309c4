/** Resolution of a workspace: the depth-first search for models and their dependencies,
    with its cycle, depth and size checks. Finding a model is a function of its name, loading
    one a function of its address, and the cancellation signal a function of time. */
module Resolver {
  import opened Options

  /** What a repository says about a model; no URI when its path is unsafe. */
  datatype Metadata = Metadata(dependencies: seq<string>, uri: Option<string>, md5: string)

  datatype Entry = Entry(name: string, metadata: Metadata, uri: string, source: string)

  type Finder = string -> Option<Metadata>

  /** The content of a fetched file and its MD5 digest. */
  datatype Resource = Resource(source: string, checksum: string)

  /** Fetches a file, given the digest its repository announces; `None` when that fails. */
  type Loader = (string, string) -> Option<Resource>

  datatype Failure =
    | Cancelled
    | DepthLimit
    | Cycle(names: seq<string>)
    | NotFound(name: string)
    | ModelLimit
    | UnsafePath(name: string)
    | ChecksumMismatch(uri: string)
    | LoadFailed(uri: string)

  const BUILTIN := "INTERLIS"

  // ---------------------------------------------------------------- the dependency graph

  predicate Edge(find: Finder, a: string, b: string) {
    find(a).Some? && b in find(a).value.dependencies
  }

  /** Each name depends on the next; the built-in model is never expanded. */
  ghost predicate Path(find: Finder, p: seq<string>) {
    && p != []
    && (forall i :: 0 <= i < |p| - 1 ==> p[i] != BUILTIN && Edge(find, p[i], p[i + 1]))
  }

  ghost predicate CyclePath(find: Finder, p: seq<string>) {
    Path(find, p) && |p| >= 2 && p[0] == p[|p| - 1]
  }

  lemma PathSuffix(find: Finder, p: seq<string>, i: nat)
    requires Path(find, p) && i < |p|
    ensures Path(find, p[i..])
  {
    var q := p[i..];
    forall k | 0 <= k < |q| - 1 ensures q[k] != BUILTIN && Edge(find, q[k], q[k + 1]) {
      assert q[k] == p[i + k] && q[k + 1] == p[i + k + 1];
    }
  }

  lemma PathExtend(find: Finder, p: seq<string>, b: string)
    requires Path(find, p) && p[|p| - 1] != BUILTIN && Edge(find, p[|p| - 1], b)
    ensures Path(find, p + [b])
  {
    var q := p + [b];
    forall i | 0 <= i < |q| - 1 ensures q[i] != BUILTIN && Edge(find, q[i], q[i + 1]) {
      if i < |p| - 1 { assert q[i] == p[i] && q[i + 1] == p[i + 1]; }
    }
  }

  // ---------------------------------------------------------------- what a resolution holds

  /** A name with everything it needs: found, with a usable file, and its dependencies among
      the names before it. */
  ghost predicate Supported(find: Finder, before: seq<string>, name: string) {
    && name != BUILTIN && find(name).Some? && find(name).value.uri.Some?
    && forall d :: d in find(name).value.dependencies ==> d == BUILTIN || d in before
  }

  /** Topological order without repetition, closed under dependencies. */
  ghost predicate Ordered(find: Finder, resolved: seq<string>) {
    && (forall i, j :: 0 <= i < j < |resolved| ==> resolved[i] != resolved[j])
    && (forall i :: 0 <= i < |resolved| ==> Supported(find, resolved[..i], resolved[i]))
  }

  predicate HasUri(output: seq<Entry>, uri: string) {
    exists k :: 0 <= k < |output| && output[k].uri == uri
  }

  ghost predicate HasFile(find: Finder, name: string, uri: string) {
    find(name).Some? && find(name).value.uri == Some(uri)
  }

  /** A name whose file is among the given entries. */
  ghost predicate Delivered(find: Finder, output: seq<Entry>, name: string) {
    find(name).Some? && find(name).value.uri.Some? && HasUri(output, find(name).value.uri.value)
  }

  /** An entry comes after the files of everything it depends on. */
  ghost predicate WellPlaced(find: Finder, before: seq<Entry>, e: Entry) {
    && find(e.name) == Some(e.metadata) && e.metadata.uri == Some(e.uri)
    && !HasUri(before, e.uri)
    && forall d :: d in e.metadata.dependencies && d != BUILTIN ==> Delivered(find, before, d)
  }

  ghost predicate Placed(find: Finder, output: seq<Entry>) {
    forall k :: 0 <= k < |output| ==> WellPlaced(find, output[..k], output[k])
  }

  lemma HasUriGrows(output: seq<Entry>, e: Entry)
    ensures forall uri :: HasUri(output, uri) ==> HasUri(output + [e], uri)
    ensures HasUri(output + [e], e.uri)
    ensures forall uri :: HasUri(output + [e], uri) ==> HasUri(output, uri) || uri == e.uri
  {
    var more := output + [e];
    forall uri | HasUri(output, uri) ensures HasUri(more, uri) {
      var k :| 0 <= k < |output| && output[k].uri == uri;
      assert more[k].uri == uri;
    }
    assert more[|output|] == e;
  }

  lemma AppendPlaced(find: Finder, output: seq<Entry>, e: Entry)
    requires Placed(find, output) && WellPlaced(find, output, e)
    ensures Placed(find, output + [e])
  {
    var more := output + [e];
    forall k | 0 <= k < |more| ensures WellPlaced(find, more[..k], more[k]) {
      if k < |output| { assert more[..k] == output[..k] && more[k] == output[k]; }
      else { assert more[..k] == output; }
    }
  }

  lemma AppendOrdered(find: Finder, resolved: seq<string>, name: string)
    requires Ordered(find, resolved) && Supported(find, resolved, name) && name !in resolved
    ensures Ordered(find, resolved + [name])
  {
    var more := resolved + [name];
    forall i | 0 <= i < |more| ensures Supported(find, more[..i], more[i]) {
      if i < |resolved| { assert more[..i] == resolved[..i] && more[i] == resolved[i]; }
      else { assert more[..i] == resolved; }
    }
  }

  /** The entry holds what was loaded for it, and the recorded digest is that of the same file. */
  ghost predicate Genuine(load: Loader, files: map<string, string>, e: Entry) {
    && load(e.uri, e.metadata.md5).Some?
    && e.source == load(e.uri, e.metadata.md5).value.source
    && e.uri in files && files[e.uri] == load(e.uri, e.metadata.md5).value.checksum
  }

  ghost predicate AllGenuine(load: Loader, files: map<string, string>, output: seq<Entry>) {
    forall k :: 0 <= k < |output| ==> Genuine(load, files, output[k])
  }

  ghost predicate OwnFile(output: seq<Entry>, name: string, uri: string) {
    exists k :: 0 <= k < |output| && output[k].name == name && output[k].uri == uri
  }

  /** The model's file was loaded for this model, with the announced digest given to the loader,
      or the recorded digest was found to be the announced one as far as that is asked for. */
  ghost predicate Trusted(find: Finder, validate: bool, files: map<string, string>, output: seq<Entry>, name: string) {
    && find(name).Some? && find(name).value.uri.Some? && find(name).value.uri.value in files
    && (|| OwnFile(output, name, find(name).value.uri.value)
        || !validate || find(name).value.md5 == ""
        || Lower(files[find(name).value.uri.value]) == Lower(find(name).value.md5))
  }

  lemma GenuineGrows(load: Loader, files: map<string, string>, output: seq<Entry>, e: Entry, checksum: string)
    requires AllGenuine(load, files, output) && e.uri !in files && Genuine(load, files[e.uri := checksum], e)
    ensures AllGenuine(load, files[e.uri := checksum], output + [e])
  {
  }

  lemma TrustedGrows(find: Finder, validate: bool, files: map<string, string>, output: seq<Entry>, e: Entry, checksum: string, name: string)
    requires Trusted(find, validate, files, output, name) && e.uri !in files
    ensures Trusted(find, validate, files[e.uri := checksum], output + [e], name)
  {
    hide Lower;
    var uri := find(name).value.uri.value;
    if OwnFile(output, name, uri) {
      var k :| 0 <= k < |output| && output[k].name == name && output[k].uri == uri;
      assert (output + [e])[k] == output[k];
    }
  }

  lemma TrustedOwn(find: Finder, validate: bool, files: map<string, string>, output: seq<Entry>, e: Entry, checksum: string)
    requires find(e.name).Some? && find(e.name).value.uri == Some(e.uri)
    ensures Trusted(find, validate, files[e.uri := checksum], output + [e], e.name)
  {
    assert (output + [e])[|output|] == e;
  }

  /** Digests are compared without regard to the case of letters. */
  lemma LowerIgnoresCase(a: string, b: string)
    ensures Lower(a) == Lower(b) <==> |a| == |b| && forall i :: 0 <= i < |a| ==>
      a[i] == b[i] || ('A' <= a[i] <= 'Z' && b[i] as int == a[i] as int + 32) || ('A' <= b[i] <= 'Z' && a[i] as int == b[i] as int + 32)
  {
    if Lower(a) == Lower(b) {
      assert |Lower(a)| == |a| && |Lower(b)| == |b|;
      forall i | 0 <= i < |a|
        ensures a[i] == b[i] || ('A' <= a[i] <= 'Z' && b[i] as int == a[i] as int + 32) || ('A' <= b[i] <= 'Z' && a[i] as int == b[i] as int + 32)
      {
        assert Lower(a)[i] == Lower(b)[i];
      }
    }
  }

  /** The names being resolved: a path of dependencies, none of them resolved yet. */
  ghost predicate OpenNames(find: Finder, maxDepth: nat, stack: seq<string>, resolved: seq<string>) {
    && (forall n :: n in stack ==> n !in resolved && n != BUILTIN)
    && |stack| <= maxDepth
    && (stack != [] ==> Path(find, stack))
  }

  lemma OpenName(find: Finder, maxDepth: nat, stack: seq<string>, resolved: seq<string>, name: string)
    requires OpenNames(find, maxDepth, stack, resolved) && |stack| < maxDepth
    requires name !in resolved && name != BUILTIN && Path(find, stack + [name])
    ensures OpenNames(find, maxDepth, stack + [name], resolved)
  {
  }

  lemma CloseName(find: Finder, maxDepth: nat, stack: seq<string>, resolved: seq<string>, name: string)
    requires OpenNames(find, maxDepth, stack + [name], resolved) && name !in stack
    ensures OpenNames(find, maxDepth, stack, resolved) && OpenNames(find, maxDepth, stack, resolved + [name])
    ensures name !in resolved && name != BUILTIN
  {
    var open := stack + [name];
    assert forall n :: n in stack ==> n in open;
    assert open[|stack|] == name;
    if stack != [] {
      forall i | 0 <= i < |stack| - 1 ensures stack[i] != BUILTIN && Edge(find, stack[i], stack[i + 1]) {
        assert open[i] == stack[i] && open[i + 1] == stack[i + 1];
      }
    }
  }

  /** The model `b`, not the built-in one, is needed by `a`. */
  ghost predicate Reaches(find: Finder, a: string, b: string) {
    b != BUILTIN && exists p :: Path(find, p) && p[0] == a && p[|p| - 1] == b
  }

  /** Every file belongs to a model that one of the roots needs. */
  ghost predicate Needed(find: Finder, roots: set<string>, output: seq<Entry>) {
    forall k :: 0 <= k < |output| ==> NeededBy(find, roots, output[k].name)
  }

  ghost predicate NeededBy(find: Finder, roots: set<string>, name: string) {
    exists root :: root in roots && Reaches(find, root, name)
  }

  lemma NeededGrows(find: Finder, roots: set<string>, more: set<string>, output: seq<Entry>)
    requires Needed(find, roots, output) && roots <= more
    ensures Needed(find, more, output)
  {
    hide Reaches;
  }

  lemma AppendNeeded(find: Finder, roots: set<string>, output: seq<Entry>, root: string, e: Entry)
    requires Needed(find, roots, output) && root in roots && Reaches(find, root, e.name)
    ensures Needed(find, roots, output + [e])
  {
    hide Reaches;
    assert NeededBy(find, roots, e.name);
  }

  /** A finite set that holds the addresses of all files the models need. */
  ghost predicate HoldsFiles(find: Finder, models: seq<string>, uris: set<string>) {
    forall root, name, uri :: root in models && Reaches(find, root, name) && HasFile(find, name, uri) ==> uri in uris
  }

  lemma {:induction false} DistinctUris(output: seq<Entry>, uris: set<string>)
    requires forall k :: 0 <= k < |output| ==> output[k].uri in uris
    requires forall j, k :: 0 <= j < k < |output| ==> output[j].uri != output[k].uri
    ensures |output| <= |uris|
    decreases |output|
  {
    if output != [] {
      var n := |output| - 1;
      DistinctUris(output[..n], uris - {output[n].uri});
    }
  }

  /** There are no more files than addresses the roots need. */
  lemma OutputFits(find: Finder, roots: set<string>, models: seq<string>, output: seq<Entry>, uris: set<string>)
    requires Placed(find, output) && Needed(find, roots, output) && HoldsFiles(find, models, uris)
    requires forall r :: r in roots ==> r in models
    ensures |output| <= |uris|
  {
    OutputDistinct(find, output);
    forall k | 0 <= k < |output| ensures output[k].uri in uris {
      assert NeededBy(find, roots, output[k].name);
      assert WellPlaced(find, output[..k], output[k]);
      hide Reaches, WellPlaced;
      assert HasFile(find, output[k].name, output[k].uri);
    }
    DistinctUris(output, uris);
  }

  /** The requested model a name on the stack was reached from. */
  function Root(stack: seq<string>, name: string): string {
    if stack == [] then name else stack[0]
  }

  lemma RootOfNone(name: string)
    ensures Root([], name) == name
  {
  }

  lemma StackReaches(find: Finder, stack: seq<string>)
    requires stack != [] && Path(find, stack) && stack[|stack| - 1] != BUILTIN
    ensures Reaches(find, stack[0], stack[|stack| - 1])
  {
  }

  // ---------------------------------------------------------------- the search

  class Resolution {
    const find: Finder
    const load: Loader
    const signal: nat -> bool
    const maxDependencyDepth: nat
    const maxModelsResolved: nat
    const validateChecksums: bool
    var clock: nat
    var stack: seq<string>
    var resolvedModels: seq<string>
    var files: map<string, string>
    var output: seq<Entry>
    ghost var roots: set<string>

    constructor (find: Finder, load: Loader, signal: nat -> bool,
                 maxDependencyDepth: nat, maxModelsResolved: nat, validateChecksums: bool)
      ensures this.find == find && this.load == load && this.signal == signal
      ensures this.maxDependencyDepth == maxDependencyDepth && this.maxModelsResolved == maxModelsResolved
      ensures this.validateChecksums == validateChecksums
      ensures Valid() && stack == [] && resolvedModels == [] && output == [] && roots == {}
    {
      this.find, this.load, this.signal := find, load, signal;
      this.maxDependencyDepth, this.maxModelsResolved := maxDependencyDepth, maxModelsResolved;
      this.validateChecksums := validateChecksums;
      clock, stack, resolvedModels, files, output, roots := 0, [], [], map[], [], {};
    }

    /** The digest recorded for a file is that of some content loaded from its address. */
    ghost predicate LoadedFrom(uri: string, checksum: string) {
      exists md5 :: load(uri, md5).Some? && load(uri, md5).value.checksum == checksum
    }

    /** The digest of the file at the model's address is not the announced one. */
    ghost predicate Mismatched(name: string, uri: string) {
      && validateChecksums && HasFile(find, name, uri) && find(name).value.md5 != ""
      && exists checksum :: LoadedFrom(uri, checksum) && Lower(checksum) != Lower(find(name).value.md5)
    }

    ghost predicate Unloadable(name: string, uri: string) {
      HasFile(find, name, uri) && load(uri, find(name).value.md5).None?
    }

    /** A failure blames something the requested root really needs: a reported cycle is a cycle
        reachable from it, the depth limit is reported for a path from it that exceeds the limit,
        a missing model, path or file is that of a reachable model, and so on. The model limit
        is about the state and is stated with each method. */
    ghost predicate Explained(root: string, failure: Failure) {
      match failure
      case Cancelled => exists t :: signal(t)
      case DepthLimit => exists p :: Path(find, p) && p[0] == root && p[|p| - 1] != BUILTIN && |p| == maxDependencyDepth + 1
      case Cycle(names) => CyclePath(find, names) && Reaches(find, root, names[0])
      case NotFound(name) => find(name).None? && Reaches(find, root, name)
      case ModelLimit => true
      case UnsafePath(name) => find(name).Some? && find(name).value.uri.None? && Reaches(find, root, name)
      case ChecksumMismatch(uri) => exists name :: Mismatched(name, uri) && Reaches(find, root, name)
      case LoadFailed(uri) => exists name :: Unloadable(name, uri) && Reaches(find, root, name)
    }

    /** Nothing the models need stands in the way: the request is not cancelled, and everything
        reachable is on paths within the depth limit, on no cycle, found, loadable and unaltered. */
    ghost predicate Unobstructed(models: seq<string>) {
      && (forall t :: !signal(t))
      && (forall p :: Path(find, p) && p[0] in models && p[|p| - 1] != BUILTIN ==> |p| <= maxDependencyDepth)
      && (forall root, name :: root in models && Reaches(find, root, name) ==>
            && find(name).Some? && find(name).value.uri.Some?
            && (forall p :: CyclePath(find, p) ==> p[0] != name)
            && (forall uri :: !Mismatched(name, uri) && !Unloadable(name, uri)))
    }

    /** On an unobstructed request only the model limit can be reported. */
    lemma UnobstructedFailure(models: seq<string>, root: string, failure: Failure)
      requires Unobstructed(models) && root in models && Explained(root, failure)
      ensures failure == ModelLimit
    {
      hide Path, Reaches, Mismatched, Unloadable;
    }

    ghost predicate Valid()
      reads this
    {
      && Ordered(find, resolvedModels)
      && Placed(find, output)
      && |output| <= maxModelsResolved
      && (forall uri :: uri in files <==> HasUri(output, uri))
      && (forall uri :: uri in files ==> LoadedFrom(uri, files[uri]))
      && (forall n :: n in resolvedModels ==> Delivered(find, output, n))
      && AllGenuine(load, files, output)
      && (forall n :: n in resolvedModels ==> Trusted(find, validateChecksums, files, output, n))
      && OpenNames(find, maxDependencyDepth, stack, resolvedModels)
      && Needed(find, roots, output)
    }

    /** `#resolveOne`. */
    method ResolveOne(name: string) returns (failure: Option<Failure>)
      requires Valid()
      requires stack != [] ==> Edge(find, stack[|stack| - 1], name)
      requires Root(stack, name) in roots
      modifies this
      ensures roots == old(roots)
      ensures Valid() && stack == old(stack)
      ensures old(resolvedModels) <= resolvedModels && old(output) <= output
      ensures failure.None? ==> name == BUILTIN || name in resolvedModels
      ensures failure.Some? ==> Explained(Root(stack, name), failure.value)
      ensures failure == Some(ModelLimit) ==> |output| == maxModelsResolved
      decreases maxDependencyDepth - |stack|, 0
    {
      hide Ordered, Placed, Path, Supported, Delivered, HasUri, OpenNames, Explained, Needed, AllGenuine, Trusted;
      if name == BUILTIN || name in resolvedModels { return None; }
      failure := Refusal(name);
      if failure.Some? { return; }
      OpenName(find, maxDependencyDepth, stack, resolvedModels, name);
      stack := stack + [name];
      failure := FetchOnStack(name);
      Close(name, old(stack), failure.None?);
    }

    /** Takes the name off the stack, resolved or not. */
    method Close(name: string, ghost below: seq<string>, resolved: bool)
      requires Valid() && stack == below + [name] && name !in below
      requires resolved ==> Supported(find, resolvedModels, name) && Delivered(find, output, name)
      requires resolved ==> Trusted(find, validateChecksums, files, output, name)
      modifies this`stack, this`resolvedModels
      ensures Valid() && stack == below
      ensures resolvedModels == if resolved then old(resolvedModels) + [name] else old(resolvedModels)
    {
      hide Ordered, Placed, Path, Supported, Delivered, HasUri, OpenNames, Needed, AllGenuine, Trusted;
      CloseName(find, maxDependencyDepth, below, resolvedModels, name);
      if resolved {
        AppendOrdered(find, resolvedModels, name);
        resolvedModels := resolvedModels + [name];
      }
      stack := stack[..|stack| - 1];
      assert stack == below;
    }

    /** The checks before a name goes on the stack: signal, depth, cycle. */
    method Refusal(name: string) returns (failure: Option<Failure>)
      requires Valid()
      requires name != BUILTIN && (stack != [] ==> Edge(find, stack[|stack| - 1], name))
      modifies this`clock
      ensures failure.None? ==> |stack| < maxDependencyDepth && name !in stack && Path(find, stack + [name])
      ensures failure.Some? ==> Explained(Root(stack, name), failure.value)
      ensures failure != Some(ModelLimit)
      ensures clock == old(clock) + 1
      ensures failure == Some(Cancelled) <==> signal(old(clock))
      ensures failure == Some(DepthLimit) <==> !signal(old(clock)) && |stack| >= maxDependencyDepth
      ensures failure.Some? && failure.value.Cycle? <==> !signal(old(clock)) && |stack| < maxDependencyDepth && name in stack
      ensures failure.None? || failure.value.Cancelled? || failure.value.DepthLimit? || failure.value.Cycle?
    {
      hide Ordered, Placed, Path, Supported, Delivered, HasUri, Reaches, Needed, AllGenuine, Trusted;
      var now := clock;
      clock := clock + 1;
      if signal(now) { return Some(Cancelled); }
      assert stack != [] ==> stack[|stack| - 1] in stack;
      PathToName(find, stack, name);
      if |stack| >= maxDependencyDepth {
        var p := stack + [name];
        assert Path(find, p) && p[0] == Root(stack, name) && p[|p| - 1] != BUILTIN && |p| == maxDependencyDepth + 1;
        return Some(DepthLimit);
      }
      if name in stack {
        var i :| 0 <= i < |stack| && stack[i] == name;
        PathSuffix(find, stack + [name], i);
        assert (stack + [name])[i..] == stack[i..] + [name];
        CycleOf(find, stack[i..] + [name]);
        StackReaches(find, stack + [name]);
        return Some(Cycle(stack[i..] + [name]));
      }
      return None;
    }

    /** Lookup, dependencies and file of the name on top of the stack. */
    method FetchOnStack(name: string) returns (failure: Option<Failure>)
      requires Valid() && stack != [] && stack[|stack| - 1] == name
      requires stack[0] in roots
      modifies this
      ensures roots == old(roots)
      ensures Valid() && stack == old(stack)
      ensures failure.None? ==> Supported(find, resolvedModels, name) && Delivered(find, output, name)
      ensures failure.None? ==> Trusted(find, validateChecksums, files, output, name)
      ensures find(name).None? ==> failure == Some(NotFound(name))
      ensures old(resolvedModels) <= resolvedModels && old(output) <= output
      ensures failure.Some? ==> Explained(stack[0], failure.value)
      ensures failure == Some(ModelLimit) ==> |output| == maxModelsResolved
      decreases maxDependencyDepth - |stack|, 2
    {
      hide Ordered, Placed, Path, Delivered, HasUri, Reaches, Needed, AllGenuine, Trusted;
      assert name in stack;
      StackReaches(find, stack);
      if find(name).None? { return Some(NotFound(name)); }
      failure := ResolveDependencies(name, find(name).value.dependencies);
      if failure.Some? { return; }
      if |output| >= maxModelsResolved { return Some(ModelLimit); }
      if find(name).value.uri.None? { return Some(UnsafePath(name)); }
      failure := StoreFile(name, find(name).value);
    }

    method ResolveDependencies(name: string, dependencies: seq<string>) returns (failure: Option<Failure>)
      requires Valid() && stack != [] && stack[|stack| - 1] == name
      requires forall d :: d in dependencies ==> Edge(find, name, d)
      requires stack[0] in roots
      modifies this
      ensures roots == old(roots)
      ensures Valid() && stack == old(stack)
      ensures failure.None? ==> forall d :: d in dependencies ==> d == BUILTIN || d in resolvedModels
      ensures old(resolvedModels) <= resolvedModels && old(output) <= output
      ensures failure.Some? ==> Explained(stack[0], failure.value)
      ensures failure == Some(ModelLimit) ==> |output| == maxModelsResolved
      decreases maxDependencyDepth - |stack|, 1
    {
      hide Ordered, Placed, Path, Supported, Delivered, HasUri, OpenNames, Explained, Edge, Valid;
      failure := None;
      for i := 0 to |dependencies|
        invariant Valid() && stack == old(stack) && roots == old(roots) && failure.None?
        invariant old(resolvedModels) <= resolvedModels && old(output) <= output
        invariant forall k :: 0 <= k < i ==> dependencies[k] == BUILTIN || dependencies[k] in resolvedModels
      {
        failure := ResolveOne(dependencies[i]);
        if failure.Some? { return; }
      }
    }

    /** Takes the file once, and checks the digest of one that is there already. */
    method StoreFile(name: string, metadata: Metadata) returns (failure: Option<Failure>)
      requires Valid() && |output| < maxModelsResolved && stack != [] && stack[|stack| - 1] == name
      requires find(name) == Some(metadata) && metadata.uri.Some?
      requires forall d :: d in metadata.dependencies ==> d == BUILTIN || d in resolvedModels
      requires stack[0] in roots
      modifies this`files, this`output
      ensures Valid() && old(output) <= output
      ensures failure.None? ==> Delivered(find, output, name) && Trusted(find, validateChecksums, files, output, name)
      ensures failure.Some? ==> Explained(stack[0], failure.value) && !failure.value.ModelLimit?
    {
      hide Ordered, Placed, Path, Supported, HasUri, Lower, Reaches, Needed, AllGenuine, OwnFile;
      assert name in stack;
      StackReaches(find, stack);
      var uri := metadata.uri.value;
      if uri in files {
        if validateChecksums && metadata.md5 != "" && Lower(files[uri]) != Lower(metadata.md5) {
          assert LoadedFrom(uri, files[uri]);
          assert Mismatched(name, uri);
          return Some(ChecksumMismatch(uri));
        }
      } else {
        var resource := load(uri, metadata.md5);
        if resource.None? {
          assert Unloadable(name, uri);
          return Some(LoadFailed(uri));
        }
        var entry := Entry(name, metadata, uri, resource.value.source);
        AppendPlaced(find, output, entry);
        HasUriGrows(output, entry);
        AppendNeeded(find, roots, output, stack[0], entry);
        GenuineGrows(load, files, output, entry, resource.value.checksum);
        forall n | n in resolvedModels
          ensures Trusted(find, validateChecksums, files[uri := resource.value.checksum], output + [entry], n)
        {
          TrustedGrows(find, validateChecksums, files, output, entry, resource.value.checksum, n);
        }
        TrustedOwn(find, validateChecksums, files, output, entry, resource.value.checksum);
        files := files[uri := resource.value.checksum];
        assert LoadedFrom(uri, resource.value.checksum);
        output := output + [entry];
      }
      return None;
    }

    /** `resolveWorkspace` on a fresh state. An unobstructed request succeeds when the files it
        needs number fewer than the limit. */
    method ResolveWorkspace(models: seq<string>) returns (failure: Option<Failure>)
      requires Valid() && stack == []
      modifies this
      ensures Valid() && stack == []
      ensures failure.None? ==> forall k :: 0 <= k < |models| ==> models[k] == BUILTIN || models[k] in resolvedModels
      ensures failure.None? ==> forall k :: 0 <= k < |models| ==> models[k] == BUILTIN || Served(models[k])
      ensures failure.Some? ==> exists root :: root in models && Explained(root, failure.value)
      ensures failure == Some(ModelLimit) ==> |output| == maxModelsResolved
      ensures roots == old(roots) + (set r | r in models)
      ensures Unobstructed(models) ==> failure.None? || failure == Some(ModelLimit)
      ensures old(roots) == {} && Unobstructed(models) && (exists uris :: HoldsFiles(find, models, uris) && |uris| < maxModelsResolved) ==> failure.None?
    {
      hide *;
      AddRoots(models);
      failure := None;
      for i := 0 to |models|
        invariant Valid() && stack == [] && failure.None? && roots == old(roots) + (set r | r in models)
        invariant forall k :: 0 <= k < i ==> models[k] == BUILTIN || models[k] in resolvedModels
      {
        RootOfNone(models[i]);
        assert models[i] in models;
        failure := ResolveOne(models[i]);
        if failure.Some? {
          if Unobstructed(models) { UnobstructedFailure(models, models[i], failure.value); }
          if failure == Some(ModelLimit) && old(roots) == {} {
            forall uris | HoldsFiles(find, models, uris) ensures |uris| >= maxModelsResolved { LimitReached(models, uris); }
          }
          return;
        }
      }
      forall k | 0 <= k < |models| && models[k] != BUILTIN ensures Served(models[k]) { ResolvedIsServed(models[k]); }
    }

    /** The output holds the model's file with the content loaded from its address. */
    ghost predicate Served(name: string)
      reads this
    {
      && find(name).Some? && find(name).value.uri.Some?
      && exists k :: 0 <= k < |output| && output[k].uri == find(name).value.uri.value
           && load(output[k].uri, output[k].metadata.md5).Some?
           && output[k].source == load(output[k].uri, output[k].metadata.md5).value.source
    }

    lemma ResolvedIsServed(name: string)
      requires Valid() && name in resolvedModels
      ensures Served(name)
    {
      hide Valid;
      var k := ResolvedContent(name);
    }

    /** The request is recorded as the roots of everything that follows. */
    ghost method AddRoots(models: seq<string>)
      requires Valid()
      modifies this`roots
      ensures Valid() && roots == old(roots) + (set r | r in models)
    {
      hide Ordered, Placed, Path, Supported, Delivered, HasUri, OpenNames, Needed, AllGenuine, Trusted;
      var more := roots + (set r | r in models);
      NeededGrows(find, roots, more, output);
      roots := more;
    }

    /** The file of every resolved model is in the output with the content loaded for it. */
    lemma ResolvedContent(name: string) returns (k: nat)
      requires Valid() && name in resolvedModels
      ensures find(name).Some? && find(name).value.uri.Some?
      ensures k < |output| && output[k].uri == find(name).value.uri.value
      ensures load(output[k].uri, output[k].metadata.md5).Some?
      ensures output[k].source == load(output[k].uri, output[k].metadata.md5).value.source
      ensures find(output[k].name) == Some(output[k].metadata)
      ensures || OwnFile(output, name, output[k].uri)
              || !validateChecksums || find(name).value.md5 == ""
              || Lower(load(output[k].uri, output[k].metadata.md5).value.checksum) == Lower(find(name).value.md5)
    {
      hide Ordered, OpenNames, Needed, Lower, OwnFile;
      assert Delivered(find, output, name);
      k :| 0 <= k < |output| && output[k].uri == find(name).value.uri.value;
      assert Genuine(load, files, output[k]);
      assert Trusted(find, validateChecksums, files, output, name);
      assert WellPlaced(find, output[..k], output[k]);
    }

    lemma LimitReached(models: seq<string>, uris: set<string>)
      requires Valid() && |output| == maxModelsResolved && HoldsFiles(find, models, uris)
      requires forall r :: r in roots ==> r in models
      ensures |uris| >= maxModelsResolved
    {
      hide Ordered, Placed, Path, Supported, Delivered, HasUri, OpenNames, Needed, HoldsFiles;
      OutputFits(find, roots, models, output, uris);
    }
  }

  function Lower(s: string): string {
    seq(|s|, i requires 0 <= i < |s| => if 'A' <= s[i] <= 'Z' then (s[i] as int + 32) as char else s[i])
  }

  lemma CycleOf(find: Finder, p: seq<string>)
    requires Path(find, p) && |p| >= 2 && p[0] == p[|p| - 1]
    ensures CyclePath(find, p)
  {
  }

  lemma PathToName(find: Finder, stack: seq<string>, name: string)
    requires stack != [] ==> Path(find, stack) && stack[|stack| - 1] != BUILTIN && Edge(find, stack[|stack| - 1], name)
    ensures Path(find, stack + [name])
  {
    if stack == [] { assert stack + [name] == [name]; } else { PathExtend(find, stack, name); }
  }

  // ---------------------------------------------------------------- what success means

  ghost function Position(resolved: seq<string>, name: string): nat
    requires name in resolved
    ensures Position(resolved, name) < |resolved| && resolved[Position(resolved, name)] == name
  {
    var i :| 0 <= i < |resolved| && resolved[i] == name;
    i
  }

  /** A dependency is resolved strictly before its user. */
  lemma DependencyEarlier(find: Finder, resolved: seq<string>, a: string, b: string)
    requires Ordered(find, resolved) && a in resolved && Edge(find, a, b) && b != BUILTIN
    ensures b in resolved && Position(resolved, b) < Position(resolved, a)
  {
    var i := Position(resolved, a);
    assert Supported(find, resolved[..i], a);
    assert b in resolved[..i];
    var k :| 0 <= k < i && resolved[..i][k] == b;
    assert resolved[k] == b && resolved[Position(resolved, b)] == b;
  }

  /** Everything reachable from a resolved model is resolved, in strictly descending order. */
  lemma {:induction false} ReachableIsResolved(find: Finder, resolved: seq<string>, p: seq<string>)
    requires Ordered(find, resolved) && Path(find, p) && p[0] in resolved && p[|p| - 1] != BUILTIN
    ensures p[|p| - 1] in resolved
    ensures |p| >= 2 ==> Position(resolved, p[|p| - 1]) < Position(resolved, p[0])
    decreases |p|
  {
    if |p| >= 2 {
      assert Edge(find, p[0], p[1]);
      if |p| > 2 { assert p[1] != BUILTIN; }
      DependencyEarlier(find, resolved, p[0], p[1]);
      PathSuffix(find, p, 1);
      ReachableIsResolved(find, resolved, p[1..]);
    }
  }

  /** After a successful resolution no cycle is reachable from a resolved model. */
  lemma SuccessMeansAcyclic(find: Finder, resolved: seq<string>, p: seq<string>)
    requires Ordered(find, resolved) && Path(find, p) && p[0] in resolved
    ensures !CyclePath(find, p)
  {
    if CyclePath(find, p) {
      assert p[0] != BUILTIN;
      ReachableIsResolved(find, resolved, p);
    }
  }

  /** Output URIs are pairwise different. */
  lemma OutputDistinct(find: Finder, output: seq<Entry>)
    requires Placed(find, output)
    ensures forall j, k :: 0 <= j < k < |output| ==> output[j].uri != output[k].uri
  {
    forall j, k | 0 <= j < k < |output| ensures output[j].uri != output[k].uri {
      assert WellPlaced(find, output[..k], output[k]);
      assert output[..k][j] == output[j];
    }
  }

  /** The files of an entry's dependencies come at smaller indices. */
  lemma DependenciesFirst(find: Finder, output: seq<Entry>, k: nat, d: string) returns (j: nat)
    requires Placed(find, output) && k < |output|
    requires d in output[k].metadata.dependencies && d != BUILTIN
    ensures find(d).Some? && find(d).value.uri.Some?
    ensures j < k && output[j].uri == find(d).value.uri.value
  {
    assert WellPlaced(find, output[..k], output[k]);
    assert Delivered(find, output[..k], d);
    var i :| 0 <= i < k && output[..k][i].uri == find(d).value.uri.value;
    j := i;
  }
}
