/**
  The plugin's whole run: every package declaration is loaded, the override
  graph is built over the loaded packages, conflicts are refused, and the
  calls are made on the repository.
 */
module Plugin {
  import opened Wrappers
  import opened Seqs
  import opened Loader
  import opened OverrideGraph
  import opened Conflicts
  import opened Emission
  import opened RepositoryBuilder
  import opened BuilderProperties

  /** Every declared package loads. */
  ghost predicate AllLoadable(decls: seq<PackageDecl>, exists_: Dir -> bool)
  {
    forall i :: 0 <= i < |decls| ==> Loadable(decls[i], exists_)
  }

  /** `c` adds a directory that some package of `ps` maps to the path of `c`. */
  ghost predicate AddDeclared(ps: seq<LoadedPackage>, c: Call)
  {
    c.Add? && exists p :: p in ps && Declares(p, c.path, c.dir)
  }

  /** `c` tags a path with a tag that some package of `ps` gives it. */
  ghost predicate TagDeclared(ps: seq<LoadedPackage>, c: Call)
  {
    c.Tag? && exists p :: p in ps && TagDecl(c.path, c.tag) in p.tags
  }

  /** All adds come before all tags, and no tag call is made twice. */
  ghost predicate AddsFirstTagsOnce(cs: seq<Call>)
  {
    && (forall a, b :: 0 <= a < b < |cs| && cs[b].Add? ==> cs[a].Add?)
    && (forall a, b :: 0 <= a < b < |cs| && cs[a].Tag? ==> cs[a] != cs[b])
  }

  lemma StepsAddsFirstTagsOnce(ps: seq<LoadedPackage>, contains: (Dir, string) -> bool)
    requires BuildRepository(ps, contains).Ok?
    ensures AddsFirstTagsOnce(Calls(BuildRepository(ps, contains).value))
  {
    var steps := BuildRepository(ps, contains).value;
    var cs := Calls(steps);
    assert AddsThenTags(steps);
    forall a, b | 0 <= a < b < |cs| && cs[a].Tag?
      ensures cs[a] != cs[b]
    {
      TagsAreDistinct(ps, contains, a, b);
    }
  }

  /** The add calls are the declared mappings, whichever package makes them. */
  lemma AddCallsDeclared(ps: seq<LoadedPackage>, contains: (Dir, string) -> bool)
    requires BuildRepository(ps, contains).Ok?
    ensures forall c :: c in Calls(BuildRepository(ps, contains).value) && c.Add? <==> AddDeclared(ps, c)
  {
    var steps := BuildRepository(ps, contains).value;
    AddsAreDeclared(ps, contains);
    forall c | c in Calls(steps) && c.Add?
      ensures AddDeclared(ps, c)
    {
      var k :| 0 <= k < |steps| && Calls(steps)[k] == c;
      assert steps[k] in steps;
    }
    forall c | AddDeclared(ps, c)
      ensures c in Calls(steps)
    {
      var p :| p in ps && Declares(p, c.path, c.dir);
      var s := Step(p.name, c);
      assert s in steps;
      var k :| 0 <= k < |steps| && steps[k] == s;
      assert Calls(steps)[k] == c;
    }
  }

  /** A failed build reports the graph failure, or a conflict the graph leaves unordered. */
  lemma FailureReported(ps: seq<LoadedPackage>, contains: (Dir, string) -> bool, e: BuildError)
    requires BuildRepository(ps, contains) == Err(e)
    ensures BuildGraph(ps).Err? ==> e == BuildGraph(ps).error
    ensures BuildGraph(ps).Ok? ==>
              e.ResourceConflict? && Reports(BuildGraph(ps).value, Registered(ps), Conflict(e.first, e.second, e.path), contains)
  {
    if BuildGraph(ps).Ok? {
      assert ConflictReported(BuildGraph(ps).value, ps, BuildRepository(ps, contains), contains);
    }
  }

  /**
    `cs` are the calls of a successful build over `ps`: every add comes
    before every tag, no tag call is made twice, the adds are exactly the
    declared mappings and the tags exactly the declared tags.
   */
  ghost predicate Made(ps: seq<LoadedPackage>, cs: seq<Call>)
  {
    && AddsFirstTagsOnce(cs)
    && (forall c :: c in cs && c.Add? <==> AddDeclared(ps, c))
    && (forall c :: c in cs && c.Tag? <==> TagDeclared(ps, c))
  }

  lemma SuccessCalls(ps: seq<LoadedPackage>, contains: (Dir, string) -> bool, steps: seq<Step>)
    requires BuildRepository(ps, contains) == Ok(steps)
    ensures Made(ps, Calls(steps))
  {
    StepsAddsFirstTagsOnce(ps, contains);
    AddCallsDeclared(ps, contains);
    TagsAreDeclared(ps, contains);
  }

  /**
    Builds the repository from loaded packages: a graph failure or an
    unordered conflict fails the build; otherwise the calls add exactly the
    declared directories, then make each declared tag once.
   */
  function Run(ps: seq<LoadedPackage>, contains: (Dir, string) -> bool): (r: Result<seq<Call>, BuildError>)
    ensures r.Err? <==> BuildRepository(ps, contains).Err?
    ensures r.Err? ==> r.error == BuildRepository(ps, contains).error
    ensures r.Ok? ==> Made(ps, r.value)
  {
    var built := BuildRepository(ps, contains);
    if built.Err? then
      Err(built.error)
    else
      SuccessCalls(ps, contains, built.value);
      Ok(Calls(built.value))
  }

  /** A run fails exactly when the graph cannot be built or two packages collide unordered. */
  lemma RunFails(ps: seq<LoadedPackage>, contains: (Dir, string) -> bool)
    ensures Run(ps, contains).Err? <==> BuildGraph(ps).Err? || !ConflictFree(BuildGraph(ps).value, Registered(ps), contains)
  {
  }

  /** A graph that cannot be built fails the run with the graph's error. */
  lemma RunGraphFailure(ps: seq<LoadedPackage>, contains: (Dir, string) -> bool)
    requires BuildGraph(ps).Err?
    ensures Run(ps, contains) == Err(BuildGraph(ps).error)
  {
  }

  /** Otherwise a failed run reports two packages that collide and that the graph leaves unordered. */
  lemma RunConflict(ps: seq<LoadedPackage>, contains: (Dir, string) -> bool, e: BuildError)
    requires BuildGraph(ps).Ok? && Run(ps, contains) == Err(e)
    ensures e.ResourceConflict?
    ensures Reports(BuildGraph(ps).value, Registered(ps), Conflict(e.first, e.second, e.path), contains)
  {
    FailureReported(ps, contains, e);
  }

  /**
    The whole build. Every package is loaded first, so the first malformed or
    missing-directory package fails the build before the graph is built;
    otherwise the loaded packages, in declaration order, are built.
   */
  function Build(decls: seq<PackageDecl>, exists_: Dir -> bool, contains: (Dir, string) -> bool): (r: Result<seq<Call>, BuildError>)
    ensures !AllLoadable(decls, exists_) ==>
              r.Err? && exists k :: 0 <= k < |decls| && LoadPackage(decls[k], exists_) == Err(r.error)
                                    && forall j :: 0 <= j < k ==> Loadable(decls[j], exists_)
    ensures AllLoadable(decls, exists_) ==> r == Run(LoadAll(decls, exists_).value, contains)
    ensures r.Ok? ==> AllLoadable(decls, exists_) && Made(LoadAll(decls, exists_).value, r.value)
  {
    match LoadAll(decls, exists_)
    case Err(e) => Err(e)
    case Ok(ps) => Run(ps, contains)
  }

  /**
    The build fails exactly when some package cannot be loaded, the override
    graph over the loaded packages cannot be built, or two of them collide
    and the graph leaves them unordered.
   */
  lemma BuildOutcome(decls: seq<PackageDecl>, exists_: Dir -> bool, contains: (Dir, string) -> bool)
    ensures Build(decls, exists_, contains).Err? <==>
              || !AllLoadable(decls, exists_)
              || BuildGraph(LoadAll(decls, exists_).value).Err?
              || !ConflictFree(BuildGraph(LoadAll(decls, exists_).value).value, Registered(LoadAll(decls, exists_).value), contains)
  {
    if AllLoadable(decls, exists_) {
      RunFails(LoadAll(decls, exists_).value, contains);
    }
  }
}
