/**
  The repository builder: loads every package, derives the override graph,
  rejects unordered resource conflicts, and then adds every resource
  directory, package after package in the graph's topological order,
  followed by the distinct resource tags. A failure at any stage means no
  call at all is made on the repository.
 */
module RepositoryBuilder {
  import opened Wrappers
  import opened Seqs
  import opened Reachability
  import opened PackageGraph
  import opened Loader
  import opened OverrideGraph
  import opened Conflicts
  import opened Emission

  /** The packages that declare no resources, in load order. */
  function Unregistered(ps: seq<LoadedPackage>): seq<LoadedPackage>
  {
    if ps == [] then []
    else (if |ps[0].resources| == 0 then [ps[0]] else []) + Unregistered(ps[1..])
  }

  lemma UnregisteredMembers(ps: seq<LoadedPackage>)
    ensures forall p :: p in Unregistered(ps) <==> p in ps && |p.resources| == 0
  {
    if ps != [] {
      UnregisteredMembers(ps[1..]);
    }
  }

  /** The packages named in `order`, in that order. */
  function NamedPackages(order: seq<Node>, ps: seq<LoadedPackage>): seq<LoadedPackage>
  {
    if order == [] then []
    else
      var here := match PackageNamed(ps, order[0]) case None => [] case Some(p) => [p];
      here + NamedPackages(order[1..], ps)
  }

  lemma NamedPackagesMembers(order: seq<Node>, ps: seq<LoadedPackage>)
    ensures forall p :: p in NamedPackages(order, ps) ==> p in ps && p.name in order
  {
    if order != [] {
      NamedPackagesMembers(order[1..], ps);
    }
  }

  lemma NamedPackagesCover(order: seq<Node>, ps: seq<LoadedPackage>, p: LoadedPackage)
    requires p in ps && p.name in order
    requires forall i, j :: 0 <= i < j < |ps| ==> ps[i].name != ps[j].name
    ensures p in NamedPackages(order, ps)
  {
    PackageNamedUnique(ps, p);
    if order[0] != p.name {
      NamedPackagesCover(order[1..], ps, p);
    }
  }

  /** The order in which packages are emitted: the topological order of the whole graph. */
  function EmissionOrder(g: Graph): (r: seq<Node>)
    requires Valid(g)
    ensures Distinct(r) && forall x :: x in r <==> HasPackage(g, x)
  {
    GetSortedPackages(g, None).value
  }

  /** The packages whose tags are emitted: the registered ones in emission order, then the others in load order. */
  function TagPackages(g: Graph, ps: seq<LoadedPackage>): seq<LoadedPackage>
    requires Valid(g)
  {
    NamedPackages(EmissionOrder(g), Registered(ps)) + Unregistered(ps)
  }

  /** Steps that hold the adds first and the tags after them. */
  ghost predicate AddsThenTags(steps: seq<Step>)
  {
    forall i, j :: 0 <= i < j < |steps| && steps[j].call.Add? ==> steps[i].call.Add?
  }

  /**
    The calls of a build without conflicts: the adds of the registered
    packages in emission order, then the tags.
   */
  function Emit(g: Graph, ps: seq<LoadedPackage>): (r: seq<Step>)
    requires Valid(g)
    ensures AddsThenTags(r)
  {
    var regs := Registered(ps);
    var adds := AddSteps(EmissionOrder(g), regs);
    var tags := TagSteps(TagPackages(g, ps));
    AddStepsOwners(EmissionOrder(g), regs);
    TagStepsAreTags(TagPackages(g, ps));
    AddsBeforeTags(adds, tags);
    adds + tags
  }

  /** A successful build lists the adds first and the tags after them. */
  ghost predicate AddsThenTagsIfOk(r: Result<seq<Step>, BuildError>)
  {
    r.Ok? ==> AddsThenTags(r.value)
  }

  /** The build failed on a conflict between two registered packages that the graph `g` leaves unordered. */
  ghost predicate ConflictReported(g: Graph, ps: seq<LoadedPackage>, r: Result<seq<Step>, BuildError>, contains: (Dir, string) -> bool)
  {
    && r.Err? && r.error.ResourceConflict?
    && Reports(g, Registered(ps), Conflict(r.error.first, r.error.second, r.error.path), contains)
  }

  /** Rejects an unordered conflict of the registered packages, or emits the calls. */
  function Resolve(g: Graph, ps: seq<LoadedPackage>, contains: (Dir, string) -> bool): (r: Result<seq<Step>, BuildError>)
    requires Valid(g)
    ensures r.Err? <==> !ConflictFree(g, Registered(ps), contains)
    ensures r.Err? ==> ConflictReported(g, ps, r, contains)
    ensures AddsThenTagsIfOk(r)
  {
    match FindConflict(g, Registered(ps), contains)
    case Some(c) => Err(ResourceConflict(c.first, c.second, c.path))
    case None => Ok(Emit(g, ps))
  }

  /**
    Builds the repository from the loaded packages `ps`. `contains` tells
    whether a package directory holds a given relative path.
   */
  function BuildRepository(ps: seq<LoadedPackage>, contains: (Dir, string) -> bool): (r: Result<seq<Step>, BuildError>)
    ensures BuildGraph(ps).Err? ==> r == Err(BuildGraph(ps).error)
    ensures BuildGraph(ps).Ok? ==> (r.Err? <==> !ConflictFree(BuildGraph(ps).value, Registered(ps), contains))
    ensures r.Err? && BuildGraph(ps).Ok? ==> ConflictReported(BuildGraph(ps).value, ps, r, contains)
    ensures AddsThenTagsIfOk(r)
  {
    match BuildGraph(ps)
    case Err(e) => Err(e)
    case Ok(g) => Resolve(g, ps, contains)
  }

  lemma TagStepsAreTags(ps: seq<LoadedPackage>)
    ensures forall s :: s in TagSteps(ps) ==> s.call.Tag?
  {
    var tags := TagSteps(ps);
    AllTagStepsMembers(ps);
    DedupCallsSpec(AllTagSteps(ps), {});
  }

  lemma AddsBeforeTags(adds: seq<Step>, tags: seq<Step>)
    requires forall s :: s in adds ==> s.call.Add?
    requires forall s :: s in tags ==> s.call.Tag?
    ensures AddsThenTags(adds + tags)
  {
    var all := adds + tags;
    forall i, j | 0 <= i < j < |all| && all[j].call.Add?
      ensures all[i].call.Add?
    {
      assert j < |adds|;
      assert all[i] == adds[i] && adds[i] in adds;
    }
  }

  /** Loads every package in load order; the first package that fails fails the load. */
  function LoadAll(decls: seq<PackageDecl>, exists_: Dir -> bool): (r: Result<seq<LoadedPackage>, BuildError>)
    ensures r.Ok? <==> forall i :: 0 <= i < |decls| ==> Loadable(decls[i], exists_)
    ensures r.Ok? ==> |r.value| == |decls| && forall i :: 0 <= i < |decls| ==> LoadPackage(decls[i], exists_) == Ok(r.value[i])
    ensures r.Err? ==> exists k :: 0 <= k < |decls| && LoadPackage(decls[k], exists_) == Err(r.error)
                                   && forall j :: 0 <= j < k ==> Loadable(decls[j], exists_)
  {
    if decls == [] then Ok([])
    else
      match LoadPackage(decls[0], exists_)
      case Err(e) => Err(e)
      case Ok(p) =>
        match LoadAll(decls[1..], exists_)
        case Err(e) =>
          FailureShifts(decls, exists_, e);
          Err(e)
        case Ok(rest) =>
          SuccessShifts(decls, exists_, p, rest);
          Ok([p] + rest)
  }

  lemma FailureShifts(decls: seq<PackageDecl>, exists_: Dir -> bool, e: BuildError)
    requires |decls| > 0 && Loadable(decls[0], exists_)
    requires exists k :: 0 <= k < |decls[1..]| && LoadPackage(decls[1..][k], exists_) == Err(e)
                         && forall j :: 0 <= j < k ==> Loadable(decls[1..][j], exists_)
    ensures exists k :: 0 <= k < |decls| && LoadPackage(decls[k], exists_) == Err(e)
                        && forall j :: 0 <= j < k ==> Loadable(decls[j], exists_)
  {
    var k :| 0 <= k < |decls[1..]| && LoadPackage(decls[1..][k], exists_) == Err(e)
             && forall j :: 0 <= j < k ==> Loadable(decls[1..][j], exists_);
    assert decls[1..][k] == decls[k + 1];
    forall j | 0 <= j < k + 1
      ensures Loadable(decls[j], exists_)
    {
      if j > 0 {
        assert decls[1..][j - 1] == decls[j];
      }
    }
  }

  lemma SuccessShifts(decls: seq<PackageDecl>, exists_: Dir -> bool, p: LoadedPackage, rest: seq<LoadedPackage>)
    requires |decls| > 0 && LoadPackage(decls[0], exists_) == Ok(p)
    requires |rest| == |decls| - 1 && forall i :: 0 <= i < |decls[1..]| ==> LoadPackage(decls[1..][i], exists_) == Ok(rest[i])
    ensures forall i :: 0 <= i < |decls| ==> LoadPackage(decls[i], exists_) == Ok(([p] + rest)[i])
    ensures forall i :: 0 <= i < |decls| ==> Loadable(decls[i], exists_)
  {
    forall i | 0 < i < |decls|
      ensures LoadPackage(decls[i], exists_) == Ok(([p] + rest)[i])
    {
      assert decls[i] == decls[1..][i - 1];
    }
  }
}
