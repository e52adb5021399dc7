/**
  What a successful build writes to the repository: which adds and tags,
  and in which order.
 */
module BuilderProperties {
  import opened Wrappers
  import opened Seqs
  import opened Reachability
  import opened PackageGraph
  import opened LexOrder
  import opened Loader
  import opened ResourceSort
  import opened OverrideGraph
  import opened Conflicts
  import opened Emission
  import opened RepositoryBuilder

  /** `g` is a valid graph over the registered packages of `ps`, as a successful graph build yields. */
  ghost predicate Over(g: Graph, ps: seq<LoadedPackage>)
  {
    Valid(g) && g.nodes == Names(Registered(ps))
  }

  /** A successful build makes exactly the calls emitted from its override graph. */
  lemma BuildIsEmit(ps: seq<LoadedPackage>, contains: (Dir, string) -> bool)
    requires BuildRepository(ps, contains).Ok?
    ensures BuildGraph(ps).Ok? && Over(BuildGraph(ps).value, ps)
    ensures BuildRepository(ps, contains).value == Emit(BuildGraph(ps).value, ps)
  {
  }

  /** The first part of the emitted calls holds only adds, the second only tags. */
  lemma EmitShape(g: Graph, ps: seq<LoadedPackage>)
    requires Valid(g)
    ensures forall s :: s in AddSteps(EmissionOrder(g), Registered(ps)) ==> s.call.Add?
    ensures forall s :: s in TagSteps(TagPackages(g, ps)) ==> s.call.Tag?
  {
    AddStepsOwners(EmissionOrder(g), Registered(ps));
    TagStepsAreTags(TagPackages(g, ps));
  }

  /** Registered packages have distinct names once the graph is built over them. */
  lemma RegisteredNamesDistinct(g: Graph, ps: seq<LoadedPackage>)
    requires Over(g, ps)
    ensures forall i, j :: 0 <= i < j < |Registered(ps)| ==> Registered(ps)[i].name != Registered(ps)[j].name
  {
    var regs := Registered(ps);
    forall i, j | 0 <= i < j < |regs|
      ensures regs[i].name != regs[j].name
    {
      assert Names(regs)[i] == regs[i].name && Names(regs)[j] == regs[j].name;
    }
  }

  // ---------------------------------------------------------------------
  // Adds
  // ---------------------------------------------------------------------

  /** Every package that declares resources is emitted. */
  lemma RegisteredEmitted(g: Graph, ps: seq<LoadedPackage>)
    requires Over(g, ps)
    ensures forall p :: p in ps && |p.resources| > 0 ==> p.name in EmissionOrder(g)
  {
    var regs := Registered(ps);
    RegisteredMembers(ps);
    forall p | p in ps && |p.resources| > 0
      ensures p.name in Names(regs)
    {
      var k :| 0 <= k < |regs| && regs[k] == p;
      assert Names(regs)[k] == p.name;
    }
  }

  /** The adds of packages with distinct names, emitted in `order`, are exactly their declarations. */
  lemma AddStepsDeclared(order: seq<Node>, regs: seq<LoadedPackage>, ps: seq<LoadedPackage>)
    requires forall p :: p in regs <==> p in ps && |p.resources| > 0
    requires forall i, j :: 0 <= i < j < |regs| ==> regs[i].name != regs[j].name
    requires forall p :: p in ps && |p.resources| > 0 ==> p.name in order
    ensures forall s :: s in AddSteps(order, regs) <==>
              s.call.Add? && exists p :: p in ps && p.name == s.owner && Declares(p, s.call.path, s.call.dir)
  {
    AddStepsMembers(order, regs);
    forall s: Step | s.call.Add? && exists p: LoadedPackage :: p in ps && p.name == s.owner && Declares(p, s.call.path, s.call.dir)
      ensures s in AddSteps(order, regs)
    {
      var p :| p in ps && p.name == s.owner && Declares(p, s.call.path, s.call.dir);
      assert |p.resources| > 0;
      PackageNamedUnique(regs, p);
    }
  }

  /** The adds of `adds + tags` are those of `adds`. */
  lemma AddsOfHead(adds: seq<Step>, tags: seq<Step>)
    requires forall s :: s in tags ==> s.call.Tag?
    ensures forall s :: s in adds + tags && s.call.Add? <==> s in adds && s.call.Add?
  {
  }

  lemma EmitAddsDeclared(g: Graph, ps: seq<LoadedPackage>)
    requires Over(g, ps)
    ensures forall s :: s in Emit(g, ps) && s.call.Add? <==>
              s.call.Add? && exists p :: p in ps && p.name == s.owner && Declares(p, s.call.path, s.call.dir)
  {
    EmitShape(g, ps);
    var regs := Registered(ps);
    var order := EmissionOrder(g);
    RegisteredMembers(ps);
    RegisteredNamesDistinct(g, ps);
    RegisteredEmitted(g, ps);
    AddStepsDeclared(order, regs, ps);
    AddsOfHead(AddSteps(order, regs), TagSteps(TagPackages(g, ps)));
  }

  /**
    The build adds exactly the declared directories: an add for path P and
    directory D is made for a package if and only if that package maps D to P.
   */
  lemma AddsAreDeclared(ps: seq<LoadedPackage>, contains: (Dir, string) -> bool)
    requires BuildRepository(ps, contains).Ok?
    ensures forall s :: s in BuildRepository(ps, contains).value && s.call.Add? <==>
              s.call.Add? && exists p :: p in ps && p.name == s.owner && Declares(p, s.call.path, s.call.dir)
  {
    BuildIsEmit(ps, contains);
    EmitAddsDeclared(BuildGraph(ps).value, ps);
  }

  lemma NoneRegistered(ps: seq<LoadedPackage>)
    requires forall p :: p in ps ==> p.resources == []
    ensures Registered(ps) == []
  {
    if ps != [] {
      assert ps[0] in ps;
      NoneRegistered(ps[1..]);
    }
  }

  /** A package without resources contributes no add; if no package has any, the build makes tag calls only. */
  lemma NoResourcesNoAdds(ps: seq<LoadedPackage>, contains: (Dir, string) -> bool)
    requires forall p :: p in ps ==> p.resources == []
    ensures BuildRepository(ps, contains).Ok?
    ensures forall s :: s in BuildRepository(ps, contains).value ==> s.call.Tag?
  {
    RegisteredMembers(ps);
    var regs := Registered(ps);
    NoneRegistered(ps);
    EmptyGraphValid();
    assert Names(regs) == [];
    assert EmptyGraph.nodes + Names(regs) == [];
    assert BuildGraph(ps).Ok?;
    assert ConflictFree(BuildGraph(ps).value, regs, contains);
    AddsAreDeclared(ps, contains);
  }

  /** An emitted add lies in the add part, and its owner is emitted. */
  lemma EmitAddPosition(g: Graph, ps: seq<LoadedPackage>, i: int)
    requires Valid(g)
    requires 0 <= i < |Emit(g, ps)| && Emit(g, ps)[i].call.Add?
    ensures i < |AddSteps(EmissionOrder(g), Registered(ps))|
    ensures Emit(g, ps)[i] == AddSteps(EmissionOrder(g), Registered(ps))[i]
    ensures Emit(g, ps)[i].owner in EmissionOrder(g)
  {
    EmitShape(g, ps);
    var adds := AddSteps(EmissionOrder(g), Registered(ps));
    var tags := TagSteps(TagPackages(g, ps));
    AddInHead(adds, tags, i);
    AddStepsOwners(EmissionOrder(g), Registered(ps));
    assert adds[i] in adds;
  }

  lemma EmitPathOrder(g: Graph, ps: seq<LoadedPackage>, i: int, j: int)
    requires Valid(g)
    requires 0 <= i < |Emit(g, ps)| && 0 <= j < |Emit(g, ps)|
    requires Emit(g, ps)[i].call.Add? && Emit(g, ps)[j].call.Add?
    requires HasPath(g, Emit(g, ps)[i].owner, Emit(g, ps)[j].owner)
    ensures i < j
  {
    EmitAddPosition(g, ps, i);
    EmitAddPosition(g, ps, j);
    var order := EmissionOrder(g);
    var r := Emit(g, ps);
    var a := IndexOf(order, r[i].owner);
    var b := IndexOf(order, r[j].owner);
    SortedFollowsPaths(g, a, b);
    AddStepsFollowOrder(order, Registered(ps), i, j, a, b);
  }

  /**
    When the override graph leads from package A to package B, directly or
    through other packages, every add for A is made before every add for B.
   */
  lemma PathOrdersAdds(ps: seq<LoadedPackage>, contains: (Dir, string) -> bool, i: int, j: int)
    requires BuildRepository(ps, contains).Ok?
    requires 0 <= i < |BuildRepository(ps, contains).value| && 0 <= j < |BuildRepository(ps, contains).value|
    requires BuildRepository(ps, contains).value[i].call.Add? && BuildRepository(ps, contains).value[j].call.Add?
    requires HasPath(BuildGraph(ps).value, BuildRepository(ps, contains).value[i].owner, BuildRepository(ps, contains).value[j].owner)
    ensures i < j
  {
    BuildIsEmit(ps, contains);
    EmitPathOrder(BuildGraph(ps).value, ps, i, j);
  }

  /** In a graph that holds an edge for every override, an overridden package's adds come first. */
  lemma EmitOverrideOrder(g: Graph, ps: seq<LoadedPackage>, i: int, j: int)
    requires Valid(g)
    requires forall x, y :: Overrides(Registered(ps), x, y) && HasPackage(g, x) ==> HasEdge(g, x, y)
    requires 0 <= i < |Emit(g, ps)| && 0 <= j < |Emit(g, ps)|
    requires Emit(g, ps)[i].call.Add? && Emit(g, ps)[j].call.Add?
    requires Overrides(Registered(ps), Emit(g, ps)[i].owner, Emit(g, ps)[j].owner)
    ensures i < j
  {
    EmitAddPosition(g, ps, i);
    var r := Emit(g, ps);
    assert HasEdge(g, r[i].owner, r[j].owner);
    EdgeReaches(g.edges, r[i].owner, r[j].owner);
    EmitPathOrder(g, ps, i, j);
  }

  /** A package's adds all come after the adds of every package it overrides. */
  lemma OverriddenAddsFirst(ps: seq<LoadedPackage>, contains: (Dir, string) -> bool, i: int, j: int)
    requires BuildRepository(ps, contains).Ok?
    requires 0 <= i < |BuildRepository(ps, contains).value| && 0 <= j < |BuildRepository(ps, contains).value|
    requires BuildRepository(ps, contains).value[i].call.Add? && BuildRepository(ps, contains).value[j].call.Add?
    requires Overrides(Registered(ps), BuildRepository(ps, contains).value[i].owner, BuildRepository(ps, contains).value[j].owner)
    ensures i < j
  {
    BuildIsEmit(ps, contains);
    EmitOverrideOrder(BuildGraph(ps).value, ps, i, j);
  }

  lemma EmitPackageAdds(g: Graph, ps: seq<LoadedPackage>, p: LoadedPackage)
    requires Over(g, ps)
    requires p in ps && |p.resources| > 0
    ensures AddsFor(Emit(g, ps), p.name) == PackageAdds(p)
  {
    EmitShape(g, ps);
    var regs := Registered(ps);
    var order := EmissionOrder(g);
    var adds := AddSteps(order, regs);
    var tags := TagSteps(TagPackages(g, ps));
    AddsForAppend(adds, tags, p.name);
    AddsForNone(tags, p.name);
    RegisteredMembers(ps);
    RegisteredNamesDistinct(g, ps);
    var k :| 0 <= k < |regs| && regs[k] == p;
    assert Names(regs)[k] == p.name;
    var m := IndexOf(order, p.name);
    AddStepsAddsFor(order, regs, m);
    PackageNamedUnique(regs, p);
  }

  /** The adds made for one registered package are that package's own adds, in order. */
  lemma PackageAddsKept(ps: seq<LoadedPackage>, contains: (Dir, string) -> bool, p: LoadedPackage)
    requires BuildRepository(ps, contains).Ok?
    requires p in ps && |p.resources| > 0
    ensures AddsFor(BuildRepository(ps, contains).value, p.name) == PackageAdds(p)
  {
    BuildIsEmit(ps, contains);
    EmitPackageAdds(BuildGraph(ps).value, ps, p);
  }

  /**
    Within a package, adds come in lexicographic order of their repository
    paths, whatever the declaration order, and the directories of one path
    keep their declaration order.
   */
  lemma PackageAddsOrdered(ps: seq<LoadedPackage>, contains: (Dir, string) -> bool, p: LoadedPackage)
    requires BuildRepository(ps, contains).Ok?
    requires p in ps && |p.resources| > 0
    ensures forall a, b :: 0 <= a < b < |AddsFor(BuildRepository(ps, contains).value, p.name)| ==>
              LexLeq(AddsFor(BuildRepository(ps, contains).value, p.name)[a].call.path,
                     AddsFor(BuildRepository(ps, contains).value, p.name)[b].call.path)
    ensures DistinctPaths(p.resources) ==>
              forall res :: res in p.resources ==> DirsAt(AddsFor(BuildRepository(ps, contains).value, p.name), res.path) == res.dirs
  {
    PackageAddsKept(ps, contains, p);
    PackageAddsSorted(p);
    if DistinctPaths(p.resources) {
      forall res | res in p.resources
        ensures DirsAt(PackageAdds(p), res.path) == res.dirs
      {
        PackageDirsInOrder(p, res);
      }
    }
  }

  // ---------------------------------------------------------------------
  // Tags
  // ---------------------------------------------------------------------

  /** The packages whose tags are read are exactly the loaded packages. */
  lemma TagPackagesMembers(g: Graph, ps: seq<LoadedPackage>)
    requires Over(g, ps)
    ensures forall p :: p in TagPackages(g, ps) <==> p in ps
  {
    var regs := Registered(ps);
    var order := EmissionOrder(g);
    RegisteredMembers(ps);
    UnregisteredMembers(ps);
    NamedPackagesMembers(order, regs);
    RegisteredNamesDistinct(g, ps);
    RegisteredEmitted(g, ps);
    forall p | p in ps && |p.resources| > 0
      ensures p in NamedPackages(order, regs)
    {
      NamedPackagesCover(order, regs, p);
    }
  }

  /** A step of `adds + tags` that is a tag lies in the tag part. */
  lemma TagInTail(adds: seq<Step>, tags: seq<Step>, k: int)
    requires forall s :: s in adds ==> s.call.Add?
    requires 0 <= k < |adds + tags| && (adds + tags)[k].call.Tag?
    ensures |adds| <= k && (adds + tags)[k] == tags[k - |adds|]
    ensures (adds + tags)[k].call == Calls(tags)[k - |adds|]
  {
  }

  /** A step of `adds + tags` that is an add lies in the add part. */
  lemma AddInHead(adds: seq<Step>, tags: seq<Step>, k: int)
    requires forall s :: s in tags ==> s.call.Tag?
    requires 0 <= k < |adds + tags| && (adds + tags)[k].call.Add?
    ensures k < |adds| && (adds + tags)[k] == adds[k]
  {
  }

  /** The tag calls of `adds + tags` are the calls of `tags`. */
  lemma TagCallsOfTail(adds: seq<Step>, tags: seq<Step>)
    requires forall s :: s in adds ==> s.call.Add?
    requires forall s :: s in tags ==> s.call.Tag?
    ensures forall c :: c in Calls(adds + tags) && c.Tag? <==> c in Calls(tags)
  {
    assert Calls(adds + tags) == Calls(adds) + Calls(tags);
    forall c | c in Calls(adds)
      ensures c.Add?
    {
      var k :| 0 <= k < |adds| && Calls(adds)[k] == c;
      assert adds[k] in adds;
    }
    forall c | c in Calls(tags)
      ensures c.Tag?
    {
      var k :| 0 <= k < |tags| && Calls(tags)[k] == c;
      assert tags[k] in tags;
    }
  }

  lemma EmitTagsDeclared(g: Graph, ps: seq<LoadedPackage>)
    requires Over(g, ps)
    ensures forall c :: c in Calls(Emit(g, ps)) && c.Tag? <==>
              c.Tag? && exists p :: p in ps && TagDecl(c.path, c.tag) in p.tags
  {
    EmitShape(g, ps);
    var adds := AddSteps(EmissionOrder(g), Registered(ps));
    var tps := TagPackages(g, ps);
    var tags := TagSteps(tps);
    TagCallsOfTail(adds, tags);
    TagPackagesMembers(g, ps);
    AllTagStepsMembers(tps);
    DedupCallsSpec(AllTagSteps(tps), {});
  }

  /** A tag call is made if and only if some loaded package declares that tag for that path. */
  lemma TagsAreDeclared(ps: seq<LoadedPackage>, contains: (Dir, string) -> bool)
    requires BuildRepository(ps, contains).Ok?
    ensures forall c :: c in Calls(BuildRepository(ps, contains).value) && c.Tag? <==>
              c.Tag? && exists p :: p in ps && TagDecl(c.path, c.tag) in p.tags
  {
    BuildIsEmit(ps, contains);
    EmitTagsDeclared(BuildGraph(ps).value, ps);
  }

  lemma TagsDistinctIn(adds: seq<Step>, tags: seq<Step>, i: int, j: int)
    requires forall s :: s in adds ==> s.call.Add?
    requires Distinct(Calls(tags))
    requires 0 <= i < j < |adds + tags| && (adds + tags)[i].call.Tag?
    ensures (adds + tags)[i].call != (adds + tags)[j].call
  {
    TagInTail(adds, tags, i);
    var j' := j - |adds|;
    assert 0 <= j' < |tags| && (adds + tags)[j] == tags[j'];
    assert Calls(tags)[j'] == tags[j'].call;
  }

  lemma TagsOrderedIn(adds: seq<Step>, tags: seq<Step>, all: seq<Step>, i: int, j: int)
    requires forall s :: s in adds ==> s.call.Add?
    requires forall c :: c in Calls(tags) ==> c in Calls(all)
    requires forall a, b :: 0 <= a < b < |tags| ==> IndexOf(Calls(all), tags[a].call) < IndexOf(Calls(all), tags[b].call)
    requires 0 <= i < j < |adds + tags| && (adds + tags)[i].call.Tag?
    ensures (adds + tags)[i].call in Calls(all) && (adds + tags)[j].call in Calls(all)
    ensures IndexOf(Calls(all), (adds + tags)[i].call) < IndexOf(Calls(all), (adds + tags)[j].call)
  {
    TagInTail(adds, tags, i);
    var i', j' := i - |adds|, j - |adds|;
    assert 0 <= i' < j' < |tags| && (adds + tags)[j] == tags[j'];
    assert Calls(tags)[i'] == tags[i'].call && Calls(tags)[j'] == tags[j'].call;
  }

  lemma EmitTagsDistinct(g: Graph, ps: seq<LoadedPackage>, i: int, j: int)
    requires Valid(g)
    requires 0 <= i < j < |Emit(g, ps)| && Emit(g, ps)[i].call.Tag?
    ensures Emit(g, ps)[i].call != Emit(g, ps)[j].call
  {
    EmitShape(g, ps);
    var adds := AddSteps(EmissionOrder(g), Registered(ps));
    var tps := TagPackages(g, ps);
    DedupCallsSpec(AllTagSteps(tps), {});
    TagsDistinctIn(adds, TagSteps(tps), i, j);
  }

  /** No tag call is made twice, however many packages declare it. */
  lemma TagsAreDistinct(ps: seq<LoadedPackage>, contains: (Dir, string) -> bool, i: int, j: int)
    requires BuildRepository(ps, contains).Ok?
    requires 0 <= i < j < |BuildRepository(ps, contains).value|
    requires BuildRepository(ps, contains).value[i].call.Tag?
    ensures BuildRepository(ps, contains).value[i].call != BuildRepository(ps, contains).value[j].call
  {
    BuildIsEmit(ps, contains);
    EmitTagsDistinct(BuildGraph(ps).value, ps, i, j);
  }

  lemma EmitTagsOrder(g: Graph, ps: seq<LoadedPackage>, i: int, j: int)
    requires Valid(g)
    requires 0 <= i < j < |Emit(g, ps)| && Emit(g, ps)[i].call.Tag?
    ensures Emit(g, ps)[i].call in Calls(AllTagSteps(TagPackages(g, ps)))
    ensures Emit(g, ps)[j].call in Calls(AllTagSteps(TagPackages(g, ps)))
    ensures IndexOf(Calls(AllTagSteps(TagPackages(g, ps))), Emit(g, ps)[i].call)
          < IndexOf(Calls(AllTagSteps(TagPackages(g, ps))), Emit(g, ps)[j].call)
  {
    EmitShape(g, ps);
    var adds := AddSteps(EmissionOrder(g), Registered(ps));
    var tps := TagPackages(g, ps);
    var all := AllTagSteps(tps);
    DedupCallsSpec(all, {});
    TagsOrderedIn(adds, TagSteps(tps), all, i, j);
  }

  /**
    Tags come in the order of their first declaration, reading the packages
    that declare resources in emission order and then the others in load order.
   */
  lemma TagsInDeclarationOrder(ps: seq<LoadedPackage>, contains: (Dir, string) -> bool, i: int, j: int)
    requires BuildRepository(ps, contains).Ok?
    requires 0 <= i < j < |BuildRepository(ps, contains).value|
    requires BuildRepository(ps, contains).value[i].call.Tag?
    ensures BuildRepository(ps, contains).value[i].call in Calls(AllTagSteps(TagPackages(BuildGraph(ps).value, ps)))
    ensures BuildRepository(ps, contains).value[j].call in Calls(AllTagSteps(TagPackages(BuildGraph(ps).value, ps)))
    ensures IndexOf(Calls(AllTagSteps(TagPackages(BuildGraph(ps).value, ps))), BuildRepository(ps, contains).value[i].call)
          < IndexOf(Calls(AllTagSteps(TagPackages(BuildGraph(ps).value, ps))), BuildRepository(ps, contains).value[j].call)
  {
    BuildIsEmit(ps, contains);
    EmitTagsOrder(BuildGraph(ps).value, ps, i, j);
  }

  /** Tag calls keep their relative order once the adds are put in front of them. */
  lemma TagOrderAfterAdds(adds: seq<Step>, tags: seq<Step>, c1: Call, c2: Call)
    requires forall s :: s in adds ==> s.call.Add?
    requires c1.Tag? && c2.Tag? && c1 in Calls(tags) && c2 in Calls(tags)
    requires IndexOf(Calls(tags), c1) < IndexOf(Calls(tags), c2)
    ensures c1 in Calls(adds + tags) && c2 in Calls(adds + tags)
    ensures IndexOf(Calls(adds + tags), c1) < IndexOf(Calls(adds + tags), c2)
  {
    assert Calls(adds + tags) == Calls(adds) + Calls(tags);
    forall c | c in Calls(adds)
      ensures c.Add?
    {
      var k :| 0 <= k < |adds| && Calls(adds)[k] == c;
      assert adds[k] in adds;
    }
    IndexOfAppend(Calls(adds), Calls(tags), c1);
    IndexOfAppend(Calls(adds), Calls(tags), c2);
  }

  /**
    Two tags one package declares, the later of which no other package
    declares, are made in the order that package declares them.
   */
  lemma EmitOwnTagsInOrder(g: Graph, ps: seq<LoadedPackage>, p: LoadedPackage, t1: TagDecl, t2: TagDecl)
    requires Over(g, ps)
    requires p in ps && t1 in p.tags && t2 in p.tags && IndexOf(p.tags, t1) < IndexOf(p.tags, t2)
    requires forall q :: q in ps && t2 in q.tags ==> q == p
    ensures Tag(t1.path, t1.tag) in Calls(Emit(g, ps)) && Tag(t2.path, t2.tag) in Calls(Emit(g, ps))
    ensures IndexOf(Calls(Emit(g, ps)), Tag(t1.path, t1.tag)) < IndexOf(Calls(Emit(g, ps)), Tag(t2.path, t2.tag))
  {
    var c1, c2 := Tag(t1.path, t1.tag), Tag(t2.path, t2.tag);
    var tps := TagPackages(g, ps);
    TagPackagesMembers(g, ps);
    AllTagStepsOwnOrder(tps, p, t1, t2);
    DedupKeepsFirstOrder(AllTagSteps(tps), c1, c2);
    EmitShape(g, ps);
    TagOrderAfterAdds(AddSteps(EmissionOrder(g), Registered(ps)), TagSteps(tps), c1, c2);
  }

  /**
    A package's tags are made in the order it lists them, for every tag that
    no other package also declares.
   */
  lemma OwnTagsInOrder(ps: seq<LoadedPackage>, contains: (Dir, string) -> bool, p: LoadedPackage, t1: TagDecl, t2: TagDecl)
    requires BuildRepository(ps, contains).Ok?
    requires p in ps && t1 in p.tags && t2 in p.tags && IndexOf(p.tags, t1) < IndexOf(p.tags, t2)
    requires forall q :: q in ps && t2 in q.tags ==> q == p
    ensures Tag(t1.path, t1.tag) in Calls(BuildRepository(ps, contains).value)
    ensures Tag(t2.path, t2.tag) in Calls(BuildRepository(ps, contains).value)
    ensures IndexOf(Calls(BuildRepository(ps, contains).value), Tag(t1.path, t1.tag))
          < IndexOf(Calls(BuildRepository(ps, contains).value), Tag(t2.path, t2.tag))
  {
    BuildIsEmit(ps, contains);
    EmitOwnTagsInOrder(BuildGraph(ps).value, ps, p, t1, t2);
  }

  // ---------------------------------------------------------------------
  // Conflicts
  // ---------------------------------------------------------------------

  /**
    Two registered packages that map the same repository path, and that the
    override graph leaves unordered, fail the build with a conflict: no call
    is made at all.
   */
  lemma SharedPathFails(ps: seq<LoadedPackage>, contains: (Dir, string) -> bool, i: int, j: int, ra: Resource, rb: Resource)
    requires BuildGraph(ps).Ok?
    requires 0 <= i < j < |Registered(ps)|
    requires !Related(BuildGraph(ps).value, Registered(ps)[i].name, Registered(ps)[j].name)
    requires ra in Registered(ps)[i].resources && rb in Registered(ps)[j].resources && ra.path == rb.path
    ensures BuildRepository(ps, contains).Err? && BuildRepository(ps, contains).error.ResourceConflict?
  {
    var g := BuildGraph(ps).value;
    SharedPathUnresolved(g, Registered(ps), contains, i, j, ra, rb);
    var r := BuildRepository(ps, contains);
    assert r.Err?;
    assert ConflictReported(g, ps, r, contains);
  }

  /**
    Two registered packages whose resources collide, on a common path or on a
    path below the other's that its directory already holds, and that the
    graph leaves unordered, make the emission fail with a conflict.
   */
  lemma CollisionRefused(g: Graph, ps: seq<LoadedPackage>, contains: (Dir, string) -> bool, i: int, j: int, ra: Resource, rb: Resource)
    requires Valid(g)
    requires 0 <= i < j < |Registered(ps)|
    requires !Related(g, Registered(ps)[i].name, Registered(ps)[j].name)
    requires ra in Registered(ps)[i].resources && rb in Registered(ps)[j].resources && Collide(ra, rb, contains)
    ensures Resolve(g, ps, contains).Err? && Resolve(g, ps, contains).error.ResourceConflict?
  {
    var regs := Registered(ps);
    assert Unresolved(g, regs[i], regs[j], contains);
    assert !ConflictFree(g, regs, contains);
  }

  lemma SharedPathUnresolved(g: Graph, regs: seq<LoadedPackage>, contains: (Dir, string) -> bool, i: int, j: int, ra: Resource, rb: Resource)
    requires 0 <= i < j < |regs| && !Related(g, regs[i].name, regs[j].name)
    requires ra in regs[i].resources && rb in regs[j].resources && ra.path == rb.path
    ensures !ConflictFree(g, regs, contains)
  {
    assert Collide(ra, rb, contains);
    assert Unresolved(g, regs[i], regs[j], contains);
  }
}
