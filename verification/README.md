# Puli Composer plugin: package graph and repository builder

This project models the core of the Composer plugin that builds a Puli resource repository from the
packages installed in a project. It has two parts.

**The package graph.** The nodes are package names, kept in insertion order. A directed edge `a -> b`
means "a is overridden by b": the resources of `a` are added before those of `b`.
- `AddPackage` refuses a name that is already present.
- `AddEdge` refuses an unknown package and any edge that would close a cycle.
- `HasPath` is reachability. `GetPath` returns the path that a depth-first search finds, taking
  successors in edge-insertion order.
- `GetSortedPackages` returns a topological order of the whole graph or of a subset of it.
  - Ties are broken by insertion order.
  - A subset that names an unknown package fails.

**The repository builder.** It works in stages.
1. It loads every package's `extra` section: `resources`, `override`, `override-order` (read on the
   root package only) and `resource-tags`. A malformed value fails the build. So does a declared
   directory that does not exist.
2. It builds the override graph over the packages that declare resources.
   - Each overridden package gets an edge to the package that overrides it.
   - For consecutive names of the root's override order, an edge is added unless the graph already
     orders the two packages the other way.
3. It rejects resource conflicts that the graph leaves unordered. A conflict is either:
   - two packages mapping the same path; or
   - one package mapping a path below another package's path, where the other package's directory
     already holds that sub-path.
4. It emits the calls. For every registered package in topological order, it adds each resource
   directory, paths in lexicographic order and directories in declaration order. Then it tags
   resources: each (path, tag) pair once, in declaration order.

A failure at any stage means that no call at all reaches the repository. The model returns the
whole call list, or the error, as a value.

The modules follow that structure:

| module | file | contents |
|---|---|---|
| `PackageGraph`, `Reachability`, `TopoSort` | package_graph.dfy, reachability.dfy, topo_sort.dfy | the graph |
| `GraphFixture` | graph_fixture.dfy | the six-package graph of the graph tests, with every test case proved on it |
| `Config`, `Loader` | config.dfy, package_loader.dfy | the `extra` section |
| `OverrideGraph` | override_graph.dfy | the override graph |
| `Conflicts` | conflicts.dfy | conflicts |
| `ResourceSort`, `LexOrder`, `Emission` | resource_sort.dfy, lex_order.dfy, emission.dfy | the calls |
| `RepositoryBuilder` | repository_builder.dfy | loading every package, and the later stages over the loaded packages |
| `Plugin` | plugin.dfy | the whole build, from package declarations to calls |
| `OverrideProperties`, `BuilderProperties`, `LoaderProperties` | override_properties.dfy, builder_properties.dfy, loader_properties.dfy | properties of the whole build |

The model follows the behaviour that the plugin's test suites specify for `PackageGraph` and
`RepositoryBuilder`. Where those tests leave a choice open, the model's choice is listed under
"Left out".

## Model

| member | source | states |
|---|---|---|
| PackageGraph.AddPackage | tests/PackageGraph/PackageGraphTest.php:105-109 | Adding a name fails exactly when the name is already a package, with a duplicate-package error. On success the package set grows by exactly that name and the edges are unchanged. |
| PackageGraph.AddEdge | tests/PackageGraph/PackageGraphTest.php:114-138 | An unknown left package fails first, then an unknown right package. With both known, the edge fails exactly when it is a self edge or the reverse path already exists, and the error is a cycle. On success the edge set gains exactly the new edge and the graph stays acyclic. |
| Reachability.AddEdgeKeepsAcyclic | tests/PackageGraph/PackageGraphTest.php:132-138 | Adding `a -> b` to an acyclic edge list, when `b` does not reach `a` and `a != b`, leaves it acyclic. This is why refusing only reverse paths is enough. |
| Reachability.ReachesIffWalk | tests/PackageGraph/PackageGraphTest.php:54-90 | The closure-based reachability holds exactly when there is a walk of one or more edges between the two packages. |
| PackageGraph.HasPathIffWalk | tests/PackageGraph/PackageGraphTest.php:85-90 | `HasPath` holds exactly when some walk along the graph's edges leads from one package to the other. |
| PackageGraph.HasPathNeedsPackages | tests/PackageGraph/PackageGraphTest.php:54-80 | In a valid graph, a path connects two distinct known packages. So paths to or from an unknown name (`foo`) never exist. |
| PackageGraph.HasEdgeNeedsPackages | tests/PackageGraph/PackageGraphTest.php:162-186 | In a valid graph, an edge connects two known packages, and its reverse is never an edge. |
| PackageGraph.GetPath | tests/PackageGraph/PackageGraphTest.php:95-100 | A path is returned exactly when `HasPath` holds. It is a walk from the source to the target along graph edges, and each step takes the first successor (in edge-insertion order) that leads to the target. |
| PackageGraph.GetSortedPackages | tests/PackageGraph/PackageGraphTest.php:140-160 | Without a subset it always succeeds. With one, it fails exactly when the subset names an unknown package, and the error names it. The result holds each known package of the subset once and nothing else, and every edge between two of its members points forward. |
| PackageGraph.SortedFollowsPaths | tests/PackageGraph/PackageGraphTest.php:140-145 | In the full order, a package comes before every package it has a path to, not only before its direct successors. |
| PackageGraph.SortedTieBreak | tests/PackageGraph/PackageGraphTest.php:140-145 | The k-th inserted package precedes any package that none of the first k+1 inserted packages needs: insertion order breaks ties. |
| PackageGraph.SubsetTieBreak | tests/PackageGraph/PackageGraphTest.php:147-152 | The same tie-break for a subset, taken over the subgraph induced by the subset's members in insertion order. |
| PackageGraph.AddEdgeValid | tests/PackageGraph/PackageGraphTest.php:132-138 | Appending a new edge between two known, distinct packages with no reverse path keeps the graph valid. |
| TopoSort.TopoOrder | tests/PackageGraph/PackageGraphTest.php:140-152 | The order holds each candidate exactly once and nothing else, and for every edge between candidates the source precedes the target. |
| TopoSort.TopoOrderFollowsPaths | tests/PackageGraph/PackageGraphTest.php:140-152 | Within the candidates, a package precedes every package it reaches. |
| TopoSort.TopoOrderTieBreak | tests/PackageGraph/PackageGraphTest.php:140-152 | A candidate precedes every package that is not needed by it or by the candidates inserted before it. |
| GraphFixture.SetUpYieldsFixture | tests/PackageGraph/PackageGraphTest.php:32-52 | The set-up's eleven calls all succeed and yield the six-package graph with its five edges. |
| GraphFixture.FixtureNoPaths | tests/PackageGraph/PackageGraphTest.php:54-100 | For each of the seven rows without a path (reverse directions, unrelated packages, the unknown `foo`), `HasPath` is false and `GetPath` returns nothing. |
| GraphFixture.FixturePathP1P2 | tests/PackageGraph/PackageGraphTest.php:54-100 | The path between adjacent packages p1 and p2 is the edge itself. |
| GraphFixture.FixturePathP1P3 | tests/PackageGraph/PackageGraphTest.php:54-100 | The path from p1 to p3 is `[p1, p2, p3]`: the search follows the first successor. |
| GraphFixture.AddEdgeFailsIfCycle | tests/PackageGraph/PackageGraphTest.php:132-138 | After `p1 -> p2`, adding `p2 -> p1` fails with a cycle error. |
| GraphFixture.SortedFixture | tests/PackageGraph/PackageGraphTest.php:140-145 | The fixture sorts to `[p1, p5, p2, p4, p3, p6]`. |
| GraphFixture.SortedFixtureSubset | tests/PackageGraph/PackageGraphTest.php:147-152 | The subset `[p1, p3, p4, p5, p6]` sorts to `[p1, p4, p3, p5, p6]`. Inside the subset, the path through the absent p2 does not pull p5 forward. |
| GraphFixture.SortedUnknownSubsetFails | tests/PackageGraph/PackageGraphTest.php:157-160 | Sorting a subset with an unknown name fails with that name. |
| Config.Lookup | tests/RepositoryBuilder/RepositoryBuilderTest.php:48-71 | A key is missing exactly when no entry carries it. A value that is found belongs to an entry with that key. |
| Config.LookupUnique | tests/RepositoryBuilder/RepositoryBuilderTest.php:73-95 | With unique keys, looking up an entry's key returns that entry's value. |
| Config.LookupWithout | tests/RepositoryBuilder/RepositoryBuilderTest.php:543-579 | Removing one key leaves the lookup of every other key unchanged. |
| Config.StringOrList | tests/RepositoryBuilder/RepositoryBuilderTest.php:138-159 | A value is accepted exactly when it is a string or a list of strings. A string becomes a one-element list, and a list keeps its strings in order. |
| Loader.ParseResources | tests/RepositoryBuilder/RepositoryBuilderTest.php:73-112 | The entries parse exactly when every value is a string or a list of strings and every directory exists. Each entry yields its path and its directories relative to the install path, in order. A failure names `resources` or a missing directory of this package. |
| Loader.LoadResources | tests/RepositoryBuilder/RepositoryBuilderTest.php:782-807 | A missing key loads no resources. A value that is not a key/value array is refused with `resources`. Anything else is parsed entry by entry. |
| Loader.LoadOverride | tests/RepositoryBuilder/RepositoryBuilderTest.php:161-400 | A missing key yields no overrides. A string or a list of strings is accepted. Anything else is refused with `override`. |
| Loader.LoadOverrideOrder | tests/RepositoryBuilder/RepositoryBuilderTest.php:812-822 | A missing key yields an empty order. A list of strings is accepted in order. Anything else is refused with `override-order`. |
| Loader.LoadTags | tests/RepositoryBuilder/RepositoryBuilderTest.php:827-837 | A missing key yields no tags. An array whose values are strings or lists of strings yields the tags that the entries declare, in the order of `TagEntries`. Anything else is refused with `resource-tags`. |
| Loader.TagEntries | tests/RepositoryBuilder/RepositoryBuilderTest.php:581-777 | The entries are accepted exactly when every value is a string or a list of strings. The tags are then those of each entry in turn, and each entry's tags are in list order. Each tag pairs the entry's path with one listed tag, so the tags are exactly the declared (path, tag) pairs. |
| LoaderProperties.TagEntriesOrder | tests/RepositoryBuilder/RepositoryBuilderTest.php:749-777 | A tag of an earlier entry precedes a tag of a later entry. Within one entry, a tag listed earlier precedes a tag listed later. |
| Loader.LoadPackage | tests/RepositoryBuilder/RepositoryBuilderTest.php:782-837 | A package loads exactly when its `extra` section is well formed and its directories exist. A failure is explained by one malformed key or one missing directory. A loaded package keeps its name, resources, overrides and tags. The override order is read on the root package only and is empty elsewhere. |
| LoaderProperties.NonRootOverrideOrderIgnored | tests/RepositoryBuilder/RepositoryBuilderTest.php:543-579 | A non-root package loads identically with or without an `override-order` key. |
| LoaderProperties.NoExtraLoadsEmpty | tests/RepositoryBuilder/RepositoryBuilderTest.php:48-57 | A package without an `extra` section loads with no resources, overrides, order or tags. |
| LoaderProperties.ResourcesStringRefused | tests/RepositoryBuilder/RepositoryBuilderTest.php:782-792 | `resources` given as a string fails the load with a `resources` definition error. |
| LoaderProperties.ResourcesObjectRefused | tests/RepositoryBuilder/RepositoryBuilderTest.php:797-807 | `resources` given as an object fails the load with a `resources` definition error. |
| LoaderProperties.RootOverrideOrderStringRefused | tests/RepositoryBuilder/RepositoryBuilderTest.php:812-822 | On the root package, `override-order` given as a string fails with an `override-order` definition error. |
| LoaderProperties.TagsStringRefused | tests/RepositoryBuilder/RepositoryBuilderTest.php:827-837 | `resource-tags` given as a string fails with a `resource-tags` definition error. |
| LoaderProperties.MissingDirRefused | tests/RepositoryBuilder/RepositoryBuilderTest.php:100-112 | A declared directory that does not exist fails the load with that directory. |
| LoaderProperties.LoadFailureFirst | tests/RepositoryBuilder/RepositoryBuilderTest.php:100-112 | If any package cannot be loaded, the build fails. Its error is that of the first unloadable package, and that error is explained by one of the package's keys or directories. |
| RepositoryBuilder.LoadAll | tests/RepositoryBuilder/RepositoryBuilderTest.php:100-112 | Loading succeeds exactly when every package loads, and then it keeps them one-to-one in order. A failure carries the error of the first package that fails. |
| Plugin.Build | tests/RepositoryBuilder/RepositoryBuilderTest.php:73-777 | If some package cannot be loaded, the build fails with the error of the first such package, and nothing is emitted. A successful build means every package loaded. All of its adds precede all of its tags, and no tag call is made twice. The adds are exactly the directories that the loaded packages map, and the tags exactly the pairs they declare. |
| Plugin.BuildOutcome | tests/RepositoryBuilder/RepositoryBuilderTest.php:100-495 | The build fails exactly when a package cannot be loaded, or the override graph cannot be built, or two registered packages collide and the graph leaves them unordered. |
| Plugin.Run | tests/RepositoryBuilder/RepositoryBuilderTest.php:48-777 | A run over loaded packages fails exactly when building the repository fails, and with the same error. A successful run makes all adds before all tags and no tag twice, and it adds and tags exactly what the packages declare. |
| Plugin.AddCallsDeclared | tests/RepositoryBuilder/RepositoryBuilderTest.php:73-95 | A directory is added to a path exactly when some loaded package maps that directory to that path. |
| Plugin.RunFails | tests/RepositoryBuilder/RepositoryBuilderTest.php:405-495 | A run fails exactly when the graph cannot be built or two registered packages collide unordered. |
| Plugin.RunGraphFailure | tests/RepositoryBuilder/RepositoryBuilderTest.php:161-400 | A graph that cannot be built fails the run with the graph's own error. |
| Plugin.RunConflict | tests/RepositoryBuilder/RepositoryBuilderTest.php:405-462 | With a graph built, a failed run names two registered packages, the earlier-loaded one first, and a path on which they collide unordered. |
| OverrideGraph.RegisteredNodes | tests/RepositoryBuilder/RepositoryBuilderTest.php:59-71 | The graph's nodes are exactly the names of the packages that declare resources, in load order. Two such packages with one name fail. |
| OverrideGraph.OverrideEdges | tests/RepositoryBuilder/RepositoryBuilderTest.php:161-400 | On success, the edges are exactly the pairs (overridden, overrider) whose overridden package is registered. A failure is a cycle among declared overrides or a duplicate name. |
| OverrideGraph.BuildGraph | tests/RepositoryBuilder/RepositoryBuilderTest.php:161-579 | Every declared override between registered packages is an edge. Every edge comes from an override or from two consecutive names of an override order. A cycle error names a declared override. |
| OverrideProperties.UnknownOverridesIgnored | tests/RepositoryBuilder/RepositoryBuilderTest.php:344-362 | The graph is the same after every override that names an unregistered package is dropped. |
| OverrideProperties.OverrideOrderRelates | tests/RepositoryBuilder/RepositoryBuilderTest.php:497-538 | For two consecutive distinct registered names of an override order, the graph has the edge between them, or the overrides already order them the other way. |
| OverrideProperties.NoOverridesNoEdges | tests/RepositoryBuilder/RepositoryBuilderTest.php:73-159 | Without overrides and override orders, the graph has no edges. |
| OverrideProperties.NoEdgesInsertionOrder | tests/RepositoryBuilder/RepositoryBuilderTest.php:464-495 | A graph without edges is emitted in insertion order. |
| OverrideProperties.NoOverridesLoadOrder | tests/RepositoryBuilder/RepositoryBuilderTest.php:464-495 | Without overrides, packages are emitted in load order. |
| Conflicts.CollisionPath | tests/RepositoryBuilder/RepositoryBuilderTest.php:405-495 | Two resources collide exactly when they share a path or one maps a path that the other's directory holds below its own path. The colliding path is the common or the deeper one. |
| Conflicts.FindConflict | tests/RepositoryBuilder/RepositoryBuilderTest.php:405-495 | No conflict is found exactly when every colliding pair of packages is ordered by the graph, in either direction. A reported conflict names two colliding packages that the graph leaves unordered, the earlier-loaded one first. |
| RepositoryBuilder.Resolve | tests/RepositoryBuilder/RepositoryBuilderTest.php:405-495 | Emitting fails exactly when an unordered conflict exists, and then it reports it. Successful output lists every add before every tag. |
| RepositoryBuilder.BuildRepository | tests/RepositoryBuilder/RepositoryBuilderTest.php:73-495 | A graph failure is the build's error. Otherwise the build fails exactly on an unordered conflict, and the calls list the adds before the tags. |
| RepositoryBuilder.EmissionOrder | tests/RepositoryBuilder/RepositoryBuilderTest.php:161-342 | The packages are emitted once each, exactly the graph's packages. |
| BuilderProperties.NoResourcesNoAdds | tests/RepositoryBuilder/RepositoryBuilderTest.php:48-71 | If no package declares resources, the build succeeds and makes no add call. |
| BuilderProperties.AddsAreDeclared | tests/RepositoryBuilder/RepositoryBuilderTest.php:73-95 | The add calls of a successful build are exactly the (package, path, directory) triples that the packages declare. |
| BuilderProperties.AddStepsDeclared | tests/RepositoryBuilder/RepositoryBuilderTest.php:73-95 | When every registered package appears in the order, the add steps are exactly the (package, path, directory) triples the packages declare. |
| BuilderProperties.RegisteredEmitted | tests/RepositoryBuilder/RepositoryBuilderTest.php:59-95 | Over a graph whose nodes are the registered packages, every package that declares resources is emitted. |
| BuilderProperties.PackageAddsKept | tests/RepositoryBuilder/RepositoryBuilderTest.php:114-159 | The adds of one registered package appear in the build's output as the package's own sorted adds. |
| BuilderProperties.EmitPackageAdds | tests/RepositoryBuilder/RepositoryBuilderTest.php:114-159 | Over any valid graph of the registered packages, the adds emitted for a package are exactly its own adds in sorted order. |
| BuilderProperties.PackageAddsOrdered | tests/RepositoryBuilder/RepositoryBuilderTest.php:114-159 | A package's adds come in lexicographic order of path whatever the declaration order. When the package's paths are distinct, each path's directories come in declaration order. Loading guarantees distinct paths for a `resources` array with distinct keys (see `Loader.ParseResources` and `Loader.LoadPackage`). |
| ResourceSort.SortIgnoresDeclarationOrder | tests/RepositoryBuilder/RepositoryBuilderTest.php:114-136 | Two declarations that are permutations of each other, with distinct paths, sort to the same sequence. |
| ResourceSort.SortByPath | tests/RepositoryBuilder/RepositoryBuilderTest.php:114-136 | The result is sorted by path and is a permutation of the input. |
| Emission.PackageAddsSorted | tests/RepositoryBuilder/RepositoryBuilderTest.php:114-136 | The adds of a package are in lexicographic path order. |
| Emission.PackageDirsInOrder | tests/RepositoryBuilder/RepositoryBuilderTest.php:138-159 | The directories added for a path are the declared directories, in declaration order. |
| Emission.AddStepsFollowOrder | tests/RepositoryBuilder/RepositoryBuilderTest.php:161-342 | The adds of a package listed earlier in the emission order come before those of a package listed later. |
| BuilderProperties.OverriddenAddsFirst | tests/RepositoryBuilder/RepositoryBuilderTest.php:161-342 | If one package overrides another, every add of the overridden package precedes every add of the overriding one, whatever their load order. |
| BuilderProperties.EmitOverrideOrder | tests/RepositoryBuilder/RepositoryBuilderTest.php:161-342 | Over any graph that carries every override as an edge, each add of an overridden package is emitted before each add of the overriding package. |
| BuilderProperties.PathOrdersAdds | tests/RepositoryBuilder/RepositoryBuilderTest.php:241-288 | If the graph has a path from one package to another, for example along an override chain, the first package's adds all come first. |
| BuilderProperties.SharedPathFails | tests/RepositoryBuilder/RepositoryBuilderTest.php:405-431 | Two registered packages that map the same path and are unordered by the graph fail the build with a resource conflict. |
| BuilderProperties.CollisionRefused | tests/RepositoryBuilder/RepositoryBuilderTest.php:405-462 | Over any valid graph, two registered packages whose resources collide, on a common path or on an existing sub-path, and which the graph leaves unordered, make emission fail with a conflict. |
| Emission.DedupCallsSpec | tests/RepositoryBuilder/RepositoryBuilderTest.php:713-747 | Deduplication keeps exactly the calls not seen before, each once, in the order of their first occurrence. |
| BuilderProperties.TagsAreDeclared | tests/RepositoryBuilder/RepositoryBuilderTest.php:581-711 | The tag calls of a successful build are exactly the (path, tag) pairs that some package declares, including pairs on paths of other packages. |
| BuilderProperties.TagPackagesMembers | tests/RepositoryBuilder/RepositoryBuilderTest.php:581-711 | The packages whose tags are emitted are exactly the loaded packages, with or without resources. |
| BuilderProperties.TagsAreDistinct | tests/RepositoryBuilder/RepositoryBuilderTest.php:673-747 | No tag call is repeated, even when two packages declare the same pair. |
| BuilderProperties.EmitTagsDistinct | tests/RepositoryBuilder/RepositoryBuilderTest.php:713-747 | Over any valid graph, no emitted tag call equals a later call. |
| BuilderProperties.TagsInDeclarationOrder | tests/RepositoryBuilder/RepositoryBuilderTest.php:607-777 | Tag calls follow the order of their first declaration when the tagging packages are taken in emission order. |
| Emission.AllTagStepsOwnOrder | tests/RepositoryBuilder/RepositoryBuilderTest.php:749-777 | Among the tags of all packages, two tags that one package declares keep that package's order, as long as no other package declares the later one. |
| Emission.DedupKeepsFirstOrder | tests/RepositoryBuilder/RepositoryBuilderTest.php:713-777 | Dropping repeated calls keeps the order of first occurrences. |
| BuilderProperties.EmitOwnTagsInOrder | tests/RepositoryBuilder/RepositoryBuilderTest.php:749-777 | Over any graph of the registered packages, two tags one package declares are emitted in its declaration order, as long as no other package declares the later one. |
| BuilderProperties.OwnTagsInOrder | tests/RepositoryBuilder/RepositoryBuilderTest.php:749-777 | In a successful build, the tag calls for two tags one package declares come in its declaration order, as long as no other package declares the later one. |

## Left out

- The filesystem. Whether a directory exists is the parameter `exists_`. Whether a directory holds a
  relative path is the parameter `contains`, used by the sub-path conflict. The tests stub both.
- Path normalisation. Install paths and relative directories are kept as given. The root package's
  install path is passed like any other.
- Composer's package objects, its package types, the repository object and the mocks. The
  repository is replaced by the list of calls it would receive, so "no call on failure" becomes
  "an error value instead of a call list".
- PHP's dynamic types. An `extra` value is a string, a key/value array (`Arr`) or anything else
  (`Other`). Keys of an array are assumed distinct, as in PHP.
- String ordering. Resource paths are compared by a lexicographic order on characters, not by PHP's
  `ksort` rules for numeric-looking strings.
- Choices the tests do not pin down:
  - Predecessors are visited in edge-insertion order.
  - Re-adding an existing edge leaves the graph unchanged.
  - A self edge is refused as a cycle.
  - `override` values are validated as a string or a list of strings. No test exercises the failure.
  - `override-order` is read only on the root package, and its elements must be strings.
  - Overrides and override-order names that are not registered packages are ignored.
- Which error a package reports when several of its keys are malformed. Loading checks
  `resources` first, then `override`, then `override-order`, then `resource-tags`.
  - Within `resources`, entries are checked in declaration order. The first entry that is not a
    string or a list of strings, or that names a missing directory, decides the error. For a
    missing directory, the entry's first missing directory is reported.
  - Packages are loaded in declaration order, and the first package that fails decides the error.
- Which conflict is reported when there are several. The earliest-loaded registered package is
  checked against each later one in load order. The first unordered colliding pair is reported,
  the earlier-loaded package named first. The path comes from the first colliding pair of their
  resources, in declaration order.
- Tag order for packages without resources. Such packages are not graph nodes, so their tags come
  after those of the registered packages, in load order.
- The test at RepositoryBuilderTest.php:797-807 is named after `override`, but it passes an object
  as `resources`. The model follows what the test exercises.
- BuilderProperties.OwnTagsInOrder: requires that no other package declares the later of the two
  tags. A tag is made once, where it is first declared. If an earlier-emitted package also declares
  it, its place comes from that package.
- BuilderProperties.TagsInDeclarationOrder: states the order relative to the tag declarations
  taken in emission order. It does not state an order of its own for tags declared by packages
  without resources.
