/**
  The override graph the repository builder derives from the loaded
  packages. Only packages declaring at least one resource become nodes, in
  load order. A package's "override" names give hard edges from each named,
  registered package to it (unregistered names are ignored); a cycle among
  them fails the build. The root package's "override-order" list gives soft
  edges between consecutive registered names, skipped when they would close
  a cycle.
 */
module OverrideGraph {
  import opened Wrappers
  import opened Seqs
  import opened Reachability
  import opened PackageGraph
  import opened Loader

  /** The packages that declare resources, in load order. */
  function Registered(ps: seq<LoadedPackage>): seq<LoadedPackage>
  {
    if ps == [] then []
    else (if |ps[0].resources| > 0 then [ps[0]] else []) + Registered(ps[1..])
  }

  lemma RegisteredMembers(ps: seq<LoadedPackage>)
    ensures forall p :: p in Registered(ps) <==> p in ps && |p.resources| > 0
  {
    if ps != [] {
      RegisteredMembers(ps[1..]);
    }
  }

  function Names(ps: seq<LoadedPackage>): (r: seq<Node>)
    ensures |r| == |ps| && forall i :: 0 <= i < |ps| ==> r[i] == ps[i].name
  {
    seq(|ps|, i requires 0 <= i < |ps| => ps[i].name)
  }

  /** `to` is a package of `ps` whose override list names `from`. */
  ghost predicate Overrides(ps: seq<LoadedPackage>, from: Node, to: Node)
  {
    exists p :: p in ps && p.name == to && from in p.overrides
  }

  /** `y` directly follows `x` in `names`. */
  ghost predicate Consecutive(names: seq<Node>, x: Node, y: Node)
  {
    exists i :: 0 <= i < |names| - 1 && names[i] == x && names[i + 1] == y
  }

  /** Some package (in practice the root) lists `y` right after `x` in its override order. */
  ghost predicate OrderedByRoot(ps: seq<LoadedPackage>, x: Node, y: Node)
  {
    exists p :: p in ps && Consecutive(p.overrideOrder, x, y)
  }

  // ---------------------------------------------------------------------
  // Nodes
  // ---------------------------------------------------------------------

  /** Registers `names` in order; a name registered twice fails. */
  function AddNodes(g: Graph, names: seq<Node>): (r: Result<Graph, GraphError>)
    requires Valid(g)
    ensures r.Ok? <==> Distinct(g.nodes + names)
    ensures r.Ok? ==> Valid(r.value) && r.value == Graph(g.nodes + names, g.edges)
    ensures r.Err? ==> r.error.DuplicatePackage? && r.error.name in names
    decreases |names|
  {
    if names == [] then
      assert g.nodes + names == g.nodes;
      Ok(g)
    else
      assert (g.nodes + names)[|g.nodes|] == names[0];
      match AddPackage(g, names[0])
      case Err(e) =>
        var k :| 0 <= k < |g.nodes| && g.nodes[k] == names[0];
        assert (g.nodes + names)[k] == names[0];
        Err(e)
      case Ok(g1) =>
        assert g1.nodes + names[1..] == g.nodes + names;
        AddNodes(g1, names[1..])
  }

  // ---------------------------------------------------------------------
  // Hard edges: overrides
  // ---------------------------------------------------------------------

  /** Adds an edge from each registered name of `os` to `to`. */
  function AddOverridesOf(g: Graph, to: Node, os: seq<Node>): (r: Result<Graph, GraphError>)
    requires Valid(g) && HasPackage(g, to)
    ensures r.Ok? ==> Valid(r.value) && r.value.nodes == g.nodes && g.edges <= r.value.edges
    ensures r.Ok? ==> forall x, y :: HasEdge(r.value, x, y) <==> HasEdge(g, x, y) || (y == to && x in os && HasPackage(g, x))
    ensures r.Err? ==> r.error.Cycle? && r.error.to == to && r.error.from in os && HasPackage(g, r.error.from)
    decreases |os|
  {
    if os == [] then Ok(g)
    else if !HasPackage(g, os[0]) then AddOverridesOf(g, to, os[1..])
    else
      match AddEdge(g, os[0], to)
      case Err(e) => Err(e)
      case Ok(g1) => AddOverridesOf(g1, to, os[1..])
  }

  /** Adds the override edges of every package of `ps`, in order. */
  function AddOverrides(g: Graph, ps: seq<LoadedPackage>): (r: Result<Graph, GraphError>)
    requires Valid(g) && forall p :: p in ps ==> HasPackage(g, p.name)
    ensures r.Ok? ==> Valid(r.value) && r.value.nodes == g.nodes && g.edges <= r.value.edges
    ensures r.Ok? ==> forall x, y :: HasEdge(r.value, x, y) <==> HasEdge(g, x, y) || (Overrides(ps, x, y) && HasPackage(g, x))
    ensures r.Err? ==> r.error.Cycle? && Overrides(ps, r.error.from, r.error.to) && HasPackage(g, r.error.from)
    decreases |ps|
  {
    if ps == [] then Ok(g)
    else
      match AddOverridesOf(g, ps[0].name, ps[0].overrides)
      case Err(e) => Err(e)
      case Ok(g1) =>
        assert g1.nodes == g.nodes;
        assert forall p :: p in ps[1..] ==> HasPackage(g1, p.name) by {
          forall p | p in ps[1..]
            ensures HasPackage(g1, p.name)
          {
            var k :| 0 <= k < |ps| - 1 && ps[1..][k] == p;
            assert ps[k + 1] in ps && ps[k + 1] == p;
            assert HasPackage(g, p.name);
          }
        }
        var r := AddOverrides(g1, ps[1..]);
        assert forall x, y :: Overrides(ps, x, y) <==> (y == ps[0].name && x in ps[0].overrides) || Overrides(ps[1..], x, y);
        r
  }

  // ---------------------------------------------------------------------
  // Soft edges: the root's override order
  // ---------------------------------------------------------------------

  /** Adds a -> b when both are registered and the edge closes no cycle; otherwise nothing changes. */
  function Link(g: Graph, a: Node, b: Node): (r: Graph)
    requires Valid(g)
    ensures Valid(r) && r.nodes == g.nodes && g.edges <= r.edges
    ensures forall x, y :: HasEdge(r, x, y) <==>
              HasEdge(g, x, y) || (x == a && y == b && HasPackage(g, a) && HasPackage(g, b) && a != b && !HasPath(g, b, a))
  {
    if HasPackage(g, a) && HasPackage(g, b) then
      match AddEdge(g, a, b)
      case Ok(g1) => g1
      case Err(_) => g
    else g
  }

  /** Links every name of `names` to the next. */
  function AddOrderChain(g: Graph, names: seq<Node>): (r: Graph)
    requires Valid(g)
    ensures Valid(r) && r.nodes == g.nodes && g.edges <= r.edges
    ensures forall x, y :: HasEdge(r, x, y) ==> HasEdge(g, x, y) || Consecutive(names, x, y)
    decreases |names|
  {
    if |names| < 2 then g
    else
      var r := AddOrderChain(Link(g, names[0], names[1]), names[1..]);
      assert forall x, y :: Consecutive(names[1..], x, y) ==> Consecutive(names, x, y) by {
        forall x, y | Consecutive(names[1..], x, y)
          ensures Consecutive(names, x, y)
        {
          var i :| 0 <= i < |names[1..]| - 1 && names[1..][i] == x && names[1..][i + 1] == y;
          assert names[i + 1] == x && names[i + 2] == y;
        }
      }
      r
  }

  /** The override-order chains of all packages, in load order. */
  function AddOrderChains(g: Graph, ps: seq<LoadedPackage>): (r: Graph)
    requires Valid(g)
    ensures Valid(r) && r.nodes == g.nodes && g.edges <= r.edges
    ensures forall x, y :: HasEdge(r, x, y) ==> HasEdge(g, x, y) || OrderedByRoot(ps, x, y)
    decreases |ps|
  {
    if ps == [] then g
    else
      var r := AddOrderChains(AddOrderChain(g, ps[0].overrideOrder), ps[1..]);
      assert forall x, y :: OrderedByRoot(ps[1..], x, y) ==> OrderedByRoot(ps, x, y) by {
        forall x, y | OrderedByRoot(ps[1..], x, y)
          ensures OrderedByRoot(ps, x, y)
        {
          var p :| p in ps[1..] && Consecutive(p.overrideOrder, x, y);
          assert p in ps;
        }
      }
      r
  }

  /** The registered packages as nodes, without edges; a name registered twice fails. */
  function RegisteredNodes(ps: seq<LoadedPackage>): (r: Result<Graph, GraphError>)
    ensures r.Ok? <==> Distinct(Names(Registered(ps)))
    ensures r.Ok? ==> Valid(r.value) && r.value == Graph(Names(Registered(ps)), [])
    ensures r.Err? ==> r.error.DuplicatePackage?
  {
    EmptyGraphValid();
    assert EmptyGraph.nodes + Names(Registered(ps)) == Names(Registered(ps));
    AddNodes(EmptyGraph, Names(Registered(ps)))
  }

  lemma NamedNodes(g: Graph, ps: seq<LoadedPackage>)
    requires g.nodes == Names(ps)
    ensures forall p :: p in ps ==> HasPackage(g, p.name)
  {
    forall p | p in ps
      ensures p.name in g.nodes
    {
      var i :| 0 <= i < |ps| && ps[i] == p;
      assert Names(ps)[i] == p.name;
    }
  }

  /**
    The registered packages as nodes with their override edges. Registering
    a name twice and an override cycle fail.
   */
  function OverrideEdges(ps: seq<LoadedPackage>): (r: Result<Graph, GraphError>)
    ensures r.Ok? ==> Valid(r.value) && r.value.nodes == Names(Registered(ps))
    ensures r.Ok? ==> forall x, y :: HasEdge(r.value, x, y) <==> Overrides(Registered(ps), x, y) && HasPackage(r.value, x)
    ensures r.Err? && r.error.Cycle? ==> Overrides(Registered(ps), r.error.from, r.error.to)
    ensures r.Err? && r.error.DuplicatePackage? ==> !Distinct(Names(Registered(ps)))
    ensures r.Err? ==> r.error.Cycle? || r.error.DuplicatePackage?
  {
    match RegisteredNodes(ps)
    case Err(e) => Err(e)
    case Ok(g1) =>
      NamedNodes(g1, Registered(ps));
      AddOverrides(g1, Registered(ps))
  }

  /** The order chains keep the override edges and add only ordered pairs. */
  lemma ChainEdges(g: Graph, ps: seq<LoadedPackage>, regs: seq<LoadedPackage>)
    requires Valid(g)
    requires forall x, y :: HasEdge(g, x, y) <==> Overrides(regs, x, y) && HasPackage(g, x)
    ensures forall x, y :: Overrides(regs, x, y) && HasPackage(g, x) ==> HasEdge(AddOrderChains(g, ps), x, y)
    ensures forall x, y :: HasEdge(AddOrderChains(g, ps), x, y) ==> Overrides(regs, x, y) || OrderedByRoot(ps, x, y)
  {
    var r := AddOrderChains(g, ps);
    forall x, y | Overrides(regs, x, y) && HasPackage(g, x)
      ensures HasEdge(r, x, y)
    {
      assert (x, y) in g.edges;
    }
  }

  /**
    The override graph of the loaded packages: the override edges, then the
    root's override order.
   */
  function BuildGraph(ps: seq<LoadedPackage>): (r: Result<Graph, BuildError>)
    ensures r.Ok? ==> Valid(r.value) && r.value.nodes == Names(Registered(ps))
    ensures r.Ok? ==> forall x, y :: Overrides(Registered(ps), x, y) && HasPackage(r.value, x) ==> HasEdge(r.value, x, y)
    ensures r.Ok? ==> forall x, y :: HasEdge(r.value, x, y) ==> Overrides(Registered(ps), x, y) || OrderedByRoot(ps, x, y)
    ensures r.Err? ==> r.error.GraphFailure?
    ensures r.Err? && r.error.cause.Cycle? ==> Overrides(Registered(ps), r.error.cause.from, r.error.cause.to)
    ensures r.Err? && r.error.cause.DuplicatePackage? ==> !Distinct(Names(Registered(ps)))
  {
    match OverrideEdges(ps)
    case Err(e) => Err(GraphFailure(e))
    case Ok(g) =>
      ChainEdges(g, ps, Registered(ps));
      Ok(AddOrderChains(g, ps))
  }
}
