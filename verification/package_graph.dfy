/**
  The package graph: named nodes kept in insertion order and directed edges
  kept in insertion order. Every operation that changes the graph keeps it
  valid; in particular an edge that would close a cycle is refused.
 */
module PackageGraph {
  import opened Wrappers
  import opened Seqs
  import opened Reachability
  import TopoSort

  datatype Graph = Graph(nodes: seq<Node>, edges: seq<Edge>)

  datatype GraphError =
    | DuplicatePackage(name: Node)
    | UnknownPackage(name: Node)
    | Cycle(from: Node, to: Node)

  const EmptyGraph := Graph([], [])

  /** Names are unique, edges are unique and join known nodes, and there is no cycle. */
  ghost predicate Valid(g: Graph)
  {
    && Distinct(g.nodes)
    && Distinct(g.edges)
    && (forall e :: e in g.edges ==> e.0 in g.nodes && e.1 in g.nodes)
    && Acyclic(g.edges)
  }

  lemma EmptyGraphValid()
    ensures Valid(EmptyGraph)
  {
    forall x
      ensures x !in Reach([], x)
    {
      ReachWithin([], x, {});
    }
  }

  predicate HasPackage(g: Graph, name: Node)
  {
    name in g.nodes
  }

  predicate HasEdge(g: Graph, from: Node, to: Node)
  {
    (from, to) in g.edges
  }

  /** A directed path of at least one edge leads from `from` to `to`. */
  predicate HasPath(g: Graph, from: Node, to: Node)
  {
    Reaches(g.edges, from, to)
  }

  /** Registers a new node; a name may be registered once. */
  function AddPackage(g: Graph, name: Node): (r: Result<Graph, GraphError>)
    ensures r.Err? <==> HasPackage(g, name)
    ensures r.Err? ==> r.error == DuplicatePackage(name)
    ensures r.Ok? ==> forall n :: HasPackage(r.value, n) <==> HasPackage(g, n) || n == name
    ensures r.Ok? ==> g.nodes <= r.value.nodes && r.value.edges == g.edges
    ensures r.Ok? && Valid(g) ==> Valid(r.value)
  {
    if name in g.nodes then Err(DuplicatePackage(name))
    else Ok(Graph(g.nodes + [name], g.edges))
  }

  /**
    Adds the edge from -> to. Both ends must be registered (the left one is
    checked first), and the edge may not close a cycle: it is refused when
    `to` already leads to `from`, and a self edge is refused likewise. An
    edge that is already present leaves the graph as it is.
   */
  function AddEdge(g: Graph, from: Node, to: Node): (r: Result<Graph, GraphError>)
    ensures !HasPackage(g, from) ==> r == Err(UnknownPackage(from))
    ensures HasPackage(g, from) && !HasPackage(g, to) ==> r == Err(UnknownPackage(to))
    ensures HasPackage(g, from) && HasPackage(g, to) ==>
              (r.Err? <==> from == to || HasPath(g, to, from))
    ensures HasPackage(g, from) && HasPackage(g, to) && r.Err? ==> r.error == Cycle(from, to)
    ensures r.Ok? ==> r.value.nodes == g.nodes && g.edges <= r.value.edges
    ensures r.Ok? ==> forall x, y :: HasEdge(r.value, x, y) <==> HasEdge(g, x, y) || (x == from && y == to)
    ensures r.Ok? && Valid(g) ==> Valid(r.value)
  {
    if from !in g.nodes then Err(UnknownPackage(from))
    else if to !in g.nodes then Err(UnknownPackage(to))
    else if from == to || HasPath(g, to, from) then Err(Cycle(from, to))
    else if (from, to) in g.edges then Ok(g)
    else
      var g' := Graph(g.nodes, g.edges + [(from, to)]);
      AddEdgeValid(g, from, to);
      Ok(g')
  }

  lemma AddEdgeValid(g: Graph, from: Node, to: Node)
    requires from in g.nodes && to in g.nodes && from != to
    requires !HasPath(g, to, from) && (from, to) !in g.edges
    ensures Valid(g) ==> Valid(Graph(g.nodes, g.edges + [(from, to)]))
  {
    if Valid(g) {
      AddEdgeKeepsAcyclic(g.edges, from, to);
    }
  }

  lemma HasPathIffWalk(g: Graph, from: Node, to: Node)
    ensures HasPath(g, from, to) <==> exists p :: WalkFromTo(g.edges, p, from, to)
  {
    ReachesIffWalk(g.edges, from, to);
  }

  /** Paths only join registered nodes, and there is none from a node to itself. */
  lemma HasPathNeedsPackages(g: Graph, from: Node, to: Node)
    requires Valid(g)
    ensures HasPath(g, from, to) ==> HasPackage(g, from) && HasPackage(g, to) && from != to
  {
    if HasPath(g, from, to) {
      ReachEndpoints(g.edges, from, to);
    }
  }

  lemma HasEdgeNeedsPackages(g: Graph, from: Node, to: Node)
    requires Valid(g)
    ensures HasEdge(g, from, to) ==> HasPackage(g, from) && HasPackage(g, to) && !HasEdge(g, to, from)
  {
    if HasEdge(g, from, to) && HasEdge(g, to, from) {
      EdgeReaches(g.edges, from, to);
      ReachExtend(g.edges, from, to, from);
    }
  }

  // ---------------------------------------------------------------------
  // getPath: depth-first, successors in edge-insertion order
  // ---------------------------------------------------------------------

  /** Targets of the edges out of `x`, in edge-insertion order. */
  function Successors(edges: seq<Edge>, x: Node): seq<Node>
  {
    if edges == [] then []
    else (if edges[0].0 == x then [edges[0].1] else []) + Successors(edges[1..], x)
  }

  lemma SuccessorsMembers(edges: seq<Edge>, x: Node)
    ensures forall s :: s in Successors(edges, x) <==> (x, s) in edges
  {
    if edges != [] {
      SuccessorsMembers(edges[1..], x);
    }
  }

  /** Exploring `s` finds `to`: it is `to` or leads to it. */
  predicate Leads(g: Graph, s: Node, to: Node)
  {
    s == to || HasPath(g, s, to)
  }

  function FirstLeading(g: Graph, ss: seq<Node>, to: Node): (k: nat)
    ensures k <= |ss|
    ensures k < |ss| ==> Leads(g, ss[k], to)
    ensures forall j :: 0 <= j < k ==> !Leads(g, ss[j], to)
  {
    if ss == [] then 0
    else if Leads(g, ss[0], to) then 0
    else 1 + FirstLeading(g, ss[1..], to)
  }

  /** `s` is the first successor of `x` from which a depth-first search reaches `to`. */
  ghost predicate ExploredFirst(g: Graph, x: Node, s: Node, to: Node)
  {
    && s in Successors(g.edges, x)
    && forall j :: 0 <= j < IndexOf(Successors(g.edges, x), s) ==> !Leads(g, Successors(g.edges, x)[j], to)
  }

  lemma SomeSuccessorLeads(g: Graph, x: Node, to: Node)
    requires HasPath(g, x, to)
    ensures exists j :: 0 <= j < |Successors(g.edges, x)| && Leads(g, Successors(g.edges, x)[j], to)
  {
    var ss := Successors(g.edges, x);
    SuccessorsMembers(g.edges, x);
    ReachFirstStep(g.edges, x, to);
    if (x, to) in g.edges {
      var j :| 0 <= j < |ss| && ss[j] == to;
    } else {
      var s :| (x, s) in g.edges && Reaches(g.edges, s, to);
      var j :| 0 <= j < |ss| && ss[j] == s;
    }
  }

  /** The path a depth-first search from `x` reports for `to`. */
  function PathFrom(g: Graph, x: Node, to: Node): (p: seq<Node>)
    requires Acyclic(g.edges) && HasPath(g, x, to)
    ensures WalkFromTo(g.edges, p, x, to)
    ensures forall i :: 0 <= i < |p| - 1 ==> ExploredFirst(g, p[i], p[i + 1], to)
    decreases Reach(g.edges, x)
  {
    var ss := Successors(g.edges, x);
    SuccessorsMembers(g.edges, x);
    SomeSuccessorLeads(g, x, to);
    var k := FirstLeading(g, ss, to);
    var s := ss[k];
    if s == to then
      [x, to]
    else
      ReachShrinks(g.edges, x, s);
      var rest := PathFrom(g, s, to);
      PrependStep(g, x, s, to, rest);
      [x] + rest
  }

  /** When the first successor of `x` is `to` itself, the search reports the edge. */
  lemma PathFromDirect(g: Graph, x: Node, to: Node)
    requires Acyclic(g.edges) && HasPath(g, x, to)
    requires |Successors(g.edges, x)| > 0 && Successors(g.edges, x)[0] == to
    ensures PathFrom(g, x, to) == [x, to]
  {
    assert FirstLeading(g, Successors(g.edges, x), to) == 0;
  }

  /** When the first successor `s` of `x` leads to `to`, the search goes through `s`. */
  lemma PathFromVia(g: Graph, x: Node, s: Node, to: Node)
    requires Acyclic(g.edges) && HasPath(g, x, to)
    requires |Successors(g.edges, x)| > 0 && Successors(g.edges, x)[0] == s
    requires s != to && HasPath(g, s, to)
    ensures PathFrom(g, x, to) == [x] + PathFrom(g, s, to)
  {
    assert FirstLeading(g, Successors(g.edges, x), to) == 0;
  }

  lemma PrependStep(g: Graph, x: Node, s: Node, to: Node, rest: seq<Node>)
    requires (x, s) in g.edges && ExploredFirst(g, x, s, to)
    requires WalkFromTo(g.edges, rest, s, to)
    requires forall i :: 0 <= i < |rest| - 1 ==> ExploredFirst(g, rest[i], rest[i + 1], to)
    ensures WalkFromTo(g.edges, [x] + rest, x, to)
    ensures forall i :: 0 <= i < |[x] + rest| - 1 ==> ExploredFirst(g, ([x] + rest)[i], ([x] + rest)[i + 1], to)
  {
    var p := [x] + rest;
    forall i | 0 <= i < |p| - 1
      ensures (p[i], p[i + 1]) in g.edges && ExploredFirst(g, p[i], p[i + 1], to)
    {
      if i > 0 {
        assert p[i] == rest[i - 1] && p[i + 1] == rest[i];
      }
    }
  }

  /**
    The path from `from` to `to` found by depth-first search, or None when
    there is none (reversed direction, unreachable, isolated or unknown nodes).
   */
  function GetPath(g: Graph, from: Node, to: Node): (r: Option<seq<Node>>)
    requires Valid(g)
    ensures r.Some? <==> HasPath(g, from, to)
    ensures r.Some? ==> WalkFromTo(g.edges, r.value, from, to)
    ensures r.Some? ==> forall i :: 0 <= i < |r.value| - 1 ==> ExploredFirst(g, r.value[i], r.value[i + 1], to)
  {
    if HasPath(g, from, to) then Some(PathFrom(g, from, to)) else None
  }

  // ---------------------------------------------------------------------
  // getSortedPackages
  // ---------------------------------------------------------------------

  /** The first name of `names` that is not registered. */
  function FirstUnknown(g: Graph, names: seq<Node>): (r: Option<Node>)
    ensures r.None? <==> forall n :: n in names ==> HasPackage(g, n)
    ensures r.Some? ==> r.value in names && !HasPackage(g, r.value)
  {
    if names == [] then None
    else if !HasPackage(g, names[0]) then Some(names[0])
    else FirstUnknown(g, names[1..])
  }

  /** The nodes of `nodes` that are in `keep`, in their original order. */
  function Select(nodes: seq<Node>, keep: seq<Node>): seq<Node>
  {
    if nodes == [] then []
    else
      var rest := Select(nodes[1..], keep);
      if nodes[0] in keep then [nodes[0]] + rest else rest
  }

  lemma SelectMembers(nodes: seq<Node>, keep: seq<Node>)
    ensures forall x :: x in Select(nodes, keep) <==> x in nodes && x in keep
    ensures Distinct(nodes) ==> Distinct(Select(nodes, keep))
  {
    if nodes != [] {
      SelectMembers(nodes[1..], keep);
    }
  }

  /** The edges whose two ends are both in `cands`, in insertion order. */
  function InducedEdges(edges: seq<Edge>, cands: seq<Node>): seq<Edge>
  {
    if edges == [] then []
    else
      var rest := InducedEdges(edges[1..], cands);
      if edges[0].0 in cands && edges[0].1 in cands then [edges[0]] + rest else rest
  }

  lemma InducedMembers(edges: seq<Edge>, cands: seq<Node>)
    ensures forall e :: e in InducedEdges(edges, cands) <==> e in edges && e.0 in cands && e.1 in cands
  {
    if edges != [] {
      InducedMembers(edges[1..], cands);
    }
  }

  /**
    All nodes, or those named in `subset`, in the deterministic topological
    order. With a subset, only direct edges between its members are honoured.
   */
  function GetSortedPackages(g: Graph, subset: Option<seq<Node>>): (r: Result<seq<Node>, GraphError>)
    requires Valid(g)
    ensures subset.None? ==> r.Ok?
    ensures subset.Some? ==> (r.Err? <==> exists n :: n in subset.value && !HasPackage(g, n))
    ensures r.Err? ==> r.error.UnknownPackage? && r.error.name in subset.value && !HasPackage(g, r.error.name)
    ensures r.Ok? ==> Distinct(r.value)
    ensures r.Ok? ==> forall x :: x in r.value <==> HasPackage(g, x) && (subset.None? || x in subset.value)
    ensures r.Ok? ==> forall i, j :: 0 <= i < |r.value| && 0 <= j < |r.value| && HasEdge(g, r.value[i], r.value[j]) ==> i < j
  {
    match subset
    case None => Ok(TopoSort.TopoOrder(g.edges, g.nodes))
    case Some(names) =>
      var unknown := FirstUnknown(g, names);
      if unknown.Some? then Err(UnknownPackage(unknown.value))
      else Ok(SortSubset(g, names))
  }

  /** The registered nodes named in `names`, ordered by the edges between them only. */
  function SortSubset(g: Graph, names: seq<Node>): (r: seq<Node>)
    requires Valid(g)
    ensures Distinct(r)
    ensures forall x :: x in r <==> HasPackage(g, x) && x in names
    ensures forall i, j :: 0 <= i < |r| && 0 <= j < |r| && HasEdge(g, r[i], r[j]) ==> i < j
  {
    var cands := Select(g.nodes, names);
    var sub := InducedEdges(g.edges, cands);
    SelectMembers(g.nodes, names);
    InducedMembers(g.edges, cands);
    AcyclicSubgraph(sub, g.edges);
    var order := TopoSort.TopoOrder(sub, cands);
    assert forall i, j :: 0 <= i < |order| && 0 <= j < |order| && HasEdge(g, order[i], order[j]) ==> (order[i], order[j]) in sub;
    order
  }

  /** For every edge, the order, full or of a subset, places its source before its target. */
  lemma SortedEdgeBefore(g: Graph, subset: Option<seq<Node>>, a: Node, b: Node)
    requires Valid(g) && GetSortedPackages(g, subset).Ok? && HasEdge(g, a, b)
    ensures Before(GetSortedPackages(g, subset).value, a, b)
  {
  }

  /** The full order also respects indirect paths. */
  lemma SortedFollowsPaths(g: Graph, i: int, j: int)
    requires Valid(g)
    requires 0 <= i < |GetSortedPackages(g, None).value| && 0 <= j < |GetSortedPackages(g, None).value|
    requires HasPath(g, GetSortedPackages(g, None).value[i], GetSortedPackages(g, None).value[j])
    ensures i < j
  {
    TopoSort.TopoOrderFollowsPaths(g.edges, g.nodes, i, j);
  }

  /**
    Ties are broken by insertion order: a node that neither is nor precedes
    any of the first k+1 registered nodes is placed after the k-th.
   */
  lemma SortedTieBreak(g: Graph, k: int, y: Node)
    requires Valid(g)
    requires 0 <= k < |g.nodes| && !TopoSort.NeededBy(g.edges, y, g.nodes[..k + 1])
    ensures Before(GetSortedPackages(g, None).value, g.nodes[k], y)
  {
    TopoSort.TopoOrderTieBreak(g.edges, g.nodes, k, y);
  }

  /**
    With a subset, ties are broken by insertion order too, and only the edges
    between members of the subset count as precedences.
   */
  lemma SubsetTieBreak(g: Graph, names: seq<Node>, k: int, y: Node)
    requires Valid(g)
    requires forall n :: n in names ==> HasPackage(g, n)
    requires 0 <= k < |Select(g.nodes, names)|
    requires !TopoSort.NeededBy(InducedEdges(g.edges, Select(g.nodes, names)), y, Select(g.nodes, names)[..k + 1])
    ensures Before(GetSortedPackages(g, Some(names)).value, Select(g.nodes, names)[k], y)
  {
    var cands := Select(g.nodes, names);
    SelectMembers(g.nodes, names);
    InducedMembers(g.edges, cands);
    AcyclicSubgraph(InducedEdges(g.edges, cands), g.edges);
    TopoSort.TopoOrderTieBreak(InducedEdges(g.edges, cands), cands, k, y);
  }
}
