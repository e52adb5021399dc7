/**
  Properties of the override graph: names of packages that were never
  registered do not matter, the root's override order relates every pair of
  consecutive registered packages, and without any override the packages are
  emitted in load order.
 */
module OverrideProperties {
  import opened Wrappers
  import opened Seqs
  import opened Reachability
  import opened PackageGraph
  import TopoSort
  import opened Loader
  import opened OverrideGraph
  import opened RepositoryBuilder

  // ---------------------------------------------------------------------
  // Overrides of unknown packages
  // ---------------------------------------------------------------------

  /** The names of `os` that are in `known`, in order. */
  function KeepKnown(os: seq<Node>, known: seq<Node>): (r: seq<Node>)
    ensures forall x :: x in r <==> x in os && x in known
    decreases |os|
  {
    if os == [] then []
    else
      assert forall x :: x in os <==> x == os[0] || x in os[1..];
      (if os[0] in known then [os[0]] else []) + KeepKnown(os[1..], known)
  }

  /** Every package with the override names outside `known` removed. */
  function DropUnknownOverrides(ps: seq<LoadedPackage>, known: seq<Node>): (r: seq<LoadedPackage>)
    ensures |r| == |ps|
    ensures forall i :: 0 <= i < |ps| ==> r[i] == ps[i].(overrides := KeepKnown(ps[i].overrides, known))
  {
    seq(|ps|, i requires 0 <= i < |ps| => ps[i].(overrides := KeepKnown(ps[i].overrides, known)))
  }

  lemma DropAppend(a: seq<LoadedPackage>, b: seq<LoadedPackage>, known: seq<Node>)
    ensures DropUnknownOverrides(a + b, known) == DropUnknownOverrides(a, known) + DropUnknownOverrides(b, known)
  {
  }

  lemma {:induction false} RegisteredDrop(ps: seq<LoadedPackage>, known: seq<Node>)
    ensures Registered(DropUnknownOverrides(ps, known)) == DropUnknownOverrides(Registered(ps), known)
    decreases |ps|
  {
    if ps != [] {
      var d := DropUnknownOverrides(ps, known);
      var tail := ps[1..];
      assert d[1..] == DropUnknownOverrides(tail, known);
      RegisteredDrop(tail, known);
      assert d[0].resources == ps[0].resources;
      if |ps[0].resources| > 0 {
        assert Registered(ps) == [ps[0]] + Registered(tail);
        assert Registered(d) == [d[0]] + Registered(d[1..]);
        DropAppend([ps[0]], Registered(tail), known);
        assert DropUnknownOverrides([ps[0]], known) == [d[0]];
      } else {
        assert Registered(ps) == Registered(tail);
        assert Registered(d) == Registered(d[1..]);
      }
    }
  }

  lemma NamesDrop(ps: seq<LoadedPackage>, known: seq<Node>)
    ensures Names(DropUnknownOverrides(ps, known)) == Names(ps)
  {
  }

  lemma {:induction false} OverridesOfKnown(g: Graph, to: Node, os: seq<Node>)
    requires Valid(g) && HasPackage(g, to)
    ensures AddOverridesOf(g, to, os) == AddOverridesOf(g, to, KeepKnown(os, g.nodes))
    decreases |os|
  {
    if os != [] {
      var tail := os[1..];
      var kept := KeepKnown(os, g.nodes);
      if !HasPackage(g, os[0]) {
        assert kept == KeepKnown(tail, g.nodes);
        OverridesOfKnown(g, to, tail);
      } else {
        assert kept == [os[0]] + KeepKnown(tail, g.nodes);
        assert kept[0] == os[0] && kept[1..] == KeepKnown(tail, g.nodes);
        match AddEdge(g, os[0], to)
        case Err(_) =>
        case Ok(g1) =>
          assert g1.nodes == g.nodes;
          OverridesOfKnown(g1, to, tail);
      }
    }
  }

  lemma {:induction false} OverridesKnown(g: Graph, ps: seq<LoadedPackage>)
    requires Valid(g) && forall p :: p in ps ==> HasPackage(g, p.name)
    ensures forall p :: p in DropUnknownOverrides(ps, g.nodes) ==> HasPackage(g, p.name)
    ensures AddOverrides(g, ps) == AddOverrides(g, DropUnknownOverrides(ps, g.nodes))
    decreases |ps|
  {
    var d := DropUnknownOverrides(ps, g.nodes);
    forall p | p in d
      ensures HasPackage(g, p.name)
    {
      var i :| 0 <= i < |d| && d[i] == p;
      assert ps[i] in ps;
    }
    if ps != [] {
      OverridesOfKnown(g, ps[0].name, ps[0].overrides);
      assert d[1..] == DropUnknownOverrides(ps[1..], g.nodes);
      match AddOverridesOf(g, ps[0].name, ps[0].overrides)
      case Err(_) =>
      case Ok(g1) =>
        assert g1.nodes == g.nodes;
        forall p | p in ps[1..]
          ensures HasPackage(g1, p.name)
        {
          assert p in ps;
        }
        OverridesKnown(g1, ps[1..]);
    }
  }

  /** The override-order chains depend on nothing but the packages' override orders. */
  lemma {:induction false} OrderChainsOnlyOrder(g: Graph, ps: seq<LoadedPackage>, qs: seq<LoadedPackage>)
    requires Valid(g) && |ps| == |qs|
    requires forall i :: 0 <= i < |ps| ==> ps[i].overrideOrder == qs[i].overrideOrder
    ensures AddOrderChains(g, ps) == AddOrderChains(g, qs)
    decreases |ps|
  {
    if ps != [] {
      OrderChainsOnlyOrder(AddOrderChain(g, ps[0].overrideOrder), ps[1..], qs[1..]);
    }
  }

  lemma OverrideEdgesIgnoreUnknown(ps: seq<LoadedPackage>)
    ensures OverrideEdges(ps) == OverrideEdges(DropUnknownOverrides(ps, Names(Registered(ps))))
  {
    var regs := Registered(ps);
    var known := Names(regs);
    var ps' := DropUnknownOverrides(ps, known);
    RegisteredDrop(ps, known);
    NamesDrop(regs, known);
    assert RegisteredNodes(ps) == RegisteredNodes(ps');
    match RegisteredNodes(ps)
    case Err(_) =>
    case Ok(g1) =>
      NamedNodes(g1, regs);
      OverridesKnown(g1, regs);
  }

  /**
    Override names that no registered package carries are ignored: the graph
    is the same as if every package named registered packages only.
   */
  lemma UnknownOverridesIgnored(ps: seq<LoadedPackage>)
    ensures BuildGraph(ps) == BuildGraph(DropUnknownOverrides(ps, Names(Registered(ps))))
  {
    var ps' := DropUnknownOverrides(ps, Names(Registered(ps)));
    OverrideEdgesIgnoreUnknown(ps);
    match OverrideEdges(ps)
    case Err(_) =>
    case Ok(g) =>
      OrderChainsOnlyOrder(g, ps, ps');
  }

  // ---------------------------------------------------------------------
  // The root's override order
  // ---------------------------------------------------------------------

  /** Edges and paths survive when edges are added. */
  lemma Grows(g: Graph, h: Graph, a: Node, b: Node)
    requires g.edges <= h.edges
    ensures HasEdge(g, a, b) ==> HasEdge(h, a, b)
    ensures HasPath(g, a, b) ==> HasPath(h, a, b)
  {
    ReachMonotone(g.edges, h.edges, a);
  }

  /** Two consecutive names of one chain end up ordered one way or the other. */
  lemma {:induction false} ChainRelates(g: Graph, names: seq<Node>, i: int)
    requires Valid(g) && 0 <= i < |names| - 1
    requires HasPackage(g, names[i]) && HasPackage(g, names[i + 1]) && names[i] != names[i + 1]
    ensures HasEdge(AddOrderChain(g, names), names[i], names[i + 1]) || HasPath(AddOrderChain(g, names), names[i + 1], names[i])
    decreases |names|
  {
    var g' := Link(g, names[0], names[1]);
    var tail := names[1..];
    var r := AddOrderChain(g, names);
    assert r == AddOrderChain(g', tail);
    if i == 0 {
      Grows(g, g', names[1], names[0]);
      Grows(g', r, names[0], names[1]);
      Grows(g', r, names[1], names[0]);
    } else {
      assert tail[i - 1] == names[i] && tail[i] == names[i + 1];
      ChainRelates(g', tail, i - 1);
    }
  }

  lemma {:induction false} ChainsRelate(g: Graph, ps: seq<LoadedPackage>, p: LoadedPackage, i: int)
    requires Valid(g) && p in ps && 0 <= i < |p.overrideOrder| - 1
    requires HasPackage(g, p.overrideOrder[i]) && HasPackage(g, p.overrideOrder[i + 1])
    requires p.overrideOrder[i] != p.overrideOrder[i + 1]
    ensures HasEdge(AddOrderChains(g, ps), p.overrideOrder[i], p.overrideOrder[i + 1])
         || HasPath(AddOrderChains(g, ps), p.overrideOrder[i + 1], p.overrideOrder[i])
    decreases |ps|
  {
    var a, b := p.overrideOrder[i], p.overrideOrder[i + 1];
    var g' := AddOrderChain(g, ps[0].overrideOrder);
    var r := AddOrderChains(g, ps);
    assert r == AddOrderChains(g', ps[1..]);
    if ps[0] == p {
      ChainRelates(g, p.overrideOrder, i);
      Grows(g', r, a, b);
      Grows(g', r, b, a);
    } else {
      assert p in ps[1..];
      ChainsRelate(g', ps[1..], p, i);
    }
  }

  lemma BuildGraphIsChains(ps: seq<LoadedPackage>)
    requires BuildGraph(ps).Ok?
    ensures OverrideEdges(ps).Ok? && BuildGraph(ps).value == AddOrderChains(OverrideEdges(ps).value, ps)
  {
  }

  /**
    For two distinct registered packages that follow each other in an
    override order, the graph holds the edge from the first to the second,
    unless the graph already leads from the second to the first; either way
    the two are ordered and cannot conflict.
   */
  lemma OverrideOrderRelates(ps: seq<LoadedPackage>, p: LoadedPackage, i: int)
    requires BuildGraph(ps).Ok? && p in ps && 0 <= i < |p.overrideOrder| - 1
    requires HasPackage(BuildGraph(ps).value, p.overrideOrder[i]) && HasPackage(BuildGraph(ps).value, p.overrideOrder[i + 1])
    requires p.overrideOrder[i] != p.overrideOrder[i + 1]
    ensures HasEdge(BuildGraph(ps).value, p.overrideOrder[i], p.overrideOrder[i + 1])
         || HasPath(BuildGraph(ps).value, p.overrideOrder[i + 1], p.overrideOrder[i])
  {
    BuildGraphIsChains(ps);
    var g := OverrideEdges(ps).value;
    assert g.nodes == BuildGraph(ps).value.nodes;
    ChainsRelate(g, ps, p, i);
  }

  // ---------------------------------------------------------------------
  // Load order
  // ---------------------------------------------------------------------

  /** Without overrides and override orders, the graph has no edge. */
  lemma NoOverridesNoEdges(ps: seq<LoadedPackage>)
    requires BuildGraph(ps).Ok?
    requires forall p :: p in ps ==> p.overrides == [] && p.overrideOrder == []
    ensures BuildGraph(ps).value.edges == []
  {
    var g := BuildGraph(ps).value;
    RegisteredMembers(ps);
    if g.edges != [] {
      var e := g.edges[0];
      assert HasEdge(g, e.0, e.1);
      assert false;
    }
  }

  lemma NotNeededWithoutEdges(g: Graph, i: int)
    requires Valid(g) && g.edges == [] && 0 <= i < |g.nodes| - 1
    ensures !TopoSort.NeededBy(g.edges, g.nodes[i + 1], g.nodes[..i + 1])
  {
    var y := g.nodes[i + 1];
    if TopoSort.NeededBy(g.edges, y, g.nodes[..i + 1]) {
      var c :| c in g.nodes[..i + 1] && (y == c || Reaches(g.edges, y, c));
      if Reaches(g.edges, y, c) {
        ReachEndpoints(g.edges, y, c);
      }
      assert false;
    }
  }

  /** A graph without edges is sorted in insertion order. */
  lemma NoEdgesInsertionOrder(g: Graph)
    requires Valid(g) && g.edges == []
    ensures EmissionOrder(g) == g.nodes
  {
    var order := EmissionOrder(g);
    forall i | 0 <= i < |g.nodes| - 1
      ensures Before(order, g.nodes[i], g.nodes[i + 1])
    {
      NotNeededWithoutEdges(g, i);
      SortedTieBreak(g, i, g.nodes[i + 1]);
    }
    ChainDetermines(order, g.nodes);
  }

  /**
    Packages that neither override nor order anything are emitted in the
    order they were loaded.
   */
  lemma NoOverridesLoadOrder(ps: seq<LoadedPackage>)
    requires BuildGraph(ps).Ok?
    requires forall p :: p in ps ==> p.overrides == [] && p.overrideOrder == []
    ensures EmissionOrder(BuildGraph(ps).value) == Names(Registered(ps))
  {
    NoOverridesNoEdges(ps);
    NoEdgesInsertionOrder(BuildGraph(ps).value);
  }
}
