/**
  The fixture graph of the package graph tests and the outcomes they expect:

      (p1) -> (p2)  ->  (p3)
             ^    \     ^
         (p5)      (p4)

             (p6)
 */
module GraphFixture {
  import opened Wrappers
  import opened Seqs
  import opened Reachability
  import opened PackageGraph
  import opened TopoSort

  const Nodes: seq<Node> := ["p1", "p2", "p3", "p4", "p5", "p6"]
  const Edges: seq<Edge> := [("p1", "p2"), ("p2", "p3"), ("p2", "p4"), ("p5", "p2"), ("p4", "p3")]
  const Fixture := Graph(Nodes, Edges)

  /** A rank that grows along every fixture edge. */
  function Rank(n: Node): int
  {
    if n == "p2" then 1 else if n == "p4" then 2 else if n == "p3" then 3 else 0
  }

  /** One call of the test set-up. */
  datatype Call = Package(name: Node) | EdgeCall(from: Node, to: Node)

  /** Performs the calls in order; the first failure is the outcome. */
  function Run(g: Graph, calls: seq<Call>): Result<Graph, GraphError>
    decreases |calls|
  {
    if calls == [] then Ok(g)
    else
      var step := match calls[0]
        case Package(n) => AddPackage(g, n)
        case EdgeCall(a, b) => AddEdge(g, a, b);
      match step
      case Err(e) => Err(e)
      case Ok(g') => Run(g', calls[1..])
  }

  /** The calls of the tests' graph set-up. */
  const SetUp: seq<Call> := [
    Package("p1"), Package("p2"), Package("p3"), Package("p4"), Package("p5"), Package("p6"),
    EdgeCall("p1", "p2"), EdgeCall("p2", "p3"), EdgeCall("p2", "p4"), EdgeCall("p5", "p2"), EdgeCall("p4", "p3")]

  lemma NoPathAgainstRank(edges: seq<Edge>, a: Node, b: Node)
    requires forall e :: e in edges ==> Rank(e.0) < Rank(e.1)
    requires Rank(b) <= Rank(a)
    ensures !Reaches(edges, a, b)
  {
    RankGrows(edges, Rank, a);
  }

  /** Every fixture edge climbs in rank. */
  lemma EdgesRanked()
    ensures forall e :: e in Edges ==> Rank(e.0) < Rank(e.1)
  {
    forall e | e in Edges
      ensures Rank(e.0) < Rank(e.1)
    {
      var k :| 0 <= k < |Edges| && Edges[k] == e;
      assert k == 0 || k == 1 || k == 2 || k == 3 || k == 4;
    }
  }

  /** No fixture path leads from a package to one of lower or equal rank. */
  lemma NoFixturePath(a: Node, b: Node)
    requires Rank(b) <= Rank(a)
    ensures !Reaches(Edges, a, b)
  {
    EdgesRanked();
    NoPathAgainstRank(Edges, a, b);
  }

  lemma NodesDistinct()
    ensures Distinct(Nodes)
  {
  }

  lemma EdgesDistinct()
    ensures Distinct(Edges)
  {
  }

  lemma EdgesKnown()
    ensures forall e :: e in Edges ==> e.0 in Nodes && e.1 in Nodes
  {
    forall e | e in Edges
      ensures e.0 in Nodes && e.1 in Nodes
    {
      var k :| 0 <= k < |Edges| && Edges[k] == e;
      assert k == 0 || k == 1 || k == 2 || k == 3 || k == 4;
    }
  }

  lemma FixtureValid()
    ensures Valid(Fixture)
  {
    NodesDistinct();
    EdgesDistinct();
    EdgesKnown();
    EdgesRanked();
    RankedAcyclic(Edges, Rank);
  }

  lemma RunPackage(k: nat)
    requires k < |Nodes|
    ensures Run(Graph(Nodes[..k], []), SetUp[k..]) == Run(Graph(Nodes[..k + 1], []), SetUp[k + 1..])
  {
    assert SetUp[k] == Package(Nodes[k]);
    assert Nodes[k] !in Nodes[..k];
    assert Nodes[..k] + [Nodes[k]] == Nodes[..k + 1];
  }

  /** The k-th edge call of the set-up extends the first k edges by one. */
  lemma EdgeStep(k: nat, a: Node, b: Node)
    requires k < |Edges| && Edges[k] == (a, b)
    ensures AddEdge(Graph(Nodes, Edges[..k]), a, b) == Ok(Graph(Nodes, Edges[..k + 1]))
  {
    assert a in Nodes && b in Nodes && Rank(a) < Rank(b) by {
      assert Edges[k] in Edges;
      EdgesKnown();
      EdgesRanked();
    }
    assert !HasPath(Graph(Nodes, Edges[..k]), b, a) by {
      EdgesRanked();
      assert forall e :: e in Edges[..k] ==> e in Edges;
      NoPathAgainstRank(Edges[..k], b, a);
    }
    assert (a, b) !in Edges[..k] by {
      EdgesDistinct();
    }
    assert Edges[..k] + [(a, b)] == Edges[..k + 1];
  }

  lemma RunEdge(k: nat, a: Node, b: Node)
    requires k < |Edges| && Edges[k] == (a, b)
    ensures Run(Graph(Nodes, Edges[..k]), SetUp[6 + k..]) == Run(Graph(Nodes, Edges[..k + 1]), SetUp[6 + k + 1..])
  {
    EdgeStep(k, a, b);
    assert SetUp[6 + k] == EdgeCall(a, b);
    assert SetUp[6 + k..][1..] == SetUp[6 + k + 1..];
  }

  /** After the first k package calls, the graph holds the first k packages. */
  lemma {:induction false} SetUpPackages(k: nat)
    requires k <= |Nodes|
    ensures Run(EmptyGraph, SetUp) == Run(Graph(Nodes[..k], []), SetUp[k..])
  {
    if k == 0 {
      assert Nodes[..0] == [] && SetUp[0..] == SetUp;
    } else {
      SetUpPackages(k - 1);
      RunPackage(k - 1);
    }
  }

  /** After the first k edge calls, the graph holds the first k edges. */
  lemma {:induction false} SetUpEdges(k: nat)
    requires k <= |Edges|
    ensures Run(EmptyGraph, SetUp) == Run(Graph(Nodes, Edges[..k]), SetUp[6 + k..])
  {
    if k == 0 {
      SetUpPackages(6);
      assert Nodes[..6] == Nodes && Edges[..0] == [];
    } else {
      SetUpEdges(k - 1);
      RunEdge(k - 1, Edges[k - 1].0, Edges[k - 1].1);
    }
  }

  /** The set-up succeeds and yields the fixture graph. */
  lemma SetUpYieldsFixture()
    ensures Run(EmptyGraph, SetUp).Ok? && Run(EmptyGraph, SetUp).value == Fixture
  {
    SetUpEdges(5);
    SetUpEnd();
  }

  lemma SetUpEnd()
    ensures Run(Graph(Nodes, Edges[..5]), SetUp[11..]) == Ok(Fixture)
  {
    assert Edges[..5] == Edges && SetUp[11..] == [];
  }

  /** A package that is the source of no edge leads nowhere. */
  lemma NoPathFromSink(edges: seq<Edge>, a: Node, b: Node)
    requires forall e :: e in edges ==> e.0 != a
    ensures !Reaches(edges, a, b)
  {
    if Reaches(edges, a, b) {
      ReachEndpoints(edges, a, b);
    }
  }

  /** The expected order of getSortedPackages() on the fixture. */
  const FullOrder: seq<Node> := ["p1", "p5", "p2", "p4", "p3", "p6"]

  /** A permutation of the expected order that keeps each neighbour pair in order is that order. */
  lemma FullOrderFromChain(r: seq<Node>)
    requires Distinct(r) && forall x :: x in r <==> x in FullOrder
    requires Before(r, "p1", "p5") && Before(r, "p5", "p2") && Before(r, "p2", "p4")
    requires Before(r, "p4", "p3") && Before(r, "p3", "p6")
    ensures r == FullOrder
  {
    ChainDetermines(r, FullOrder);
  }

  lemma P5AfterP1()
    ensures Valid(Fixture)
    ensures !NeededBy(Edges, "p5", Nodes[..1])
  {
    FixtureValid();
    NoFixturePath("p5", "p1");
    assert Nodes[..1] == ["p1"];
  }

  /** No fixture edge leaves p6. */
  lemma P6Sink()
    ensures forall e :: e in Edges ==> e.0 != "p6"
  {
    forall e | e in Edges
      ensures e.0 != "p6"
    {
      var k :| 0 <= k < |Edges| && Edges[k] == e;
      assert k == 0 || k == 1 || k == 2 || k == 3 || k == 4;
    }
  }

  lemma P6AfterP3()
    ensures Valid(Fixture)
    ensures !NeededBy(Edges, "p6", Nodes[..3])
  {
    FixtureValid();
    P6Sink();
    NoPathFromSink(Edges, "p6", "p1");
    NoPathFromSink(Edges, "p6", "p2");
    NoPathFromSink(Edges, "p6", "p3");
    assert Nodes[..3] == ["p1", "p2", "p3"];
  }

  /** The sorted packages of the whole fixture are its six packages, each once. */
  lemma FullSortedMembers()
    ensures Valid(Fixture) && GetSortedPackages(Fixture, None).Ok?
    ensures Distinct(GetSortedPackages(Fixture, None).value)
    ensures forall x :: x in GetSortedPackages(Fixture, None).value <==> x in FullOrder
  {
    FixtureValid();
    forall x
      ensures x in Nodes <==> x in FullOrder
    {
    }
  }

  /** Ties in the whole fixture: p5 after p1, p6 after p3. */
  lemma FullTieBreaks()
    ensures Valid(Fixture) && GetSortedPackages(Fixture, None).Ok?
    ensures Before(GetSortedPackages(Fixture, None).value, "p1", "p5")
    ensures Before(GetSortedPackages(Fixture, None).value, "p3", "p6")
  {
    P5AfterP1();
    SortedTieBreak(Fixture, 0, "p5");
    P6AfterP3();
    SortedTieBreak(Fixture, 2, "p6");
  }

  /** The edges p5 -> p2 -> p4 -> p3 order the rest. */
  lemma FullEdgeOrder()
    ensures Valid(Fixture) && GetSortedPackages(Fixture, None).Ok?
    ensures Before(GetSortedPackages(Fixture, None).value, "p5", "p2")
    ensures Before(GetSortedPackages(Fixture, None).value, "p2", "p4")
    ensures Before(GetSortedPackages(Fixture, None).value, "p4", "p3")
  {
    FixtureValid();
    SortedEdgeBefore(Fixture, None, "p5", "p2");
    SortedEdgeBefore(Fixture, None, "p2", "p4");
    SortedEdgeBefore(Fixture, None, "p4", "p3");
  }

  /** getSortedPackages() on the fixture. */
  lemma SortedFixture()
    ensures Valid(Fixture)
    ensures GetSortedPackages(Fixture, None).Ok?
    ensures GetSortedPackages(Fixture, None).value == FullOrder
  {
    FullSortedMembers();
    FullTieBreaks();
    FullEdgeOrder();
    FullOrderFromChain(GetSortedPackages(Fixture, None).value);
  }

  const Subset: seq<Node> := ["p1", "p3", "p4", "p5", "p6"]

  /** The expected order of getSortedPackages([p1, p3, p4, p5, p6]). */
  const SubsetOrder: seq<Node> := ["p1", "p4", "p3", "p5", "p6"]

  /** The subset's candidates keep registration order, which here is the subset's own order. */
  lemma SelectSubset()
    ensures Select(Nodes, Subset) == Subset
  {
  }

  /** Edges between members of the subset: only p4 -> p3. */
  lemma InducedSubEdges()
    ensures InducedEdges(Edges, Subset) == [("p4", "p3")]
  {
  }

  /** A permutation of the expected order that keeps each neighbour pair in order is that order. */
  lemma SubsetOrderFromChain(r: seq<Node>)
    requires Distinct(r) && forall x :: x in r <==> x in SubsetOrder
    requires Before(r, "p1", "p4") && Before(r, "p4", "p3") && Before(r, "p3", "p5") && Before(r, "p5", "p6")
    ensures r == SubsetOrder
  {
    ChainDetermines(r, SubsetOrder);
  }

  lemma SubsetNotNeededP4()
    ensures !NeededBy(InducedEdges(Fixture.edges, Select(Fixture.nodes, Subset)), "p4", Select(Fixture.nodes, Subset)[..1])
  {
    SelectSubset();
    InducedSubEdges();
    NoPathFromSink([("p4", "p3")], "p3", "p1");
    NoPathThroughSink([("p4", "p3")], "p4", "p3", "p1");
    assert Subset[..1] == ["p1"];
  }

  /** From a package whose only successor leads nowhere, the only path is the edge. */
  lemma NoPathThroughSink(edges: seq<Edge>, a: Node, s: Node, b: Node)
    requires forall e :: e in edges && e.0 == a ==> e.1 == s
    requires s != b && !Reaches(edges, s, b)
    ensures !Reaches(edges, a, b)
  {
    if Reaches(edges, a, b) {
      ReachFirstStep(edges, a, b);
    }
  }

  lemma SubsetNotNeededP5()
    ensures !NeededBy(InducedEdges(Edges, Subset), "p5", Subset[..2])
  {
    InducedSubEdges();
    NoPathFromSink([("p4", "p3")], "p5", "p1");
    NoPathFromSink([("p4", "p3")], "p5", "p3");
    assert Subset[..2] == ["p1", "p3"];
  }

  lemma SubsetNotNeededP6()
    ensures !NeededBy(InducedEdges(Edges, Subset), "p6", Subset[..4])
  {
    InducedSubEdges();
    NoPathFromSink([("p4", "p3")], "p6", "p1");
    NoPathFromSink([("p4", "p3")], "p6", "p3");
    NoPathFromSink([("p4", "p3")], "p6", "p4");
    NoPathFromSink([("p4", "p3")], "p6", "p5");
    assert Subset[..4] == ["p1", "p3", "p4", "p5"];
  }

  lemma SubsetKnown()
    ensures Valid(Fixture) && forall n :: n in Subset ==> HasPackage(Fixture, n)
  {
    FixtureValid();
  }

  lemma SubsetTieP4()
    ensures Valid(Fixture) && forall n :: n in Subset ==> HasPackage(Fixture, n)
    ensures Before(GetSortedPackages(Fixture, Some(Subset)).value, "p1", "p4")
  {
    SubsetKnown();
    SubsetNotNeededP4();
    SelectFirst();
    SubsetTieBreak(Fixture, Subset, 0, "p4");
  }

  lemma SelectFirst()
    ensures |Select(Fixture.nodes, Subset)| > 0 && Select(Fixture.nodes, Subset)[0] == "p1"
  {
    SelectSubset();
  }

  lemma SubsetTieP5()
    ensures Valid(Fixture) && forall n :: n in Subset ==> HasPackage(Fixture, n)
    ensures Before(GetSortedPackages(Fixture, Some(Subset)).value, "p3", "p5")
  {
    SubsetKnown();
    SelectSubset();
    SubsetNotNeededP5();
    SubsetTieBreak(Fixture, Subset, 1, "p5");
  }

  lemma SubsetTieP6()
    ensures Valid(Fixture) && forall n :: n in Subset ==> HasPackage(Fixture, n)
    ensures Before(GetSortedPackages(Fixture, Some(Subset)).value, "p5", "p6")
  {
    SubsetKnown();
    SelectSubset();
    SubsetNotNeededP6();
    SubsetTieBreak(Fixture, Subset, 3, "p6");
  }

  /** The sorted subset holds its five packages, each once. */
  lemma SubsetSortedMembers()
    ensures Valid(Fixture) && GetSortedPackages(Fixture, Some(Subset)).Ok?
    ensures Distinct(GetSortedPackages(Fixture, Some(Subset)).value)
    ensures forall x :: x in GetSortedPackages(Fixture, Some(Subset)).value <==> x in SubsetOrder
  {
    SubsetKnown();
    forall x
      ensures (x in Nodes && x in Subset) <==> x in SubsetOrder
    {
    }
  }

  /** getSortedPackages([p1, p3, p4, p5, p6]): the path p1 -> p2 -> p3 does not pull p5 before p3. */
  lemma SortedFixtureSubset()
    ensures Valid(Fixture)
    ensures GetSortedPackages(Fixture, Some(Subset)).Ok?
    ensures GetSortedPackages(Fixture, Some(Subset)).value == SubsetOrder
  {
    SubsetSortedMembers();
    var r := GetSortedPackages(Fixture, Some(Subset)).value;
    assert Before(r, "p1", "p4") by {
      SubsetTieP4();
    }
    assert Before(r, "p3", "p5") by {
      SubsetTieP5();
    }
    assert Before(r, "p5", "p6") by {
      SubsetTieP6();
    }
    SortedEdgeBefore(Fixture, Some(Subset), "p4", "p3");
    SubsetOrderFromChain(r);
  }

  /** getSortedPackages(['foo']) on an empty graph fails. */
  lemma SortedUnknownSubsetFails()
    ensures GetSortedPackages(EmptyGraph, Some(["foo"])) == Err(UnknownPackage("foo"))
  {
    EmptyGraphValid();
  }

  lemma SuccessorsP1()
    ensures Successors(Edges, "p1") == ["p2"]
  {
  }

  lemma SuccessorsP2()
    ensures Successors(Edges, "p2") == ["p3", "p4"]
  {
  }

  lemma PathP2P3()
    ensures Acyclic(Edges) && HasPath(Fixture, "p2", "p3")
    ensures PathFrom(Fixture, "p2", "p3") == ["p2", "p3"]
  {
    FixtureValid();
    EdgeReaches(Edges, "p2", "p3");
    SuccessorsP2();
    PathFromDirect(Fixture, "p2", "p3");
  }

  lemma PathP1P3()
    ensures Acyclic(Edges) && HasPath(Fixture, "p1", "p3")
    ensures PathFrom(Fixture, "p1", "p3") == ["p1", "p2", "p3"]
  {
    PathP2P3();
    assert HasPath(Fixture, "p1", "p3") by {
      EdgeReaches(Edges, "p1", "p2");
      ReachExtend(Edges, "p1", "p2", "p3");
    }
    assert PathFrom(Fixture, "p1", "p3") == ["p1"] + PathFrom(Fixture, "p2", "p3") by {
      SuccessorsP1();
      PathFromVia(Fixture, "p1", "p2", "p3");
    }
  }

  /** getPath(p1, p3) follows the first successor, p2. */
  lemma FixturePathP1P3()
    ensures Valid(Fixture)
    ensures GetPath(Fixture, "p1", "p3").Some? && GetPath(Fixture, "p1", "p3").value == ["p1", "p2", "p3"]
  {
    FixtureValid();
    PathP1P3();
  }

  /** getPath between adjacent packages is the edge itself. */
  lemma FixturePathP1P2()
    ensures Valid(Fixture)
    ensures GetPath(Fixture, "p1", "p2").Some? && GetPath(Fixture, "p1", "p2").value == ["p1", "p2"]
  {
    FixtureValid();
    EdgeReaches(Edges, "p1", "p2");
    SuccessorsP1();
    PathFromDirect(Fixture, "p1", "p2");
  }

  /** getPath finds nothing from a package to one of lower or equal rank. */
  lemma NoFixturePathNone(a: Node, b: Node)
    requires Rank(b) <= Rank(a)
    ensures Valid(Fixture) && GetPath(Fixture, a, b) == None
  {
    FixtureValid();
    NoFixturePath(a, b);
  }

  /**
    The rows of the path table with no path: against the edges, between
    unrelated packages, or with an unknown package.
   */
  const NoPathRows: seq<(Node, Node)> :=
    [("p2", "p1"), ("p3", "p1"), ("p3", "p4"), ("p1", "p5"), ("p5", "p1"), ("p1", "foo"), ("foo", "p1")]

  /** hasPath() is false and getPath() finds nothing for every row without a path. */
  lemma FixtureNoPaths(k: int)
    requires 0 <= k < |NoPathRows|
    ensures Valid(Fixture)
    ensures !HasPath(Fixture, NoPathRows[k].0, NoPathRows[k].1)
    ensures GetPath(Fixture, NoPathRows[k].0, NoPathRows[k].1) == None
  {
    var (a, b) := NoPathRows[k];
    assert Rank(b) <= Rank(a) by {
      assert k == 0 || k == 1 || k == 2 || k == 3 || k == 4 || k == 5 || k == 6;
    }
    NoFixturePathNone(a, b);
  }

  /** Adding p2 -> p1 after p1 -> p2 closes a cycle. */
  lemma AddEdgeFailsIfCycle()
    ensures AddPackage(EmptyGraph, "p1").Ok? && AddPackage(EmptyGraph, "p1").value == Graph(["p1"], [])
    ensures AddPackage(Graph(["p1"], []), "p2").Ok? && AddPackage(Graph(["p1"], []), "p2").value == Graph(["p1", "p2"], [])
    ensures AddEdge(Graph(["p1", "p2"], []), "p1", "p2").Ok? && AddEdge(Graph(["p1", "p2"], []), "p1", "p2").value == Graph(["p1", "p2"], [("p1", "p2")])
    ensures AddEdge(Graph(["p1", "p2"], [("p1", "p2")]), "p2", "p1") == Err(Cycle("p2", "p1"))
  {
    NoPathAgainstRank([], "p2", "p1");
    EdgeReaches([("p1", "p2")], "p1", "p2");
  }
}
