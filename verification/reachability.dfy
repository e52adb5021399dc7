/**
  Reachability in a directed graph given by its edge sequence.

  `Reach(edges, x)` is the set of nodes reachable from `x` along one or more
  edges. It is computed as the least set that contains the direct successors
  of `x` and is closed under taking successors; the lemmas below state that
  leastness and relate it to explicit walks.
 */
module Reachability {

  type Node = string
  type Edge = (Node, Node)

  /** The nodes one edge away from some node of `s`. */
  function Step(edges: seq<Edge>, s: set<Node>): set<Node>
  {
    set e | e in edges && e.0 in s :: e.1
  }

  /** Every node some edge points to. */
  function Targets(edges: seq<Edge>): set<Node>
  {
    set e | e in edges :: e.1
  }

  /** The least superset of `s` closed under `Step`. */
  function Closure(edges: seq<Edge>, s: set<Node>): set<Node>
    decreases Targets(edges) - s
  {
    var next := s + Step(edges, s);
    if next == s then s
    else
      ClosureProgress(edges, s);
      Closure(edges, next)
  }

  lemma ClosureProgress(edges: seq<Edge>, s: set<Node>)
    requires s + Step(edges, s) != s
    ensures Targets(edges) - (s + Step(edges, s)) < Targets(edges) - s
  {
    var y :| y in Step(edges, s) && y !in s;
    assert y in Targets(edges) - s;
  }

  /** Nodes reachable from `x` along a walk of at least one edge. */
  function Reach(edges: seq<Edge>, x: Node): set<Node>
  {
    Closure(edges, Step(edges, {x}))
  }

  predicate Reaches(edges: seq<Edge>, a: Node, b: Node)
  {
    b in Reach(edges, a)
  }

  /** No node reaches itself. */
  ghost predicate Acyclic(edges: seq<Edge>)
  {
    forall x :: x !in Reach(edges, x)
  }

  /** A walk: at least two nodes, each consecutive pair an edge. */
  ghost predicate Walk(edges: seq<Edge>, p: seq<Node>)
  {
    && |p| >= 2
    && forall i :: 0 <= i < |p| - 1 ==> (p[i], p[i + 1]) in edges
  }

  ghost predicate WalkFromTo(edges: seq<Edge>, p: seq<Node>, a: Node, b: Node)
  {
    Walk(edges, p) && p[0] == a && p[|p| - 1] == b
  }

  // ---------------------------------------------------------------------
  // The three closure laws
  // ---------------------------------------------------------------------

  lemma {:induction false} ClosureExtensive(edges: seq<Edge>, s: set<Node>)
    ensures s <= Closure(edges, s)
    decreases Targets(edges) - s
  {
    var next := s + Step(edges, s);
    if next != s {
      ClosureProgress(edges, s);
      ClosureExtensive(edges, next);
    }
  }

  lemma {:induction false} ClosureClosed(edges: seq<Edge>, s: set<Node>)
    ensures Step(edges, Closure(edges, s)) <= Closure(edges, s)
    decreases Targets(edges) - s
  {
    var next := s + Step(edges, s);
    if next != s {
      ClosureProgress(edges, s);
      ClosureClosed(edges, next);
    }
  }

  /** Any successor-closed superset of `s` contains its closure. */
  lemma {:induction false} ClosureLeast(edges: seq<Edge>, s: set<Node>, t: set<Node>)
    requires s <= t && Step(edges, t) <= t
    ensures Closure(edges, s) <= t
    decreases Targets(edges) - s
  {
    var next := s + Step(edges, s);
    if next != s {
      StepMonotone(edges, s, t);
      ClosureProgress(edges, s);
      ClosureLeast(edges, next, t);
    }
  }

  lemma StepMonotone(edges: seq<Edge>, s: set<Node>, t: set<Node>)
    requires s <= t
    ensures Step(edges, s) <= Step(edges, t)
  {
  }

  // ---------------------------------------------------------------------
  // Facts about Reach
  // ---------------------------------------------------------------------

  lemma ReachClosed(edges: seq<Edge>, x: Node)
    ensures Step(edges, {x}) <= Reach(edges, x)
    ensures Step(edges, Reach(edges, x)) <= Reach(edges, x)
  {
    ClosureExtensive(edges, Step(edges, {x}));
    ClosureClosed(edges, Step(edges, {x}));
  }

  /** `t` contains everything reachable from `x` once it holds the successors of `x` and is closed. */
  lemma ReachWithin(edges: seq<Edge>, x: Node, t: set<Node>)
    requires Step(edges, {x}) <= t && Step(edges, t) <= t
    ensures Reach(edges, x) <= t
  {
    ClosureLeast(edges, Step(edges, {x}), t);
  }

  lemma EdgeReaches(edges: seq<Edge>, a: Node, b: Node)
    requires (a, b) in edges
    ensures Reaches(edges, a, b)
  {
    assert b in Step(edges, {a});
    ReachClosed(edges, a);
  }

  lemma ReachExtend(edges: seq<Edge>, a: Node, b: Node, c: Node)
    requires Reaches(edges, a, b) && (b, c) in edges
    ensures Reaches(edges, a, c)
  {
    ReachClosed(edges, a);
    assert c in Step(edges, Reach(edges, a));
  }

  /** Reachability is transitive. */
  lemma ReachTransitive(edges: seq<Edge>, a: Node, b: Node)
    requires Reaches(edges, a, b)
    ensures Reach(edges, b) <= Reach(edges, a)
  {
    ReachClosed(edges, a);
    forall y | y in Step(edges, {b})
      ensures y in Reach(edges, a)
    {
      assert y in Step(edges, Reach(edges, a));
    }
    ReachWithin(edges, b, Reach(edges, a));
  }

  lemma ReachTrans3(edges: seq<Edge>, a: Node, b: Node, c: Node)
    requires Reaches(edges, a, b) && Reaches(edges, b, c)
    ensures Reaches(edges, a, c)
  {
    ReachTransitive(edges, a, b);
  }

  /** Only targets of edges are reachable, and only from sources of edges. */
  lemma ReachEndpoints(edges: seq<Edge>, a: Node, b: Node)
    requires Reaches(edges, a, b)
    ensures b in Targets(edges)
    ensures exists e :: e in edges && e.0 == a
  {
    ReachWithin(edges, a, Targets(edges));
    if forall e :: e in edges ==> e.0 != a {
      assert Step(edges, {a}) == {};
      ReachWithin(edges, a, {});
      assert false;
    }
  }

  /** A node reachable from `a` is a direct successor or reachable from one. */
  lemma ReachFirstStep(edges: seq<Edge>, a: Node, b: Node)
    requires Reaches(edges, a, b)
    ensures (a, b) in edges || exists s :: (a, s) in edges && Reaches(edges, s, b)
  {
    var first := Step(edges, {a});
    var beyond := set s, y | s in first && y in Reach(edges, s) :: y;
    var t := first + beyond;
    forall z | z in Step(edges, t)
      ensures z in t
    {
      var e :| e in edges && e.0 in t && e.1 == z;
      if e.0 in first {
        EdgeReaches(edges, e.0, z);
      } else {
        var s :| s in first && e.0 in Reach(edges, s);
        ReachExtend(edges, s, e.0, z);
      }
    }
    ReachWithin(edges, a, t);
    if b in beyond {
      var s :| s in first && b in Reach(edges, s);
      var e :| e in edges && e.0 == a && e.1 == s;
    }
  }

  /** More edges, more reachability. */
  lemma ReachMonotone(small: seq<Edge>, large: seq<Edge>, x: Node)
    requires forall e :: e in small ==> e in large
    ensures Reach(small, x) <= Reach(large, x)
  {
    ReachClosed(large, x);
    var t := Reach(large, x);
    assert Step(small, {x}) <= Step(large, {x});
    assert Step(small, t) <= Step(large, t);
    ReachWithin(small, x, t);
  }

  lemma AcyclicSubgraph(small: seq<Edge>, large: seq<Edge>)
    requires forall e :: e in small ==> e in large
    requires Acyclic(large)
    ensures Acyclic(small)
  {
    forall x
      ensures x !in Reach(small, x)
    {
      ReachMonotone(small, large, x);
    }
  }

  /** In an acyclic graph a successor reaches strictly fewer nodes. */
  lemma ReachShrinks(edges: seq<Edge>, x: Node, s: Node)
    requires Acyclic(edges) && (x, s) in edges
    ensures Reach(edges, s) < Reach(edges, x)
  {
    EdgeReaches(edges, x, s);
    ReachTransitive(edges, x, s);
    assert s !in Reach(edges, s);
  }

  /** A rank that grows along every edge grows along every walk; in particular the graph is acyclic. */
  lemma RankGrows(edges: seq<Edge>, rank: Node -> int, x: Node)
    requires forall e :: e in edges ==> rank(e.0) < rank(e.1)
    ensures forall y :: y in Reach(edges, x) ==> rank(x) < rank(y)
  {
    var t := set y | y in Targets(edges) && rank(x) < rank(y);
    ReachWithin(edges, x, t);
  }

  lemma RankedAcyclic(edges: seq<Edge>, rank: Node -> int)
    requires forall e :: e in edges ==> rank(e.0) < rank(e.1)
    ensures Acyclic(edges)
  {
    forall x
      ensures x !in Reach(edges, x)
    {
      RankGrows(edges, rank, x);
    }
  }

  // ---------------------------------------------------------------------
  // Reach agrees with walks
  // ---------------------------------------------------------------------

  lemma ReachHasWalk(edges: seq<Edge>, a: Node, b: Node)
    requires Reaches(edges, a, b)
    ensures exists p :: WalkFromTo(edges, p, a, b)
  {
    var t := set y | y in Targets(edges) && exists p :: WalkFromTo(edges, p, a, y);
    forall y | y in Step(edges, {a})
      ensures y in t
    {
      var e :| e in edges && e.0 == a && e.1 == y;
      assert WalkFromTo(edges, [a, y], a, y);
    }
    forall z | z in Step(edges, t)
      ensures z in t
    {
      var e :| e in edges && e.0 in t && e.1 == z;
      var p :| WalkFromTo(edges, p, a, e.0);
      var q := p + [z];
      assert forall i :: 0 <= i < |q| - 1 ==> (q[i], q[i + 1]) in edges by {
        forall i | 0 <= i < |q| - 1
          ensures (q[i], q[i + 1]) in edges
        {
          if i < |p| - 1 {
            assert q[i] == p[i] && q[i + 1] == p[i + 1];
          }
        }
      }
      assert WalkFromTo(edges, q, a, z);
    }
    ReachWithin(edges, a, t);
  }

  lemma {:induction false} WalkReaches(edges: seq<Edge>, p: seq<Node>)
    requires Walk(edges, p)
    ensures Reaches(edges, p[0], p[|p| - 1])
    decreases |p|
  {
    if |p| == 2 {
      EdgeReaches(edges, p[0], p[1]);
    } else {
      var q := p[..|p| - 1];
      assert Walk(edges, q) by {
        forall i | 0 <= i < |q| - 1
          ensures (q[i], q[i + 1]) in edges
        {
          assert (p[i], p[i + 1]) in edges;
        }
      }
      WalkReaches(edges, q);
      ReachExtend(edges, p[0], q[|q| - 1], p[|p| - 1]);
    }
  }

  /** Reachability is exactly the existence of a walk. */
  lemma ReachesIffWalk(edges: seq<Edge>, a: Node, b: Node)
    ensures Reaches(edges, a, b) <==> exists p :: WalkFromTo(edges, p, a, b)
  {
    if Reaches(edges, a, b) {
      ReachHasWalk(edges, a, b);
    }
    if exists p :: WalkFromTo(edges, p, a, b) {
      var p :| WalkFromTo(edges, p, a, b);
      WalkReaches(edges, p);
    }
  }

  // ---------------------------------------------------------------------
  // Adding one edge
  // ---------------------------------------------------------------------

  lemma StepAppend(edges: seq<Edge>, a: Node, b: Node, s: set<Node>)
    ensures Step(edges + [(a, b)], s) == Step(edges, s) + (if a in s then {b} else {})
  {
    var l := Step(edges + [(a, b)], s);
    var r := Step(edges, s) + (if a in s then {b} else {});
    forall y | y in l ensures y in r {
      var e :| e in edges + [(a, b)] && e.0 in s && e.1 == y;
      if e != (a, b) {
        assert e in edges;
      }
    }
    forall y | y in r ensures y in l {
      if y in Step(edges, s) {
        var e :| e in edges && e.0 in s && e.1 == y;
        assert e in edges + [(a, b)];
      } else {
        assert (a, b) in edges + [(a, b)];
      }
    }
  }

  /**
    Adding the edge a -> b keeps a graph acyclic when b does not already
    reach a and a != b: every node reaches, in the larger graph, only what it
    reached before plus (when it could get to a) b and what b reaches.
   */
  lemma AddEdgeKeepsAcyclic(edges: seq<Edge>, a: Node, b: Node)
    requires Acyclic(edges)
    requires a != b && !Reaches(edges, b, a)
    ensures Acyclic(edges + [(a, b)])
  {
    var edges' := edges + [(a, b)];
    forall x
      ensures x !in Reach(edges', x)
    {
      ReachClosed(edges, x);
      ReachClosed(edges, b);
      StepAppend(edges, a, b, {x});
      if x == a || a in Reach(edges, x) {
        var t := Reach(edges, x) + {b} + Reach(edges, b);
        StepAppend(edges, a, b, t);
        assert Step(edges, {b}) <= Reach(edges, b);
        assert Step(edges, t) == Step(edges, Reach(edges, x)) + Step(edges, {b}) + Step(edges, Reach(edges, b));
        ReachWithin(edges', x, t);
        if x in Reach(edges, b) && x != a {
          ReachTrans3(edges, b, x, a);
        }
      } else {
        var t := Reach(edges, x);
        StepAppend(edges, a, b, t);
        ReachWithin(edges', x, t);
      }
    }
  }
}
