/**
  The deterministic topological order of a package graph.

  Candidates are taken in the order given (the graph's insertion order). A
  candidate that is not yet placed is placed after all of its predecessors,
  which are placed first by the same rule; predecessors are visited in the
  order their edges were inserted. The caller restricts the edges to the
  candidates, so only direct edges between candidates constrain the order.
 */
module TopoSort {
  import opened Reachability
  import opened Seqs

  /** Sources of the edges into `c`, in edge-insertion order. */
  function Preds(edges: seq<Edge>, c: Node): (r: seq<Node>)
    ensures forall p :: p in r <==> (p, c) in edges
  {
    if edges == [] then []
    else (if edges[0].1 == c then [edges[0].0] else []) + Preds(edges[1..], c)
  }

  /** Every placed node has all its predecessors placed before it. */
  ghost predicate PredClosed(edges: seq<Edge>, out: seq<Node>)
  {
    forall j, e :: 0 <= j < |out| && e in edges && e.1 == out[j] ==> e.0 in out[..j]
  }

  /** The DFS visit of `c`: its unplaced predecessors first, then `c`. */
  function Visit(edges: seq<Edge>, c: Node, out: seq<Node>): (r: seq<Node>)
    requires Acyclic(edges)
    requires c !in out && Distinct(out) && PredClosed(edges, out)
    ensures out <= r && Distinct(r) && PredClosed(edges, r)
    ensures c in r
    ensures forall x :: x in r[|out|..] ==> x == c || Reaches(edges, x, c)
    decreases Targets(edges) - Reach(edges, c), 1, 0
  {
    var placed := VisitPreds(edges, c, Preds(edges, c), out);
    PlaceAfterPreds(edges, c, out, placed);
    placed + [c]
  }

  lemma PlaceAfterPreds(edges: seq<Edge>, c: Node, out: seq<Node>, placed: seq<Node>)
    requires out <= placed && Distinct(placed) && PredClosed(edges, placed) && c !in placed
    requires forall p :: (p, c) in edges ==> p in placed
    requires forall x :: x in placed[|out|..] ==> Reaches(edges, x, c)
    ensures Distinct(placed + [c]) && PredClosed(edges, placed + [c])
    ensures forall x :: x in (placed + [c])[|out|..] ==> x == c || Reaches(edges, x, c)
  {
    var r := placed + [c];
    forall j, e | 0 <= j < |r| && e in edges && e.1 == r[j]
      ensures e.0 in r[..j]
    {
      if j < |placed| {
        assert r[..j] == placed[..j];
      } else {
        assert r[..j] == placed;
      }
    }
    forall x | x in r[|out|..]
      ensures x == c || Reaches(edges, x, c)
    {
      var k :| |out| <= k < |r| && r[k] == x;
      if k < |placed| {
        assert placed[|out|..][k - |out|] == x;
      }
    }
  }

  /** Visits, in order, those of `preds` (predecessors of `c`) that are not yet placed. */
  function VisitPreds(edges: seq<Edge>, c: Node, preds: seq<Node>, out: seq<Node>): (r: seq<Node>)
    requires Acyclic(edges)
    requires forall p :: p in preds ==> (p, c) in edges
    requires c !in out && Distinct(out) && PredClosed(edges, out)
    ensures out <= r && Distinct(r) && PredClosed(edges, r)
    ensures c !in r
    ensures forall p :: p in preds ==> p in r
    ensures forall x :: x in r[|out|..] ==> Reaches(edges, x, c)
    decreases Targets(edges) - Reach(edges, c), 0, |preds|
  {
    if preds == [] then out
    else
      var p := preds[0];
      ShrinkingMeasure(edges, p, c);
      var out' := if p in out then out else Visit(edges, p, out);
      AncestorsOfPred(edges, p, c, out, out');
      VisitPreds(edges, c, preds[1..], out')
  }

  lemma ShrinkingMeasure(edges: seq<Edge>, p: Node, c: Node)
    requires Acyclic(edges) && (p, c) in edges
    ensures Targets(edges) - Reach(edges, p) < Targets(edges) - Reach(edges, c)
  {
    ReachShrinks(edges, p, c);
    EdgeReaches(edges, p, c);
    ReachEndpoints(edges, p, c);
  }

  /** What a visit of predecessor `p` adds reaches `c`, so `c` is never among it. */
  lemma AncestorsOfPred(edges: seq<Edge>, p: Node, c: Node, out: seq<Node>, out': seq<Node>)
    requires Acyclic(edges) && (p, c) in edges && c !in out
    requires out <= out'
    requires forall x :: x in out'[|out|..] ==> x == p || Reaches(edges, x, p)
    ensures forall x :: x in out'[|out|..] ==> Reaches(edges, x, c)
    ensures c !in out'
  {
    forall x | x in out'[|out|..]
      ensures Reaches(edges, x, c)
    {
      if x == p {
        EdgeReaches(edges, p, c);
      } else {
        ReachExtend(edges, x, p, c);
      }
    }
    if c in out' {
      var k :| 0 <= k < |out'| && out'[k] == c;
      if k >= |out| {
        assert c in out'[|out|..];
        assert c !in Reach(edges, c);
      }
    }
  }

  /** Places `c` by a visit unless it is already placed. */
  function Place(edges: seq<Edge>, c: Node, out: seq<Node>): (r: seq<Node>)
    requires Acyclic(edges)
    requires Distinct(out) && PredClosed(edges, out)
    ensures out <= r && Distinct(r) && PredClosed(edges, r)
    ensures c in r
    ensures forall x :: x in r[|out|..] ==> x == c || Reaches(edges, x, c)
  {
    if c in out then out else Visit(edges, c, out)
  }

  /** Places every candidate of `cands` that is not yet placed, in order. */
  function Order(edges: seq<Edge>, cands: seq<Node>, out: seq<Node>): (r: seq<Node>)
    requires Acyclic(edges)
    requires Distinct(out) && PredClosed(edges, out)
    ensures out <= r && Distinct(r) && PredClosed(edges, r)
    ensures forall x :: x in cands ==> x in r
    ensures forall x :: x in r[|out|..] ==> x in cands || exists y :: y in cands && Reaches(edges, x, y)
  {
    if cands == [] then out
    else
      var out' := Place(edges, cands[0], out);
      var r := Order(edges, cands[1..], out');
      NewSplit(out, out', r);
      r
  }

  /** What two successive extensions add is what the first or the second added. */
  lemma NewSplit(out: seq<Node>, out': seq<Node>, r: seq<Node>)
    requires out <= out' <= r
    ensures forall x :: x in r[|out|..] ==> x in out'[|out|..] || x in r[|out'|..]
  {
    forall x | x in r[|out|..]
      ensures x in out'[|out|..] || x in r[|out'|..]
    {
      var k :| |out| <= k < |r| && r[k] == x;
      if k < |out'| {
        assert out'[k] == x;
        assert out'[|out|..][k - |out|] == x;
      } else {
        assert r[|out'|..][k - |out'|] == x;
      }
    }
  }

  /**
    The topological order of `cands` under `edges`, whose endpoints are all
    candidates: every candidate exactly once, and for every edge the source
    before the target.
   */
  function TopoOrder(edges: seq<Edge>, cands: seq<Node>): (r: seq<Node>)
    requires Acyclic(edges)
    requires forall e :: e in edges ==> e.0 in cands && e.1 in cands
    ensures Distinct(r)
    ensures forall x :: x in r <==> x in cands
    ensures forall i, j :: 0 <= i < |r| && 0 <= j < |r| && (r[i], r[j]) in edges ==> i < j
  {
    var r := Order(edges, cands, []);
    forall x | x in r
      ensures x in cands
    {
      assert x in r[0..];
      if x !in cands {
        var y :| y in cands && Reaches(edges, x, y);
        ReachEndpoints(edges, x, y);
      }
    }
    forall i, j | 0 <= i < |r| && 0 <= j < |r| && (r[i], r[j]) in edges
      ensures i < j
    {
      var e := (r[i], r[j]);
      assert e.0 in r[..j];
      var k :| 0 <= k < j && r[k] == r[i];
    }
    r
  }

  /** Every edge of `edges` leads forward in `r`. */
  ghost predicate Forward(edges: seq<Edge>, r: seq<Node>)
  {
    forall i, j :: 0 <= i < |r| && 0 <= j < |r| && (r[i], r[j]) in edges ==> i < j
  }

  /** What lies after position `i` of `r` is closed under the edges. */
  lemma LaterClosed(edges: seq<Edge>, r: seq<Node>, i: int)
    requires Forward(edges, r) && forall e :: e in edges ==> e.1 in r
    requires 0 <= i < |r|
    ensures Step(edges, {r[i]}) <= (set k | i < k < |r| :: r[k])
    ensures Step(edges, set k | i < k < |r| :: r[k]) <= (set k | i < k < |r| :: r[k])
  {
    var later := set k | i < k < |r| :: r[k];
    forall y | y in Step(edges, {r[i]})
      ensures y in later
    {
      var e :| e in edges && e.0 == r[i] && e.1 == y;
      var k :| 0 <= k < |r| && r[k] == y;
      assert (r[i], r[k]) in edges;
    }
    forall z | z in Step(edges, later)
      ensures z in later
    {
      var e :| e in edges && e.0 in later && e.1 == z;
      var k :| i < k < |r| && r[k] == e.0;
      var m :| 0 <= m < |r| && r[m] == z;
      assert (r[k], r[m]) in edges;
    }
  }

  /** An order in which every edge leads forward, without repetitions, respects reachability. */
  lemma ForwardFollowsPaths(edges: seq<Edge>, r: seq<Node>, i: int, j: int)
    requires Forward(edges, r) && Distinct(r) && forall e :: e in edges ==> e.1 in r
    requires 0 <= i < |r| && 0 <= j < |r| && Reaches(edges, r[i], r[j])
    ensures i < j
  {
    LaterClosed(edges, r, i);
    ReachWithin(edges, r[i], set k | i < k < |r| :: r[k]);
    var k :| i < k < |r| && r[k] == r[j];
  }

  /** The order respects reachability, not only direct edges. */
  lemma TopoOrderFollowsPaths(edges: seq<Edge>, cands: seq<Node>, i: int, j: int)
    requires Acyclic(edges)
    requires forall e :: e in edges ==> e.0 in cands && e.1 in cands
    requires 0 <= i < |TopoOrder(edges, cands)| && 0 <= j < |TopoOrder(edges, cands)|
    requires Reaches(edges, TopoOrder(edges, cands)[i], TopoOrder(edges, cands)[j])
    ensures i < j
  {
    ForwardFollowsPaths(edges, TopoOrder(edges, cands), i, j);
  }

  /** `y` is one of `cs` or a predecessor, direct or not, of one of them. */
  ghost predicate NeededBy(edges: seq<Edge>, y: Node, cs: seq<Node>)
  {
    exists c :: c in cs && (y == c || Reaches(edges, y, c))
  }

  /** A node outside `out` and outside what a later extension added is outside the extension. */
  lemma StaysOut(out: seq<Node>, out': seq<Node>, y: Node)
    requires out <= out' && y !in out && y !in out'[|out|..]
    ensures y !in out'
  {
    assert out' == out + out'[|out|..];
  }

  /** Not needed by the first a+1 candidates means not needed by the first a after the head. */
  lemma NotNeededByTail(edges: seq<Edge>, y: Node, cands: seq<Node>, a: int)
    requires 0 < a < |cands| && !NeededBy(edges, y, cands[..a + 1])
    ensures !NeededBy(edges, y, cands[1..][..a]) && cands[1..][a - 1] == cands[a]
  {
    forall c | c in cands[1..][..a]
      ensures !(y == c || Reaches(edges, y, c))
    {
      assert c in cands[..a + 1];
    }
  }

  lemma {:induction false} OrderTieBreak(edges: seq<Edge>, cands: seq<Node>, out: seq<Node>, a: int, y: Node)
    requires Acyclic(edges) && Distinct(out) && PredClosed(edges, out)
    requires 0 <= a < |cands| && y !in out && !NeededBy(edges, y, cands[..a + 1])
    ensures Before(Order(edges, cands, out), cands[a], y)
    decreases a
  {
    var out' := Place(edges, cands[0], out);
    assert cands[0] in cands[..a + 1];
    StaysOut(out, out', y);
    if a == 0 {
      BeforeFromPrefix(out', Order(edges, cands[1..], out'), cands[0], y);
    } else {
      NotNeededByTail(edges, y, cands, a);
      OrderTieBreak(edges, cands[1..], out', a - 1, y);
    }
  }

  /**
    Ties are broken by candidate order: a node that neither is nor precedes
    (through edges) any of the first a+1 candidates is placed after the a-th.
   */
  lemma TopoOrderTieBreak(edges: seq<Edge>, cands: seq<Node>, a: int, y: Node)
    requires Acyclic(edges)
    requires forall e :: e in edges ==> e.0 in cands && e.1 in cands
    requires 0 <= a < |cands| && !NeededBy(edges, y, cands[..a + 1])
    ensures Before(TopoOrder(edges, cands), cands[a], y)
  {
    OrderTieBreak(edges, cands, [], a, y);
  }
}
