/**
  The resources of a package are emitted by repository path in lexicographic
  order, whatever order the manifest declares them in.
 */
module ResourceSort {
  import opened LexOrder
  import opened Loader

  ghost predicate SortedByPath(rs: seq<Resource>)
  {
    forall i, j :: 0 <= i < j < |rs| ==> LexLeq(rs[i].path, rs[j].path)
  }

  /** No path is declared twice (the keys of a PHP array). */
  ghost predicate DistinctPaths(rs: seq<Resource>)
  {
    forall i, j :: 0 <= i < j < |rs| ==> rs[i].path != rs[j].path
  }

  function Insert(x: Resource, rs: seq<Resource>): (r: seq<Resource>)
    requires SortedByPath(rs)
    ensures SortedByPath(r)
    ensures multiset(r) == multiset(rs) + multiset{x}
  {
    if rs == [] then [x]
    else if LexLeq(x.path, rs[0].path) then
      assert forall j :: 0 < j < |rs| ==> LexLeq(x.path, rs[j].path) by {
        forall j | 0 < j < |rs|
          ensures LexLeq(x.path, rs[j].path)
        {
          LexTransitive(x.path, rs[0].path, rs[j].path);
        }
      }
      [x] + rs
    else
      LexTotal(x.path, rs[0].path);
      var tail := Insert(x, rs[1..]);
      assert rs == [rs[0]] + rs[1..];
      var r := [rs[0]] + tail;
      forall j | 0 < j < |r|
        ensures LexLeq(rs[0].path, r[j].path)
      {
        assert r[j] in multiset(tail);
        assert r[j] == x || r[j] in multiset(rs[1..]);
        if r[j] != x {
          var k :| 0 <= k < |rs[1..]| && rs[1..][k] == r[j];
          assert rs[k + 1] == r[j];
        }
      }
      r
  }

  /** The resources in lexicographic order of their paths. */
  function SortByPath(rs: seq<Resource>): (r: seq<Resource>)
    ensures SortedByPath(r)
    ensures multiset(r) == multiset(rs)
  {
    if rs == [] then []
    else
      assert rs == [rs[0]] + rs[1..];
      Insert(rs[0], SortByPath(rs[1..]))
  }

  /** A sorted arrangement of resources with distinct paths is unique. */
  lemma {:induction false} SortedUnique(a: seq<Resource>, b: seq<Resource>)
    requires SortedByPath(a) && SortedByPath(b) && DistinctPaths(a)
    requires multiset(a) == multiset(b)
    ensures a == b
    decreases |a|
  {
    assert |a| == |multiset(a)| == |multiset(b)| == |b|;
    if a != [] {
      SortedHeads(a, b);
      TailMultiset(a, b);
      SortedUnique(a[1..], b[1..]);
      assert a == [a[0]] + a[1..] && b == [b[0]] + b[1..];
    }
  }

  /** Both sorted arrangements start with the resource of least path. */
  lemma SortedHeads(a: seq<Resource>, b: seq<Resource>)
    requires SortedByPath(a) && SortedByPath(b) && DistinctPaths(a)
    requires multiset(a) == multiset(b) && |a| > 0 && |b| > 0
    ensures a[0] == b[0]
  {
    assert b[0] in multiset(a);
    var k :| 0 <= k < |a| && a[k] == b[0];
    assert a[0] in multiset(b);
    var m :| 0 <= m < |b| && b[m] == a[0];
    if k > 0 {
      assert LexLeq(a[0].path, a[k].path);
    } else {
      LexReflexive(a[0].path);
    }
    if m > 0 {
      assert LexLeq(b[0].path, b[m].path);
    } else {
      LexReflexive(b[0].path);
    }
    LexAntisymmetric(a[0].path, b[0].path);
  }

  lemma TailMultiset(a: seq<Resource>, b: seq<Resource>)
    requires multiset(a) == multiset(b) && |a| > 0 && |b| > 0 && a[0] == b[0]
    ensures multiset(a[1..]) == multiset(b[1..])
  {
    assert a == [a[0]] + a[1..] && b == [b[0]] + b[1..];
    assert multiset(a[1..]) == multiset(a) - multiset{a[0]};
    assert multiset(b[1..]) == multiset(b) - multiset{b[0]};
  }

  /** A permutation of resources with distinct paths has distinct paths too. */
  lemma PermutationKeepsDistinctPaths(a: seq<Resource>, b: seq<Resource>)
    requires DistinctPaths(a) && multiset(a) == multiset(b)
    ensures DistinctPaths(b)
  {
    forall i, j | 0 <= i < j < |b|
      ensures b[i].path != b[j].path
    {
      assert b[i] in multiset(a) && b[j] in multiset(a);
      var p :| 0 <= p < |a| && a[p] == b[i];
      var q :| 0 <= q < |a| && a[q] == b[j];
      DistinctOnce(a, p);
      CountOneUnique(b, i, j);
    }
  }

  /** An element counted once in `b` occurs at one position only. */
  lemma CountOneUnique(b: seq<Resource>, i: int, j: int)
    requires 0 <= i < j < |b| && multiset(b)[b[i]] == 1
    ensures b[j] != b[i]
  {
    assert b == b[..i] + [b[i]] + b[i + 1..j] + [b[j]] + b[j + 1..];
    assert multiset(b) == multiset(b[..i]) + multiset{b[i]} + multiset(b[i + 1..j]) + multiset{b[j]} + multiset(b[j + 1..]);
  }

  lemma DistinctOnce(a: seq<Resource>, p: int)
    requires DistinctPaths(a) && 0 <= p < |a|
    ensures multiset(a)[a[p]] == 1
  {
    assert a == a[..p] + [a[p]] + a[p + 1..];
    assert a[p] !in a[..p] by {
      forall x | x in a[..p]
        ensures x != a[p]
      {
        var k :| 0 <= k < p && a[k] == x;
        assert a[k].path != a[p].path;
      }
    }
    var after := a[p + 1..];
    assert a[p] !in after by {
      forall x | x in after
        ensures x != a[p]
      {
        var k :| p < k < |a| && a[k] == x;
        assert a[k].path != a[p].path;
      }
    }
  }

  /** Declaring the same resources in another order yields the same emission order. */
  lemma SortIgnoresDeclarationOrder(a: seq<Resource>, b: seq<Resource>)
    requires DistinctPaths(a) && multiset(a) == multiset(b)
    ensures SortByPath(a) == SortByPath(b)
  {
    PermutationKeepsDistinctPaths(a, SortByPath(a));
    SortedUnique(SortByPath(a), SortByPath(b));
  }
}
