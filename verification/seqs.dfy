/** Small facts about sequences used by both components. */
module Seqs {

  /** No element occurs twice. */
  ghost predicate Distinct<T>(s: seq<T>) {
    forall i, j :: 0 <= i < j < |s| ==> s[i] != s[j]
  }

  /** Every occurrence of `x` in `s` comes before every occurrence of `y`. */
  ghost predicate Before<T>(s: seq<T>, x: T, y: T) {
    forall i, j :: 0 <= i < |s| && 0 <= j < |s| && s[i] == x && s[j] == y ==> i < j
  }

  /** In a sequence without repetitions, what its prefix `p` holds comes before what `p` lacks. */
  lemma BeforeFromPrefix<T>(p: seq<T>, r: seq<T>, x: T, y: T)
    requires p <= r && Distinct(r) && x in p && y !in p
    ensures Before(r, x, y)
  {
    forall i, j | 0 <= i < |r| && 0 <= j < |r| && r[i] == x && r[j] == y
      ensures i < j
    {
      var k :| 0 <= k < |p| && p[k] == x;
      assert r[k] == x;
    }
  }

  /** Position of the first occurrence of `x` in `s`. */
  function IndexOf<T(==)>(s: seq<T>, x: T): (k: nat)
    requires x in s
    ensures k < |s| && s[k] == x
    ensures forall j :: 0 <= j < k ==> s[j] != x
  {
    if s[0] == x then 0 else 1 + IndexOf(s[1..], x)
  }

  /** Concatenation of a sequence of sequences. */
  function Flatten<T>(ss: seq<seq<T>>): seq<T>
  {
    if ss == [] then [] else ss[0] + Flatten(ss[1..])
  }

  lemma {:induction false} FlattenAppend<T>(a: seq<seq<T>>, b: seq<seq<T>>)
    ensures Flatten(a + b) == Flatten(a) + Flatten(b)
  {
    if a == [] {
      assert a + b == b;
    } else {
      assert (a + b)[1..] == a[1..] + b;
      FlattenAppend(a[1..], b);
    }
  }

  /** `Flatten(ss)` is what comes before block `i`, then block `i`, then what comes after it. */
  lemma {:induction false} FlattenSplit<T>(ss: seq<seq<T>>, i: int)
    requires 0 <= i < |ss|
    ensures Flatten(ss) == Flatten(ss[..i]) + ss[i] + Flatten(ss[i + 1..])
    decreases i
  {
    if i == 0 {
      assert ss[..0] == [];
    } else {
      var rest := ss[1..];
      FlattenSplit(rest, i - 1);
      assert rest[..i - 1] == ss[..i][1..];
      assert rest[i - 1] == ss[i];
      assert rest[i..] == ss[i + 1..];
      assert Flatten(ss[..i]) == ss[0] + Flatten(ss[..i][1..]);
    }
  }

  /** Block `i` of `Flatten(ss)` ends no later than a later block `j` starts. */
  lemma FlattenBlocksOrdered<T>(ss: seq<seq<T>>, i: int, j: int)
    requires 0 <= i < j <= |ss|
    ensures |Flatten(ss[..i])| + |ss[i]| <= |Flatten(ss[..j])|
  {
    FlattenSplit(ss[..j], i);
    assert ss[..j][..i] == ss[..i];
  }

  /**
    In `Flatten(ss)`, the elements of a block come in block order, and every
    element of a block comes before every element of a later block.
   */
  lemma FlattenOrder<T>(ss: seq<seq<T>>, i: int, a: int, j: int, b: int)
    requires 0 <= i <= j < |ss| && 0 <= a < |ss[i]| && 0 <= b < |ss[j]|
    requires i < j || a < b
    ensures exists u, v :: 0 <= u < v < |Flatten(ss)| && Flatten(ss)[u] == ss[i][a] && Flatten(ss)[v] == ss[j][b]
  {
    var u := |Flatten(ss[..i])| + a;
    var v := |Flatten(ss[..j])| + b;
    FlattenSplit(ss, i);
    FlattenSplit(ss, j);
    if i < j {
      FlattenBlocksOrdered(ss, i, j);
    }
    assert Flatten(ss)[u] == ss[i][a];
    assert Flatten(ss)[v] == ss[j][b];
  }

  /** `k` is the first position of `x` in `s`. */
  lemma IndexOfIs<T>(s: seq<T>, x: T, k: int)
    requires 0 <= k < |s| && s[k] == x && forall j :: 0 <= j < k ==> s[j] != x
    ensures IndexOf(s, x) == k
  {
  }

  /** The first position of `x` in `a + b`: within `a` if `a` holds `x`, otherwise shifted into `b`. */
  lemma IndexOfAppend<T>(a: seq<T>, b: seq<T>, x: T)
    requires x in a + b
    ensures x in a ==> IndexOf(a + b, x) == IndexOf(a, x)
    ensures x !in a ==> x in b && IndexOf(a + b, x) == |a| + IndexOf(b, x)
  {
    if x in a {
      IndexOfIs(a + b, x, IndexOf(a, x));
    } else {
      assert x in b by {
        var k :| 0 <= k < |a + b| && (a + b)[k] == x;
        if k < |a| {
          assert a[k] == x;
        } else {
          assert b[k - |a|] == x;
        }
      }
      var k := |a| + IndexOf(b, x);
      forall j | 0 <= j < k
        ensures (a + b)[j] != x
      {
        if j < |a| {
          assert a[j] in a;
        } else {
          assert (a + b)[j] == b[j - |a|];
        }
      }
      IndexOfIs(a + b, x, k);
    }
  }

  /** A distinct sequence has as many elements as its set of elements. */
  lemma {:induction false} DistinctCard<T>(s: seq<T>)
    requires Distinct(s)
    ensures |set x | x in s| == |s|
  {
    if s != [] {
      DistinctCard(s[1..]);
      assert (set x | x in s) == (set x | x in s[1..]) + {s[0]};
      assert s[0] !in s[1..];
    }
  }

  /**
    A distinct sequence holding exactly the elements of the distinct `s`, and
    placing each element of `s` before its successor in `s`, is `s` itself.
   */
  lemma ChainDetermines<T>(r: seq<T>, s: seq<T>)
    requires Distinct(r) && Distinct(s)
    requires forall x :: x in r <==> x in s
    requires forall i :: 0 <= i < |s| - 1 ==> Before(r, s[i], s[i + 1])
    ensures r == s
  {
    DistinctCard(r);
    DistinctCard(s);
    assert (set x | x in r) == (set x | x in s);
    forall i | 0 <= i < |s|
      ensures r[i] == s[i]
    {
      PosLower(r, s, i);
      PosUpper(r, s, i);
    }
  }

  /** Some position of `s[i]` in `r`. */
  ghost function PosIn<T>(r: seq<T>, s: seq<T>, i: int): (k: int)
    requires 0 <= i < |s| && s[i] in r
    ensures 0 <= k < |r| && r[k] == s[i]
  {
    var k :| 0 <= k < |r| && r[k] == s[i]; k
  }

  lemma {:induction false} PosLower<T>(r: seq<T>, s: seq<T>, i: int)
    requires 0 <= i < |s| && forall x :: x in s ==> x in r
    requires forall i :: 0 <= i < |s| - 1 ==> Before(r, s[i], s[i + 1])
    ensures i <= PosIn(r, s, i)
    decreases i
  {
    if i > 0 {
      PosLower(r, s, i - 1);
      assert Before(r, s[i - 1], s[i]);
    }
  }

  lemma {:induction false} PosUpper<T>(r: seq<T>, s: seq<T>, i: int)
    requires 0 <= i < |s| == |r| && forall x :: x in s ==> x in r
    requires forall i :: 0 <= i < |s| - 1 ==> Before(r, s[i], s[i + 1])
    ensures PosIn(r, s, i) <= i
    decreases |s| - i
  {
    if i < |s| - 1 {
      PosUpper(r, s, i + 1);
      assert Before(r, s[i], s[i + 1]);
    }
  }
}
