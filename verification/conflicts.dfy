/**
  Resource conflicts. Two registered packages collide when they map the same
  repository path, or when one maps a path strictly below a path of the
  other and the other's directory already holds that sub-path. A collision
  is allowed only if the override graph orders the two packages, directly
  or through other packages; otherwise the build fails before anything is
  written.
 */
module Conflicts {
  import opened Wrappers
  import opened PackageGraph
  import opened Loader
  import opened Reachability

  /**
    `sub` is `parent`'s path followed by "/" and a non-empty rest, and one of
    `parent`'s directories holds that rest. `contains` answers whether a
    directory holds a relative path; the filesystem is not part of this model.
   */
  predicate Below(parent: Resource, sub: string, contains: (Dir, string) -> bool)
  {
    var prefix := parent.path + "/";
    && |prefix| < |sub|
    && sub[..|prefix|] == prefix
    && exists d :: d in parent.dirs && contains(d, sub[|prefix|..])
  }

  ghost predicate Collide(ra: Resource, rb: Resource, contains: (Dir, string) -> bool)
  {
    ra.path == rb.path || Below(ra, rb.path, contains) || Below(rb, ra.path, contains)
  }

  /** The path two resources collide on: the common path, or the deeper one. */
  function CollisionPath(ra: Resource, rb: Resource, contains: (Dir, string) -> bool): (r: Option<string>)
    ensures r.Some? <==> Collide(ra, rb, contains)
    ensures r.Some? ==> (r.value == ra.path || r.value == rb.path)
    ensures r.Some? && ra.path != rb.path ==> (r.value == rb.path <==> Below(ra, rb.path, contains))
  {
    if ra.path == rb.path then Some(ra.path)
    else if Below(ra, rb.path, contains) then Some(rb.path)
    else if Below(rb, ra.path, contains) then
      assert !Below(ra, rb.path, contains);
      Some(ra.path)
    else None
  }

  /** The two packages are ordered by the graph, one way or the other. */
  predicate Related(g: Graph, a: Node, b: Node)
  {
    HasPath(g, a, b) || HasPath(g, b, a)
  }

  datatype Conflict = Conflict(first: Node, second: Node, path: string)

  /** `c` reports an unordered collision between `a` and `b`. */
  ghost predicate Witnesses(g: Graph, a: LoadedPackage, b: LoadedPackage, c: Conflict, contains: (Dir, string) -> bool)
  {
    && c.first == a.name && c.second == b.name
    && !Related(g, a.name, b.name)
    && exists ra, rb :: ra in a.resources && rb in b.resources && CollisionPath(ra, rb, contains) == Some(c.path)
  }

  /** The two packages collide somewhere and the graph does not order them. */
  ghost predicate Unresolved(g: Graph, a: LoadedPackage, b: LoadedPackage, contains: (Dir, string) -> bool)
  {
    && !Related(g, a.name, b.name)
    && exists ra, rb :: ra in a.resources && rb in b.resources && Collide(ra, rb, contains)
  }

  /** No two distinct packages of `ps` collide unordered. */
  ghost predicate ConflictFree(g: Graph, ps: seq<LoadedPackage>, contains: (Dir, string) -> bool)
  {
    forall i, j :: 0 <= i < j < |ps| ==> !Unresolved(g, ps[i], ps[j], contains)
  }

  /** The first path on which `ra` collides with one of `rbs`. */
  function FirstCollisionWith(ra: Resource, rbs: seq<Resource>, contains: (Dir, string) -> bool): (r: Option<string>)
    ensures r.None? <==> forall rb :: rb in rbs ==> !Collide(ra, rb, contains)
    ensures r.Some? ==> exists rb :: rb in rbs && CollisionPath(ra, rb, contains) == r
  {
    if rbs == [] then None
    else
      match CollisionPath(ra, rbs[0], contains)
      case Some(p) => Some(p)
      case None =>
        var r := FirstCollisionWith(ra, rbs[1..], contains);
        assert forall rb :: rb in rbs <==> rb == rbs[0] || rb in rbs[1..];
        r
  }

  /** The first collision between a resource of `ras` and one of `rbs`, in declaration order. */
  function FirstCollision(ras: seq<Resource>, rbs: seq<Resource>, contains: (Dir, string) -> bool): (r: Option<string>)
    ensures r.None? <==> forall ra, rb :: ra in ras && rb in rbs ==> !Collide(ra, rb, contains)
    ensures r.Some? ==> exists ra, rb :: ra in ras && rb in rbs && CollisionPath(ra, rb, contains) == r
  {
    if ras == [] then None
    else
      match FirstCollisionWith(ras[0], rbs, contains)
      case Some(p) => Some(p)
      case None =>
        var r := FirstCollision(ras[1..], rbs, contains);
        assert forall ra :: ra in ras <==> ra == ras[0] || ra in ras[1..];
        r
  }

  function PairConflict(g: Graph, a: LoadedPackage, b: LoadedPackage, contains: (Dir, string) -> bool): (r: Option<Conflict>)
    ensures r.None? <==> !Unresolved(g, a, b, contains)
    ensures r.Some? ==> Witnesses(g, a, b, r.value, contains)
  {
    if Related(g, a.name, b.name) then None
    else
      match FirstCollision(a.resources, b.resources, contains)
      case None => None
      case Some(p) => Some(Conflict(a.name, b.name, p))
  }

  /** `c` reports an unordered collision between two packages of `ps`, the first loaded before the second. */
  ghost predicate Reports(g: Graph, ps: seq<LoadedPackage>, c: Conflict, contains: (Dir, string) -> bool)
  {
    exists i, j :: 0 <= i < j < |ps| && Witnesses(g, ps[i], ps[j], c, contains)
  }

  /** The first package of `bs` that `a` conflicts with. */
  function ConflictWith(g: Graph, a: LoadedPackage, bs: seq<LoadedPackage>, contains: (Dir, string) -> bool): (r: Option<Conflict>)
    ensures r.None? <==> forall j :: 0 <= j < |bs| ==> !Unresolved(g, a, bs[j], contains)
    ensures r.Some? ==> exists j :: 0 <= j < |bs| && Witnesses(g, a, bs[j], r.value, contains)
  {
    if bs == [] then None
    else
      match PairConflict(g, a, bs[0], contains)
      case Some(c) => Some(c)
      case None =>
        var r := ConflictWith(g, a, bs[1..], contains);
        assert r.Some? ==> exists j :: 0 <= j < |bs| && Witnesses(g, a, bs[j], r.value, contains) by {
          if r.Some? {
            var j :| 0 <= j < |bs[1..]| && Witnesses(g, a, bs[1..][j], r.value, contains);
            assert bs[1..][j] == bs[j + 1];
          }
        }
        assert forall j :: 0 < j < |bs| ==> bs[j] == bs[1..][j - 1];
        r
  }

  /**
    The first conflict among the packages `ps`, pairs taken in load order, or
    None when every collision is ordered by the graph.
   */
  function FindConflict(g: Graph, ps: seq<LoadedPackage>, contains: (Dir, string) -> bool): (r: Option<Conflict>)
    ensures r.None? <==> ConflictFree(g, ps, contains)
    ensures r.Some? ==> Reports(g, ps, r.value, contains)
  {
    if ps == [] then None
    else
      ConflictFreeCons(g, ps, contains);
      match ConflictWith(g, ps[0], ps[1..], contains)
      case Some(c) =>
        WitnessFirst(g, ps, c, contains);
        Some(c)
      case None =>
        var r := FindConflict(g, ps[1..], contains);
        if r.Some? then
          WitnessLater(g, ps, r.value, contains);
          r
        else r
  }

  lemma ConflictFreeCons(g: Graph, ps: seq<LoadedPackage>, contains: (Dir, string) -> bool)
    requires |ps| > 0
    ensures ConflictFree(g, ps, contains) <==>
              (forall j :: 0 <= j < |ps[1..]| ==> !Unresolved(g, ps[0], ps[1..][j], contains))
              && ConflictFree(g, ps[1..], contains)
  {
    assert forall j :: 0 <= j < |ps[1..]| ==> ps[1..][j] == ps[j + 1];
    if (forall j :: 0 <= j < |ps[1..]| ==> !Unresolved(g, ps[0], ps[1..][j], contains)) && ConflictFree(g, ps[1..], contains) {
      forall i, j | 0 <= i < j < |ps|
        ensures !Unresolved(g, ps[i], ps[j], contains)
      {
        if i > 0 {
          assert ps[i] == ps[1..][i - 1] && ps[j] == ps[1..][j - 1];
        } else {
          assert ps[j] == ps[1..][j - 1];
        }
      }
    }
  }

  lemma WitnessFirst(g: Graph, ps: seq<LoadedPackage>, c: Conflict, contains: (Dir, string) -> bool)
    requires |ps| > 0 && exists j :: 0 <= j < |ps[1..]| && Witnesses(g, ps[0], ps[1..][j], c, contains)
    ensures Reports(g, ps, c, contains)
  {
    var j :| 0 <= j < |ps[1..]| && Witnesses(g, ps[0], ps[1..][j], c, contains);
    assert ps[1..][j] == ps[j + 1];
  }

  lemma WitnessLater(g: Graph, ps: seq<LoadedPackage>, c: Conflict, contains: (Dir, string) -> bool)
    requires |ps| > 0 && exists i, j :: 0 <= i < j < |ps[1..]| && Witnesses(g, ps[1..][i], ps[1..][j], c, contains)
    ensures Reports(g, ps, c, contains)
  {
    var i, j :| 0 <= i < j < |ps[1..]| && Witnesses(g, ps[1..][i], ps[1..][j], c, contains);
    assert ps[1..][i] == ps[i + 1] && ps[1..][j] == ps[j + 1];
  }
}
