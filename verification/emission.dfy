/**
  The calls the repository builder makes on the repository: one "add" per
  mapped directory, package by package, and one "tag" per distinct tagged
  path. Each call is kept together with the package it is made for.
 */
module Emission {
  import opened Wrappers
  import opened Seqs
  import opened Reachability
  import opened LexOrder
  import opened Loader
  import opened ResourceSort

  datatype Call = Add(path: string, dir: Dir) | Tag(path: string, tag: string)

  /** A call and the package it is made for. */
  datatype Step = Step(owner: Node, call: Call)

  function Calls(steps: seq<Step>): (r: seq<Call>)
    ensures |r| == |steps| && forall i :: 0 <= i < |steps| ==> r[i] == steps[i].call
  {
    seq(|steps|, i requires 0 <= i < |steps| => steps[i].call)
  }

  /** `p` maps `dir` to `path`. */
  ghost predicate Declares(p: LoadedPackage, path: string, dir: Dir)
  {
    exists r :: r in p.resources && r.path == path && dir in r.dirs
  }

  // ---------------------------------------------------------------------
  // The adds of one package
  // ---------------------------------------------------------------------

  function DirAdds(owner: Node, res: Resource): (r: seq<Step>)
    ensures |r| == |res.dirs| && forall k :: 0 <= k < |r| ==> r[k] == Step(owner, Add(res.path, res.dirs[k]))
  {
    seq(|res.dirs|, k requires 0 <= k < |res.dirs| => Step(owner, Add(res.path, res.dirs[k])))
  }

  function ResourceAdds(owner: Node, rs: seq<Resource>): seq<Step>
  {
    if rs == [] then [] else DirAdds(owner, rs[0]) + ResourceAdds(owner, rs[1..])
  }

  /** The adds of a package: its paths in lexicographic order, each path's directories in declaration order. */
  function PackageAdds(p: LoadedPackage): seq<Step>
  {
    ResourceAdds(p.name, SortByPath(p.resources))
  }

  lemma {:induction false} ResourceAddsMembers(owner: Node, rs: seq<Resource>)
    ensures forall s :: s in ResourceAdds(owner, rs) <==>
              s.owner == owner && s.call.Add? && exists r :: r in rs && r.path == s.call.path && s.call.dir in r.dirs
  {
    if rs != [] {
      ResourceAddsMembers(owner, rs[1..]);
      var block := DirAdds(owner, rs[0]);
      forall s: Step | s.owner == owner && s.call.Add? && s.call.path == rs[0].path && s.call.dir in rs[0].dirs
        ensures s in block
      {
        var k :| 0 <= k < |rs[0].dirs| && rs[0].dirs[k] == s.call.dir;
        assert block[k] == s;
      }
      assert forall r :: r in rs <==> r == rs[0] || r in rs[1..];
    }
  }

  /** A package's adds are exactly the directories it maps, each for the path it maps it to. */
  lemma PackageAddsMembers(p: LoadedPackage)
    ensures forall s :: s in PackageAdds(p) <==> s.owner == p.name && s.call.Add? && Declares(p, s.call.path, s.call.dir)
  {
    var sorted := SortByPath(p.resources);
    ResourceAddsMembers(p.name, sorted);
    assert forall r :: r in sorted <==> r in p.resources by {
      assert forall r :: r in sorted <==> r in multiset(sorted);
      assert forall r :: r in p.resources <==> r in multiset(p.resources);
    }
  }

  lemma {:induction false} ResourceAddsSorted(owner: Node, rs: seq<Resource>)
    requires SortedByPath(rs)
    ensures forall i, j :: 0 <= i < j < |ResourceAdds(owner, rs)| ==>
              LexLeq(ResourceAdds(owner, rs)[i].call.path, ResourceAdds(owner, rs)[j].call.path)
  {
    if rs != [] {
      var block := DirAdds(owner, rs[0]);
      var rest := ResourceAdds(owner, rs[1..]);
      var all := block + rest;
      ResourceAddsSorted(owner, rs[1..]);
      ResourceAddsMembers(owner, rs[1..]);
      LexReflexive(rs[0].path);
      forall i, j | 0 <= i < j < |all|
        ensures LexLeq(all[i].call.path, all[j].call.path)
      {
        if j < |block| {
          assert all[i] == block[i] && all[j] == block[j];
        } else if i < |block| {
          assert all[j] == rest[j - |block|] && rest[j - |block|] in rest;
          var r :| r in rs[1..] && r.path == all[j].call.path && all[j].call.dir in r.dirs;
          var k :| 0 <= k < |rs[1..]| && rs[1..][k] == r;
          assert rs[k + 1] == r;
          assert all[i] == block[i];
        } else {
          assert all[i] == rest[i - |block|] && all[j] == rest[j - |block|];
        }
      }
    }
  }

  /** A package's adds come in lexicographic order of their paths. */
  lemma PackageAddsSorted(p: LoadedPackage)
    ensures forall i, j :: 0 <= i < j < |PackageAdds(p)| ==> LexLeq(PackageAdds(p)[i].call.path, PackageAdds(p)[j].call.path)
  {
    ResourceAddsSorted(p.name, SortByPath(p.resources));
  }

  /** The directories added for `path`, in the order of the adds. */
  function DirsAt(steps: seq<Step>, path: string): seq<Dir>
  {
    if steps == [] then []
    else (if steps[0].call.Add? && steps[0].call.path == path then [steps[0].call.dir] else [])
         + DirsAt(steps[1..], path)
  }

  lemma {:induction false} DirsAtAppend(a: seq<Step>, b: seq<Step>, path: string)
    ensures DirsAt(a + b, path) == DirsAt(a, path) + DirsAt(b, path)
  {
    if a != [] {
      assert (a + b)[1..] == a[1..] + b;
      DirsAtAppend(a[1..], b, path);
    } else {
      assert a + b == b;
    }
  }

  lemma {:induction false} DirsAtDirAdds(owner: Node, res: Resource, path: string)
    ensures DirsAt(DirAdds(owner, res), path) == if res.path == path then res.dirs else []
    decreases |res.dirs|
  {
    if res.dirs != [] {
      var tail := res.(dirs := res.dirs[1..]);
      var block := DirAdds(owner, res);
      assert block[1..] == DirAdds(owner, tail);
      DirsAtDirAdds(owner, tail, path);
      assert res.dirs == [res.dirs[0]] + tail.dirs;
    }
  }

  lemma {:induction false} DirsAtAbsent(owner: Node, rs: seq<Resource>, path: string)
    requires forall r :: r in rs ==> r.path != path
    ensures DirsAt(ResourceAdds(owner, rs), path) == []
  {
    if rs != [] {
      DirsAtAppend(DirAdds(owner, rs[0]), ResourceAdds(owner, rs[1..]), path);
      DirsAtDirAdds(owner, rs[0], path);
      DirsAtAbsent(owner, rs[1..], path);
    }
  }

  lemma {:induction false} DirsAtResourceAdds(owner: Node, rs: seq<Resource>, i: int)
    requires DistinctPaths(rs) && 0 <= i < |rs|
    ensures DirsAt(ResourceAdds(owner, rs), rs[i].path) == rs[i].dirs
  {
    var path := rs[i].path;
    DirsAtAppend(DirAdds(owner, rs[0]), ResourceAdds(owner, rs[1..]), path);
    DirsAtDirAdds(owner, rs[0], path);
    assert DistinctPaths(rs[1..]) by {
      forall a, b | 0 <= a < b < |rs[1..]|
        ensures rs[1..][a].path != rs[1..][b].path
      {
        assert rs[a + 1].path != rs[b + 1].path;
      }
    }
    if i == 0 {
      assert forall r :: r in rs[1..] ==> r.path != path by {
        forall r | r in rs[1..]
          ensures r.path != path
        {
          var k :| 0 <= k < |rs[1..]| && rs[1..][k] == r;
          assert rs[k + 1] == r;
        }
      }
      DirsAtAbsent(owner, rs[1..], path);
    } else {
      assert rs[0].path != path;
      assert rs[1..][i - 1] == rs[i];
      DirsAtResourceAdds(owner, rs[1..], i - 1);
    }
  }

  /** The adds for one declared path carry that path's directories, in declaration order. */
  lemma PackageDirsInOrder(p: LoadedPackage, res: Resource)
    requires DistinctPaths(p.resources) && res in p.resources
    ensures DirsAt(PackageAdds(p), res.path) == res.dirs
  {
    var sorted := SortByPath(p.resources);
    PermutationKeepsDistinctPaths(p.resources, sorted);
    assert res in multiset(sorted);
    var i :| 0 <= i < |sorted| && sorted[i] == res;
    DirsAtResourceAdds(p.name, sorted, i);
  }

  // ---------------------------------------------------------------------
  // The adds of all packages
  // ---------------------------------------------------------------------

  /** The first package of `ps` named `name`. */
  function PackageNamed(ps: seq<LoadedPackage>, name: Node): (r: Option<LoadedPackage>)
    ensures r.None? <==> forall p :: p in ps ==> p.name != name
    ensures r.Some? ==> r.value in ps && r.value.name == name
  {
    if ps == [] then None
    else if ps[0].name == name then Some(ps[0])
    else PackageNamed(ps[1..], name)
  }

  /** Among packages with distinct names, a package is the one named by its name. */
  lemma PackageNamedUnique(ps: seq<LoadedPackage>, p: LoadedPackage)
    requires p in ps
    requires forall i, j :: 0 <= i < j < |ps| ==> ps[i].name != ps[j].name
    ensures PackageNamed(ps, p.name) == Some(p)
  {
    if ps[0] != p {
      assert p in ps[1..];
      var k :| 0 <= k < |ps| && ps[k] == p;
      assert ps[0].name != p.name;
      PackageNamedUnique(ps[1..], p);
    }
  }

  /** The adds of the package named `name`, if there is one. */
  function NamedAdds(ps: seq<LoadedPackage>, name: Node): seq<Step>
  {
    match PackageNamed(ps, name)
    case None => []
    case Some(p) => PackageAdds(p)
  }

  lemma {:induction false} ResourceAddsOwner(owner: Node, rs: seq<Resource>)
    ensures forall s :: s in ResourceAdds(owner, rs) ==> s.owner == owner && s.call.Add?
  {
    if rs != [] {
      ResourceAddsOwner(owner, rs[1..]);
    }
  }

  lemma NamedAddsOwner(ps: seq<LoadedPackage>, name: Node)
    ensures forall s :: s in NamedAdds(ps, name) ==> s.owner == name && s.call.Add?
  {
    if PackageNamed(ps, name).Some? {
      ResourceAddsOwner(name, SortByPath(PackageNamed(ps, name).value.resources));
    }
  }

  /** The adds of the packages named in `order`, package after package. */
  function AddSteps(order: seq<Node>, ps: seq<LoadedPackage>): seq<Step>
  {
    if order == [] then [] else NamedAdds(ps, order[0]) + AddSteps(order[1..], ps)
  }

  lemma {:induction false} AddStepsOwners(order: seq<Node>, ps: seq<LoadedPackage>)
    ensures forall s :: s in AddSteps(order, ps) ==> s.owner in order && s.call.Add?
  {
    if order != [] {
      AddStepsOwners(order[1..], ps);
      NamedAddsOwner(ps, order[0]);
      assert forall n :: n in order[1..] ==> n in order;
    }
  }

  lemma {:induction false} AddStepsMembers(order: seq<Node>, ps: seq<LoadedPackage>)
    ensures forall s :: s in AddSteps(order, ps) <==>
              s.owner in order && s.call.Add? && PackageNamed(ps, s.owner).Some?
              && Declares(PackageNamed(ps, s.owner).value, s.call.path, s.call.dir)
  {
    if order != [] {
      AddStepsMembers(order[1..], ps);
      var named := PackageNamed(ps, order[0]);
      if named.Some? {
        PackageAddsMembers(named.value);
      }
      assert forall n :: n in order <==> n == order[0] || n in order[1..];
    }
  }

  /** The adds of `steps` made for `owner`, in order. */
  function AddsFor(steps: seq<Step>, owner: Node): seq<Step>
  {
    if steps == [] then []
    else (if steps[0].owner == owner && steps[0].call.Add? then [steps[0]] else []) + AddsFor(steps[1..], owner)
  }

  lemma {:induction false} AddsForAppend(a: seq<Step>, b: seq<Step>, owner: Node)
    ensures AddsFor(a + b, owner) == AddsFor(a, owner) + AddsFor(b, owner)
  {
    if a != [] {
      assert (a + b)[1..] == a[1..] + b;
      AddsForAppend(a[1..], b, owner);
    } else {
      assert a + b == b;
    }
  }

  lemma {:induction false} AddsForAll(steps: seq<Step>, owner: Node)
    requires forall s :: s in steps ==> s.owner == owner && s.call.Add?
    ensures AddsFor(steps, owner) == steps
  {
    if steps != [] {
      AddsForAll(steps[1..], owner);
    }
  }

  lemma {:induction false} AddsForNone(steps: seq<Step>, owner: Node)
    requires forall s :: s in steps ==> s.owner != owner || !s.call.Add?
    ensures AddsFor(steps, owner) == []
  {
    if steps != [] {
      AddsForNone(steps[1..], owner);
    }
  }

  /** Within the adds of all packages, those made for one package are that package's adds, in their order. */
  lemma {:induction false} AddStepsAddsFor(order: seq<Node>, ps: seq<LoadedPackage>, k: int)
    requires Distinct(order) && 0 <= k < |order|
    ensures AddsFor(AddSteps(order, ps), order[k]) == NamedAdds(ps, order[k])
  {
    var here := NamedAdds(ps, order[0]);
    var rest := AddSteps(order[1..], ps);
    AddsForAppend(here, rest, order[k]);
    NamedAddsOwner(ps, order[0]);
    AddStepsOwners(order[1..], ps);
    if k == 0 {
      AddsForAll(here, order[0]);
      assert order[0] !in order[1..];
      AddsForNone(rest, order[0]);
    } else {
      assert order[k] != order[0];
      AddsForNone(here, order[k]);
      assert order[1..][k - 1] == order[k];
      DistinctTail(order);
      AddStepsAddsFor(order[1..], ps, k - 1);
    }
  }

  lemma DistinctTail<T>(s: seq<T>)
    requires Distinct(s) && |s| > 0
    ensures Distinct(s[1..]) && s[0] !in s[1..]
  {
    forall a, b | 0 <= a < b < |s[1..]|
      ensures s[1..][a] != s[1..][b]
    {
      assert s[a + 1] != s[b + 1];
    }
  }

  /** A step of `here + rest` whose owner does not own `here` lies in `rest`. */
  lemma OwnedPrefix(here: seq<Step>, rest: seq<Step>, o: Node, k: int)
    requires forall s :: s in here ==> s.owner == o
    requires 0 <= k < |here + rest| && (here + rest)[k].owner != o
    ensures |here| <= k && (here + rest)[k] == rest[k - |here|]
  {
  }

  /** The adds of the packages named in `order`, one block per name. */
  function Blocks(order: seq<Node>, ps: seq<LoadedPackage>): (r: seq<seq<Step>>)
    ensures |r| == |order| && forall k :: 0 <= k < |order| ==> r[k] == NamedAdds(ps, order[k])
  {
    seq(|order|, k requires 0 <= k < |order| => NamedAdds(ps, order[k]))
  }

  lemma {:induction false} AddStepsBlocks(order: seq<Node>, ps: seq<LoadedPackage>)
    ensures AddSteps(order, ps) == Flatten(Blocks(order, ps))
    decreases |order|
  {
    if order != [] {
      assert Blocks(order, ps)[1..] == Blocks(order[1..], ps);
      AddStepsBlocks(order[1..], ps);
    }
  }

  /** Every step of block k is owned by `order[k]`. */
  ghost predicate OwnedBlocks(order: seq<Node>, blocks: seq<seq<Step>>)
  {
    |blocks| == |order| && forall k, s :: 0 <= k < |blocks| && s in blocks[k] ==> s.owner == order[k]
  }

  lemma OwnedBlocksTail(order: seq<Node>, blocks: seq<seq<Step>>)
    requires OwnedBlocks(order, blocks) && |order| > 0
    ensures OwnedBlocks(order[1..], blocks[1..])
    ensures forall s :: s in blocks[0] ==> s.owner == order[0]
  {
    forall k, s | 0 <= k < |blocks[1..]| && s in blocks[1..][k]
      ensures s.owner == order[1..][k]
    {
      assert blocks[1..][k] == blocks[k + 1];
    }
  }

  lemma {:induction false} FlattenOwner(order: seq<Node>, blocks: seq<seq<Step>>, k: int)
    requires OwnedBlocks(order, blocks) && 0 <= k < |Flatten(blocks)|
    ensures Flatten(blocks)[k].owner in order
    decreases |order|
  {
    var here := blocks[0];
    var rest := Flatten(blocks[1..]);
    assert Flatten(blocks) == here + rest;
    OwnedBlocksTail(order, blocks);
    if k < |here| {
      assert here[k] in here;
    } else {
      FlattenOwner(order[1..], blocks[1..], k - |here|);
    }
  }

  /** In the concatenation of owned blocks, the steps of an earlier owner precede those of a later one. */
  lemma {:induction false} BlocksFollowOrder(order: seq<Node>, blocks: seq<seq<Step>>, i: int, j: int, a: int, b: int)
    requires Distinct(order) && OwnedBlocks(order, blocks)
    requires 0 <= i < |Flatten(blocks)| && 0 <= j < |Flatten(blocks)|
    requires 0 <= a < b < |order|
    requires Flatten(blocks)[i].owner == order[a] && Flatten(blocks)[j].owner == order[b]
    ensures i < j
    decreases |order|
  {
    var here := blocks[0];
    var rest := Flatten(blocks[1..]);
    var tail := order[1..];
    assert Flatten(blocks) == here + rest;
    OwnedBlocksTail(order, blocks);
    DistinctTail(order);
    assert order[b] == tail[b - 1];
    OwnedPrefix(here, rest, order[0], j);
    if i >= |here| {
      var i', j' := i - |here|, j - |here|;
      FlattenOwner(tail, blocks[1..], i');
      assert a > 0;
      assert tail[a - 1] == order[a];
      BlocksFollowOrder(tail, blocks[1..], i', j', a - 1, b - 1);
    }
  }

  /** Adds are made package after package in `order`: every add for an earlier package precedes every add for a later one. */
  lemma AddStepsFollowOrder(order: seq<Node>, ps: seq<LoadedPackage>, i: int, j: int, a: int, b: int)
    requires Distinct(order)
    requires 0 <= i < |AddSteps(order, ps)| && 0 <= j < |AddSteps(order, ps)|
    requires 0 <= a < b < |order|
    requires AddSteps(order, ps)[i].owner == order[a] && AddSteps(order, ps)[j].owner == order[b]
    ensures i < j
  {
    var blocks := Blocks(order, ps);
    AddStepsBlocks(order, ps);
    forall k | 0 <= k < |blocks|
      ensures forall s: Step :: s in blocks[k] ==> s.owner == order[k]
    {
      NamedAddsOwner(ps, order[k]);
    }
    BlocksFollowOrder(order, blocks, i, j, a, b);
  }

  // ---------------------------------------------------------------------
  // Tags
  // ---------------------------------------------------------------------

  function TagStepsOf(p: LoadedPackage): (r: seq<Step>)
    ensures |r| == |p.tags| && forall k :: 0 <= k < |r| ==> r[k] == Step(p.name, Tag(p.tags[k].path, p.tags[k].tag))
  {
    seq(|p.tags|, k requires 0 <= k < |p.tags| => Step(p.name, Tag(p.tags[k].path, p.tags[k].tag)))
  }

  /** The tags of all packages of `ps`, package after package, duplicates included. */
  function AllTagSteps(ps: seq<LoadedPackage>): seq<Step>
  {
    if ps == [] then [] else TagStepsOf(ps[0]) + AllTagSteps(ps[1..])
  }

  lemma {:induction false} AllTagStepsMembers(ps: seq<LoadedPackage>)
    ensures forall c :: c in Calls(AllTagSteps(ps)) <==>
              c.Tag? && exists p :: p in ps && TagDecl(c.path, c.tag) in p.tags
    ensures forall s :: s in AllTagSteps(ps) ==> s.call.Tag?
  {
    if ps != [] {
      AllTagStepsMembers(ps[1..]);
      var here := TagStepsOf(ps[0]);
      var rest := AllTagSteps(ps[1..]);
      assert Calls(here + rest) == Calls(here) + Calls(rest);
      forall c: Call | c.Tag? && TagDecl(c.path, c.tag) in ps[0].tags
        ensures c in Calls(here)
      {
        var k :| 0 <= k < |ps[0].tags| && ps[0].tags[k] == TagDecl(c.path, c.tag);
        assert Calls(here)[k] == c;
      }
      forall c | c in Calls(here)
        ensures c.Tag? && TagDecl(c.path, c.tag) in ps[0].tags
      {
        var k :| 0 <= k < |here| && Calls(here)[k] == c;
        assert ps[0].tags[k] in ps[0].tags;
      }
      assert forall p :: p in ps <==> p == ps[0] || p in ps[1..];
    }
  }

  /** The first tag call for a declared tag sits where the tag is first declared. */
  lemma TagCallPosition(p: LoadedPackage, t: TagDecl)
    requires t in p.tags
    ensures Tag(t.path, t.tag) in Calls(TagStepsOf(p))
    ensures IndexOf(Calls(TagStepsOf(p)), Tag(t.path, t.tag)) == IndexOf(p.tags, t)
  {
    var cs := Calls(TagStepsOf(p));
    var k := IndexOf(p.tags, t);
    assert cs[k] == Tag(t.path, t.tag);
    forall j | 0 <= j < k
      ensures cs[j] != Tag(t.path, t.tag)
    {
      assert p.tags[j] != t;
    }
    IndexOfIs(cs, Tag(t.path, t.tag), k);
  }

  lemma UndeclaredTagAbsent(p: LoadedPackage, t: TagDecl)
    requires t !in p.tags
    ensures Tag(t.path, t.tag) !in Calls(TagStepsOf(p))
  {
  }

  /**
    A tag `p` declares first before a tag only `p` declares comes first
    before it in the tags of all packages.
   */
  lemma {:induction false} AllTagStepsOwnOrder(ps: seq<LoadedPackage>, p: LoadedPackage, t1: TagDecl, t2: TagDecl)
    requires p in ps && t1 in p.tags && t2 in p.tags && IndexOf(p.tags, t1) < IndexOf(p.tags, t2)
    requires forall q :: q in ps && t2 in q.tags ==> q == p
    ensures Tag(t1.path, t1.tag) in Calls(AllTagSteps(ps)) && Tag(t2.path, t2.tag) in Calls(AllTagSteps(ps))
    ensures IndexOf(Calls(AllTagSteps(ps)), Tag(t1.path, t1.tag)) < IndexOf(Calls(AllTagSteps(ps)), Tag(t2.path, t2.tag))
    decreases |ps|
  {
    var c1 := Tag(t1.path, t1.tag);
    var c2 := Tag(t2.path, t2.tag);
    var here := Calls(TagStepsOf(ps[0]));
    var rest := Calls(AllTagSteps(ps[1..]));
    assert Calls(AllTagSteps(ps)) == here + rest;
    if ps[0] == p {
      TagCallPosition(p, t1);
      TagCallPosition(p, t2);
      IndexOfAppend(here, rest, c1);
      IndexOfAppend(here, rest, c2);
    } else {
      assert p in ps[1..];
      UndeclaredTagAbsent(ps[0], t2);
      AllTagStepsOwnOrder(ps[1..], p, t1, t2);
      IndexOfAppend(here, rest, c1);
      IndexOfAppend(here, rest, c2);
    }
  }

  /** Keeps the first step for each call, dropping calls in `seen`. */
  function DedupCalls(steps: seq<Step>, seen: set<Call>): seq<Step>
  {
    if steps == [] then []
    else if steps[0].call in seen then DedupCalls(steps[1..], seen)
    else [steps[0]] + DedupCalls(steps[1..], seen + {steps[0].call})
  }

  lemma {:induction false} DedupKeeps(steps: seq<Step>, seen: set<Call>)
    ensures forall s :: s in DedupCalls(steps, seen) ==> s in steps
    decreases |steps|
  {
    if steps != [] {
      if steps[0].call in seen {
        DedupKeeps(steps[1..], seen);
      } else {
        DedupKeeps(steps[1..], seen + {steps[0].call});
      }
    }
  }

  lemma {:induction false} DedupMembers(steps: seq<Step>, seen: set<Call>)
    ensures forall c :: c in Calls(DedupCalls(steps, seen)) <==> c in Calls(steps) && c !in seen
    decreases |steps|
  {
    if steps != [] {
      var cs := Calls(steps);
      assert Calls(steps[1..]) == cs[1..];
      assert forall c :: c in cs <==> c == cs[0] || c in cs[1..];
      if steps[0].call in seen {
        DedupMembers(steps[1..], seen);
      } else {
        var seen' := seen + {steps[0].call};
        DedupMembers(steps[1..], seen');
        var rest := DedupCalls(steps[1..], seen');
        assert Calls([steps[0]] + rest) == [steps[0].call] + Calls(rest);
      }
    }
  }

  lemma {:induction false} DedupDistinct(steps: seq<Step>, seen: set<Call>)
    ensures Distinct(Calls(DedupCalls(steps, seen)))
    decreases |steps|
  {
    if steps != [] {
      if steps[0].call in seen {
        DedupDistinct(steps[1..], seen);
      } else {
        var seen' := seen + {steps[0].call};
        DedupDistinct(steps[1..], seen');
        DedupMembers(steps[1..], seen');
        var rest := DedupCalls(steps[1..], seen');
        var cr := Calls([steps[0]] + rest);
        assert cr == [steps[0].call] + Calls(rest);
        assert steps[0].call !in Calls(rest);
        forall a, b | 0 <= a < b < |cr|
          ensures cr[a] != cr[b]
        {
          assert cr[b] == Calls(rest)[b - 1];
          if a > 0 {
            assert cr[a] == Calls(rest)[a - 1];
          }
        }
      }
    }
  }

  /** The calls of `r` occur in `cs`, and in the order of their first occurrence there. */
  ghost predicate OrderedIn(cs: seq<Call>, r: seq<Step>)
  {
    && (forall s :: s in r ==> s.call in cs)
    && forall a, b :: 0 <= a < b < |r| ==> IndexOf(cs, r[a].call) < IndexOf(cs, r[b].call)
  }

  lemma CallsOf(r: seq<Step>)
    ensures forall s :: s in r ==> s.call in Calls(r)
  {
    forall s | s in r
      ensures s.call in Calls(r)
    {
      var k :| 0 <= k < |r| && r[k] == s;
      assert Calls(r)[k] == s.call;
    }
  }

  lemma ShiftOrdered(cs: seq<Call>, r: seq<Step>)
    requires |cs| > 0 && OrderedIn(cs[1..], r)
    requires forall s :: s in r ==> s.call != cs[0]
    ensures OrderedIn(cs, r)
  {
    forall s | s in r
      ensures s.call in cs && IndexOf(cs, s.call) == 1 + IndexOf(cs[1..], s.call)
    {
      IndexOfTail(cs, s.call);
    }
    forall a, b | 0 <= a < b < |r|
      ensures IndexOf(cs, r[a].call) < IndexOf(cs, r[b].call)
    {
      assert r[a] in r && r[b] in r;
    }
  }

  lemma ConsOrdered(cs: seq<Call>, x: Step, r: seq<Step>)
    requires |cs| > 0 && x.call == cs[0] && OrderedIn(cs, r)
    requires forall s :: s in r ==> s.call != cs[0]
    ensures OrderedIn(cs, [x] + r)
  {
    var xr := [x] + r;
    forall a, b | 0 <= a < b < |xr|
      ensures IndexOf(cs, xr[a].call) < IndexOf(cs, xr[b].call)
    {
      assert xr[b] == r[b - 1] && r[b - 1] in r;
      if a > 0 {
        assert xr[a] == r[a - 1];
      }
    }
  }

  lemma {:induction false} DedupOrder(steps: seq<Step>, seen: set<Call>)
    ensures OrderedIn(Calls(steps), DedupCalls(steps, seen))
    decreases |steps|
  {
    if steps != [] {
      var cs := Calls(steps);
      assert Calls(steps[1..]) == cs[1..];
      var seen' := if steps[0].call in seen then seen else seen + {steps[0].call};
      DedupOrder(steps[1..], seen');
      DedupMembers(steps[1..], seen');
      var rest := DedupCalls(steps[1..], seen');
      CallsOf(rest);
      assert forall s :: s in rest ==> s.call != cs[0];
      ShiftOrdered(cs, rest);
      if steps[0].call !in seen {
        assert DedupCalls(steps, seen) == [steps[0]] + rest;
        ConsOrdered(cs, steps[0], rest);
      }
    }
  }

  lemma DedupCallsSpec(steps: seq<Step>, seen: set<Call>)
    ensures forall s :: s in DedupCalls(steps, seen) ==> s in steps
    ensures forall c :: c in Calls(DedupCalls(steps, seen)) <==> c in Calls(steps) && c !in seen
    ensures Distinct(Calls(DedupCalls(steps, seen)))
    ensures forall a, b :: 0 <= a < b < |DedupCalls(steps, seen)| ==>
              IndexOf(Calls(steps), DedupCalls(steps, seen)[a].call) < IndexOf(Calls(steps), DedupCalls(steps, seen)[b].call)
  {
    DedupKeeps(steps, seen);
    DedupMembers(steps, seen);
    DedupDistinct(steps, seen);
    DedupOrder(steps, seen);
    var r := DedupCalls(steps, seen);
    forall a, b | 0 <= a < b < |r|
      ensures IndexOf(Calls(steps), r[a].call) < IndexOf(Calls(steps), r[b].call)
    {
    }
  }

  /** Removing repeated calls keeps the order of first occurrences. */
  lemma DedupKeepsFirstOrder(steps: seq<Step>, c1: Call, c2: Call)
    requires c1 in Calls(steps) && c2 in Calls(steps) && IndexOf(Calls(steps), c1) < IndexOf(Calls(steps), c2)
    ensures c1 in Calls(DedupCalls(steps, {})) && c2 in Calls(DedupCalls(steps, {}))
    ensures IndexOf(Calls(DedupCalls(steps, {})), c1) < IndexOf(Calls(DedupCalls(steps, {})), c2)
  {
    DedupCallsSpec(steps, {});
  }

  lemma IndexOfTail<T>(s: seq<T>, x: T)
    requires |s| > 0 && x in s[1..] && x != s[0]
    ensures IndexOf(s, x) == 1 + IndexOf(s[1..], x)
  {
  }

  /** The distinct tags of the packages `ps`, in the order of their first declaration. */
  function TagSteps(ps: seq<LoadedPackage>): seq<Step>
  {
    DedupCalls(AllTagSteps(ps), {})
  }
}
