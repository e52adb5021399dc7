/**
  Loading one package into the repository builder: its "extra" section is
  read and validated, and every declared resource directory is resolved
  against the package's install path.
 */
module Loader {
  import opened Wrappers
  import opened Config
  import opened Seqs
  import PackageGraph

  const ResourcesKey := "resources"
  const OverrideKey := "override"
  const OverrideOrderKey := "override-order"
  const ResourceTagsKey := "resource-tags"

  /** A directory of a package: its install path and the path relative to it. */
  datatype Dir = Dir(root: string, rel: string)

  /** A repository path and the directories mapped to it, in declaration order. */
  datatype Resource = Resource(path: string, dirs: seq<Dir>)

  datatype TagDecl = TagDecl(path: string, tag: string)

  /** A package as the package manager hands it over. */
  datatype PackageDecl = PackageDecl(name: string, isRoot: bool, installPath: string, extra: seq<Entry>)

  /** What the builder keeps of a loaded package. */
  datatype LoadedPackage = LoadedPackage(
    name: string,
    resources: seq<Resource>,
    overrides: seq<string>,
    overrideOrder: seq<string>,
    tags: seq<TagDecl>)

  datatype BuildError =
    | ResourceDefinition(key: string)
    | Filesystem(dir: Dir)
    | ResourceConflict(first: string, second: string, path: string)
    | GraphFailure(cause: PackageGraph.GraphError)

  function Dirs(root: string, rels: seq<string>): (r: seq<Dir>)
    ensures |r| == |rels| && forall i :: 0 <= i < |rels| ==> r[i] == Dir(root, rels[i])
  {
    seq(|rels|, i requires 0 <= i < |rels| => Dir(root, rels[i]))
  }

  /** The first directory of `dirs` that does not exist. */
  function FirstMissing(dirs: seq<Dir>, exists_: Dir -> bool): (r: Option<Dir>)
    ensures r.None? <==> forall d :: d in dirs ==> exists_(d)
    ensures r.Some? ==> r.value in dirs && !exists_(r.value)
  {
    if dirs == [] then None
    else if !exists_(dirs[0]) then Some(dirs[0])
    else FirstMissing(dirs[1..], exists_)
  }

  // ---------------------------------------------------------------------
  // What a loadable package looks like
  // ---------------------------------------------------------------------

  /** A resource entry maps its path to a directory or a list of directories, all existing. */
  ghost predicate EntryLoadable(root: string, e: Entry, exists_: Dir -> bool)
  {
    && StringOrList(e.value).Some?
    && forall rel :: rel in StringOrList(e.value).value ==> exists_(Dir(root, rel))
  }

  ghost predicate ResourcesLoadable(root: string, v: Option<Value>, exists_: Dir -> bool)
  {
    v.None? || (v.value.Arr? && forall i :: 0 <= i < |v.value.entries| ==> EntryLoadable(root, v.value.entries[i], exists_))
  }

  ghost predicate OverrideShaped(v: Option<Value>)
  {
    v.None? || StringOrList(v.value).Some?
  }

  ghost predicate OverrideOrderShaped(v: Option<Value>)
  {
    v.None? || (v.value.Arr? && Strings(v.value.entries).Some?)
  }

  ghost predicate TagsShaped(v: Option<Value>)
  {
    v.None? || (v.value.Arr? && forall i :: 0 <= i < |v.value.entries| ==> StringOrList(v.value.entries[i].value).Some?)
  }

  /** The package loads: every key it uses is well shaped (override-order is read for the root only) and every directory exists. */
  ghost predicate Loadable(d: PackageDecl, exists_: Dir -> bool)
  {
    && ResourcesLoadable(d.installPath, Lookup(d.extra, ResourcesKey), exists_)
    && OverrideShaped(Lookup(d.extra, OverrideKey))
    && (d.isRoot ==> OverrideOrderShaped(Lookup(d.extra, OverrideOrderKey)))
    && TagsShaped(Lookup(d.extra, ResourceTagsKey))
  }

  /** The error names the first malformed key in the order the keys are read, or a missing directory. */
  ghost predicate Explains(d: PackageDecl, exists_: Dir -> bool, err: BuildError)
  {
    match err
    case ResourceDefinition(key) =>
      if !ResourcesLoadable(d.installPath, Lookup(d.extra, ResourcesKey), exists_) then
        key == ResourcesKey
      else if !OverrideShaped(Lookup(d.extra, OverrideKey)) then
        key == OverrideKey
      else if d.isRoot && !OverrideOrderShaped(Lookup(d.extra, OverrideOrderKey)) then
        key == OverrideOrderKey
      else
        key == ResourceTagsKey && !TagsShaped(Lookup(d.extra, ResourceTagsKey))
    case Filesystem(dir) =>
      && dir.root == d.installPath
      && !exists_(dir)
      && DeclaresDir(Lookup(d.extra, ResourcesKey), dir.rel)
    case _ => false
  }

  /** `rel` is one of the directories the resources mapping names. */
  ghost predicate DeclaresDir(v: Option<Value>, rel: string)
  {
    && v.Some? && v.value.Arr?
    && exists i :: 0 <= i < |v.value.entries| && StringOrList(v.value.entries[i].value).Some?
                   && rel in StringOrList(v.value.entries[i].value).value
  }

  // ---------------------------------------------------------------------
  // Reading the keys
  // ---------------------------------------------------------------------

  /** The resources of a mapping from repository paths to directories, in declaration order. */
  function ParseResources(root: string, es: seq<Entry>, exists_: Dir -> bool): (r: Result<seq<Resource>, BuildError>)
    ensures r.Ok? <==> forall i :: 0 <= i < |es| ==> EntryLoadable(root, es[i], exists_)
    ensures r.Ok? ==> |r.value| == |es|
    ensures r.Ok? ==> forall i :: 0 <= i < |es| ==>
              r.value[i] == Resource(es[i].key, Dirs(root, StringOrList(es[i].value).value))
    ensures r.Err? && r.error.ResourceDefinition? ==>
              r.error.key == ResourcesKey && exists i :: 0 <= i < |es| && StringOrList(es[i].value).None?
    ensures r.Err? ==> r.error.ResourceDefinition? || r.error.Filesystem?
    ensures r.Err? && r.error.Filesystem? ==>
              && r.error.dir.root == root && !exists_(r.error.dir)
              && exists i :: 0 <= i < |es| && StringOrList(es[i].value).Some? && r.error.dir.rel in StringOrList(es[i].value).value
    ensures r.Ok? && UniqueKeys(es) ==> forall i, j :: 0 <= i < j < |r.value| ==> r.value[i].path != r.value[j].path
  {
    if es == [] then Ok([])
    else
      match StringOrList(es[0].value)
      case None => Err(ResourceDefinition(ResourcesKey))
      case Some(rels) =>
        var dirs := Dirs(root, rels);
        match FirstMissing(dirs, exists_)
        case Some(d) =>
          assert EntryLoadable(root, es[0], exists_) ==> exists_(d);
          Err(Filesystem(d))
        case None =>
          assert EntryLoadable(root, es[0], exists_) by {
            forall rel | rel in rels
              ensures exists_(Dir(root, rel))
            {
              var k :| 0 <= k < |rels| && rels[k] == rel;
              assert dirs[k] in dirs;
            }
          }
          match ParseResources(root, es[1..], exists_)
          case Err(e) => Err(e)
          case Ok(rest) => Ok([Resource(es[0].key, dirs)] + rest)
  }

  function LoadResources(root: string, v: Option<Value>, exists_: Dir -> bool): (r: Result<seq<Resource>, BuildError>)
    ensures r.Ok? <==> ResourcesLoadable(root, v, exists_)
    ensures v.None? ==> r == Ok([])
    ensures v.Some? && !v.value.Arr? ==> r == Err(ResourceDefinition(ResourcesKey))
    ensures v.Some? && v.value.Arr? ==> r == ParseResources(root, v.value.entries, exists_)
  {
    match v
    case None => Ok([])
    case Some(Arr(es)) => ParseResources(root, es, exists_)
    case Some(_) => Err(ResourceDefinition(ResourcesKey))
  }

  /** The names a package overrides: one name or a list of names. */
  function LoadOverride(v: Option<Value>): (r: Result<seq<string>, BuildError>)
    ensures r.Ok? <==> OverrideShaped(v)
    ensures r.Err? ==> r.error == ResourceDefinition(OverrideKey)
    ensures v.None? ==> r == Ok([])
    ensures v.Some? && r.Ok? ==> Some(r.value) == StringOrList(v.value)
  {
    match v
    case None => Ok([])
    case Some(x) =>
      match StringOrList(x)
      case None => Err(ResourceDefinition(OverrideKey))
      case Some(names) => Ok(names)
  }

  /** The root package's preferred order of packages: a list of names. */
  function LoadOverrideOrder(v: Option<Value>): (r: Result<seq<string>, BuildError>)
    ensures r.Ok? <==> OverrideOrderShaped(v)
    ensures r.Err? ==> r.error == ResourceDefinition(OverrideOrderKey)
    ensures v.None? ==> r == Ok([])
    ensures v.Some? && r.Ok? ==> Some(r.value) == Strings(v.value.entries)
  {
    match v
    case None => Ok([])
    case Some(Arr(es)) =>
      (match Strings(es)
       case None => Err(ResourceDefinition(OverrideOrderKey))
       case Some(names) => Ok(names))
    case Some(_) => Err(ResourceDefinition(OverrideOrderKey))
  }

  /** The tags one entry of resource-tags declares: its path with each listed tag, in list order. */
  function EntryTags(e: Entry): (r: seq<TagDecl>)
    ensures StringOrList(e.value).Some? ==>
              |r| == |StringOrList(e.value).value|
              && forall k :: 0 <= k < |r| ==> r[k] == TagDecl(e.key, StringOrList(e.value).value[k])
  {
    match StringOrList(e.value)
    case None => []
    case Some(tags) => seq(|tags|, k requires 0 <= k < |tags| => TagDecl(e.key, tags[k]))
  }

  /** The tags of each entry, entry by entry. */
  function TagBlocks(es: seq<Entry>): (r: seq<seq<TagDecl>>)
    ensures |r| == |es| && forall i :: 0 <= i < |es| ==> r[i] == EntryTags(es[i])
  {
    seq(|es|, i requires 0 <= i < |es| => EntryTags(es[i]))
  }

  lemma TagBlocksCons(es: seq<Entry>)
    requires |es| > 0
    ensures Flatten(TagBlocks(es)) == EntryTags(es[0]) + Flatten(TagBlocks(es[1..]))
  {
    assert TagBlocks(es)[1..] == TagBlocks(es[1..]);
  }

  lemma EntryTagsMembers(e: Entry)
    requires StringOrList(e.value).Some?
    ensures forall t :: t in EntryTags(e) <==> t.path == e.key && t.tag in StringOrList(e.value).value
  {
    var tags := StringOrList(e.value).value;
    forall t: TagDecl | t.path == e.key && t.tag in tags
      ensures t in EntryTags(e)
    {
      var k :| 0 <= k < |tags| && tags[k] == t.tag;
      assert EntryTags(e)[k] == t;
    }
  }

  /**
    The tags of a mapping from repository paths to a tag or a list of tags:
    entry after entry in declaration order, each entry's tags in list order.
   */
  function TagEntries(es: seq<Entry>): (r: Option<seq<TagDecl>>)
    ensures r.Some? <==> forall i :: 0 <= i < |es| ==> StringOrList(es[i].value).Some?
    ensures r.Some? ==> r.value == Flatten(TagBlocks(es))
    ensures r.Some? ==> forall t :: t in r.value <==>
              exists i :: 0 <= i < |es| && es[i].key == t.path && StringOrList(es[i].value).Some?
                          && t.tag in StringOrList(es[i].value).value
  {
    if es == [] then Some([])
    else
      match StringOrList(es[0].value)
      case None => None
      case Some(tags) =>
        match TagEntries(es[1..])
        case None => None
        case Some(rest) =>
          TagBlocksCons(es);
          EntryTagsMembers(es[0]);
          Some(EntryTags(es[0]) + rest)
  }

  function LoadTags(v: Option<Value>): (r: Result<seq<TagDecl>, BuildError>)
    ensures r.Ok? <==> TagsShaped(v)
    ensures r.Err? ==> r.error == ResourceDefinition(ResourceTagsKey)
    ensures v.None? ==> r == Ok([])
    ensures v.Some? && r.Ok? ==> Some(r.value) == TagEntries(v.value.entries)
  {
    match v
    case None => Ok([])
    case Some(Arr(es)) =>
      (match TagEntries(es)
       case None => Err(ResourceDefinition(ResourceTagsKey))
       case Some(tags) => Ok(tags))
    case Some(_) => Err(ResourceDefinition(ResourceTagsKey))
  }

  /**
    Loads a package. The keys are read in the order resources, override,
    override-order (root package only; any other package's is ignored) and
    resource-tags, and the first malformed one fails the load; a declared
    directory that does not exist fails it too.
   */
  function LoadPackage(d: PackageDecl, exists_: Dir -> bool): (r: Result<LoadedPackage, BuildError>)
    ensures r.Ok? <==> Loadable(d, exists_)
    ensures r.Err? ==> Explains(d, exists_, r.error)
    ensures r.Ok? ==> r.value.name == d.name
    ensures r.Ok? ==> Ok(r.value.resources) == LoadResources(d.installPath, Lookup(d.extra, ResourcesKey), exists_)
    ensures r.Ok? ==> Ok(r.value.overrides) == LoadOverride(Lookup(d.extra, OverrideKey))
    ensures r.Ok? && !d.isRoot ==> r.value.overrideOrder == []
    ensures r.Ok? && d.isRoot ==> Ok(r.value.overrideOrder) == LoadOverrideOrder(Lookup(d.extra, OverrideOrderKey))
    ensures r.Ok? ==> Ok(r.value.tags) == LoadTags(Lookup(d.extra, ResourceTagsKey))
    ensures r.Ok? && Lookup(d.extra, ResourcesKey).Some? && Lookup(d.extra, ResourcesKey).value.Arr?
              && UniqueKeys(Lookup(d.extra, ResourcesKey).value.entries) ==>
              forall i, j :: 0 <= i < j < |r.value.resources| ==> r.value.resources[i].path != r.value.resources[j].path
  {
    var resources := LoadResources(d.installPath, Lookup(d.extra, ResourcesKey), exists_);
    if resources.Err? then resources.PropagateFailure() else
    var overrides := LoadOverride(Lookup(d.extra, OverrideKey));
    if overrides.Err? then overrides.PropagateFailure() else
    var order := if d.isRoot then LoadOverrideOrder(Lookup(d.extra, OverrideOrderKey)) else Ok([]);
    if order.Err? then order.PropagateFailure() else
    var tags := LoadTags(Lookup(d.extra, ResourceTagsKey));
    if tags.Err? then tags.PropagateFailure() else
    Ok(LoadedPackage(d.name, resources.value, overrides.value, order.value, tags.value))
  }
}
