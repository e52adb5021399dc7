/**
  What loading decides for the whole build: which keys matter, and which
  error a build that cannot load reports.
 */
module LoaderProperties {
  import opened Wrappers
  import opened Seqs
  import opened Config
  import opened Loader
  import opened RepositoryBuilder
  import opened Plugin

  /** A package that is not the root loads the same with or without an override-order key. */
  lemma NonRootOverrideOrderIgnored(d: PackageDecl, exists_: Dir -> bool)
    requires !d.isRoot
    ensures LoadPackage(d, exists_) == LoadPackage(d.(extra := Without(d.extra, OverrideOrderKey)), exists_)
  {
    var d' := d.(extra := Without(d.extra, OverrideOrderKey));
    LookupWithout(d.extra, OverrideOrderKey, ResourcesKey);
    LookupWithout(d.extra, OverrideOrderKey, OverrideKey);
    LookupWithout(d.extra, OverrideOrderKey, ResourceTagsKey);
  }

  /**
    A package that cannot be loaded fails the whole build, before any call
    is made: the error is that of the first such package, and it names the
    malformed key or the missing directory of that package.
   */
  lemma LoadFailureFirst(decls: seq<PackageDecl>, exists_: Dir -> bool, contains: (Dir, string) -> bool, m: int)
    requires 0 <= m < |decls| && !Loadable(decls[m], exists_)
    ensures Build(decls, exists_, contains).Err?
    ensures exists k :: 0 <= k <= m && LoadPackage(decls[k], exists_) == Err(Build(decls, exists_, contains).error)
                        && Explains(decls[k], exists_, Build(decls, exists_, contains).error)
                        && forall j :: 0 <= j < k ==> Loadable(decls[j], exists_)
  {
    var e := LoadAll(decls, exists_).error;
    var k :| 0 <= k < |decls| && LoadPackage(decls[k], exists_) == Err(e)
             && forall j :: 0 <= j < k ==> Loadable(decls[j], exists_);
    assert k <= m;
  }

  /**
    The tags of resource-tags keep their declaration order: every tag of an
    entry comes before every tag of a later entry, and the tags listed for
    one path come in list order.
   */
  lemma TagEntriesOrder(es: seq<Entry>, i: int, a: int, j: int, b: int)
    requires TagEntries(es).Some?
    requires 0 <= i <= j < |es|
    requires 0 <= a < |StringOrList(es[i].value).value| && 0 <= b < |StringOrList(es[j].value).value|
    requires i < j || a < b
    ensures exists u, v :: 0 <= u < v < |TagEntries(es).value|
              && TagEntries(es).value[u] == TagDecl(es[i].key, StringOrList(es[i].value).value[a])
              && TagEntries(es).value[v] == TagDecl(es[j].key, StringOrList(es[j].value).value[b])
  {
    var blocks := TagBlocks(es);
    assert blocks[i][a] == TagDecl(es[i].key, StringOrList(es[i].value).value[a]);
    assert blocks[j][b] == TagDecl(es[j].key, StringOrList(es[j].value).value[b]);
    FlattenOrder(blocks, i, a, j, b);
  }

  // ---------------------------------------------------------------------
  // The validation cases of the builder tests
  // ---------------------------------------------------------------------

  /** A package without an extra section loads with nothing to add, override or tag. */
  lemma NoExtraLoadsEmpty(name: string, isRoot: bool, root: string, exists_: Dir -> bool)
    ensures LoadPackage(PackageDecl(name, isRoot, root, []), exists_) == Ok(LoadedPackage(name, [], [], [], []))
  {
  }

  /** resources given as a string is refused. */
  lemma ResourcesStringRefused(name: string, root: string, exists_: Dir -> bool)
    ensures LoadPackage(PackageDecl(name, false, root, [Entry(ResourcesKey, Str("foobar"))]), exists_)
              == Err(ResourceDefinition(ResourcesKey))
  {
  }

  /** resources given as an object is refused. */
  lemma ResourcesObjectRefused(name: string, root: string, exists_: Dir -> bool)
    ensures LoadPackage(PackageDecl(name, false, root, [Entry(ResourcesKey, Other)]), exists_)
              == Err(ResourceDefinition(ResourcesKey))
  {
  }

  /** override-order given as a string on the root package is refused. */
  lemma RootOverrideOrderStringRefused(name: string, root: string, exists_: Dir -> bool)
    ensures LoadPackage(PackageDecl(name, true, root, [Entry(OverrideOrderKey, Str("foobar"))]), exists_)
              == Err(ResourceDefinition(OverrideOrderKey))
  {
  }

  /** resource-tags given as a string is refused. */
  lemma TagsStringRefused(name: string, isRoot: bool, root: string, exists_: Dir -> bool)
    ensures LoadPackage(PackageDecl(name, isRoot, root, [Entry(ResourceTagsKey, Str("foobar"))]), exists_)
              == Err(ResourceDefinition(ResourceTagsKey))
  {
  }

  /** A declared directory that does not exist fails the load with that directory. */
  lemma MissingDirRefused(name: string, root: string, path: string, rel: string, exists_: Dir -> bool)
    requires !exists_(Dir(root, rel))
    ensures LoadPackage(PackageDecl(name, false, root, [Entry(ResourcesKey, Arr([Entry(path, Str(rel))]))]), exists_)
              == Err(Filesystem(Dir(root, rel)))
  {
  }
}
