/** The on-disk layout the storages share: every entity lives in its own sharded folder
    `root / name[:2] / name`, and a study keeps its captures in a `captures` folder inside
    it. Creating a study's folder makes the folder with its parents, then `captures`. */
module Layout {
  import opened Wrappers
  import opened Paths
  import opened Fs

  /** `_CAPTURES_FOLDER`, the same in both storages. */
  const CapturesFolder: string := "captures"

  /** `folder.joinpath('captures')`, see `CapturesJoin`. */
  function CapturesOf(folder: Path): Path
  {
    folder + [CapturesFolder]
  }

  lemma CapturesJoin(folder: Path)
    ensures JoinPath(folder, CapturesFolder) == CapturesOf(folder)
    ensures Parent(CapturesOf(folder)) == folder
  {
    assert CapturesFolder[0] == 'c';
  }

  /** The prefixes `makedirs` adds on the way to `p` are no longer than `p`. */
  lemma PrefixesNoLonger(p: Path, k: nat)
    ensures forall q :: q in PrefixesAbove(p, k) ==> |q| <= |p|
  {
  }

  /** The first two steps of `create_empty_research` and all of `create_empty_ct`:
      `folder.mkdir(parents=True, exist_ok=True)`, then `(folder / 'captures').mkdir()`
      without `exist_ok`; `name` is what is returned on success. */
  function CapturesMade(t: Tree, folder: Path, name: string): Effect<string>
  {
    if MakeDirsError(t, folder, true).Some? then Effect(Err(MakeDirsError(t, folder, true).value), t)
    else
      var t1 := MakeDirsTree(t, folder);
      if MkdirError(t1, CapturesOf(folder)).Some? then
        Effect(Err(MkdirError(t1, CapturesOf(folder)).value), t1)
      else Effect(Ok(name), t1[CapturesOf(folder) := Dir])
  }

  /** On success the name is returned and the folder and its `captures` are
      directories. */
  lemma CapturesMadeDirs(t: Tree, folder: Path, name: string)
    requires CapturesMade(t, folder, name).result.Ok?
    ensures var e := CapturesMade(t, folder, name);
            e.result.value == name &&
            IsDirIn(e.tree, folder) && IsDirIn(e.tree, CapturesOf(folder))
  {
    MakeDirsMakesDir(t, folder, true);
    var t1 := MakeDirsTree(t, folder);
    assert IsDirIn(t1[CapturesOf(folder) := Dir], folder);
  }

  /** Success needs `captures` to be absent, and then `captures` holds exactly the
      entries that were already below its path. */
  lemma CapturesMadeFresh(t: Tree, folder: Path, name: string)
    requires CapturesMade(t, folder, name).result.Ok?
    ensures !PathExists(t, CapturesOf(folder))
    ensures Children(CapturesMade(t, folder, name).tree, CapturesOf(folder))
            == Children(t, CapturesOf(folder))
  {
    var captures := CapturesOf(folder);
    var k := NearestExisting(t, folder);
    MakeDirsKeeps(t, folder);
    PrefixesNoLonger(folder, k);
    var t1 := MakeDirsTree(t, folder);
    assert !PathExists(t1, captures);
    forall q ensures q in Children(t1[captures := Dir], captures) <==> q in Children(t, captures) {
      assert q in PrefixesAbove(folder, k) ==> |q| <= |folder|;
    }
  }

  /** Every entry that existed keeps its node, and the only entries added besides
      `captures` are the folder and its missing parents, none longer than the folder. */
  lemma CapturesMadeKeeps(t: Tree, folder: Path, name: string)
    ensures var e := CapturesMade(t, folder, name);
            forall q :: q in t ==> q in e.tree && e.tree[q] == t[q]
    ensures var e := CapturesMade(t, folder, name);
            forall q :: q in e.tree && q !in t ==> q == CapturesOf(folder) || |q| <= |folder|
  {
    var k := NearestExisting(t, folder);
    MakeDirsKeeps(t, folder);
    PrefixesNoLonger(folder, k);
  }

  /** In a well-formed tree a successful creation leaves `captures` empty. */
  lemma CapturesMadeEmpty(t: Tree, folder: Path, name: string)
    requires WellFormed(t) && CapturesMade(t, folder, name).result.Ok?
    ensures Children(CapturesMade(t, folder, name).tree, CapturesOf(folder)) == {}
  {
    CapturesMadeFresh(t, folder, name);
    AbsentHasNoChildren(t, CapturesOf(folder));
  }

  /** An existing `captures` in an existing folder makes creation fail with
      `FileExistsError`, leaving the tree as it was. */
  lemma CapturesMadeFailsIfPresent(t: Tree, folder: Path, name: string)
    requires IsDirIn(t, folder) && PathExists(t, CapturesOf(folder))
    ensures CapturesMade(t, folder, name) == Effect(Err(FileExistsError), t)
  {
    assert folder[..|folder|] == folder;
    assert NearestExisting(t, folder) == |folder|;
    assert PrefixesAbove(folder, |folder|) == {};
    assert MakeDirsTree(t, folder) == t;
    CapturesJoin(folder);
  }

  /** Creating the same folder twice fails the second time. */
  lemma CapturesMadeTwiceFails(t: Tree, folder: Path, name: string)
    requires CapturesMade(t, folder, name).result.Ok?
    ensures var t' := CapturesMade(t, folder, name).tree;
            CapturesMade(t', folder, name) == Effect(Err(FileExistsError), t')
  {
    CapturesMadeDirs(t, folder, name);
    CapturesMadeFailsIfPresent(CapturesMade(t, folder, name).tree, folder, name);
  }

  /** Removing one entity's folder leaves every entry of another entity's folder
      untouched, provided both names and their shards are plain names. */
  lemma RemovalKeepsOthers(t: Tree, root: Path, a: string, b: string, q: Path)
    requires PlainName(a) && PlainName(b) && PlainName(Shard(a)) && PlainName(Shard(b))
    requires a != b && q in t && ShardedPath(root, b) <= q
    ensures var t' := RemovedTree(t, ShardedPath(root, a));
            q in t' && t'[q] == t[q]
  {
    var pa, pb := ShardedPath(root, a), ShardedPath(root, b);
    assert |pa| == |pb| && pa[|pa| - 1] != pb[|pb| - 1];
    assert !(pa <= q);
  }
}
