/** `FileStorage`: named folders below a root, each at `root / name[:2] / name`. */
module Folders {
  import opened Wrappers
  import opened Paths
  import opened Fs

  /** What `create_folder` returns and the tree it leaves: the folder is made with its
      parents, an existing directory being fine, and its path is returned. */
  function FolderCreated(t: Tree, folder: Path): Effect<Path>
  {
    if MakeDirsError(t, folder, true).Some? then Effect(Err(MakeDirsError(t, folder, true).value), t)
    else Effect(Ok(folder), MakeDirsTree(t, folder))
  }

  /** After a successful creation the folder is a directory, and every entry that existed
      is still there. */
  lemma FolderCreatedExists(t: Tree, folder: Path)
    requires FolderCreated(t, folder).result.Ok?
    ensures var e := FolderCreated(t, folder);
            e.result.value == folder && IsDirIn(e.tree, folder) &&
            forall q :: q in t ==> q in e.tree && e.tree[q] == t[q]
  {
    MakeDirsMakesDir(t, folder, true);
    MakeDirsKeeps(t, folder);
  }

  /** Creating a folder again succeeds, returns the same path and changes nothing. */
  lemma FolderCreatedTwice(t: Tree, folder: Path)
    requires FolderCreated(t, folder).result.Ok?
    ensures var t' := FolderCreated(t, folder).tree;
            FolderCreated(t', folder) == Effect(Ok(folder), t')
  {
    MakeDirsRepeat(t, folder);
  }

  class FileStorage {
    const root: Path
    const fs: FileSystem

    constructor (root: Path, fs: FileSystem)
      ensures this.root == root && this.fs == fs
    {
      this.root := root;
      this.fs := fs;
    }

    /** `get_path_to_folder(foldername)`. The `lru_cache` in front of it only remembers
        the results of a function of its argument, so it is left out. */
    function GetPathToFolder(foldername: string): (p: Path)
      ensures PlainName(foldername) ==> |p| >= 1 && p[|p| - 1] == foldername
      ensures PlainName(foldername) && PlainName(Shard(foldername)) ==>
                p == root + [Shard(foldername), foldername]
    {
      ShardedPath(root, foldername)
    }

    /** `is_exists(foldername)`: something, directory or file, is at the folder's path. */
    predicate IsExists(foldername: string)
      reads fs
    {
      PathExists(fs.entries, GetPathToFolder(foldername))
    }

    /** `create_folder(foldername)`; `generated` stands for the fresh name
        `_gen_foldername()` draws when none is given. */
    method CreateFolder(foldername: Option<string>, generated: string) returns (r: Result<Path, Error>)
      modifies fs
      ensures var e := FolderCreated(old(fs.entries),
                                     GetPathToFolder(if foldername.Some? then foldername.value else generated));
              r == e.result && fs.entries == e.tree
      ensures r.Ok? ==> IsExists(if foldername.Some? then foldername.value else generated)
    {
      var name := if foldername.Some? then foldername.value else generated;
      var pathToFolder := GetPathToFolder(name);
      var err := fs.MakeDirs(pathToFolder, true);
      if err.Some? {
        return Err(err.value);
      }
      FolderCreatedExists(old(fs.entries), pathToFolder);
      return Ok(pathToFolder);
    }

    /** `remove_folder(foldername)`: an existing folder is removed with everything in it;
        `rmtree` swallows every error. */
    method RemoveFolder(foldername: string)
      modifies fs
      ensures fs.entries == if PathExists(old(fs.entries), GetPathToFolder(foldername))
                            then RemovedTree(old(fs.entries), GetPathToFolder(foldername))
                            else old(fs.entries)
    {
      if !IsExists(foldername) {
        return;
      }
      fs.RemoveTree(GetPathToFolder(foldername));
    }
  }
}
