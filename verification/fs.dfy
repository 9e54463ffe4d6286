/** The filesystem the storages work on: a map from absolute paths to directories and
    files, the POSIX primitives the code calls (with the errors they raise), and a class
    holding the one mutable map that every storage operation updates. */
module Fs {
  import opened Wrappers
  import opened Paths

  newtype byte = x: int | 0 <= x < 256

  datatype Node = Dir | File(data: seq<byte>)

  /** Every entry below the root; the root `[]` itself always exists as a directory. */
  type Tree = map<Path, Node>

  /** The exceptions the modelled code can raise. */
  datatype Error =
    | FileExistsError
    | FileNotFoundError
    | NotADirectoryError
    | IsADirectoryError
    | UnboundLocalError  // a local read before any assignment to it
    | DecodeError        // an external codec rejected the bytes it was given
    | RuntimeError       // an encrypted archive member opened without a password
    | NotImplementedError  // an archive member stored with an unsupported compression method
    | BadZipFile         // an archive member whose CRC does not match its data
    | ZlibError          // an archive member whose deflate stream is corrupt

  function Parent(p: Path): Path
  {
    if p == [] then [] else p[..|p| - 1]
  }

  predicate PathExists(t: Tree, p: Path)
  {
    p == [] || p in t
  }

  predicate IsDirIn(t: Tree, p: Path)
  {
    p == [] || (p in t && t[p].Dir?)
  }

  predicate IsFileIn(t: Tree, p: Path)
  {
    p != [] && p in t && t[p].File?
  }

  /** What looking up a path that does not exist raises: resolution walks down from the
      root and stops at the deepest prefix that exists; when that prefix is a file the
      walk cannot go on (`ENOTDIR`, `NotADirectoryError`), otherwise the next component
      is missing (`ENOENT`, `FileNotFoundError`). */
  function MissingError(t: Tree, p: Path): Error
  {
    if IsDirIn(t, p[..NearestExisting(t, p)]) then FileNotFoundError else NotADirectoryError
  }

  /** Why `open(p, 'wb')` fails, if it does: the parent must be an existing directory
      and `p` must not be a directory. */
  function WriteError(t: Tree, p: Path): Option<Error>
  {
    if !PathExists(t, Parent(p)) then Some(MissingError(t, Parent(p)))
    else if !IsDirIn(t, Parent(p)) then Some(NotADirectoryError)
    else if IsDirIn(t, p) then Some(IsADirectoryError)
    else None
  }

  /** Why `os.mkdir(p)` fails, if it does. */
  function MkdirError(t: Tree, p: Path): Option<Error>
  {
    if !PathExists(t, Parent(p)) then Some(MissingError(t, Parent(p)))
    else if !IsDirIn(t, Parent(p)) then Some(NotADirectoryError)
    else if PathExists(t, p) then Some(FileExistsError)
    else None
  }

  /** The length of the longest prefix of `p` that exists, found by walking up from `p`
      as `os.makedirs` and `Path.mkdir(parents=True)` do. */
  function NearestExisting(t: Tree, p: Path): (k: nat)
    ensures k <= |p| && PathExists(t, p[..k])
    ensures forall i :: k < i <= |p| ==> !PathExists(t, p[..i])
    decreases |p|
  {
    assert p[..|p|] == p;
    if PathExists(t, p) then |p|
    else
      var up := p[..|p| - 1];
      var k := NearestExisting(t, up);
      assert forall i :: 0 <= i <= |up| ==> up[..i] == p[..i];
      k
  }

  /** The prefixes of `p` longer than `k` components. */
  function PrefixesAbove(p: Path, k: nat): set<Path>
  {
    set i | k < i <= |p| :: p[..i]
  }

  /** `t` with every prefix of `p` longer than `k` components made a directory. */
  function AddDirs(t: Tree, p: Path, k: nat): (r: Tree)
    requires k <= |p|
    ensures r.Keys == t.Keys + PrefixesAbove(p, k)
    ensures forall q :: q in PrefixesAbove(p, k) ==> r[q] == Dir
    ensures forall q :: q in t && q !in PrefixesAbove(p, k) ==> r[q] == t[q]
    decreases |p|
  {
    if |p| == k then
      assert PrefixesAbove(p, k) == {};
      t
    else
      var up := p[..|p| - 1];
      assert PrefixesAbove(p, k) == PrefixesAbove(up, k) + {p} by {
        assert forall i :: 0 <= i <= |up| ==> up[..i] == p[..i];
        assert p[..|p|] == p;
      }
      AddDirs(t, up, k)[p := Dir]
  }

  /** Why creating `p` with all missing parents fails, if it does (`os.makedirs(p)` when
      `existOk` is false, `Path(p).mkdir(parents=True, exist_ok=True)` when it is true):
      an existing `p` is an error unless allowed and a directory; otherwise the nearest
      existing ancestor must be a directory. */
  function MakeDirsError(t: Tree, p: Path, existOk: bool): Option<Error>
  {
    var k := NearestExisting(t, p);
    if k == |p| then (if existOk && IsDirIn(t, p) then None else Some(FileExistsError))
    else if !IsDirIn(t, p[..k]) then Some(NotADirectoryError)
    else None
  }

  /** The tree after a successful `makedirs(p)`: the missing prefixes become directories. */
  function MakeDirsTree(t: Tree, p: Path): Tree
  {
    AddDirs(t, p, NearestExisting(t, p))
  }

  /** `shutil.rmtree(p, ignore_errors=True)`: a directory goes with everything below it;
      on anything else every error is swallowed and nothing is removed. */
  function RemovedTree(t: Tree, p: Path): (r: Tree)
  {
    if IsDirIn(t, p) then map q | q in t && !(p <= q) :: t[q] else t
  }

  /** The entries directly inside `d`. */
  function Children(t: Tree, d: Path): set<Path>
  {
    set q | q in t && |q| == |d| + 1 && d <= q
  }

  /** `len(os.listdir(d))`. */
  function ListDirCount(t: Tree, d: Path): (r: Result<nat, Error>)
  {
    if !PathExists(t, d) then Err(MissingError(t, d))
    else if !IsDirIn(t, d) then Err(NotADirectoryError)
    else Ok(|Children(t, d)|)
  }

  /** Reading the whole file `p`. */
  function ReadFile(t: Tree, p: Path): (r: Result<seq<byte>, Error>)
  {
    if !PathExists(t, p) then Err(MissingError(t, p))
    else if IsDirIn(t, p) then Err(IsADirectoryError)
    else Ok(t[p].data)
  }

  /** What an operation on the filesystem returns, or raises, and the tree it leaves. */
  datatype Effect<T> = Effect(result: Result<T, Error>, tree: Tree)

  /** Reading the whole file `src`, converting its bytes with `convert` (`None` when the
      codec rejects them) and saving the result to `dst`, replacing whatever file was
      there. */
  function Converted(t: Tree, src: Path, dst: Path, convert: seq<byte> -> Option<seq<byte>>)
    : Effect<Path>
  {
    match ReadFile(t, src)
    case Err(e) => Effect(Err(e), t)
    case Ok(data) =>
      match convert(data)
      case None => Effect(Err(DecodeError), t)
      case Some(out) =>
        if WriteError(t, dst).Some? then Effect(Err(WriteError(t, dst).value), t)
        else Effect(Ok(dst), t[dst := File(out)])
  }

  /** Conversion succeeds exactly when the source reads, the codec accepts it and the
      target can be written; then the target holds the converted bytes and nothing else
      changes. Whenever it fails, the tree is left as it was. */
  lemma ConvertedSaves(t: Tree, src: Path, dst: Path, convert: seq<byte> -> Option<seq<byte>>)
    ensures var e := Converted(t, src, dst, convert);
            e.result.Ok? <==> (ReadFile(t, src).Ok? && convert(ReadFile(t, src).value).Some? &&
                               WriteError(t, dst).None?)
    ensures var e := Converted(t, src, dst, convert);
            e.result.Ok? ==>
              e.result.value == dst &&
              ReadFile(e.tree, dst) == Ok(convert(ReadFile(t, src).value).value) &&
              forall q :: q != dst ==> (q in e.tree <==> q in t) && (q in t ==> e.tree[q] == t[q])
    ensures var e := Converted(t, src, dst, convert);
            e.result.Err? ==> e.tree == t
  {
    var e := Converted(t, src, dst, convert);
    if e.result.Ok? {
      WriteThenRead(t, dst, convert(ReadFile(t, src).value).value);
    }
  }

  /** The error for a missing path names what stops the walk: when `p[..k]` is its deepest
      existing prefix, a directory there means `FileNotFoundError` and a file there means
      `NotADirectoryError`. */
  lemma MissingErrorIs(t: Tree, p: Path, k: nat)
    requires k < |p| && PathExists(t, p[..k])
    requires forall i :: k < i <= |p| ==> !PathExists(t, p[..i])
    ensures MissingError(t, p) == if IsDirIn(t, p[..k]) then FileNotFoundError else NotADirectoryError
  {
  }

  /** A missing entry of an existing directory is reported as `FileNotFoundError`. */
  lemma MissingInDir(t: Tree, p: Path)
    requires p != [] && IsDirIn(t, Parent(p)) && !PathExists(t, p)
    ensures MissingError(t, p) == FileNotFoundError
  {
    assert p[..|p|] == p;
    MissingErrorIs(t, p, |p| - 1);
  }

  /** Inside a file nothing can be found: listing or reading a missing path just below a
      file raises `NotADirectoryError`, as `os.listdir` and `open` do. */
  lemma BelowAFile(t: Tree, f: Path, name: string)
    requires IsFileIn(t, f) && f + [name] !in t
    ensures ListDirCount(t, f + [name]) == Err(NotADirectoryError)
    ensures ReadFile(t, f + [name]) == Err(NotADirectoryError)
  {
    var p := f + [name];
    assert p[..|f|] == f && p[..|p|] == p;
    MissingErrorIs(t, p, |f|);
  }

  /** A tree in which every entry hangs below an existing directory. */
  ghost predicate ParentIsDir(t: Tree, q: Path)
  {
    IsDirIn(t, Parent(q))
  }

  ghost predicate WellFormed(t: Tree)
  {
    forall q {:trigger ParentIsDir(t, q)} :: q in t ==> q != [] && ParentIsDir(t, q)
  }

  lemma ParentOfEntry(t: Tree, q: Path)
    requires WellFormed(t) && q in t
    ensures q != [] && IsDirIn(t, Parent(q))
  {
    assert ParentIsDir(t, q);
  }

  /** In a well-formed tree, a path that does not exist has nothing inside it. */
  lemma AbsentHasNoChildren(t: Tree, d: Path)
    requires WellFormed(t)
    requires !PathExists(t, d)
    ensures Children(t, d) == {}
  {
    forall q | q in Children(t, d) ensures false {
      assert Parent(q) == d;
      ParentOfEntry(t, q);
    }
  }

  /** What is written can be read back whole: a write replaces, it never appends. */
  lemma WriteThenRead(t: Tree, p: Path, data: seq<byte>)
    requires WriteError(t, p).None?
    ensures ReadFile(t[p := File(data)], p) == Ok(data)
  {
  }

  /** After a successful `makedirs(p)`, `p` is a directory. */
  lemma MakeDirsMakesDir(t: Tree, p: Path, existOk: bool)
    requires MakeDirsError(t, p, existOk).None?
    ensures IsDirIn(MakeDirsTree(t, p), p)
    ensures forall q :: PathExists(t, q) ==> PathExists(MakeDirsTree(t, p), q)
  {
    var k := NearestExisting(t, p);
    if k < |p| {
      assert p[..|p|] == p;
      assert p in PrefixesAbove(p, k);
    }
  }

  /** `makedirs` only adds: every existing entry keeps its node. */
  lemma MakeDirsKeeps(t: Tree, p: Path)
    ensures forall q :: q in t ==> q in MakeDirsTree(t, p) && MakeDirsTree(t, p)[q] == t[q]
  {
    var k := NearestExisting(t, p);
    forall q | q in t ensures q !in PrefixesAbove(p, k) {
      assert forall i :: k < i <= |p| ==> p[..i] != q;
    }
  }

  /** `mkdir(parents=True, exist_ok=True)` can be repeated: once it succeeded, doing it
      again succeeds and changes nothing. */
  lemma {:induction false} MakeDirsRepeat(t: Tree, p: Path)
    requires MakeDirsError(t, p, true).None?
    ensures MakeDirsError(MakeDirsTree(t, p), p, true).None?
    ensures MakeDirsTree(MakeDirsTree(t, p), p) == MakeDirsTree(t, p)
  {
    MakeDirsMakesDir(t, p, true);
    var t' := MakeDirsTree(t, p);
    assert p[..|p|] == p;
    assert NearestExisting(t', p) == |p|;
  }

  /** After `rmtree` of a directory other than the root, nothing at or below it remains,
      and everything elsewhere is kept. */
  lemma RemovedTreeIsGone(t: Tree, p: Path)
    requires IsDirIn(t, p) && p != []
    ensures !PathExists(RemovedTree(t, p), p)
    ensures forall q :: q in RemovedTree(t, p) <==> q in t && !(p <= q)
  {
  }

  /** The machine's filesystem: the one mutable map that every operation updates. */
  class FileSystem {
    var entries: Tree

    constructor (initial: Tree)
      ensures entries == initial
    {
      entries := initial;
    }

    /** `os.mkdir(p)`. */
    method Mkdir(p: Path) returns (err: Option<Error>)
      modifies this
      ensures err == MkdirError(old(entries), p)
      ensures entries == if err.None? then old(entries)[p := Dir] else old(entries)
    {
      err := MkdirError(entries, p);
      if err.None? {
        entries := entries[p := Dir];
      }
    }

    /** `os.makedirs(p, exist_ok=existOk)`, also `Path(p).mkdir(parents=True, exist_ok=existOk)`. */
    method MakeDirs(p: Path, existOk: bool) returns (err: Option<Error>)
      modifies this
      ensures err == MakeDirsError(old(entries), p, existOk)
      ensures entries == if err.None? then MakeDirsTree(old(entries), p) else old(entries)
    {
      err := MakeDirsError(entries, p, existOk);
      if err.None? {
        entries := MakeDirsTree(entries, p);
      }
    }

    /** `open(p, 'wb').write(data)`: creates or truncates the file, then fills it. */
    method WriteFile(p: Path, data: seq<byte>) returns (err: Option<Error>)
      modifies this
      ensures err == WriteError(old(entries), p)
      ensures entries == if err.None? then old(entries)[p := File(data)] else old(entries)
    {
      err := WriteError(entries, p);
      if err.None? {
        entries := entries[p := File(data)];
      }
    }

    /** `Path(p).touch()`: an existing entry is left as it is, otherwise an empty file
      is created. */
    method Touch(p: Path) returns (err: Option<Error>)
      modifies this
      ensures err == if PathExists(old(entries), p) then None else WriteError(old(entries), p)
      ensures entries == if PathExists(old(entries), p) || err.Some? then old(entries)
                         else old(entries)[p := File([])]
    {
      if PathExists(entries, p) {
        return None;
      }
      err := WriteError(entries, p);
      if err.None? {
        entries := entries[p := File([])];
      }
    }

    /** `shutil.rmtree(p, ignore_errors=True)`. */
    method RemoveTree(p: Path)
      modifies this
      ensures entries == RemovedTree(old(entries), p)
    {
      entries := RemovedTree(entries, p);
    }
  }
}
