/** Paths as sequences of components, pathlib-style joining, and the sharded layout
    `root / name[:2] / name` that both storages use. */
module Paths {
  import opened Strings

  /** An absolute, normalised path: its components from the filesystem root. */
  type Path = seq<string>

  /** A string that names exactly one directory entry when joined onto a path:
      non-empty, not `.` or `..`, and free of separators. */
  predicate PlainName(s: string)
  {
    s != "" && s != "." && s != ".." && '/' !in s
  }

  /** One component of a joined string, read lexically: empty pieces and `.` vanish,
      `..` drops the last component (the root's parent is the root). */
  function Step(base: Path, part: string): Path
  {
    if part == "" || part == "." then base
    else if part == ".." then (if base == [] then [] else base[..|base| - 1])
    else base + [part]
  }

  function Resolve(base: Path, parts: seq<string>): (r: Path)
    ensures (forall i :: 0 <= i < |parts| ==> PlainName(parts[i])) ==> r == base + parts
    decreases |parts|
  {
    if parts == [] then base else Resolve(Step(base, parts[0]), parts[1..])
  }

  /** `base.joinpath(s)` (and `os.path.normpath(os.path.join(base, s))`): an absolute
      `s` starts again from the root; the pieces of `s` are then resolved in turn. */
  function JoinPath(base: Path, s: string): (r: Path)
    ensures PlainName(s) ==> r == base + [s]
  {
    var start := if |s| > 0 && s[0] == '/' then [] else base;
    assert PlainName(s) ==> Split(s, '/') == [s] by {
      if PlainName(s) { SplitWithoutSeparator(s, '/'); }
    }
    Resolve(start, Split(s, '/'))
  }

  /** `foldername[:2]`: the first two characters, or the whole name if it is shorter. */
  function Shard(name: string): (shard: string)
    ensures |shard| == if |name| < 2 then |name| else 2
    ensures shard <= name
  {
    name[..if |name| < 2 then |name| else 2]
  }

  /** The directory of the entity called `name` under `root`:
      `pathlib.Path(root).joinpath(name[:2], name)`. */
  function ShardedPath(root: Path, name: string): (r: Path)
    ensures PlainName(name) ==>
              |r| >= 1 && r[|r| - 1] == name && r[..|r| - 1] == JoinPath(root, Shard(name))
    ensures PlainName(name) && PlainName(Shard(name)) ==> r == root + [Shard(name), name]
  {
    JoinPath(JoinPath(root, Shard(name)), name)
  }

  /** A name that is not `..` and holds no separator has a shard that is a plain name,
      unless the name itself starts with `..`. */
  lemma ShardIsPlain(name: string)
    requires PlainName(name)
    requires !(|name| >= 2 && name[..2] == "..")
    ensures PlainName(Shard(name))
  {
    var shard := Shard(name);
    assert forall i :: 0 <= i < |shard| ==> shard[i] == name[i];
    if |name| == 1 {
      assert shard == name;
    }
  }

  /** Distinct plain names never share a directory: the last component is the name. */
  lemma ShardedPathInjective(root: Path, a: string, b: string)
    requires PlainName(a) && PlainName(b)
    requires ShardedPath(root, a) == ShardedPath(root, b)
    ensures a == b
  {
  }
}
