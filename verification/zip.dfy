/** `CustomZipFile.extract`: where a zip member lands on disk and what extracting it
    does to the filesystem. */
module ZipArchive {
  import opened Wrappers
  import opened Strings
  import opened Paths
  import opened Fs

  /** A stored name that ends with a separator names a directory. */
  predicate IsDirName(name: string)
  {
    |name| > 0 && name[|name| - 1] == '/'
  }

  /** How reading a member's data through `ZipFile.open` ends. */
  datatype ReadOutcome =
    | Readable                               // every byte comes out
    | OpenFails(error: Error)                // `open` itself raises, before any byte is read
    | ReadFails(written: nat, error: Error)  // the stream raises after `written` bytes came out

  /** One entry of an archive's `filelist`: its stored name, its bytes, and how reading
      them ends. */
  datatype ZipMember = ZipMember(filename: string, content: seq<byte>, outcome: ReadOutcome)
  {
    /** The bytes copied out before reading ends: all of them, or those that came out
        before the stream raised. */
    function Copied(): (c: seq<byte>)
      ensures c <= content
      ensures outcome.Readable? ==> c == content
    {
      if outcome.ReadFails? && outcome.written < |content| then content[..outcome.written]
      else content
    }

    /** `ZipInfo.is_dir()`. */
    predicate IsDir()
    {
      IsDirName(filename)
    }
  }

  /** The components the sanitiser throws away: empty ones, `.` and `..`. */
  predicate Invalid(part: string)
  {
    part == "" || part == "." || part == ".."
  }

  /** The components of a stored name that survive sanitising, in their order. */
  function CleanParts(parts: seq<string>): (r: seq<string>)
    ensures |r| <= |parts|
    ensures forall i :: 0 <= i < |r| ==> !Invalid(r[i]) && r[i] in parts
    ensures forall x :: x in parts && !Invalid(x) ==> x in r
    decreases |parts|
  {
    if parts == [] then []
    else
      var rest := CleanParts(parts[1..]);
      assert forall x :: x in parts ==> x == parts[0] || x in parts[1..];
      if Invalid(parts[0]) then rest else [parts[0]] + rest
  }

  /** The stored name made relative and free of `.` and `..`: on POSIX the drive is always
      empty, so the name is split at `/`, the invalid components are dropped and the rest
      rejoined with `/`. */
  function SanitizeArcname(name: string): string
  {
    JoinWith(CleanParts(Split(name, '/')), "/")
  }

  /** The last element of a non-empty list (Python's `xs[-1]`). */
  function Last(xs: seq<string>): string
    requires |xs| >= 1
  {
    xs[|xs| - 1]
  }

  /** The path `_extract_member` writes to: `filename` defaults to the last component of
      the sanitised name; without `parents` only `filename` is joined onto `targetpath`;
      the join is normalised. */
  function ExtractTarget(targetpath: Path, member: ZipMember, parents: bool,
                         filename: Option<string>): Path
  {
    var arcname := SanitizeArcname(member.filename);
    var name := if filename.None? then Last(Split(arcname, '/')) else filename.value;
    JoinPath(targetpath, if parents then arcname else name)
  }

  /** Components that pass the filter and hold no separator are plain names. */
  lemma CleanPartsArePlain(parts: seq<string>)
    requires forall i :: 0 <= i < |parts| ==> '/' !in parts[i]
    ensures forall i :: 0 <= i < |CleanParts(parts)| ==> PlainName(CleanParts(parts)[i])
  {
    var r := CleanParts(parts);
    forall i | 0 <= i < |r| ensures PlainName(r[i]) {
      var j :| 0 <= j < |parts| && parts[j] == r[i];
    }
  }

  /** Filtering a list that is already clean keeps all of it. */
  lemma {:induction false} CleanPartsOfClean(parts: seq<string>)
    requires forall i :: 0 <= i < |parts| ==> !Invalid(parts[i])
    ensures CleanParts(parts) == parts
    decreases |parts|
  {
    if parts != [] {
      CleanPartsOfClean(parts[1..]);
      assert [parts[0]] + parts[1..] == parts;
    }
  }

  /** A join of non-empty pieces starts with the first character of the first piece. */
  lemma JoinWithHead(parts: seq<string>, sep: string)
    requires |parts| >= 1 && parts[0] != ""
    ensures JoinWith(parts, sep) != "" && JoinWith(parts, sep)[0] == parts[0][0]
  {
  }

  /** The sanitised name read back: it splits into exactly the clean components. */
  lemma SanitizedSplit(name: string)
    ensures var cp := CleanParts(Split(name, '/'));
            Split(SanitizeArcname(name), '/') == if cp == [] then [""] else cp
  {
    var cp := CleanParts(Split(name, '/'));
    CleanPartsArePlain(Split(name, '/'));
    if cp != [] {
      SplitJoin(cp, '/');
    }
  }

  /** After sanitising, the name is empty or made of plain components only: no empty
      component, no `.`, no `..`, and in particular no leading separator. */
  lemma SanitizedIsRelative(name: string)
    ensures var a := SanitizeArcname(name);
            a == "" || (a[0] != '/' &&
                        forall i :: 0 <= i < |Split(a, '/')| ==> PlainName(Split(a, '/')[i]))
  {
    var cp := CleanParts(Split(name, '/'));
    SanitizedSplit(name);
    CleanPartsArePlain(Split(name, '/'));
    if cp != [] {
      JoinWithHead(cp, "/");
    }
  }

  /** Sanitising a sanitised name changes nothing. */
  lemma SanitizeIdempotent(name: string)
    ensures SanitizeArcname(SanitizeArcname(name)) == SanitizeArcname(name)
  {
    var cp := CleanParts(Split(name, '/'));
    SanitizedSplit(name);
    if cp != [] {
      CleanPartsOfClean(cp);
    }
  }

  /** Joining the rejoined plain components onto a path appends exactly those components. */
  lemma JoinPlainParts(base: Path, parts: seq<string>)
    requires forall i :: 0 <= i < |parts| ==> PlainName(parts[i])
    ensures JoinPath(base, JoinWith(parts, "/")) == base + parts
  {
    if parts == [] {
      assert Split("", '/') == [""];
    } else {
      JoinWithHead(parts, "/");
      SplitJoin(parts, '/');
    }
  }

  /** With `parents`, the member lands at its clean components below `targetpath`. */
  lemma ExtractTargetWithParents(targetpath: Path, member: ZipMember, filename: Option<string>)
    ensures ExtractTarget(targetpath, member, true, filename)
            == targetpath + CleanParts(Split(member.filename, '/'))
  {
    CleanPartsArePlain(Split(member.filename, '/'));
    JoinPlainParts(targetpath, CleanParts(Split(member.filename, '/')));
  }

  /** Without `parents` and without `filename`, the member lands directly in `targetpath`
      under the last clean component of its name (at `targetpath` itself if none is left). */
  lemma ExtractTargetDefaultName(targetpath: Path, member: ZipMember)
    ensures var cp := CleanParts(Split(member.filename, '/'));
            ExtractTarget(targetpath, member, false, None)
            == if cp == [] then targetpath else targetpath + [cp[|cp| - 1]]
  {
    var cp := CleanParts(Split(member.filename, '/'));
    SanitizedSplit(member.filename);
    CleanPartsArePlain(Split(member.filename, '/'));
    if cp == [] {
      assert Split("", '/') == [""];
    }
  }

  /** Without `parents`, an explicit `filename` alone decides the target: the stored name,
      whatever `..` or absolute components it holds, has no influence on where the member
      lands, and a plain `filename` puts it directly inside `targetpath`. */
  lemma ExtractTargetFlat(targetpath: Path, a: ZipMember, b: ZipMember, filename: string)
    ensures ExtractTarget(targetpath, a, false, Some(filename))
            == ExtractTarget(targetpath, b, false, Some(filename))
    ensures PlainName(filename) ==>
              ExtractTarget(targetpath, a, false, Some(filename)) == targetpath + [filename]
  {
  }

  /** Where the name is taken from the member itself, the target never leaves
      `targetpath`: it is `targetpath` followed by plain components only. */
  lemma ExtractTargetContained(targetpath: Path, member: ZipMember, parents: bool)
    ensures var target := ExtractTarget(targetpath, member, parents, None);
            targetpath <= target &&
            forall i :: |targetpath| <= i < |target| ==> PlainName(target[i])
  {
    CleanPartsArePlain(Split(member.filename, '/'));
    if parents {
      ExtractTargetWithParents(targetpath, member, None);
    } else {
      ExtractTargetDefaultName(targetpath, member);
    }
  }

  /** Creating the missing parents of `target` (`os.makedirs`, only when the parent is
      absent), then either making the directory (unless one is already there) or copying
      the member's bytes: the member is opened first, so a member that cannot be opened
      raises before the target is touched; then the target is opened for writing, and a
      stream that breaks off leaves the target holding the bytes copied so far. */
  function Extracted(t: Tree, member: ZipMember, target: Path): Effect<Path>
  {
    var up := Parent(target);
    var prepError := if PathExists(t, up) then None else MakeDirsError(t, up, false);
    if prepError.Some? then Effect(Err(prepError.value), t)
    else
      var t1 := if PathExists(t, up) then t else MakeDirsTree(t, up);
      if member.IsDir() then
        if IsDirIn(t1, target) then Effect(Ok(target), t1)
        else if MkdirError(t1, target).Some? then Effect(Err(MkdirError(t1, target).value), t1)
        else Effect(Ok(target), t1[target := Dir])
      else if member.outcome.OpenFails? then Effect(Err(member.outcome.error), t1)
      else if WriteError(t1, target).Some? then Effect(Err(WriteError(t1, target).value), t1)
      else if member.outcome.ReadFails? then
        Effect(Err(member.outcome.error), t1[target := File(member.Copied())])
      else Effect(Ok(target), t1[target := File(member.content)])
  }

  /** A successful extraction returns the target; for a file member, which could then be
      read whole, the target holds exactly its bytes; for a directory member it is a
      directory. */
  lemma ExtractedPlacesMember(t: Tree, member: ZipMember, target: Path)
    requires Extracted(t, member, target).result.Ok?
    ensures var o := Extracted(t, member, target);
            o.result.value == target &&
            (member.IsDir() ==> IsDirIn(o.tree, target)) &&
            (!member.IsDir() ==> member.outcome.Readable? && ReadFile(o.tree, target) == Ok(member.content))
  {
    var up := Parent(target);
    if !PathExists(t, up) {
      MakeDirsMakesDir(t, up, false);
    }
    if !member.IsDir() {
      var t1 := if PathExists(t, up) then t else MakeDirsTree(t, up);
      WriteThenRead(t1, target, member.content);
    }
  }

  /** A file member whose data cannot be read fails with the read's error: one that
      cannot be opened leaves the target as it was, one whose stream breaks off leaves the
      target holding exactly the bytes copied before the break. */
  lemma ExtractedUnreadable(t: Tree, member: ZipMember, target: Path)
    requires !member.IsDir() && IsDirIn(t, Parent(target)) && !IsDirIn(t, target)
    requires !member.outcome.Readable?
    ensures var o := Extracted(t, member, target);
            o.result == Err(member.outcome.error) &&
            (member.outcome.OpenFails? ==> o.tree == t) &&
            (member.outcome.ReadFails? ==> o.tree == t[target := File(member.Copied())] &&
                                           ReadFile(o.tree, target) == Ok(member.Copied()) &&
                                           member.Copied() <= member.content)
  {
    if member.outcome.ReadFails? {
      WriteThenRead(t, target, member.Copied());
    }
  }

  /** Extraction only adds: every existing entry other than the target keeps its node. */
  lemma ExtractedKeepsOthers(t: Tree, member: ZipMember, target: Path, q: Path)
    requires q in t && q != target
    ensures var o := Extracted(t, member, target);
            q in o.tree && o.tree[q] == t[q]
  {
    MakeDirsKeeps(t, Parent(target));
  }

  /** `CustomZipFile`: an archive, as the list of its members in `filelist` order. */
  class CustomZipFile {
    const filelist: seq<ZipMember>

    constructor (members: seq<ZipMember>)
      ensures filelist == members
    {
      filelist := members;
    }

    /** `extract(member, path, parents=…, filename=…)`, which hands over to
        `_extract_member`: the target is computed from the names, the missing parent
        directories are made, then the directory is created or the bytes are written. */
    method Extract(fs: FileSystem, member: ZipMember, path: Path, parents: bool,
                   filename: Option<string>) returns (r: Result<Path, Error>)
      modifies fs
      ensures var o := Extracted(old(fs.entries), member, ExtractTarget(path, member, parents, filename));
              r == o.result && fs.entries == o.tree
    {
      var targetpath := ExtractTarget(path, member, parents, filename);
      var upperdirs := Parent(targetpath);
      if !PathExists(fs.entries, upperdirs) {
        var err := fs.MakeDirs(upperdirs, false);
        if err.Some? {
          return Err(err.value);
        }
      }
      if member.IsDir() {
        if !IsDirIn(fs.entries, targetpath) {
          var err := fs.Mkdir(targetpath);
          if err.Some? {
            return Err(err.value);
          }
        }
        return Ok(targetpath);
      }
      if member.outcome.OpenFails? {
        return Err(member.outcome.error);
      }
      var err := fs.WriteFile(targetpath, member.Copied());
      if err.Some? {
        return Err(err.value);
      }
      if member.outcome.ReadFails? {
        return Err(member.outcome.error);
      }
      return Ok(targetpath);
    }
  }
}
