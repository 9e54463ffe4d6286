/** `ExtensionsValidators`: classification of an upload's file name by its extension. */
module Extensions {
  import opened Strings

  /** Whether `s[lo..hi]` holds a character other than a dot. */
  predicate HasNonDot(s: string, lo: int, hi: int)
    requires 0 <= lo <= hi <= |s|
  {
    exists i :: lo <= i < hi && s[i] != '.'
  }

  /** The final path component: everything after the last `/`. */
  function Basename(path: string): string
  {
    path[LastIndexOf(path, '/') + 1..]
  }

  /** An extension-shaped string: a dot followed by anything but dots and slashes. */
  predicate ExtensionShaped(e: string)
  {
    |e| >= 1 && e[0] == '.' && forall i :: 1 <= i < |e| ==> e[i] != '.' && e[i] != '/'
  }

  /** The extension of one path component: from its last dot to the end, provided
      something other than dots precedes that dot; otherwise the empty string. */
  function ComponentExtension(b: string): (ext: string)
    ensures |ext| <= |b| && ext == b[|b| - |ext|..]
  {
    var dot := LastIndexOf(b, '.');
    if dot >= 0 && HasNonDot(b, 0, dot) then b[dot..] else ""
  }

  /** `os.path.splitext(filename)[1]` on POSIX. Python looks for the last dot after the
      last `/`, which is the last dot of the final component. */
  function Extension(filename: string): (ext: string)
    ensures ext == "" || ExtensionShaped(ext)
    ensures |ext| <= |filename| && ext == filename[|filename| - |ext|..]
  {
    var b := Basename(filename);
    var ext := ComponentExtension(b);
    assert ext == filename[|filename| - |ext|..] by {
      DropDrop(filename, LastIndexOf(filename, '/') + 1, |b| - |ext|);
    }
    ext
  }

  const DicomExtensions: set<string> := {".dcm"}
  const ArchiveExtensions: set<string> := {".zip"}
  const JsonExtensions: set<string> := {".json"}

  predicate IsDicom(filename: string)
  {
    Extension(filename) in DicomExtensions
  }

  predicate IsArchive(filename: string)
  {
    Extension(filename) in ArchiveExtensions
  }

  predicate IsJson(filename: string)
  {
    Extension(filename) in JsonExtensions
  }

  /** The reference shape of a name with extension `e`: its final component ends with
      `e`, and something other than dots stands before `e` in that component. */
  predicate EndsWithExtension(filename: string, e: string)
  {
    var b := Basename(filename);
    |b| > |e| && b[|b| - |e|..] == e && HasNonDot(b, 0, |b| - |e|)
  }

  /** The last occurrence of `c` is at `k` when `s[k]` is `c` and none follows it. */
  lemma LastIndexAt(s: string, c: char, k: int)
    requires 0 <= k < |s| && s[k] == c
    requires forall j :: k < j < |s| ==> s[j] != c
    ensures LastIndexOf(s, c) == k
  {
  }

  lemma DropDrop(s: string, i: nat, j: nat)
    requires i + j <= |s|
    ensures s[i..][j..] == s[i + j..]
  {
  }

  /** A string ending with an extension-shaped `e` has its last dot where `e` begins. */
  lemma DotBeginsSuffix(s: string, e: string)
    requires ExtensionShaped(e) && |e| <= |s| && s[|s| - |e|..] == e
    ensures LastIndexOf(s, '.') == |s| - |e|
  {
    var start := |s| - |e|;
    assert s[start] == e[0];
    forall k | start < k < |s|
      ensures s[k] != '.'
    {
      assert s[k] == e[k - start];
    }
    LastIndexAt(s, '.', start);
  }

  lemma ExtensionHasShape(b: string, e: string)
    requires ExtensionShaped(e) && ComponentExtension(b) == e
    ensures |b| > |e| && b[|b| - |e|..] == e && HasNonDot(b, 0, |b| - |e|)
  {
  }

  lemma ShapeHasExtension(b: string, e: string)
    requires ExtensionShaped(e)
    requires |b| > |e| && b[|b| - |e|..] == e && HasNonDot(b, 0, |b| - |e|)
    ensures ComponentExtension(b) == e
  {
    DotBeginsSuffix(b, e);
  }

  /** A name has extension `e` exactly when it has the reference shape; case matters. */
  lemma ExtensionIs(filename: string, e: string)
    requires ExtensionShaped(e)
    ensures Extension(filename) == e <==> EndsWithExtension(filename, e)
  {
    var b := Basename(filename);
    if Extension(filename) == e {
      ExtensionHasShape(b, e);
    }
    if EndsWithExtension(filename, e) {
      ShapeHasExtension(b, e);
    }
  }

  /** `is_dicom` holds exactly for names whose final component is `<something>.dcm`. */
  lemma IsDicomShape(filename: string)
    ensures IsDicom(filename) <==> EndsWithExtension(filename, ".dcm")
  {
    ExtensionIs(filename, ".dcm");
  }

  /** `is_archive` holds exactly for names whose final component is `<something>.zip`. */
  lemma IsArchiveShape(filename: string)
    ensures IsArchive(filename) <==> EndsWithExtension(filename, ".zip")
  {
    ExtensionIs(filename, ".zip");
  }

  /** `is_json` holds exactly for names whose final component is `<something>.json`. */
  lemma IsJsonShape(filename: string)
    ensures IsJson(filename) <==> EndsWithExtension(filename, ".json")
  {
    ExtensionIs(filename, ".json");
  }

  /** The three formats exclude one another. */
  lemma AtMostOneFormat(filename: string)
    ensures !(IsDicom(filename) && IsArchive(filename))
    ensures !(IsDicom(filename) && IsJson(filename))
    ensures !(IsArchive(filename) && IsJson(filename))
  {
  }

  /** A name classified by its extension does not end with a separator. */
  lemma ClassifiedNameNotDirectory(filename: string)
    requires IsDicom(filename) || IsArchive(filename) || IsJson(filename)
    ensures |filename| > 0 && filename[|filename| - 1] != '/'
  {
    var ext := Extension(filename);
    assert ext[|ext| - 1] == filename[|filename| - 1];
    assert ext[|ext| - 1] in ext;
  }
}
