/** `TemporaryCTStorage`: a `FileStorage` whose folders each hold a CT study as a
    `captures` folder of numbered DICOM slots, which can be stripped of the patient's
    personal data in place. */
module CtStorage {
  import opened Wrappers
  import opened Strings
  import opened Paths
  import opened Fs
  import opened Extensions
  import opened ZipArchive
  import opened Loaders
  import opened Layout
  import opened Folders

  /** `remove_patient_personal_data(path)`: the DICOM file is read, `scrub` stands for
      clearing its personal tags (`None` when the bytes are not a dataset), and the result
      is saved over the file. */
  method RemovePatientPersonalData(fs: FileSystem, path: Path, scrub: seq<byte> -> Option<seq<byte>>)
    returns (err: Option<Error>)
    modifies fs
    ensures var e := Converted(old(fs.entries), path, path, scrub);
            err == (if e.result.Err? then Some(e.result.error) else None) && fs.entries == e.tree
  {
    var data := ReadFile(fs.entries, path);
    if data.Err? {
      return Some(data.error);
    }
    var clean := scrub(data.value);
    if clean.None? {
      return Some(DecodeError);
    }
    err := fs.WriteFile(path, clean.value);
  }

  /** Slots `1..n` of `dir` scrubbed in ascending order, stopping at the first failure;
      on success the number of slots scrubbed. */
  function Scrubbed(t: Tree, dir: Path, n: nat, scrub: seq<byte> -> Option<seq<byte>>): Effect<nat>
    decreases n
  {
    if n == 0 then Effect(Ok(0), t)
    else
      var e := Scrubbed(t, dir, n - 1, scrub);
      if e.result.Err? then e
      else
        var s := Converted(e.tree, SlotPath(dir, n), SlotPath(dir, n), scrub);
        Effect(if s.result.Err? then Err(s.result.error) else Ok(n), s.tree)
  }

  /** What `depersonalize` does to the folder `folder`: nothing if it is absent, otherwise
      every slot up to the number of entries of its `captures` folder is scrubbed. */
  function DepersonalizedAt(t: Tree, folder: Path, scrub: seq<byte> -> Option<seq<byte>>)
    : Effect<nat>
  {
    if !PathExists(t, folder) then Effect(Ok(0), t)
    else
      match ListDirCount(t, CapturesOf(folder))
      case Err(e) => Effect(Err(e), t)
      case Ok(count) => Scrubbed(t, CapturesOf(folder), count, scrub)
  }

  /** The contents after scrubbing, for contents the scrubber accepts. */
  function Cleaned(cs: seq<seq<byte>>, scrub: seq<byte> -> Option<seq<byte>>): (r: seq<seq<byte>>)
    requires forall i :: 0 <= i < |cs| ==> scrub(cs[i]).Some?
    ensures |r| == |cs|
    ensures forall i :: 0 <= i < |cs| ==> r[i] == scrub(cs[i]).value
    decreases |cs|
  {
    if cs == [] then [] else Cleaned(cs[..|cs| - 1], scrub) + [scrub(cs[|cs| - 1]).value]
  }

  /** Once scrubbing has failed, scrubbing further slots changes neither the error nor
      the tree: the slots before the failure stay scrubbed, the rest stay untouched. */
  lemma {:induction false} ScrubbedStops(t: Tree, dir: Path, n: nat, m: nat,
                                         scrub: seq<byte> -> Option<seq<byte>>)
    requires n <= m && Scrubbed(t, dir, n, scrub).result.Err?
    ensures Scrubbed(t, dir, m, scrub) == Scrubbed(t, dir, n, scrub)
    decreases m
  {
    if n < m {
      ScrubbedStops(t, dir, n, m - 1, scrub);
    }
  }

  /** The turn of the scrubbing loop for slot `i` of `dir`, after the slots before it were
      scrubbed: the slot is read, scrubbed and written back; a missing slot raises
      `FileNotFoundError` and changes nothing; a success keeps every entry. */
  lemma ScrubbedNext(t0: Tree, dir: Path, i: nat, t: Tree, scrub: seq<byte> -> Option<seq<byte>>)
    requires 1 <= i && Scrubbed(t0, dir, i - 1, scrub) == Effect(Ok(i - 1), t) && IsDirIn(t, dir)
    ensures var slot := SlotPath(dir, i);
            var s := Converted(t, slot, slot, scrub);
            Scrubbed(t0, dir, i, scrub) == Effect(if s.result.Err? then Err(s.result.error) else Ok(i), s.tree) &&
            (!PathExists(t, slot) ==> s == Effect(Err(FileNotFoundError), t)) &&
            (s.result.Ok? ==> IsDirIn(s.tree, dir) && t.Keys <= s.tree.Keys)
  {
    var slot := SlotPath(dir, i);
    assert Parent(slot) == dir;
    if !PathExists(t, slot) {
      MissingInDir(t, slot);
    }
  }

  /** The contents with the first `n` scrubbed have the `n + 1`-th still as loaded, and
      scrubbing it gives the contents with the first `n + 1` scrubbed. */
  lemma CleanedStep(cs: seq<seq<byte>>, n: nat, scrub: seq<byte> -> Option<seq<byte>>)
    requires n < |cs| && forall i :: 0 <= i <= n ==> scrub(cs[i]).Some?
    ensures var ds := Cleaned(cs[..n], scrub) + cs[n..];
            |ds| == |cs| && ds[n] == cs[n] &&
            ds[n := scrub(cs[n]).value] == Cleaned(cs[..n + 1], scrub) + cs[n + 1..]
  {
    assert cs[..n + 1][..n] == cs[..n];
  }

  /** Scrubbing slot `n + 1` of freshly written slots, the first `n` of which are already
      scrubbed, replaces exactly that slot's content by its scrubbed form. */
  lemma ScrubbedNextSlot(t: Tree, dir: Path, cs: seq<seq<byte>>, n: nat,
                         scrub: seq<byte> -> Option<seq<byte>>)
    requires IsDirIn(t, dir) && n < |cs|
    requires forall i :: 0 <= i <= n ==> scrub(cs[i]).Some?
    ensures var before := WriteSlots(t, dir, Cleaned(cs[..n], scrub) + cs[n..]);
            var slot := SlotPath(dir, n + 1);
            Converted(before, slot, slot, scrub)
            == Effect(Ok(slot), WriteSlots(t, dir, Cleaned(cs[..n + 1], scrub) + cs[n + 1..]))
  {
    var ds := Cleaned(cs[..n], scrub) + cs[n..];
    var before := WriteSlots(t, dir, ds);
    var slot := SlotPath(dir, n + 1);
    var c := scrub(cs[n]).value;
    CleanedStep(cs, n, scrub);
    SlotReadBack(t, dir, ds, n + 1);
    assert Converted(before, slot, slot, scrub) == Effect(Ok(slot), before[slot := File(c)]);
    WriteSlotsUpdate(t, dir, ds, n + 1, c);
  }

  /** In freshly written slots, slot `k` reads back as the `k`-th content and can be
      written over. */
  lemma SlotReadBack(t: Tree, dir: Path, ds: seq<seq<byte>>, k: nat)
    requires IsDirIn(t, dir) && 1 <= k <= |ds|
    ensures ReadFile(WriteSlots(t, dir, ds), SlotPath(dir, k)) == Ok(ds[k - 1])
    ensures WriteError(WriteSlots(t, dir, ds), SlotPath(dir, k)).None?
  {
    var slot := SlotPath(dir, k);
    WriteSlotsLookup(t, dir, ds, slot);
    WriteSlotsKeepsDir(t, dir, ds);
    assert Parent(slot) == dir;
  }

  /** Scrubbing the first `n` slots of freshly written slots whose first `n` contents the
      scrubber accepts succeeds with `n` and leaves those slots holding the scrubbed
      contents, every other entry as it was. */
  lemma {:induction false} ScrubbedLoaded(t: Tree, dir: Path, cs: seq<seq<byte>>, n: nat,
                                          scrub: seq<byte> -> Option<seq<byte>>)
    requires IsDirIn(t, dir) && n <= |cs|
    requires forall i :: 0 <= i < n ==> scrub(cs[i]).Some?
    ensures Scrubbed(WriteSlots(t, dir, cs), dir, n, scrub)
            == Effect(Ok(n), WriteSlots(t, dir, Cleaned(cs[..n], scrub) + cs[n..]))
    decreases n
  {
    if n == 0 {
      assert Cleaned(cs[..0], scrub) + cs[0..] == cs;
    } else {
      ScrubbedLoaded(t, dir, cs, n - 1, scrub);
      ScrubbedNextSlot(t, dir, cs, n - 1, scrub);
    }
  }

  /** The first slot the scrubber rejects ends depersonalisation with `DecodeError`: the
      slots before it are left scrubbed, it and the later ones as they were. */
  lemma ScrubbedRejected(t: Tree, dir: Path, cs: seq<seq<byte>>, j: nat,
                         scrub: seq<byte> -> Option<seq<byte>>)
    requires IsDirIn(t, dir) && j < |cs|
    requires forall i :: 0 <= i < j ==> scrub(cs[i]).Some?
    requires scrub(cs[j]).None?
    ensures Scrubbed(WriteSlots(t, dir, cs), dir, |cs|, scrub)
            == Effect(Err(DecodeError), WriteSlots(t, dir, Cleaned(cs[..j], scrub) + cs[j..]))
  {
    var ds := Cleaned(cs[..j], scrub) + cs[j..];
    ScrubbedLoaded(t, dir, cs, j, scrub);
    assert ds[j] == cs[j];
    SlotReadBack(t, dir, ds, j + 1);
    ScrubbedStops(WriteSlots(t, dir, cs), dir, j + 1, |cs|, scrub);
  }

  /** Depersonalising a folder whose `captures` folder was empty before the slots were
      written, when the scrubber accepts every capture: all `n` slots are scrubbed, in
      their order, and nothing else changes. */
  lemma DepersonalizedLoaded(t: Tree, folder: Path, cs: seq<seq<byte>>,
                             scrub: seq<byte> -> Option<seq<byte>>)
    requires PathExists(t, folder)
    requires IsDirIn(t, CapturesOf(folder)) && Children(t, CapturesOf(folder)) == {}
    requires forall i :: 0 <= i < |cs| ==> scrub(cs[i]).Some?
    ensures DepersonalizedAt(WriteSlots(t, CapturesOf(folder), cs), folder, scrub)
            == Effect(Ok(|cs|), WriteSlots(t, CapturesOf(folder), Cleaned(cs, scrub)))
  {
    var captures := CapturesOf(folder);
    var t' := WriteSlots(t, captures, cs);
    WriteSlotsLookup(t, captures, cs, folder);
    WriteSlotsKeepsDir(t, captures, cs);
    SlotsFillEmptyDir(t, captures, cs);
    assert ListDirCount(t', captures) == Ok(|cs|);
    ScrubbedLoaded(t, captures, cs, |cs|, scrub);
    assert Cleaned(cs[..|cs|], scrub) + cs[|cs|..] == Cleaned(cs, scrub) by {
      assert cs[..|cs|] == cs;
    }
  }

  /** `create_empty_ct`, then `load_captures`, then `depersonalize`: when the scrubber
      accepts every accepted capture, depersonalising leaves the slots `1..n` holding the
      scrubbed captures in their order, and nothing else differs from the created tree. */
  lemma CreateLoadDepersonalize(t: Tree, folder: Path, name: string, files: seq<Upload>,
                                decode: seq<byte> -> Option<seq<ZipMember>>,
                                scrub: seq<byte> -> Option<seq<byte>>)
    requires WellFormed(t) && CapturesMade(t, folder, name).result.Ok?
    ensures var t1 := CapturesMade(t, folder, name).tree;
            var loaded := CapturesLoaded(t1, files, CapturesOf(folder), decode);
            var archive := |files| == 1 && IsArchive(files[0].filename);
            (archive && (decode(files[0].content).None? || !DicomReadable(decode(files[0].content).value))) ||
            var entries := if archive then Uploads(decode(files[0].content).value) else files;
            var cs := Accepted(entries, IsDicom);
            loaded.tree == WriteSlots(t1, CapturesOf(folder), cs) &&
            ((forall i :: 0 <= i < |cs| ==> scrub(cs[i]).Some?) ==>
               DepersonalizedAt(loaded.tree, folder, scrub)
               == Effect(Ok(|cs|), WriteSlots(t1, CapturesOf(folder), Cleaned(cs, scrub))))
  {
    var t1 := CapturesMade(t, folder, name).tree;
    var captures := CapturesOf(folder);
    CapturesMadeDirs(t, folder, name);
    CapturesMadeEmpty(t, folder, name);
    CapturesLoadedIntoEmptyDir(t1, files, captures, decode);
    var archive := |files| == 1 && IsArchive(files[0].filename);
    if !(archive && (decode(files[0].content).None? || !DicomReadable(decode(files[0].content).value))) {
      var entries := if archive then Uploads(decode(files[0].content).value) else files;
      var cs := Accepted(entries, IsDicom);
      if forall i :: 0 <= i < |cs| ==> scrub(cs[i]).Some? {
        DepersonalizedLoaded(t1, folder, cs, scrub);
      }
    }
  }

  /** The temporary CT storage, over the folders of `storage`. */
  class TemporaryCtStorage {
    const storage: FileStorage

    constructor (storage: FileStorage)
      ensures this.storage == storage
    {
      this.storage := storage;
    }

    /** `get_captures_path(foldername)`. */
    function GetCapturesPath(foldername: string): (r: Option<Path>)
      reads storage.fs
      ensures r.Some? <==> storage.IsExists(foldername)
      ensures r.Some? ==> r.value == CapturesOf(storage.GetPathToFolder(foldername))
    {
      CapturesJoin(storage.GetPathToFolder(foldername));
      if !storage.IsExists(foldername) then None
      else Some(JoinPath(storage.GetPathToFolder(foldername), CapturesFolder))
    }

    /** `get_captures_count(foldername)`: `None` for an absent study, otherwise the number
        of entries of its `captures` folder, or the error `os.listdir` raises. */
    function GetCapturesCount(foldername: string): (r: Result<Option<nat>, Error>)
      reads storage.fs
      ensures r == Ok(None) <==> !storage.IsExists(foldername)
      ensures r.Ok? && r.value.Some? ==>
                var captures := CapturesOf(storage.GetPathToFolder(foldername));
                IsDirIn(storage.fs.entries, captures) &&
                r.value.value == |Children(storage.fs.entries, captures)|
      ensures r.Err? ==> !IsDirIn(storage.fs.entries, CapturesOf(storage.GetPathToFolder(foldername)))
    {
      if !storage.IsExists(foldername) then Ok(None)
      else
        match ListDirCount(storage.fs.entries, CapturesOf(storage.GetPathToFolder(foldername)))
        case Err(e) => Err(e)
        case Ok(n) => Ok(Some(n))
    }

    /** `get_capture_path(foldername, capture_num)`: unlike the research storage, a slot
        that does not exist gives `None`. */
    function GetCapturePath(foldername: string, captureNum: int): (r: Option<Path>)
      reads storage.fs
      ensures var slot := SlotPath(CapturesOf(storage.GetPathToFolder(foldername)), captureNum);
              (r.Some? <==> storage.IsExists(foldername) && PathExists(storage.fs.entries, slot)) &&
              (r.Some? ==> r.value == slot)
    {
      if !storage.IsExists(foldername) then None
      else
        var capturesPath := GetCapturesPath(foldername).value;
        SlotPathIsJoin(capturesPath, captureNum);
        var capturePath := JoinPath(capturesPath, IntString(captureNum) + ".dcm");
        if !PathExists(storage.fs.entries, capturePath) then None else Some(capturePath)
    }

    /** `create_empty_ct(foldername)`: the folder is made with its parents (an existing
        directory being fine), then its `captures` folder, which must not exist yet;
        `generated` stands for the fresh name drawn when none is given. */
    method CreateEmptyCt(foldername: Option<string>, generated: string) returns (r: Result<string, Error>)
      modifies storage.fs
      ensures var name := if foldername.Some? then foldername.value else generated;
              var e := CapturesMade(old(storage.fs.entries), storage.GetPathToFolder(name), name);
              r == e.result && storage.fs.entries == e.tree
    {
      var name := if foldername.Some? then foldername.value else generated;
      var researchPath := storage.GetPathToFolder(name);
      var err := storage.fs.MakeDirs(researchPath, true);
      if err.Some? {
        return Err(err.value);
      }
      MakeDirsMakesDir(old(storage.fs.entries), researchPath, true);
      var capturesPath := GetCapturesPath(name).value;
      err := storage.fs.Mkdir(capturesPath);
      if err.Some? {
        return Err(err.value);
      }
      return Ok(name);
    }

    /** `load_captures(foldername, files)`: `None` for an absent study; otherwise the
        chosen loader fills its `captures` folder. */
    method LoadCaptures(foldername: string, files: seq<Upload>,
                        decode: seq<byte> -> Option<seq<ZipMember>>)
      returns (r: Result<Option<nat>, Error>)
      modifies storage.fs
      ensures !PathExists(old(storage.fs.entries), storage.GetPathToFolder(foldername)) ==>
                r == Ok(None) && storage.fs.entries == old(storage.fs.entries)
      ensures PathExists(old(storage.fs.entries), storage.GetPathToFolder(foldername)) ==>
                var loaded := CapturesLoaded(old(storage.fs.entries), files,
                                             CapturesOf(storage.GetPathToFolder(foldername)), decode);
                r == Reported(loaded.result) && storage.fs.entries == loaded.tree
    {
      if !storage.IsExists(foldername) {
        return Ok(None);
      }
      CapturesJoin(storage.GetPathToFolder(foldername));
      var path := JoinPath(storage.GetPathToFolder(foldername), CapturesFolder);
      r := Loaders.LoadCaptures(storage.fs, files, path, decode);
    }

    /** `depersonalize(foldername)`: every slot from 1 to the number of entries of
        `captures` is scrubbed in place, in ascending order; the first failure is
        raised. */
    method Depersonalize(foldername: string, scrub: seq<byte> -> Option<seq<byte>>)
      returns (err: Option<Error>)
      modifies storage.fs
      ensures var e := DepersonalizedAt(old(storage.fs.entries), storage.GetPathToFolder(foldername), scrub);
              err == (if e.result.Err? then Some(e.result.error) else None) &&
              storage.fs.entries == e.tree
    {
      if !storage.IsExists(foldername) {
        return None;
      }
      var capturesCount := GetCapturesCount(foldername);
      if capturesCount.Err? {
        return Some(capturesCount.error);
      }
      var count := capturesCount.value.value;
      ghost var folder := storage.GetPathToFolder(foldername);
      ghost var captures := CapturesOf(folder);
      var i := 1;
      while i <= count
        invariant 1 <= i <= count + 1
        invariant storage.IsExists(foldername) && IsDirIn(storage.fs.entries, captures)
        invariant Scrubbed(old(storage.fs.entries), captures, i - 1, scrub)
                  == Effect(Ok(i - 1), storage.fs.entries)
      {
        ScrubbedNext(old(storage.fs.entries), captures, i, storage.fs.entries, scrub);
        var capturePath := GetCapturePath(foldername, i);
        if capturePath.None? {
          ScrubbedStops(old(storage.fs.entries), captures, i, count, scrub);
          return Some(FileNotFoundError);
        }
        err := RemovePatientPersonalData(storage.fs, capturePath.value, scrub);
        if err.Some? {
          ScrubbedStops(old(storage.fs.entries), captures, i, count, scrub);
          return err;
        }
        i := i + 1;
      }
      return None;
    }
  }
}
