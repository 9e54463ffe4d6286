/** `ResearchesStorage`: one directory per research below a root, sharded by the first two
    characters of the research's name, holding a `captures` folder of numbered DICOM
    slots, a `markup.json` and, once generated, a `preview.jpg`. */
module Researches {
  import opened Wrappers
  import opened Strings
  import opened Paths
  import opened Fs
  import opened Extensions
  import opened ZipArchive
  import opened Loaders
  import opened Layout

  const MarkupFilename: string := "markup.json"
  const PreviewFilename: string := "preview.jpg"

  /** The three fixed names are single plain components, pairwise distinct. */
  lemma FixedNamesPlain()
    ensures PlainName(CapturesFolder) && PlainName(MarkupFilename) && PlainName(PreviewFilename)
    ensures CapturesFolder != MarkupFilename && CapturesFolder != PreviewFilename
    ensures MarkupFilename != PreviewFilename
  {
    assert CapturesFolder[0] != MarkupFilename[0];
    assert CapturesFolder[0] != PreviewFilename[0];
    assert MarkupFilename[0] != PreviewFilename[0];
  }

  /** `captures_count // 2`, the slot `generate_preview` renders. */
  function PreviewSlot(count: nat): (k: nat)
    ensures 2 * k <= count < 2 * k + 2
    ensures 1 <= k <= count <==> count >= 2
  {
    count / 2
  }

  /** `dicom_to_image(path_to_dicom, path_to_save)`: the DICOM file is read whole, `render`
      stands for decoding it and drawing its pixels (`None` when the bytes are not an
      image), and the drawing is saved, replacing whatever file was there. */
  method DicomToImage(fs: FileSystem, pathToDicom: Path, pathToSave: Path,
                      render: seq<byte> -> Option<seq<byte>>)
    returns (r: Result<Path, Error>)
    modifies fs
    ensures var e := Converted(old(fs.entries), pathToDicom, pathToSave, render);
            r == e.result && fs.entries == e.tree
  {
    var data := ReadFile(fs.entries, pathToDicom);
    if data.Err? {
      return Err(data.error);
    }
    var image := render(data.value);
    if image.None? {
      return Err(DecodeError);
    }
    var err := fs.WriteFile(pathToSave, image.value);
    if err.Some? {
      return Err(err.value);
    }
    return Ok(pathToSave);
  }

  /** `research.joinpath('markup.json')` (see `FixedNamesPlain`). */
  function MarkupOf(research: Path): Path
  {
    research + [MarkupFilename]
  }

  /** `research.joinpath('preview.jpg')`. */
  function PreviewOf(research: Path): Path
  {
    research + [PreviewFilename]
  }

  /** The three entries of a research directory are distinct paths directly inside it. */
  lemma FixedPathsDistinct(research: Path)
    ensures CapturesOf(research) != MarkupOf(research)
    ensures CapturesOf(research) != PreviewOf(research)
    ensures MarkupOf(research) != PreviewOf(research)
    ensures Parent(CapturesOf(research)) == research && Parent(MarkupOf(research)) == research
    ensures Parent(PreviewOf(research)) == research
  {
    FixedNamesPlain();
    var n := |research|;
    assert CapturesOf(research)[n] != MarkupOf(research)[n];
    assert CapturesOf(research)[n] != PreviewOf(research)[n];
    assert MarkupOf(research)[n] != PreviewOf(research)[n];
  }

  /** What `create_empty_research` returns and the tree it leaves, for the research
      directory `research`: the directory and its `captures` folder are made, then
      `markup.json` is touched. */
  function CreatedAt(t: Tree, research: Path, foldername: string): Effect<string>
  {
    var c := CapturesMade(t, research, foldername);
    var markup := MarkupOf(research);
    if c.result.Err? || PathExists(c.tree, markup) then c
    else if WriteError(c.tree, markup).Some? then Effect(Err(WriteError(c.tree, markup).value), c.tree)
    else Effect(Ok(foldername), c.tree[markup := File([])])
  }

  /** A successful creation returns the name and leaves the research directory and its
      `captures` folder as directories; `captures` did not exist before and gains no
      entry. */
  lemma CreatedDirs(t: Tree, research: Path, foldername: string)
    requires CreatedAt(t, research, foldername).result.Ok?
    ensures var e := CreatedAt(t, research, foldername);
            e.result.value == foldername &&
            IsDirIn(e.tree, research) && IsDirIn(e.tree, CapturesOf(research))
    ensures !PathExists(t, CapturesOf(research))
    ensures Children(CreatedAt(t, research, foldername).tree, CapturesOf(research))
            == Children(t, CapturesOf(research))
  {
    var c := CapturesMade(t, research, foldername);
    CapturesMadeDirs(t, research, foldername);
    CapturesMadeFresh(t, research, foldername);
    FixedPathsDistinct(research);
    var markup := MarkupOf(research);
    assert Children(c.tree[markup := File([])], CapturesOf(research)) == Children(c.tree, CapturesOf(research));
  }

  /** In a well-formed tree a successful creation leaves `captures` empty. */
  lemma CreatedCapturesEmpty(t: Tree, research: Path, foldername: string)
    requires WellFormed(t) && CreatedAt(t, research, foldername).result.Ok?
    ensures Children(CreatedAt(t, research, foldername).tree, CapturesOf(research)) == {}
  {
    CreatedDirs(t, research, foldername);
    AbsentHasNoChildren(t, CapturesOf(research));
  }

  /** After a successful creation `markup.json` exists; it is an empty file unless it
      was already there. */
  lemma CreatedMarkup(t: Tree, research: Path, foldername: string)
    requires CreatedAt(t, research, foldername).result.Ok?
    ensures PathExists(CreatedAt(t, research, foldername).tree, MarkupOf(research))
    ensures !PathExists(t, MarkupOf(research)) ==>
              ReadFile(CreatedAt(t, research, foldername).tree, MarkupOf(research)) == Ok([])
  {
    CapturesMadeDirs(t, research, foldername);
    CapturesMadeKeeps(t, research, foldername);
    FixedPathsDistinct(research);
  }

  /** Creation never makes a preview: `preview.jpg` exists afterwards exactly when it
      existed before. */
  lemma CreatedNoPreview(t: Tree, research: Path, foldername: string)
    ensures PathExists(CreatedAt(t, research, foldername).tree, PreviewOf(research))
            <==> PathExists(t, PreviewOf(research))
  {
    FixedPathsDistinct(research);
    var c := CapturesMade(t, research, foldername);
    CapturesMadeKeeps(t, research, foldername);
  }

  /** Creating the same research twice fails the second time, with `FileExistsError`
      from `captures`, and changes nothing. */
  lemma CreatedTwiceFails(t: Tree, research: Path, foldername: string)
    requires CreatedAt(t, research, foldername).result.Ok?
    ensures var t' := CreatedAt(t, research, foldername).tree;
            CreatedAt(t', research, foldername) == Effect(Err(FileExistsError), t')
  {
    CreatedDirs(t, research, foldername);
    CapturesMadeFailsIfPresent(CreatedAt(t, research, foldername).tree, research, foldername);
  }

  /** What `generate_preview` returns and the tree it leaves, for the research directory
      `research`. */
  function PreviewedAt(t: Tree, research: Path, render: seq<byte> -> Option<seq<byte>>)
    : Effect<Option<Path>>
  {
    if !PathExists(t, research) then Effect(Ok(None), t)
    else
      match ListDirCount(t, CapturesOf(research))
      case Err(e) => Effect(Err(e), t)
      case Ok(count) =>
        var e := Converted(t, SlotPath(CapturesOf(research), PreviewSlot(count)),
                          PreviewOf(research), render);
        Effect(if e.result.Err? then Err(e.result.error) else Ok(Some(e.result.value)), e.tree)
  }

  /** Slot 0 is never written into a directory that started empty. */
  lemma SlotZeroAbsent(t: Tree, dir: Path, cs: seq<seq<byte>>)
    requires Children(t, dir) == {}
    ensures SlotPath(dir, 0) !in WriteSlots(t, dir, cs)
  {
    var q := SlotPath(dir, 0);
    WriteSlotsLookup(t, dir, cs, q);
    assert q !in Children(t, dir);
    forall k | 1 <= k <= |cs| ensures SlotPath(dir, k) != q {
      SlotPathsDiffer(dir, k, 0);
    }
  }

  /** Previewing a research whose `captures` folder was empty before the slots were
      written: with fewer than two captures the slot read is 0, which no loader writes,
      so `FileNotFoundError` is raised; otherwise the preview is the drawing of capture
      number `count // 2`, the `count // 2`-th accepted file. */
  lemma PreviewOfLoadedCaptures(t: Tree, research: Path, cs: seq<seq<byte>>,
                                render: seq<byte> -> Option<seq<byte>>)
    requires PathExists(t, research)
    requires IsDirIn(t, CapturesOf(research)) && Children(t, CapturesOf(research)) == {}
    ensures var t' := WriteSlots(t, CapturesOf(research), cs);
            |cs| < 2 ==> PreviewedAt(t', research, render) == Effect(Err(FileNotFoundError), t')
    ensures var t' := WriteSlots(t, CapturesOf(research), cs);
            var e := PreviewedAt(t', research, render);
            |cs| >= 2 ==>
              (e.result.Ok? <==> render(cs[|cs| / 2 - 1]).Some? &&
                                 WriteError(t', PreviewOf(research)).None?) &&
              (e.result.Ok? ==> e.result.value == Some(PreviewOf(research)) &&
                                ReadFile(e.tree, PreviewOf(research))
                                == Ok(render(cs[|cs| / 2 - 1]).value))
  {
    var captures := CapturesOf(research);
    var t' := WriteSlots(t, captures, cs);
    WriteSlotsLookup(t, captures, cs, research);
    WriteSlotsKeepsDir(t, captures, cs);
    SlotsFillEmptyDir(t, captures, cs);
    assert ListDirCount(t', captures) == Ok(|cs|);
    var k := PreviewSlot(|cs|);
    var slot := SlotPath(captures, k);
    if |cs| < 2 {
      SlotZeroAbsent(t, captures, cs);
      assert ReadFile(t', slot) == Err(FileNotFoundError);
    } else {
      WriteSlotsLookup(t, captures, cs, slot);
      assert slot in SlotSet(captures, |cs|);
      assert ReadFile(t', slot) == Ok(cs[k - 1]);
      ConvertedSaves(t', slot, PreviewOf(research), render);
    }
  }

  /** `create_empty_research`, then `load_captures`, then `generate_preview`, as the
      research service runs them: into the freshly made `captures` folder the accepted
      files land in slots `1..n` and `n` is returned (`None` for 0); with fewer than two
      of them the preview raises `FileNotFoundError`. */
  lemma CreateLoadPreview(t: Tree, research: Path, foldername: string, files: seq<Upload>,
                          decode: seq<byte> -> Option<seq<ZipMember>>,
                          render: seq<byte> -> Option<seq<byte>>)
    requires WellFormed(t) && CreatedAt(t, research, foldername).result.Ok?
    ensures var t1 := CreatedAt(t, research, foldername).tree;
            var loaded := CapturesLoaded(t1, files, CapturesOf(research), decode);
            var archive := |files| == 1 && IsArchive(files[0].filename);
            (archive && (decode(files[0].content).None? || !DicomReadable(decode(files[0].content).value))) ||
            var entries := if archive then Uploads(decode(files[0].content).value) else files;
            var cs := Accepted(entries, IsDicom);
            Reported(loaded.result) == (if cs == [] then Ok(None) else Ok(Some(|cs|))) &&
            loaded.tree == WriteSlots(t1, CapturesOf(research), cs) &&
            (|cs| < 2 ==> PreviewedAt(loaded.tree, research, render).result == Err(FileNotFoundError))
  {
    var t1 := CreatedAt(t, research, foldername).tree;
    CreatedDirs(t, research, foldername);
    CreatedCapturesEmpty(t, research, foldername);
    CapturesLoadedIntoEmptyDir(t1, files, CapturesOf(research), decode);
    var archive := |files| == 1 && IsArchive(files[0].filename);
    if !(archive && (decode(files[0].content).None? || !DicomReadable(decode(files[0].content).value))) {
      var entries := if archive then Uploads(decode(files[0].content).value) else files;
      PreviewOfLoadedCaptures(t1, research, Accepted(entries, IsDicom), render);
    }
  }

  /** The storage of researches below `root`. */
  class ResearchesStorage {
    const root: Path
    const fs: FileSystem

    constructor (root: Path, fs: FileSystem)
      ensures this.root == root && this.fs == fs
    {
      this.root := root;
      this.fs := fs;
    }

    /** `_gen_path(foldername)`: `root / foldername[:2] / foldername`. */
    function GenPath(foldername: string): Path
    {
      ShardedPath(root, foldername)
    }

    /** `is_exists(foldername)`: whatever sits at the research's path, directory or file. */
    predicate IsExists(foldername: string)
      reads fs
    {
      PathExists(fs.entries, GenPath(foldername))
    }

    /** `get_preview_path`: the place of the preview, whether or not one was generated. */
    function GetPreviewPath(foldername: string): (r: Option<Path>)
      reads fs
      ensures r.Some? <==> IsExists(foldername)
      ensures r.Some? ==> r.value == PreviewOf(GenPath(foldername))
    {
      FixedNamesPlain();
      if !IsExists(foldername) then None
      else Some(JoinPath(GenPath(foldername), PreviewFilename))
    }

    /** `get_markup_path`. */
    function GetMarkupPath(foldername: string): (r: Option<Path>)
      reads fs
      ensures r.Some? <==> IsExists(foldername)
      ensures r.Some? ==> r.value == MarkupOf(GenPath(foldername))
    {
      FixedNamesPlain();
      if !IsExists(foldername) then None
      else Some(JoinPath(GenPath(foldername), MarkupFilename))
    }

    /** `get_capture_path(foldername, capture_num)`: the slot the loaders fill with the
        `capture_num`-th accepted file; that the file is there is not checked. */
    function GetCapturePath(foldername: string, captureNum: int): (r: Option<Path>)
      reads fs
      ensures r.Some? <==> IsExists(foldername)
      ensures r.Some? ==> r.value == SlotPath(CapturesOf(GenPath(foldername)), captureNum)
    {
      FixedNamesPlain();
      SlotNamePlain(captureNum);
      if !IsExists(foldername) then None
      else Some(JoinPath(JoinPath(GenPath(foldername), CapturesFolder),
                         IntString(captureNum) + ".dcm"))
    }

    /** `get_captures_count`: `None` for an absent research, otherwise the number of
        entries of its `captures` folder, or the error `os.listdir` raises. */
    function GetCapturesCount(foldername: string): (r: Result<Option<nat>, Error>)
      reads fs
      ensures r == Ok(None) <==> !IsExists(foldername)
      ensures r.Ok? && r.value.Some? ==>
                IsDirIn(fs.entries, CapturesOf(GenPath(foldername))) &&
                r.value.value == |Children(fs.entries, CapturesOf(GenPath(foldername)))|
      ensures r.Err? ==> !IsDirIn(fs.entries, CapturesOf(GenPath(foldername)))
    {
      if !IsExists(foldername) then Ok(None)
      else
        match ListDirCount(fs.entries, CapturesOf(GenPath(foldername)))
        case Err(e) => Err(e)
        case Ok(n) => Ok(Some(n))
    }

    /** `generate_preview(foldername)`: the capture in slot `count // 2` is drawn into
        `preview.jpg`. `render` stands for the DICOM decoder and the image encoder. */
    method GeneratePreview(foldername: string, render: seq<byte> -> Option<seq<byte>>)
      returns (r: Result<Option<Path>, Error>)
      modifies fs
      ensures var e := PreviewedAt(old(fs.entries), GenPath(foldername), render);
              r == e.result && fs.entries == e.tree
    {
      if !IsExists(foldername) {
        return Ok(None);
      }
      var path := GenPath(foldername);
      var capturesCount := GetCapturesCount(foldername);
      if capturesCount.Err? {
        return Err(capturesCount.error);
      }
      var captureNum := PreviewSlot(capturesCount.value.value);
      var capturePath := GetCapturePath(foldername, captureNum).value;
      var saved := DicomToImage(fs, capturePath, PreviewOf(path), render);
      if saved.Err? {
        return Err(saved.error);
      }
      return Ok(Some(saved.value));
    }

    /** `load_captures(foldername, files)`: `None` for an absent research; otherwise the
        chosen loader fills the research's `captures` folder. */
    method LoadCaptures(foldername: string, files: seq<Upload>,
                        decode: seq<byte> -> Option<seq<ZipMember>>)
      returns (r: Result<Option<nat>, Error>)
      modifies fs
      ensures !PathExists(old(fs.entries), GenPath(foldername)) ==>
                r == Ok(None) && fs.entries == old(fs.entries)
      ensures PathExists(old(fs.entries), GenPath(foldername)) ==>
                var loaded := CapturesLoaded(old(fs.entries), files, CapturesOf(GenPath(foldername)),
                                             decode);
                r == Reported(loaded.result) && fs.entries == loaded.tree
    {
      if !IsExists(foldername) {
        return Ok(None);
      }
      var path := CapturesOf(GenPath(foldername));
      r := Loaders.LoadCaptures(fs, files, path, decode);
    }

    /** `load_markup(foldername, file)`. Its format check tests the function object
        `ExtensionsValidators.is_json`, which is always truthy, so only an absent research
        gives `None`: the upload replaces `markup.json` whatever its name, and 1 is
        returned. */
    method LoadMarkup(foldername: string, file: Upload) returns (r: Result<Option<nat>, Error>)
      modifies fs
      ensures !PathExists(old(fs.entries), GenPath(foldername)) ==>
                r == Ok(None) && fs.entries == old(fs.entries)
      ensures PathExists(old(fs.entries), GenPath(foldername)) ==>
                var markup := MarkupOf(GenPath(foldername));
                var err := WriteError(old(fs.entries), markup);
                (err.Some? ==> r == Err(err.value) && fs.entries == old(fs.entries)) &&
                (err.None? ==> r == Ok(Some(1)) &&
                               fs.entries == old(fs.entries)[markup := File(file.content)])
    {
      if !IsExists(foldername) {
        return Ok(None);
      }
      var path := MarkupOf(GenPath(foldername));
      var loader := new MarkupLoader(file);
      var err := loader.Load(fs, path);
      if err.Some? {
        return Err(err.value);
      }
      return Ok(Some(1));
    }

    /** `create_empty_research(foldername)`; `generated` stands for the fresh name
        `_gen_foldername()` draws when none is given. */
    method CreateEmptyResearch(foldername: Option<string>, generated: string)
      returns (r: Result<string, Error>)
      modifies fs
      ensures var name := if foldername.Some? then foldername.value else generated;
              var e := CreatedAt(old(fs.entries), GenPath(name), name);
              r == e.result && fs.entries == e.tree
    {
      var name := if foldername.Some? then foldername.value else generated;
      var researchPath := GenPath(name);
      var err := fs.MakeDirs(researchPath, true);
      if err.Some? {
        return Err(err.value);
      }
      err := fs.Mkdir(CapturesOf(researchPath));
      if err.Some? {
        return Err(err.value);
      }
      err := fs.Touch(MarkupOf(researchPath));
      if err.Some? {
        return Err(err.value);
      }
      return Ok(name);
    }

    /** `remove_research(foldername)`: an existing research is removed with everything
        in it; `rmtree` swallows every error. */
    method RemoveResearch(foldername: string)
      modifies fs
      ensures fs.entries == if PathExists(old(fs.entries), GenPath(foldername))
                            then RemovedTree(old(fs.entries), GenPath(foldername))
                            else old(fs.entries)
    {
      if !IsExists(foldername) {
        return;
      }
      fs.RemoveTree(GenPath(foldername));
    }
  }
}
