/** The capture loaders: a list of uploads, or one zip archive, stored as the numbered
    slots `1.dcm`, `2.dcm`, … of a captures directory; and the markup loader. */
module Loaders {
  import opened Wrappers
  import opened Strings
  import opened Paths
  import opened Fs
  import opened Extensions
  import opened ZipArchive

  /** An uploaded file: the name the client gave it and its bytes. */
  datatype Upload = Upload(filename: string, content: seq<byte>)

  /** The archive loader copies an upload into its temporary file in reads of 5 MiB. */
  const ChunkSize: nat := 5 * 1024 * 1024

  /** `f'{k}.dcm'`. */
  function SlotName(k: int): string
  {
    IntString(k) + ".dcm"
  }

  /** Slot `k` of `dir`. */
  function SlotPath(dir: Path, k: int): Path
  {
    dir + [SlotName(k)]
  }

  /** Slot `k` of `dir` is `dir.joinpath(f'{k}.dcm')`. */
  lemma SlotPathIsJoin(dir: Path, k: int)
    ensures JoinPath(dir, SlotName(k)) == SlotPath(dir, k)
  {
    SlotNamePlain(k);
  }

  /** A slot name is a single plain component. */
  lemma SlotNamePlain(k: int)
    ensures PlainName(SlotName(k))
  {
    var s := SlotName(k);
    forall i | 0 <= i < |s| ensures s[i] != '/' {
      if i < |IntString(k)| {
        assert s[i] == IntString(k)[i];
      }
    }
  }

  /** A slot name is itself classified as DICOM. */
  lemma SlotNameIsDicom(k: int)
    ensures IsDicom(SlotName(k))
  {
    var s := SlotName(k);
    SlotNamePlain(k);
    assert LastIndexOf(s, '/') == -1;
    assert Basename(s) == s;
    assert s[|s| - 4..] == ".dcm";
    assert s[0] == IntString(k)[0];
    assert HasNonDot(s, 0, |s| - 4);
    IsDicomShape(s);
  }

  /** Distinct slot numbers give distinct names. */
  lemma SlotNameInjective(a: int, b: int)
    requires SlotName(a) == SlotName(b)
    ensures a == b
  {
    var sa, sb := SlotName(a), SlotName(b);
    assert IntString(a) == sa[..|sa| - 4];
    assert IntString(b) == sb[..|sb| - 4];
    IntStringInjective(a, b);
  }

  /** Distinct slot numbers give distinct slots of a directory. */
  lemma SlotPathInjective(dir: Path, a: int, b: int)
    requires SlotPath(dir, a) == SlotPath(dir, b)
    ensures a == b
  {
    assert SlotPath(dir, a)[|dir|] == SlotName(a);
    assert SlotPath(dir, b)[|dir|] == SlotName(b);
    SlotNameInjective(a, b);
  }

  /** The contents of the entries whose names `accept` admits, in their order. The loaders
      admit exactly the names `ExtensionsValidators.is_dicom` classifies as DICOM. */
  function Accepted(files: seq<Upload>, accept: string -> bool): (cs: seq<seq<byte>>)
    ensures |cs| <= |files|
    decreases |files|
  {
    if files == [] then []
    else
      var last := files[|files| - 1];
      Accepted(files[..|files| - 1], accept) + (if accept(last.filename) then [last.content] else [])
  }

  /** Accepting is decided entry by entry: the accepted contents of a concatenation are
      the concatenation of the accepted contents. */
  lemma {:induction false} AcceptedAppend(a: seq<Upload>, b: seq<Upload>, accept: string -> bool)
    ensures Accepted(a + b, accept) == Accepted(a, accept) + Accepted(b, accept)
    decreases |b|
  {
    if b == [] {
      assert a + b == a;
    } else {
      var b' := b[..|b| - 1];
      assert (a + b)[..|a + b| - 1] == a + b';
      assert (a + b)[|a + b| - 1] == b[|b| - 1];
      AcceptedAppend(a, b', accept);
    }
  }

  /** An entry is accepted exactly when its name is admitted. */
  lemma {:induction false} AcceptedSingle(u: Upload, accept: string -> bool)
    ensures Accepted([u], accept) == if accept(u.filename) then [u.content] else []
  {
    assert [u][..0] == [];
  }

  /** `t` with slot `k` of `dir` holding `cs[k - 1]`, for every `k` in `1..|cs|`. */
  function WriteSlots(t: Tree, dir: Path, cs: seq<seq<byte>>): Tree
    decreases |cs|
  {
    if cs == [] then t
    else WriteSlots(t, dir, cs[..|cs| - 1])[SlotPath(dir, |cs|) := File(cs[|cs| - 1])]
  }

  /** The slots `1..n` of `dir`. */
  function SlotSet(dir: Path, n: nat): set<Path>
  {
    set k | 1 <= k <= n :: SlotPath(dir, k)
  }

  /** After the slots are written, slot `k` holds the `k`-th content, and every other
      entry is as before. */
  lemma {:induction false} WriteSlotsLookup(t: Tree, dir: Path, cs: seq<seq<byte>>, q: Path)
    ensures q in WriteSlots(t, dir, cs) <==> q in t || q in SlotSet(dir, |cs|)
    ensures forall k :: 1 <= k <= |cs| && q == SlotPath(dir, k) ==>
              WriteSlots(t, dir, cs)[q] == File(cs[k - 1])
    ensures q !in SlotSet(dir, |cs|) && q in t ==> WriteSlots(t, dir, cs)[q] == t[q]
    decreases |cs|
  {
    if cs != [] {
      var n := |cs|;
      var cs' := cs[..n - 1];
      WriteSlotsLookup(t, dir, cs', q);
      assert SlotSet(dir, n) == SlotSet(dir, n - 1) + {SlotPath(dir, n)};
      forall k | 1 <= k <= n && q == SlotPath(dir, k)
        ensures WriteSlots(t, dir, cs)[q] == File(cs[k - 1])
      {
        if k < n {
          if q == SlotPath(dir, n) {
            SlotPathInjective(dir, k, n);
          }
          assert cs'[k - 1] == cs[k - 1];
        }
      }
    }
  }

  /** Overwriting slot `k` after the slots are written is writing the slots with the
      `k`-th content replaced. */
  lemma {:induction false} WriteSlotsUpdate(t: Tree, dir: Path, cs: seq<seq<byte>>, k: nat,
                                            c: seq<byte>)
    requires 1 <= k <= |cs|
    ensures WriteSlots(t, dir, cs)[SlotPath(dir, k) := File(c)] == WriteSlots(t, dir, cs[k - 1 := c])
    decreases |cs|
  {
    var n := |cs|;
    var cs' := cs[..n - 1];
    var ds := cs[k - 1 := c];
    var last, slot := SlotPath(dir, n), SlotPath(dir, k);
    if k == n {
      assert ds[..n - 1] == cs';
      assert WriteSlots(t, dir, cs')[last := File(cs[n - 1])][last := File(c)]
             == WriteSlots(t, dir, cs')[last := File(c)];
    } else {
      assert ds[..n - 1] == cs'[k - 1 := c] && ds[n - 1] == cs[n - 1];
      WriteSlotsUpdate(t, dir, cs', k, c);
      SlotPathsDiffer(dir, k, n);
      assert WriteSlots(t, dir, cs')[last := File(cs[n - 1])][slot := File(c)]
             == WriteSlots(t, dir, cs')[slot := File(c)][last := File(cs[n - 1])];
    }
  }

  /** The slots `1..n` are `n` distinct paths. */
  lemma {:induction false} SlotSetSize(dir: Path, n: nat)
    ensures |SlotSet(dir, n)| == n
    decreases n
  {
    if n > 0 {
      assert SlotSet(dir, n) == SlotSet(dir, n - 1) + {SlotPath(dir, n)};
      if SlotPath(dir, n) in SlotSet(dir, n - 1) {
        var k :| 1 <= k <= n - 1 && SlotPath(dir, k) == SlotPath(dir, n);
        SlotPathInjective(dir, k, n);
      }
      SlotSetSize(dir, n - 1);
    }
  }

  /** Distinct slot numbers give distinct slots (the contrapositive form). */
  lemma SlotPathsDiffer(dir: Path, a: int, b: int)
    requires a != b
    ensures SlotPath(dir, a) != SlotPath(dir, b)
  {
    if SlotPath(dir, a) == SlotPath(dir, b) {
      SlotPathInjective(dir, a, b);
    }
  }

  /** Writing slots keeps the directory they are written into. */
  lemma {:induction false} WriteSlotsKeepsDir(t: Tree, dir: Path, cs: seq<seq<byte>>)
    requires IsDirIn(t, dir)
    ensures IsDirIn(WriteSlots(t, dir, cs), dir)
    decreases |cs|
  {
    if cs != [] {
      WriteSlotsKeepsDir(t, dir, cs[..|cs| - 1]);
      assert |SlotPath(dir, |cs|)| != |dir|;
    }
  }

  /** Slots past the last one written stay absent from a directory that started empty. */
  lemma {:induction false} WriteSlotsFresh(t: Tree, dir: Path, cs: seq<seq<byte>>, m: int)
    requires Children(t, dir) == {} && m > |cs|
    ensures SlotPath(dir, m) !in WriteSlots(t, dir, cs)
    decreases |cs|
  {
    if cs == [] {
      assert SlotPath(dir, m) !in Children(t, dir);
    } else {
      WriteSlotsFresh(t, dir, cs[..|cs| - 1], m);
      SlotPathsDiffer(dir, m, |cs|);
    }
  }

  /** Writing the slots into an empty directory leaves exactly those slots in it. */
  lemma SlotsFillEmptyDir(t: Tree, dir: Path, cs: seq<seq<byte>>)
    requires Children(t, dir) == {}
    ensures Children(WriteSlots(t, dir, cs), dir) == SlotSet(dir, |cs|)
    ensures |Children(WriteSlots(t, dir, cs), dir)| == |cs|
  {
    var t' := WriteSlots(t, dir, cs);
    forall q ensures q in Children(t', dir) <==> q in SlotSet(dir, |cs|) {
      WriteSlotsLookup(t, dir, cs, q);
      assert q !in Children(t, dir);
    }
    SlotSetSize(dir, |cs|);
  }

  /** How far a loader got: how many uploads it accepted, the error that stopped it, if
      any, and the tree it left. */
  datatype Progress = Progress(count: nat, failure: Option<Error>, tree: Tree)

  /** `open(target, 'wb').write(content)`, as one step of a loader. */
  function Written(t: Tree, u: Upload, target: Path): Effect<Path>
  {
    if WriteError(t, target).Some? then Effect(Err(WriteError(t, target).value), t)
    else Effect(Ok(target), t[target := File(u.content)])
  }

  /** One more upload is one more turn of the loop. */
  lemma LoadedNext(t: Tree, dir: Path, prefix: seq<Upload>, u: Upload,
                   accept: string -> bool, step: (Tree, Upload, Path) -> Effect<Path>)
    ensures Loaded(t, dir, prefix + [u], accept, step)
            == UploadStep(Loaded(t, dir, prefix, accept, step), dir, u, accept, step)
  {
    var files := prefix + [u];
    assert files[..|files| - 1] == prefix && files[|files| - 1] == u;
  }

  /** `LoadedNext` for a prefix of the uploads. */
  lemma LoadedAt(t: Tree, dir: Path, files: seq<Upload>, i: nat,
                 accept: string -> bool, step: (Tree, Upload, Path) -> Effect<Path>)
    requires i < |files|
    ensures Loaded(t, dir, files[..i + 1], accept, step)
            == UploadStep(Loaded(t, dir, files[..i], accept, step), dir, files[i], accept, step)
  {
    assert files[..i + 1] == files[..i] + [files[i]];
    LoadedNext(t, dir, files[..i], files[i], accept, step);
  }

  /** An accepted upload after no failure is opened for writing at the next slot: the
      step fails with the open's error, or the slot then holds the upload's bytes. */
  lemma UploadStepWritten(p: Progress, dir: Path, u: Upload, accept: string -> bool)
    requires p.failure.None? && accept(u.filename)
    ensures var slot := SlotPath(dir, p.count + 1);
            var e := WriteError(p.tree, slot);
            UploadStep(p, dir, u, accept, Written)
            == Progress(p.count + 1, e, if e.None? then p.tree[slot := File(u.content)] else p.tree)
  {
  }

  /** The turn of the list loader's loop for `files[i]`, after the uploads before it
      were written without failure. */
  lemma ListLoadStep(t0: Tree, dir: Path, files: seq<Upload>, i: nat, count: nat, t: Tree)
    requires i < |files| && Loaded(t0, dir, files[..i], IsDicom, Written) == Progress(count, None, t)
    ensures var u := files[i];
            var slot := SlotPath(dir, count + 1);
            var e := WriteError(t, slot);
            Loaded(t0, dir, files[..i + 1], IsDicom, Written)
            == if !IsDicom(u.filename) then Progress(count, None, t)
               else Progress(count + 1, e, if e.None? then t[slot := File(u.content)] else t)
  {
    LoadedAt(t0, dir, files, i, IsDicom, Written);
    if IsDicom(files[i].filename) {
      UploadStepWritten(Progress(count, None, t), dir, files[i], IsDicom);
    }
  }

  /** An archive member seen as an upload: its name and its whole data. */
  function AsUpload(m: ZipMember): Upload
  {
    Upload(m.filename, m.content)
  }

  /** The loop both loaders run: every entry whose name `accept` admits takes, in order,
      the next slot number `k` and is stored at slot `k` by `step`; the first failing step
      stops it. */
  function Loaded(t: Tree, dir: Path, files: seq<Upload>, accept: string -> bool,
                  step: (Tree, Upload, Path) -> Effect<Path>): (p: Progress)
    ensures p.count <= |files|
    decreases |files|
  {
    if files == [] then Progress(0, None, t)
    else
      UploadStep(Loaded(t, dir, files[..|files| - 1], accept, step), dir, files[|files| - 1],
                 accept, step)
  }

  /** One turn of a list loader's loop after `p`: an upload the validator refuses, or any
      upload after a failure, changes nothing; otherwise `step` puts it in the next slot. */
  function UploadStep(p: Progress, dir: Path, u: Upload, accept: string -> bool,
                      step: (Tree, Upload, Path) -> Effect<Path>): Progress
  {
    if p.failure.Some? || !accept(u.filename) then p
    else
      var o := step(p.tree, u, SlotPath(dir, p.count + 1));
      Progress(p.count + 1, if o.result.Err? then Some(o.result.error) else None, o.tree)
  }

  /** Once a step has failed, the entries after it change nothing. */
  lemma {:induction false} LoadedStops(t: Tree, dir: Path, files: seq<Upload>, i: nat,
                                       accept: string -> bool,
                                       step: (Tree, Upload, Path) -> Effect<Path>)
    requires i <= |files| && Loaded(t, dir, files[..i], accept, step).failure.Some?
    ensures Loaded(t, dir, files, accept, step) == Loaded(t, dir, files[..i], accept, step)
    decreases |files|
  {
    if i < |files| {
      assert files[..|files| - 1][..i] == files[..i];
      LoadedStops(t, dir, files[..|files| - 1], i, accept, step);
    } else {
      assert files[..i] == files;
    }
  }

  /** The last entry decides alone how loading a list differs from loading the list
      without it. */
  lemma LoadedLast(t: Tree, dir: Path, prefix: seq<Upload>, u: Upload,
                   accept: string -> bool, step: (Tree, Upload, Path) -> Effect<Path>)
    ensures var p := Loaded(t, dir, prefix, accept, step);
            (!accept(u.filename) ==>
               Loaded(t, dir, prefix + [u], accept, step) == p &&
               Accepted(prefix + [u], accept) == Accepted(prefix, accept)) &&
            (accept(u.filename) ==>
               Accepted(prefix + [u], accept) == Accepted(prefix, accept) + [u.content] &&
               Loaded(t, dir, prefix + [u], accept, step) ==
                 if p.failure.Some? then p
                 else
                   var o := step(p.tree, u, SlotPath(dir, p.count + 1));
                   Progress(p.count + 1, if o.result.Err? then Some(o.result.error) else None, o.tree))
  {
    var files := prefix + [u];
    assert files[..|files| - 1] == prefix;
    assert files[|files| - 1] == u;
  }

  /** Writing the next slot of a directory that started empty succeeds and extends the
      written slots by one. */
  lemma WriteNextSlot(t: Tree, dir: Path, cs: seq<seq<byte>>, u: Upload)
    requires IsDirIn(t, dir) && Children(t, dir) == {}
    ensures Written(WriteSlots(t, dir, cs), u, SlotPath(dir, |cs| + 1))
            == Effect(Ok(SlotPath(dir, |cs| + 1)), WriteSlots(t, dir, cs + [u.content]))
  {
    var t1 := WriteSlots(t, dir, cs);
    var target := SlotPath(dir, |cs| + 1);
    WriteSlotsKeepsDir(t, dir, cs);
    WriteSlotsFresh(t, dir, cs, |cs| + 1);
    assert Parent(target) == dir;
    assert !IsDirIn(t1, target) && IsDirIn(t1, dir);
    assert (cs + [u.content])[..|cs|] == cs;
  }

  /** Into an empty directory nothing fails: the loader accepts exactly the admitted
      entries, and the `k`-th of them, in order, fills slot `k`. */
  lemma {:induction false} LoadedIntoEmptyDir(t: Tree, dir: Path, files: seq<Upload>,
                                              accept: string -> bool)
    requires IsDirIn(t, dir) && Children(t, dir) == {}
    ensures Loaded(t, dir, files, accept, Written)
            == Progress(|Accepted(files, accept)|, None, WriteSlots(t, dir, Accepted(files, accept)))
    decreases |files|
  {
    if files != [] {
      var prefix := files[..|files| - 1];
      var u := files[|files| - 1];
      LoadedIntoEmptyDir(t, dir, prefix, accept);
      assert prefix + [u] == files;
      LoadedIntoEmptyDirStep(t, dir, prefix, u, accept);
    }
  }

  /** The inductive step of `LoadedIntoEmptyDir`: one more entry. */
  lemma LoadedIntoEmptyDirStep(t: Tree, dir: Path, prefix: seq<Upload>, u: Upload,
                               accept: string -> bool)
    requires IsDirIn(t, dir) && Children(t, dir) == {}
    requires Loaded(t, dir, prefix, accept, Written)
             == Progress(|Accepted(prefix, accept)|, None, WriteSlots(t, dir, Accepted(prefix, accept)))
    ensures Loaded(t, dir, prefix + [u], accept, Written)
            == Progress(|Accepted(prefix + [u], accept)|, None,
                        WriteSlots(t, dir, Accepted(prefix + [u], accept)))
  {
    LoadedLast(t, dir, prefix, u, accept, Written);
    if accept(u.filename) {
      WriteNextSlot(t, dir, Accepted(prefix, accept), u);
    }
  }

  /** Loading never removes entries and never turns a directory into something else. */
  lemma {:induction false} LoadedKeepsDirs(t: Tree, dir: Path, files: seq<Upload>,
                                           accept: string -> bool, q: Path)
    requires IsDirIn(t, q)
    ensures IsDirIn(Loaded(t, dir, files, accept, Written).tree, q)
    decreases |files|
  {
    if files != [] {
      var prefix, u := files[..|files| - 1], files[|files| - 1];
      LoadedKeepsDirs(t, dir, prefix, accept, q);
      LoadedLast(t, dir, prefix, u, accept, Written);
      assert prefix + [u] == files;
    }
  }

  /** Whatever the directory held before, a list load that raises nothing has written the
      `k`-th accepted entry to slot `k`, for every `k`, and counted them all. */
  lemma {:induction false} LoadedWritesSlots(t: Tree, dir: Path, files: seq<Upload>,
                                             accept: string -> bool)
    requires Loaded(t, dir, files, accept, Written).failure.None?
    ensures Loaded(t, dir, files, accept, Written)
            == Progress(|Accepted(files, accept)|, None, WriteSlots(t, dir, Accepted(files, accept)))
    decreases |files|
  {
    if files != [] {
      var prefix, u := files[..|files| - 1], files[|files| - 1];
      var p := Loaded(t, dir, prefix, accept, Written);
      assert Loaded(t, dir, files, accept, Written) == UploadStep(p, dir, u, accept, Written);
      LoadedWritesSlots(t, dir, prefix, accept);
      var cs := Accepted(prefix, accept);
      if accept(u.filename) {
        assert Accepted(files, accept) == cs + [u.content];
        UploadStepWritten(p, dir, u, accept);
        assert (cs + [u.content])[..|cs|] == cs;
      } else {
        assert Accepted(files, accept) == cs;
      }
    }
  }

  /** The loop of `AsyncArchiveLoader.load` over the archive's `filelist`: every member
      named like a DICOM file takes the next slot number `k` and is extracted flat as
      `k.dcm`; the first member whose extraction raises ends the loop, counted. */
  function MembersLoaded(t: Tree, dir: Path, members: seq<ZipMember>): (p: Progress)
    ensures p.count <= |members|
    decreases |members|
  {
    if members == [] then Progress(0, None, t)
    else
      var p := MembersLoaded(t, dir, members[..|members| - 1]);
      var m := members[|members| - 1];
      MemberStep(p, dir, m)
  }

  /** One turn of the archive loader's loop after `p`: a member not named like a DICOM
      file, or any member after a failure, changes nothing; otherwise the member is
      extracted to the next slot, which is where `ExtractTarget` puts it flat under that
      slot's name (`ExtractTargetFlat`). */
  function MemberStep(p: Progress, dir: Path, m: ZipMember): Progress
  {
    if p.failure.Some? || !IsDicom(m.filename) then p
    else
      var o := Extracted(p.tree, m, SlotPath(dir, p.count + 1));
      Progress(p.count + 1, if o.result.Err? then Some(o.result.error) else None, o.tree)
  }

  /** The last member decides alone how loading an archive differs from loading it
      without that member; its target is slot `count + 1`. */
  lemma MembersLoadedLast(t: Tree, dir: Path, prefix: seq<ZipMember>, m: ZipMember)
    ensures MembersLoaded(t, dir, prefix + [m]) == MemberStep(MembersLoaded(t, dir, prefix), dir, m)
  {
    var ms := prefix + [m];
    assert ms[..|ms| - 1] == prefix && ms[|ms| - 1] == m;
  }

  /** Once a member's extraction has raised, the members after it change nothing. */
  lemma {:induction false} MembersLoadedStops(t: Tree, dir: Path, members: seq<ZipMember>, i: nat)
    requires i <= |members| && MembersLoaded(t, dir, members[..i]).failure.Some?
    ensures MembersLoaded(t, dir, members) == MembersLoaded(t, dir, members[..i])
    decreases |members|
  {
    if i < |members| {
      assert members[..|members| - 1][..i] == members[..i];
      MembersLoadedStops(t, dir, members[..|members| - 1], i);
    } else {
      assert members[..i] == members;
    }
  }

  /** The turn of the archive loader's loop for `members[i]`, after the members before it
      were extracted without failure: the call `extract(member, path, parents=False,
      filename=f'{count}.dcm')`. */
  lemma ArchiveLoadStep(t0: Tree, dir: Path, members: seq<ZipMember>, i: nat, count: nat, t: Tree)
    requires i < |members| && MembersLoaded(t0, dir, members[..i]) == Progress(count, None, t)
    ensures var m := members[i];
            var o := Extracted(t, m, ExtractTarget(dir, m, false, Some(SlotName(count + 1))));
            MembersLoaded(t0, dir, members[..i + 1])
            == if !IsDicom(m.filename) then Progress(count, None, t)
               else Progress(count + 1, if o.result.Err? then Some(o.result.error) else None, o.tree)
  {
    var m := members[i];
    MembersLoadedAt(t0, dir, members, i);
    assert ExtractTarget(dir, m, false, Some(SlotName(count + 1))) == SlotPath(dir, count + 1) by {
      ExtractTargetFlat(dir, m, m, SlotName(count + 1));
      SlotNamePlain(count + 1);
    }
  }

  /** `MembersLoadedLast` for a prefix of the members. */
  lemma MembersLoadedAt(t: Tree, dir: Path, members: seq<ZipMember>, i: nat)
    requires i < |members|
    ensures MembersLoaded(t, dir, members[..i + 1])
            == MemberStep(MembersLoaded(t, dir, members[..i]), dir, members[i])
  {
    assert members[..i + 1] == members[..i] + [members[i]];
    MembersLoadedLast(t, dir, members[..i], members[i]);
  }

  /** Every member named like a DICOM file can be read whole. */
  predicate DicomReadable(members: seq<ZipMember>)
  {
    forall i :: 0 <= i < |members| && IsDicom(members[i].filename) ==> members[i].outcome.Readable?
  }

  /** Extracting a readable file member into an existing directory is writing its data. */
  lemma ExtractedIsWritten(t: Tree, m: ZipMember, target: Path)
    requires !IsDirName(m.filename) && m.outcome.Readable? && PathExists(t, Parent(target))
    ensures Extracted(t, m, target) == Written(t, AsUpload(m), target)
  {
  }

  /** While the captures directory exists and the DICOM members read whole, the archive
      loader does what the list loader does with the members as uploads. */
  lemma {:induction false} MembersLoadedIsLoaded(t: Tree, dir: Path, members: seq<ZipMember>)
    requires IsDirIn(t, dir) && DicomReadable(members)
    ensures MembersLoaded(t, dir, members) == Loaded(t, dir, Uploads(members), IsDicom, Written)
    decreases |members|
  {
    if members != [] {
      var prefix, m := members[..|members| - 1], members[|members| - 1];
      assert prefix + [m] == members;
      assert DicomReadable(prefix) by {
        forall i | 0 <= i < |prefix| && IsDicom(prefix[i].filename)
          ensures prefix[i].outcome.Readable?
        {
          assert prefix[i] == members[i];
        }
      }
      assert Uploads(members) == Uploads(prefix) + [AsUpload(m)];
      MembersLoadedIsLoaded(t, dir, prefix);
      MembersLoadedIsLoadedStep(t, dir, prefix, m);
    }
  }

  /** The inductive step of `MembersLoadedIsLoaded`: one more member. */
  lemma MembersLoadedIsLoadedStep(t: Tree, dir: Path, prefix: seq<ZipMember>, m: ZipMember)
    requires IsDirIn(t, dir) && (IsDicom(m.filename) ==> m.outcome.Readable?)
    requires MembersLoaded(t, dir, prefix) == Loaded(t, dir, Uploads(prefix), IsDicom, Written)
    ensures MembersLoaded(t, dir, prefix + [m])
            == Loaded(t, dir, Uploads(prefix) + [AsUpload(m)], IsDicom, Written)
  {
    var p := Loaded(t, dir, Uploads(prefix), IsDicom, Written);
    MembersLoadedLast(t, dir, prefix, m);
    LoadedLast(t, dir, Uploads(prefix), AsUpload(m), IsDicom, Written);
    if p.failure.None? && IsDicom(m.filename) {
      LoadedKeepsDirs(t, dir, Uploads(prefix), IsDicom, dir);
      MemberStepIsWritten(p, dir, m);
    }
  }

  /** A readable DICOM member extracted into the next slot of an existing directory is
      that member written as an upload. */
  lemma MemberStepIsWritten(p: Progress, dir: Path, m: ZipMember)
    requires p.failure.None? && IsDicom(m.filename) && m.outcome.Readable? && IsDirIn(p.tree, dir)
    ensures var o := Written(p.tree, AsUpload(m), SlotPath(dir, p.count + 1));
            MemberStep(p, dir, m)
            == Progress(p.count + 1, if o.result.Err? then Some(o.result.error) else None, o.tree)
  {
    var target := SlotPath(dir, p.count + 1);
    assert Parent(target) == dir;
    ClassifiedNameNotDirectory(m.filename);
    ExtractedIsWritten(p.tree, m, target);
    var o := Written(p.tree, AsUpload(m), target);
    assert MemberStep(p, dir, m)
           == Progress(p.count + 1, if o.result.Err? then Some(o.result.error) else None, o.tree);
  }

  /** Into an empty directory, the first DICOM member that cannot be read whole ends the
      archive loader: the members before it fill slots `1..n` in order, its own slot
      `n + 1` is counted and holds the bytes copied before the failure, or is not created
      at all when the member cannot even be opened. */
  lemma MembersLoadedBroken(t: Tree, dir: Path, members: seq<ZipMember>, j: nat)
    requires IsDirIn(t, dir) && Children(t, dir) == {}
    requires j < |members| && DicomReadable(members[..j])
    requires IsDicom(members[j].filename) && !members[j].outcome.Readable?
    ensures var cs := Accepted(Uploads(members[..j]), IsDicom);
            var m := members[j];
            MembersLoaded(t, dir, members)
            == Progress(|cs| + 1, Some(m.outcome.error),
                        if m.outcome.OpenFails? then WriteSlots(t, dir, cs)
                        else WriteSlots(t, dir, cs + [m.Copied()]))
  {
    assert members[..j + 1] == members[..j] + [members[j]];
    MembersLoadedBrokenLast(t, dir, members[..j], members[j]);
    MembersLoadedStops(t, dir, members, j + 1);
  }

  /** `MembersLoadedBroken` up to and including the unreadable member. */
  lemma MembersLoadedBrokenLast(t: Tree, dir: Path, prefix: seq<ZipMember>, m: ZipMember)
    requires IsDirIn(t, dir) && Children(t, dir) == {} && DicomReadable(prefix)
    requires IsDicom(m.filename) && !m.outcome.Readable?
    ensures var cs := Accepted(Uploads(prefix), IsDicom);
            MembersLoaded(t, dir, prefix + [m])
            == Progress(|cs| + 1, Some(m.outcome.error),
                        if m.outcome.OpenFails? then WriteSlots(t, dir, cs)
                        else WriteSlots(t, dir, cs + [m.Copied()]))
  {
    var cs := Accepted(Uploads(prefix), IsDicom);
    MembersLoadedIsLoaded(t, dir, prefix);
    LoadedIntoEmptyDir(t, dir, Uploads(prefix), IsDicom);
    var p := Progress(|cs|, None, WriteSlots(t, dir, cs));
    assert MembersLoaded(t, dir, prefix) == p;
    MembersLoadedLast(t, dir, prefix, m);
    WriteSlotsKeepsDir(t, dir, cs);
    WriteSlotsFresh(t, dir, cs, |cs| + 1);
    MemberStepUnreadable(p, dir, m);
    assert (cs + [m.Copied()])[..|cs|] == cs;
  }

  /** A DICOM member that cannot be read whole, extracted into a fresh slot of an
      existing directory, takes the slot's number and raises its error; the slot holds
      what was copied before the failure, or is not created when opening failed. */
  lemma MemberStepUnreadable(p: Progress, dir: Path, m: ZipMember)
    requires p.failure.None? && IsDicom(m.filename) && !m.outcome.Readable?
    requires IsDirIn(p.tree, dir) && SlotPath(dir, p.count + 1) !in p.tree
    ensures var slot := SlotPath(dir, p.count + 1);
            MemberStep(p, dir, m)
            == Progress(p.count + 1, Some(m.outcome.error),
                        if m.outcome.OpenFails? then p.tree
                        else p.tree[slot := File(m.Copied())])
  {
    var slot := SlotPath(dir, p.count + 1);
    assert Parent(slot) == dir;
    ClassifiedNameNotDirectory(m.filename);
    ExtractedUnreadable(p.tree, m, slot);
    var o := Extracted(p.tree, m, slot);
    assert o == Effect(Err(m.outcome.error),
                       if m.outcome.OpenFails? then p.tree else p.tree[slot := File(m.Copied())]);
  }

  /** `AsyncDicomListLoader`: the uploads of one request. */
  class DicomListLoader {
    const files: seq<Upload>

    constructor (files: seq<Upload>)
      ensures this.files == files
    {
      this.files := files;
    }

    /** `load(path)`: each DICOM-named upload takes the next number `count` and is written
        to `path/{count}.dcm`; the number written is returned. A failing write raises. */
    method Load(fs: FileSystem, path: Path) returns (r: Result<nat, Error>)
      modifies fs
      ensures var p := Loaded(old(fs.entries), path, files, IsDicom, Written);
              r == (if p.failure.Some? then Err(p.failure.value) else Ok(p.count)) &&
              fs.entries == p.tree
    {
      ghost var t0 := fs.entries;
      var count := 0;
      var i := 0;
      while i < |files|
        invariant 0 <= i <= |files|
        invariant Loaded(t0, path, files[..i], IsDicom, Written) == Progress(count, None, fs.entries)
      {
        var file := files[i];
        ListLoadStep(t0, path, files, i, count, fs.entries);
        if !IsDicom(file.filename) {
          i := i + 1;
          continue;
        }
        count := count + 1;
        var err := fs.WriteFile(SlotPath(path, count), file.content);
        if err.Some? {
          assert Loaded(t0, path, files, IsDicom, Written)
                 == Loaded(t0, path, files[..i + 1], IsDicom, Written) by {
            LoadedStops(t0, path, files, i + 1, IsDicom, Written);
          }
          return Err(err.value);
        }
        i := i + 1;
      }
      assert files[..i] == files;
      r := Ok(count);
    }
  }

  /** `AsyncArchiveLoader`: one uploaded zip archive. */
  class ArchiveLoader {
    const file: Upload

    constructor (file: Upload)
      ensures this.file == file
    {
      this.file := file;
    }

    /** The copy into the temporary file: `read(5 MiB)` until a read comes back empty,
        appending every chunk. */
    method Stage() returns (staged: seq<byte>)
      ensures staged == file.content
    {
      var data := file.content;
      var pos := 0;
      staged := [];
      while true
        invariant 0 <= pos <= |data| && staged == data[..pos]
        decreases |data| - pos
      {
        var stop := if pos + ChunkSize < |data| then pos + ChunkSize else |data|;
        var chunk := data[pos..stop];
        if chunk == [] {
          break;
        }
        staged := staged + chunk;
        pos := stop;
      }
      assert pos == |data|;
      assert data[..pos] == data;
    }

    /** `load(path)` under `tempfile_context`, whose bare `except: pass` swallows what the
        body raises: an archive that cannot be opened leaves `count` unbound, so the final
        `return count` raises `UnboundLocalError`; a failing extraction ends the loop and
        the count so far, the failed member included, is returned. `decode` stands for
        `ZipFile` reading the staged bytes. */
    method Load(fs: FileSystem, path: Path, decode: seq<byte> -> Option<seq<ZipMember>>)
      returns (r: Result<nat, Error>)
      modifies fs
      ensures decode(file.content).None? ==> r == Err(UnboundLocalError) && fs.entries == old(fs.entries)
      ensures decode(file.content).Some? ==>
                var p := MembersLoaded(old(fs.entries), path, decode(file.content).value);
                r == Ok(p.count) && fs.entries == p.tree
    {
      var staged := Stage();
      var archive := decode(staged);
      if archive.None? {
        return Err(UnboundLocalError);
      }
      var zip := new CustomZipFile(archive.value);
      var count := 0;
      var i := 0;
      while i < |zip.filelist|
        invariant 0 <= i <= |zip.filelist|
        invariant MembersLoaded(old(fs.entries), path, zip.filelist[..i]) == Progress(count, None, fs.entries)
      {
        var member := zip.filelist[i];
        ArchiveLoadStep(old(fs.entries), path, zip.filelist, i, count, fs.entries);
        if !IsDicom(member.filename) {
          i := i + 1;
          continue;
        }
        count := count + 1;
        var extracted := zip.Extract(fs, member, path, false, Some(SlotName(count)));
        if extracted.Err? {
          MembersLoadedStops(old(fs.entries), path, zip.filelist, i + 1);
          return Ok(count);
        }
        i := i + 1;
      }
      assert zip.filelist[..i] == zip.filelist;
      r := Ok(count);
    }
  }

  /** The entries of an archive, in `filelist` order. */
  function Uploads(members: seq<ZipMember>): (us: seq<Upload>)
    ensures |us| == |members|
    ensures forall i :: 0 <= i < |members| ==> us[i] == AsUpload(members[i])
  {
    seq(|members|, i requires 0 <= i < |members| => AsUpload(members[i]))
  }

  /** `MarkupLoader`: one uploaded markup file. */
  class MarkupLoader {
    const file: Upload

    constructor (file: Upload)
      ensures this.file == file
    {
      this.file := file;
    }

    /** `load(path)`: `path` is opened for writing, truncated, and receives the whole
        upload. */
    method Load(fs: FileSystem, path: Path) returns (err: Option<Error>)
      modifies fs
      ensures err == WriteError(old(fs.entries), path)
      ensures err.None? ==> ReadFile(fs.entries, path) == Ok(file.content)
      ensures fs.entries == if err.None? then old(fs.entries)[path := File(file.content)]
                            else old(fs.entries)
    {
      err := fs.WriteFile(path, file.content);
      if err.None? {
        WriteThenRead(old(fs.entries), path, file.content);
      }
    }
  }

  /** `load_captures` after its existence check: the archive loader iff there is exactly
      one upload and its name classifies as an archive, the list loader otherwise; no
      accepted file at all gives `None`. */
  method LoadCaptures(fs: FileSystem, files: seq<Upload>, path: Path,
                      decode: seq<byte> -> Option<seq<ZipMember>>)
    returns (r: Result<Option<nat>, Error>)
    modifies fs
    ensures var loaded := CapturesLoaded(old(fs.entries), files, path, decode);
            r == Reported(loaded.result) && fs.entries == loaded.tree
  {
    var loaded: Result<nat, Error>;
    if |files| == 1 && IsArchive(files[0].filename) {
      var loader := new ArchiveLoader(files[0]);
      loaded := loader.Load(fs, path, decode);
    } else {
      var loader := new DicomListLoader(files);
      loaded := loader.Load(fs, path);
    }
    if loaded.Err? {
      return Err(loaded.error);
    }
    if loaded.value == 0 {
      return Ok(None);
    }
    return Ok(Some(loaded.value));
  }

  /** `if not loaded: return None`: a count of 0 is reported as `None`. */
  function Reported(loaded: Result<nat, Error>): (r: Result<Option<nat>, Error>)
    ensures loaded.Err? <==> r.Err?
    ensures r == Ok(None) <==> loaded == Ok(0)
    ensures loaded.Ok? && loaded.value > 0 ==> r == Ok(Some(loaded.value))
  {
    match loaded
    case Err(e) => Err(e)
    case Ok(n) => Ok(if n == 0 then None else Some(n))
  }

  function CapturesLoaded(t: Tree, files: seq<Upload>, path: Path,
                          decode: seq<byte> -> Option<seq<ZipMember>>): Effect<nat>
  {
    if |files| == 1 && IsArchive(files[0].filename) then
      match decode(files[0].content)
      case None => Effect(Err(UnboundLocalError), t)
      case Some(members) =>
        var p := MembersLoaded(t, path, members);
        Effect(Ok(p.count), p.tree)
    else
      var p := Loaded(t, path, files, IsDicom, Written);
      Effect(if p.failure.Some? then Err(p.failure.value) else Ok(p.count), p.tree)
  }

  /** Loading into an empty captures directory: the accepted entries (uploads, or the
      archive's members) fill slots `1..n` in order, the directory then lists exactly
      `n` entries, and `n` is returned, as `None` when it is 0. Only an archive that
      cannot be opened, or one with a DICOM member that cannot be read whole (the case
      `MembersLoadedBroken` describes), escapes this. */
  lemma CapturesLoadedIntoEmptyDir(t: Tree, files: seq<Upload>, path: Path,
                                   decode: seq<byte> -> Option<seq<ZipMember>>)
    requires IsDirIn(t, path) && Children(t, path) == {}
    ensures var loaded := CapturesLoaded(t, files, path, decode);
            var archive := |files| == 1 && IsArchive(files[0].filename);
            (archive && (decode(files[0].content).None? || !DicomReadable(decode(files[0].content).value))) ||
            var entries := if archive then Uploads(decode(files[0].content).value) else files;
            (loaded.result == Ok(|Accepted(entries, IsDicom)|) &&
             loaded.tree == WriteSlots(t, path, Accepted(entries, IsDicom)) &&
             ListDirCount(loaded.tree, path) == Ok(|Accepted(entries, IsDicom)|))
  {
    var archive := |files| == 1 && IsArchive(files[0].filename);
    if archive && (decode(files[0].content).None? || !DicomReadable(decode(files[0].content).value)) {
      return;
    }
    var entries := if archive then Uploads(decode(files[0].content).value) else files;
    LoadedIntoEmptyDir(t, path, entries, IsDicom);
    if archive {
      MembersLoadedIsLoaded(t, path, decode(files[0].content).value);
    }
    var cs := Accepted(entries, IsDicom);
    SlotsFillEmptyDir(t, path, cs);
    WriteSlotsLookup(t, path, cs, path);
  }
}
