# Research capture storage, upload sanitising and request helpers

This project models the storage core of a web service for annotating CT studies.

**Research storage.** A *research* is a folder holding three things:
- a `captures/` directory of DICOM slices named `1.dcm`, `2.dcm`, …;
- a `markup.json` annotation file;
- optionally, a `preview.jpg` rendered from the middle slice.

**Temporary CT storage.** A *temporary CT* is a folder holding only `captures/`. Its captures can be depersonalised in place.

**Folder layout.** Both kinds of folder live under a root directory, at `root / name[:2] / name`. `FileStorage` manages that layout.

**Loading captures.** A list of uploaded `.dcm` files is written slot by slot. A single `.zip` upload is unpacked instead: each `.dcm` member goes into the next slot, through a zip extractor whose member-name sanitiser drops empty, `.` and `..` components. Uploads are classified by their file extension.

**Other parts of the core:**
- the builder that turns the optional search criteria into a numbered SQL `WHERE` clause and its argument list;
- the HTTP exception object, whose call overrides its fields in place.

The filesystem is a map from paths (sequences of components) to nodes, which are directories or files of bytes. Every OS primitive has two parts:
- a pure function giving the error it raises, such as `FileExistsError`, `FileNotFoundError` or `NotADirectoryError`;
- a function giving the tree it leaves.

`Fs.FileSystem` is the one mutable object. The storage classes change its `entries` through methods whose contracts name that function of the old tree. The multi-step operations are each specified by a function to an `Effect` (the result or raised error, plus the tree left behind). The lemmas prove what those functions guarantee:
- round trips;
- slot numbering;
- preservation of the other entries;
- idempotence;
- failure on repetition.

Modules:
- `Wrappers`, `Strings` and `Paths`: values, text and lexical path joining.
- `Fs`: the filesystem.
- `Extensions`: `ExtensionsValidators`.
- `ZipArchive`: `CustomZipFile`.
- `Loaders`: the markup, DICOM-list and archive loaders.
- `Layout`: the research and CT folder layout.
- `Researches`: `ResearchesStorage`.
- `Folders`: `FileStorage`.
- `CtStorage`: `TemporaryCTStorage`.
- `SearchFilters`: `search`'s filter building.
- `HttpExceptions`: `CustomHTTPException`.

The model follows the code as written, including these behaviours:
- `generate_preview` on a research with fewer than two captures tries to read `0.dcm`, which never exists, so it raises `FileNotFoundError`. It does not return nothing.
- `create_empty_research` never creates `preview.jpg`.
- Creating the same research or CT twice fails, because the `captures` folder is made without `exist_ok`.
- `load_markup` accepts any file name. The `is_json` check is computed and then ignored.
- A loader whose archive cannot be opened ends in `UnboundLocalError`, because `tempfile_context`'s bare `except` swallows the `BadZipFile` and leaves `count` unbound. A member that fails to extract ends the loop with the count so far, that member included. A member that cannot be opened (encrypted, or an unsupported compression method) fails before its slot is created. A member whose data turns out corrupt (a CRC mismatch or a broken deflate stream) fails after its slot was created, and the slot keeps the bytes copied so far.

## Model

| member | source | states |
|---|---|---|
| Strings.SplitJoin | src/markup/utils/utils.py:40-41 | joining parts that contain no separator and then splitting gives back exactly those parts |
| Strings.JoinSplit | src/markup/utils/utils.py:40-41 | splitting a string on a separator and joining with it gives back the string |
| Strings.LastIndexOf | src/markup/utils/utils.py:91-92 | the result is the position of the last occurrence of the character, or -1 when there is none; no later position holds it |
| Strings.ParseDecimalString | src/markup/crud/crud.py:91-92 | the decimal rendering of a placeholder number parses back to that number |
| Strings.IntStringInjective | src/markup/utils/storage.py:163 | distinct capture numbers, negative ones included, render to distinct texts |
| Paths.JoinPath | src/utils/storage.py:28 | joining a plain component appends exactly that component |
| Paths.ShardedPath | src/utils/storage.py:27-28 | a plain name ends the path, below the directory named by its first two characters |
| Paths.ShardIsPlain | src/utils/storage.py:28 | the two-character shard of a plain name is a plain component unless the name starts with `..` |
| Paths.ShardedPathInjective | src/utils/storage.py:27-28 | two plain folder names never share a folder path |
| Fs.FileSystem.Mkdir | src/patologies_generation/utils/storage.py:28 | `mkdir()` fails, leaving the tree, when the path exists or its parent is missing or not a directory; otherwise adds exactly that directory |
| Fs.FileSystem.MakeDirs | src/utils/storage.py:17 | `mkdir(parents=True, exist_ok=…)` fails without change or leaves the tree with every missing ancestor added |
| Fs.FileSystem.WriteFile | src/markup/utils/storage.py:42-43 | opening for writing fails without change when the parent is missing or not a directory or the path is a directory; otherwise the path holds exactly the bytes |
| Fs.FileSystem.Touch | src/markup/utils/storage.py:138 | `touch()` leaves an existing path as it is and otherwise creates an empty file |
| Fs.FileSystem.RemoveTree | src/utils/storage.py:24 | `rmtree` removes the path and everything below it |
| Fs.MakeDirsMakesDir | src/utils/storage.py:17 | after a successful `makedirs` the path is a directory and everything that existed still exists |
| Fs.MakeDirsRepeat | src/utils/storage.py:17 | a second `makedirs` with `exist_ok` succeeds and changes nothing |
| Fs.RemovedTreeIsGone | src/utils/storage.py:24 | after removal the folder is gone, exactly the entries below it are dropped, and all others stay |
| Fs.MissingErrorIs | src/markup/utils/storage.py:101 | for a path that does not exist, the error is `FileNotFoundError` when its deepest existing ancestor is a directory and `NotADirectoryError` when it is a file |
| Fs.MissingInDir | src/markup/utils/storage.py:42 | a missing path whose parent is a directory gives `FileNotFoundError` |
| Fs.BelowAFile | src/markup/utils/storage.py:101 | listing or reading a path below an existing file raises `NotADirectoryError` |
| Fs.WriteThenRead | src/markup/utils/storage.py:42-43 | a successful write reads back as the bytes written |
| Fs.ConvertedSaves | src/markup/utils/storage.py:71-74 | a read-convert-write step succeeds iff the read, the conversion and the write all do; then the target reads back as the converted bytes and nothing else changes; on failure the tree is unchanged |
| Extensions.Extension | src/markup/utils/utils.py:90-92 | the extension is empty or a dot followed by no dot or slash, and it is a suffix of the file name |
| Extensions.ExtensionIs | src/markup/utils/utils.py:90-92 | the extension is `e` exactly when the file's last component ends in `e` after something other than dots |
| Extensions.IsDicomShape | src/markup/utils/utils.py:83-84 | `is_dicom` holds iff the name ends in `.dcm` after a non-dot stem, so `.dcm` alone and `a.DCM` are rejected |
| Extensions.IsArchiveShape | src/markup/utils/utils.py:87-88 | `is_archive` holds iff the name ends in `.zip` after a non-dot stem |
| Extensions.IsJsonShape | src/markup/utils/utils.py:79-80 | `is_json` holds iff the name ends in `.json` after a non-dot stem |
| Extensions.AtMostOneFormat | src/markup/utils/utils.py:73-92 | no file name is classified as two formats |
| Extensions.ClassifiedNameNotDirectory | src/markup/utils/utils.py:73-92 | a name accepted by any validator is non-empty and does not end in `/`, so it is never a directory member |
| ZipArchive.CleanParts | src/markup/utils/utils.py:39-41 | every kept component is an input component other than empty, `.` and `..`, and every such input component is kept |
| ZipArchive.SanitizedIsRelative | src/markup/utils/utils.py:27-41 | a sanitised member name is empty or relative, made only of plain components |
| ZipArchive.SanitizeIdempotent | src/markup/utils/utils.py:27-41 | sanitising a sanitised name changes nothing |
| ZipArchive.ExtractTargetWithParents | src/markup/utils/utils.py:49-53 | with `parents` the target is the directory followed by the sanitised components, whatever `filename` says |
| ZipArchive.ExtractTargetDefaultName | src/markup/utils/utils.py:48-53 | without `parents` and `filename` the member lands directly in the directory under its last sanitised component |
| ZipArchive.ExtractTargetFlat | src/markup/utils/utils.py:48-53 | without `parents` a given `filename` decides the target alone, whatever the member's name |
| ZipArchive.ExtractTargetContained | src/markup/utils/utils.py:27-53 | a target computed from a member's own name never leaves the extraction directory (zip-slip) |
| ZipArchive.ExtractedPlacesMember | src/markup/utils/utils.py:57-70 | a successful extraction returns the target, which is then a directory for a directory member; a file member extracted successfully could be read whole, and the target holds its bytes |
| ZipArchive.ExtractedKeepsOthers | src/markup/utils/utils.py:57-70 | extraction changes no existing entry other than the target |
| ZipArchive.CustomZipFile.Extract | src/markup/utils/utils.py:10-70 | `extract` makes the missing parent directories and writes or creates the member at the sanitised target, or raises and leaves the tree as the failed step did: a member that cannot be opened raises before the target is opened, one whose data cannot be read raises after the target was created with the bytes copied so far |
| ZipArchive.ExtractedUnreadable | src/markup/utils/utils.py:66-68 | a file member that cannot be read whole raises its own error: without touching the target when opening fails, and leaving the target holding a prefix of the member's bytes when reading fails |
| Loaders.SlotPathIsJoin | src/markup/utils/storage.py:42 | slot `k` is the captures directory joined with `k.dcm` |
| Loaders.SlotNameIsDicom | src/markup/utils/storage.py:42 | every slot name passes `is_dicom` |
| Loaders.SlotPathInjective | src/markup/utils/storage.py:42 | distinct slot numbers are distinct files |
| Loaders.WriteSlotsLookup | src/markup/utils/storage.py:37-43 | after writing `n` captures, slot `k` holds the `k`th accepted capture and every other entry is unchanged |
| Loaders.WriteSlotsUpdate | src/markup/utils/storage.py:37-43 | rewriting one slot is the same as writing the sequence with that capture replaced |
| Loaders.SlotsFillEmptyDir | src/markup/utils/storage.py:37-44 | loading into an empty captures folder leaves exactly slots `1..n` in it, so the listing count is `n` |
| Loaders.LoadedStops | src/markup/utils/storage.py:37-43 | after the first failing write the loop has stopped: later uploads change nothing |
| Loaders.LoadedIntoEmptyDir | src/markup/utils/storage.py:35-44 | into an empty existing directory the list loader never fails, numbers the accepted uploads `1..n` in upload order, and returns `n` |
| Loaders.LoadedWritesSlots | src/markup/utils/storage.py:37-43 | whatever the directory held, a list load that does not fail returns the number of accepted uploads and writes the `k`th of them, in order, to slot `k` |
| Loaders.MemberStepIsWritten | src/markup/utils/storage.py:61-65 | extracting a readable `.dcm` member flat under the next slot name is writing its bytes to that slot |
| Loaders.MembersLoadedIsLoaded | src/markup/utils/storage.py:61-65 | while the captures directory exists and every `.dcm` member reads whole, the archive loader does exactly what the list loader does with the members as uploads |
| Loaders.MemberStepUnreadable | src/markup/utils/storage.py:61-65 | a `.dcm` member that cannot be read whole still takes the next number and raises its error; its slot is absent, or holds the bytes copied before the failure |
| Loaders.MembersLoadedBroken | src/markup/utils/storage.py:51-68 | into an empty directory the first unreadable `.dcm` member ends the load: the members before it fill slots `1..n`, the count returned is `n + 1`, and slot `n + 1` is absent or holds the partial copy |
| Loaders.DicomListLoader.Load | src/markup/utils/storage.py:35-44 | the list loader writes each `.dcm` upload to the next slot, stops at the first failing write, and returns the count or that error |
| Loaders.ArchiveLoader.Stage | src/markup/utils/storage.py:53-57 | copying in 5 MiB chunks until an empty read stages exactly the upload's bytes |
| Loaders.ArchiveLoader.Load | src/markup/utils/storage.py:51-68 | an unreadable archive gives `UnboundLocalError` with nothing written; otherwise each `.dcm` member is extracted into the next slot in archive order, and a failure ends the loop with the count so far, the failed member included, which the bare `except` of `tempfile_context` returns instead of the error |
| Loaders.MarkupLoader.Load | src/markup/utils/storage.py:26-28 | the markup file reads back as the upload's bytes, or the write error is returned with nothing changed |
| Loaders.LoadCaptures | src/markup/utils/storage.py:107-116 | one `.zip` upload goes to the archive loader and anything else to the list loader; a zero count is reported as nothing |
| Loaders.Reported | src/markup/utils/storage.py:114-116 | errors propagate, zero loaded becomes nothing, and a positive count is returned as is |
| Loaders.CapturesLoadedIntoEmptyDir | src/markup/utils/storage.py:103-116 | into an empty captures folder either upload form stores exactly the accepted `.dcm` contents as slots `1..n` and reports `n`; only an archive that cannot be opened, or a `.dcm` member that cannot be read whole, escapes this |
| Layout.CapturesMadeDirs | src/patologies_generation/utils/storage.py:20-29 | a successful creation returns the name and leaves the folder and its `captures` directory in place |
| Layout.CapturesMadeEmpty | src/patologies_generation/utils/storage.py:24-28 | a freshly created `captures` directory is empty in a well-formed tree |
| Layout.CapturesMadeFailsIfPresent | src/patologies_generation/utils/storage.py:28 | when `captures` already exists, creation raises `FileExistsError` and changes nothing |
| Layout.CapturesMadeTwiceFails | src/patologies_generation/utils/storage.py:20-29 | creating the same folder twice fails the second time |
| Layout.RemovalKeepsOthers | src/utils/storage.py:20-24 | removing one folder leaves every entry of another plain-named folder intact |
| Researches.PreviewSlot | src/markup/utils/storage.py:92 | the preview slot is half the capture count, and it is a real slot exactly when there are at least two captures |
| Researches.DicomToImage | src/markup/utils/storage.py:71-74 | the preview is the rendered DICOM saved at the target, or the read, render or write error with nothing changed |
| Researches.CreatedDirs | src/markup/utils/storage.py:127-139 | a created research has its folder and an empty `captures` directory, and the name is returned |
| Researches.CreatedCapturesEmpty | src/markup/utils/storage.py:127-139 | a newly created research has no captures |
| Researches.CreatedMarkup | src/markup/utils/storage.py:138 | a created research has a markup file, empty unless one was already there |
| Researches.CreatedNoPreview | src/markup/utils/storage.py:127-139 | creation never makes or removes a preview |
| Researches.CreatedTwiceFails | src/markup/utils/storage.py:135 | creating the same research twice fails the second time with `FileExistsError` and no change |
| Researches.PreviewOfLoadedCaptures | src/markup/utils/storage.py:85-94 | with fewer than two captures the preview raises `FileNotFoundError`; otherwise it succeeds iff slot `n/2` renders and can be written, and `preview.jpg` then holds that rendering |
| Researches.CreateLoadPreview | src/markup/utils/storage.py:85-139 | create, then load, then preview: the captures are the accepted `.dcm` uploads in order, the reported count is theirs, and fewer than two means no preview |
| Researches.ResearchesStorage.GetPreviewPath | src/markup/utils/storage.py:148-154 | a path exactly when the research exists, and it is the research's `preview.jpg` |
| Researches.ResearchesStorage.GetMarkupPath | src/markup/utils/storage.py:166-172 | a path exactly when the research exists, and it is the research's `markup.json` |
| Researches.ResearchesStorage.GetCapturePath | src/markup/utils/storage.py:157-164 | a path exactly when the research exists, whether or not the slot file does |
| Researches.ResearchesStorage.GetCapturesCount | src/markup/utils/storage.py:96-101 | nothing for a missing research, an error when `captures` is not a directory, and otherwise the number of entries in it |
| Researches.ResearchesStorage.GeneratePreview | src/markup/utils/storage.py:85-94 | a missing research gives nothing and no change; otherwise the capture in slot `count // 2` is rendered to `preview.jpg`, or the failing step's error is raised |
| Researches.ResearchesStorage.LoadCaptures | src/markup/utils/storage.py:103-116 | a missing research gives nothing and no change; otherwise `.zip` or `.dcm` uploads are loaded into `captures` by the matching loader, and the count (nothing for zero) or the loader's error is returned |
| Researches.ResearchesStorage.LoadMarkup | src/markup/utils/storage.py:118-125 | a missing research gives nothing; otherwise `markup.json` is replaced by the upload, whatever its name, and 1 is returned, or the write error with no change |
| Researches.ResearchesStorage.CreateEmptyResearch | src/markup/utils/storage.py:127-139 | under the given or generated name, the folder is made with its parents, then `captures`, which must not exist yet, then `markup.json` is touched (created empty when absent); the name or the first error is returned |
| Researches.ResearchesStorage.RemoveResearch | src/markup/utils/storage.py:141-146 | an existing research is removed with its contents, and otherwise nothing changes |
| Folders.FolderCreatedExists | src/utils/storage.py:12-18 | a created folder is a directory at the returned path and no existing entry changed |
| Folders.FolderCreatedTwice | src/utils/storage.py:17 | creating a folder again succeeds with the same path and no change |
| Folders.FileStorage.GetPathToFolder | src/utils/storage.py:26-28 | a plain name is the last component of its folder path, and sits directly below its two-character shard |
| Folders.FileStorage.CreateFolder | src/utils/storage.py:12-18 | the folder for the given or generated name is made with its parents; on success it exists afterwards |
| Folders.FileStorage.RemoveFolder | src/utils/storage.py:20-24 | an existing folder is removed with its contents, and otherwise nothing changes |
| CtStorage.RemovePatientPersonalData | src/patologies_generation/utils/storage.py:62 | a capture is rewritten in place with its scrubbed bytes, or the error is returned and nothing changes |
| CtStorage.Cleaned | src/patologies_generation/utils/storage.py:60-62 | the scrubbed captures correspond one to one, in order, to the originals |
| CtStorage.ScrubbedStops | src/patologies_generation/utils/storage.py:60-63 | once one capture fails, the later ones are left untouched |
| CtStorage.ScrubbedLoaded | src/patologies_generation/utils/storage.py:60-63 | scrubbing the first `n` loaded slots rewrites exactly those slots with their scrubbed bytes and keeps the rest |
| CtStorage.ScrubbedRejected | src/patologies_generation/utils/storage.py:60-63 | the first capture the scrubber rejects ends the loop with the error; the slots before it are already scrubbed |
| CtStorage.DepersonalizedLoaded | src/patologies_generation/utils/storage.py:55-63 | depersonalising loaded captures replaces every slot with its scrubbed bytes and nothing else |
| CtStorage.CreateLoadDepersonalize | src/patologies_generation/utils/storage.py:20-63 | create, then load, then depersonalise: the captures end up as the scrubbed accepted `.dcm` uploads, in upload order |
| CtStorage.TemporaryCtStorage.GetCapturesPath | src/patologies_generation/utils/storage.py:47-53 | a path exactly when the CT exists, and it is its `captures` directory |
| CtStorage.TemporaryCtStorage.GetCapturesCount | src/patologies_generation/utils/storage.py:65-70 | nothing for a missing CT, an error when `captures` is not a directory, and otherwise the number of entries in it |
| CtStorage.TemporaryCtStorage.GetCapturePath | src/patologies_generation/utils/storage.py:72-80 | a path exactly when the CT and that slot file both exist, and then it is the slot |
| CtStorage.TemporaryCtStorage.CreateEmptyCt | src/patologies_generation/utils/storage.py:20-29 | the folder and its `captures` directory are created under the given or generated name |
| CtStorage.TemporaryCtStorage.LoadCaptures | src/patologies_generation/utils/storage.py:32-45 | a missing CT gives nothing and no change; otherwise `.zip` or `.dcm` uploads are loaded into `captures` by the matching loader, and the count (nothing for zero) or the loader's error is returned |
| CtStorage.TemporaryCtStorage.Depersonalize | src/patologies_generation/utils/storage.py:55-63 | slots `1..count` are scrubbed in order, stopping at the first error; a missing CT changes nothing |
| SearchFilters.Requested | src/markup/crud/crud.py:90-103 | the arguments come in tags, marker, name order, each carrying its own criterion's value |
| SearchFilters.RequestedGiven | src/markup/crud/crud.py:90-103 | every criterion given contributes its value, and there are as many arguments as criteria given |
| SearchFilters.FiltersAppend | src/markup/crud/crud.py:90-103 | appending a criterion appends its filter numbered with the new argument count |
| SearchFilters.BuildFilters | src/markup/crud/crud.py:73-106 | the arguments are the requested criteria in order, and the clause joins their numbered filters, or is empty |
| SearchFilters.FilterPlaceholder | src/markup/crud/crud.py:74-86 | each filter template filled with `k` contains exactly one placeholder, `$k` |
| SearchFilters.WherePlaceholders | src/markup/crud/crud.py:106 | the clause's placeholders are `$1..$n` in order, one per argument, so `fetch(query, *query_args)` binds each argument to its own filter; the clause is empty iff there are no arguments |
| HttpExceptions.Override | src/exceptions.py:17-26 | each argument given replaces its field and each one left out keeps the current value |
| HttpExceptions.OverrideNothing | src/exceptions.py:17-26 | a call without arguments changes nothing |
| HttpExceptions.OverrideIdempotent | src/exceptions.py:17-26 | repeating a call with the same arguments changes nothing more |
| HttpExceptions.OverrideTwice | src/exceptions.py:17-26 | two calls equal one call whose arguments take the later call's where it gives one |
| HttpExceptions.OverrideNeverClears | src/exceptions.py:17-26 | no call unsets a field that is set, because `None` means "keep" |
| HttpExceptions.CustomHttpException.constructor | src/exceptions.py:6-15 | the exception stores its four arguments as given |
| HttpExceptions.CustomHttpException.Call | src/exceptions.py:17-26 | the call updates this very object by the override rule and returns it |
| HttpExceptions.NewInvalidRequestException | src/exceptions.py:58 | the shared instance starts as 400, `invalid_request`, `Invalid request data`, no headers |
| HttpExceptions.RaiseSharedTwice | src/exceptions.py:17-26 | a shared instance customised by one raise still carries that description at the next raise without arguments |

## Left out

- Rendering a DICOM slice to JPEG (pydicom and matplotlib), the patient-data scrubber and zip parsing are opaque here. Each is a function parameter (`render`, `scrub`, `decode`) that returns bytes or fails. For each archive member, `decode` also fixes whether it can be read: it opens, or raises `RuntimeError` (encrypted) or `NotImplementedError` (unsupported compression), or raises `BadZipFile` or `zlib.error` after some number of its bytes was copied. The module defining `remove_patient_personal_data` is not part of this model.
- CtStorage.TemporaryCtStorage.Depersonalize: for a slot that is missing, `get_capture_path` returns `None`, and what the scrubber then does with `None` is not visible. The model reports `FileNotFoundError` there.
- `generate_uuid` is a `generated` parameter standing for the fresh name. `lru_cache` on `get_path_to_folder` only memoises a function of its argument, so it is not modelled.
- Asynchrony is modelled as sequential steps: `aiofiles`, `await`, `asyncio.sleep(0)` and the process pool that runs `dicom_to_image`. Concurrent requests touching the same folder are not modelled.
- `tempfile_context`'s temporary file is not modelled. Only its effect on control flow is, namely the bare `except` that swallows errors. The archive loader in `src/markup/utils/storage.py` imports it as `src.utils.tempfile`, a module name that does not exist. The model assumes the intended `src.utils.temp_file`.
- The loaders in `src/markup/utils/ct_loaders.py`, lines 15-61, are a line-for-line copy of those in `src/markup/utils/storage.py`, lines 22-68. The `Loaders` module models both.
- Paths are lexical. `pathlib` joins and `os.path.normpath` are modelled as component sequences in which `..` removes the previous component. Symbolic links, permissions and drive letters are not modelled.
- ZipArchive.CustomZipFile.Extract: models a POSIX host. The Windows-only `_sanitize_windows_name` step, `os.path.altsep` and `splitdrive` never change a name there. `extract(path=None)` falls back to the process's current directory, which is not modelled: the model always receives an explicit path. The `pwd` (password) argument is not modelled.
- `ResearchesStorage` has no `depersonalize`, yet `src/markup/service/research.py`, line 37, calls one. That service is not part of this model.
- The services, routers, database access, the SQL text after the `WHERE` clause, and running the query are not modelled. Only the clause and its argument list are.
- The exception's commented-out `schema` property and the other exception subclasses are not modelled.
- Integers are unbounded, and file sizes and capture counts never overflow.
