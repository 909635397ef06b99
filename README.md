# DocumentProcessor: secure ingestion, modelled in Dafny

This project models the ingestion core of the document classifier's
`DocumentProcessor` (`main.py`). The core does four things:

- it prepares an output directory and a fresh temporary directory;
- it tells archives and supported documents apart by their lower-cased suffix;
- it extracts ZIP archives into the temporary directory, flattening every member
  to its base name and re-checking that the resolved target lies under the
  resolved temporary directory; each member is read by its name, so a name stored
  twice reads the contents of its last copy;
- it scans an input path, which is a single file or a directory tree walked with
  `os.walk`, into the list of documents to process.

The model has six modules:

- `Paths` holds the path algebra. `Basename` is `os.path.basename`. `Suffix` and
  `Lower` give `path.suffix.lower()`. `Join` is `/`. `Resolve` is
  `Path.resolve()`, done lexically. `Str` is `str()` of a resolved path.
  `PassesPrefixCheck` is the `startswith` test.
- `Disks` models the file system as a value: regular files by resolved path, plus
  the set of directories. The three operations the core calls are open-for-writing
  (`WriteFile`), `mkdir(parents=True, exist_ok=True)` (`MakeDirs`) and
  `shutil.rmtree` (`RemoveTree`). Each is a function that returns the new disk
  together with the result or the exception raised. An operation that raises
  part-way therefore keeps the effects it already had.
- `Extraction` specifies the member loop of `extract_zip_securely`. It also proves
  what the loop returns and what it writes.
- `Scanning` does the same for `scan_input`.
- `Lifecycle` specifies `setup_directories` and `cleanup`.
- `Processor` holds the class `DocumentProcessor`. Its paths are constant fields.
  The disk is a mutable field. Its methods run the loops of the source step by
  step, and each is proved equal to the specification function above it.

The main results:

- **Extraction is confined.** When the temporary directory exists, as after
  `setup_directories`, extraction writes only direct children of it, whatever the
  member names. It never creates a directory and leaves every other file
  unchanged. When the temporary directory is missing, a member such as `x/.`
  writes a file at the temporary directory's own path; the model does the same.
- **What extraction does is fixed by the member names alone.** When the temporary
  directory is empty, as after `setup_directories`, extraction returns
  `temp / basename(member)` for every member whose base name is an ordinary name,
  in archive order. When two stored members share a base name, the file of that
  name holds the contents of the later one.
- **The abort case.** A member whose base name is `.`, such as `sub/.`, passes the
  prefix test and makes the whole extraction raise `IsADirectoryError`.
- **What a directory scan returns.** This holds when the temporary directory
  exists, holds no sub-directory and does not lie inside the input directory, as
  after `setup_directories` with the temporary directory outside the input. The
  scan then returns exactly the supported documents of the tree, plus everything
  extracted from the readable archives in it. The only exceptions it can raise
  are `BadZipFile` and `IsADirectoryError`.

## Model

| member | source | states |
|---|---|---|
| Processor.DocumentProcessor.constructor | main.py:8-12 | the object keeps the three paths it is given, over the working directory and disk it is given |
| Processor.DocumentProcessor.WithDefaultTemp | main.py:8-12 | the same, with the temporary directory left at its default `temp_extracted` |
| Lifecycle.Setup | main.py:14-19 | definition of setup: mkdir with parents on the output directory, rmtree on the temporary directory when it exists, then mkdir with parents on it; the first exception ends the sequence with the effects so far |
| Processor.DocumentProcessor.SetupDirectories | main.py:14-19 | the new disk and outcome are `Setup` of the old disk: output directory made, temporary directory removed if present, then made |
| Lifecycle.SetupSucceedsIff | main.py:14-19 | setup raises nothing iff neither directory is, or lies below, a regular file and the temporary directory is not the root; the disk stays well formed |
| Lifecycle.SetupEstablishes | main.py:14-19 | after a setup that raises nothing, the temporary directory exists and is empty; the output directory exists unless it lies inside the temporary directory; nothing outside the temporary directory is removed or changed, no file is created, and the only new directories are the two directories and those above them |
| Lifecycle.EmptyDirHasNoSubdirs | main.py:17-19 | an empty temporary directory has no sub-directory, the condition the extraction results need |
| Lifecycle.NothingBelowMissing | main.py:17 | when the temporary directory does not exist, nothing lies below it, so skipping rmtree leaves it empty |
| Lifecycle.Cleanup | main.py:68-71 | definition of cleanup: rmtree on the temporary directory when it exists, nothing otherwise |
| Processor.DocumentProcessor.Cleanup | main.py:68-71 | the new disk and outcome are `Cleanup` of the old disk |
| Lifecycle.CleanupRemovesTemp | main.py:68-71 | cleanup raises nothing iff the temporary directory is neither a regular file nor the root; it then leaves nothing at or below it, and everything else as it was |
| Lifecycle.CleanupIdempotent | main.py:68-71 | a second cleanup after one that raised nothing changes nothing and raises nothing |
| Disks.MakeDirs | main.py:16 | mkdir with parents and exist_ok: raises iff a leading part of the path is a regular file; otherwise the path and its ancestors are directories, only they are added, and no file changes |
| Disks.RemoveTree | main.py:18 | rmtree: raises nothing iff the path is an existing directory other than the root; then nothing at or below it remains and nothing else changes |
| Disks.WriteFile | main.py:40-41 | open for writing: raises nothing iff the path is not a directory and its parent is one; then only that file changes, and it holds the new contents |
| Disks.Exists | main.py:49 | definition of `Path.exists()` on a resolved path: a regular file or a directory is there (also used at main.py:17 and main.py:70) |
| Disks.AncestorsAreDirs | main.py:16 | every directory above an existing path exists |
| Disks.DirectoryIsNotBlocked | main.py:16 | no leading part of an existing directory is a regular file |
| Paths.LastIndex | main.py:22 | `str.rfind`: -1 or a position holding the character, with no later position holding it |
| Paths.Lower | main.py:22 | definition of `str.lower()` on ASCII letters, one character at a time; the result has the input's length |
| Paths.Extension | main.py:22 | definition of `path.suffix.lower()`: the lower-cased suffix of the last path component (also used at main.py:55 and main.py:61) |
| Paths.IsZip | main.py:21-22 | definition of `is_zip_file`: the lower-cased suffix is `.zip` |
| Paths.IsSupported | main.py:61 | definition of the extension test of main.py:55 and main.py:61: the lower-cased suffix is one of the four supported extensions |
| Paths.Suffix | main.py:22 | pathlib's suffix: empty iff the name has no dot after its first character or ends in a dot; otherwise a proper ending of the name that starts with its only dot |
| Paths.LowerPointwise | main.py:22 | lower-casing maps each character on its own |
| Paths.CaseInsensitiveEndingIsSuffix | main.py:22 | a name longer than a one-dot extension that ends with it, ignoring case, has exactly that ending as its suffix |
| Paths.ExtensionIsCaseInsensitiveEnding | main.py:22 | a name has extension `ext` iff it is longer than `ext` and ends with it, ignoring case |
| Paths.IsZipByName | main.py:21-22 | a path is an archive iff its name is longer than `.zip` and ends with it in any case |
| Paths.IsSupportedByName | main.py:12 | a path is a supported document iff its name ends, in any case, with one of `.jpg`, `.jpeg`, `.png` or `.pdf` and is longer than that extension |
| Paths.ZipIsNeverSupported | main.py:53-56 | no path is both an archive and a supported document, so the order of the two tests does not matter |
| Paths.Basename | main.py:30 | a base name holds no separator |
| Paths.BasenameIsLongestSuffix | main.py:30 | the base name is the part of the name after its last separator |
| Paths.BasenameAfterSeparator | main.py:30 | the base name of `dir/name` is `name` |
| Paths.BasenameOfPlainName | main.py:30 | a name without a separator is its own base name |
| Paths.TraversalMemberBasename | tests/test_file_handler.py:56 | the base name of `../evil.txt` is `evil.txt` |
| Paths.DirectoryMemberBasename | main.py:30-32 | the base name of a directory member `sub/` is empty |
| Paths.DotMemberBasename | main.py:30 | the base name of `sub/.` is `.` |
| Paths.Join | main.py:34 | joining a name without separator keeps a path well formed |
| Paths.Resolve | main.py:37 | definition of `Path.resolve()` without symbolic links: a relative path is taken from the working directory, `..` goes up (the root is its own parent) and other parts go down; the result is a resolved path |
| Paths.ResolveJoin | main.py:34-37 | `dir / name` resolves to one more resolution step from `dir`; `dir / "."` resolves to `dir` |
| Paths.ResolveAppend | main.py:58-60 | appending plain names to a path appends them to its resolution |
| Paths.Str | main.py:37 | definition of `str()` of a resolved path: `/` for the root, otherwise each part after a separator |
| Paths.PassesPrefixCheck | main.py:37 | definition of the test: `str()` of the resolved target starts with `str()` of the resolved temporary directory |
| Paths.StrOfChild | main.py:37 | `str()` of a child is `str()` of its parent, a separator and its name |
| Paths.BaseNameConfinement | main.py:34-38 | for a base name, `temp / name` resolves to a direct child of temp that passes the prefix test, to temp itself that passes (`.`), or to temp's parent (`..`), which passes only when temp is the root |
| Paths.AcceptedTargetIsConfined | main.py:36-38 | whatever the member name, a target that passes the prefix test resolves to the temporary directory or to one of its direct children |
| Extraction.Extract | main.py:24-43 | definition of extract_zip_securely: opening a directory raises IsADirectoryError, a path below a file NotADirectoryError, a missing file FileNotFoundError, a file that is not an archive BadZipFile; otherwise the member loop runs over the members as read by name |
| Extraction.ExtractEntries | main.py:28-43 | definition of the member loop: `MemberLoop` with `ExtractEntry` as its body |
| Extraction.MemberLoop | main.py:28-43 | definition of a loop over the members for any body: members in order, written paths appended in order, the first exception ending the loop with the files written so far left on disk |
| Extraction.ExtractEntry | main.py:29-42 | definition of one member's handling: an empty base name or a failed prefix test skips it; otherwise its contents are written to `temp / basename`, and a failed write raises |
| Extraction.Open | main.py:40 | definition of `zip_ref.open(member)`: the contents of the last member stored under the member's name |
| Extraction.OpenedUpTo | main.py:28-40 | the first `n` members as the loop reads them, `n` long |
| Extraction.Opened | main.py:28-40 | the members as the loop reads them, one per name of `namelist()` |
| Extraction.OpenedAt | main.py:40 | member `i` as the loop reads it has its own name and the contents `zip_ref.open` gives for that name |
| Extraction.OpenReadsLast | main.py:40 | `zip_ref.open(member)` reads the contents of the last member stored under that name, at or after the member itself |
| Extraction.OpenedByName | main.py:28-40 | the loop reads the names in `namelist()` order; when no name repeats, it reads each member's own contents |
| Extraction.RepeatedNameReadsLast | main.py:40 | with two members of the same name, both occurrences read the second member's contents |
| Extraction.OpenedOutcome | main.py:28-43 | reading by name changes no name, so the loop's outcome and its targets are those of the stored members |
| Processor.DocumentProcessor.ExtractZipSecurely | main.py:24-43 | the new disk and result are `Extract` of the old disk: the archive is opened, then the member loop runs over the names of `namelist()`, each read by name |
| Processor.DocumentProcessor.ExtractMember | main.py:29-42 | the handling of one member equals `ExtractEntry`: skipped, written to its target, or raising |
| Extraction.SkippedMember | main.py:30-38 | a member whose base name is empty, or is `..` below a non-root temp, is skipped and the disk is unchanged |
| Extraction.AbortingMember | main.py:36-41 | a member whose base name is `.`, or is `..` when temp is the root, passes the test and then raises IsADirectoryError without writing |
| Extraction.KeptMember | main.py:34-42 | a member with an ordinary base name is written to the direct child `temp / name`, whatever was there before, unless a directory of that name is in the way |
| Extraction.MemberWritesOnlyChildren | main.py:29-42 | when the temporary directory exists, one member keeps the disk well formed and writes only a direct child of the temporary directory |
| Extraction.KeptMemberWritesOnlyChild | main.py:34-42 | when the temporary directory exists, a kept member writes only a direct child of the temporary directory |
| Extraction.OtherMemberWritesNothing | main.py:30-38 | when the temporary directory exists, a member that is not kept leaves the disk as it was |
| Extraction.WritesOnlyChildrenTransitive | main.py:28 | writing only children is preserved by doing it twice, so it survives the loop |
| Extraction.WritingAChildWritesOnlyChildren | main.py:40-41 | writing one direct child of temp writes only children of temp |
| Extraction.ExtractionWritesOnlyChildren | main.py:28-42 | when the temporary directory exists, the whole member loop, whether it completes or raises part-way, keeps the disk well formed and writes only direct children of temp; no directory is created and no other file changes |
| Extraction.ExtractionKeepsDirs | main.py:28-42 | when the temporary directory exists, the member loop leaves the set of directories unchanged |
| Extraction.LoopConfined | main.py:28-42 | when temp is an existing directory, a loop whose every step writes only children of temp writes only children of temp, even when it stops at an exception |
| Extraction.LoopFollows | main.py:28-43 | a loop whose steps follow a per-member outcome returns the fold of those outcomes, and when it completes leaves the disk their writes describe |
| Extraction.LoopStopsAtError | main.py:28-42 | once a member raises, the members after it are never read |
| Extraction.FoldedSameOutcomes | main.py:28-42 | members with the same outcomes one by one give the same loop result and the same targets |
| Extraction.FoldedSkipThenKeep | main.py:31-32 | a skipped member followed by one that contributes a path contribute that path alone |
| Extraction.FoldedOkIff | main.py:28-42 | the fold completes iff every member completes |
| Extraction.FoldedValue | main.py:42-43 | a fold that completes returns every member's contribution, in order |
| Extraction.CollectedAgree | main.py:42 | members that contribute the same paths one by one give the same list |
| Extraction.CollectedLength | main.py:42 | at most one path per member is collected |
| Extraction.CollectedFrom | main.py:42 | every collected path is the contribution of some member |
| Extraction.FoldedTwo | main.py:42 | two members that each contribute a path contribute both, in order |
| Extraction.MemberResult | main.py:29-42 | with an existing temp holding no sub-directory, one member raises or returns what its name alone decides: IsADirectoryError for an aborting name, the target for a kept one, nothing otherwise |
| Extraction.MemberDisk | main.py:34-41 | a member that does not abort writes the kept member's contents at `temp / name`, and changes nothing otherwise |
| Extraction.EntryStepConfined | main.py:29-42 | every handling of a member writes only children of temp |
| Extraction.EntryStepFollows | main.py:29-42 | every handling of a member follows its name-determined outcome and write |
| Extraction.ExpectedError | main.py:40 | the only exception the member names can lead to is IsADirectoryError |
| Extraction.ExpectedAppend | main.py:28-42 | one more member at the end raises if it aborts, appends its target if kept, and otherwise appends nothing |
| Extraction.ExpectedOkIff | main.py:28-42 | the member loop completes iff no member name aborts |
| Extraction.MemberContribution | main.py:42 | each member contributes the same path to the loop as to the list of targets |
| Extraction.ExpectedValue | main.py:42-43 | when the loop completes it returns the targets of the kept members, in archive order |
| Extraction.ExtractionResult | main.py:24-43 | with an existing, sub-directory-free temp, the loop's result is the one its member names determine; when it completes, the disk is the writes of the kept members applied in order |
| Extraction.ExtractionOutcome | main.py:24-43 | the loop completes iff no member aborts; it then returns `temp / basename(member)` for the kept members in archive order, and otherwise raises IsADirectoryError |
| Extraction.WrittenLastWith | main.py:34-41 | after the writes, the file a base name lands on holds the contents of the last member with that base name; files no member names keep their contents |
| Extraction.LastWriteWins | main.py:34-41 | after a completed member loop, the file a base name lands on holds the contents of the last member with that base name, and other files are kept |
| Extraction.LastWithAt | main.py:34-41 | the member the last-write rule picks is the last one with that base name, or there is none |
| Extraction.LastWithIs | main.py:34-41 | a member with base name `b` and no later one with that base name is the one picked |
| Extraction.LastWithNone | main.py:34-41 | with no member of base name `b`, none is picked |
| Extraction.OpenOfLast | main.py:40 | the last member with a base name is the last with its name, so reading it by name reads its own contents |
| Extraction.LastWithOpened | main.py:28-41 | reading by name does not change which contents end up under a base name: the pick over the members as read equals the pick over the stored members |
| Extraction.ExtractLastWriteWins | main.py:24-43 | after extract_zip_securely completes on an existing archive, the file a base name lands on holds the contents of the last stored member with that base name, and every file no member names is kept |
| Extraction.TargetsAtMostEntries | main.py:28-42 | the archive loop returns at most one path per member |
| Extraction.TargetsAreChildren | main.py:34-42 | every returned path is `temp / name` for an ordinary name, and resolves to a direct child of the temporary directory |
| Extraction.ExtractEntriesStep | main.py:28-42 | the loop over one more member is the loop so far followed by that member's handling |
| Extraction.ExtractionStopsAtError | main.py:28-42 | when a prefix of the archive raises, the loop over the whole archive equals the loop over that prefix |
| Extraction.TwoKeptMembers | main.py:28-42 | with the temporary directory existing and holding no sub-directory, as after setup: two kept members return both targets in order, and the second one's file holds its contents |
| Extraction.TwoKeptExpected | main.py:28-42 | two kept members are expected to return both targets in order |
| Extraction.FlattensSubfolders | tests/test_file_handler.py:30-47 | with the temporary directory existing and holding no sub-directory, as after setup: a member at the top and one in a sub-folder both land directly in the temporary directory, under their own file names and with their contents |
| Extraction.TraversalNameIsFlattened | tests/test_file_handler.py:49-67 | with the temporary directory existing, holding no sub-directory and not the root: `../evil.txt` is written as `temp/evil.txt`, and the file of that name beside the temporary directory is neither created nor changed |
| Extraction.DirectoryMemberIsSkipped | main.py:30-32 | with the temporary directory existing and holding no sub-directory, as after setup: a directory member `folder/` is skipped and the loop goes on to the next member, whatever the folder's name and the next member's plain name |
| Extraction.DirectoryNameOutcome | main.py:30-32 | a name ending in `/` contributes nothing |
| Extraction.PlainNameOutcome | main.py:30-42 | a plain name contributes `temp / name` |
| Extraction.DotMemberAbortsExtraction | main.py:34-41 | with the temporary directory existing and holding no sub-directory, as after setup: a member `sub/.` passes the prefix test and then raises IsADirectoryError, ending the extraction |
| Scanning.Scan | main.py:45-66 | definition of scan_input: a missing input raises FileNotFoundError; a file input is extracted if an archive, kept if supported, dropped otherwise; a directory input is walked in the given order |
| Scanning.TreeFiles | main.py:58-59 | definition of the files `os.walk` reports: every regular file below the input directory, relative to it |
| Scanning.ScanFile | main.py:60-64 | definition of the walk loop's body: a supported document is kept, otherwise an archive is extracted, otherwise the file is dropped |
| Scanning.FileStep | main.py:60-64 | definition of the body for the file reported at a relative path below the input |
| Scanning.Fold | main.py:58-64 | definition of the walk loop for any body: results concatenated in walk order, the first exception ending the loop with the effects so far |
| Scanning.ScanWalk | main.py:58-64 | definition of the walk loop over the first `n` files, with `FileStep` as its body |
| Processor.DocumentProcessor.ScanInput | main.py:45-66 | the new disk and result are `Scan` of the old disk, along a walk that lists every file of the input tree once |
| Processor.DocumentProcessor.ScanTree | main.py:57-64 | the walk loop visits every file of the tree exactly once, and its result is `ScanWalk` along that order |
| Processor.DocumentProcessor.VisitNext | main.py:59-64 | one more file, not yet visited, is taken and handled; the loop equation extends by that file |
| Processor.DocumentProcessor.ScanFileOnDisk | main.py:60-64 | the handling of one walked file equals `ScanFile`: kept if supported, extracted if an archive, dropped otherwise |
| Scanning.PathOf | main.py:60 | `Path(root) / file` is a well-formed path |
| Scanning.WalkedFiles | main.py:58-59 | every walked file is a regular file below the input directory |
| Scanning.TreeFileIsFile | main.py:58-59 | every file of the tree is a regular file below the input directory |
| Scanning.WalkIsOfFiles | main.py:58-60 | a walk that lists the tree visits only regular files below the input |
| Scanning.BelowInputIsNotTempChild | main.py:58-64 | when temp is not inside the input directory, nothing below the input is a direct child of temp |
| Scanning.ExtractWritesOnlyChildren | main.py:24-43 | when the temporary directory exists, extracting an archive, including opening it, writes only direct children of temp |
| Scanning.ExtractExisting | main.py:27 | extracting an existing file gives the outcome its contents determine: BadZipFile for a non-archive, else the member loop's outcome |
| Scanning.ScanFileWritesOnlyChildren | main.py:60-64 | when the temporary directory exists, handling one walked file keeps the disk well formed and writes only direct children of temp |
| Scanning.FileStepConfined | main.py:60-64 | when the temporary directory exists, every handling of a walked file writes only direct children of temp |
| Scanning.FoldConfined | main.py:58-64 | when the temporary directory exists, a walk loop whose every body writes only children of temp writes only children of temp, even when stopped by an exception |
| Scanning.ScanWalkWritesOnlyChildren | main.py:58-64 | when the temporary directory exists, the walk loop, even when stopped by an exception, writes only direct children of temp |
| Scanning.ScanFileResult | main.py:60-64 | handling one file gives the outcome that file's name and contents determine |
| Scanning.ScanWalkResult | main.py:58-64 | the walk loop's result is the combination of the per-file outcomes, read off the disk as it was at the start |
| Scanning.FileOutcomeContribution | main.py:60-64 | a file that raises nothing contributes itself if supported, its targets if an archive, nothing otherwise; it raises only BadZipFile or IsADirectoryError |
| Scanning.WalkOutcomeListed | main.py:58-64 | a walk that raises nothing returns the contributions of its files in walk order; otherwise it raises BadZipFile or IsADirectoryError |
| Scanning.CombineOk | main.py:58-64 | the per-file outcomes combine to a list iff none raises, and then to the concatenation of their lists |
| Scanning.CombineErr | main.py:58-64 | a combination that raises raises what one of the files raised |
| Scanning.FlattenHas | main.py:62-64 | every path one file contributes is in the result |
| Scanning.FlattenOnly | main.py:62-64 | every path in the result was contributed by one of the files |
| Scanning.FlattenAgree | main.py:62-64 | the same contributions give the same result |
| Scanning.ListedHasSupported | main.py:61-62 | every supported file of the walk is in the result |
| Scanning.ListedHasTargets | main.py:63-64 | every path extracted from an archive of the walk is in the result |
| Scanning.ListedIsAccounted | main.py:61-64 | every path in the result is a supported file of the walk or a target of one of its archives |
| Scanning.TargetIsNotWalked | main.py:63-64 | when temp lies outside the input, an extracted path is never the path of a walked file |
| Scanning.UnsupportedNeverListed | tests/test_file_handler.py:15-28 | a walked file that is not a supported document is never in the result, not even as an extracted path |
| Scanning.EnumerationOf | main.py:58 | every finite set of files has an order of visit that lists each file once |
| Scanning.ListingStep | main.py:58-59 | visiting one more unvisited file keeps the visit a partial listing of the tree |
| Scanning.EnumeratesAppend | main.py:58-59 | a partial listing followed by a listing of the rest lists the whole tree |
| Scanning.FoldPrefix | main.py:58-64 | the first `n` steps of the walk do not depend on the files visited later |
| Scanning.FoldStopsAtError | main.py:58-64 | once a file raises, the rest of the walk does nothing |
| Scanning.ScanWalkStep | main.py:59-64 | the walk over one more file is the walk so far followed by that file's handling |
| Scanning.WalkTurn | main.py:59-64 | visiting one more file extends both the listing and the loop equation |
| Scanning.ScanWalkFinish | main.py:58-64 | a walk stopped by an exception extends to a listing of the whole tree with the same result |
| Scanning.ScanWritesOnlyChildren | main.py:45-66 | when the temporary directory exists, a scan writes only direct children of the temporary directory |
| Scanning.ScanRaisesFileNotFound | main.py:49-50 | a scan raises FileNotFoundError iff the input does not exist, and then changes nothing |
| Scanning.ScanSingleFile | main.py:52-56 | a file as input: an archive gives its extraction, a supported document gives itself alone, anything else gives an empty list |
| Scanning.ScanDirectory | main.py:57-64 | a directory as input gives the walk's combined per-file outcome |
| Scanning.ScanDirectoryContents | main.py:57-64 | a directory scan that raises nothing contains a file of the tree iff that file is supported, found only readable archives, and contains everything extracted from them; otherwise it raises BadZipFile or IsADirectoryError |

## Left out

- Symbolic links and lookups of unresolved paths. Every file-system call of the
  model (`exists`, `is_file`, `open`, `ZipFile`, `mkdir`, `rmtree`, `os.walk`) acts
  on the lexically resolved path, while the source passes the unresolved path and
  the operating system looks up each component in turn. The two differ when a
  path goes through a missing directory or a link. For example, `in/missing/..`
  does not exist for the operating system, so scan_input raises FileNotFoundError
  (main.py:49-50), while `Scan` walks `in`. Likewise `mkdir(parents=True)` on
  `out/missing/../x` also creates `out/missing` (main.py:16), which `MakeDirs`
  does not.
- Parsing of path strings. The constructor takes each path already split into
  its parts, with a flag for whether it is absolute. `Path("")` and repeated
  separators are not modelled.
- `str.lower()` on non-ASCII letters. Only ASCII `A`-`Z` are folded.
- ZIP decoding. An archive is the list of its members in `namelist()` order, and
  `zip_ref.open(member)` reads the last member stored under that name. The
  contents are read once, as they are on disk when the archive is opened. A
  corrupt member, CRC errors and encrypted members are not modelled, and neither
  is `shutil.copyfileobj`'s chunking.
- The order of `os.walk`. The walk is modelled as any order that visits each file
  once. The tree is the one on disk when the scan begins, so the scanning lemmas
  read archives as they were then.
- Scanning.ExtractExisting, Scanning.ScanFileResult, Scanning.ScanWalkResult,
  Scanning.ScanSingleFile, Scanning.ScanDirectory, Scanning.ScanDirectoryContents
  and Scanning.ScanRaisesFileNotFound assume the temporary directory exists and
  has no sub-directory, as `setup_directories` leaves it. Without that, a
  sub-directory named like a member makes that member raise IsADirectoryError.
- Scanning.ScanDirectory, Scanning.ScanDirectoryContents, Scanning.ScanWalkResult,
  Scanning.UnsupportedNeverListed and Scanning.ScanRaisesFileNotFound also assume
  the temporary directory does not lie inside the input directory. Otherwise the
  walk could meet files that the scan itself extracted.
- Extraction.ExtractionResult, Extraction.ExtractionOutcome,
  Extraction.LastWriteWins, Extraction.ExtractLastWriteWins,
  Extraction.TwoKeptMembers, Extraction.FlattensSubfolders,
  Extraction.TraversalNameIsFlattened, Extraction.DirectoryMemberIsSkipped and
  Extraction.DotMemberAbortsExtraction assume the temporary directory exists and
  has no sub-directory, as `setup_directories` leaves it. A sub-directory named
  like a member makes that member raise IsADirectoryError. This is stated per
  member by Extraction.KeptMember but not folded into the loop-level results.
  Extraction.TraversalNameIsFlattened also assumes the temporary directory is not
  the root, where `..` would abort instead.
- Extraction.MemberWritesOnlyChildren, Extraction.KeptMemberWritesOnlyChild,
  Extraction.OtherMemberWritesNothing, Extraction.ExtractionWritesOnlyChildren,
  Extraction.ExtractionKeepsDirs, Extraction.LoopConfined,
  Scanning.ExtractWritesOnlyChildren, Scanning.ScanFileWritesOnlyChildren,
  Scanning.FileStepConfined, Scanning.FoldConfined,
  Scanning.ScanWalkWritesOnlyChildren and Scanning.ScanWritesOnlyChildren assume
  the temporary directory exists. When it is missing, a member such as `x/.`
  opens the temporary directory's own path for writing (main.py:34-41), and that
  creates a regular file there, in the source as in the model.
- Extraction.FlattensSubfolders is stated for any two names of the test's shape
  rather than for the literal `doc1.pdf` and `subfolder/doc2.jpg`.
- Disks.RemoveTree: `rmtree("/")` is modelled as deleting everything below the
  root and then raising; the platform's exact partial effects are not modelled.
- The disk is a field of the processor object. Other processes changing the file
  system during a scan are not modelled.
- The command-line entry point under `__main__`, the classification of documents,
  the generative-AI client and PDF handling are outside this core and not
  modelled.
