/** The DocumentProcessor object: the paths it was created with, the supported
    extensions, and the file system its methods change. */
module Processor {
  import opened Paths
  import opened Disks
  import opened Extraction
  import opened Scanning
  import opened Lifecycle

  /** The temporary directory used when none is given. */
  const DefaultTempDir: PyPath := PyPath(false, ["temp_extracted"])

  class DocumentProcessor {
    const inputPath: PyPath
    const outputPath: PyPath
    const tempDir: PyPath
    /** The working directory relative paths are resolved against. */
    const cwd: AbsPath
    const supportedExtensions: set<string>
    /** The file system the methods read and change. */
    var disk: Disk

    ghost predicate Valid()
      reads this
    {
      && Wf(disk) && IsResolved(cwd)
      && WellFormed(inputPath) && WellFormed(outputPath) && WellFormed(tempDir)
      && supportedExtensions == SupportedExtensions
    }

    constructor (input: PyPath, output: PyPath, temp: PyPath, workDir: AbsPath, fs: Disk)
      requires Wf(fs) && IsResolved(workDir)
      requires WellFormed(input) && WellFormed(output) && WellFormed(temp)
      ensures Valid()
      ensures inputPath == input && outputPath == output && tempDir == temp
      ensures cwd == workDir && disk == fs
    {
      inputPath := input;
      outputPath := output;
      tempDir := temp;
      cwd := workDir;
      supportedExtensions := {".jpg", ".jpeg", ".png", ".pdf"};
      disk := fs;
    }

    /** The constructor called without a temporary directory. */
    constructor WithDefaultTemp(input: PyPath, output: PyPath, workDir: AbsPath, fs: Disk)
      requires Wf(fs) && IsResolved(workDir)
      requires WellFormed(input) && WellFormed(output)
      ensures Valid()
      ensures inputPath == input && outputPath == output && tempDir == DefaultTempDir
      ensures cwd == workDir && disk == fs
    {
      inputPath := input;
      outputPath := output;
      tempDir := DefaultTempDir;
      cwd := workDir;
      supportedExtensions := {".jpg", ".jpeg", ".png", ".pdf"};
      disk := fs;
    }

    /** setup_directories */
    method SetupDirectories() returns (r: Result<()>)
      requires Valid()
      modifies this
      ensures Valid()
      ensures Run(disk, r) == Setup(old(disk), Resolve(cwd, outputPath), Resolve(cwd, tempDir))
    {
      var ro, rt := Resolve(cwd, outputPath), Resolve(cwd, tempDir);
      var made := MakeDirs(disk, ro);
      disk := made.disk;
      if made.result.Err? {
        return made.result;
      }
      if Exists(disk, rt) {
        var removed := RemoveTree(disk, rt);
        disk := removed.disk;
        if removed.result.Err? {
          return removed.result;
        }
      }
      var remade := MakeDirs(disk, rt);
      disk := remade.disk;
      r := remade.result;
    }

    /** extract_zip_securely: the archive is opened, then its members are handled in
        namelist() order; the first exception ends the method with the files written
        so far left on disk. */
    method ExtractZipSecurely(zipPath: PyPath) returns (r: Result<seq<PyPath>>)
      requires Valid() && WellFormed(zipPath)
      modifies this
      ensures Valid()
      ensures Run(disk, r) == Extract(old(disk), cwd, tempDir, zipPath)
    {
      var rz := Resolve(cwd, zipPath);
      if rz == [] || rz in disk.dirs {
        return Err(IsADirectory);
      }
      if Blocked(disk, Parent(rz)) {
        return Err(NotADirectory);
      }
      if rz !in disk.files {
        return Err(FileNotFound);
      }
      match disk.files[rz] {
        case Blob(_) =>
          return Err(BadZipFile);
        case ZipArchive(members) =>
          ghost var d0 := disk;
          ghost var read := Opened(members);
          var extracted: seq<PyPath> := [];
          var i := 0;
          while i < |members|
            invariant 0 <= i <= |members| && Valid()
            invariant ExtractEntries(d0, cwd, tempDir, read[..i]) == Run(disk, Ok(extracted))
          {
            ExtractEntriesStep(d0, cwd, tempDir, read, i, disk, extracted);
            var member := Entry(members[i].name, Open(members, i));
            OpenedAt(members, |members|, i);
            var handled := ExtractMember(member);
            if handled.Err? {
              ExtractionStopsAtError(d0, cwd, tempDir, read, i + 1);
              return Err(handled.error);
            }
            if handled.value.Some? {
              extracted := extracted + [handled.value.value];
            }
            i := i + 1;
          }
          assert read[..|read|] == read;
          return Ok(extracted);
      }
    }

    /** The body of the member loop of extract_zip_securely for one member: skipped
        (None), written (the target path), or the exception that ends the loop. */
    method ExtractMember(member: Entry) returns (r: Result<Option<PyPath>>)
      requires Valid()
      modifies this
      ensures Valid()
      ensures Run(disk, r) == ExtractEntry(old(disk), cwd, tempDir, member)
    {
      var filename := Basename(member.name);
      if filename == "" {
        return Ok(None);
      }
      var target := Join(tempDir, filename);
      if !PassesPrefixCheck(cwd, tempDir, target) {
        return Ok(None);
      }
      var written := WriteFile(disk, Resolve(cwd, target), member.data);
      disk := written.disk;
      if written.result.Err? {
        return Err(written.result.error);
      }
      return Ok(Some(target));
    }

    /** scan_input. The order in which os.walk reports the files of a directory input
        is not fixed; `walk` is the order this run took. */
    method ScanInput() returns (r: Result<seq<PyPath>>, ghost walk: seq<AbsPath>)
      requires Valid()
      modifies this
      ensures Valid()
      ensures Resolve(cwd, inputPath) in old(disk).dirs ==>
        Enumerates(walk, TreeFiles(old(disk), Resolve(cwd, inputPath)))
      ensures Run(disk, r) == Scan(old(disk), cwd, tempDir, inputPath, walk)
    {
      walk := [];
      var ri := Resolve(cwd, inputPath);
      if !Exists(disk, ri) {
        return Err(FileNotFound), walk;
      }
      if ri in disk.files {
        if IsZip(inputPath) {
          r := ExtractZipSecurely(inputPath);
        } else if Extension(inputPath) in supportedExtensions {
          r := Ok([inputPath]);
        } else {
          r := Ok([]);
        }
      } else {
        r, walk := ScanTree();
      }
    }

    /** The os.walk branch of scan_input: every file below the input directory, in the
        order `walk`, handled by the loop body. */
    method ScanTree() returns (r: Result<seq<PyPath>>, ghost walk: seq<AbsPath>)
      requires Valid()
      modifies this
      ensures Valid()
      ensures Enumerates(walk, TreeFiles(old(disk), Resolve(cwd, inputPath)))
      ensures Run(disk, r) == ScanWalk(old(disk), cwd, tempDir, inputPath, walk, |walk|)
    {
      ghost var d0 := disk;
      ghost var all := TreeFiles(disk, Resolve(cwd, inputPath));
      var rest := TreeFiles(disk, Resolve(cwd, inputPath));
      var found: seq<PyPath> := [];
      walk := [];
      while rest != {}
        invariant Valid() && Wf(d0) && all == TreeFiles(d0, Resolve(cwd, inputPath))
        invariant Listing(walk, rest, all)
        invariant Run(disk, Ok(found)) == ScanWalk(d0, cwd, tempDir, inputPath, walk, |walk|)
        decreases |rest|
      {
        var rel, sofar := VisitNext(d0, walk, rest, found);
        walk := walk + [rel];
        rest := rest - {rel};
        if sofar.Err? {
          walk := ScanWalkFinish(d0, cwd, tempDir, inputPath, walk, rest, all);
          return sofar, walk;
        }
        found := sofar.value;
      }
      assert Enumerates(walk, all);
      r := Ok(found);
    }

    /** One turn of the walk loop: some file not yet visited is handled, and the
        paths found so far are extended by what it yields, or its exception is
        returned. */
    method VisitNext(ghost d0: Disk, ghost walk: seq<AbsPath>, rest: set<AbsPath>, found: seq<PyPath>)
      returns (rel: AbsPath, r: Result<seq<PyPath>>)
      requires Valid() && Wf(d0) && rest != {}
      requires Listing(walk, rest, TreeFiles(d0, Resolve(cwd, inputPath)))
      requires ScanWalk(d0, cwd, tempDir, inputPath, walk, |walk|) == Run(disk, Ok(found))
      modifies this
      ensures Valid() && rel in rest
      ensures Listing(walk + [rel], rest - {rel}, TreeFiles(d0, Resolve(cwd, inputPath)))
      ensures Run(disk, r) == ScanWalk(d0, cwd, tempDir, inputPath, walk + [rel], |walk| + 1)
    {
      rel :| rel in rest;
      WalkTurn(d0, cwd, tempDir, inputPath, walk, rest, rel, disk, found);
      var handled := ScanFileOnDisk(PathOf(inputPath, rel));
      if handled.Err? {
        r := handled;
      } else {
        r := Ok(found + handled.value);
      }
    }

    /** The body of the walk loop for one file: a supported document is kept, an
        archive is extracted, anything else is dropped. */
    method ScanFileOnDisk(path: PyPath) returns (r: Result<seq<PyPath>>)
      requires Valid() && WellFormed(path)
      modifies this
      ensures Valid()
      ensures Run(disk, r) == ScanFile(old(disk), cwd, tempDir, path)
    {
      if Extension(path) in supportedExtensions {
        r := Ok([path]);
      } else if IsZip(path) {
        r := ExtractZipSecurely(path);
      } else {
        r := Ok([]);
      }
    }

    /** cleanup */
    method Cleanup() returns (r: Result<()>)
      requires Valid()
      modifies this
      ensures Valid()
      ensures Run(disk, r) == Lifecycle.Cleanup(old(disk), Resolve(cwd, tempDir))
    {
      var rt := Resolve(cwd, tempDir);
      if Exists(disk, rt) {
        var removed := RemoveTree(disk, rt);
        disk := removed.disk;
        r := removed.result;
      } else {
        r := Ok(());
      }
    }
  }
}
