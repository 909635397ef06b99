/** The file system the document processor works on, as a value: regular files by
    resolved path and the set of directories. The operations the processor calls
    (open for writing, mkdir with parents, rmtree) are functions that return the new
    disk together with the outcome, so an operation that raises still leaves the
    effects it had before raising. */
module Disks {
  import opened Paths

  /** The contents of a regular file: opaque bytes, or an archive that zipfile can
      read, given by its members in namelist() order. */
  datatype FileData = Blob(bytes: seq<bv8>) | ZipArchive(entries: seq<Entry>)

  /** An archive member: its stored name and its contents. */
  datatype Entry = Entry(name: string, data: FileData)

  /** The exceptions the core can raise. */
  datatype OsError =
    | FileNotFound   // FileNotFoundError
    | FileExists     // FileExistsError
    | NotADirectory  // NotADirectoryError
    | IsADirectory   // IsADirectoryError
    | Busy           // OSError from removing the file-system root
    | BadZipFile     // zipfile.BadZipFile

  datatype Result<T> = Ok(value: T) | Err(error: OsError)

  datatype Disk = Disk(files: map<AbsPath, FileData>, dirs: set<AbsPath>)

  /** The disk after an operation and what the operation returned or raised. */
  datatype Run<T> = Run(disk: Disk, result: Result<T>)

  /** A well-formed tree: the root is a directory, nothing is both a file and a
      directory, and every file or directory other than the root sits in a directory. */
  predicate Wf(d: Disk) {
    && [] in d.dirs
    && (forall p {:trigger p in d.files} :: p in d.files ==> p != [] && p !in d.dirs && Parent(p) in d.dirs && IsResolved(p))
    && (forall q {:trigger Parent(q)} :: q in d.dirs && q != [] ==> Parent(q) in d.dirs && IsResolved(q))
  }

  /** Path.exists() */
  predicate Exists(d: Disk, p: AbsPath) {
    p in d.files || p in d.dirs
  }

  /** Some leading part of `p`, `p` itself included, is a regular file. */
  predicate Blocked(d: Disk, p: AbsPath) {
    exists k :: 1 <= k <= |p| && p[..k] in d.files
  }

  /** `p` and every directory above it. */
  function Prefixes(p: AbsPath): set<AbsPath> {
    set k | 0 <= k <= |p| :: p[..k]
  }

  /** Every directory above an existing file or directory exists. */
  lemma {:induction false} AncestorsAreDirs(d: Disk, p: AbsPath)
    requires Wf(d) && Exists(d, p)
    ensures forall k :: 0 <= k < |p| ==> p[..k] in d.dirs
    decreases |p|
  {
    if p != [] {
      var up := Parent(p);
      AncestorsAreDirs(d, up);
      forall k | 0 <= k < |p| ensures p[..k] in d.dirs {
        if k < |up| { assert p[..k] == up[..k]; }
      }
    }
  }

  /** Nothing on the way to an existing directory is a regular file. */
  lemma DirectoryIsNotBlocked(d: Disk, p: AbsPath)
    requires Wf(d)
    ensures p in d.dirs ==> !Blocked(d, p)
  {
    if p in d.dirs {
      AncestorsAreDirs(d, p);
      forall k | 1 <= k <= |p| ensures p[..k] !in d.files {
        if k == |p| { assert p[..k] == p; }
      }
    }
  }

  /** open(p, "wb") followed by writing `data`: fails on a directory, on a path below
      a regular file and on a path whose directory is missing; otherwise the file at
      `p` holds `data`, whatever it held before. */
  function WriteFile(d: Disk, p: AbsPath, data: FileData): (r: Run<()>)
    ensures Wf(d) && IsResolved(p) ==> Wf(r.disk)
    ensures Wf(d) ==> (r.result.Ok? <==> p != [] && p !in d.dirs && Parent(p) in d.dirs)
    ensures r.result.Ok? ==> r.disk.dirs == d.dirs && r.disk.files == d.files[p := data]
    ensures r.result.Err? ==> r.disk == d
  {
    if p == [] || p in d.dirs then Run(d, Err(IsADirectory))
    else if Blocked(d, Parent(p)) then
      assert Wf(d) ==> Parent(p) !in d.dirs by {
        if Wf(d) { DirectoryIsNotBlocked(d, Parent(p)); }
      }
      Run(d, Err(NotADirectory))
    else if Parent(p) !in d.dirs then Run(d, Err(FileNotFound))
    else
      var d' := Disk(d.files[p := data], d.dirs);
      assert Wf(d) && IsResolved(p) ==> Wf(d') by {
        if Wf(d) && IsResolved(p) {
          forall q | q in d'.dirs && q != [] ensures Parent(q) in d'.dirs && IsResolved(q) {
            assert q in d.dirs;
          }
        }
      }
      Run(d', Ok(()))
  }

  /** Path.mkdir(parents=True, exist_ok=True): creates `p` and the missing directories
      above it; raises when `p` or a directory above it is a regular file. */
  function MakeDirs(d: Disk, p: AbsPath): (r: Run<()>)
    requires IsResolved(p)
    ensures Wf(d) ==> Wf(r.disk)
    ensures r.result.Ok? <==> !Blocked(d, p)
    ensures r.result.Ok? ==> p in r.disk.dirs && r.disk.files == d.files && d.dirs <= r.disk.dirs
    ensures r.result.Ok? ==> forall q :: q in r.disk.dirs && q !in d.dirs ==> q <= p
    ensures r.result.Err? ==> r.disk == d
  {
    if Blocked(d, p) then
      Run(d, Err(if p in d.files then FileExists else NotADirectory))
    else
      var d' := Disk(d.files, d.dirs + Prefixes(p));
      assert p[..|p|] == p;
      assert Wf(d) ==> Wf(d') by {
        if Wf(d) {
          forall q | q in d'.dirs && q != [] ensures Parent(q) in d'.dirs && IsResolved(q) {
            if q !in d.dirs {
              var k :| 0 <= k <= |p| && q == p[..k];
              assert Parent(q) == p[..k - 1];
              assert forall i :: 0 <= i < |q| ==> q[i] == p[i];
            }
          }
        }
      }
      Run(d', Ok(()))
  }

  /** `q` lies at or below `p`. */
  predicate Under(p: AbsPath, q: AbsPath) {
    p <= q
  }

  /** shutil.rmtree: removes the directory `p` with everything below it; raises on a
      regular file or a missing path. The root can be emptied but not removed, so
      rmtree("/") deletes everything and then raises. */
  function RemoveTree(d: Disk, p: AbsPath): (r: Run<()>)
    ensures Wf(d) ==> Wf(r.disk)
    ensures r.result.Ok? <==> p in d.dirs && p !in d.files && p != []
    ensures r.result.Ok? ==> forall q :: Under(p, q) ==> !Exists(r.disk, q)
    ensures r.result.Ok? ==> forall q :: !Under(p, q) ==>
      (q in r.disk.dirs <==> q in d.dirs) && (q in r.disk.files <==> q in d.files)
    ensures r.result.Ok? ==> forall q :: q in r.disk.files ==> q in d.files && r.disk.files[q] == d.files[q]
    ensures r.result.Err? && p != [] ==> r.disk == d
  {
    if p in d.files then Run(d, Err(NotADirectory))
    else if p !in d.dirs then Run(d, Err(FileNotFound))
    else if p == [] then Run(Disk(map[], {[]}), Err(Busy))
    else
      var files := map f | f in d.files && !Under(p, f) :: d.files[f];
      var dirs := set q | q in d.dirs && !Under(p, q);
      var d' := Disk(files, dirs);
      assert Wf(d) ==> Wf(d') by {
        if Wf(d) {
          forall f | f in files ensures Parent(f) in dirs {
            assert f != [] && Parent(f) in d.dirs;
          }
          forall q | q in dirs && q != [] ensures Parent(q) in dirs && IsResolved(q) {
            assert Parent(q) in d.dirs && Parent(q) <= q;
          }
        }
      }
      Run(d', Ok(()))
  }
}
