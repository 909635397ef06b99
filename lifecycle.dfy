/** DocumentProcessor.setup_directories and DocumentProcessor.cleanup: the output
    directory is created, the temporary directory is recreated empty before a scan
    and removed afterwards. */
module Lifecycle {
  import opened Paths
  import opened Disks
  import opened Extraction

  /** setup_directories: mkdir(parents=True, exist_ok=True) on the output directory;
      rmtree on the temporary directory when it exists; then mkdir(parents=True,
      exist_ok=True) on it. The first exception ends the sequence. */
  function Setup(d: Disk, ro: AbsPath, rt: AbsPath): Run<()>
    requires IsResolved(ro) && IsResolved(rt)
  {
    var made := MakeDirs(d, ro);
    if made.result.Err? then made
    else
      var cleared := if Exists(made.disk, rt) then RemoveTree(made.disk, rt) else Run(made.disk, Ok(()));
      if cleared.result.Err? then cleared
      else MakeDirs(cleared.disk, rt)
  }

  /** cleanup: rmtree on the temporary directory when it exists. */
  function Cleanup(d: Disk, rt: AbsPath): Run<()> {
    if Exists(d, rt) then RemoveTree(d, rt) else Run(d, Ok(()))
  }

  /** Nothing lies below `rt`: the temporary directory is empty. */
  predicate EmptyDir(d: Disk, rt: AbsPath) {
    && rt in d.dirs
    && (forall q :: q in d.dirs && Under(rt, q) ==> q == rt)
    && (forall q :: q in d.files ==> !Under(rt, q))
  }

  /** An empty directory holds no sub-directory. */
  lemma EmptyDirHasNoSubdirs(d: Disk, rt: AbsPath)
    requires EmptyDir(d, rt)
    ensures NoSubdirs(d, rt)
  {
    forall q | q in d.dirs && q != [] ensures Parent(q) != rt {
      if Parent(q) == rt {
        assert Under(rt, q);
      }
    }
  }

  /** Nothing lies below a path that does not exist. */
  lemma NothingBelowMissing(d: Disk, rt: AbsPath)
    requires Wf(d) && !Exists(d, rt)
    ensures forall q :: Exists(d, q) ==> !Under(rt, q)
  {
    forall q | Exists(d, q) ensures !Under(rt, q) {
      AncestorsAreDirs(d, q);
      assert |rt| < |q| ==> q[..|rt|] in d.dirs;
      assert |rt| <= |q| ==> (rt <= q <==> q[..|rt|] == rt);
      assert rt <= q && |rt| == |q| ==> rt == q;
    }
  }

  /** setup_directories succeeds exactly when neither directory is a regular file or
      lies below one and the temporary directory is not the file-system root; the disk
      stays well formed. */
  lemma SetupSucceedsIff(d: Disk, ro: AbsPath, rt: AbsPath)
    requires Wf(d) && IsResolved(ro) && IsResolved(rt)
    ensures Wf(Setup(d, ro, rt).disk)
    ensures Setup(d, ro, rt).result.Ok? <==> !Blocked(d, ro) && !Blocked(d, rt) && rt != []
  {
    var made := MakeDirs(d, ro);
    if made.result.Ok? {
      if Exists(made.disk, rt) {
        var cleared := RemoveTree(made.disk, rt);
        if rt in made.disk.dirs {
          DirectoryIsNotBlocked(made.disk, rt);
          assert !Blocked(d, rt);
          if cleared.result.Ok? {
            assert !Blocked(cleared.disk, rt) by {
              forall k | 1 <= k <= |rt| ensures rt[..k] !in cleared.disk.files {
                assert rt[..k] !in made.disk.files;
              }
            }
          }
        } else {
          assert rt[..|rt|] == rt;
        }
      } else {
        assert !Blocked(made.disk, rt) <==> !Blocked(d, rt);
        assert rt != [] by { assert [] in made.disk.dirs; }
      }
    }
  }

  /** After a successful setup_directories the temporary directory exists and is
      empty, and the output directory exists unless it lies inside the temporary
      directory, whose removal takes it away. Nothing outside the temporary
      directory is removed or changed, no file is created, and the only new
      directories are the output and temporary directories and those above them. */
  lemma SetupEstablishes(d: Disk, ro: AbsPath, rt: AbsPath)
    requires Wf(d) && IsResolved(ro) && IsResolved(rt)
    requires Setup(d, ro, rt).result.Ok?
    ensures EmptyDir(Setup(d, ro, rt).disk, rt)
    ensures NoSubdirs(Setup(d, ro, rt).disk, rt)
    ensures ro in Setup(d, ro, rt).disk.dirs <==> !(rt < ro)
    ensures forall q :: !Under(rt, q) && q in d.files ==>
      q in Setup(d, ro, rt).disk.files && Setup(d, ro, rt).disk.files[q] == d.files[q]
    ensures forall q :: !Under(rt, q) && q in d.dirs ==> q in Setup(d, ro, rt).disk.dirs
    ensures forall q :: q in Setup(d, ro, rt).disk.files ==> q in d.files
    ensures forall q :: q in Setup(d, ro, rt).disk.dirs && q !in d.dirs ==> q <= ro || q <= rt
  {
    var made := MakeDirs(d, ro);
    var cleared := if Exists(made.disk, rt) then RemoveTree(made.disk, rt) else Run(made.disk, Ok(()));
    var r := MakeDirs(cleared.disk, rt);
    assert r == Setup(d, ro, rt);
    assert forall q :: Under(rt, q) ==> !Exists(cleared.disk, q) by {
      if !Exists(made.disk, rt) {
        NothingBelowMissing(made.disk, rt);
      }
    }
    forall q | q in r.disk.dirs && Under(rt, q) ensures q == rt {
      if q !in cleared.disk.dirs {
        assert q <= rt;
      }
    }
    EmptyDirHasNoSubdirs(r.disk, rt);
    if rt < ro {
      assert Under(rt, ro);
      assert ro !in r.disk.dirs by {
        assert ro !in cleared.disk.dirs && !(ro <= rt);
      }
    } else if ro != rt {
      assert !Under(rt, ro);
      assert ro in cleared.disk.dirs;
    }
  }

  /** cleanup succeeds exactly when the temporary directory is not a regular file and
      not the file-system root; it then leaves nothing at or below the temporary
      directory and everything else as it was. */
  lemma CleanupRemovesTemp(d: Disk, rt: AbsPath)
    requires Wf(d)
    ensures Wf(Cleanup(d, rt).disk)
    ensures Cleanup(d, rt).result.Ok? <==> rt !in d.files && rt != []
    ensures Cleanup(d, rt).result.Ok? ==>
      && (forall q :: Under(rt, q) ==> !Exists(Cleanup(d, rt).disk, q))
      && (forall q :: !Under(rt, q) ==> (q in Cleanup(d, rt).disk.dirs <==> q in d.dirs))
      && (forall q :: !Under(rt, q) && q in d.files ==> q in Cleanup(d, rt).disk.files && Cleanup(d, rt).disk.files[q] == d.files[q])
  {
    if !Exists(d, rt) {
      assert rt != [] by { assert [] in d.dirs; }
      NothingBelowMissing(d, rt);
    }
  }

  /** A second cleanup after one that succeeded does nothing. */
  lemma CleanupIdempotent(d: Disk, rt: AbsPath)
    requires Wf(d) && Cleanup(d, rt).result.Ok?
    ensures Cleanup(Cleanup(d, rt).disk, rt) == Run(Cleanup(d, rt).disk, Ok(()))
  {
    CleanupRemovesTemp(d, rt);
    assert Under(rt, rt);
  }
}
