/** DocumentProcessor.scan_input: a missing input raises FileNotFoundError; a single
    file is extracted when it is an archive and otherwise kept or dropped by its
    extension; a directory is walked, and each of its files is kept when its
    extension is supported and otherwise extracted when it is an archive. */
module Scanning {
  import opened Paths
  import opened Disks
  import opened Extraction

  /** The regular files below the directory `ri`, as paths relative to it: what
      os.walk reports, each file once. */
  function TreeFiles(d: Disk, ri: AbsPath): set<AbsPath> {
    set f | f in d.files && |f| > |ri| && f[..|ri|] == ri :: f[|ri|..]
  }

  /** `walk` lists every element of `s` exactly once. */
  predicate Enumerates(walk: seq<AbsPath>, s: set<AbsPath>) {
    && (forall i, j :: 0 <= i < j < |walk| ==> walk[i] != walk[j])
    && (forall i :: 0 <= i < |walk| ==> walk[i] in s)
    && (forall x :: x in s ==> x in walk)
  }

  /** `Path(root) / file` for a file the walk reports at `rel` below the input. */
  function PathOf(input: PyPath, rel: AbsPath): (p: PyPath)
    ensures WellFormed(input) && IsResolved(rel) ==> WellFormed(p)
  {
    var p := PyPath(input.absolute, input.parts + rel);
    assert WellFormed(input) && IsResolved(rel) ==> WellFormed(p) by {
      if WellFormed(input) && IsResolved(rel) {
        forall i | 0 <= i < |p.parts| ensures IsPart(p.parts[i]) {
          if i >= |input.parts| { assert p.parts[i] == rel[i - |input.parts|]; }
        }
      }
    }
    p
  }

  /** The body of the walk loop for one file: a supported document is kept, an archive
      is extracted, anything else is dropped. */
  function ScanFile(d: Disk, cwd: AbsPath, temp: PyPath, path: PyPath): Run<seq<PyPath>>
    requires IsResolved(cwd) && WellFormed(temp) && WellFormed(path)
  {
    if IsSupported(path) then Run(d, Ok([path]))
    else if IsZip(path) then Extract(d, cwd, temp, path)
    else Run(d, Ok([]))
  }

  /** The walk loop over the first `n` files of `walk`, with `step` as the loop body:
      results concatenated in walk order, the first exception ending the loop. */
  function Fold(step: (Disk, AbsPath) -> Run<seq<PyPath>>, d: Disk, walk: seq<AbsPath>, n: nat): Run<seq<PyPath>>
    requires n <= |walk|
    decreases n
  {
    if n == 0 then Run(d, Ok([]))
    else
      var prev := Fold(step, d, walk, n - 1);
      if prev.result.Err? then prev
      else
        var s := step(prev.disk, walk[n - 1]);
        if s.result.Err? then Run(s.disk, Err(s.result.error))
        else Run(s.disk, Ok(prev.result.value + s.result.value))
  }

  /** The loop body for the file the walk reports at `rel` below the input. A walked
      path is always resolved; the other case only makes the function total. */
  function FileStep(cwd: AbsPath, temp: PyPath, input: PyPath): (Disk, AbsPath) -> Run<seq<PyPath>>
    requires IsResolved(cwd) && WellFormed(temp) && WellFormed(input)
  {
    (d: Disk, rel: AbsPath) =>
      if IsResolved(rel) then ScanFile(d, cwd, temp, PathOf(input, rel)) else Run(d, Ok([]))
  }

  /** The walk loop over the first `n` files of `walk`. */
  function ScanWalk(d: Disk, cwd: AbsPath, temp: PyPath, input: PyPath, walk: seq<AbsPath>, n: nat): Run<seq<PyPath>>
    requires IsResolved(cwd) && WellFormed(temp) && WellFormed(input)
    requires n <= |walk|
  {
    Fold(FileStep(cwd, temp, input), d, walk, n)
  }

  /** scan_input, with the order in which os.walk reports the files of a directory
      input given as `walk`. */
  function Scan(d: Disk, cwd: AbsPath, temp: PyPath, input: PyPath, walk: seq<AbsPath>): Run<seq<PyPath>>
    requires IsResolved(cwd) && WellFormed(temp) && WellFormed(input)
  {
    var ri := Resolve(cwd, input);
    if !Exists(d, ri) then Run(d, Err(FileNotFound))
    else if ri in d.files then
      if IsZip(input) then Extract(d, cwd, temp, input)
      else if IsSupported(input) then Run(d, Ok([input]))
      else Run(d, Ok([]))
    else ScanWalk(d, cwd, temp, input, walk, |walk|)
  }

  // ---------------------------------------------------------------------------
  // Specification
  // ---------------------------------------------------------------------------

  /** What opening an existing file as an archive yields: BadZipFile for a file that
      is not an archive, otherwise the outcome its member names determine. */
  function ArchiveOutcome(rt: AbsPath, temp: PyPath, data: FileData): Result<seq<PyPath>> {
    match data
    case Blob(_) => Err(BadZipFile)
    case ZipArchive(es) => Expected(rt, temp, es)
  }

  /** What one walked file contributes, given the contents it had when the scan began. */
  function FileOutcome(rt: AbsPath, temp: PyPath, path: PyPath, data: FileData): Result<seq<PyPath>> {
    if IsSupported(path) then Ok([path])
    else if IsZip(path) then ArchiveOutcome(rt, temp, data)
    else Ok([])
  }

  /** What each walked file yields, read off the disk as it was when the scan began. */
  function Outcomes(d: Disk, ri: AbsPath, rt: AbsPath, temp: PyPath, input: PyPath, walk: seq<AbsPath>): (rs: seq<Result<seq<PyPath>>>)
    requires forall i :: 0 <= i < |walk| ==> ri + walk[i] in d.files
    ensures |rs| == |walk|
  {
    seq(|walk|, k requires 0 <= k < |walk| => FileOutcome(rt, temp, PathOf(input, walk[k]), d.files[ri + walk[k]]))
  }

  /** The outcomes of the first `n` files taken in order: the first exception, or the
      concatenation of the lists. */
  function Combine(rs: seq<Result<seq<PyPath>>>, n: nat): Result<seq<PyPath>>
    requires n <= |rs|
    decreases n
  {
    if n == 0 then Ok([])
    else
      var prev := Combine(rs, n - 1);
      if prev.Err? then prev
      else if rs[n - 1].Err? then rs[n - 1]
      else Ok(prev.value + rs[n - 1].value)
  }

  /** The first `n` lists, concatenated in order. */
  function Flatten(ss: seq<seq<PyPath>>, n: nat): seq<PyPath>
    requires n <= |ss|
    decreases n
  {
    if n == 0 then [] else Flatten(ss, n - 1) + ss[n - 1]
  }

  /** What the walk yields, read off the disk as it was when the scan began. */
  function WalkOutcome(d: Disk, ri: AbsPath, rt: AbsPath, temp: PyPath, input: PyPath, walk: seq<AbsPath>): Result<seq<PyPath>>
    requires forall i :: 0 <= i < |walk| ==> ri + walk[i] in d.files
  {
    Combine(Outcomes(d, ri, rt, temp, input, walk), |walk|)
  }

  /** Each walked path names a regular file below the input directory. */
  lemma WalkedFiles(d: Disk, ri: AbsPath, walk: seq<AbsPath>)
    requires Wf(d) && Enumerates(walk, TreeFiles(d, ri))
    ensures forall i :: 0 <= i < |walk| ==> ri + walk[i] in d.files && walk[i] != [] && IsResolved(walk[i])
  {
    forall i | 0 <= i < |walk| ensures ri + walk[i] in d.files && walk[i] != [] && IsResolved(walk[i]) {
      assert walk[i] in TreeFiles(d, ri);
      var f :| f in d.files && |f| > |ri| && f[..|ri|] == ri && walk[i] == f[|ri|..];
      assert f == ri + walk[i];
      assert forall k :: 0 <= k < |walk[i]| ==> walk[i][k] == f[|ri| + k];
    }
  }

  /** A file below the input directory is not a direct child of the temporary
      directory, unless the temporary directory is the input directory or lies
      inside it. */
  lemma BelowInputIsNotTempChild(ri: AbsPath, rt: AbsPath, rel: AbsPath)
    requires rel != [] && !(ri <= rt)
    ensures !ChildOf(rt, ri + rel)
  {
    assert Parent(ri + rel) == ri + rel[..|rel| - 1];
  }

  /** Opening an archive when the temporary directory exists: the disk stays well
      formed and only direct children of the temporary directory are written. */
  lemma ExtractWritesOnlyChildren(d: Disk, cwd: AbsPath, temp: PyPath, zipPath: PyPath)
    requires Wf(d) && IsResolved(cwd) && WellFormed(temp) && WellFormed(zipPath)
    requires Resolve(cwd, temp) in d.dirs
    ensures Wf(Extract(d, cwd, temp, zipPath).disk)
    ensures WritesOnlyChildren(d, Extract(d, cwd, temp, zipPath).disk, Resolve(cwd, temp))
  {
    var rz := Resolve(cwd, zipPath);
    if rz != [] && rz !in d.dirs && !Blocked(d, Parent(rz)) && rz in d.files && d.files[rz].ZipArchive? {
      ExtractionWritesOnlyChildren(d, cwd, temp, Opened(d.files[rz].entries));
    }
  }

  /** Opening an existing regular file as an archive yields its ArchiveOutcome. */
  lemma ExtractExisting(d: Disk, cwd: AbsPath, temp: PyPath, zipPath: PyPath)
    requires Wf(d) && IsResolved(cwd) && WellFormed(temp) && WellFormed(zipPath)
    requires Resolve(cwd, temp) in d.dirs && NoSubdirs(d, Resolve(cwd, temp))
    requires Resolve(cwd, zipPath) in d.files
    ensures Extract(d, cwd, temp, zipPath).result == ArchiveOutcome(Resolve(cwd, temp), temp, d.files[Resolve(cwd, zipPath)])
  {
    var rz := Resolve(cwd, zipPath);
    DirectoryIsNotBlocked(d, Parent(rz));
    if d.files[rz].ZipArchive? {
      ExtractionResult(d, cwd, temp, Opened(d.files[rz].entries));
      OpenedOutcome(Resolve(cwd, temp), temp, d.files[rz].entries);
    }
  }

  /** One walked file, when the temporary directory exists: the disk stays well
      formed and only direct children of the temporary directory are written. */
  lemma ScanFileWritesOnlyChildren(d: Disk, cwd: AbsPath, temp: PyPath, path: PyPath)
    requires Wf(d) && IsResolved(cwd) && WellFormed(temp) && WellFormed(path)
    requires Resolve(cwd, temp) in d.dirs
    ensures Wf(ScanFile(d, cwd, temp, path).disk)
    ensures WritesOnlyChildren(d, ScanFile(d, cwd, temp, path).disk, Resolve(cwd, temp))
  {
    ExtractWritesOnlyChildren(d, cwd, temp, path);
  }

  /** A loop body that keeps the disk well formed and writes nothing but direct
      children of `rt`, whenever `rt` is an existing directory. */
  ghost predicate WalkStepConfined(step: (Disk, AbsPath) -> Run<seq<PyPath>>, rt: AbsPath) {
    forall d: Disk, rel: AbsPath {:trigger step(d, rel)} :: Wf(d) && rt in d.dirs ==>
      Wf(step(d, rel).disk) && WritesOnlyChildren(d, step(d, rel).disk, rt)
  }

  /** A walk whose every step is confined is confined, whether it completes or
      raises part-way. */
  lemma {:induction false} FoldConfined(step: (Disk, AbsPath) -> Run<seq<PyPath>>, rt: AbsPath, d: Disk, walk: seq<AbsPath>, n: nat)
    requires WalkStepConfined(step, rt) && Wf(d) && rt in d.dirs && n <= |walk|
    ensures Wf(Fold(step, d, walk, n).disk) && WritesOnlyChildren(d, Fold(step, d, walk, n).disk, rt)
    decreases n
  {
    if n > 0 {
      FoldConfined(step, rt, d, walk, n - 1);
      var prev := Fold(step, d, walk, n - 1);
      if prev.result.Ok? {
        WritesOnlyChildrenTransitive(d, prev.disk, step(prev.disk, walk[n - 1]).disk, rt);
      }
    }
  }

  lemma FileStepConfined(cwd: AbsPath, temp: PyPath, input: PyPath)
    requires IsResolved(cwd) && WellFormed(temp) && WellFormed(input)
    ensures WalkStepConfined(FileStep(cwd, temp, input), Resolve(cwd, temp))
  {
    forall d: Disk, rel: AbsPath | Wf(d) && Resolve(cwd, temp) in d.dirs
      ensures Wf(FileStep(cwd, temp, input)(d, rel).disk)
      ensures WritesOnlyChildren(d, FileStep(cwd, temp, input)(d, rel).disk, Resolve(cwd, temp))
    {
      if IsResolved(rel) {
        ScanFileWritesOnlyChildren(d, cwd, temp, PathOf(input, rel));
      }
    }
  }

  /** The walk loop, when the temporary directory exists: the disk stays well formed
      and only direct children of the temporary directory are written. */
  lemma ScanWalkWritesOnlyChildren(d: Disk, cwd: AbsPath, temp: PyPath, input: PyPath, walk: seq<AbsPath>, n: nat)
    requires Wf(d) && IsResolved(cwd) && WellFormed(temp) && WellFormed(input)
    requires n <= |walk|
    requires Resolve(cwd, temp) in d.dirs
    ensures Wf(ScanWalk(d, cwd, temp, input, walk, n).disk)
    ensures WritesOnlyChildren(d, ScanWalk(d, cwd, temp, input, walk, n).disk, Resolve(cwd, temp))
  {
    FileStepConfined(cwd, temp, input);
    FoldConfined(FileStep(cwd, temp, input), Resolve(cwd, temp), d, walk, n);
  }

  /** One walked file, when the temporary directory exists and holds no
      sub-directory: the loop body yields the file's FileOutcome. */
  lemma ScanFileResult(d: Disk, cwd: AbsPath, temp: PyPath, path: PyPath)
    requires Wf(d) && IsResolved(cwd) && WellFormed(temp) && WellFormed(path)
    requires Resolve(cwd, temp) in d.dirs && NoSubdirs(d, Resolve(cwd, temp))
    requires Resolve(cwd, path) in d.files
    ensures ScanFile(d, cwd, temp, path).result == FileOutcome(Resolve(cwd, temp), temp, path, d.files[Resolve(cwd, path)])
  {
    if !IsSupported(path) && IsZip(path) {
      ExtractExisting(d, cwd, temp, path);
    }
  }

  /** The walk loop, when the temporary directory exists, holds no sub-directory and
      lies outside the input directory: the first `n` files yield their combined
      outcomes, so archives found later in the walk are read as they were when the
      scan began. */
  lemma {:induction false} ScanWalkResult(d: Disk, cwd: AbsPath, temp: PyPath, input: PyPath, walk: seq<AbsPath>, n: nat)
    requires Wf(d) && IsResolved(cwd) && WellFormed(temp) && WellFormed(input)
    requires Resolve(cwd, temp) in d.dirs && NoSubdirs(d, Resolve(cwd, temp))
    requires !(Resolve(cwd, input) <= Resolve(cwd, temp))
    requires n <= |walk|
    requires forall i :: 0 <= i < |walk| ==> Resolve(cwd, input) + walk[i] in d.files && walk[i] != [] && IsResolved(walk[i])
    ensures ScanWalk(d, cwd, temp, input, walk, n).result ==
      Combine(Outcomes(d, Resolve(cwd, input), Resolve(cwd, temp), temp, input, walk), n)
    decreases n
  {
    if n > 0 {
      var ri, rt := Resolve(cwd, input), Resolve(cwd, temp);
      var rel := walk[n - 1];
      ScanWalkResult(d, cwd, temp, input, walk, n - 1);
      ScanWalkWritesOnlyChildren(d, cwd, temp, input, walk, n - 1);
      var prev := ScanWalk(d, cwd, temp, input, walk, n - 1);
      var r := ScanWalk(d, cwd, temp, input, walk, n);
      var rs := Outcomes(d, ri, rt, temp, input, walk);
      var wo := Combine(rs, n - 1);
      if prev.result.Ok? {
        var path := PathOf(input, rel);
        ResolveAppend(cwd, input, rel);
        assert Resolve(cwd, path) == ri + rel;
        BelowInputIsNotTempChild(ri, rt, rel);
        assert ri + rel in prev.disk.files && prev.disk.files[ri + rel] == d.files[ri + rel];
        ScanFileResult(prev.disk, cwd, temp, path);
        var step := ScanFile(prev.disk, cwd, temp, path);
        var fo := FileOutcome(rt, temp, path, d.files[ri + rel]);
        assert step.result == fo;
        assert rs[n - 1] == fo;
      } else {
        assert r == prev;
      }
    }
  }

  /** What one walked file puts in the result when nothing is raised. */
  function Contribution(temp: PyPath, path: PyPath, data: FileData): seq<PyPath> {
    if IsSupported(path) then [path]
    else if IsZip(path) && data.ZipArchive? then Targets(temp, data.entries)
    else []
  }

  /** What each walked file puts in the result when nothing is raised. */
  function Contributions(d: Disk, ri: AbsPath, temp: PyPath, input: PyPath, walk: seq<AbsPath>): (cs: seq<seq<PyPath>>)
    requires forall i :: 0 <= i < |walk| ==> ri + walk[i] in d.files
    ensures |cs| == |walk|
  {
    seq(|walk|, k requires 0 <= k < |walk| => Contribution(temp, PathOf(input, walk[k]), d.files[ri + walk[k]]))
  }

  /** The result list of a walk that raises nothing: the contributions of the walked
      files, in walk order. */
  function Listed(d: Disk, ri: AbsPath, temp: PyPath, input: PyPath, walk: seq<AbsPath>): seq<PyPath>
    requires forall i :: 0 <= i < |walk| ==> ri + walk[i] in d.files
  {
    Flatten(Contributions(d, ri, temp, input, walk), |walk|)
  }

  /** Every element of one of the first `n` lists is in their concatenation. */
  lemma {:induction false} FlattenHas(ss: seq<seq<PyPath>>, n: nat, i: int, x: PyPath)
    requires n <= |ss| && 0 <= i < n && x in ss[i]
    ensures x in Flatten(ss, n)
    decreases n
  {
    if i < n - 1 {
      FlattenHas(ss, n - 1, i, x);
    }
  }

  /** The concatenation holds nothing else. */
  lemma {:induction false} FlattenOnly(ss: seq<seq<PyPath>>, n: nat, x: PyPath) returns (i: int)
    requires n <= |ss| && x in Flatten(ss, n)
    ensures 0 <= i < n && x in ss[i]
    decreases n
  {
    if x in Flatten(ss, n - 1) {
      i := FlattenOnly(ss, n - 1, x);
    } else {
      i := n - 1;
    }
  }

  /** Concatenations of lists that agree on the first `n` places agree. */
  lemma {:induction false} FlattenAgree(ss: seq<seq<PyPath>>, ts: seq<seq<PyPath>>, n: nat)
    requires n <= |ss| && n <= |ts| && forall k :: 0 <= k < n ==> ss[k] == ts[k]
    ensures Flatten(ss, n) == Flatten(ts, n)
    decreases n
  {
    if n > 0 {
      FlattenAgree(ss, ts, n - 1);
    }
  }

  /** The lists of the outcomes that raise nothing, and the empty list for the others. */
  function Values(rs: seq<Result<seq<PyPath>>>): (vs: seq<seq<PyPath>>)
    ensures |vs| == |rs|
  {
    seq(|rs|, k requires 0 <= k < |rs| => if rs[k].Ok? then rs[k].value else [])
  }

  /** The first `n` outcomes combine to a list exactly when none of them raises, and
      the list is then the concatenation of theirs. */
  lemma {:induction false} CombineOk(rs: seq<Result<seq<PyPath>>>, n: nat)
    requires n <= |rs|
    ensures Combine(rs, n).Ok? <==> forall k :: 0 <= k < n ==> rs[k].Ok?
    ensures Combine(rs, n).Ok? ==> Combine(rs, n).value == Flatten(Values(rs), n)
    decreases n
  {
    if n > 0 {
      CombineOk(rs, n - 1);
    }
  }

  /** A combination that raises raises what one of the outcomes raises. */
  lemma {:induction false} CombineErr(rs: seq<Result<seq<PyPath>>>, n: nat) returns (k: int)
    requires n <= |rs| && Combine(rs, n).Err?
    ensures 0 <= k < n && rs[k] == Combine(rs, n)
    decreases n
  {
    if Combine(rs, n - 1).Err? {
      k := CombineErr(rs, n - 1);
    } else {
      k := n - 1;
    }
  }

  /** One file: when nothing is raised it contributes its Contribution, and an archive
      that raises nothing is a readable archive. A file that raises raises
      BadZipFile or IsADirectoryError. */
  lemma FileOutcomeContribution(rt: AbsPath, temp: PyPath, path: PyPath, data: FileData)
    ensures FileOutcome(rt, temp, path, data).Ok? ==>
      && FileOutcome(rt, temp, path, data).value == Contribution(temp, path, data)
      && (IsZip(path) ==> data.ZipArchive?)
    ensures FileOutcome(rt, temp, path, data).Err? ==>
      FileOutcome(rt, temp, path, data).error in {BadZipFile, IsADirectory}
  {
    ZipIsNeverSupported(path);
    if data.ZipArchive? {
      ExpectedValue(rt, temp, data.entries);
      ExpectedError(rt, temp, data.entries);
    }
  }

  /** The walk: when nothing is raised the result is Listed and every archive found is
      readable; otherwise the exception is BadZipFile or IsADirectoryError. */
  lemma WalkOutcomeListed(d: Disk, ri: AbsPath, rt: AbsPath, temp: PyPath, input: PyPath, walk: seq<AbsPath>)
    requires forall i :: 0 <= i < |walk| ==> ri + walk[i] in d.files
    ensures WalkOutcome(d, ri, rt, temp, input, walk).Ok? ==>
      && WalkOutcome(d, ri, rt, temp, input, walk).value == Listed(d, ri, temp, input, walk)
      && (forall i :: 0 <= i < |walk| && IsZip(PathOf(input, walk[i])) ==> d.files[ri + walk[i]].ZipArchive?)
    ensures WalkOutcome(d, ri, rt, temp, input, walk).Err? ==>
      WalkOutcome(d, ri, rt, temp, input, walk).error in {BadZipFile, IsADirectory}
  {
    var rs := Outcomes(d, ri, rt, temp, input, walk);
    var cs := Contributions(d, ri, temp, input, walk);
    CombineOk(rs, |walk|);
    if Combine(rs, |walk|).Ok? {
      var vs := Values(rs);
      forall k | 0 <= k < |walk|
        ensures vs[k] == cs[k] && (IsZip(PathOf(input, walk[k])) ==> d.files[ri + walk[k]].ZipArchive?)
      {
        assert rs[k].Ok?;
        FileOutcomeContribution(rt, temp, PathOf(input, walk[k]), d.files[ri + walk[k]]);
      }
      FlattenAgree(vs, cs, |walk|);
    } else {
      var k := CombineErr(rs, |walk|);
      FileOutcomeContribution(rt, temp, PathOf(input, walk[k]), d.files[ri + walk[k]]);
    }
  }

  /** Every supported file the walk reports is in the result. */
  lemma ListedHasSupported(d: Disk, ri: AbsPath, temp: PyPath, input: PyPath, walk: seq<AbsPath>, i: int)
    requires forall k :: 0 <= k < |walk| ==> ri + walk[k] in d.files
    requires 0 <= i < |walk| && IsSupported(PathOf(input, walk[i]))
    ensures PathOf(input, walk[i]) in Listed(d, ri, temp, input, walk)
  {
    FlattenHas(Contributions(d, ri, temp, input, walk), |walk|, i, PathOf(input, walk[i]));
  }

  /** Every path extracted from an archive the walk reports is in the result. */
  lemma ListedHasTargets(d: Disk, ri: AbsPath, temp: PyPath, input: PyPath, walk: seq<AbsPath>, i: int, t: PyPath)
    requires forall k :: 0 <= k < |walk| ==> ri + walk[k] in d.files
    requires 0 <= i < |walk| && IsZip(PathOf(input, walk[i])) && d.files[ri + walk[i]].ZipArchive?
    requires t in Targets(temp, d.files[ri + walk[i]].entries)
    ensures t in Listed(d, ri, temp, input, walk)
  {
    ZipIsNeverSupported(PathOf(input, walk[i]));
    FlattenHas(Contributions(d, ri, temp, input, walk), |walk|, i, t);
  }

  /** `p` is in the result because it is a supported file of the walk, or because it
      was extracted from an archive of the walk. */
  predicate Accounted(d: Disk, ri: AbsPath, temp: PyPath, input: PyPath, walk: seq<AbsPath>, p: PyPath)
    requires forall k :: 0 <= k < |walk| ==> ri + walk[k] in d.files
  {
    exists i :: 0 <= i < |walk| &&
      ((p == PathOf(input, walk[i]) && IsSupported(p))
       || (IsZip(PathOf(input, walk[i])) && d.files[ri + walk[i]].ZipArchive?
           && p in Targets(temp, d.files[ri + walk[i]].entries)))
  }

  /** Nothing else is in the result. */
  lemma ListedIsAccounted(d: Disk, ri: AbsPath, temp: PyPath, input: PyPath, walk: seq<AbsPath>, p: PyPath)
    requires forall k :: 0 <= k < |walk| ==> ri + walk[k] in d.files
    ensures p in Listed(d, ri, temp, input, walk) ==> Accounted(d, ri, temp, input, walk, p)
  {
    if p in Listed(d, ri, temp, input, walk) {
      var i := FlattenOnly(Contributions(d, ri, temp, input, walk), |walk|, p);
      assert p in Contribution(temp, PathOf(input, walk[i]), d.files[ri + walk[i]]);
    }
  }

  /** A path extracted into the temporary directory is never the path of a walked
      file, when the temporary directory lies outside the input directory. */
  lemma TargetIsNotWalked(cwd: AbsPath, temp: PyPath, input: PyPath, rel: AbsPath, es: seq<Entry>, t: PyPath)
    requires IsResolved(cwd) && WellFormed(temp) && WellFormed(input)
    requires !(Resolve(cwd, input) <= Resolve(cwd, temp))
    requires rel != [] && IsResolved(rel) && t in Targets(temp, es)
    ensures t != PathOf(input, rel)
  {
    var ri, rt := Resolve(cwd, input), Resolve(cwd, temp);
    TargetsAreChildren(cwd, temp, es);
    ResolveAppend(cwd, input, rel);
    var x := t.parts[|temp.parts|];
    assert Resolve(cwd, t) == rt + [x];
    assert ChildOf(rt, rt + [x]);
    BelowInputIsNotTempChild(ri, rt, rel);
    assert Resolve(cwd, PathOf(input, rel)) == ri + rel;
  }

  /** A walked file that is not a supported document never appears in the result, not
      even as an extracted path, when the temporary directory lies outside the input
      directory: "test.txt" beside the images is dropped. */
  lemma UnsupportedNeverListed(d: Disk, cwd: AbsPath, temp: PyPath, input: PyPath, walk: seq<AbsPath>, i: int)
    requires IsResolved(cwd) && WellFormed(temp) && WellFormed(input)
    requires !(Resolve(cwd, input) <= Resolve(cwd, temp))
    requires forall k :: 0 <= k < |walk| ==> Resolve(cwd, input) + walk[k] in d.files && walk[k] != [] && IsResolved(walk[k])
    requires 0 <= i < |walk| && !IsSupported(PathOf(input, walk[i]))
    ensures PathOf(input, walk[i]) !in Listed(d, Resolve(cwd, input), temp, input, walk)
  {
    var ri := Resolve(cwd, input);
    var p := PathOf(input, walk[i]);
    forall j | 0 <= j < |walk| && IsZip(PathOf(input, walk[j])) && d.files[ri + walk[j]].ZipArchive?
      ensures p !in Targets(temp, d.files[ri + walk[j]].entries)
    {
      var es := d.files[ri + walk[j]].entries;
      forall t | t in Targets(temp, es) ensures t != p {
        TargetIsNotWalked(cwd, temp, input, walk[i], es, t);
      }
    }
    assert !Accounted(d, ri, temp, input, walk, p);
    ListedIsAccounted(d, ri, temp, input, walk, p);
  }

  /** A file of the tree is a regular file below the input directory. */
  lemma TreeFileIsFile(d: Disk, ri: AbsPath, rel: AbsPath)
    requires Wf(d) && rel in TreeFiles(d, ri)
    ensures ri + rel in d.files && rel != [] && IsResolved(rel)
  {
    var f :| f in d.files && |f| > |ri| && f[..|ri|] == ri && rel == f[|ri|..];
    assert f == ri + rel;
    assert forall k :: 0 <= k < |rel| ==> rel[k] == f[|ri| + k];
  }

  /** Every finite set of paths can be listed, each element once. */
  lemma {:induction false} EnumerationOf(s: set<AbsPath>) returns (walk: seq<AbsPath>)
    ensures Enumerates(walk, s)
    decreases |s|
  {
    if s == {} {
      walk := [];
    } else {
      var x :| x in s;
      var rest := EnumerationOf(s - {x});
      walk := rest + [x];
      forall y | y in s ensures y in walk {
        if y != x { assert y in rest; }
      }
    }
  }

  /** Part way through listing `all`: `walk` lists the elements visited so far, each
      once, and `rest` holds the others. */
  predicate Listing(walk: seq<AbsPath>, rest: set<AbsPath>, all: set<AbsPath>) {
    && rest <= all
    && (forall i :: 0 <= i < |walk| ==> walk[i] in all && walk[i] !in rest)
    && (forall i, j :: 0 <= i < j < |walk| ==> walk[i] != walk[j])
    && (forall x :: x in all ==> x in rest || x in walk)
  }

  /** Visiting one more element keeps the listing. */
  lemma ListingStep(walk: seq<AbsPath>, rest: set<AbsPath>, all: set<AbsPath>, x: AbsPath)
    requires Listing(walk, rest, all) && x in rest
    ensures Listing(walk + [x], rest - {x}, all)
  {
    var w := walk + [x];
    forall i | 0 <= i < |w| ensures w[i] in all && w[i] !in rest - {x} {
      if i < |walk| { assert w[i] == walk[i]; }
    }
    forall i, j | 0 <= i < j < |w| ensures w[i] != w[j] {
      assert w[i] == walk[i];
      if j < |walk| { assert w[j] == walk[j]; }
    }
    forall y | y in all ensures y in rest - {x} || y in w {
      if y == x { assert w[|walk|] == x; }
      else if y in walk { var i :| 0 <= i < |walk| && walk[i] == y; assert w[i] == y; }
    }
  }

  /** A listing of some elements followed by a listing of the others lists them all. */
  lemma EnumeratesAppend(walk: seq<AbsPath>, tail: seq<AbsPath>, rest: set<AbsPath>, all: set<AbsPath>)
    requires Listing(walk, rest, all) && Enumerates(tail, rest)
    ensures Enumerates(walk + tail, all)
  {
    var w := walk + tail;
    forall i, j | 0 <= i < j < |w| ensures w[i] != w[j] {
      if j < |walk| {
        assert w[i] == walk[i] && w[j] == walk[j];
      } else if i < |walk| {
        assert w[i] == walk[i] && w[j] == tail[j - |walk|];
      } else {
        assert w[i] == tail[i - |walk|] && w[j] == tail[j - |walk|];
      }
    }
    forall i | 0 <= i < |w| ensures w[i] in all {
      if i >= |walk| { assert w[i] == tail[i - |walk|]; }
    }
  }

  /** The first `n` steps of the walk loop do not depend on the files listed after
      them. */
  lemma {:induction false} FoldPrefix(step: (Disk, AbsPath) -> Run<seq<PyPath>>, d: Disk, walk: seq<AbsPath>, more: seq<AbsPath>, n: nat)
    requires n <= |walk|
    ensures Fold(step, d, walk + more, n) == Fold(step, d, walk, n)
    decreases n
  {
    if n > 0 {
      FoldPrefix(step, d, walk, more, n - 1);
      assert (walk + more)[n - 1] == walk[n - 1];
    }
  }

  /** Once a file raises, the files after it are never looked at. */
  lemma {:induction false} FoldStopsAtError(step: (Disk, AbsPath) -> Run<seq<PyPath>>, d: Disk, walk: seq<AbsPath>, k: nat, n: nat)
    requires k <= n <= |walk| && Fold(step, d, walk, k).result.Err?
    ensures Fold(step, d, walk, n) == Fold(step, d, walk, k)
    decreases n
  {
    if k < n {
      FoldStopsAtError(step, d, walk, k, n - 1);
    }
  }

  /** One more iteration of the walk loop: the file listed next is handled by the
      loop body on the disk the earlier iterations left. */
  lemma ScanWalkStep(d: Disk, cwd: AbsPath, temp: PyPath, input: PyPath, walk: seq<AbsPath>, rel: AbsPath, now: Disk, found: seq<PyPath>)
    requires IsResolved(cwd) && WellFormed(temp) && WellFormed(input) && IsResolved(rel)
    requires ScanWalk(d, cwd, temp, input, walk, |walk|) == Run(now, Ok(found))
    ensures ScanWalk(d, cwd, temp, input, walk + [rel], |walk| + 1) ==
      var s := ScanFile(now, cwd, temp, PathOf(input, rel));
      if s.result.Err? then Run(s.disk, Err(s.result.error)) else Run(s.disk, Ok(found + s.result.value))
  {
    FoldPrefix(FileStep(cwd, temp, input), d, walk, [rel], |walk|);
    assert (walk + [rel])[|walk|] == rel;
  }

  /** One turn of the walk loop: the next file taken from the unvisited ones is a
      file below the input directory, and the loop over one more file is the loop so
      far followed by the loop body for that file. */
  lemma WalkTurn(d: Disk, cwd: AbsPath, temp: PyPath, input: PyPath, walk: seq<AbsPath>, rest: set<AbsPath>,
                 rel: AbsPath, now: Disk, found: seq<PyPath>)
    requires Wf(d) && IsResolved(cwd) && WellFormed(temp) && WellFormed(input)
    requires Listing(walk, rest, TreeFiles(d, Resolve(cwd, input))) && rel in rest
    requires ScanWalk(d, cwd, temp, input, walk, |walk|) == Run(now, Ok(found))
    ensures Listing(walk + [rel], rest - {rel}, TreeFiles(d, Resolve(cwd, input)))
    ensures WellFormed(PathOf(input, rel))
    ensures ScanWalk(d, cwd, temp, input, walk + [rel], |walk| + 1) ==
      var s := ScanFile(now, cwd, temp, PathOf(input, rel));
      if s.result.Err? then Run(s.disk, Err(s.result.error)) else Run(s.disk, Ok(found + s.result.value))
  {
    TreeFileIsFile(d, Resolve(cwd, input), rel);
    ScanWalkStep(d, cwd, temp, input, walk, rel, now, found);
    ListingStep(walk, rest, TreeFiles(d, Resolve(cwd, input)), rel);
  }

  /** A walk loop that has raised: whatever order the files still unvisited would
      have come in, the loop over the whole listing ends the same way. */
  lemma ScanWalkFinish(d: Disk, cwd: AbsPath, temp: PyPath, input: PyPath, walk: seq<AbsPath>, rest: set<AbsPath>, all: set<AbsPath>)
    returns (full: seq<AbsPath>)
    requires IsResolved(cwd) && WellFormed(temp) && WellFormed(input)
    requires Listing(walk, rest, all)
    requires ScanWalk(d, cwd, temp, input, walk, |walk|).result.Err?
    ensures Enumerates(full, all)
    ensures ScanWalk(d, cwd, temp, input, full, |full|) == ScanWalk(d, cwd, temp, input, walk, |walk|)
  {
    var step := FileStep(cwd, temp, input);
    var tail := EnumerationOf(rest);
    EnumeratesAppend(walk, tail, rest, all);
    FoldPrefix(step, d, walk, tail, |walk|);
    FoldStopsAtError(step, d, walk + tail, |walk|, |walk + tail|);
    full := walk + tail;
  }

  // ---------------------------------------------------------------------------
  // scan_input
  // ---------------------------------------------------------------------------

  /** The files a directory input holds, as the walk reports them, when the walk
      lists each of them once. */
  lemma WalkIsOfFiles(d: Disk, cwd: AbsPath, input: PyPath, walk: seq<AbsPath>)
    requires Wf(d) && IsResolved(cwd) && WellFormed(input)
    requires Enumerates(walk, TreeFiles(d, Resolve(cwd, input)))
    ensures forall i :: 0 <= i < |walk| ==> Resolve(cwd, input) + walk[i] in d.files && walk[i] != [] && IsResolved(walk[i])
  {
    WalkedFiles(d, Resolve(cwd, input), walk);
  }

  /** scan_input only ever writes direct children of the temporary directory, once
      setup_directories has created it. */
  lemma ScanWritesOnlyChildren(d: Disk, cwd: AbsPath, temp: PyPath, input: PyPath, walk: seq<AbsPath>)
    requires Wf(d) && IsResolved(cwd) && WellFormed(temp) && WellFormed(input)
    requires forall i :: 0 <= i < |walk| ==> IsResolved(walk[i])
    requires Resolve(cwd, temp) in d.dirs
    ensures Wf(Scan(d, cwd, temp, input, walk).disk)
    ensures WritesOnlyChildren(d, Scan(d, cwd, temp, input, walk).disk, Resolve(cwd, temp))
  {
    var ri := Resolve(cwd, input);
    if !Exists(d, ri) {
    } else if ri in d.files {
      if IsZip(input) {
        ExtractWritesOnlyChildren(d, cwd, temp, input);
      }
    } else {
      ScanWalkWritesOnlyChildren(d, cwd, temp, input, walk, |walk|);
    }
  }

  /** An input path that exists is scanned; one that does not raises FileNotFoundError
      and changes nothing. Once setup_directories has run, nothing else raises
      FileNotFoundError. */
  lemma ScanRaisesFileNotFound(d: Disk, cwd: AbsPath, temp: PyPath, input: PyPath, walk: seq<AbsPath>)
    requires Wf(d) && IsResolved(cwd) && WellFormed(temp) && WellFormed(input)
    requires Resolve(cwd, temp) in d.dirs && NoSubdirs(d, Resolve(cwd, temp))
    requires !(Resolve(cwd, input) <= Resolve(cwd, temp))
    requires Enumerates(walk, TreeFiles(d, Resolve(cwd, input)))
    ensures (forall i :: 0 <= i < |walk| ==> IsResolved(walk[i])) &&
      (Scan(d, cwd, temp, input, walk).result == Err(FileNotFound) <==> !Exists(d, Resolve(cwd, input)))
    ensures !Exists(d, Resolve(cwd, input)) ==> Scan(d, cwd, temp, input, walk).disk == d
  {
    var ri, rt := Resolve(cwd, input), Resolve(cwd, temp);
    WalkIsOfFiles(d, cwd, input, walk);
    if ri in d.files {
      ScanSingleFile(d, cwd, temp, input, walk);
      if IsZip(input) {
        FileOutcomeContribution(rt, temp, input, d.files[ri]);
        ZipIsNeverSupported(input);
      }
    } else if ri in d.dirs {
      ScanDirectory(d, cwd, temp, input, walk);
      WalkOutcomeListed(d, ri, rt, temp, input, walk);
    }
  }

  /** A regular file as input: an archive is extracted, a supported document is the
      whole result, anything else gives an empty list. */
  lemma ScanSingleFile(d: Disk, cwd: AbsPath, temp: PyPath, input: PyPath, walk: seq<AbsPath>)
    requires Wf(d) && IsResolved(cwd) && WellFormed(temp) && WellFormed(input)
    requires forall i :: 0 <= i < |walk| ==> IsResolved(walk[i])
    requires Resolve(cwd, temp) in d.dirs && NoSubdirs(d, Resolve(cwd, temp))
    requires Resolve(cwd, input) in d.files
    ensures Scan(d, cwd, temp, input, walk).result ==
      if IsZip(input) then ArchiveOutcome(Resolve(cwd, temp), temp, d.files[Resolve(cwd, input)])
      else if IsSupported(input) then Ok([input])
      else Ok([])
  {
    if IsZip(input) {
      ExtractExisting(d, cwd, temp, input);
    }
  }

  /** A directory as input, when the temporary directory lies outside it: the result
      is what the walk yields file by file, read off the disk as it was when the scan
      began. */
  lemma ScanDirectory(d: Disk, cwd: AbsPath, temp: PyPath, input: PyPath, walk: seq<AbsPath>)
    requires Wf(d) && IsResolved(cwd) && WellFormed(temp) && WellFormed(input)
    requires Resolve(cwd, temp) in d.dirs && NoSubdirs(d, Resolve(cwd, temp))
    requires !(Resolve(cwd, input) <= Resolve(cwd, temp))
    requires Resolve(cwd, input) in d.dirs
    requires Enumerates(walk, TreeFiles(d, Resolve(cwd, input)))
    ensures (forall i :: 0 <= i < |walk| ==> Resolve(cwd, input) + walk[i] in d.files && IsResolved(walk[i])) &&
      Scan(d, cwd, temp, input, walk).result ==
        WalkOutcome(d, Resolve(cwd, input), Resolve(cwd, temp), temp, input, walk)
  {
    WalkIsOfFiles(d, cwd, input, walk);
    ScanWalkResult(d, cwd, temp, input, walk, |walk|);
  }

  /** A directory as input, when the temporary directory lies outside it: a scan that
      raises nothing found only readable archives and returns every supported
      document in the tree and every path extracted from every archive in it, and no
      other file of the tree; a scan that raises raises BadZipFile or
      IsADirectoryError. */
  lemma ScanDirectoryContents(d: Disk, cwd: AbsPath, temp: PyPath, input: PyPath, walk: seq<AbsPath>)
    requires Wf(d) && IsResolved(cwd) && WellFormed(temp) && WellFormed(input)
    requires Resolve(cwd, temp) in d.dirs && NoSubdirs(d, Resolve(cwd, temp))
    requires !(Resolve(cwd, input) <= Resolve(cwd, temp))
    requires Resolve(cwd, input) in d.dirs
    requires Enumerates(walk, TreeFiles(d, Resolve(cwd, input)))
    ensures (forall i :: 0 <= i < |walk| ==> Resolve(cwd, input) + walk[i] in d.files && IsResolved(walk[i])) &&
      var r := Scan(d, cwd, temp, input, walk).result;
      && (r.Ok? ==> forall rel :: rel in TreeFiles(d, Resolve(cwd, input)) ==>
            (PathOf(input, rel) in r.value <==> IsSupported(PathOf(input, rel))))
      && (r.Ok? ==> forall i :: 0 <= i < |walk| && IsZip(PathOf(input, walk[i])) ==>
            d.files[Resolve(cwd, input) + walk[i]].ZipArchive?)
      && (r.Ok? ==> forall i, t ::
            (0 <= i < |walk| && IsZip(PathOf(input, walk[i])) &&
             d.files[Resolve(cwd, input) + walk[i]].ZipArchive? &&
             t in Targets(temp, d.files[Resolve(cwd, input) + walk[i]].entries)) ==> t in r.value)
      && (r.Err? ==> r.error in {BadZipFile, IsADirectory})
  {
    var ri, rt := Resolve(cwd, input), Resolve(cwd, temp);
    ScanDirectory(d, cwd, temp, input, walk);
    WalkIsOfFiles(d, cwd, input, walk);
    WalkOutcomeListed(d, ri, rt, temp, input, walk);
    var r := Scan(d, cwd, temp, input, walk).result;
    if r.Ok? {
      forall rel | rel in TreeFiles(d, ri)
        ensures PathOf(input, rel) in r.value <==> IsSupported(PathOf(input, rel))
      {
        var i :| 0 <= i < |walk| && walk[i] == rel;
        if IsSupported(PathOf(input, rel)) {
          ListedHasSupported(d, ri, temp, input, walk, i);
        } else {
          UnsupportedNeverListed(d, cwd, temp, input, walk, i);
        }
      }
      forall i, t | 0 <= i < |walk| && IsZip(PathOf(input, walk[i])) &&
        d.files[ri + walk[i]].ZipArchive? && t in Targets(temp, d.files[ri + walk[i]].entries)
        ensures t in r.value
      {
        ListedHasTargets(d, ri, temp, input, walk, i, t);
      }
    }
  }
}
