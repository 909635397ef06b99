/** DocumentProcessor.extract_zip_securely: every archive member is flattened to its
    base name and written directly into the temporary directory, unless the base name
    is empty or the resolved target fails the string-prefix test. */
module Extraction {
  import opened Paths
  import opened Disks

  datatype Option<T> = None | Some(value: T)

  /** The handling of one member: skipped (None), written (the target path), or the
      exception that aborts the whole extraction. */
  function ExtractEntry(d: Disk, cwd: AbsPath, temp: PyPath, e: Entry): Run<Option<PyPath>>
    requires IsResolved(cwd) && WellFormed(temp)
  {
    var b := Basename(e.name);
    if b == "" then Run(d, Ok(None))
    else
      var target := Join(temp, b);
      if !PassesPrefixCheck(cwd, temp, target) then Run(d, Ok(None))
      else
        var w := WriteFile(d, Resolve(cwd, target), e.data);
        if w.result.Err? then Run(w.disk, Err(w.result.error)) else Run(w.disk, Ok(Some(target)))
  }

  /** The loop over namelist(), for any handling `step` of one member: members in
      order, written paths appended in order, the first exception ending the loop
      with the files written so far left on disk. */
  function MemberLoop(step: (Disk, Entry) -> Run<Option<PyPath>>, d: Disk, es: seq<Entry>): Run<seq<PyPath>>
    decreases |es|
  {
    if es == [] then Run(d, Ok([]))
    else
      var prev := MemberLoop(step, d, es[..|es| - 1]);
      if prev.result.Err? then prev
      else
        var s := step(prev.disk, es[|es| - 1]);
        match s.result
        case Err(x) => Run(s.disk, Err(x))
        case Ok(None) => Run(s.disk, prev.result)
        case Ok(Some(t)) => Run(s.disk, Ok(prev.result.value + [t]))
  }

  function EntryStep(cwd: AbsPath, temp: PyPath): (Disk, Entry) -> Run<Option<PyPath>>
    requires IsResolved(cwd) && WellFormed(temp)
  {
    (d: Disk, e: Entry) => ExtractEntry(d, cwd, temp, e)
  }

  /** The member loop of extract_zip_securely. */
  function ExtractEntries(d: Disk, cwd: AbsPath, temp: PyPath, es: seq<Entry>): Run<seq<PyPath>>
    requires IsResolved(cwd) && WellFormed(temp)
  {
    MemberLoop(EntryStep(cwd, temp), d, es)
  }

  /** zip_ref.open(member) for the `i`-th name of namelist(). zipfile looks a member
      up by its name, and its index of names keeps the last member stored under each
      name, so this reads the contents of the last member named like member `i`. */
  function Open(es: seq<Entry>, i: nat): FileData
    requires i < |es|
    decreases |es|
  {
    if i == |es| - 1 then es[i].data
    else if es[|es| - 1].name == es[i].name then es[|es| - 1].data
    else Open(es[..|es| - 1], i)
  }

  /** The first `n` members as the loop reads them: each name of namelist() with the
      contents zip_ref.open gives for it. */
  function OpenedUpTo(es: seq<Entry>, n: nat): (os: seq<Entry>)
    requires n <= |es|
    ensures |os| == n
  {
    if n == 0 then [] else OpenedUpTo(es, n - 1) + [Entry(es[n - 1].name, Open(es, n - 1))]
  }

  /** All members as the loop reads them. */
  function Opened(es: seq<Entry>): (os: seq<Entry>)
    ensures |os| == |es|
  {
    OpenedUpTo(es, |es|)
  }

  /** Member `i` as the loop reads it. */
  lemma {:induction false} OpenedAt(es: seq<Entry>, n: nat, i: nat)
    requires i < n <= |es|
    ensures OpenedUpTo(es, n)[i] == Entry(es[i].name, Open(es, i))
    decreases n
  {
    if i < n - 1 {
      OpenedAt(es, n - 1, i);
    }
  }

  /** Opening the archive: a directory, a missing file or a file that is not an
      archive raises before any member is read. */
  function Extract(d: Disk, cwd: AbsPath, temp: PyPath, zipPath: PyPath): Run<seq<PyPath>>
    requires IsResolved(cwd) && WellFormed(temp) && WellFormed(zipPath)
  {
    var rz := Resolve(cwd, zipPath);
    if rz == [] || rz in d.dirs then Run(d, Err(IsADirectory))
    else if Blocked(d, Parent(rz)) then Run(d, Err(NotADirectory))
    else if rz !in d.files then Run(d, Err(FileNotFound))
    else match d.files[rz]
      case Blob(_) => Run(d, Err(BadZipFile))
      case ZipArchive(es) => ExtractEntries(d, cwd, temp, Opened(es))
  }

  // ---------------------------------------------------------------------------
  // Reading members by name
  // ---------------------------------------------------------------------------

  /** Opening member `i` reads the member `j` that is the last one stored under the
      same name. */
  lemma {:induction false} OpenReadsLast(es: seq<Entry>, i: nat) returns (j: nat)
    requires i < |es|
    ensures i <= j < |es| && es[j].name == es[i].name && Open(es, i) == es[j].data
    ensures forall k :: j < k < |es| ==> es[k].name != es[i].name
    decreases |es|
  {
    if i == |es| - 1 {
      j := i;
    } else if es[|es| - 1].name == es[i].name {
      j := |es| - 1;
    } else {
      j := OpenReadsLast(es[..|es| - 1], i);
    }
  }

  /** Members are read under their own names; in an archive whose names are all
      different, every member reads its own contents. */
  lemma OpenedByName(es: seq<Entry>)
    ensures forall i :: 0 <= i < |es| ==> Opened(es)[i].name == es[i].name
    ensures (forall i, k :: 0 <= i < k < |es| ==> es[i].name != es[k].name) ==> Opened(es) == es
  {
    forall i | 0 <= i < |es| ensures Opened(es)[i] == Entry(es[i].name, Open(es, i)) {
      OpenedAt(es, |es|, i);
    }
    if forall i, k :: 0 <= i < k < |es| ==> es[i].name != es[k].name {
      forall i | 0 <= i < |es| ensures Opened(es)[i] == es[i] {
        var j := OpenReadsLast(es, i);
      }
    }
  }

  /** Two members stored under the same name both read the second one's contents. */
  lemma RepeatedNameReadsLast(first: Entry, second: Entry)
    requires first.name == second.name
    ensures Opened([first, second]) == [Entry(first.name, second.data), second]
  {
    var j := OpenReadsLast([first, second], 0);
    OpenedAt([first, second], 2, 0);
    OpenedAt([first, second], 2, 1);
  }

  // ---------------------------------------------------------------------------
  // Specification
  // ---------------------------------------------------------------------------

  /** `p` is a direct child of the directory `dir`. */
  predicate ChildOf(dir: AbsPath, p: AbsPath) {
    p != [] && Parent(p) == dir
  }

  /** The temporary directory holds no sub-directory, as after setup_directories. */
  predicate NoSubdirs(d: Disk, rt: AbsPath) {
    forall q {:trigger Parent(q)} :: q in d.dirs && q != [] ==> Parent(q) != rt
  }

  /** A member whose base name is an ordinary file name. */
  predicate Kept(name: string) {
    IsSegment(Basename(name))
  }

  /** A member whose base name passes the prefix test yet names the temporary
      directory itself: "." always, ".." when that directory is the root. Opening it
      for writing raises IsADirectoryError. */
  predicate Aborts(rt: AbsPath, name: string) {
    Basename(name) == "." || (Basename(name) == ".." && rt == [])
  }

  /** The paths the loop appends: `temp / basename(member)` for each kept member, in
      archive order. */
  function Targets(temp: PyPath, es: seq<Entry>): seq<PyPath> {
    Collected(Candidate(temp), es)
  }

  /** What a member would contribute if no member aborted: `temp / basename(member)`
      for a kept member, nothing otherwise. */
  function Candidate(temp: PyPath): Entry -> Result<Option<PyPath>> {
    (e: Entry) => if Kept(e.name) then Ok(Some(Join(temp, Basename(e.name)))) else Ok(None)
  }

  /** The contents of the last member whose base name is `b`, if any. */
  function LastWith(es: seq<Entry>, b: string): Option<FileData>
    decreases |es|
  {
    if es == [] then None
    else if Basename(es[|es| - 1].name) == b then Some(es[|es| - 1].data)
    else LastWith(es[..|es| - 1], b)
  }

  /** Only direct children of the temporary directory are written: directories are
      untouched and every other file keeps its contents. */
  predicate WritesOnlyChildren(d: Disk, d': Disk, rt: AbsPath) {
    && d'.dirs == d.dirs
    && (forall p :: p in d.files && !ChildOf(rt, p) ==> p in d'.files && d'.files[p] == d.files[p])
    && (forall p :: p in d'.files ==> p in d.files || ChildOf(rt, p))
  }

  lemma WritingAChildWritesOnlyChildren(d: Disk, rt: AbsPath, x: AbsPath, data: FileData)
    requires ChildOf(rt, x)
    ensures WritesOnlyChildren(d, Disk(d.files[x := data], d.dirs), rt)
  {
    var d' := Disk(d.files[x := data], d.dirs);
    forall p | p in d.files && !ChildOf(rt, p) ensures p in d'.files && d'.files[p] == d.files[p] {
      assert p != x;
    }
  }

  /** One member whose base name is empty, or is ".." below the root: skipped. */
  lemma SkippedMember(d: Disk, cwd: AbsPath, temp: PyPath, e: Entry)
    requires IsResolved(cwd) && WellFormed(temp)
    requires !Kept(e.name) && !Aborts(Resolve(cwd, temp), e.name)
    ensures ExtractEntry(d, cwd, temp, e) == Run(d, Ok(None))
  {
    var b := Basename(e.name);
    if b != "" {
      BaseNameConfinement(cwd, temp, b);
    }
  }

  /** One member whose base name is ".", or ".." at the root: it passes the prefix
      test, and writing to the temporary directory itself raises. */
  lemma AbortingMember(d: Disk, cwd: AbsPath, temp: PyPath, e: Entry)
    requires Wf(d) && IsResolved(cwd) && WellFormed(temp) && Resolve(cwd, temp) in d.dirs
    requires Aborts(Resolve(cwd, temp), e.name)
    ensures ExtractEntry(d, cwd, temp, e) == Run(d, Err(IsADirectory))
  {
    BaseNameConfinement(cwd, temp, Basename(e.name));
  }

  /** One member with an ordinary base name: written to `temp / name`, unless a
      directory of that name is in the way. */
  lemma KeptMember(d: Disk, cwd: AbsPath, temp: PyPath, e: Entry)
    requires Wf(d) && IsResolved(cwd) && WellFormed(temp) && Resolve(cwd, temp) in d.dirs
    requires Kept(e.name)
    ensures var r := ExtractEntry(d, cwd, temp, e);
            var x := Resolve(cwd, temp) + [Basename(e.name)];
            && ChildOf(Resolve(cwd, temp), x)
            && (x in d.dirs ==> r == Run(d, Err(IsADirectory)))
            && (x !in d.dirs ==> r == Run(Disk(d.files[x := e.data], d.dirs), Ok(Some(Join(temp, Basename(e.name))))))
  {
    var rt := Resolve(cwd, temp);
    var b := Basename(e.name);
    BaseNameConfinement(cwd, temp, b);
    assert Parent(rt + [b]) == rt;
  }

  /** One member, when the temporary directory exists: the disk stays well formed
      and only a direct child of the temporary directory may be written. */
  lemma MemberWritesOnlyChildren(d: Disk, cwd: AbsPath, temp: PyPath, e: Entry)
    requires Wf(d) && IsResolved(cwd) && WellFormed(temp) && Resolve(cwd, temp) in d.dirs
    ensures Wf(ExtractEntry(d, cwd, temp, e).disk)
    ensures WritesOnlyChildren(d, ExtractEntry(d, cwd, temp, e).disk, Resolve(cwd, temp))
  {
    KeptMemberWritesOnlyChild(d, cwd, temp, e);
    OtherMemberWritesNothing(d, cwd, temp, e);
  }

  lemma KeptMemberWritesOnlyChild(d: Disk, cwd: AbsPath, temp: PyPath, e: Entry)
    requires Wf(d) && IsResolved(cwd) && WellFormed(temp) && Resolve(cwd, temp) in d.dirs
    ensures Kept(e.name) ==>
      && Wf(ExtractEntry(d, cwd, temp, e).disk)
      && WritesOnlyChildren(d, ExtractEntry(d, cwd, temp, e).disk, Resolve(cwd, temp))
  {
    if Kept(e.name) {
      KeptMember(d, cwd, temp, e);
      var x := Resolve(cwd, temp) + [Basename(e.name)];
      if x !in d.dirs {
        WritingAChildWritesOnlyChildren(d, Resolve(cwd, temp), x, e.data);
      }
    }
  }

  lemma OtherMemberWritesNothing(d: Disk, cwd: AbsPath, temp: PyPath, e: Entry)
    requires Wf(d) && IsResolved(cwd) && WellFormed(temp) && Resolve(cwd, temp) in d.dirs
    ensures !Kept(e.name) ==> ExtractEntry(d, cwd, temp, e).disk == d
  {
    if !Kept(e.name) {
      if Aborts(Resolve(cwd, temp), e.name) {
        AbortingMember(d, cwd, temp, e);
      } else {
        SkippedMember(d, cwd, temp, e);
      }
    }
  }

  lemma WritesOnlyChildrenTransitive(d0: Disk, d1: Disk, d2: Disk, rt: AbsPath)
    requires WritesOnlyChildren(d0, d1, rt) && WritesOnlyChildren(d1, d2, rt)
    ensures WritesOnlyChildren(d0, d2, rt)
  {
  }

  /** The loop over all members, when the temporary directory exists: the disk stays
      well formed and nothing but direct children of the temporary directory is
      written, whether the loop completes or raises part-way. */
  lemma ExtractionWritesOnlyChildren(d: Disk, cwd: AbsPath, temp: PyPath, es: seq<Entry>)
    requires Wf(d) && IsResolved(cwd) && WellFormed(temp) && Resolve(cwd, temp) in d.dirs
    ensures Wf(ExtractEntries(d, cwd, temp, es).disk)
    ensures WritesOnlyChildren(d, ExtractEntries(d, cwd, temp, es).disk, Resolve(cwd, temp))
  {
    EntryStepConfined(cwd, temp);
    LoopConfined(EntryStep(cwd, temp), Resolve(cwd, temp), d, es);
  }

  // ---------------------------------------------------------------------------
  // The member loop for any handling of one member
  // ---------------------------------------------------------------------------

  /** The result of handling `es` one after another when `outcome` gives what each
      member contributes: the first exception, or the paths in order. */
  function Folded(outcome: Entry -> Result<Option<PyPath>>, es: seq<Entry>): Result<seq<PyPath>>
    decreases |es|
  {
    if es == [] then Ok([])
    else
      var prev := Folded(outcome, es[..|es| - 1]);
      if prev.Err? then prev
      else match outcome(es[|es| - 1])
        case Err(x) => Err(x)
        case Ok(None) => prev
        case Ok(Some(t)) => Ok(prev.value + [t])
  }

  /** The disk after `write` has handled each member of `es` in turn. */
  function Written(write: (Disk, Entry) -> Disk, d: Disk, es: seq<Entry>): Disk
    decreases |es|
  {
    if es == [] then d else write(Written(write, d, es[..|es| - 1]), es[|es| - 1])
  }

  /** What one handled member adds to the returned list. */
  function Added(r: Result<Option<PyPath>>): seq<PyPath> {
    if r.Ok? && r.value.Some? then [r.value.value] else []
  }

  /** The paths the members of `es` contribute, in order, whatever they raise. */
  function Collected(outcome: Entry -> Result<Option<PyPath>>, es: seq<Entry>): seq<PyPath>
    decreases |es|
  {
    if es == [] then [] else Collected(outcome, es[..|es| - 1]) + Added(outcome(es[|es| - 1]))
  }

  /** The fold succeeds exactly when every member succeeds. */
  lemma {:induction false} FoldedOkIff(outcome: Entry -> Result<Option<PyPath>>, es: seq<Entry>)
    ensures Folded(outcome, es).Ok? <==> forall i :: 0 <= i < |es| ==> outcome(es[i]).Ok?
    decreases |es|
  {
    if es != [] {
      var init, e := es[..|es| - 1], es[|es| - 1];
      FoldedOkIff(outcome, init);
      assert forall i :: 0 <= i < |init| ==> es[i] == init[i];
      if Folded(outcome, es).Ok? {
        forall i | 0 <= i < |es| ensures outcome(es[i]).Ok? {
          if i == |init| {
            assert es[i] == e;
          }
        }
      } else if Folded(outcome, init).Err? {
        var i :| 0 <= i < |init| && outcome(init[i]).Err?;
        assert outcome(es[i]).Err?;
      } else {
        assert outcome(es[|init|]).Err?;
      }
    }
  }

  /** When the fold succeeds, it returns every contribution in order. */
  lemma {:induction false} FoldedValue(outcome: Entry -> Result<Option<PyPath>>, es: seq<Entry>)
    ensures Folded(outcome, es).Ok? ==> Folded(outcome, es).value == Collected(outcome, es)
    decreases |es|
  {
    if es != [] {
      var init := es[..|es| - 1];
      FoldedValue(outcome, init);
      if Folded(outcome, init).Ok? && outcome(es[|es| - 1]) == Ok(None) {
        assert Collected(outcome, init) + [] == Collected(outcome, init);
      }
    }
  }

  /** Outcomes that contribute the same paths member by member collect the same list. */
  lemma {:induction false} CollectedAgree(f: Entry -> Result<Option<PyPath>>, g: Entry -> Result<Option<PyPath>>, es: seq<Entry>)
    requires forall i :: 0 <= i < |es| ==> Added(f(es[i])) == Added(g(es[i]))
    ensures Collected(f, es) == Collected(g, es)
    decreases |es|
  {
    if es != [] {
      var init := es[..|es| - 1];
      assert forall i :: 0 <= i < |init| ==> init[i] == es[i];
      CollectedAgree(f, g, init);
    }
  }

  /** At most one path per member. */
  lemma {:induction false} CollectedLength(outcome: Entry -> Result<Option<PyPath>>, es: seq<Entry>)
    ensures |Collected(outcome, es)| <= |es|
    decreases |es|
  {
    if es != [] {
      CollectedLength(outcome, es[..|es| - 1]);
    }
  }

  /** Every collected path is the contribution of some member. */
  lemma {:induction false} CollectedFrom(outcome: Entry -> Result<Option<PyPath>>, es: seq<Entry>, t: PyPath)
    requires t in Collected(outcome, es)
    ensures exists e :: e in es && outcome(e) == Ok(Some(t))
    decreases |es|
  {
    var init, e := es[..|es| - 1], es[|es| - 1];
    if t in Collected(outcome, init) {
      CollectedFrom(outcome, init, t);
      var e' :| e' in init && outcome(e') == Ok(Some(t));
      assert e' in es;
    } else {
      assert e in es;
    }
  }

  /** Members that yield the same outcomes place by place fold and collect alike. */
  lemma {:induction false} FoldedSameOutcomes(outcome: Entry -> Result<Option<PyPath>>, es: seq<Entry>, fs: seq<Entry>)
    requires |es| == |fs| && forall i :: 0 <= i < |es| ==> outcome(es[i]) == outcome(fs[i])
    ensures Folded(outcome, es) == Folded(outcome, fs)
    ensures Collected(outcome, es) == Collected(outcome, fs)
    decreases |es|
  {
    if es != [] {
      FoldedSameOutcomes(outcome, es[..|es| - 1], fs[..|fs| - 1]);
    }
  }

  /** A handling of one member that keeps the disk well formed and writes nothing but
      direct children of `rt`, whenever `rt` is an existing directory. */
  ghost predicate StepConfined(step: (Disk, Entry) -> Run<Option<PyPath>>, rt: AbsPath) {
    forall d: Disk, e: Entry {:trigger step(d, e)} :: Wf(d) && rt in d.dirs ==>
      Wf(step(d, e).disk) && WritesOnlyChildren(d, step(d, e).disk, rt)
  }

  /** A handling of one member that contributes `outcome` and, unless it raises,
      leaves the disk `write` describes, whenever `rt` is an existing directory
      without sub-directories. */
  ghost predicate StepFollows(step: (Disk, Entry) -> Run<Option<PyPath>>, rt: AbsPath,
                              outcome: Entry -> Result<Option<PyPath>>, write: (Disk, Entry) -> Disk) {
    forall d: Disk, e: Entry {:trigger step(d, e)} :: Wf(d) && rt in d.dirs && NoSubdirs(d, rt) ==>
      && step(d, e).result == outcome(e)
      && (outcome(e).Ok? ==> step(d, e).disk == write(d, e))
  }

  /** The loop keeps the disk well formed and writes only direct children of `rt`,
      whether it completes or raises part-way. */
  lemma {:induction false} LoopConfined(step: (Disk, Entry) -> Run<Option<PyPath>>, rt: AbsPath, d: Disk, es: seq<Entry>)
    requires StepConfined(step, rt) && Wf(d) && rt in d.dirs
    ensures Wf(MemberLoop(step, d, es).disk) && WritesOnlyChildren(d, MemberLoop(step, d, es).disk, rt)
    decreases |es|
  {
    if es != [] {
      var init := es[..|es| - 1];
      LoopConfined(step, rt, d, init);
      var prev := MemberLoop(step, d, init);
      if prev.result.Ok? {
        WritesOnlyChildrenTransitive(d, prev.disk, step(prev.disk, es[|es| - 1]).disk, rt);
      }
    }
  }

  /** The loop returns or raises what the outcomes of its members fold to, and when it
      completes it leaves the disk their writes describe. */
  lemma {:induction false} LoopFollows(step: (Disk, Entry) -> Run<Option<PyPath>>, rt: AbsPath,
                                       outcome: Entry -> Result<Option<PyPath>>, write: (Disk, Entry) -> Disk,
                                       d: Disk, es: seq<Entry>)
    requires StepConfined(step, rt) && StepFollows(step, rt, outcome, write)
    requires Wf(d) && rt in d.dirs && NoSubdirs(d, rt)
    ensures MemberLoop(step, d, es).result == Folded(outcome, es)
    ensures Folded(outcome, es).Ok? ==> MemberLoop(step, d, es).disk == Written(write, d, es)
    decreases |es|
  {
    if es != [] {
      var init, e := es[..|es| - 1], es[|es| - 1];
      LoopFollows(step, rt, outcome, write, d, init);
      LoopConfined(step, rt, d, init);
      var prev := MemberLoop(step, d, init);
      if prev.result.Ok? {
        assert NoSubdirs(prev.disk, rt);
        assert step(prev.disk, e).result == outcome(e);
      }
    }
  }

  /** Once a member raises, the members after it are never read. */
  lemma {:induction false} LoopStopsAtError(step: (Disk, Entry) -> Run<Option<PyPath>>, d: Disk, es: seq<Entry>, i: nat)
    requires i <= |es| && MemberLoop(step, d, es[..i]).result.Err?
    ensures MemberLoop(step, d, es) == MemberLoop(step, d, es[..i])
    decreases |es| - i
  {
    if i == |es| {
      assert es[..i] == es;
    } else {
      var init := es[..|es| - 1];
      assert init[..i] == es[..i];
      LoopStopsAtError(step, d, init, i);
    }
  }

  // ---------------------------------------------------------------------------
  // The member loop of extract_zip_securely
  // ---------------------------------------------------------------------------

  /** What one member contributes, when the temporary directory exists and holds no
      sub-directory: an aborting member raises IsADirectoryError, a kept member is
      written to `temp / basename(member)`, any other member is skipped. */
  function MemberOutcome(rt: AbsPath, temp: PyPath, e: Entry): Result<Option<PyPath>> {
    if Aborts(rt, e.name) then Err(IsADirectory)
    else if Kept(e.name) then Ok(Some(Join(temp, Basename(e.name))))
    else Ok(None)
  }

  /** What one member that does not abort leaves on disk: a kept member's contents at
      `temp / basename(member)`, whatever was there before; otherwise nothing new. */
  function MemberWrite(d: Disk, rt: AbsPath, e: Entry): Disk {
    if Kept(e.name) then Disk(d.files[rt + [Basename(e.name)] := e.data], d.dirs) else d
  }

  function MemberOutcomes(rt: AbsPath, temp: PyPath): Entry -> Result<Option<PyPath>> {
    (e: Entry) => MemberOutcome(rt, temp, e)
  }

  function MemberWrites(rt: AbsPath): (Disk, Entry) -> Disk {
    (d: Disk, e: Entry) => MemberWrite(d, rt, e)
  }

  /** What the loop returns or raises, read off the member names alone: the first
      aborting member raises IsADirectoryError, otherwise each kept member contributes
      `temp / basename(member)`. */
  function Expected(rt: AbsPath, temp: PyPath, es: seq<Entry>): Result<seq<PyPath>> {
    Folded(MemberOutcomes(rt, temp), es)
  }

  /** The only exception is IsADirectoryError. */
  lemma {:induction false} ExpectedError(rt: AbsPath, temp: PyPath, es: seq<Entry>)
    ensures Expected(rt, temp, es).Err? ==> Expected(rt, temp, es).error == IsADirectory
    decreases |es|
  {
    if es != [] {
      ExpectedError(rt, temp, es[..|es| - 1]);
    }
  }

  /** One more member at the end of the archive. */
  lemma ExpectedAppend(rt: AbsPath, temp: PyPath, es: seq<Entry>, e: Entry)
    ensures Expected(rt, temp, es + [e]) ==
      if Expected(rt, temp, es).Err? || Aborts(rt, e.name) then Err(IsADirectory)
      else Ok(Expected(rt, temp, es).value + (if Kept(e.name) then [Join(temp, Basename(e.name))] else []))
  {
    assert (es + [e])[..|es|] == es && (es + [e])[|es|] == e;
    ExpectedError(rt, temp, es);
    var prev := Expected(rt, temp, es);
    if prev.Ok? && !Aborts(rt, e.name) && !Kept(e.name) {
      assert prev.value + [] == prev.value;
    }
  }

  /** The expected outcome succeeds exactly when no member aborts. */
  lemma ExpectedOkIff(rt: AbsPath, temp: PyPath, es: seq<Entry>)
    ensures Expected(rt, temp, es).Ok? <==> forall i :: 0 <= i < |es| ==> !Aborts(rt, es[i].name)
  {
    FoldedOkIff(MemberOutcomes(rt, temp), es);
    forall i | 0 <= i < |es| ensures MemberOutcomes(rt, temp)(es[i]).Ok? <==> !Aborts(rt, es[i].name) {
    }
  }

  /** A member contributes the same path to the loop as to the list of targets. */
  lemma MemberContribution(rt: AbsPath, temp: PyPath, e: Entry)
    ensures Added(MemberOutcomes(rt, temp)(e)) == Added(Candidate(temp)(e))
  {
  }

  /** When it succeeds, the expected outcome is the list of targets. */
  lemma ExpectedValue(rt: AbsPath, temp: PyPath, es: seq<Entry>)
    ensures Expected(rt, temp, es).Ok? ==> Expected(rt, temp, es).value == Targets(temp, es)
  {
    FoldedValue(MemberOutcomes(rt, temp), es);
    forall i | 0 <= i < |es| ensures Added(MemberOutcomes(rt, temp)(es[i])) == Added(Candidate(temp)(es[i])) {
      MemberContribution(rt, temp, es[i]);
    }
    CollectedAgree(MemberOutcomes(rt, temp), Candidate(temp), es);
  }

  /** What the loop returns or raises depends on the member names alone, so reading
      members by name changes neither the outcome nor the targets. */
  lemma OpenedOutcome(rt: AbsPath, temp: PyPath, es: seq<Entry>)
    ensures Expected(rt, temp, Opened(es)) == Expected(rt, temp, es)
    ensures Targets(temp, Opened(es)) == Targets(temp, es)
  {
    var os := Opened(es);
    OpenedByName(es);
    forall i | 0 <= i < |es|
      ensures MemberOutcomes(rt, temp)(os[i]) == MemberOutcomes(rt, temp)(es[i])
      ensures Candidate(temp)(os[i]) == Candidate(temp)(es[i])
    {
      assert os[i].name == es[i].name;
    }
    FoldedSameOutcomes(MemberOutcomes(rt, temp), os, es);
    FoldedSameOutcomes(Candidate(temp), os, es);
  }

  /** The handling of one member, when the temporary directory exists and holds no
      sub-directory, raises or returns what the member name determines. */
  lemma MemberResult(d: Disk, cwd: AbsPath, temp: PyPath, e: Entry)
    requires Wf(d) && IsResolved(cwd) && WellFormed(temp)
    requires Resolve(cwd, temp) in d.dirs && NoSubdirs(d, Resolve(cwd, temp))
    ensures ExtractEntry(d, cwd, temp, e).result == MemberOutcome(Resolve(cwd, temp), temp, e)
  {
    var rt := Resolve(cwd, temp);
    if Kept(e.name) {
      KeptMember(d, cwd, temp, e);
      var x := rt + [Basename(e.name)];
      assert x !in d.dirs by { assert Parent(x) == rt; }
    } else if Aborts(rt, e.name) {
      AbortingMember(d, cwd, temp, e);
    } else {
      SkippedMember(d, cwd, temp, e);
    }
  }

  /** The effect of one member that does not abort, when the temporary directory
      exists and holds no sub-directory. */
  lemma MemberDisk(d: Disk, cwd: AbsPath, temp: PyPath, e: Entry)
    requires Wf(d) && IsResolved(cwd) && WellFormed(temp)
    requires Resolve(cwd, temp) in d.dirs && NoSubdirs(d, Resolve(cwd, temp))
    requires !Aborts(Resolve(cwd, temp), e.name)
    ensures ExtractEntry(d, cwd, temp, e).disk == MemberWrite(d, Resolve(cwd, temp), e)
  {
    var rt := Resolve(cwd, temp);
    if Kept(e.name) {
      KeptMember(d, cwd, temp, e);
      var x := rt + [Basename(e.name)];
      assert x !in d.dirs by { assert Parent(x) == rt; }
    } else {
      SkippedMember(d, cwd, temp, e);
    }
  }

  lemma EntryStepConfined(cwd: AbsPath, temp: PyPath)
    requires IsResolved(cwd) && WellFormed(temp)
    ensures StepConfined(EntryStep(cwd, temp), Resolve(cwd, temp))
  {
    var rt := Resolve(cwd, temp);
    forall d: Disk, e: Entry | Wf(d) && rt in d.dirs
      ensures Wf(EntryStep(cwd, temp)(d, e).disk) && WritesOnlyChildren(d, EntryStep(cwd, temp)(d, e).disk, rt)
    {
      MemberWritesOnlyChildren(d, cwd, temp, e);
    }
  }

  lemma EntryStepFollows(cwd: AbsPath, temp: PyPath)
    requires IsResolved(cwd) && WellFormed(temp)
    ensures StepFollows(EntryStep(cwd, temp), Resolve(cwd, temp), MemberOutcomes(Resolve(cwd, temp), temp), MemberWrites(Resolve(cwd, temp)))
  {
    var rt := Resolve(cwd, temp);
    forall d: Disk, e: Entry | Wf(d) && rt in d.dirs && NoSubdirs(d, rt)
      ensures && EntryStep(cwd, temp)(d, e).result == MemberOutcomes(rt, temp)(e)
              && (MemberOutcomes(rt, temp)(e).Ok? ==> EntryStep(cwd, temp)(d, e).disk == MemberWrites(rt)(d, e))
    {
      MemberResult(d, cwd, temp, e);
      if !Aborts(rt, e.name) {
        MemberDisk(d, cwd, temp, e);
      }
    }
  }

  /** The loop over all members keeps the disk well formed and its directories as
      they were. */
  lemma ExtractionKeepsDirs(d: Disk, cwd: AbsPath, temp: PyPath, es: seq<Entry>)
    requires Wf(d) && IsResolved(cwd) && WellFormed(temp) && Resolve(cwd, temp) in d.dirs
    ensures Wf(ExtractEntries(d, cwd, temp, es).disk)
    ensures ExtractEntries(d, cwd, temp, es).disk.dirs == d.dirs
  {
    ExtractionWritesOnlyChildren(d, cwd, temp, es);
  }

  /** The loop over all members, when the temporary directory exists and holds no
      sub-directory, returns or raises what the member names alone determine, and
      when it completes it leaves the files the members alone determine. */
  lemma ExtractionResult(d: Disk, cwd: AbsPath, temp: PyPath, es: seq<Entry>)
    requires Wf(d) && IsResolved(cwd) && WellFormed(temp)
    requires Resolve(cwd, temp) in d.dirs && NoSubdirs(d, Resolve(cwd, temp))
    ensures ExtractEntries(d, cwd, temp, es).result == Expected(Resolve(cwd, temp), temp, es)
    ensures Expected(Resolve(cwd, temp), temp, es).Ok? ==>
      ExtractEntries(d, cwd, temp, es).disk == Written(MemberWrites(Resolve(cwd, temp)), d, es)
  {
    var rt := Resolve(cwd, temp);
    EntryStepConfined(cwd, temp);
    EntryStepFollows(cwd, temp);
    LoopFollows(EntryStep(cwd, temp), rt, MemberOutcomes(rt, temp), MemberWrites(rt), d, es);
  }

  /** The loop over all members, when the temporary directory exists and holds no
      sub-directory: it completes exactly when no member aborts, only
      IsADirectoryError can end it early, and it returns `temp / basename(member)`
      for the kept members, in archive order. */
  lemma ExtractionOutcome(d: Disk, cwd: AbsPath, temp: PyPath, es: seq<Entry>)
    requires Wf(d) && IsResolved(cwd) && WellFormed(temp)
    requires Resolve(cwd, temp) in d.dirs && NoSubdirs(d, Resolve(cwd, temp))
    ensures var r := ExtractEntries(d, cwd, temp, es);
            && (r.result.Ok? <==> forall i :: 0 <= i < |es| ==> !Aborts(Resolve(cwd, temp), es[i].name))
            && (r.result.Ok? ==> r.result.value == Targets(temp, es))
            && (r.result.Err? ==> r.result.error == IsADirectory)
  {
    ExtractionResult(d, cwd, temp, es);
    ExpectedOkIff(Resolve(cwd, temp), temp, es);
    ExpectedValue(Resolve(cwd, temp), temp, es);
    ExpectedError(Resolve(cwd, temp), temp, es);
  }

  /** The file a member's base name lands on holds the contents of the last member
      with that base name; a file no member names keeps its contents. */
  lemma {:induction false} WrittenLastWith(d: Disk, rt: AbsPath, es: seq<Entry>, b: string)
    requires IsSegment(b)
    ensures var w := Written(MemberWrites(rt), d, es);
            var p := rt + [b];
            match LastWith(es, b)
            case Some(data) => p in w.files && w.files[p] == data
            case None => (p in w.files <==> p in d.files) && (p in d.files ==> w.files[p] == d.files[p])
    decreases |es|
  {
    if es != [] {
      var init, e := es[..|es| - 1], es[|es| - 1];
      WrittenLastWith(d, rt, init, b);
      var be := Basename(e.name);
      if be == b {
        assert LastWith(es, b) == Some(e.data);
      } else {
        assert LastWith(es, b) == LastWith(init, b);
        if Kept(e.name) {
          assert rt + [be] != rt + [b] by { assert (rt + [be])[|rt|] != (rt + [b])[|rt|]; }
        }
      }
    }
  }

  /** Name collisions: the file a base name lands on holds the contents of the last
      member with that base name; files no member names keep their contents. */
  lemma LastWriteWins(d: Disk, cwd: AbsPath, temp: PyPath, es: seq<Entry>, b: string)
    requires Wf(d) && IsResolved(cwd) && WellFormed(temp) && IsSegment(b)
    requires Resolve(cwd, temp) in d.dirs && NoSubdirs(d, Resolve(cwd, temp))
    requires ExtractEntries(d, cwd, temp, es).result.Ok?
    ensures var r := ExtractEntries(d, cwd, temp, es);
            var p := Resolve(cwd, temp) + [b];
            match LastWith(es, b)
            case Some(data) => p in r.disk.files && r.disk.files[p] == data
            case None => (p in r.disk.files <==> p in d.files) && (p in d.files ==> r.disk.files[p] == d.files[p])
  {
    ExtractionResult(d, cwd, temp, es);
    WrittenLastWith(d, Resolve(cwd, temp), es, b);
  }

  /** The member that LastWith finds: the last one with base name `b`, or none. */
  lemma {:induction false} LastWithAt(es: seq<Entry>, b: string) returns (k: int)
    ensures -1 <= k < |es|
    ensures k >= 0 ==> Basename(es[k].name) == b && LastWith(es, b) == Some(es[k].data)
    ensures k < 0 ==> LastWith(es, b) == None
    ensures forall j :: k < j < |es| ==> Basename(es[j].name) != b
    decreases |es|
  {
    if es == [] {
      k := -1;
    } else if Basename(es[|es| - 1].name) == b {
      k := |es| - 1;
    } else {
      var init := es[..|es| - 1];
      k := LastWithAt(init, b);
      assert forall j :: 0 <= j < |init| ==> init[j] == es[j];
    }
  }

  /** A member with base name `b` and no later one with that base name is what
      LastWith finds. */
  lemma {:induction false} LastWithIs(es: seq<Entry>, b: string, k: nat)
    requires k < |es| && Basename(es[k].name) == b
    requires forall j :: k < j < |es| ==> Basename(es[j].name) != b
    ensures LastWith(es, b) == Some(es[k].data)
    decreases |es|
  {
    if k < |es| - 1 {
      var init := es[..|es| - 1];
      assert forall j :: 0 <= j < |init| ==> init[j] == es[j];
      LastWithIs(init, b, k);
    }
  }

  /** With no member of base name `b`, LastWith finds nothing. */
  lemma {:induction false} LastWithNone(es: seq<Entry>, b: string)
    requires forall j :: 0 <= j < |es| ==> Basename(es[j].name) != b
    ensures LastWith(es, b) == None
    decreases |es|
  {
    if es != [] {
      var init := es[..|es| - 1];
      assert forall j :: 0 <= j < |init| ==> init[j] == es[j];
      LastWithNone(init, b);
    }
  }

  /** The last member with a given base name is the last one with its name, so
      opening it by name reads its own contents. */
  lemma OpenOfLast(es: seq<Entry>, b: string, k: nat)
    requires k < |es| && Basename(es[k].name) == b
    requires forall j :: k < j < |es| ==> Basename(es[j].name) != b
    ensures Open(es, k) == es[k].data
  {
    var j := OpenReadsLast(es, k);
    assert Basename(es[j].name) == b;
  }

  /** Reading members by name does not change which contents land on a base name:
      the last member with base name `b` is read under its own name, and no later
      member shares that name. */
  lemma LastWithOpened(es: seq<Entry>, b: string)
    ensures LastWith(Opened(es), b) == LastWith(es, b)
  {
    var os := Opened(es);
    OpenedByName(es);
    assert forall j :: 0 <= j < |os| ==> Basename(os[j].name) == Basename(es[j].name);
    var k := LastWithAt(es, b);
    if k >= 0 {
      OpenedAt(es, |es|, k);
      OpenOfLast(es, b, k);
      LastWithIs(os, b, k);
    } else {
      LastWithNone(os, b);
    }
  }

  /** After extract_zip_securely completes on an archive, the file a base name lands
      on holds the contents of the last STORED member with that base name, and every
      file no member names is kept. */
  lemma ExtractLastWriteWins(d: Disk, cwd: AbsPath, temp: PyPath, zipPath: PyPath, b: string)
    requires Wf(d) && IsResolved(cwd) && WellFormed(temp) && WellFormed(zipPath) && IsSegment(b)
    requires Resolve(cwd, temp) in d.dirs && NoSubdirs(d, Resolve(cwd, temp))
    requires Resolve(cwd, zipPath) in d.files && d.files[Resolve(cwd, zipPath)].ZipArchive?
    requires Extract(d, cwd, temp, zipPath).result.Ok?
    ensures var r := Extract(d, cwd, temp, zipPath);
            var p := Resolve(cwd, temp) + [b];
            match LastWith(d.files[Resolve(cwd, zipPath)].entries, b)
            case Some(data) => p in r.disk.files && r.disk.files[p] == data
            case None => (p in r.disk.files <==> p in d.files) && (p in d.files ==> r.disk.files[p] == d.files[p])
  {
    var rz := Resolve(cwd, zipPath);
    var es := d.files[rz].entries;
    DirectoryIsNotBlocked(d, Parent(rz));
    assert Extract(d, cwd, temp, zipPath) == ExtractEntries(d, cwd, temp, Opened(es));
    LastWriteWins(d, cwd, temp, Opened(es), b);
    LastWithOpened(es, b);
  }

  /** The archive loop returns at most one path per member. */
  lemma TargetsAtMostEntries(temp: PyPath, es: seq<Entry>)
    ensures |Targets(temp, es)| <= |es|
  {
    CollectedLength(Candidate(temp), es);
  }

  /** Every returned path is `temp / name` for an ordinary name, and so resolves to a
      direct child of the temporary directory. */
  lemma TargetsAreChildren(cwd: AbsPath, temp: PyPath, es: seq<Entry>)
    requires IsResolved(cwd) && WellFormed(temp)
    ensures forall t :: t in Targets(temp, es) ==>
      && t.absolute == temp.absolute && |t.parts| == |temp.parts| + 1
      && t.parts[..|temp.parts|] == temp.parts && IsSegment(t.parts[|temp.parts|])
      && WellFormed(t) && Resolve(cwd, t) == Resolve(cwd, temp) + [t.parts[|temp.parts|]]
  {
    forall t | t in Targets(temp, es)
      ensures && t.absolute == temp.absolute && |t.parts| == |temp.parts| + 1
              && t.parts[..|temp.parts|] == temp.parts && IsSegment(t.parts[|temp.parts|])
              && WellFormed(t) && Resolve(cwd, t) == Resolve(cwd, temp) + [t.parts[|temp.parts|]]
    {
      CollectedFrom(Candidate(temp), es, t);
      var e :| e in es && Candidate(temp)(e) == Ok(Some(t));
      var b := Basename(e.name);
      BaseNameConfinement(cwd, temp, b);
      assert Join(temp, b).parts[..|temp.parts|] == temp.parts;
    }
  }

  /** The loop over the first `i + 1` members is the loop over the first `i`
      followed by the handling of member `i`. */
  lemma ExtractEntriesStep(d: Disk, cwd: AbsPath, temp: PyPath, es: seq<Entry>, i: nat, now: Disk, found: seq<PyPath>)
    requires IsResolved(cwd) && WellFormed(temp)
    requires i < |es| && ExtractEntries(d, cwd, temp, es[..i]) == Run(now, Ok(found))
    ensures ExtractEntries(d, cwd, temp, es[..i + 1]) ==
      var s := ExtractEntry(now, cwd, temp, es[i]);
      match s.result
      case Err(x) => Run(s.disk, Err(x))
      case Ok(None) => Run(s.disk, Ok(found))
      case Ok(Some(t)) => Run(s.disk, Ok(found + [t]))
  {
    assert es[..i + 1][..i] == es[..i];
  }

  /** Once a member raises, the members after it are never read. */
  lemma ExtractionStopsAtError(d: Disk, cwd: AbsPath, temp: PyPath, es: seq<Entry>, i: nat)
    requires IsResolved(cwd) && WellFormed(temp)
    requires i <= |es| && ExtractEntries(d, cwd, temp, es[..i]).result.Err?
    ensures ExtractEntries(d, cwd, temp, es) == ExtractEntries(d, cwd, temp, es[..i])
  {
    LoopStopsAtError(EntryStep(cwd, temp), d, es, i);
  }

  // ---------------------------------------------------------------------------
  // The archives of the test suite
  // ---------------------------------------------------------------------------

  /** Two members with ordinary base names: both targets are returned in order, the
      second member's file holds its contents, and so does the first member's unless
      the second overwrote it. */
  lemma TwoKeptMembers(d: Disk, cwd: AbsPath, temp: PyPath, e0: Entry, e1: Entry)
    requires Wf(d) && IsResolved(cwd) && WellFormed(temp)
    requires Resolve(cwd, temp) in d.dirs && NoSubdirs(d, Resolve(cwd, temp))
    requires Kept(e0.name) && Kept(e1.name)
    ensures var r := ExtractEntries(d, cwd, temp, [e0, e1]);
            var rt := Resolve(cwd, temp);
            var b0, b1 := Basename(e0.name), Basename(e1.name);
            && r.result == Ok([Join(temp, b0), Join(temp, b1)])
            && rt + [b1] in r.disk.files && r.disk.files[rt + [b1]] == e1.data
            && (b0 != b1 ==> rt + [b0] in r.disk.files && r.disk.files[rt + [b0]] == e0.data)
  {
    var rt := Resolve(cwd, temp);
    var b0, b1 := Basename(e0.name), Basename(e1.name);
    TwoKeptExpected(rt, temp, e0, e1);
    ExtractionResult(d, cwd, temp, [e0, e1]);
    assert [e0, e1][..1] == [e0];
    WrittenLastWith(d, rt, [e0, e1], b1);
    if b0 != b1 {
      WrittenLastWith(d, rt, [e0, e1], b0);
    }
  }

  /** The expected outcome of two members with ordinary base names. */
  lemma TwoKeptExpected(rt: AbsPath, temp: PyPath, e0: Entry, e1: Entry)
    requires Kept(e0.name) && Kept(e1.name)
    ensures Expected(rt, temp, [e0, e1]) == Ok([Join(temp, Basename(e0.name)), Join(temp, Basename(e1.name))])
  {
    FoldedTwo(MemberOutcomes(rt, temp), e0, e1, Join(temp, Basename(e0.name)), Join(temp, Basename(e1.name)));
  }

  /** Two members that each contribute a path contribute both, in order. */
  lemma FoldedTwo(outcome: Entry -> Result<Option<PyPath>>, e0: Entry, e1: Entry, t0: PyPath, t1: PyPath)
    requires outcome(e0) == Ok(Some(t0)) && outcome(e1) == Ok(Some(t1))
    ensures Folded(outcome, [e0, e1]) == Ok([t0, t1])
  {
    assert [e0, e1][..1] == [e0] && [e0][..0] == [];
    assert Folded(outcome, [e0]) == Ok([] + [t0]);
    assert [] + [t0] == [t0] && [t0] + [t1] == [t0, t1];
  }

  /** A member at the root and one in a sub-folder (`doc1.pdf` and
      `subfolder/doc2.jpg` in the test archive) both land directly in the temporary
      directory under their own file names. */
  lemma FlattensSubfolders(d: Disk, cwd: AbsPath, temp: PyPath, top: Entry, nested: Entry, folder: string, leaf: string)
    requires Wf(d) && IsResolved(cwd) && WellFormed(temp)
    requires Resolve(cwd, temp) in d.dirs && NoSubdirs(d, Resolve(cwd, temp))
    requires IsSegment(top.name) && IsSegment(leaf) && top.name != leaf
    requires nested.name == folder + "/" + leaf
    ensures var r := ExtractEntries(d, cwd, temp, [top, nested]);
            var rt := Resolve(cwd, temp);
            && r.result == Ok([Join(temp, top.name), Join(temp, leaf)])
            && rt + [top.name] in r.disk.files && r.disk.files[rt + [top.name]] == top.data
            && rt + [leaf] in r.disk.files && r.disk.files[rt + [leaf]] == nested.data
  {
    BasenameOfPlainName(top.name);
    BasenameAfterSeparator(folder, leaf);
    TwoKeptMembers(d, cwd, temp, top, nested);
  }

  /** "../evil.txt" is written as `temp/evil.txt`; the file of that name beside the
      temporary directory is neither created nor changed. */
  lemma TraversalNameIsFlattened(d: Disk, cwd: AbsPath, temp: PyPath, evil: FileData)
    requires Wf(d) && IsResolved(cwd) && WellFormed(temp)
    requires Resolve(cwd, temp) in d.dirs && NoSubdirs(d, Resolve(cwd, temp)) && Resolve(cwd, temp) != []
    ensures var r := ExtractEntries(d, cwd, temp, [Entry("../evil.txt", evil)]);
            var rt := Resolve(cwd, temp);
            var beside := Parent(rt) + ["evil.txt"];
            && r.result == Ok([Join(temp, "evil.txt")])
            && rt + ["evil.txt"] in r.disk.files && r.disk.files[rt + ["evil.txt"]] == evil
            && (beside in r.disk.files <==> beside in d.files)
            && (beside in d.files ==> r.disk.files[beside] == d.files[beside])
  {
    var rt := Resolve(cwd, temp);
    var e0 := Entry("../evil.txt", evil);
    var j0 := Join(temp, "evil.txt");
    TraversalMemberBasename();
    ExpectedAppend(rt, temp, [], e0);
    assert [] + [e0] == [e0] && [] + [j0] == [j0];
    ExtractionResult(d, cwd, temp, [e0]);
    assert LastWith([e0], "evil.txt") == Some(evil);
    LastWriteWins(d, cwd, temp, [e0], "evil.txt");
    ExtractionWritesOnlyChildren(d, cwd, temp, [e0]);
    var beside := Parent(rt) + ["evil.txt"];
    assert !ChildOf(rt, beside) by {
      assert Parent(beside) == Parent(rt);
      assert |Parent(rt)| < |rt|;
    }
  }

  /** A directory member such as "sub/" is skipped and the loop goes on to the next
      member. */
  lemma DirectoryMemberIsSkipped(d: Disk, cwd: AbsPath, temp: PyPath, folder: string, dir: FileData, doc: Entry)
    requires Wf(d) && IsResolved(cwd) && WellFormed(temp)
    requires Resolve(cwd, temp) in d.dirs && NoSubdirs(d, Resolve(cwd, temp))
    requires IsSegment(doc.name)
    ensures ExtractEntries(d, cwd, temp, [Entry(folder + "/", dir), doc]).result == Ok([Join(temp, doc.name)])
  {
    var rt := Resolve(cwd, temp);
    var e0 := Entry(folder + "/", dir);
    DirectoryNameOutcome(rt, temp, folder, dir);
    PlainNameOutcome(rt, temp, doc);
    FoldedSkipThenKeep(MemberOutcomes(rt, temp), e0, doc, Join(temp, doc.name));
    ExtractionResult(d, cwd, temp, [e0, doc]);
  }

  /** A name ending in "/" contributes nothing. */
  lemma DirectoryNameOutcome(rt: AbsPath, temp: PyPath, folder: string, dir: FileData)
    ensures MemberOutcomes(rt, temp)(Entry(folder + "/", dir)) == Ok(None)
  {
    assert folder + "/" == folder + "/" + "";
    BasenameAfterSeparator(folder, "");
  }

  /** A plain name contributes `temp / name`. */
  lemma PlainNameOutcome(rt: AbsPath, temp: PyPath, e: Entry)
    requires IsSegment(e.name)
    ensures MemberOutcomes(rt, temp)(e) == Ok(Some(Join(temp, e.name)))
  {
    BasenameOfPlainName(e.name);
  }

  /** A member that contributes nothing followed by one that contributes a path
      contribute that path alone. */
  lemma FoldedSkipThenKeep(outcome: Entry -> Result<Option<PyPath>>, e0: Entry, e1: Entry, t1: PyPath)
    requires outcome(e0) == Ok(None) && outcome(e1) == Ok(Some(t1))
    ensures Folded(outcome, [e0, e1]) == Ok([t1])
  {
    assert [e0, e1][..1] == [e0] && [e0][..0] == [];
    var none: seq<PyPath> := [];
    assert Folded(outcome, [e0]) == Ok(none);
    assert none + [t1] == [t1];
  }

  /** A member whose base name is "." passes the prefix test, since it resolves to the
      temporary directory itself; opening that directory for writing raises, and the
      exception ends the whole extraction, members after it included. */
  lemma DotMemberAbortsExtraction(d: Disk, cwd: AbsPath, temp: PyPath, dot: FileData, pdf: FileData)
    requires Wf(d) && IsResolved(cwd) && WellFormed(temp)
    requires Resolve(cwd, temp) in d.dirs && NoSubdirs(d, Resolve(cwd, temp))
    ensures ExtractEntries(d, cwd, temp, [Entry("sub/.", dot), Entry("a.pdf", pdf)]).result == Err(IsADirectory)
  {
    var rt := Resolve(cwd, temp);
    var e0, e1 := Entry("sub/.", dot), Entry("a.pdf", pdf);
    DotMemberBasename();
    ExpectedAppend(rt, temp, [], e0);
    assert [] + [e0] == [e0];
    ExpectedAppend(rt, temp, [e0], e1);
    assert [e0] + [e1] == [e0, e1];
    ExtractionResult(d, cwd, temp, [e0, e1]);
  }
}
