/** Path algebra used by the document processor: POSIX base names, pathlib suffixes
    and joins, lexical resolution to an absolute path, and the string-prefix
    confinement test that guards every archive write. */
module Paths {

  /** A resolved absolute path: the names below the file-system root, in order. */
  type AbsPath = seq<string>

  /** A name that can stand in a resolved path. */
  predicate IsSegment(s: string) {
    s != "" && '/' !in s && s != "." && s != ".."
  }

  /** A component pathlib keeps after parsing: empty and "." components are dropped,
      ".." is kept and only removed by resolution. */
  predicate IsPart(s: string) {
    s != "" && '/' !in s && s != "."
  }

  predicate IsResolved(p: AbsPath) {
    forall i :: 0 <= i < |p| ==> IsSegment(p[i])
  }

  /** A pathlib path: absolute or relative to the working directory, and its parts. */
  datatype PyPath = PyPath(absolute: bool, parts: seq<string>)

  predicate WellFormed(p: PyPath) {
    forall i :: 0 <= i < |p.parts| ==> IsPart(p.parts[i])
  }

  function Parent(p: AbsPath): AbsPath
    requires p != []
  {
    p[..|p| - 1]
  }

  // ---------------------------------------------------------------------------
  // os.path.basename and pathlib's name / suffix
  // ---------------------------------------------------------------------------

  /** The position of the last `c` in `s`, or -1 (str.rfind). */
  function LastIndex(s: string, c: char): (i: int)
    ensures -1 <= i < |s|
    ensures i >= 0 ==> s[i] == c
    ensures forall j :: i < j < |s| ==> s[j] != c
  {
    if s == [] then -1 else if s[|s| - 1] == c then |s| - 1 else LastIndex(s[..|s| - 1], c)
  }

  /** os.path.basename on POSIX: everything after the last '/'. */
  function Basename(s: string): (b: string)
    ensures '/' !in b
  {
    s[LastIndex(s, '/') + 1..]
  }

  /** The base name is the longest suffix of `s` that holds no separator: it ends
      `s`, and either it is all of `s` or a '/' comes just before it. */
  lemma BasenameIsLongestSuffix(s: string)
    ensures var b := Basename(s);
            && |b| <= |s| && b == s[|s| - |b|..]
            && (|b| < |s| ==> s[|s| - |b| - 1] == '/')
  {
  }

  /** The base name of a member stored under some directory is the member's own name. */
  lemma BasenameAfterSeparator(dir: string, name: string)
    requires '/' !in name
    ensures Basename(dir + "/" + name) == name
  {
    var s := dir + "/" + name;
    var i := LastIndex(s, '/');
    assert s[|dir|] == '/';
    assert s[|dir| + 1..] == name;
  }

  /** A name without separator is its own base name. */
  lemma BasenameOfPlainName(name: string)
    requires '/' !in name
    ensures Basename(name) == name
  {
    if LastIndex(name, '/') >= 0 {
      assert false;
    }
  }

  /** A member that climbs out with ".." keeps only its file name. */
  lemma TraversalMemberBasename()
    ensures Basename("../evil.txt") == "evil.txt"
  {
    assert "../evil.txt" == ".." + "/" + "evil.txt";
    BasenameAfterSeparator("..", "evil.txt");
  }

  /** A directory member, stored with a trailing separator, has an empty base name. */
  lemma DirectoryMemberBasename()
    ensures Basename("sub/") == ""
  {
    assert "sub/" == "sub" + "/" + "";
    BasenameAfterSeparator("sub", "");
  }

  /** A member whose name ends in "/." has the base name ".". */
  lemma DotMemberBasename()
    ensures Basename("sub/.") == "."
  {
    assert "sub/." == "sub" + "/" + ".";
    BasenameAfterSeparator("sub", ".");
  }

  /** pathlib's suffix of a final component: from the last dot on, unless that dot is
      the first or the last character (".bashrc" and "name." have no suffix). */
  function Suffix(name: string): (r: string)
    ensures r != "" ==> 2 <= |r| < |name| && r == name[|name| - |r|..] && r[0] == '.' && '.' !in r[1..]
    ensures r == "" <==> |name| == 0 || '.' !in name[1..] || name[|name| - 1] == '.'
  {
    var i := LastIndex(name, '.');
    if 0 < i < |name| - 1 then
      name[i..]
    else
      ""
  }

  /** The final component of a path, pathlib's `name`. */
  function Name(p: PyPath): string {
    if p.parts == [] then "" else p.parts[|p.parts| - 1]
  }

  /** str.lower restricted to ASCII letters. */
  function LowerChar(c: char): char {
    if 'A' <= c <= 'Z' then (c as int + 32) as char else c
  }

  function Lower(s: string): (r: string)
    ensures |r| == |s|
    decreases |s|
  {
    if s == [] then [] else Lower(s[..|s| - 1]) + [LowerChar(s[|s| - 1])]
  }

  lemma {:induction false} LowerPointwise(s: string)
    ensures forall k :: 0 <= k < |s| ==> Lower(s)[k] == LowerChar(s[k])
    decreases |s|
  {
    if s != [] {
      var init := s[..|s| - 1];
      LowerPointwise(init);
      assert forall k :: 0 <= k < |init| ==> s[k] == init[k];
    }
  }

  /** The supported document extensions of DocumentProcessor. */
  const SupportedExtensions: set<string> := {".jpg", ".jpeg", ".png", ".pdf"}

  /** `path.suffix.lower()` */
  function Extension(p: PyPath): string {
    Lower(Suffix(Name(p)))
  }

  /** DocumentProcessor.is_zip_file */
  predicate IsZip(p: PyPath) {
    Extension(p) == ".zip"
  }

  predicate IsSupported(p: PyPath) {
    Extension(p) in SupportedExtensions
  }

  /** ".zip" is not a supported extension, so no file is both an archive and a
      supported document, and the order of the two tests does not matter. */
  lemma ZipIsNeverSupported(p: PyPath)
    ensures !(IsZip(p) && IsSupported(p))
  {
  }

  /** A name that ends with `ext`, ignoring ASCII case, has that ending as its suffix. */
  lemma CaseInsensitiveEndingIsSuffix(name: string, ext: string)
    requires 2 <= |ext| && ext[0] == '.' && '.' !in ext[1..]
    requires |name| > |ext| && Lower(name[|name| - |ext|..]) == ext
    ensures Suffix(name) == name[|name| - |ext|..]
  {
    var k := |name| - |ext|;
    LowerPointwise(name[k..]);
    assert name[k] == '.' by { assert LowerChar(name[k]) == Lower(name[k..])[0] == '.'; }
    forall j | k < j < |name| ensures name[j] != '.' {
      assert LowerChar(name[j]) == ext[j - k];
      assert ext[j - k] == ext[1..][j - k - 1];
    }
    assert LastIndex(name, '.') == k;
  }

  /** An extension test compares the lower-cased final suffix: a name has extension
      `ext` exactly when it is longer than `ext` and ends with it, ignoring ASCII case. */
  lemma ExtensionIsCaseInsensitiveEnding(name: string, ext: string)
    requires 2 <= |ext| && ext[0] == '.' && '.' !in ext[1..]
    ensures Lower(Suffix(name)) == ext <==> |name| > |ext| && Lower(name[|name| - |ext|..]) == ext
  {
    LowerPointwise(Suffix(name));
    if |name| > |ext| && Lower(name[|name| - |ext|..]) == ext {
      CaseInsensitiveEndingIsSuffix(name, ext);
    }
  }

  /** `name` is longer than `ext` and ends with it, ignoring ASCII case. */
  predicate EndsWithIgnoringCase(name: string, ext: string) {
    |name| > |ext| && Lower(name[|name| - |ext|..]) == ext
  }

  /** The kinds of input by name: "doc.ZIP" is an archive, ".zip" is not. */
  lemma IsZipByName(p: PyPath)
    ensures IsZip(p) <==> EndsWithIgnoringCase(Name(p), ".zip")
  {
    ExtensionIsCaseInsensitiveEnding(Name(p), ".zip");
  }

  /** A supported document is named with one of the four extensions, in any case. */
  lemma IsSupportedByName(p: PyPath)
    ensures IsSupported(p) <==>
      || EndsWithIgnoringCase(Name(p), ".jpg") || EndsWithIgnoringCase(Name(p), ".jpeg")
      || EndsWithIgnoringCase(Name(p), ".png") || EndsWithIgnoringCase(Name(p), ".pdf")
  {
    var n := Name(p);
    ExtensionIsCaseInsensitiveEnding(n, ".jpg");
    ExtensionIsCaseInsensitiveEnding(n, ".jpeg");
    ExtensionIsCaseInsensitiveEnding(n, ".png");
    ExtensionIsCaseInsensitiveEnding(n, ".pdf");
  }

  // ---------------------------------------------------------------------------
  // Joining and resolution
  // ---------------------------------------------------------------------------

  /** `dir / name` for a name without separator: pathlib drops a "." component. */
  function Join(dir: PyPath, name: string): (r: PyPath)
    requires name != "" && '/' !in name
    ensures WellFormed(dir) ==> WellFormed(r)
  {
    if name == "." then dir
    else
      assert forall i :: 0 <= i < |dir.parts| ==> (dir.parts + [name])[i] == dir.parts[i];
      PyPath(dir.absolute, dir.parts + [name])
  }

  /** One step of lexical resolution: ".." goes to the parent (the root is its own
      parent), any other part descends. */
  function Step(acc: AbsPath, part: string): (r: AbsPath)
    requires IsResolved(acc) && IsPart(part)
    ensures IsResolved(r)
  {
    if part == ".." then
      (if acc == [] then [] else Parent(acc))
    else
      assert forall i :: 0 <= i < |acc| ==> (acc + [part])[i] == acc[i];
      acc + [part]
  }

  function Normalize(base: AbsPath, parts: seq<string>): (r: AbsPath)
    requires IsResolved(base)
    requires forall i :: 0 <= i < |parts| ==> IsPart(parts[i])
    ensures IsResolved(r)
    ensures |r| <= |base| + |parts|
    decreases |parts|
  {
    if parts == [] then base else Step(Normalize(base, parts[..|parts| - 1]), parts[|parts| - 1])
  }

  /** Path.resolve() without symbolic links: a relative path is taken from the
      working directory `cwd`, then "." and ".." are removed. */
  function Resolve(cwd: AbsPath, p: PyPath): (r: AbsPath)
    requires IsResolved(cwd) && WellFormed(p)
    ensures IsResolved(r)
  {
    Normalize(if p.absolute then [] else cwd, p.parts)
  }

  /** Appending plain names to a path appends them to its resolution. */
  lemma {:induction false} ResolveAppend(cwd: AbsPath, p: PyPath, rel: seq<string>)
    requires IsResolved(cwd) && WellFormed(p) && IsResolved(rel)
    ensures WellFormed(PyPath(p.absolute, p.parts + rel))
    ensures Resolve(cwd, PyPath(p.absolute, p.parts + rel)) == Resolve(cwd, p) + rel
    decreases |rel|
  {
    var q := PyPath(p.absolute, p.parts + rel);
    assert WellFormed(q) by {
      forall i | 0 <= i < |q.parts| ensures IsPart(q.parts[i]) {
        if i >= |p.parts| { assert q.parts[i] == rel[i - |p.parts|]; }
      }
    }
    if rel == [] {
      assert q.parts == p.parts;
    } else {
      var base := if p.absolute then [] else cwd;
      var rel', last := rel[..|rel| - 1], rel[|rel| - 1];
      assert IsSegment(last);
      ResolveAppend(cwd, p, rel');
      assert q.parts[..|q.parts| - 1] == p.parts + rel';
      assert q.parts[|q.parts| - 1] == last;
      calc {
        Resolve(cwd, q);
        Normalize(base, q.parts);
        Step(Normalize(base, p.parts + rel'), last);
        Step(Resolve(cwd, p) + rel', last);
        Resolve(cwd, p) + rel' + [last];
        { assert rel' + [last] == rel; }
        Resolve(cwd, p) + rel;
      }
    }
  }

  /** Joining a name resolves as one more step of resolution. */
  lemma ResolveJoin(cwd: AbsPath, dir: PyPath, name: string)
    requires IsResolved(cwd) && WellFormed(dir) && name != "" && '/' !in name
    ensures WellFormed(Join(dir, name))
    ensures Resolve(cwd, Join(dir, name)) == if name == "." then Resolve(cwd, dir) else Step(Resolve(cwd, dir), name)
  {
    if name != "." {
      var q := Join(dir, name);
      assert WellFormed(q) by {
        forall i | 0 <= i < |q.parts| ensures IsPart(q.parts[i]) {
          if i < |dir.parts| { assert q.parts[i] == dir.parts[i]; }
        }
      }
      assert q.parts[..|q.parts| - 1] == dir.parts;
    }
  }

  // ---------------------------------------------------------------------------
  // str() of a resolved path and the prefix test
  // ---------------------------------------------------------------------------

  function Joined(p: AbsPath): string {
    if p == [] then "" else Joined(Parent(p)) + "/" + p[|p| - 1]
  }

  /** str() of a resolved path: "/" for the root, otherwise "/a/b/c". */
  function Str(p: AbsPath): string {
    if p == [] then "/" else Joined(p)
  }

  /** str.startswith */
  predicate StartsWith(s: string, prefix: string) {
    prefix <= s
  }

  lemma StrOfChild(p: AbsPath, name: string)
    ensures Str(p + [name]) == (if p == [] then "" else Str(p)) + "/" + name
  {
    assert Parent(p + [name]) == p;
    assert Str(p + [name]) == Joined(p) + "/" + name;
  }

  /** The test extract_zip_securely applies before writing an entry: the resolved
      target, as a string, starts with the resolved temporary directory. */
  predicate PassesPrefixCheck(cwd: AbsPath, temp: PyPath, target: PyPath)
    requires IsResolved(cwd) && WellFormed(temp) && WellFormed(target)
  {
    StartsWith(Str(Resolve(cwd, target)), Str(Resolve(cwd, temp)))
  }

  /** Confinement for base names. Because a base name holds no separator, joining it
      to the temporary directory resolves to a direct child (an ordinary name), to
      the directory itself ("."), or to its parent (".."). The string-prefix test
      accepts the first two and rejects the parent, unless the directory is the root,
      which is its own parent. So an accepted target is never outside the directory. */
  lemma BaseNameConfinement(cwd: AbsPath, temp: PyPath, b: string)
    requires IsResolved(cwd) && WellFormed(temp) && b != "" && '/' !in b
    ensures WellFormed(Join(temp, b))
    ensures IsSegment(b) ==>
      Resolve(cwd, Join(temp, b)) == Resolve(cwd, temp) + [b] && PassesPrefixCheck(cwd, temp, Join(temp, b))
    ensures b == "." ==>
      Resolve(cwd, Join(temp, b)) == Resolve(cwd, temp) && PassesPrefixCheck(cwd, temp, Join(temp, b))
    ensures b == ".." ==>
      && Resolve(cwd, Join(temp, b)) == (if Resolve(cwd, temp) == [] then [] else Parent(Resolve(cwd, temp)))
      && (PassesPrefixCheck(cwd, temp, Join(temp, b)) <==> Resolve(cwd, temp) == [])
  {
    var rt := Resolve(cwd, temp);
    ResolveJoin(cwd, temp, b);
    if IsSegment(b) {
      StrOfChild(rt, b);
    } else if b == ".." && rt != [] {
      var up, last := Parent(rt), rt[|rt| - 1];
      assert rt == up + [last];
      StrOfChild(up, last);
      assert last != "";
      assert |Str(up)| < |Str(rt)|;
    }
  }

  /** Consequence for archive members: whatever the member name, a target that passes
      the test resolves to the temporary directory or to one of its direct children,
      never to its parent or to a sibling. */
  lemma AcceptedTargetIsConfined(cwd: AbsPath, temp: PyPath, member: string)
    requires IsResolved(cwd) && WellFormed(temp) && Basename(member) != ""
    ensures WellFormed(Join(temp, Basename(member)))
    ensures PassesPrefixCheck(cwd, temp, Join(temp, Basename(member))) ==>
      var rx := Resolve(cwd, Join(temp, Basename(member)));
      rx == Resolve(cwd, temp) || (rx != [] && Parent(rx) == Resolve(cwd, temp))
  {
    var b := Basename(member);
    BaseNameConfinement(cwd, temp, b);
    if IsSegment(b) {
      assert Parent(Resolve(cwd, temp) + [b]) == Resolve(cwd, temp);
    }
  }
}
