/**
 * Go's `path/filepath` on a Unix system, for the calls the program makes on
 * absolute paths. A cleaned absolute path is kept as the sequence of its
 * components: "/" is [], "/a/b" is ["a", "b"].
 */
module FilePath {
  import opened Wrappers
  import opened GoStrings

  type Path = seq<string>

  /** A component of a cleaned path: not empty, not "." or "..", no slash. */
  predicate IsComponent(c: string) {
    c != "" && c != "." && c != ".." && '/' !in c
  }

  predicate WellFormed(p: Path) {
    forall i :: 0 <= i < |p| ==> IsComponent(p[i])
  }

  /** `filepath.IsAbs` on Unix. */
  predicate IsAbs(s: string) {
    |s| > 0 && s[0] == '/'
  }

  /** One element of a lexical walk: "" and "." stay, ".." goes up (never above "/"), a name goes down. */
  function Step(p: Path, e: string): Path {
    if e == "" || e == "." then p
    else if e == ".." then (if |p| == 0 then p else p[..|p| - 1])
    else p + [e]
  }

  /** The walk from `base` through `elems` in order. */
  function Resolve(base: Path, elems: seq<string>): Path
    decreases |elems|
  {
    if |elems| == 0 then base else Resolve(Step(base, elems[0]), elems[1..])
  }

  /** The string form of a cleaned absolute path. */
  function Render(p: Path): (s: string)
    ensures IsAbs(s)
  {
    "/" + Join(p, '/')
  }

  /** `filepath.Clean` of an absolute path, as components. */
  function Clean(s: string): Path {
    Resolve([], Split(s, '/'))
  }

  /** `filepath.Join(dir, elem)` for an absolute `dir`: the two joined by a slash, then cleaned. */
  function JoinPath(dir: Path, elem: string): Path {
    Clean(Render(dir) + "/" + elem)
  }

  /** What `os.Getwd` gives: the working directory, or an error; `notExist` records
      whether `os.IsNotExist` accepts that error (the directory has been removed). */
  datatype WorkDir = WorkDir(path: Path) | GetwdFailed(notExist: bool)

  /** What `filepath.Abs` gives: a clean absolute path, or the error of `os.Getwd`. */
  datatype AbsResult = Absolute(path: Path) | AbsError(notExist: bool)

  /** `filepath.Abs`: an absolute path is cleaned; a relative one is joined onto the
      working directory, and `os.Getwd`'s error is returned as it is. */
  function Abs(cwd: WorkDir, s: string): AbsResult {
    if IsAbs(s) then Absolute(Clean(s))
    else match cwd
      case WorkDir(d) => Absolute(JoinPath(d, s))
      case GetwdFailed(notExist) => AbsError(notExist)
  }

  /** `filepath.Dir`: the parent directory; the parent of "/" is "/". */
  function Dir(p: Path): (q: Path)
    ensures |p| > 0 ==> q == p[..|p| - 1]
    ensures |p| == 0 ==> q == []
  {
    if |p| == 0 then [] else p[..|p| - 1]
  }

  /** Walking through separator-free elements from a clean path keeps it clean. */
  lemma {:induction false} ResolveWellFormed(base: Path, elems: seq<string>)
    requires WellFormed(base)
    requires forall i :: 0 <= i < |elems| ==> '/' !in elems[i]
    ensures WellFormed(Resolve(base, elems))
    decreases |elems|
  {
    if |elems| > 0 {
      ResolveWellFormed(Step(base, elems[0]), elems[1..]);
    }
  }

  /** Cleaning always yields a clean path. */
  lemma CleanWellFormed(s: string)
    ensures WellFormed(Clean(s))
  {
    SplitPieces(s, '/');
    ResolveWellFormed([], Split(s, '/'));
  }

  /** Walking through `a + b` is walking through `a`, then through `b`. */
  lemma {:induction false} ResolveAppend(base: Path, a: seq<string>, b: seq<string>)
    ensures Resolve(base, a + b) == Resolve(Resolve(base, a), b)
    decreases |a|
  {
    if |a| == 0 {
      assert a + b == b;
    } else {
      assert (a + b)[0] == a[0] && (a + b)[1..] == a[1..] + b;
      ResolveAppend(Step(base, a[0]), a[1..], b);
    }
  }

  /** Walking through clean components appends them. */
  lemma {:induction false} ResolveNames(base: Path, p: Path)
    requires WellFormed(p)
    ensures Resolve(base, p) == base + p
    decreases |p|
  {
    if |p| > 0 {
      ResolveNames(base + [p[0]], p[1..]);
      assert base + [p[0]] + p[1..] == base + p;
    }
  }

  /** The components of a rendered path, as `strings.Split` on "/" sees them. */
  lemma SplitRender(p: Path)
    requires WellFormed(p)
    ensures Split(Render(p), '/') == [""] + (if |p| == 0 then [""] else p)
  {
    assert Render(p) == [] + ['/'] + Join(p, '/');
    SplitConcat([], Join(p, '/'), '/');
    if |p| > 0 {
      SplitJoin(p, '/');
    }
  }

  /** Cleaning the string form of a clean path gives the path back: every path the
      program prints is a fixed point of `filepath.Clean`. */
  lemma CleanRender(p: Path)
    requires WellFormed(p)
    ensures Clean(Render(p)) == p
  {
    SplitRender(p);
    var elems := Split(Render(p), '/');
    assert Resolve([], elems) == Resolve([], elems[1..]);
    if |p| > 0 {
      assert elems[1..] == p;
      ResolveNames([], p);
    } else {
      assert elems[1..] == [""];
    }
  }

  /** Cleaning is idempotent. */
  lemma CleanIdempotent(s: string)
    ensures Clean(Render(Clean(s))) == Clean(s)
  {
    CleanWellFormed(s);
    CleanRender(Clean(s));
  }

  /** `filepath.Join(dir, elem)` walks from `dir` through the slash-separated elements of `elem`. */
  lemma JoinPathResolves(dir: Path, elem: string)
    requires WellFormed(dir)
    ensures JoinPath(dir, elem) == Resolve(dir, Split(elem, '/'))
  {
    var r := Render(dir);
    SplitConcat(r, elem, '/');
    assert r + "/" + elem == r + ['/'] + elem;
    ResolveAppend([], Split(r, '/'), Split(elem, '/'));
    CleanRender(dir);
  }

  /** A name with no slash, joined onto a clean directory, is one level below it. */
  lemma JoinPathChild(dir: Path, name: string)
    requires WellFormed(dir) && IsComponent(name)
    ensures JoinPath(dir, name) == dir + [name]
  {
    JoinPathResolves(dir, name);
    SplitFree(name, '/');
  }

  /** The parent of a child is the directory it was joined onto: `Dir` undoes `JoinPathChild`. */
  lemma DirOfChild(dir: Path, name: string)
    requires WellFormed(dir) && IsComponent(name)
    ensures Dir(JoinPath(dir, name)) == dir
  {
    JoinPathChild(dir, name);
    assert (dir + [name])[..|dir|] == dir;
  }

  /** The parent of a clean path is the path joined with "..", and "/" is its own parent. */
  lemma DirIsDotDot(p: Path)
    requires WellFormed(p)
    ensures Dir(p) == JoinPath(p, "..")
  {
    JoinPathResolves(p, "..");
    SplitFree("..", '/');
  }

  /** `filepath.Abs` never fails on an absolute path, and always gives a clean path. */
  lemma AbsOfAbsolute(cwd: WorkDir, s: string)
    requires IsAbs(s)
    ensures Abs(cwd, s) == Absolute(Clean(s))
  {
  }
}
