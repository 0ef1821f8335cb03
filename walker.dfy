/**
 * The upward directory walker (`findGopathAboveDir`): from a start directory, read the
 * primary marker and the auxiliary `.gocfg/gopaths` at each level, then go to the
 * parent, until the search is confined to one level, reaches "/", or meets "!".
 */
module Walker {
  import opened Wrappers
  import opened GoStrings
  import opened FilePath
  import opened Os
  import opened MarkerFile

  /** The errors the walker returns: `os.ErrNotExist`, or the error `filepath.Abs`
      reports for the start directory (the working directory is unknown). */
  datatype Err = NotExist | AbsFailed(notExist: bool)

  /** `os.IsNotExist`: the sentinel, or an `os.Getwd` error for a removed directory. */
  predicate IsNotExist(e: Err) {
    e.NotExist? || e.notExist
  }

  /** Path sets, in visit order, and the flags raised, over one or more files. */
  datatype Found = Found(paths: seq<string>, stop: bool, drop: bool)

  const NoneFound := Found([], false, false)

  /** `a` followed by `b`: path sets concatenated, flags or-ed. */
  function Then(a: Found, b: Found): Found {
    Found(a.paths + b.paths, a.stop || b.stop, a.drop || b.drop)
  }

  lemma ThenAssociative(a: Found, b: Found, c: Found)
    ensures Then(Then(a, b), c) == Then(a, Then(b, c))
  {
    assert (a.paths + b.paths) + c.paths == a.paths + (b.paths + c.paths);
  }

  /** `filepath.Join(dir, ".gocfg", "gopaths")`: the auxiliary marker of `dir`. */
  function AuxMarker(dir: Path): Path {
    JoinPath(JoinPath(dir, ".gocfg"), "gopaths")
  }

  /** One marker file, read with an empty accumulator when `os.Stat` says it neither is
      missing nor is a directory; its path set is kept only if non-empty. */
  function Visit(fs: FileSystem, dir: Path, file: Path, includeDir: bool): Found {
    if StatWorthReading(fs, file) then
      var o := ReadMarker(fs, dir, file, "", includeDir);
      Found(if |o.next| > 0 then [o.next] else [], o.stop, o.drop)
    else NoneFound
  }

  /** The primary marker `<dir>/<markerFile>`, when a marker name is given; an empty one
      names `dir` itself. */
  function Primary(fs: FileSystem, dir: Path, markerFile: string): Found {
    if markerFile != "" then Visit(fs, dir, JoinPath(dir, markerFile), true) else NoneFound
  }

  /** The auxiliary marker `<dir>/.gocfg/gopaths`; an empty one names nothing. */
  function Auxiliary(fs: FileSystem, dir: Path): Found {
    Visit(fs, dir, AuxMarker(dir), false)
  }

  /** One level: the primary marker, then the auxiliary one. */
  function Level(fs: FileSystem, dir: Path, markerFile: string): Found {
    Then(Primary(fs, dir, markerFile), Auxiliary(fs, dir))
  }

  /** True when the walk ends after the level at `dir`. */
  predicate LastLevel(fs: FileSystem, dir: Path, markerFile: string, toRoot: bool) {
    Level(fs, dir, markerFile).stop || !toRoot || dir == []
  }

  /** The directories an upward walk from `dir` examines, when `last` says at which
      directory it ends (it always ends at "/"). */
  function Ascent(dir: Path, last: Path -> bool): seq<Path>
    decreases |dir|
  {
    if last(dir) || dir == [] then [dir] else [dir] + Ascent(Dir(dir), last)
  }

  /** The directories the walk examines, starting at `dir`. */
  function Visited(fs: FileSystem, dir: Path, markerFile: string, toRoot: bool): seq<Path> {
    Ascent(dir, d => LastLevel(fs, d, markerFile, toRoot))
  }

  /** What the walk from `dir` collects. */
  function Walk(fs: FileSystem, dir: Path, markerFile: string, toRoot: bool): Found
    decreases |dir|
  {
    var here := Level(fs, dir, markerFile);
    if LastLevel(fs, dir, markerFile, toRoot) then here
    else Then(here, Walk(fs, Dir(dir), markerFile, toRoot))
  }

  /** The levels of `dirs` gathered in order; a flag is raised exactly when some level raised it. */
  function Gather(fs: FileSystem, dirs: seq<Path>, markerFile: string): Found
    decreases |dirs|
  {
    if |dirs| == 0 then NoneFound
    else Then(Level(fs, dirs[0], markerFile), Gather(fs, dirs[1..], markerFile))
  }

  /** A gathered flag is raised exactly when some level raised it. */
  lemma GatherFlags(fs: FileSystem, dirs: seq<Path>, markerFile: string)
    ensures Gather(fs, dirs, markerFile).stop <==> exists i :: 0 <= i < |dirs| && Level(fs, dirs[i], markerFile).stop
    ensures Gather(fs, dirs, markerFile).drop <==> exists i :: 0 <= i < |dirs| && Level(fs, dirs[i], markerFile).drop
  {
    GatherStop(fs, dirs, markerFile);
    GatherDrop(fs, dirs, markerFile);
  }

  lemma {:induction false} GatherStop(fs: FileSystem, dirs: seq<Path>, markerFile: string)
    ensures Gather(fs, dirs, markerFile).stop <==> exists i :: 0 <= i < |dirs| && Level(fs, dirs[i], markerFile).stop
    decreases |dirs|
  {
    if |dirs| > 0 {
      var rest := dirs[1..];
      GatherStop(fs, rest, markerFile);
      assert Gather(fs, dirs, markerFile).stop == (Level(fs, dirs[0], markerFile).stop || Gather(fs, rest, markerFile).stop);
      if Gather(fs, rest, markerFile).stop {
        var j :| 0 <= j < |rest| && Level(fs, rest[j], markerFile).stop;
        assert rest[j] == dirs[j + 1];
      }
      if exists i :: 0 <= i < |dirs| && Level(fs, dirs[i], markerFile).stop {
        var i :| 0 <= i < |dirs| && Level(fs, dirs[i], markerFile).stop;
        if i > 0 {
          assert dirs[i] == rest[i - 1];
        }
      }
    }
  }

  lemma {:induction false} GatherDrop(fs: FileSystem, dirs: seq<Path>, markerFile: string)
    ensures Gather(fs, dirs, markerFile).drop <==> exists i :: 0 <= i < |dirs| && Level(fs, dirs[i], markerFile).drop
    decreases |dirs|
  {
    if |dirs| > 0 {
      var rest := dirs[1..];
      GatherDrop(fs, rest, markerFile);
      assert Gather(fs, dirs, markerFile).drop == (Level(fs, dirs[0], markerFile).drop || Gather(fs, rest, markerFile).drop);
      if Gather(fs, rest, markerFile).drop {
        var j :| 0 <= j < |rest| && Level(fs, rest[j], markerFile).drop;
        assert rest[j] == dirs[j + 1];
      }
      if exists i :: 0 <= i < |dirs| && Level(fs, dirs[i], markerFile).drop {
        var i :| 0 <= i < |dirs| && Level(fs, dirs[i], markerFile).drop;
        if i > 0 {
          assert dirs[i] == rest[i - 1];
        }
      }
    }
  }

  datatype WalkResult = WalkResult(stop: bool, drop: bool, path: string, err: Option<Err>)

  /** What `findGopathAboveDir(start, markerFile, toRoot)` returns. */
  function FindGopath(fs: FileSystem, cwd: WorkDir, start: string, markerFile: string, toRoot: bool): WalkResult {
    match Abs(cwd, start)
    case AbsError(notExist) => WalkResult(false, false, "", Some(AbsFailed(notExist)))
    case Absolute(dir) =>
      var w := Walk(fs, dir, markerFile, toRoot);
      WalkResult(w.stop, w.drop, Join(w.paths, ':'), Some(NotExist))
  }

  /** The block the walker runs for each marker file: `os.Stat`, then `joinGopathFile`
      with an empty accumulator, flags or-ed in, a non-empty path set appended. */
  method VisitMarker(fs: FileSystem, dir: Path, fpath: Path, includeDir: bool,
                     paths: seq<string>, stop: bool, drop: bool)
    returns (paths': seq<string>, stop': bool, drop': bool)
    ensures Found(paths', stop', drop') == Then(Found(paths, stop, drop), Visit(fs, dir, fpath, includeDir))
  {
    paths', stop', drop' := paths, stop, drop;
    if StatWorthReading(fs, fpath) {
      var pathset, stopAfter, dropAfter := JoinGopathFile(fs, dir, fpath, "", includeDir);
      stop' := stop' || stopAfter;
      drop' := drop' || dropAfter;
      if |pathset| > 0 {
        paths' := paths' + [pathset];
      }
    }
  }

  /** The two marker files of one level: the primary one (when a marker name is given),
      then `.gocfg/gopaths` (gopath.go:122-154). */
  method VisitLevel(fs: FileSystem, dir: Path, markerFile: string, paths: seq<string>, stop: bool, drop: bool)
    returns (paths': seq<string>, stop': bool, drop': bool)
    ensures Found(paths', stop', drop') == Then(Found(paths, stop, drop), Level(fs, dir, markerFile))
  {
    ghost var before := Found(paths, stop, drop);
    paths', stop', drop' := paths, stop, drop;
    var fpath := JoinPath(dir, markerFile);
    if markerFile != "" {
      paths', stop', drop' := VisitMarker(fs, dir, fpath, true, paths', stop', drop');
    }
    assert Found(paths', stop', drop') == Then(before, Primary(fs, dir, markerFile));
    fpath := AuxMarker(dir);
    paths', stop', drop' := VisitMarker(fs, dir, fpath, false, paths', stop', drop');
    ThenAssociative(before, Primary(fs, dir, markerFile), Auxiliary(fs, dir));
  }

  /** `findGopathAboveDir`: the start directory made absolute, then a loop that reads the
      markers of one level, and either stops or moves to the parent directory. */
  method FindGopathAboveDir(fs: FileSystem, cwd: WorkDir, start: string, markerFile: string, toRoot: bool)
    returns (stop: bool, drop: bool, path: string, err: Option<Err>)
    ensures WalkResult(stop, drop, path, err) == FindGopath(fs, cwd, start, markerFile, toRoot)
  {
    path := "";
    var abs := Abs(cwd, start);
    err := if abs.AbsError? then Some(AbsFailed(abs.notExist)) else None;
    var dir: Path := if abs.Absolute? then abs.path else [];
    ghost var start' := dir;
    var paths: seq<string> := [];
    stop, drop := false, false;

    while err == None && !stop
      invariant err == None ==> abs == Absolute(start')
      invariant err != None ==> abs.AbsError? && paths == [] && !stop && !drop
      invariant err == None && stop ==> Found(paths, stop, drop) == Walk(fs, start', markerFile, toRoot)
      invariant err == None && !stop ==>
        Walk(fs, start', markerFile, toRoot) == Then(Found(paths, stop, drop), Walk(fs, dir, markerFile, toRoot))
      decreases |dir|
    {
      ghost var before := Found(paths, stop, drop);
      ghost var here := dir;
      paths, stop, drop := VisitLevel(fs, dir, markerFile, paths, stop, drop);
      assert !before.stop;

      if !toRoot || dir == [] {
        break;
      }
      dir := Dir(dir);
      assert !LastLevel(fs, here, markerFile, toRoot) ==>
        Walk(fs, here, markerFile, toRoot) == Then(Level(fs, here, markerFile), Walk(fs, dir, markerFile, toRoot));
      ThenAssociative(before, Level(fs, here, markerFile), Walk(fs, dir, markerFile, toRoot));
    }

    if path == "" && err == None {
      err := Some(NotExist);
    } else if err != None {
      paths := [];
    }
    return stop, drop, Join(paths, ':'), err;
  }

  /** An ascent examines `dir`, then one parent after another, never above "/", and ends
      at the first directory where `last` holds or at "/". */
  lemma {:induction false} AscentShape(dir: Path, last: Path -> bool)
    ensures var v := Ascent(dir, last);
      1 <= |v| <= |dir| + 1 && v[0] == dir &&
      (forall i :: 0 <= i < |v| ==> v[i] == dir[..|dir| - i]) &&
      (forall i :: 0 <= i < |v| - 1 ==> !last(v[i]) && v[i] != []) &&
      (last(v[|v| - 1]) || v[|v| - 1] == [])
    decreases |dir|
  {
    if !last(dir) && dir != [] {
      var up := Dir(dir);
      AscentShape(up, last);
      var v := Ascent(dir, last);
      assert v == [dir] + Ascent(up, last);
      forall i | 1 <= i < |v|
        ensures v[i] == dir[..|dir| - i]
      {
        assert v[i] == up[..|up| - (i - 1)];
      }
    }
  }

  /** The walk examines the start directory, then one parent after another, never above
      "/": it halts at the first level where the search is confined to one level, the
      directory is "/", or "!" was read. */
  lemma VisitedShape(fs: FileSystem, dir: Path, markerFile: string, toRoot: bool)
    ensures var v := Visited(fs, dir, markerFile, toRoot);
      1 <= |v| <= |dir| + 1 && v[0] == dir &&
      (forall i :: 0 <= i < |v| ==> v[i] == dir[..|dir| - i]) &&
      (forall i :: 0 <= i < |v| - 1 ==> toRoot && v[i] != [] && !Level(fs, v[i], markerFile).stop) &&
      LastLevel(fs, v[|v| - 1], markerFile, toRoot)
  {
    AscentShape(dir, d => LastLevel(fs, d, markerFile, toRoot));
  }

  /** The walk's result is the levels it visits, gathered in visit order. */
  lemma {:induction false} WalkGathersVisited(fs: FileSystem, dir: Path, markerFile: string, toRoot: bool)
    ensures Walk(fs, dir, markerFile, toRoot) == Gather(fs, Visited(fs, dir, markerFile, toRoot), markerFile)
    decreases |dir|
  {
    var v := Visited(fs, dir, markerFile, toRoot);
    assert v == Ascent(dir, d => LastLevel(fs, d, markerFile, toRoot));
    if LastLevel(fs, dir, markerFile, toRoot) {
      assert v == [dir];
      assert Gather(fs, v, markerFile) == Then(Level(fs, dir, markerFile), NoneFound);
    } else {
      WalkGathersVisited(fs, Dir(dir), markerFile, toRoot);
      assert v[1..] == Visited(fs, Dir(dir), markerFile, toRoot);
    }
  }

  /** Without `toRoot` exactly one level is examined, whether or not a marker was there. */
  lemma OneLevelUnlessToRoot(fs: FileSystem, dir: Path, markerFile: string)
    ensures Visited(fs, dir, markerFile, false) == [dir]
    ensures Walk(fs, dir, markerFile, false) == Level(fs, dir, markerFile)
  {
  }

  /** A walk from "/" examines "/" only. */
  lemma RootIsLast(fs: FileSystem, markerFile: string, toRoot: bool)
    ensures Visited(fs, [], markerFile, toRoot) == [[]]
  {
  }

  /** The auxiliary marker is the file `gopaths` in the subdirectory `.gocfg`. */
  lemma AuxMarkerPath(dir: Path)
    requires WellFormed(dir)
    ensures AuxMarker(dir) == dir + [".gocfg", "gopaths"]
  {
    JoinPathChild(dir, ".gocfg");
    JoinPathChild(dir + [".gocfg"], "gopaths");
  }

  /** The walker never reports success: the start directory's `filepath.Abs` error if
      there is one, and otherwise "not exist", however many entries were found. */
  lemma FindGopathError(fs: FileSystem, cwd: WorkDir, start: string, markerFile: string, toRoot: bool)
    ensures var r := FindGopath(fs, cwd, start, markerFile, toRoot);
      var abs := Abs(cwd, start);
      r.err.Some? &&
      (abs.AbsError? <==> r.err.value.AbsFailed?) &&
      (abs.AbsError? ==> r == WalkResult(false, false, "", Some(AbsFailed(abs.notExist)))) &&
      (abs.Absolute? ==> r.err == Some(NotExist))
  {
  }
}
