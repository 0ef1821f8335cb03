/**
 * The marker-file reader (`joinGopathFile`): one file's lines become path entries,
 * merged onto an accumulated colon-separated list, plus the two sentinel flags
 * `stop` (a line "!") and `drop` (a line "-").
 */
module MarkerFile {
  import opened Wrappers
  import opened GoStrings
  import opened FilePath
  import opened Os

  /** What one line of a marker file means. */
  datatype LineKind = Ignored | DropEnv | StopSearch | PathLine

  function Kind(line: string): LineKind {
    if |line| == 0 || line[0] == '#' then Ignored
    else if line == "-" then DropEnv
    else if line == "!" then StopSearch
    else PathLine
  }

  /** The lines of a file: every "\r" removed, leading and trailing "\n" trimmed, split on "\n". */
  function Lines(content: string): seq<string> {
    Split(Trim(Remove(content, '\r'), '\n'), '\n')
  }

  /** The reader's test for a file without lines. */
  predicate NoLines(lines: seq<string>) {
    |lines| == 0 || (|lines| == 1 && |lines[0]| == 0)
  }

  /** The entry a path line yields: a relative line is joined onto `dir`, then the path is made absolute. */
  function Entry(dir: Path, line: string): string {
    Render(Clean(if IsAbs(line) then line else Render(JoinPath(dir, line))))
  }

  /** The entries kept from `lines`, in line order. */
  function Kept(dir: Path, lines: seq<string>): seq<string>
    decreases |lines|
  {
    if |lines| == 0 then []
    else
      var last := lines[|lines| - 1];
      Kept(dir, lines[..|lines| - 1]) + (if Kind(last) == PathLine then [Entry(dir, last)] else [])
  }

  /** `found` appended to the accumulator `gopath`, with a ":" unless the accumulator is empty. */
  function Accumulate(gopath: string, found: string): string {
    if |gopath| > 0 then gopath + ":" + found else found
  }

  datatype Outcome = Outcome(next: string, stop: bool, drop: bool)

  /** The lines the reader goes through: those of the file, or, for a file without lines,
      the directory itself when `includeDir` holds and nothing otherwise. */
  function Effective(dir: Path, content: string, includeDir: bool): Option<seq<string>> {
    var lines := Lines(content);
    if !NoLines(lines) then Some(lines)
    else if includeDir then Some([Render(dir)])
    else None
  }

  /** What `joinGopathFile(dir, path, gopath, includeDir)` returns. */
  function ReadMarker(fs: FileSystem, dir: Path, path: Path, gopath: string, includeDir: bool): Outcome {
    var content := ReadFile(fs, path);
    var lines := if content.Some? then Effective(dir, content.value, includeDir) else None;
    if lines.None? then Outcome(gopath, false, false)
    else Outcome(Accumulate(gopath, Join(Kept(dir, lines.value), ':')), "!" in lines.value, "-" in lines.value)
  }

  /** The line loop of `joinGopathFile`: classifies each line in order, keeping path
      entries in a list and raising `stop` on "!" and `drop` on "-". */
  method KeepLines(dir: Path, lines: seq<string>) returns (keep: seq<string>, stop: bool, drop: bool)
    ensures keep == Kept(dir, lines)
    ensures stop <==> "!" in lines
    ensures drop <==> "-" in lines
  {
    keep := [];
    stop, drop := false, false;
    var i := 0;
    while i < |lines|
      invariant 0 <= i <= |lines|
      invariant keep == Kept(dir, lines[..i])
      invariant stop == ("!" in lines[..i])
      invariant drop == ("-" in lines[..i])
    {
      ghost var prefix := lines[..i + 1];
      assert prefix[..i] == lines[..i] && prefix[i] == lines[i];
      assert prefix == lines[..i] + [lines[i]];
      var newpath := lines[i];
      if |newpath| == 0 || newpath[0] == '#' {
      } else if newpath == "-" {
        drop := true;
      } else if newpath == "!" {
        stop := true;
      } else {
        if !IsAbs(newpath) {
          newpath := Render(JoinPath(dir, newpath));
        }
        var p := Render(Clean(newpath));
        keep := keep + [p];
      }
      i := i + 1;
    }
    assert lines[..i] == lines;
  }

  /** `joinGopathFile`: reads the file at `path` in directory `dir`, keeps the entries of
      its lines, and merges them onto `gopath`. */
  method JoinGopathFile(fs: FileSystem, dir: Path, path: Path, gopath: string, includeDir: bool)
    returns (next: string, stop: bool, drop: bool)
    ensures Outcome(next, stop, drop) == ReadMarker(fs, dir, path, gopath, includeDir)
  {
    var b := ReadFile(fs, path);
    if b.None? {
      return gopath, false, false;
    }
    ghost var effective := Effective(dir, b.value, includeDir);
    var lines := Lines(b.value);
    if NoLines(lines) {
      if includeDir {
        lines := [Render(dir)];
      } else {
        assert effective.None?;
        return gopath, false, false;
      }
    }
    assert effective == Some(lines);
    var keep;
    keep, stop, drop := KeepLines(dir, lines);
    var found := Join(keep, ':');
    if |gopath| > 0 {
      next := gopath + ":" + found;
    } else {
      next := found;
    }
  }

  /** A file has no lines exactly when it holds nothing but carriage returns and newlines. */
  lemma NoLinesIffBlank(content: string)
    ensures NoLines(Lines(content)) <==> forall i :: 0 <= i < |content| ==> content[i] == '\r' || content[i] == '\n'
  {
    var r := Remove(content, '\r');
    var t := Trim(r, '\n');
    RemoveKeeps(content, '\r');
    TrimSpec(r, '\n');
    JoinSplit(t, '\n');
    if NoLines(Lines(content)) {
      assert Lines(content) == [""];
      assert t == "";
      forall i | 0 <= i < |content|
        ensures content[i] == '\r' || content[i] == '\n'
      {
        if content[i] != '\r' {
          assert content[i] in r;
          var k :| 0 <= k < |r| && r[k] == content[i];
        }
      }
    } else {
      assert t != "";
      var k :| 0 <= k < |r| && r[k] != '\n';
      assert r[k] in content;
    }
  }

  /** Kept entries of consecutive runs of lines come in line order. */
  lemma {:induction false} KeptAppend(dir: Path, a: seq<string>, b: seq<string>)
    ensures Kept(dir, a + b) == Kept(dir, a) + Kept(dir, b)
    decreases |b|
  {
    if |b| == 0 {
      assert a + b == a;
    } else {
      var c := a + b;
      assert c[..|c| - 1] == a + b[..|b| - 1];
      assert c[|c| - 1] == b[|b| - 1];
      KeptAppend(dir, a, b[..|b| - 1]);
    }
  }

  /** A path line yields the cleaned absolute path reached from `dir` (or from "/" for an
      absolute line) through the line's slash-separated elements. */
  lemma EntryResolves(dir: Path, line: string)
    requires WellFormed(dir)
    ensures Entry(dir, line) == Render(Resolve(if IsAbs(line) then [] else dir, Split(line, '/')))
  {
    if !IsAbs(line) {
      CleanWellFormed(Render(dir) + "/" + line);
      CleanRender(JoinPath(dir, line));
      JoinPathResolves(dir, line);
    }
  }

  /** What one line contributes: nothing for a blank, comment or sentinel line, and one
      resolved path otherwise. */
  lemma KeptLine(dir: Path, line: string)
    requires WellFormed(dir)
    ensures Kind(line) != PathLine ==> Kept(dir, [line]) == []
    ensures Kind(line) == PathLine ==>
      Kept(dir, [line]) == [Render(Resolve(if IsAbs(line) then [] else dir, Split(line, '/')))]
  {
    assert [line][..0] == [];
    EntryResolves(dir, line);
  }

  /** Every kept entry is an absolute path that cleaning leaves unchanged. */
  lemma {:induction false} KeptAreClean(dir: Path, lines: seq<string>)
    ensures forall e :: e in Kept(dir, lines) ==> IsAbs(e) && Render(Clean(e)) == e
    decreases |lines|
  {
    if |lines| > 0 {
      KeptAreClean(dir, lines[..|lines| - 1]);
      var last := lines[|lines| - 1];
      if Kind(last) == PathLine {
        var src := if IsAbs(last) then last else Render(JoinPath(dir, last));
        CleanIdempotent(src);
      }
    }
  }

  /** A missing or unreadable file, or an auxiliary file without lines, leaves the
      accumulator unchanged and raises no flag. */
  lemma ReadMarkerUnchanged(fs: FileSystem, dir: Path, path: Path, gopath: string, includeDir: bool)
    requires ReadFile(fs, path).None? || (NoLines(Lines(ReadFile(fs, path).value)) && !includeDir)
    ensures ReadMarker(fs, dir, path, gopath, includeDir) == Outcome(gopath, false, false)
  {
  }

  /** A primary marker holding only "\r" and "\n" names its own directory. */
  lemma ReadMarkerEmptyFile(fs: FileSystem, dir: Path, path: Path, gopath: string)
    requires WellFormed(dir)
    requires path in fs && fs[path].File?
    requires forall i :: 0 <= i < |fs[path].content| ==> fs[path].content[i] == '\r' || fs[path].content[i] == '\n'
    ensures ReadMarker(fs, dir, path, gopath, true) == Outcome(Accumulate(gopath, Render(dir)), false, false)
    ensures ReadMarker(fs, dir, path, gopath, false) == Outcome(gopath, false, false)
  {
    var content := fs[path].content;
    assert ReadFile(fs, path) == Some(content);
    NoLinesIffBlank(content);
    assert NoLines(Lines(content));
    var r := Render(dir);
    assert Kind(r) == PathLine;
    assert [r][..0] == [];
    CleanRender(dir);
    assert Kept(dir, [r]) == [r];
  }

  /** The merged list's entries are the accumulator's entries followed by the found ones;
      an empty `found` still adds an (empty) entry after a non-empty accumulator. */
  lemma MergeEntries(gopath: string, found: string)
    ensures Split(Accumulate(gopath, found), ':') ==
      (if |gopath| > 0 then Split(gopath, ':') else []) + Split(found, ':')
  {
    if |gopath| > 0 {
      assert gopath + ":" + found == gopath + [':'] + found;
      SplitConcat(gopath, found, ':');
    }
  }
}
