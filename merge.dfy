/**
 * The argument loop and the order-preserving deduplication at the end of
 * gopath.go's main (lines 196-263): each starting directory is walked, the
 * walker results are folded into a list of path sets and a keep-environment
 * flag, the environment path list is appended, and the colon-separated
 * entries are deduplicated keeping their first occurrence.
 */
module Merge {
  import opened Wrappers
  import opened GoStrings
  import opened FilePath
  import opened Os
  import opened Walker

  /** An error that ends the argument loop: anything but the not-exist sentinel. */
  predicate IsFatal(r: WalkResult) {
    r.err.Some? && !IsNotExist(r.err.value)
  }

  /** The state of the argument loop: the path sets appended so far and keepEnv. */
  datatype Merged = Merged(paths: seq<string>, keepEnv: bool)

  /** The loop's effect on the results from one point on, given the current keepEnv. */
  function Fold(rs: seq<WalkResult>, keep: bool): Merged
  {
    if |rs| == 0 then Merged([], keep)
    else
      var r := rs[0];
      var keep' := keep && !r.drop;
      if IsFatal(r) then Merged([], keep')
      else
        var mine := if |r.path| > 0 then [r.path] else [];
        if r.stop then Merged(mine, keep')
        else
          var rest := Fold(rs[1..], keep');
          Merged(mine + rest.paths, rest.keepEnv)
  }

  /** One turn of the loop: what the first result does and what the rest then do. */
  lemma FoldFirst(rs: seq<WalkResult>, keep: bool)
    requires |rs| > 0
    ensures var r := rs[0];
      var keep' := keep && !r.drop;
      var mine := if |r.path| > 0 then [r.path] else [];
      Fold(rs, keep) == if IsFatal(r) then Merged([], keep')
                        else if r.stop then Merged(mine, keep')
                        else After(mine, Fold(rs[1..], keep'))
  {
  }

  /** `ps` already appended in front of what the rest of the loop appends. */
  function After(ps: seq<string>, m: Merged): Merged {
    Merged(ps + m.paths, m.keepEnv)
  }

  /** The walker result for each argument, in argument order. */
  function Results(fs: FileSystem, cwd: WorkDir, args: seq<string>, markerFile: string, toRoot: bool): (rs: seq<WalkResult>)
    ensures |rs| == |args|
  {
    seq(|args|, i requires 0 <= i < |args| => FindGopath(fs, cwd, args[i], markerFile, toRoot))
  }

  /** The path sets followed by the environment list when it is kept. */
  function Appended(rs: seq<WalkResult>, env: string): seq<string> {
    var m := Fold(rs, true);
    m.paths + (if m.keepEnv then [env] else [])
  }

  /** The colon-separated entries before deduplication (gopath.go:249). */
  function Entries(rs: seq<WalkResult>, env: string): seq<string> {
    Split(Join(Appended(rs, env), ':'), ':')
  }

  /** The final path list built from the walker results and the environment list. */
  function Combine(rs: seq<WalkResult>, env: string): string {
    Join(Dedup(Entries(rs, env)), ':')
  }

  /**
   * What main prints: with no arguments the working directory is the only
   * starting directory, and when it cannot be determined the environment
   * list is printed unchanged (gopath.go:197-205, 265-266).
   */
  function Gopath(fs: FileSystem, cwd: WorkDir, args: seq<string>, markerFile: string, toRoot: bool, env: string): string {
    if |args| > 0 then Combine(Results(fs, cwd, args, markerFile, toRoot), env)
    else if cwd.GetwdFailed? then env
    else Combine(Results(fs, cwd, [Render(cwd.path)], markerFile, toRoot), env)
  }

  /**
   * The labelled argument loop of main (gopath.go:209-239): each argument is
   * walked in turn until a fatal error or a stop.
   */
  method CollectPaths(fs: FileSystem, cwd: WorkDir, args: seq<string>, markerFile: string, toRoot: bool)
    returns (paths: seq<string>, keepEnv: bool)
    ensures Merged(paths, keepEnv) == Fold(Results(fs, cwd, args, markerFile, toRoot), true)
  {
    ghost var rs := Results(fs, cwd, args, markerFile, toRoot);
    paths := [];
    keepEnv := true;
    var i := 0;
    while i < |args|
      invariant 0 <= i <= |args|
      invariant Fold(rs, true) == After(paths, Fold(rs[i..], keepEnv))
    {
      var r := WalkArgument(fs, cwd, args, i, markerFile, toRoot);
      assert rs[i..] == [r] + rs[i + 1..];
      var halt;
      paths, keepEnv, halt := Take(r, rs[i + 1..], paths, keepEnv);
      if halt {
        break;
      }
      i := i + 1;
    }
  }

  /** The walk of the argument at `i` (gopath.go:214). */
  method WalkArgument(fs: FileSystem, cwd: WorkDir, args: seq<string>, i: nat, markerFile: string, toRoot: bool)
    returns (r: WalkResult)
    requires i < |args|
    ensures r == Results(fs, cwd, args, markerFile, toRoot)[i]
  {
    var stop, drop, p, err := FindGopathAboveDir(fs, cwd, args[i], markerFile, toRoot);
    r := WalkResult(stop, drop, p, err);
  }

  /** One turn of the argument loop for the walker result `r` (gopath.go:214-238). */
  method Take(r: WalkResult, ghost rest: seq<WalkResult>, paths: seq<string>, keepEnv: bool)
    returns (paths': seq<string>, keepEnv': bool, halt: bool)
    ensures After(paths, Fold([r] + rest, keepEnv)) ==
      if halt then Merged(paths', keepEnv') else After(paths', Fold(rest, keepEnv'))
  {
    FoldFirst([r] + rest, keepEnv);
    assert ([r] + rest)[1..] == rest;
    var WalkResult(stop, drop, p, err) := r;
    paths', keepEnv', halt := paths, keepEnv, false;
    if drop {
      keepEnv' := false;
    }
    if err.Some? && IsNotExist(err.value) {
    } else if err != None {
      return paths', keepEnv', true;
    }
    if |p| > 0 {
      paths' := paths' + [p];
    }
    if stop {
      return paths', keepEnv', true;
    }
    AfterAfter(paths, if |p| > 0 then [p] else [], Fold(rest, keepEnv'));
  }

  lemma AfterAfter(ps: seq<string>, qs: seq<string>, m: Merged)
    ensures After(ps, After(qs, m)) == After(ps + qs, m)
  {
    assert ps + (qs + m.paths) == (ps + qs) + m.paths;
  }

  /** The entries of `xs` with every later repetition removed. */
  function Dedup(xs: seq<string>): seq<string>
  {
    if |xs| == 0 then []
    else
      var d := Dedup(xs[..|xs| - 1]);
      var x := xs[|xs| - 1];
      if x in d then d else d + [x]
  }

  predicate NoDup(xs: seq<string>) {
    forall i, j :: 0 <= i < j < |xs| ==> xs[i] != xs[j]
  }

  /** The position of the first occurrence of `x` in `xs`. */
  function IndexOf(xs: seq<string>, x: string): (k: nat)
    requires x in xs
    ensures k < |xs| && xs[k] == x && x !in xs[..k]
  {
    if xs[0] == x then 0
    else
      var k := 1 + IndexOf(xs[1..], x);
      assert xs[..k] == [xs[0]] + xs[1..][..k - 1];
      k
  }

  /** The found-set loop of main. */
  method Unique(result: seq<string>) returns (unique: seq<string>)
    ensures unique == Dedup(result)
  {
    var found: set<string> := {};
    unique := [];
    var i := 0;
    while i < |result|
      invariant 0 <= i <= |result|
      invariant unique == Dedup(result[..i])
      invariant forall x :: x in found <==> x in unique
    {
      var p := result[i];
      assert result[..i + 1][..i] == result[..i];
      if p in found {
        i := i + 1;
        continue;
      }
      found := found + {p};
      unique := unique + [p];
      i := i + 1;
    }
    assert result[..i] == result;
  }

  /** main from the argument list to the printed path list (gopath.go:196-263). */
  method ResolveGopath(fs: FileSystem, cwd: WorkDir, args: seq<string>, markerFile: string, toRoot: bool, env: string)
    returns (gopath: string)
    ensures gopath == Gopath(fs, cwd, args, markerFile, toRoot, env)
  {
    var argv := args;
    if |args| == 0 {
      if cwd.GetwdFailed? {
        return env;
      }
      argv := [Render(cwd.path)];
    }
    var paths, keepEnv := CollectPaths(fs, cwd, argv, markerFile, toRoot);
    ghost var rs := Results(fs, cwd, argv, markerFile, toRoot);
    if keepEnv {
      paths := paths + [env];
    }
    assert paths == Appended(rs, env);
    var result := Split(Join(paths, ':'), ':');
    var unique := Unique(result);
    gopath := Join(unique, ':');
    assert gopath == Combine(rs, env);
  }

  lemma {:induction false} DedupElements(xs: seq<string>)
    ensures forall x :: x in Dedup(xs) <==> x in xs
  {
    if |xs| > 0 {
      var init := xs[..|xs| - 1];
      DedupElements(init);
      assert xs == init + [xs[|xs| - 1]];
    }
  }

  lemma {:induction false} DedupNoDup(xs: seq<string>)
    ensures NoDup(Dedup(xs))
  {
    if |xs| > 0 {
      DedupNoDup(xs[..|xs| - 1]);
    }
  }

  lemma {:induction false} IndexOfSnoc(ys: seq<string>, y: string, x: string)
    requires x in ys
    ensures IndexOf(ys + [y], x) == IndexOf(ys, x)
  {
    if ys[0] != x {
      assert (ys + [y])[1..] == ys[1..] + [y];
      IndexOfSnoc(ys[1..], y, x);
    }
  }

  /** The kept entries appear in the order of their first occurrence. */
  lemma {:induction false} DedupFirstOccurrence(xs: seq<string>)
    ensures forall i, j :: 0 <= i < j < |Dedup(xs)| ==>
      Dedup(xs)[i] in xs && Dedup(xs)[j] in xs && IndexOf(xs, Dedup(xs)[i]) < IndexOf(xs, Dedup(xs)[j])
  {
    DedupElements(xs);
    if |xs| > 0 {
      var init := xs[..|xs| - 1];
      var y := xs[|xs| - 1];
      assert xs == init + [y];
      var d := Dedup(init);
      DedupFirstOccurrence(init);
      DedupElements(init);
      forall x | x in d
        ensures IndexOf(xs, x) == IndexOf(init, x)
      {
        IndexOfSnoc(init, y, x);
      }
      if y !in d {
        assert y !in init;
        assert IndexOf(xs, y) == |init|;
      }
    }
  }

  /** A list without repetitions is left as it is, so deduplicating twice changes nothing. */
  lemma {:induction false} DedupOfNoDup(xs: seq<string>)
    requires NoDup(xs)
    ensures Dedup(xs) == xs
  {
    if |xs| > 0 {
      var init := xs[..|xs| - 1];
      DedupOfNoDup(init);
      assert xs == init + [xs[|xs| - 1]];
    }
  }

  lemma DedupIdempotent(xs: seq<string>)
    ensures Dedup(Dedup(xs)) == Dedup(xs)
  {
    DedupNoDup(xs);
    DedupOfNoDup(Dedup(xs));
  }

  lemma DedupExample()
    ensures Dedup(["a", "b", "a", "c"]) == ["a", "b", "c"]
  {
    assert ["a", "b", "a", "c"][..3] == ["a", "b", "a"];
    assert ["a", "b", "a"][..2] == ["a", "b"];
    assert ["a", "b"][..1] == ["a"];
    assert ["a"][..0] == [];
  }

  /** The index of the first result that ends the loop, or |rs| when none does. */
  function Halt(rs: seq<WalkResult>): (h: nat)
    ensures h <= |rs|
  {
    if |rs| == 0 then 0
    else if IsFatal(rs[0]) || rs[0].stop then 0
    else 1 + Halt(rs[1..])
  }

  /** How many results the loop inspects: those before the halting one, and that one. */
  function Seen(rs: seq<WalkResult>): nat {
    if Halt(rs) < |rs| then Halt(rs) + 1 else |rs|
  }

  /** How many results may append their path set: a fatal one does not. */
  function Taken(rs: seq<WalkResult>): nat {
    if Halt(rs) < |rs| && IsFatal(rs[Halt(rs)]) then Halt(rs) else Seen(rs)
  }

  /** The non-empty path sets of `rs`, in order. */
  function NonEmpty(rs: seq<WalkResult>): seq<string> {
    if |rs| == 0 then []
    else (if |rs[0].path| > 0 then [rs[0].path] else []) + NonEmpty(rs[1..])
  }

  lemma {:induction false} HaltSpec(rs: seq<WalkResult>)
    ensures forall i :: 0 <= i < Halt(rs) ==> !IsFatal(rs[i]) && !rs[i].stop
    ensures Halt(rs) < |rs| ==> IsFatal(rs[Halt(rs)]) || rs[Halt(rs)].stop
  {
    if |rs| > 0 && !IsFatal(rs[0]) && !rs[0].stop {
      HaltSpec(rs[1..]);
    }
  }

  lemma NonEmptyCons(rs: seq<WalkResult>, k: nat)
    requires 0 < k <= |rs|
    ensures NonEmpty(rs[..k]) == (if |rs[0].path| > 0 then [rs[0].path] else []) + NonEmpty(rs[1..][..k - 1])
  {
    assert rs[..k][1..] == rs[1..][..k - 1];
  }

  /**
   * The argument loop described without recursion: the path sets appended are
   * the non-empty ones of the first Taken(rs) results, and the environment
   * list survives exactly when none of the Seen(rs) inspected results dropped it.
   */
  lemma {:induction false} FoldSpec(rs: seq<WalkResult>, keep: bool)
    ensures Fold(rs, keep).paths == NonEmpty(rs[..Taken(rs)])
    ensures Fold(rs, keep).keepEnv <==> keep && forall i :: 0 <= i < Seen(rs) ==> !rs[i].drop
  {
    if |rs| == 0 {
      assert rs[..0] == [];
    } else if IsFatal(rs[0]) {
      assert rs[..0] == [];
    } else if rs[0].stop {
      NonEmptyCons(rs, 1);
      assert rs[1..][..0] == [];
    } else {
      var keep' := keep && !rs[0].drop;
      FoldSpec(rs[1..], keep');
      var t := rs[1..];
      assert Halt(rs) == 1 + Halt(t);
      assert Halt(t) < |t| ==> rs[Halt(rs)] == t[Halt(t)];
      assert Taken(rs) == 1 + Taken(t);
      assert Seen(rs) == 1 + Seen(t);
      NonEmptyCons(rs, Taken(rs));
      assert (forall i :: 0 <= i < Seen(rs) ==> !rs[i].drop) <==>
             !rs[0].drop && forall i :: 0 <= i < Seen(t) ==> !t[i].drop
      by {
        forall i | 0 <= i < Seen(t)
          ensures t[i] == rs[i + 1]
        {
        }
      }
    }
  }

  /** A fatal error is never followed by an appended path set or a looked-at result. */
  lemma FatalStopsBeforeAppend(rs: seq<WalkResult>, k: nat)
    requires k < |rs| && IsFatal(rs[k])
    requires forall i :: 0 <= i < k ==> !IsFatal(rs[i]) && !rs[i].stop
    ensures Fold(rs, true).paths == NonEmpty(rs[..k])
    ensures Fold(rs, true).keepEnv <==> forall i :: 0 <= i <= k ==> !rs[i].drop
  {
    HaltAt(rs, k);
    assert Seen(rs) == k + 1 && Taken(rs) == k;
    FoldSpec(rs, true);
  }

  /** A stop ends the loop after its own path set is appended. */
  lemma StopAfterAppend(rs: seq<WalkResult>, k: nat)
    requires k < |rs| && rs[k].stop && !IsFatal(rs[k])
    requires forall i :: 0 <= i < k ==> !IsFatal(rs[i]) && !rs[i].stop
    ensures Fold(rs, true).paths == NonEmpty(rs[..k + 1])
    ensures Fold(rs, true).keepEnv <==> forall i :: 0 <= i <= k ==> !rs[i].drop
  {
    HaltAt(rs, k);
    assert Seen(rs) == k + 1 && Taken(rs) == k + 1;
    FoldSpec(rs, true);
  }

  lemma {:induction false} HaltAt(rs: seq<WalkResult>, k: nat)
    requires k < |rs| && (IsFatal(rs[k]) || rs[k].stop)
    requires forall i :: 0 <= i < k ==> !IsFatal(rs[i]) && !rs[i].stop
    ensures Halt(rs) == k
  {
    if k > 0 {
      HaltAt(rs[1..], k - 1);
    }
  }

  /** The not-exist sentinel read as "no error". */
  function Forgive(r: WalkResult): WalkResult {
    if r.err.Some? && IsNotExist(r.err.value) then r.(err := None) else r
  }

  /** The loop treats the not-exist sentinel exactly like success (gopath.go:221-228). */
  lemma {:induction false} NotExistIsHarmless(rs: seq<WalkResult>, keep: bool)
    ensures Fold(seq(|rs|, i requires 0 <= i < |rs| => Forgive(rs[i])), keep) == Fold(rs, keep)
  {
    var fs := seq(|rs|, i requires 0 <= i < |rs| => Forgive(rs[i]));
    if |rs| > 0 {
      assert IsFatal(fs[0]) == IsFatal(rs[0]);
      var keep' := keep && !rs[0].drop;
      NotExistIsHarmless(rs[1..], keep');
      assert fs[1..] == seq(|rs[1..]|, i requires 0 <= i < |rs[1..]| => Forgive(rs[1..][i]));
    }
  }

  /** A relative argument whose working directory cannot be found yields nothing; it is
      skipped when the directory was removed, and ends the loop for any other error. */
  lemma GetwdErrorKind(fs: FileSystem, start: string, markerFile: string, toRoot: bool, notExist: bool)
    requires !IsAbs(start)
    ensures var r := FindGopath(fs, GetwdFailed(notExist), start, markerFile, toRoot);
      (IsFatal(r) <==> !notExist) && r.path == "" && !r.stop && !r.drop
  {
  }

  /** With the working directory removed, a leading relative argument is skipped and the
      loop goes on with the remaining arguments. */
  lemma {:induction false} RemovedWorkDirSkipped(fs: FileSystem, args: seq<string>, markerFile: string, toRoot: bool, keep: bool)
    requires |args| > 0 && !IsAbs(args[0])
    ensures Fold(Results(fs, GetwdFailed(true), args, markerFile, toRoot), keep) ==
            Fold(Results(fs, GetwdFailed(true), args[1..], markerFile, toRoot), keep)
  {
    var rs := Results(fs, GetwdFailed(true), args, markerFile, toRoot);
    GetwdErrorKind(fs, args[0], markerFile, toRoot, true);
    assert rs[1..] == Results(fs, GetwdFailed(true), args[1..], markerFile, toRoot);
    FoldFirst(rs, keep);
  }

  lemma EntriesColonFree(rs: seq<WalkResult>, env: string)
    ensures |Dedup(Entries(rs, env))| >= 1
    ensures forall i :: 0 <= i < |Dedup(Entries(rs, env))| ==> ':' !in Dedup(Entries(rs, env))[i]
  {
    var e := Entries(rs, env);
    SplitPieces(Join(Appended(rs, env), ':'), ':');
    DedupElements(e);
    assert e[0] in Dedup(e);
    forall i | 0 <= i < |Dedup(e)|
      ensures ':' !in Dedup(e)[i]
    {
      assert Dedup(e)[i] in e;
    }
  }

  /**
   * The printed list, split at colons, is the deduplicated entry list: no
   * entry twice, every entry present, in order of first occurrence.
   */
  lemma CombineEntries(rs: seq<WalkResult>, env: string)
    ensures var out := Split(Combine(rs, env), ':');
      && out == Dedup(Entries(rs, env))
      && NoDup(out)
      && forall x :: x in out <==> x in Entries(rs, env)
  {
    EntriesColonFree(rs, env);
    SplitJoin(Dedup(Entries(rs, env)), ':');
    DedupNoDup(Entries(rs, env));
    DedupElements(Entries(rs, env));
  }

  /** The environment list, when kept, is split last, after every path set. */
  lemma EnvEntriesLast(rs: seq<WalkResult>, env: string)
    requires Fold(rs, true).keepEnv
    ensures var ps := Fold(rs, true).paths;
      Entries(rs, env) == (if |ps| == 0 then [] else Split(Join(ps, ':'), ':')) + Split(env, ':')
  {
    var ps := Fold(rs, true).paths;
    JoinSnoc(ps, env, ':');
    if |ps| > 0 {
      SplitConcat(Join(ps, ':'), env, ':');
    }
  }

  /** A kept but empty environment list shows up as one empty entry, exactly once. */
  lemma EmptyEnvKeptOnce(rs: seq<WalkResult>)
    requires Fold(rs, true).keepEnv
    ensures var out := Split(Combine(rs, ""), ':');
      "" in out && NoDup(out)
  {
    EnvEntriesLast(rs, "");
    var e := Entries(rs, "");
    assert e[|e| - 1] == "";
    CombineEntries(rs, "");
  }

  /** Without a drop the environment entries all reach the printed list. */
  lemma EnvEntriesKept(rs: seq<WalkResult>, env: string)
    requires Fold(rs, true).keepEnv
    ensures forall x :: x in Split(env, ':') ==> x in Split(Combine(rs, env), ':')
  {
    EnvEntriesLast(rs, env);
    CombineEntries(rs, env);
  }

  /** Two starting directories yielding "/a:/b" and "/b:/c" with "/env" in the environment. */
  lemma TwoArgumentsExample()
    ensures Combine([WalkResult(false, false, "/a:/b", Some(NotExist)),
                     WalkResult(false, false, "/b:/c", Some(NotExist))], "/env") == "/a:/b:/c:/env"
  {
    var rs := [WalkResult(false, false, "/a:/b", Some(NotExist)),
               WalkResult(false, false, "/b:/c", Some(NotExist))];
    ExampleAppended(rs);
    var e := ["/a", "/b", "/b", "/c", "/env"];
    ExampleJoin(e);
    ExampleColonFree(e);
    SplitJoin(e, ':');
    assert Entries(rs, "/env") == e;
    ExampleDedup(e);
    assert Dedup(e) == ["/a", "/b", "/c", "/env"];
    ExampleJoinOut(["/a", "/b", "/c", "/env"]);
  }

  lemma ExampleAppended(rs: seq<WalkResult>)
    requires rs == [WalkResult(false, false, "/a:/b", Some(NotExist)),
                    WalkResult(false, false, "/b:/c", Some(NotExist))]
    ensures Join(Appended(rs, "/env"), ':') == "/a:/b:/b:/c:/env"
  {
    assert rs[1..][1..] == [];
    assert Fold(rs[1..], true) == Merged(["/b:/c"], true);
    var xs := ["/a:/b", "/b:/c", "/env"];
    assert Appended(rs, "/env") == xs;
    assert xs[1..][1..] == ["/env"];
    assert Join(xs[1..], ':') == "/b:/c" + [':'] + "/env";
    assert "/a:/b" + [':'] + ("/b:/c" + [':'] + "/env") == "/a:/b:/b:/c:/env";
  }

  lemma ExampleJoin(e: seq<string>)
    requires e == ["/a", "/b", "/b", "/c", "/env"]
    ensures Join(e, ':') == "/a:/b:/b:/c:/env"
  {
    var t3 := e[1..][1..][1..];
    assert t3 == ["/c", "/env"];
    assert t3[1..] == ["/env"];
    assert Join(t3, ':') == "/c:/env";
    assert Join(e[1..][1..], ':') == "/b" + [':'] + "/c:/env" == "/b:/c:/env";
    assert Join(e[1..], ':') == "/b" + [':'] + "/b:/c:/env" == "/b:/b:/c:/env";
    assert Join(e, ':') == "/a" + [':'] + "/b:/b:/c:/env";
  }

  lemma ExampleColonFree(e: seq<string>)
    requires e == ["/a", "/b", "/b", "/c", "/env"]
    ensures forall i :: 0 <= i < |e| ==> ':' !in e[i]
  {
    forall i | 0 <= i < |e|
      ensures ':' !in e[i]
    {
      assert e[i] == "/a" || e[i] == "/b" || e[i] == "/c" || e[i] == "/env";
    }
  }

  lemma ExampleDedup(e: seq<string>)
    requires e == ["/a", "/b", "/b", "/c", "/env"]
    ensures Dedup(e) == ["/a", "/b", "/c", "/env"]
  {
    assert e[..1][..0] == [];
    assert Dedup(e[..1]) == ["/a"];
    assert e[..2][..1] == e[..1];
    assert Dedup(e[..2]) == ["/a", "/b"];
    assert e[..3][..2] == e[..2];
    assert Dedup(e[..3]) == ["/a", "/b"];
    assert e[..4][..3] == e[..3];
    assert "/c" !in ["/a", "/b"];
    assert Dedup(e[..4]) == ["/a", "/b", "/c"];
    assert e[..4] == e[..|e| - 1];
    assert "/env" !in ["/a", "/b", "/c"];
  }

  lemma ExampleJoinOut(u: seq<string>)
    requires u == ["/a", "/b", "/c", "/env"]
    ensures Join(u, ':') == "/a:/b:/c:/env"
  {
    var t2 := u[1..][1..];
    assert t2 == ["/c", "/env"];
    assert t2[1..] == ["/env"];
    assert Join(t2, ':') == "/c:/env";
    assert Join(u[1..], ':') == "/b" + [':'] + "/c:/env" == "/b:/c:/env";
    assert Join(u, ':') == "/a" + [':'] + "/b:/c:/env";
  }
}
