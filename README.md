# gopath — a verified model

`gopath` prints a colon-separated GOPATH-style path list. It walks upward from one or
more starting directories. At each level it reads a primary marker file (`.go-path` by
default) and the auxiliary file `.gocfg/gopaths`. It turns their lines into absolute path
entries, optionally appends the entries already in the environment, and drops later
duplicates.

Marker-file lines work as follows:

- an empty line or a line starting with `#` is ignored;
- a line `-` drops the inherited environment entries;
- a line `!` stops the upward search;
- every other line is a path, taken relative to the marker's directory when it is not absolute.

A primary marker without lines names its own directory.

The model covers the three parts of `gopath.go` that hold the logic, each as a method with
`while` loops. Each method is proved against a pure specification function, and the
properties are proved about those functions:

- `marker.dfy` (`MarkerFile`) — `joinGopathFile`. It covers the file's lines, the line
  loop and the merge onto the accumulator.
- `walker.dfy` (`Walker`) — `findGopathAboveDir`. It covers the per-level visit of the two
  marker files, the ascent to the parent, and the returned flags and error.
- `merge.dfy` (`Merge`) — the body of `main` after flag parsing. It covers the argument
  loop that folds the walker results and the environment list, and the `found`-set loop
  that removes duplicate entries.

Four supporting modules model the library calls these parts make:

- `gostrings.dfy` (`GoStrings`) models `strings.Split`/`Join`, `bytes.Trim` and the
  removal of `\r`.
- `filepath.dfy` (`FilePath`) models `filepath.Clean`/`Join`/`Abs`/`Dir`. Paths are
  sequences of components: `.` is dropped, `..` pops a component and stays at `/`, and the
  parent of `/` is `/`.
- `os.dfy` (`Os`) models the filesystem as a map from paths to nodes. A node is a file
  with content, an unreadable entry or a directory. A path that is absent from the map
  does not exist.
- `wrappers.dfy` holds `Option`.

`os.Getwd` becomes a parameter `cwd: WorkDir`. It is either the working directory or a
failure, and a failure records whether `os.IsNotExist` accepts the error (the directory
has been removed). `filepath.Abs` of a relative path returns that error unchanged.
The environment variable's value becomes a parameter `env`.

The model follows what the code does in three places where its comments say otherwise:

- With `toRoot` false the walker examines exactly one level, whether or not a marker was
  found there (gopath.go:156). The doc comment says it stops at the first marker found.
- The walker returns the not-exist error even when it found entries, because the test at
  gopath.go:163 reads the result variable `path`, which is never assigned. `main` treats
  that error like success, so the printed list is unaffected (`Merge.NotExistIsHarmless`).
  The same test also skips an `os.Getwd` error for a removed working directory, while any
  other `filepath.Abs` error ends the argument loop (`Merge.GetwdErrorKind`).
- `bytes.Trim` removes every leading and trailing newline, not only one. Only `\r` and
  `\n` are stripped, so a file holding only spaces is not empty.

## Model

| member | source | states |
|---|---|---|
| MarkerFile.KeepLines | gopath.go:73-98 | The loop keeps, in line order, exactly the entries `Kept` assigns to the path lines. `stop` holds iff some line is `!`, and `drop` holds iff some line is `-`. |
| MarkerFile.JoinGopathFile | gopath.go:54-108 | The result is `ReadMarker`. An unreadable file, or a file without lines when `includeDir` is false, leaves the accumulator unchanged with both flags false. A file without lines and `includeDir` true reads as the single line `dir`. Otherwise the kept entries, joined by `:`, are merged onto the accumulator and the flags come from the lines. |
| MarkerFile.NoLinesIffBlank | gopath.go:64-65 | A file has no lines exactly when it holds nothing but `\r` and `\n` characters. |
| MarkerFile.KeptLine | gopath.go:76-97 | A blank, comment, `-` or `!` line yields no entry. Any other line yields one entry: the clean absolute path reached from `dir` (from `/` for an absolute line) through the line's slash-separated elements. |
| MarkerFile.KeptAppend | gopath.go:74-98 | The entries of consecutive runs of lines are concatenated in line order. |
| MarkerFile.EntryResolves | gopath.go:86-89 | A relative line is joined onto `dir`, an absolute one is taken as is, and both are cleaned. |
| MarkerFile.KeptAreClean | gopath.go:89-97 | Every kept entry is absolute and is left unchanged by `filepath.Clean`. |
| MarkerFile.ReadMarkerUnchanged | gopath.go:58-70 | A read error, or a file without lines read with `includeDir` false, returns the accumulator with `stop = drop = false`. |
| MarkerFile.ReadMarkerEmptyFile | gopath.go:64-71 | A file holding only `\r`/`\n` yields the marker's directory, merged onto the accumulator, when `includeDir` is true. It yields the unchanged accumulator when `includeDir` is false. |
| MarkerFile.MergeEntries | gopath.go:100-105 | The merged list's entries are the accumulator's entries followed by the found ones. An empty accumulator adds none, and an empty `found` after a non-empty accumulator still adds one empty entry (a trailing `:`). |
| Walker.VisitMarker | gopath.go:143-153 | A marker that `os.Stat` reports as missing or as a directory is skipped. Otherwise it is read with an empty accumulator, its flags are or-ed in, and its path set is appended only when non-empty. |
| Walker.VisitLevel | gopath.go:122-154 | One level adds exactly `Level`: the primary marker's contribution (when a marker name is given), then the auxiliary marker's, with flags or-ed. |
| Walker.FindGopathAboveDir | gopath.go:113-170 | The loop's result is `FindGopath`. A failed `Abs` returns an empty list, no flags and that error, whatever its kind. Otherwise the result is the walk from the absolute start directory: the path sets joined by `:`, the or of all flags, and the not-exist error. |
| Walker.VisitedShape | gopath.go:119-161 | The walk visits the start directory, then each successive parent, and never goes above `/`. Every level before the last has `toRoot` set, is not `/` and raised no `stop`. The last level is `/`, or has `toRoot` false, or raised `stop`. |
| Walker.WalkGathersVisited | gopath.go:123-154 | The walk's result gathers the visited levels in visit order. Each level is its primary marker followed by its auxiliary marker. |
| Walker.GatherFlags | gopath.go:130-148 | The gathered `stop` (resp. `drop`) holds iff some visited level raised it. |
| Walker.OneLevelUnlessToRoot | gopath.go:156-159 | With `toRoot` false exactly one level, the start directory, is examined. |
| Walker.RootIsLast | gopath.go:156-159 | A walk from `/` examines `/` only. |
| Walker.AuxMarkerPath | gopath.go:142 | The auxiliary marker of `dir` is `dir/.gocfg/gopaths`. |
| Walker.FindGopathError | gopath.go:163-169 | The walker always returns an error. It returns the `Abs` error, with its kind, exactly when the start directory cannot be made absolute, and then an empty list and no flags. Otherwise it returns not-exist. |
| FilePath.AbsOfAbsolute | gopath.go:116 | `filepath.Abs` of an absolute path never fails and gives the cleaned path. |
| FilePath.DirOfChild | gopath.go:160 | `filepath.Dir` undoes joining a component onto a clean directory. |
| FilePath.DirIsDotDot | gopath.go:160 | The parent of a clean path is that path joined with `..`, so the parent of `/` is `/`. |
| FilePath.JoinPathChild | gopath.go:142 | Joining a slash-free name onto a clean directory goes one level down. |
| FilePath.CleanIdempotent | gopath.go:89 | Cleaning a cleaned path changes nothing. |
| GoStrings.TrimSpec | gopath.go:64 | The trimmed text is a slice of the input with only newlines on either side of it. It is empty iff the input is all newlines, and otherwise neither starts nor ends with a newline. |
| GoStrings.RemoveSpec | gopath.go:64 | Removing `\r` leaves no `\r`, and leaves text without `\r` unchanged. |
| GoStrings.RemoveAppend | gopath.go:64 | Removing `\r` from a concatenation removes it from each part in turn, so the other characters keep their order and number. |
| GoStrings.RemoveChar | gopath.go:64 | A single `\r` is dropped and any other character is kept; with `RemoveAppend` this fixes the result on every input. |
| GoStrings.SplitJoin | gopath.go:249 | Splitting the join of colon-free pieces gives the pieces back. |
| Merge.CollectPaths | gopath.go:209-239 | The argument loop, which walks each argument in turn, ends with the path sets and `keepEnv` given by `Fold` over the walker results of the arguments. |
| Merge.Take | gopath.go:214-238 | One turn of the loop. `drop` clears `keepEnv`. A fatal error ends the loop before anything is appended. A non-empty path set is appended. `stop` then ends the loop. Otherwise the loop continues with the next result. |
| Merge.FoldSpec | gopath.go:212-239 | The appended path sets are the non-empty ones among the results before the first fatal error or stop, plus the stopping one's own. The environment is kept iff no result inspected up to and including the halting one had `drop`. |
| Merge.FatalStopsBeforeAppend | gopath.go:221-226 | A fatal error at argument k ends processing before its list is appended. The `drop` flags of arguments 0..k still count. |
| Merge.StopAfterAppend | gopath.go:230-238 | A stop at argument k ends processing after its list is appended. |
| Merge.NotExistIsHarmless | gopath.go:221-228 | Replacing every error that `os.IsNotExist` accepts by no error leaves the fold unchanged. |
| Merge.GetwdErrorKind | gopath.go:221-226 | A relative argument with no working directory yields no entries and no flags. It is fatal iff the `os.Getwd` error is not a not-exist error. |
| Merge.RemovedWorkDirSkipped | gopath.go:213-238 | With the working directory removed, a leading relative argument is skipped and the loop goes on with the rest. |
| Merge.Unique | gopath.go:250-259 | The `found`-set loop computes `Dedup` of the split entries. |
| Merge.ResolveGopath | gopath.go:196-263 | The printed list is `Gopath`. With no arguments the working directory is the one starting directory, and if it is unknown the environment list is printed unchanged. Otherwise the folded path sets, followed by the environment list when kept, are split at `:`, deduplicated and joined. |
| Merge.DedupElements | gopath.go:252-259 | An entry is in the deduplicated list iff it is in the input. |
| Merge.DedupNoDup | gopath.go:252-259 | The deduplicated list has no entry twice. |
| Merge.DedupFirstOccurrence | gopath.go:252-259 | Kept entries appear in the order of their first occurrence in the input. |
| Merge.DedupOfNoDup | gopath.go:252-259 | A list without repetitions is left unchanged. |
| Merge.DedupIdempotent | gopath.go:252-259 | Deduplicating twice is the same as deduplicating once. |
| Merge.DedupExample | gopath.go:248-259 | `a, b, a, c` deduplicates to `a, b, c`. |
| Merge.CombineEntries | gopath.go:249-262 | The printed list, split at `:`, is the deduplicated entry list. It has no duplicates and contains every entry. |
| Merge.EnvEntriesLast | gopath.go:241-249 | When kept, the environment list's entries come after every path set's entries. |
| Merge.EnvEntriesKept | gopath.go:241-262 | When kept, every environment entry reaches the printed list. |
| Merge.EmptyEnvKeptOnce | gopath.go:241-262 | A kept but empty environment list contributes one empty entry, and it is printed exactly once. |
| Merge.TwoArgumentsExample | gopath.go:212-262 | Walker results `/a:/b` and `/b:/c` with environment `/env` print `/a:/b:/c:/env`. |

## Left out

- Real I/O. The filesystem is a map of paths, `os.Getwd` is the `cwd` parameter, and the
  environment variable's value is the `env` parameter. Reading the variable, flag parsing,
  `isTTY` and the write to standard output (gopath.go:172-195, 265-269) are not modelled.
- Logging. `logf`, `logprefix`, `trunc`, the `loud` switch and the deferred
  `log.SetPrefix` calls produce diagnostics only.
- The per-line `filepath.Abs` error branch (gopath.go:89-94). The joined path is already
  absolute, so `Abs` cannot fail there; the model cleans the path instead.
- The `dir == "."` test at gopath.go:156. The walked directory is always absolute, so the
  test never holds.
- Library internals:
  - `filepath.Clean`/`Join`/`Abs`/`Dir` are modelled on absolute paths only, as component
    sequences.
  - Windows volume names are not modelled.
  - Bytes are not distinguished from characters; file contents are `seq<char>`.
- `os.Stat` and `ioutil.ReadFile` failures other than not-exist are one node kind,
  `Unreadable`. Stat does not report such a node as missing, so it is read, and the read
  fails.
- Order of side effects in `main`. The loop calls the walker once per argument and stops
  at the break, as the code does. The walker is a pure function of the filesystem here,
  so the interleaving of its reads with the loop is not observable.
