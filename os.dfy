/**
 * The part of the operating system the program consults: a read-only view of the
 * filesystem, as `os.Stat` and `ioutil.ReadFile` see it.
 */
module Os {
  import opened Wrappers
  import opened FilePath

  /** What is found at a path. `Unreadable` stands for a file that `os.Stat` reports an
      error other than "not exist" for, or whose contents cannot be read. */
  datatype Node = File(content: string) | Unreadable | Directory

  /** Absent paths do not exist. */
  type FileSystem = map<Path, Node>

  /** `ioutil.ReadFile`. */
  function ReadFile(fs: FileSystem, p: Path): (r: Option<string>)
    ensures r.Some? <==> p in fs && fs[p].File?
  {
    if p in fs && fs[p].File? then Some(fs[p].content) else None
  }

  /** The test the walker makes on `os.Stat(p)` before reading a marker:
      neither "does not exist" nor "is a directory". */
  predicate StatWorthReading(fs: FileSystem, p: Path) {
    p in fs && !fs[p].Directory?
  }
}
