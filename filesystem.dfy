/** The file system the walkers see, as a map from path to entry. `lstat` looks a path
    up, `stat` follows symbolic links (at most MAXSYMLINKS of them), and `opendir`
    needs a readable directory at the end of that chain. */
module FileSystem {
  import opened Common

  type Path = string

  /** A directory entry name as `readdir` returns it: never empty. */
  type Name = s: string | |s| > 0 witness "."

  /** What `lstat` finds at a path. A directory lists its names in `readdir` order
      (which may include `.` and `..`); `readable` is whether `opendir` succeeds on it
      and `closeOk` whether `closedir` does. A symbolic link holds the path it points to. */
  datatype Entry =
    | Dir(children: seq<Name>, readable: bool, closeOk: bool)
    | File
    | Symlink(target: Path)

  type Fs = map<Path, Entry>

  datatype Errno = ENOENT | ENOTDIR | EACCES | ELOOP

  /** The number of links `stat` follows before it gives up with ELOOP (Linux's
      MAXSYMLINKS). */
  const MAXSYMLINKS: nat := 40

  /** `lstat`: the entry itself, symbolic links included. */
  function Lstat(fs: Fs, p: Path): (r: Result<Entry, Errno>)
    ensures r.Ok? <==> p in fs
    ensures r.Ok? ==> r.value == fs[p]
  {
    if p in fs then Ok(fs[p]) else Err(ENOENT)
  }

  /** Following links from `p` with `hops` more allowed. */
  function Resolve(fs: Fs, p: Path, hops: nat): (r: Result<Entry, Errno>)
    ensures r.Ok? ==> !r.value.Symlink?
    ensures r.Err? ==> r.error == ENOENT || r.error == ELOOP
    decreases hops
  {
    if p !in fs then Err(ENOENT)
    else match fs[p]
      case Symlink(t) => if hops == 0 then Err(ELOOP) else Resolve(fs, t, hops - 1)
      case e => Ok(e)
  }

  /** `stat`: the entry at the end of the chain of links. */
  function Stat(fs: Fs, p: Path): (r: Result<Entry, Errno>)
    ensures r.Ok? ==> !r.value.Symlink?
  {
    Resolve(fs, p, MAXSYMLINKS)
  }

  /** `opendir` followed by `readdir` until NULL: the names, in order, and whether the
      `closedir` that ends the listing succeeds. */
  function Opendir(fs: Fs, p: Path): (r: Result<Entry, Errno>)
    ensures r.Ok? ==> r.value.Dir? && r.value.readable
    ensures r.Ok? <==> Stat(fs, p).Ok? && Stat(fs, p).value.Dir? && Stat(fs, p).value.readable
  {
    match Stat(fs, p)
    case Err(e) => Err(e)
    case Ok(e) => if !e.Dir? then Err(ENOTDIR) else if !e.readable then Err(EACCES) else Ok(e)
  }

  /** A name `readdir` lists that the walkers skip. */
  predicate IsDotOrDotDot(name: string)
  {
    name == "." || name == ".."
  }

  /** A longer path than any the file system holds is not in it. */
  ghost function MaxPathLength(paths: set<Path>): (m: nat)
    ensures forall p | p in paths :: |p| <= m
  {
    if paths == {} then 0
    else
      var p :| p in paths;
      var rest := MaxPathLength(paths - {p});
      if |p| > rest then |p| else rest
  }
}
