/**
 * An abstract local filesystem: the part of `os`, `os.path` and `shutil` that the
 * file sorter relies on. A path is the list of its components, the root being [],
 * so `os.path.join`, `os.path.dirname` and `os.path.basename` are sequence operations.
 * An operation that may raise returns `None`; a fault flag stands for the I/O errors
 * (permissions, full disk, ...) that the state alone does not determine.
 */
module FileSystem {
  import opened Wrappers

  type Path = seq<string>
  type Bytes = seq<bv8>

  /** Regular files with their contents, and the set of directories. */
  datatype Fs = Fs(files: map<Path, Bytes>, dirs: set<Path>)

  /** The one filesystem every component of the application reads and changes. */
  class Disk {
    var fs: Fs

    constructor (initial: Fs)
      ensures fs == initial
    {
      fs := initial;
    }
  }

  function Join(dir: Path, name: string): (p: Path)
    ensures Dirname(p) == dir && Basename(p) == name
  {
    dir + [name]
  }

  function Dirname(p: Path): Path
  {
    if p == [] then [] else p[..|p| - 1]
  }

  function Basename(p: Path): string
  {
    if p == [] then "" else p[|p| - 1]
  }

  /** `os.path.exists`: true of files and of directories. */
  predicate Exists(fs: Fs, p: Path)
  {
    p in fs.files || p in fs.dirs
  }

  /** Every path that exists; finite, which bounds any search for a free name. */
  function Occupied(fs: Fs): (s: set<Path>)
    ensures forall p :: p in s <==> Exists(fs, p)
  {
    fs.files.Keys + fs.dirs
  }

  /** The paths `os.makedirs(d)` creates: d and every ancestor of d. */
  function Ancestors(d: Path): set<Path>
  {
    set k | 0 <= k <= |d| :: d[..k]
  }

  /**
   * `os.makedirs(d)`: raises when d already exists or when one of its ancestors
   * (or d itself) is a regular file; otherwise creates d with all its ancestors.
   */
  function MakeDirs(fs: Fs, d: Path, fault: bool): (r: Option<Fs>)
    ensures r.Some? <==> !fault && !Exists(fs, d) && forall k :: 0 <= k <= |d| ==> d[..k] !in fs.files
    ensures r.Some? ==> r.value.files == fs.files && fs.dirs <= r.value.dirs && d in r.value.dirs
    ensures r.Some? ==> forall p :: p in r.value.dirs && p !in fs.dirs ==> |p| <= |d| && p == d[..|p|]
  {
    if fault || Exists(fs, d) || exists k :: 0 <= k <= |d| && d[..k] in fs.files then None
    else
      assert d == d[..|d|];
      Some(Fs(fs.files, fs.dirs + Ancestors(d)))
  }

  /** `os.makedirs(d)` creates nothing but ancestors of d. */
  lemma MakeDirsWithin(fs: Fs, d: Path, fault: bool)
    ensures MakeDirs(fs, d, fault).Some? ==> MakeDirs(fs, d, fault).value.dirs <= fs.dirs + Ancestors(d)
  {
    var made := MakeDirs(fs, d, fault);
    if made.Some? {
      forall q | q in made.value.dirs ensures q in fs.dirs + Ancestors(d) {
        if q !in fs.dirs {
          assert q == d[..|q|];
        }
      }
    }
  }

  /** Where `shutil.move(src, dst)` or `shutil.copy2(src, dst)` puts the file: into dst when dst is a directory. */
  function Target(fs: Fs, src: Path, dst: Path): Path
  {
    if dst in fs.dirs then dst + [Basename(src)] else dst
  }

  /**
   * `shutil.move(src, dst)` preceded by the `os.stat(src)` the sorter makes:
   * raises when src is not a file (a directory source, which `shutil.move` would move, is not
   * modelled), when the target is a directory, when dst is a directory
   * that already holds an entry of that name, or when the target's directory is missing.
   * An existing file at the target is replaced.
   */
  function Move(fs: Fs, src: Path, dst: Path, fault: bool): (r: Option<Fs>)
    ensures r.Some? ==> src in fs.files && Dirname(Target(fs, src, dst)) in fs.dirs
    ensures r.Some? ==> r.value.dirs == fs.dirs
    ensures r.Some? ==> var t := Target(fs, src, dst);
      t in r.value.files && r.value.files[t] == fs.files[src] && (src != t ==> src !in r.value.files)
    ensures r.Some? ==> forall p :: p != src && p != Target(fs, src, dst) ==>
      (p in r.value.files <==> p in fs.files) && (p in fs.files ==> r.value.files[p] == fs.files[p])
    ensures !fault && src in fs.files && dst !in fs.dirs && Dirname(dst) in fs.dirs ==> r.Some?
  {
    var t := Target(fs, src, dst);
    if fault || src !in fs.files || t in fs.dirs || (dst in fs.dirs && t in fs.files) || Dirname(t) !in fs.dirs
    then None
    else Some(Fs((fs.files - {src})[t := fs.files[src]], fs.dirs))
  }

  /**
   * `shutil.copy2(src, dst)`: like Move but keeps src, and raises when the target is src itself.
   */
  function Copy(fs: Fs, src: Path, dst: Path, fault: bool): (r: Option<Fs>)
    ensures r.Some? ==> src in fs.files && src != Target(fs, src, dst) && Dirname(Target(fs, src, dst)) in fs.dirs
    ensures r.Some? ==> r.value.dirs == fs.dirs
    ensures r.Some? ==> r.value.files == fs.files[Target(fs, src, dst) := fs.files[src]]
    ensures !fault && src in fs.files && dst !in fs.dirs && dst != src && Dirname(dst) in fs.dirs ==> r.Some?
  {
    var t := Target(fs, src, dst);
    if fault || src !in fs.files || t in fs.dirs || t == src || Dirname(t) !in fs.dirs
    then None
    else Some(Fs(fs.files[t := fs.files[src]], fs.dirs))
  }

  /**
   * `[e.name for e in os.scandir(dir) if e.is_file()]`: the names of the regular
   * files directly inside dir, each once, in some fixed order.
   */
  ghost predicate IsListing(fs: Fs, dir: Path, listing: seq<string>)
  {
    && dir in fs.dirs
    && (forall i, j :: 0 <= i < j < |listing| ==> listing[i] != listing[j])
    && (forall i :: 0 <= i < |listing| ==> dir + [listing[i]] in fs.files)
    && (forall p :: p in fs.files && |p| == |dir| + 1 && p[..|dir|] == dir ==> p[|dir|] in listing)
  }
}
