/**
 * The file-operation helpers: duplicate-name resolution, the hidden-file test,
 * a single move, and the backup / restore pair with its single-slot `backupDir`.
 */
module FileOperations {
  import opened Wrappers
  import opened FileSystem
  import opened Strings

  /** `f"{name}_{counter}{ext}"` where name and ext come from `os.path.splitext(filename)`. */
  function SuffixedName(filename: string, k: nat): string
  {
    SplitExt(filename).0 + "_" + NatToString(k) + SplitExt(filename).1
  }

  /** The k-th name probed for p: the same directory, the k-th suffixed file name. */
  function Candidate(p: Path, k: nat): (q: Path)
    ensures Dirname(q) == Dirname(p) && |q| == |Dirname(p)| + 1
  {
    Join(Dirname(p), SuffixedName(Basename(p), k))
  }

  lemma SuffixedNameInjective(filename: string, a: nat, b: nat)
    requires SuffixedName(filename, a) == SuffixedName(filename, b)
    ensures a == b
  {
    var stem, ext := SplitExt(filename).0 + "_", SplitExt(filename).1;
    var sa, sb := NatToString(a), NatToString(b);
    assert SuffixedName(filename, a) == stem + sa + ext;
    assert SuffixedName(filename, b) == stem + sb + ext;
    assert |sa| == |sb|;
    assert sa == (stem + sa + ext)[|stem|..|stem| + |sa|];
    assert sb == (stem + sb + ext)[|stem|..|stem| + |sb|];
    NatToStringInjective(a, b);
  }

  /** Distinct counters give distinct paths, so only finitely many of them can be taken. */
  lemma CandidateInjective(p: Path, a: nat, b: nat)
    requires Candidate(p, a) == Candidate(p, b)
    ensures a == b
  {
    assert Basename(Candidate(p, a)) == SuffixedName(Basename(p), a);
    assert Basename(Candidate(p, b)) == SuffixedName(Basename(p), b);
    SuffixedNameInjective(Basename(p), a, b);
  }

  lemma CandidatesDiffer(p: Path, a: nat, b: nat)
    requires a != b
    ensures Candidate(p, a) != Candidate(p, b)
  {
    if Candidate(p, a) == Candidate(p, b) {
      CandidateInjective(p, a, b);
    }
  }

  /** A sequence without repetitions has as many distinct elements as it is long. */
  lemma {:induction false} DistinctElements<T>(s: seq<T>)
    requires forall i, j :: 0 <= i < j < |s| ==> s[i] != s[j]
    ensures |set x | x in s| == |s|
  {
    if s != [] {
      var init, last := s[..|s| - 1], s[|s| - 1];
      DistinctElements(init);
      assert (set x | x in s) == (set x | x in init) + {last};
      assert last !in (set x | x in init);
    }
  }

  lemma SubsetSize<T>(a: set<T>, b: set<T>)
    requires a <= b
    ensures |a| <= |b|
  {
    assert b == a + (b - a);
  }

  /** The first k probed names for p are all taken. */
  ghost predicate AllTaken(fs: Fs, p: Path, k: int)
  {
    forall j :: 1 <= j <= k ==> Exists(fs, Candidate(p, j))
  }

  /** The first k names probed for p, in order. */
  function Probes(p: Path, k: nat): (r: seq<Path>)
    ensures |r| == k && forall j :: 0 <= j < k ==> r[j] == Candidate(p, j + 1)
  {
    if k == 0 then [] else Probes(p, k - 1) + [Candidate(p, k)]
  }

  lemma ProbesDistinct(p: Path, k: nat)
    ensures forall i, j :: 0 <= i < j < k ==> Probes(p, k)[i] != Probes(p, k)[j]
  {
    forall i, j | 0 <= i < j < k ensures Probes(p, k)[i] != Probes(p, k)[j] {
      CandidatesDiffer(p, i + 1, j + 1);
    }
  }

  lemma ProbesTaken(fs: Fs, p: Path, k: nat)
    requires AllTaken(fs, p, k)
    ensures (set x | x in Probes(p, k)) <= Occupied(fs)
  {
    forall x | x in Probes(p, k) ensures Exists(fs, x) {
      var i :| 0 <= i < k && Probes(p, k)[i] == x;
      assert Exists(fs, Candidate(p, i + 1));
    }
  }

  /** If the first k probes are all taken, there are at least k existing paths. */
  lemma ProbesBounded(fs: Fs, p: Path, k: nat)
    requires AllTaken(fs, p, k)
    ensures k <= |Occupied(fs)|
  {
    ProbesDistinct(p, k);
    DistinctElements(Probes(p, k));
    ProbesTaken(fs, p, k);
    SubsetSize((set x | x in Probes(p, k)), Occupied(fs));
  }

  /** The probing loop from counter k: the first free candidate at or after k. */
  function Probe(fs: Fs, p: Path, k: nat): (r: Path)
    requires k >= 1
    requires forall j :: 1 <= j < k ==> Exists(fs, Candidate(p, j))
    ensures !Exists(fs, r)
    ensures exists n :: (k <= n && r == Candidate(p, n)
      && forall j :: 1 <= j < n ==> Exists(fs, Candidate(p, j)))
    decreases |Occupied(fs)| + 1 - k
  {
    ProbesBounded(fs, p, k - 1);
    if !Exists(fs, Candidate(p, k)) then Candidate(p, k) else Probe(fs, p, k + 1)
  }

  /**
   * `handle_duplicate`: a free path is returned as it is; a taken one becomes
   * `name_N.ext` in the same directory for the smallest N >= 1 that is free.
   */
  function ResolvePath(fs: Fs, p: Path): (r: Path)
    ensures !Exists(fs, r)
    ensures Dirname(r) == Dirname(p)
    ensures !Exists(fs, p) ==> r == p
    ensures Exists(fs, p) ==> exists n :: (1 <= n && r == Candidate(p, n)
      && forall j :: 1 <= j < n ==> Exists(fs, Candidate(p, j)))
  {
    if !Exists(fs, p) then p else Probe(fs, p, 1)
  }

  /** The counter of a resolved path is unique: it is the smallest free one. */
  lemma ResolvedCounterIsSmallest(fs: Fs, p: Path, n: nat)
    requires Exists(fs, p) && 1 <= n && !Exists(fs, Candidate(p, n))
    requires forall j :: 1 <= j < n ==> Exists(fs, Candidate(p, j))
    ensures ResolvePath(fs, p) == Candidate(p, n)
  {
    var r := ResolvePath(fs, p);
    var m :| 1 <= m && r == Candidate(p, m) && forall j :: 1 <= j < m ==> Exists(fs, Candidate(p, j));
    assert !Exists(fs, Candidate(p, m));
    assert !Exists(fs, Candidate(p, n));
  }

  /** `handle_duplicate`, with its probing loop. */
  method HandleDuplicate(fs: Fs, destPath: Path) returns (r: Path)
    ensures r == ResolvePath(fs, destPath)
  {
    if !Exists(fs, destPath) {
      return destPath;
    }
    var directory, filename := Dirname(destPath), Basename(destPath);
    var name, ext := SplitExt(filename).0, SplitExt(filename).1;
    var counter := 1;
    var newPath := destPath;
    ghost var bound := |Occupied(fs)|;
    while Exists(fs, newPath)
      invariant counter >= 1
      invariant AllTaken(fs, destPath, counter - 2)
      invariant counter == 1 ==> newPath == destPath
      invariant counter > 1 ==> newPath == Candidate(destPath, counter - 1)
      decreases bound + 1 - counter
    {
      ProbesBounded(fs, destPath, counter - 1);
      newPath := Join(directory, name + "_" + NatToString(counter) + ext);
      assert newPath == Candidate(destPath, counter);
      counter := counter + 1;
    }
    ResolvedCounterIsSmallest(fs, destPath, counter - 1);
    r := newPath;
  }

  /** `is_system_or_hidden_file`: the name starts with "." or with "~$". */
  predicate IsSystemOrHiddenFile(filename: string)
  {
    "." <= filename || "~$" <= filename
  }

  lemma HiddenMeansPrefix(filename: string)
    ensures IsSystemOrHiddenFile(filename) <==>
      (|filename| >= 1 && filename[0] == '.') || (|filename| >= 2 && filename[0] == '~' && filename[1] == '$')
  {
    if |filename| >= 2 && filename[0] == '~' && filename[1] == '$' {
      assert filename[..2] == "~$";
    }
    if |filename| >= 1 && filename[0] == '.' {
      assert filename[..1] == ".";
    }
  }

  /**
   * `move_file`: create the destination's directory when it is missing, then move.
   * Faults stand for errors of makedirs, of the move and of `os.utime` afterwards.
   */
  function MoveFileSpec(fs: Fs, src: Path, dst: Path, mkdirFault: bool, moveFault: bool, timesFault: bool): (r: (bool, Fs))
    ensures r.0 ==> Dirname(dst) in r.1.dirs
    ensures r.0 ==> var t := Target(r.1, src, dst);
      src in fs.files && t in r.1.files && r.1.files[t] == fs.files[src] && (t != src ==> src !in r.1.files)
    ensures r.0 && dst !in r.1.dirs ==> dst in r.1.files && r.1.files[dst] == fs.files[src]
    ensures !r.0 && !timesFault ==> r.1.files == fs.files
  {
    var destDir := Dirname(dst);
    var made := if !Exists(fs, destDir) then MakeDirs(fs, destDir, mkdirFault) else Some(fs);
    if made.None? then (false, fs)
    else if destDir !in made.value.dirs then (false, made.value)
    else
      match Move(made.value, src, dst, moveFault)
      case None => (false, made.value)
      case Some(moved) => (!timesFault, moved)
  }

  /**
   * `move_file` touches no file but src and the place it moves it to, and creates no
   * directory but the destination's directory and its ancestors.
   */
  lemma MoveFileFrame(fs: Fs, src: Path, dst: Path, mkdirFault: bool, moveFault: bool, timesFault: bool)
    ensures var r := MoveFileSpec(fs, src, dst, mkdirFault, moveFault, timesFault);
      && (forall p :: p != src && p != Target(r.1, src, dst) ==> SameAt(fs, r.1, p))
      && fs.dirs <= r.1.dirs <= fs.dirs + Ancestors(Dirname(dst))
  {
    MakeDirsWithin(fs, Dirname(dst), mkdirFault);
  }

  /** Where a copy loop sends the file called name: into one directory, or to that name in a directory. */
  datatype CopyDest = IntoDir(dir: Path) | SameNameIn(parent: Path) {
    function For(name: string): Path
    {
      match this
      case IntoDir(d) => d
      case SameNameIn(d) => d + [name]
    }
  }

  /** Copy each listed file of srcDir (the first n of them) to dst(name); stop at the first failure. */
  function CopyPrefix(fs: Fs, srcDir: Path, names: seq<string>, dst: CopyDest, fault: nat -> bool, n: nat): (r: (bool, Fs))
    requires n <= |names|
    ensures r.1.dirs == fs.dirs
  {
    if n == 0 then (true, fs)
    else
      var (ok, f) := CopyPrefix(fs, srcDir, names, dst, fault, n - 1);
      if !ok then (false, f)
      else match Copy(f, srcDir + [names[n - 1]], dst.For(names[n - 1]), fault(n - 1))
        case None => (false, f)
        case Some(g) => (true, g)
  }

  /** Where the k-th copy of a loop lands. */
  function CopyTarget(fs: Fs, srcDir: Path, names: seq<string>, dst: CopyDest, k: nat): Path
    requires k < |names|
  {
    Target(fs, srcDir + [names[k]], dst.For(names[k]))
  }

  ghost function CopyTargets(fs: Fs, srcDir: Path, names: seq<string>, dst: CopyDest, n: nat): set<Path>
    requires n <= |names|
  {
    set k | 0 <= k < n :: CopyTarget(fs, srcDir, names, dst, k)
  }

  ghost predicate SameAt(a: Fs, b: Fs, p: Path)
  {
    (p in b.files <==> p in a.files) && (p in a.files ==> b.files[p] == a.files[p])
  }

  ghost predicate CopiedAt(fs: Fs, f: Fs, src: Path, t: Path)
  {
    src in fs.files && t in f.files && f.files[t] == fs.files[src]
  }

  ghost predicate DistinctTargets(fs: Fs, srcDir: Path, names: seq<string>, dst: CopyDest, n: nat)
    requires n <= |names|
  {
    && (forall k, l :: 0 <= k < l < n ==> CopyTarget(fs, srcDir, names, dst, k) != CopyTarget(fs, srcDir, names, dst, l))
    && (forall k, x :: 0 <= k < n ==> CopyTarget(fs, srcDir, names, dst, k) != srcDir + [x])
  }

  /** What the first n copies have done to fs, ending in f. */
  ghost predicate CopyEffect(fs: Fs, srcDir: Path, names: seq<string>, dst: CopyDest, n: nat, ok: bool, f: Fs)
    requires n <= |names|
  {
    && (ok ==> forall k :: 0 <= k < n ==> CopiedAt(fs, f, srcDir + [names[k]], CopyTarget(fs, srcDir, names, dst, k)))
    && (forall p :: p !in CopyTargets(fs, srcDir, names, dst, n) ==> SameAt(fs, f, p))
  }

  lemma CopyStep(fs: Fs, srcDir: Path, names: seq<string>, dst: CopyDest, fault: nat -> bool, n: nat, f: Fs)
    requires 0 < n <= |names| && f.dirs == fs.dirs
    requires DistinctTargets(fs, srcDir, names, dst, n)
    requires CopyEffect(fs, srcDir, names, dst, n - 1, true, f)
    ensures match Copy(f, srcDir + [names[n - 1]], dst.For(names[n - 1]), fault(n - 1))
      case None => CopyEffect(fs, srcDir, names, dst, n, false, f)
      case Some(g) => CopyEffect(fs, srcDir, names, dst, n, true, g)
  {
    assert CopyTargets(fs, srcDir, names, dst, n - 1) <= CopyTargets(fs, srcDir, names, dst, n);
    var c := Copy(f, srcDir + [names[n - 1]], dst.For(names[n - 1]), fault(n - 1));
    if c.Some? {
      CopyStepDone(fs, srcDir, names, dst, fault(n - 1), n, f, c.value);
    }
  }

  /** The n-th copy went through: it adds its target to those of the first n - 1. */
  lemma CopyStepDone(fs: Fs, srcDir: Path, names: seq<string>, dst: CopyDest, fault: bool, n: nat, f: Fs, g: Fs)
    requires 0 < n <= |names| && f.dirs == fs.dirs
    requires DistinctTargets(fs, srcDir, names, dst, n)
    requires CopyEffect(fs, srcDir, names, dst, n - 1, true, f)
    requires Copy(f, srcDir + [names[n - 1]], dst.For(names[n - 1]), fault) == Some(g)
    ensures CopyEffect(fs, srcDir, names, dst, n, true, g)
  {
    var src := srcDir + [names[n - 1]];
    var t := CopyTarget(fs, srcDir, names, dst, n - 1);
    assert t in CopyTargets(fs, srcDir, names, dst, n);
    assert CopyTargets(fs, srcDir, names, dst, n - 1) <= CopyTargets(fs, srcDir, names, dst, n);
    assert Target(f, src, dst.For(names[n - 1])) == t;
    assert src !in CopyTargets(fs, srcDir, names, dst, n - 1);
    assert SameAt(fs, f, src);
    forall k | 0 <= k < n - 1
      ensures CopiedAt(fs, g, srcDir + [names[k]], CopyTarget(fs, srcDir, names, dst, k))
    {
      assert CopiedAt(fs, f, srcDir + [names[k]], CopyTarget(fs, srcDir, names, dst, k));
    }
    forall p | p !in CopyTargets(fs, srcDir, names, dst, n) ensures SameAt(fs, g, p) {
      assert SameAt(fs, f, p);
    }
  }

  /**
   * When the targets of the copies are pairwise distinct and never one of the
   * sources, a successful run leaves every target holding its source's content, and
   * any run leaves every other path as it was.
   */
  lemma {:induction false} CopyPrefixEffect(fs: Fs, srcDir: Path, names: seq<string>, dst: CopyDest, fault: nat -> bool, n: nat)
    requires n <= |names|
    requires DistinctTargets(fs, srcDir, names, dst, n)
    ensures CopyEffect(fs, srcDir, names, dst, n, CopyPrefix(fs, srcDir, names, dst, fault, n).0, CopyPrefix(fs, srcDir, names, dst, fault, n).1)
  {
    if n > 0 {
      CopyPrefixEffect(fs, srcDir, names, dst, fault, n - 1);
      var (ok, f) := CopyPrefix(fs, srcDir, names, dst, fault, n - 1);
      assert CopyTargets(fs, srcDir, names, dst, n - 1) <= CopyTargets(fs, srcDir, names, dst, n);
      if ok {
        CopyStep(fs, srcDir, names, dst, fault, n, f);
      }
    }
  }

  /** One more entry of a copy loop that has succeeded so far. */
  lemma CopyPrefixNext(fs: Fs, srcDir: Path, names: seq<string>, dst: CopyDest, fault: nat -> bool, n: nat, f: Fs)
    requires n < |names| && CopyPrefix(fs, srcDir, names, dst, fault, n) == (true, f)
    ensures var c := Copy(f, srcDir + [names[n]], dst.For(names[n]), fault(n));
      CopyPrefix(fs, srcDir, names, dst, fault, n + 1) == if c.Some? then (true, c.value) else (false, f)
  {
  }

  /** Once a copy has failed, the later entries are not attempted. */
  lemma {:induction false} CopyPrefixStops(fs: Fs, srcDir: Path, names: seq<string>, dst: CopyDest, fault: nat -> bool, n: nat, m: nat)
    requires n <= m <= |names|
    requires !CopyPrefix(fs, srcDir, names, dst, fault, n).0
    ensures CopyPrefix(fs, srcDir, names, dst, fault, m) == CopyPrefix(fs, srcDir, names, dst, fault, n)
  {
    if m > n {
      CopyPrefixStops(fs, srcDir, names, dst, fault, n, m - 1);
    }
  }

  /** `backup_<basename>_<t>` next to the source directory. */
  function BackupPath(sourceDir: Path, now: nat): (p: Path)
    ensures Dirname(p) == Dirname(sourceDir) && |p| == |Dirname(sourceDir)| + 1
  {
    Join(Dirname(sourceDir), "backup_" + Basename(sourceDir) + "_" + NatToString(now))
  }

  /** A backup path is never the path of a file inside the source directory. */
  lemma BackupOutsideSource(sourceDir: Path, now: nat, x: string, y: string)
    ensures BackupPath(sourceDir, now) + [y] != sourceDir + [x]
  {
    var b := BackupPath(sourceDir, now);
    if sourceDir != [] {
      assert |b| == |sourceDir|;
      assert b[|b| - 1] != sourceDir[|sourceDir| - 1] by {
        assert |b[|b| - 1]| > |Basename(sourceDir)|;
      }
      assert b[..|sourceDir|][|sourceDir| - 1] != (sourceDir + [x])[..|sourceDir|][|sourceDir| - 1];
    }
  }

  /**
   * `create_backup` against the filesystem: make the backup directory if needed,
   * then copy every listed file of sourceDir into it. The result is the backup path,
   * or None after any error.
   */
  function BackupSpec(fs: Fs, sourceDir: Path, listing: seq<string>, now: nat, mkdirFault: bool, copyFault: nat -> bool): (r: (Option<Path>, Fs))
    ensures r.0.Some? ==> r.0.value == BackupPath(sourceDir, now)
    ensures r.1.files.Keys >= fs.files.Keys && fs.dirs <= r.1.dirs
  {
    var bp := BackupPath(sourceDir, now);
    var made := if !Exists(fs, bp) then MakeDirs(fs, bp, mkdirFault) else Some(fs);
    if made.None? then (None, fs)
    else if sourceDir !in fs.dirs then (None, made.value)
    else
      var (ok, f) := CopyPrefix(made.value, sourceDir, listing, IntoDir(bp), copyFault, |listing|);
      CopyPrefixKeepsFiles(made.value, sourceDir, listing, IntoDir(bp), copyFault, |listing|);
      (if ok then Some(bp) else None, f)
  }

  lemma {:induction false} CopyPrefixKeepsFiles(fs: Fs, srcDir: Path, names: seq<string>, dst: CopyDest, fault: nat -> bool, n: nat)
    requires n <= |names|
    ensures fs.files.Keys <= CopyPrefix(fs, srcDir, names, dst, fault, n).1.files.Keys
  {
    if n > 0 {
      CopyPrefixKeepsFiles(fs, srcDir, names, dst, fault, n - 1);
    }
  }

  /**
   * A successful backup holds a copy of every regular top-level file of the source
   * directory, and the source files are left as they were (copied, never moved),
   * provided the backup path was not itself an existing file.
   */
  lemma BackupCopiesEveryFile(fs: Fs, sourceDir: Path, listing: seq<string>, now: nat, mkdirFault: bool, copyFault: nat -> bool)
    requires IsListing(fs, sourceDir, listing)
    requires BackupPath(sourceDir, now) !in fs.files
    ensures var (r, f) := BackupSpec(fs, sourceDir, listing, now, mkdirFault, copyFault);
      && (r.Some? ==> forall i :: 0 <= i < |listing| ==>
            var b := BackupPath(sourceDir, now) + [listing[i]];
            b in f.files && f.files[b] == fs.files[sourceDir + [listing[i]]])
      && (forall x :: sourceDir + [x] in fs.files ==>
            sourceDir + [x] in f.files && f.files[sourceDir + [x]] == fs.files[sourceDir + [x]])
  {
    var bp := BackupPath(sourceDir, now);
    var made := if !Exists(fs, bp) then MakeDirs(fs, bp, mkdirFault) else Some(fs);
    if made.Some? {
      var m := made.value;
      var dst := IntoDir(bp);
      assert bp in m.dirs;
      assert m.files == fs.files;
      forall k | 0 <= k < |listing| ensures CopyTarget(m, sourceDir, listing, dst, k) == bp + [listing[k]] {
      }
      forall k, l | 0 <= k < l < |listing|
        ensures CopyTarget(m, sourceDir, listing, dst, k) != CopyTarget(m, sourceDir, listing, dst, l)
      {
        assert (bp + [listing[k]])[|bp|] != (bp + [listing[l]])[|bp|];
      }
      forall k, x | 0 <= k < |listing| ensures CopyTarget(m, sourceDir, listing, dst, k) != sourceDir + [x] {
        BackupOutsideSource(sourceDir, now, x, listing[k]);
      }
      assert DistinctTargets(m, sourceDir, listing, dst, |listing|);
      CopyPrefixEffect(m, sourceDir, listing, dst, copyFault, |listing|);
      var (ok, f) := CopyPrefix(m, sourceDir, listing, dst, copyFault, |listing|);
      if ok {
        forall i | 0 <= i < |listing|
          ensures CopiedAt(m, f, sourceDir + [listing[i]], bp + [listing[i]])
        {
          assert CopiedAt(m, f, sourceDir + [listing[i]], CopyTarget(m, sourceDir, listing, dst, i));
        }
      }
      forall x | sourceDir + [x] in fs.files ensures SameAt(m, f, sourceDir + [x]) {
        assert sourceDir + [x] !in CopyTargets(m, sourceDir, listing, dst, |listing|);
      }
    }
  }

  /**
   * `restore_from_backup` against the filesystem: nothing happens without a recorded
   * backup that still exists; otherwise every listed backup file is copied into the
   * backup's parent directory, stopping at the first error.
   */
  function RestoreSpec(fs: Fs, backupDir: Option<Path>, listing: seq<string>, copyFault: nat -> bool): (r: (bool, Fs))
    ensures backupDir.None? || !Exists(fs, backupDir.value) ==> r == (false, fs)
    ensures r.1.dirs == fs.dirs
  {
    if backupDir.None? || !Exists(fs, backupDir.value) then (false, fs)
    else if backupDir.value !in fs.dirs then (false, fs)
    else
      var original := Dirname(backupDir.value);
      CopyPrefix(fs, backupDir.value, listing, SameNameIn(original), copyFault, |listing|)
  }

  /**
   * Copying the listed files of dir to the same names in another directory parent:
   * when it succeeds, every parent/name holds the content dir/name had.
   */
  lemma CopyBackEveryFile(fs: Fs, dir: Path, parent: Path, listing: seq<string>, copyFault: nat -> bool)
    requires IsListing(fs, dir, listing) && parent != dir
    requires forall i :: 0 <= i < |listing| ==> parent + [listing[i]] !in fs.dirs
    ensures var (ok, f) := CopyPrefix(fs, dir, listing, SameNameIn(parent), copyFault, |listing|);
      ok ==> forall i :: 0 <= i < |listing| ==>
        var t := parent + [listing[i]];
        t in f.files && f.files[t] == fs.files[dir + [listing[i]]]
  {
    var dst := SameNameIn(parent);
    forall k | 0 <= k < |listing| ensures CopyTarget(fs, dir, listing, dst, k) == parent + [listing[k]] {
    }
    forall k, l | 0 <= k < l < |listing|
      ensures CopyTarget(fs, dir, listing, dst, k) != CopyTarget(fs, dir, listing, dst, l)
    {
      assert (parent + [listing[k]])[|parent|] != (parent + [listing[l]])[|parent|];
    }
    forall k, x | 0 <= k < |listing| ensures CopyTarget(fs, dir, listing, dst, k) != dir + [x] {
      if |parent| == |dir| {
        assert (parent + [listing[k]])[..|parent|] == parent;
        assert (dir + [x])[..|dir|] == dir;
      }
    }
    assert DistinctTargets(fs, dir, listing, dst, |listing|);
    CopyPrefixEffect(fs, dir, listing, dst, copyFault, |listing|);
    var (ok, f) := CopyPrefix(fs, dir, listing, dst, copyFault, |listing|);
    if ok {
      forall i | 0 <= i < |listing| ensures CopiedAt(fs, f, dir + [listing[i]], parent + [listing[i]]) {
        assert CopiedAt(fs, f, dir + [listing[i]], CopyTarget(fs, dir, listing, dst, i));
      }
    }
  }

  /**
   * A successful restore puts a copy of each backup file at the same name in the
   * backup's parent directory (overwriting what was there), when no such name is a directory.
   */
  lemma RestoreCopiesEveryFile(fs: Fs, backupDir: Path, listing: seq<string>, copyFault: nat -> bool)
    requires IsListing(fs, backupDir, listing) && backupDir != []
    requires forall i :: 0 <= i < |listing| ==> Dirname(backupDir) + [listing[i]] !in fs.dirs
    ensures var (ok, f) := RestoreSpec(fs, Some(backupDir), listing, copyFault);
      ok ==> forall i :: 0 <= i < |listing| ==>
        var t := Dirname(backupDir) + [listing[i]];
        t in f.files && f.files[t] == fs.files[backupDir + [listing[i]]]
  {
    CopyBackEveryFile(fs, backupDir, Dirname(backupDir), listing, copyFault);
  }

  /** A copy loop leaves every path that is none of its targets as it was. */
  lemma {:induction false} CopyPrefixUntouched(fs: Fs, srcDir: Path, names: seq<string>, dst: CopyDest, fault: nat -> bool, n: nat, p: Path)
    requires n <= |names| && p !in CopyTargets(fs, srcDir, names, dst, n)
    ensures SameAt(fs, CopyPrefix(fs, srcDir, names, dst, fault, n).1, p)
  {
    if n > 0 {
      assert CopyTargets(fs, srcDir, names, dst, n - 1) <= CopyTargets(fs, srcDir, names, dst, n);
      CopyPrefixUntouched(fs, srcDir, names, dst, fault, n - 1, p);
      var (ok, f) := CopyPrefix(fs, srcDir, names, dst, fault, n - 1);
      assert p != CopyTarget(fs, srcDir, names, dst, n - 1);
    }
  }

  /**
   * As written, the restore of a backup made by `create_backup` copies into the
   * parent of the backed-up directory: unless that directory is the root, or a
   * backup file carries the directory's own name, no file inside the source directory
   * is restored or touched at all.
   */
  lemma RestoreMissesSource(fs: Fs, sourceDir: Path, now: nat, names: seq<string>, copyFault: nat -> bool)
    requires sourceDir != []
    requires forall i :: 0 <= i < |names| ==> names[i] != Basename(sourceDir)
    ensures var (ok, f) := RestoreSpec(fs, Some(BackupPath(sourceDir, now)), names, copyFault);
      forall x :: SameAt(fs, f, sourceDir + [x])
  {
    var bp := BackupPath(sourceDir, now);
    var parent := Dirname(bp);
    assert parent == Dirname(sourceDir);
    assert sourceDir == parent + [Basename(sourceDir)];
    if Exists(fs, bp) && bp in fs.dirs {
      forall x ensures SameAt(fs, RestoreSpec(fs, Some(bp), names, copyFault).1, sourceDir + [x]) {
        var p := sourceDir + [x];
        forall k | 0 <= k < |names| ensures CopyTarget(fs, bp, names, SameNameIn(parent), k) != p {
          var q := parent + [names[k]];
          assert |q| != |p|;
          assert (q + [Basename(bp + [names[k]])])[|parent|] == names[k] != p[|parent|];
        }
        CopyPrefixUntouched(fs, bp, names, SameNameIn(parent), copyFault, |names|, p);
      }
    }
  }

  /** The restore as evidently intended: the backup files go back into the directory they came from. */
  function RestoreIntoSpec(fs: Fs, backupDir: Option<Path>, sourceDir: Path, listing: seq<string>, copyFault: nat -> bool): (r: (bool, Fs))
    ensures backupDir.None? || !Exists(fs, backupDir.value) ==> r == (false, fs)
    ensures r.1.dirs == fs.dirs
  {
    if backupDir.None? || !Exists(fs, backupDir.value) then (false, fs)
    else if backupDir.value !in fs.dirs then (false, fs)
    else CopyPrefix(fs, backupDir.value, listing, SameNameIn(sourceDir), copyFault, |listing|)
  }

  /**
   * Backup followed by the intended restore is a round trip: if the backup's files are
   * still as the backup left them, a successful restore gives every file that was in
   * the source directory at backup time its content back.
   */
  lemma BackupRestoreRoundTrip(fs0: Fs, sourceDir: Path, listing: seq<string>, now: nat, mkdirFault: bool,
                               copyFault: nat -> bool, fs1: Fs, later: seq<string>, restoreFault: nat -> bool)
    requires IsListing(fs0, sourceDir, listing)
    requires BackupPath(sourceDir, now) !in fs0.files
    requires BackupSpec(fs0, sourceDir, listing, now, mkdirFault, copyFault).0.Some?
    requires IsListing(fs1, BackupPath(sourceDir, now), later)
    requires forall i :: 0 <= i < |listing| ==>
      var b := BackupPath(sourceDir, now) + [listing[i]];
      b in fs1.files && b in BackupSpec(fs0, sourceDir, listing, now, mkdirFault, copyFault).1.files &&
      fs1.files[b] == BackupSpec(fs0, sourceDir, listing, now, mkdirFault, copyFault).1.files[b]
    requires forall j :: 0 <= j < |later| ==> sourceDir + [later[j]] !in fs1.dirs
    ensures var (ok, f) := RestoreIntoSpec(fs1, Some(BackupPath(sourceDir, now)), sourceDir, later, restoreFault);
      ok ==> forall i :: 0 <= i < |listing| ==>
        var p := sourceDir + [listing[i]];
        p in f.files && f.files[p] == fs0.files[p]
  {
    var bp := BackupPath(sourceDir, now);
    BackupCopiesEveryFile(fs0, sourceDir, listing, now, mkdirFault, copyFault);
    BackupOutsideSource(sourceDir, now, "", "");
    assert bp != sourceDir by {
      assert (bp + [""]) != (sourceDir + [""]);
    }
    CopyBackEveryFile(fs1, bp, sourceDir, later, restoreFault);
    var (ok, f) := RestoreIntoSpec(fs1, Some(bp), sourceDir, later, restoreFault);
    if ok {
      forall i | 0 <= i < |listing| ensures sourceDir + [listing[i]] in f.files && f.files[sourceDir + [listing[i]]] == fs0.files[sourceDir + [listing[i]]] {
        var b := bp + [listing[i]];
        assert |b| == |bp| + 1 && b[..|bp|] == bp;
        var j :| 0 <= j < |later| && later[j] == b[|bp|];
        assert b == bp + [later[j]];
      }
    }
  }

  /** `FileOperations`: the helpers and the path of the last backup. */
  class FileOperations {
    const disk: Disk
    var backupDir: Option<Path>

    constructor (disk: Disk)
      ensures this.disk == disk && backupDir == None
    {
      this.disk := disk;
      backupDir := None;
    }

    /** `move_file`. */
    method MoveFile(sourcePath: Path, destPath: Path, mkdirFault: bool, moveFault: bool, timesFault: bool) returns (ok: bool)
      modifies disk
      ensures (ok, disk.fs) == MoveFileSpec(old(disk.fs), sourcePath, destPath, mkdirFault, moveFault, timesFault)
    {
      var fs := disk.fs;
      var destDir := Dirname(destPath);
      if !Exists(fs, destDir) {
        var made := MakeDirs(fs, destDir, mkdirFault);
        if made.None? {
          return false;
        }
        disk.fs := made.value;
      }
      if destDir !in disk.fs.dirs {
        return false;
      }
      var moved := Move(disk.fs, sourcePath, destPath, moveFault);
      if moved.None? {
        return false;
      }
      disk.fs := moved.value;
      ok := !timesFault;
    }

    /** The copy loop shared by `create_backup` and `restore_from_backup`. */
    method CopyAll(srcDir: Path, names: seq<string>, dst: CopyDest, fault: nat -> bool) returns (ok: bool)
      modifies disk
      ensures (ok, disk.fs) == CopyPrefix(old(disk.fs), srcDir, names, dst, fault, |names|)
    {
      ghost var start := disk.fs;
      var i := 0;
      while i < |names|
        invariant 0 <= i <= |names|
        invariant CopyPrefix(start, srcDir, names, dst, fault, i) == (true, disk.fs)
      {
        var copied := Copy(disk.fs, srcDir + [names[i]], dst.For(names[i]), fault(i));
        CopyPrefixNext(start, srcDir, names, dst, fault, i, disk.fs);
        if copied.None? {
          CopyPrefixStops(start, srcDir, names, dst, fault, i + 1, |names|);
          return false;
        }
        disk.fs := copied.value;
        i := i + 1;
      }
      ok := true;
    }

    /**
     * `create_backup`: on success the backup path is recorded and returned; on any
     * error None is returned and the recorded backup stays what it was.
     */
    method CreateBackup(sourceDir: Path, listing: seq<string>, now: nat, mkdirFault: bool, copyFault: nat -> bool)
      returns (r: Option<Path>)
      requires sourceDir in disk.fs.dirs ==> IsListing(disk.fs, sourceDir, listing)
      modifies this, disk
      ensures (r, disk.fs) == BackupSpec(old(disk.fs), sourceDir, listing, now, mkdirFault, copyFault)
      ensures backupDir == if r.Some? then r else old(backupDir)
    {
      var initial := disk.fs;
      var backupPath := BackupPath(sourceDir, now);
      if !Exists(disk.fs, backupPath) {
        var made := MakeDirs(disk.fs, backupPath, mkdirFault);
        if made.None? {
          return None;
        }
        disk.fs := made.value;
      }
      if sourceDir !in initial.dirs {
        return None;
      }
      var ok := CopyAll(sourceDir, listing, IntoDir(backupPath), copyFault);
      if !ok {
        return None;
      }
      backupDir := Some(backupPath);
      r := backupDir;
    }

    /** `restore_from_backup`: true when every backup file was copied back. */
    method RestoreFromBackup(listing: seq<string>, copyFault: nat -> bool) returns (ok: bool)
      requires backupDir.Some? && backupDir.value in disk.fs.dirs ==> IsListing(disk.fs, backupDir.value, listing)
      modifies disk
      ensures (ok, disk.fs) == RestoreSpec(old(disk.fs), backupDir, listing, copyFault)
    {
      if backupDir.None? || !Exists(disk.fs, backupDir.value) || backupDir.value !in disk.fs.dirs {
        return false;
      }
      var source := backupDir.value;
      var original := Dirname(source);
      ok := CopyAll(source, listing, SameNameIn(original), copyFault);
    }
  }
}
