/**
 * The sorting pass of the application and its undo: every regular file of the chosen
 * folder is classified by extension and moved into `<folder>/<category>/`, and the
 * moves that completed are remembered as one operation that undo replays backwards.
 */
module FileSorter {
  import opened Wrappers
  import opened FileSystem
  import opened Categories
  import opened FileOperations

  /** One recorded move: where the file went, and where it came from. */
  type Op = (Path, Path)

  /**
   * The I/O errors the pass and the undo can meet, by position in the listing (or in the
   * recorded operation): `os.makedirs`, the move itself (`os.stat` + `shutil.move`), and
   * `os.utime`.
   */
  datatype Faults = Faults(makedirs: nat -> bool, move: nat -> bool, times: nat -> bool)

  /** What the pass has accumulated: the disk, the undo record, the per-category counters and the progress reports. */
  datatype PassState = PassState(fs: Fs, ops: seq<Op>, stats: map<string, nat>, progress: seq<nat>)

  /** One file handled (`Next`), or an exception that ends the whole pass (`Abort`). */
  datatype StepResult = Next(st: PassState) | Abort(fs: Fs)

  datatype Outcome = NoFiles | Completed | Cancelled | Failed

  /** The category folder a file goes to. */
  function CategoryOf(t: Table, name: string): string
  {
    Classify(BuildIndex(t.names, t.lists), name)
  }

  /** The counters start at zero for every category of the table. */
  function InitialStats(t: Table): (m: map<string, nat>)
    ensures m.Keys == t.lists.Keys
    ensures forall c :: c in m ==> m[c] == 0
  {
    map c | c in t.lists :: 0
  }

  /**
   * Counting the i-th file under its category and reporting progress; a category
   * without a counter raises (`KeyError`), which ends the pass.
   */
  function Count(st: PassState, category: string, i: nat): StepResult
  {
    if category in st.stats then Next(st.(stats := st.stats[category := st.stats[category] + 1], progress := st.progress + [i + 1]))
    else Abort(st.fs)
  }

  /**
   * The move of one file in a real pass, once its category folder exists: a move that
   * fails is skipped without being counted; a failing `os.utime` leaves the file moved
   * but neither counted nor recorded.
   */
  function Relocate(st: PassState, i: nat, category: string, source: Path, dest: Path, faults: Faults): StepResult
  {
    match Move(st.fs, source, dest, faults.move(i))
    case None => Next(st)
    case Some(moved) =>
      if faults.times(i) then Next(st.(fs := moved))
      else Count(st.(fs := moved, ops := st.ops + [(dest, source)]), category, i)
  }

  /**
   * `if not os.path.exists(d): os.makedirs(d)`: nothing happens to a path that exists (a
   * file of that name included); otherwise the folder is created with its ancestors, or
   * `os.makedirs` raises.
   */
  function EnsureDir(fs: Fs, d: Path, fault: bool): (r: Option<Fs>)
    ensures Exists(fs, d) ==> r == Some(fs)
    ensures r.None? <==> !Exists(fs, d) && (fault || exists k :: 0 <= k <= |d| && d[..k] in fs.files)
    ensures r.Some? ==> r.value.files == fs.files && fs.dirs <= r.value.dirs && (d !in fs.files ==> d in r.value.dirs)
  {
    if !Exists(fs, d) then MakeDirs(fs, d, fault) else Some(fs)
  }

  /**
   * A visible file of the given category: in preview it is only counted; otherwise its
   * category folder is created when missing (a failing `os.makedirs` ends the pass) and
   * it is moved to a free name in that folder.
   */
  function Place(folder: Path, preview: bool, i: nat, name: string, category: string, st: PassState, faults: Faults): StepResult
  {
    var categoryPath := Join(folder, category);
    if preview then Count(st, category, i)
    else
      var made := EnsureDir(st.fs, categoryPath, faults.makedirs(i));
      if made.None? then Abort(st.fs)
      else Relocate(st.(fs := made.value), i, category, Join(folder, name), ResolvePath(made.value, Join(categoryPath, name)), faults)
  }

  /** The body of the loop of `sort_files_thread` for the i-th listed file: hidden files are skipped. */
  function Step(t: Table, folder: Path, preview: bool, listing: seq<string>, i: nat, st: PassState, faults: Faults): StepResult
    requires i < |listing|
  {
    if IsSystemOrHiddenFile(listing[i]) then Next(st)
    else Place(folder, preview, i, listing[i], CategoryOf(t, listing[i]), st, faults)
  }

  /**
   * The loop of `sort_files_thread` from position i on: `keep(i)` is the value of
   * `is_sorting` read before the i-th file (another thread may clear it to cancel).
   */
  function Run(t: Table, folder: Path, preview: bool, listing: seq<string>, keep: nat -> bool, faults: Faults,
               i: nat, st: PassState): (r: (Outcome, PassState))
    requires i <= |listing|
    decreases |listing| - i
  {
    if i == |listing| then (Completed, st)
    else if !keep(i) then (Cancelled, st)
    else match Step(t, folder, preview, listing, i, st, faults)
      case Abort(f) => (Failed, st.(fs := f))
      case Next(s) => Run(t, folder, preview, listing, keep, faults, i + 1, s)
  }

  /** A pass told to stop before the i-th file ends there, cancelled. */
  lemma RunCancel(t: Table, folder: Path, preview: bool, listing: seq<string>, keep: nat -> bool, faults: Faults,
                  i: nat, st: PassState)
    requires i < |listing| && !keep(i)
    ensures Run(t, folder, preview, listing, keep, faults, i, st) == (Cancelled, st)
  {
  }

  /** A pass whose i-th step fails ends there with the state of the disk the step left. */
  lemma RunAbort(t: Table, folder: Path, preview: bool, listing: seq<string>, keep: nat -> bool, faults: Faults,
                 i: nat, st: PassState, f: Fs)
    requires i < |listing| && keep(i) && Step(t, folder, preview, listing, i, st, faults) == Abort(f)
    ensures Run(t, folder, preview, listing, keep, faults, i, st) == (Failed, st.(fs := f))
  {
  }

  /** A pass whose i-th step succeeds goes on from the state that step produced. */
  lemma RunNext(t: Table, folder: Path, preview: bool, listing: seq<string>, keep: nat -> bool, faults: Faults,
                i: nat, st: PassState, next: PassState)
    requires i < |listing| && keep(i) && Step(t, folder, preview, listing, i, st, faults) == Next(next)
    ensures Run(t, folder, preview, listing, keep, faults, i, st) == Run(t, folder, preview, listing, keep, faults, i + 1, next)
  {
  }

  /** The state a pass starts from. */
  function Start(t: Table, fs: Fs): PassState
  {
    PassState(fs, [], InitialStats(t), [])
  }

  /**
   * `sort_files_thread` as a whole: an unreadable folder is an error, an empty one ends
   * at once, otherwise the loop runs over the listing.
   */
  function Pass(t: Table, folder: Path, preview: bool, listing: seq<string>, keep: nat -> bool, faults: Faults, fs: Fs): (r: (Outcome, PassState))
  {
    if folder !in fs.dirs then (Failed, Start(t, fs))
    else if listing == [] then (NoFiles, Start(t, fs))
    else Run(t, folder, preview, listing, keep, faults, 0, Start(t, fs))
  }

  /** Whether the pass stores its moves as the operation to undo. */
  predicate Saves(preview: bool, r: (Outcome, PassState))
  {
    r.0 != Failed && !preview && r.1.ops != []
  }

  /**
   * The loop of `undo_last_operation` over the first n recorded moves: each moves the
   * file back by the steps `move_file` takes (makedirs when missing, stat, move, utime),
   * and counts as a success or an error.
   */
  function UndoPrefix(fs: Fs, ops: seq<Op>, faults: Faults, n: nat): (r: (nat, nat, Fs))
    requires n <= |ops|
  {
    if n == 0 then (0, 0, fs)
    else
      var (restored, errors, f) := UndoPrefix(fs, ops, faults, n - 1);
      var (ok, g) := MoveFileSpec(f, ops[n - 1].0, ops[n - 1].1, faults.makedirs(n - 1), faults.move(n - 1), faults.times(n - 1));
      if ok then (restored + 1, errors, g) else (restored, errors + 1, g)
  }

  /** One more recorded move of the undo loop. */
  lemma UndoPrefixNext(fs: Fs, ops: seq<Op>, faults: Faults, n: nat, restored: nat, errors: nat, f: Fs)
    requires n < |ops| && UndoPrefix(fs, ops, faults, n) == (restored, errors, f)
    ensures var (ok, g) := MoveFileSpec(f, ops[n].0, ops[n].1, faults.makedirs(n), faults.move(n), faults.times(n));
      UndoPrefix(fs, ops, faults, n + 1) == if ok then (restored + 1, errors, g) else (restored, errors + 1, g)
  {
  }

  datatype UndoResult = NothingToUndo | Declined | Undone(restored: nat, errors: nat)

  /**
   * `undo_last_operation`: nothing happens without a recorded operation or without the
   * user's confirmation; otherwise every move is replayed backwards and the record is
   * cleared, whatever the errors.
   */
  function Undo(last: Option<seq<Op>>, confirmed: bool, fs: Fs, faults: Faults): (r: (UndoResult, Fs, Option<seq<Op>>))
  {
    if last.None? || last.value == [] then (NothingToUndo, fs, last)
    else if !confirmed then (Declined, fs, last)
    else
      var (restored, errors, f) := UndoPrefix(fs, last.value, faults, |last.value|);
      (Undone(restored, errors), f, None)
  }

  /** `FileSorterApp`: the sorting state of the window (its widgets are not modelled). */
  class FileSorterApp {
    const fileOps: FileOperations
    const categories: FileCategories
    var lastOperation: Option<seq<Op>>
    var isSorting: bool

    constructor (fileOps: FileOperations, categories: FileCategories)
      ensures this.fileOps == fileOps && this.categories == categories
      ensures lastOperation == None && !isSorting
    {
      this.fileOps := fileOps;
      this.categories := categories;
      lastOperation := None;
      isSorting := false;
    }

    /** The move of one file in a real pass, with its bookkeeping. */
    method MoveAndRecord(i: nat, category: string, filePath: Path, destPath: Path, faults: Faults,
                         ops: seq<Op>, stats: map<string, nat>, progress: seq<nat>)
      returns (aborted: bool, ops': seq<Op>, stats': map<string, nat>, progress': seq<nat>)
      modifies fileOps.disk
      ensures Relocate(PassState(old(fileOps.disk.fs), ops, stats, progress), i, category, filePath, destPath, faults)
        == if aborted then Abort(fileOps.disk.fs) else Next(PassState(fileOps.disk.fs, ops', stats', progress'))
    {
      aborted, ops', stats', progress' := false, ops, stats, progress;
      var disk := fileOps.disk;
      var moved := Move(disk.fs, filePath, destPath, faults.move(i));
      if moved.None? {
        return;
      }
      disk.fs := moved.value;
      if faults.times(i) {
        return;
      }
      ops' := ops + [(destPath, filePath)];
      if category !in stats {
        aborted := true;
        return;
      }
      stats' := stats[category := stats[category] + 1];
      progress' := progress + [i + 1];
    }

    /** A visible file: folder creation, the free destination, the move and the counters. */
    method PlaceFile(folder: Path, isPreview: bool, i: nat, name: string, category: string, faults: Faults,
                     ops: seq<Op>, stats: map<string, nat>, progress: seq<nat>)
      returns (aborted: bool, ops': seq<Op>, stats': map<string, nat>, progress': seq<nat>)
      modifies fileOps.disk
      ensures Place(folder, isPreview, i, name, category, PassState(old(fileOps.disk.fs), ops, stats, progress), faults)
        == if aborted then Abort(fileOps.disk.fs) else Next(PassState(fileOps.disk.fs, ops', stats', progress'))
    {
      aborted, ops', stats', progress' := false, ops, stats, progress;
      var disk := fileOps.disk;
      var categoryPath := Join(folder, category);
      if !Exists(disk.fs, categoryPath) && !isPreview {
        var made := MakeDirs(disk.fs, categoryPath, faults.makedirs(i));
        if made.None? {
          aborted := true;
          return;
        }
        disk.fs := made.value;
      }
      var destPath := Join(categoryPath, name);
      if Exists(disk.fs, destPath) && !isPreview {
        destPath := HandleDuplicate(disk.fs, destPath);
      }
      if !isPreview {
        aborted, ops', stats', progress' := MoveAndRecord(i, category, Join(folder, name), destPath, faults, ops, stats, progress);
      } else if category !in stats {
        aborted := true;
      } else {
        stats' := stats[category := stats[category] + 1];
        progress' := progress + [i + 1];
      }
    }

    /** The loop body of `sort_files_thread` for the i-th listed file. */
    method SortOne(folder: Path, isPreview: bool, listing: seq<string>, i: nat, faults: Faults,
                   ops: seq<Op>, stats: map<string, nat>, progress: seq<nat>)
      returns (aborted: bool, ops': seq<Op>, stats': map<string, nat>, progress': seq<nat>)
      requires categories.Valid() && i < |listing|
      modifies fileOps.disk
      ensures Step(categories.categories, folder, isPreview, listing, i, PassState(old(fileOps.disk.fs), ops, stats, progress), faults)
        == if aborted then Abort(fileOps.disk.fs) else Next(PassState(fileOps.disk.fs, ops', stats', progress'))
    {
      var name := listing[i];
      if IsSystemOrHiddenFile(name) {
        return false, ops, stats, progress;
      }
      var category := categories.GetCategoryForFile(name);
      assert category == CategoryOf(categories.categories, name);
      aborted, ops', stats', progress' := PlaceFile(folder, isPreview, i, name, category, faults, ops, stats, progress);
    }

    /**
     * `sort_files_thread`: the pass over the folder's listing; on any outcome but an
     * error, a real (not preview) pass that moved something becomes the operation to undo.
     */
    method SortFilesThread(folder: Path, isPreview: bool, listing: seq<string>, keepSorting: nat -> bool, faults: Faults)
      returns (outcome: Outcome, stats: map<string, nat>, progress: seq<nat>)
      requires categories.Valid()
      requires folder in fileOps.disk.fs.dirs ==> IsListing(fileOps.disk.fs, folder, listing)
      modifies this, fileOps.disk
      ensures var r := Pass(categories.categories, folder, isPreview, listing, keepSorting, faults, old(fileOps.disk.fs));
        && outcome == r.0 && fileOps.disk.fs == r.1.fs && stats == r.1.stats && progress == r.1.progress
        && lastOperation == if Saves(isPreview, r) then Some(r.1.ops) else old(lastOperation)
      ensures !isSorting
    {
      var t := categories.categories;
      var disk := fileOps.disk;
      stats, progress := InitialStats(t), [];
      if folder !in disk.fs.dirs {
        outcome := Failed;
        isSorting := false;
        return;
      }
      if |listing| == 0 {
        outcome := NoFiles;
        isSorting := false;
        return;
      }
      var operations: seq<Op> := [];
      var allCategories := categories.GetAllCategories();
      stats := map c | c in allCategories :: 0;
      assert stats == InitialStats(t);
      ghost var result := Run(t, folder, isPreview, listing, keepSorting, faults, 0, Start(t, disk.fs));
      assert Pass(t, folder, isPreview, listing, keepSorting, faults, disk.fs) == result;
      outcome := Completed;
      ghost var current := Start(t, disk.fs);
      var i := 0;
      while i < |listing|
        invariant 0 <= i <= |listing|
        invariant current == PassState(disk.fs, operations, stats, progress)
        invariant Run(t, folder, isPreview, listing, keepSorting, faults, i, current) == result
        invariant outcome == Completed && lastOperation == old(lastOperation)
      {
        isSorting := keepSorting(i);
        if !isSorting {
          RunCancel(t, folder, isPreview, listing, keepSorting, faults, i, current);
          outcome := Cancelled;
          break;
        }
        var aborted, ops', stats', progress' := SortOne(folder, isPreview, listing, i, faults, operations, stats, progress);
        if aborted {
          RunAbort(t, folder, isPreview, listing, keepSorting, faults, i, current, disk.fs);
          current := current.(fs := disk.fs);
          outcome := Failed;
          break;
        }
        RunNext(t, folder, isPreview, listing, keepSorting, faults, i, current, PassState(disk.fs, ops', stats', progress'));
        operations, stats, progress := ops', stats', progress';
        current := PassState(disk.fs, operations, stats, progress);
        i := i + 1;
        assert Run(t, folder, isPreview, listing, keepSorting, faults, i, current) == result;
      }
      assert result == (outcome, PassState(disk.fs, operations, stats, progress));
      if outcome != Failed && !isPreview && |operations| > 0 {
        lastOperation := Some(operations);
      }
      isSorting := false;
    }

    /** `undo_last_operation`: `confirmed` is the user's answer to the confirmation dialog. */
    method UndoLastOperation(confirmed: bool, faults: Faults) returns (result: UndoResult)
      modifies this, fileOps.disk
      ensures (result, fileOps.disk.fs, lastOperation) == Undo(old(lastOperation), confirmed, old(fileOps.disk.fs), faults)
      ensures isSorting == old(isSorting)
    {
      if lastOperation.None? || |lastOperation.value| == 0 {
        return NothingToUndo;
      }
      if !confirmed {
        return Declined;
      }
      var ops := lastOperation.value;
      var successCount, errorCount := 0, 0;
      ghost var start := fileOps.disk.fs;
      var k := 0;
      while k < |ops|
        invariant 0 <= k <= |ops|
        invariant UndoPrefix(start, ops, faults, k) == (successCount, errorCount, fileOps.disk.fs)
        modifies fileOps.disk
      {
        var (srcPath, destPath) := ops[k];
        UndoPrefixNext(start, ops, faults, k, successCount, errorCount, fileOps.disk.fs);
        var ok := fileOps.MoveFile(srcPath, destPath, faults.makedirs(k), faults.move(k), faults.times(k));
        if ok {
          successCount := successCount + 1;
        } else {
          errorCount := errorCount + 1;
        }
        k := k + 1;
      }
      lastOperation := None;
      result := Undone(successCount, errorCount);
    }
  }
}
