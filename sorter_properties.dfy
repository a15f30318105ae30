/**
 * What a sorting pass promises: preview touches nothing, only visible files are
 * counted, in listing order, every recorded move matches a counted file, the counters
 * are per-category tallies, cancellation stops the pass, and undo accounts for every
 * recorded move.
 */
module SorterProperties {
  import opened Wrappers
  import opened FileSystem
  import opened Categories
  import opened FileOperations
  import opened FileSorter

  /** The step left the bookkeeping as it was. */
  ghost predicate Skipped(st: PassState, s: PassState)
  {
    s.ops == st.ops && s.stats == st.stats && s.progress == st.progress
  }

  /** The destination `handle_duplicate` picks for p: p itself or one of its numbered variants. */
  ghost predicate Variant(dest: Path, p: Path)
  {
    dest == p || exists n :: 1 <= n && dest == Candidate(p, n)
  }

  /** The recorded move of the file `name` of category c: out of the folder, to a free name in its category folder. */
  ghost predicate MovedInto(folder: Path, c: string, name: string, op: Op)
  {
    op.1 == Join(folder, name) && Variant(op.0, Join(Join(folder, c), name))
  }

  /** ops' is ops with one more move at the end. */
  ghost predicate Appended(ops: seq<Op>, ops': seq<Op>)
  {
    |ops'| == |ops| + 1 && forall k :: 0 <= k < |ops| ==> ops'[k] == ops[k]
  }

  /** The step counted the i-th file under its category and, in a real pass, recorded its move. */
  ghost predicate Counted(t: Table, folder: Path, preview: bool, listing: seq<string>, i: nat, st: PassState, s: PassState)
    requires i < |listing|
  {
    var name := listing[i];
    var c := CategoryOf(t, name);
    && !IsSystemOrHiddenFile(name)
    && c in st.stats && s.stats == st.stats[c := st.stats[c] + 1]
    && s.progress == st.progress + [i + 1]
    && (preview ==> s.ops == st.ops)
    && (!preview ==> Appended(st.ops, s.ops) && MovedInto(folder, c, name, s.ops[|st.ops|]))
  }

  lemma CountBookkeeping(st: PassState, c: string, i: nat)
    ensures match Count(st, c, i)
      case Next(s) => s.fs == st.fs && s.ops == st.ops && c in st.stats
        && s.stats == st.stats[c := st.stats[c] + 1] && s.progress == st.progress + [i + 1]
      case Abort(f) => f == st.fs && c !in st.stats
  {
  }

  /**
   * What the move of a file to a free path leads to. The move goes through exactly when it
   * does not fail, the file is there and the destination folder exists; otherwise the
   * file is skipped and nothing changes. A failing `os.utime` leaves the file moved but
   * neither counted nor recorded. Otherwise the file is counted and the move recorded,
   * unless its category has no counter, which ends the pass with the file moved.
   */
  ghost predicate MoveOutcome(st: PassState, i: nat, c: string, source: Path, dest: Path, faults: Faults, r: StepResult)
  {
    var moves := !faults.move(i) && source in st.fs.files && Dirname(dest) in st.fs.dirs;
    && (!moves ==> r == Next(st))
    && (moves ==>
          var moved := Fs((st.fs.files - {source})[dest := st.fs.files[source]], st.fs.dirs);
          && (faults.times(i) ==> r == Next(st.(fs := moved)))
          && (!faults.times(i) && c in st.stats ==>
                r == Next(PassState(moved, st.ops + [(dest, source)], st.stats[c := st.stats[c] + 1], st.progress + [i + 1])))
          && (!faults.times(i) && c !in st.stats ==> r == Abort(moved)))
  }

  lemma RelocateOutcome(st: PassState, i: nat, c: string, source: Path, dest: Path, faults: Faults)
    requires !Exists(st.fs, dest)
    ensures MoveOutcome(st, i, c, source, dest, faults, Relocate(st, i, c, source, dest, faults))
  {
    assert Target(st.fs, source, dest) == dest;
  }

  /**
   * The exact effect of one step. A hidden file is skipped. In preview a visible file is
   * counted under its category (or, without a counter, the pass ends) and nothing else
   * changes. In a real pass the category folder is created when missing; a failing
   * `os.makedirs` ends the pass with the disk as it was; otherwise the file is moved
   * to the name `handle_duplicate` picks in that folder, with the outcome MoveOutcome
   * describes.
   */
  lemma StepOutcome(t: Table, folder: Path, preview: bool, listing: seq<string>, i: nat, st: PassState, faults: Faults)
    requires i < |listing|
    ensures var r := Step(t, folder, preview, listing, i, st, faults);
      var name := listing[i];
      var c := CategoryOf(t, name);
      var categoryPath := Join(folder, c);
      && (IsSystemOrHiddenFile(name) ==> r == Next(st))
      && (!IsSystemOrHiddenFile(name) && preview ==>
            && (c in st.stats ==> r.Next? && Counted(t, folder, true, listing, i, st, r.st) && r.st.fs == st.fs)
            && (c !in st.stats ==> r == Abort(st.fs)))
      && (!IsSystemOrHiddenFile(name) && !preview ==>
            var made := EnsureDir(st.fs, categoryPath, faults.makedirs(i));
            && (made.None? ==> r == Abort(st.fs))
            && (made.Some? ==>
                  var dest := ResolvePath(made.value, Join(categoryPath, name));
                  && !Exists(made.value, dest) && Dirname(dest) == categoryPath && Variant(dest, Join(categoryPath, name))
                  && MoveOutcome(st.(fs := made.value), i, c, Join(folder, name), dest, faults, r)))
  {
    var name := listing[i];
    if !IsSystemOrHiddenFile(name) {
      var c := CategoryOf(t, name);
      var categoryPath := Join(folder, c);
      if preview {
        CountBookkeeping(st, c, i);
      } else {
        var made := EnsureDir(st.fs, categoryPath, faults.makedirs(i));
        if made.Some? {
          var dest := ResolvePath(made.value, Join(categoryPath, name));
          RelocateOutcome(st.(fs := made.value), i, c, Join(folder, name), dest, faults);
        }
      }
    }
  }

  /** A move either leaves the bookkeeping as it was or counts the file and records exactly that move. */
  lemma MoveBookkeeping(st: PassState, i: nat, c: string, source: Path, dest: Path, faults: Faults, r: StepResult)
    requires MoveOutcome(st, i, c, source, dest, faults, r) && r.Next?
    ensures || Skipped(st, r.st)
            || (&& c in st.stats && r.st.stats == st.stats[c := st.stats[c] + 1] && r.st.progress == st.progress + [i + 1]
                && Appended(st.ops, r.st.ops) && r.st.ops[|st.ops|] == (dest, source))
  {
  }

  /** What one step does to the bookkeeping, and that in preview it does not touch the disk. */
  lemma StepBookkeeping(t: Table, folder: Path, preview: bool, listing: seq<string>, i: nat, st: PassState, faults: Faults)
    requires i < |listing|
    ensures match Step(t, folder, preview, listing, i, st, faults)
      case Next(s) => (Skipped(st, s) || Counted(t, folder, preview, listing, i, st, s)) && (preview ==> s.fs == st.fs)
      case Abort(f) => preview ==> f == st.fs
  {
    StepOutcome(t, folder, preview, listing, i, st, faults);
    var r := Step(t, folder, preview, listing, i, st, faults);
    var name := listing[i];
    if !IsSystemOrHiddenFile(name) && !preview {
      var c := CategoryOf(t, name);
      var categoryPath := Join(folder, c);
      var made := EnsureDir(st.fs, categoryPath, faults.makedirs(i));
      if made.Some? && r.Next? {
        var dest := ResolvePath(made.value, Join(categoryPath, name));
        MoveBookkeeping(st.(fs := made.value), i, c, Join(folder, name), dest, faults, r);
      }
    }
  }

  // ----- preview -----

  lemma {:induction false} RunPreview(t: Table, folder: Path, listing: seq<string>, keep: nat -> bool, faults: Faults, i: nat, st: PassState)
    requires i <= |listing|
    ensures Run(t, folder, true, listing, keep, faults, i, st).1.fs == st.fs
    ensures Run(t, folder, true, listing, keep, faults, i, st).1.ops == st.ops
    decreases |listing| - i
  {
    if i < |listing| && keep(i) {
      StepBookkeeping(t, folder, true, listing, i, st, faults);
      match Step(t, folder, true, listing, i, st, faults)
      case Next(s) => RunPreview(t, folder, listing, keep, faults, i + 1, s);
      case Abort(f) =>
    }
  }

  /** A preview pass moves nothing, creates nothing and records nothing to undo. */
  lemma PreviewTouchesNothing(t: Table, folder: Path, listing: seq<string>, keep: nat -> bool, faults: Faults, fs: Fs)
    ensures Pass(t, folder, true, listing, keep, faults, fs).1.fs == fs
    ensures !Saves(true, Pass(t, folder, true, listing, keep, faults, fs))
  {
    if folder in fs.dirs && listing != [] {
      RunPreview(t, folder, listing, keep, faults, 0, Start(t, fs));
    }
  }

  // ----- progress -----

  /** The progress reports so far: increasing 1-based positions below i, of visible files only. */
  ghost predicate ProgressOk(listing: seq<string>, i: nat, progress: seq<nat>)
  {
    && (forall k :: 0 <= k < |progress| ==>
          1 <= progress[k] <= i && progress[k] <= |listing| && !IsSystemOrHiddenFile(listing[progress[k] - 1]))
    && (forall k, l :: 0 <= k < l < |progress| ==> progress[k] < progress[l])
  }

  lemma ProgressStep(listing: seq<string>, i: nat, progress: seq<nat>, progress': seq<nat>)
    requires i < |listing| && ProgressOk(listing, i, progress)
    requires progress' == progress || (progress' == progress + [i + 1] && !IsSystemOrHiddenFile(listing[i]))
    ensures ProgressOk(listing, i + 1, progress')
  {
    if progress' != progress {
      forall k | 0 <= k < |progress| ensures progress'[k] == progress[k] {
      }
    }
  }

  lemma ProgressGrow(listing: seq<string>, i: nat, j: nat, progress: seq<nat>)
    requires i <= j && ProgressOk(listing, i, progress)
    ensures ProgressOk(listing, j, progress)
  {
  }

  /** One step keeps the progress reports well formed. */
  lemma StepProgress(t: Table, folder: Path, preview: bool, listing: seq<string>, i: nat, st: PassState, faults: Faults)
    requires i < |listing| && ProgressOk(listing, i, st.progress)
    ensures Step(t, folder, preview, listing, i, st, faults).Next? ==>
              ProgressOk(listing, i + 1, Step(t, folder, preview, listing, i, st, faults).st.progress)
  {
    StepBookkeeping(t, folder, preview, listing, i, st, faults);
    var r := Step(t, folder, preview, listing, i, st, faults);
    if r.Next? {
      assert r.st.progress == st.progress || (r.st.progress == st.progress + [i + 1] && !IsSystemOrHiddenFile(listing[i]));
      ProgressStep(listing, i, st.progress, r.st.progress);
    }
  }

  /** The loop of a pass over a file it is allowed to handle. */
  lemma RunKept(t: Table, folder: Path, preview: bool, listing: seq<string>, keep: nat -> bool, faults: Faults,
                i: nat, st: PassState)
    requires i < |listing| && keep(i)
    ensures var r := Step(t, folder, preview, listing, i, st, faults);
      Run(t, folder, preview, listing, keep, faults, i, st) ==
        if r.Next? then Run(t, folder, preview, listing, keep, faults, i + 1, r.st) else (Failed, st.(fs := r.fs))
  {
  }

  /** The pass may handle every file from i up to bound, and is told to stop at bound. */
  ghost predicate KeptUntil(keep: nat -> bool, i: nat, bound: nat, n: nat)
  {
    i <= bound <= n && (forall j :: i <= j < bound ==> keep(j)) && (bound < n ==> !keep(bound))
  }

  lemma {:induction false} RunProgress(t: Table, folder: Path, preview: bool, listing: seq<string>, keep: nat -> bool, faults: Faults,
                                       i: nat, st: PassState, bound: nat)
    requires KeptUntil(keep, i, bound, |listing|) && ProgressOk(listing, i, st.progress)
    ensures ProgressOk(listing, bound, Run(t, folder, preview, listing, keep, faults, i, st).1.progress)
    decreases |listing| - i
  {
    if i < |listing| && keep(i) {
      var r := Step(t, folder, preview, listing, i, st, faults);
      StepProgress(t, folder, preview, listing, i, st, faults);
      RunKept(t, folder, preview, listing, keep, faults, i, st);
      if r.Next? {
        assert KeptUntil(keep, i + 1, bound, |listing|);
        RunProgress(t, folder, preview, listing, keep, faults, i + 1, r.st, bound);
      } else {
        ProgressGrow(listing, i, bound, st.progress);
      }
    } else {
      assert bound == i;
      assert Run(t, folder, preview, listing, keep, faults, i, st).1 == st;
    }
  }

  /** A pass told to stop before the end of the listing does not report completion. */
  lemma {:induction false} RunNotCompleted(t: Table, folder: Path, preview: bool, listing: seq<string>, keep: nat -> bool, faults: Faults,
                                           i: nat, st: PassState, j: nat)
    requires i <= j < |listing| && !keep(j)
    ensures Run(t, folder, preview, listing, keep, faults, i, st).0 != Completed
    decreases |listing| - i
  {
    if !keep(i) {
      RunCancel(t, folder, preview, listing, keep, faults, i, st);
    } else {
      var r := Step(t, folder, preview, listing, i, st, faults);
      if r.Next? {
        RunNext(t, folder, preview, listing, keep, faults, i, st, r.st);
        RunNotCompleted(t, folder, preview, listing, keep, faults, i + 1, r.st, j);
      } else {
        RunAbort(t, folder, preview, listing, keep, faults, i, st, r.fs);
      }
    }
  }

  /** The first position at or after i where the pass is told to stop, or the length of the listing. */
  function StopAt(listing: seq<string>, keep: nat -> bool, i: nat): (b: nat)
    requires i <= |listing|
    ensures i <= b <= |listing|
    ensures forall j :: i <= j < b ==> keep(j)
    ensures b < |listing| ==> !keep(b)
    decreases |listing| - i
  {
    if i == |listing| || !keep(i) then i else StopAt(listing, keep, i + 1)
  }

  /**
   * Progress is reported for visible files only, each once, in listing order, and
   * never for a file at or after the point where the pass was cancelled; a pass that
   * was cancelled before the end does not report completion.
   */
  lemma ProgressReportsVisibleFiles(t: Table, folder: Path, preview: bool, listing: seq<string>, keep: nat -> bool, faults: Faults, fs: Fs)
    ensures ProgressOk(listing, StopAt(listing, keep, 0), Pass(t, folder, preview, listing, keep, faults, fs).1.progress)
    ensures Pass(t, folder, preview, listing, keep, faults, fs).0 == Completed ==> forall j :: 0 <= j < |listing| ==> keep(j)
  {
    if folder in fs.dirs && listing != [] {
      var stop := StopAt(listing, keep, 0);
      RunProgress(t, folder, preview, listing, keep, faults, 0, Start(t, fs), stop);
      if stop < |listing| {
        RunNotCompleted(t, folder, preview, listing, keep, faults, 0, Start(t, fs), stop);
      }
    }
  }

  // ----- the undo record -----

  /**
   * In a real pass, the k-th recorded move is that of the k-th counted file, from the
   * folder to a free name in its category folder.
   */
  ghost predicate Recorded(t: Table, folder: Path, listing: seq<string>, ops: seq<Op>, progress: seq<nat>)
  {
    && |ops| == |progress|
    && forall k :: 0 <= k < |ops| ==> RecordedAt(t, folder, listing, ops[k], progress[k])
  }

  /** op is the recorded move of the file reported at position p. */
  ghost predicate RecordedAt(t: Table, folder: Path, listing: seq<string>, op: Op, p: nat)
  {
    1 <= p <= |listing| && MovedInto(folder, CategoryOf(t, listing[p - 1]), listing[p - 1], op)
  }

  lemma RecordedSnoc(t: Table, folder: Path, listing: seq<string>, ops: seq<Op>, progress: seq<nat>, op: Op, p: nat)
    requires Recorded(t, folder, listing, ops, progress) && RecordedAt(t, folder, listing, op, p)
    ensures Recorded(t, folder, listing, ops + [op], progress + [p])
  {
    var ops', progress' := ops + [op], progress + [p];
    forall k | 0 <= k < |ops'| ensures RecordedAt(t, folder, listing, ops'[k], progress'[k]) {
      if k < |ops| {
        assert ops'[k] == ops[k] && progress'[k] == progress[k];
      }
    }
  }

  lemma RecordedStep(t: Table, folder: Path, listing: seq<string>, i: nat, st: PassState, s: PassState)
    requires i < |listing| && Recorded(t, folder, listing, st.ops, st.progress)
    requires Skipped(st, s) || Counted(t, folder, false, listing, i, st, s)
    ensures Recorded(t, folder, listing, s.ops, s.progress)
  {
    if !Skipped(st, s) {
      assert s.ops == st.ops + [s.ops[|st.ops|]];
      RecordedSnoc(t, folder, listing, st.ops, st.progress, s.ops[|st.ops|], i + 1);
    }
  }

  lemma {:induction false} RunRecorded(t: Table, folder: Path, listing: seq<string>, keep: nat -> bool, faults: Faults, i: nat, st: PassState)
    requires i <= |listing| && Recorded(t, folder, listing, st.ops, st.progress)
    ensures var r := Run(t, folder, false, listing, keep, faults, i, st).1;
      Recorded(t, folder, listing, r.ops, r.progress)
    decreases |listing| - i
  {
    if i < |listing| && keep(i) {
      StepBookkeeping(t, folder, false, listing, i, st, faults);
      match Step(t, folder, false, listing, i, st, faults)
      case Next(s) =>
        RecordedStep(t, folder, listing, i, st, s);
        RunRecorded(t, folder, listing, keep, faults, i + 1, s);
      case Abort(f) =>
    }
  }

  /**
   * In a real pass the undo record and the progress reports go in lockstep: the k-th
   * recorded move takes the k-th counted file from the folder into its category folder.
   */
  lemma RecordsMatchProgress(t: Table, folder: Path, listing: seq<string>, keep: nat -> bool, faults: Faults, fs: Fs)
    ensures var r := Pass(t, folder, false, listing, keep, faults, fs).1;
      Recorded(t, folder, listing, r.ops, r.progress)
  {
    if folder in fs.dirs && listing != [] {
      RunRecorded(t, folder, listing, keep, faults, 0, Start(t, fs));
    }
  }

  /** No two recorded moves share a destination. */
  ghost predicate DistinctDestinations(ops: seq<Op>)
  {
    forall k, l :: 0 <= k < l < |ops| ==> ops[k].0 != ops[l].0
  }

  /**
   * What keeps the destinations apart during a pass: each one is still a file, one level
   * below the category folders, so no later move (whose source is a file of the folder)
   * takes it away and no later destination (always a free path) lands on it.
   */
  ghost predicate DestinationsHeld(folder: Path, ops: seq<Op>, fs: Fs)
  {
    && DistinctDestinations(ops)
    && forall k :: 0 <= k < |ops| ==> |ops[k].0| == |folder| + 2 && ops[k].0 in fs.files
  }

  lemma MoveHoldsDestinations(folder: Path, st: PassState, i: nat, c: string, source: Path, dest: Path, faults: Faults, r: StepResult)
    requires MoveOutcome(st, i, c, source, dest, faults, r) && r.Next?
    requires DestinationsHeld(folder, st.ops, st.fs)
    requires |source| == |folder| + 1 && |dest| == |folder| + 2 && dest !in st.fs.files
    ensures DestinationsHeld(folder, r.st.ops, r.st.fs)
  {
  }

  /** One iteration keeps the recorded destinations held. */
  lemma StepHoldsDestinations(t: Table, folder: Path, preview: bool, listing: seq<string>, i: nat, st: PassState, faults: Faults)
    requires i < |listing| && DestinationsHeld(folder, st.ops, st.fs)
    ensures var r := Step(t, folder, preview, listing, i, st, faults);
      r.Next? ==> DestinationsHeld(folder, r.st.ops, r.st.fs)
  {
    StepOutcome(t, folder, preview, listing, i, st, faults);
    var r := Step(t, folder, preview, listing, i, st, faults);
    var name := listing[i];
    if !IsSystemOrHiddenFile(name) && !preview {
      var c := CategoryOf(t, name);
      var categoryPath := Join(folder, c);
      var made := EnsureDir(st.fs, categoryPath, faults.makedirs(i));
      if made.Some? && r.Next? {
        var dest := ResolvePath(made.value, Join(categoryPath, name));
        assert |dest| == |folder| + 2 by {
          assert Dirname(dest) == categoryPath;
        }
        MoveHoldsDestinations(folder, st.(fs := made.value), i, c, Join(folder, name), dest, faults, r);
      }
    }
  }

  lemma {:induction false} RunHoldsDestinations(t: Table, folder: Path, preview: bool, listing: seq<string>, keep: nat -> bool,
                                                faults: Faults, i: nat, st: PassState)
    requires i <= |listing| && DestinationsHeld(folder, st.ops, st.fs)
    ensures DistinctDestinations(Run(t, folder, preview, listing, keep, faults, i, st).1.ops)
    decreases |listing| - i
  {
    if i < |listing| && keep(i) {
      StepHoldsDestinations(t, folder, preview, listing, i, st, faults);
      var r := Step(t, folder, preview, listing, i, st, faults);
      if r.Next? {
        RunNext(t, folder, preview, listing, keep, faults, i, st, r.st);
        RunHoldsDestinations(t, folder, preview, listing, keep, faults, i + 1, r.st);
      } else {
        RunAbort(t, folder, preview, listing, keep, faults, i, st, r.fs);
      }
    } else if i < |listing| {
      RunCancel(t, folder, preview, listing, keep, faults, i, st);
    }
  }

  /**
   * On every input, however the pass ends, no two recorded moves have the same
   * destination: each destination is a free path when its file is moved there, and no
   * later move of the pass takes it away.
   */
  lemma RecordedDestinationsDistinct(t: Table, folder: Path, listing: seq<string>, keep: nat -> bool, faults: Faults, fs0: Fs)
    ensures var ops := Pass(t, folder, false, listing, keep, faults, fs0).1.ops;
      forall k, l :: 0 <= k < l < |ops| ==> ops[k].0 != ops[l].0
  {
    if folder in fs0.dirs && listing != [] {
      RunHoldsDestinations(t, folder, false, listing, keep, faults, 0, Start(t, fs0));
    }
  }

  // ----- the counters -----

  /** How many of the reported files belong to category c. */
  function Tally(t: Table, listing: seq<string>, progress: seq<nat>, c: string): nat
  {
    if progress == [] then 0
    else
      var p := progress[|progress| - 1];
      Tally(t, listing, progress[..|progress| - 1], c)
        + if 1 <= p <= |listing| && CategoryOf(t, listing[p - 1]) == c then 1 else 0
  }

  /** The counters are exactly the per-category tallies of the reported files. */
  ghost predicate Tallied(t: Table, listing: seq<string>, stats: map<string, nat>, progress: seq<nat>)
  {
    stats.Keys == t.lists.Keys && forall c :: c in stats ==> stats[c] == Tally(t, listing, progress, c)
  }

  lemma TallyStep(t: Table, listing: seq<string>, progress: seq<nat>, i: nat, c: string)
    requires i < |listing|
    ensures Tally(t, listing, progress + [i + 1], c) ==
      Tally(t, listing, progress, c) + if CategoryOf(t, listing[i]) == c then 1 else 0
  {
    assert (progress + [i + 1])[..|progress|] == progress;
  }

  lemma TalliedStep(t: Table, folder: Path, preview: bool, listing: seq<string>, i: nat, st: PassState, s: PassState)
    requires i < |listing| && Tallied(t, listing, st.stats, st.progress)
    requires Skipped(st, s) || Counted(t, folder, preview, listing, i, st, s)
    ensures Tallied(t, listing, s.stats, s.progress)
  {
    if !Skipped(st, s) {
      forall c | c in s.stats ensures s.stats[c] == Tally(t, listing, s.progress, c) {
        TallyStep(t, listing, st.progress, i, c);
      }
    }
  }

  lemma {:induction false} RunTallied(t: Table, folder: Path, preview: bool, listing: seq<string>, keep: nat -> bool, faults: Faults,
                                      i: nat, st: PassState)
    requires i <= |listing| && Tallied(t, listing, st.stats, st.progress)
    ensures var r := Run(t, folder, preview, listing, keep, faults, i, st).1;
      Tallied(t, listing, r.stats, r.progress)
    decreases |listing| - i
  {
    if i < |listing| && keep(i) {
      StepBookkeeping(t, folder, preview, listing, i, st, faults);
      match Step(t, folder, preview, listing, i, st, faults)
      case Next(s) =>
        TalliedStep(t, folder, preview, listing, i, st, s);
        RunTallied(t, folder, preview, listing, keep, faults, i + 1, s);
      case Abort(f) =>
    }
  }

  /** Every category's counter at the end of a pass is the number of reported files of that category. */
  lemma StatsCountCategories(t: Table, folder: Path, preview: bool, listing: seq<string>, keep: nat -> bool, faults: Faults, fs: Fs)
    ensures var r := Pass(t, folder, preview, listing, keep, faults, fs).1;
      Tallied(t, listing, r.stats, r.progress)
  {
    if folder in fs.dirs && listing != [] {
      RunTallied(t, folder, preview, listing, keep, faults, 0, Start(t, fs));
    }
  }

  // ----- errors -----

  /** With a well-formed registry no counter is ever missing, so a preview step always goes on. */
  lemma PreviewStepGoesOn(t: Table, folder: Path, listing: seq<string>, i: nat, st: PassState, faults: Faults)
    requires t.Valid() && i < |listing| && st.stats.Keys == t.lists.Keys
    ensures Step(t, folder, true, listing, i, st, faults).Next?
    ensures Step(t, folder, true, listing, i, st, faults).st.stats.Keys == t.lists.Keys
    ensures Step(t, folder, true, listing, i, st, faults).st.progress ==
      st.progress + if IsSystemOrHiddenFile(listing[i]) then [] else [i + 1]
  {
    if !IsSystemOrHiddenFile(listing[i]) {
      ClassifyIsCategory(t, listing[i]);
      CountBookkeeping(st, CategoryOf(t, listing[i]), i);
    }
  }

  lemma {:induction false} RunPreviewNeverFails(t: Table, folder: Path, listing: seq<string>, keep: nat -> bool, faults: Faults, i: nat, st: PassState)
    requires t.Valid() && i <= |listing| && st.stats.Keys == t.lists.Keys
    ensures Run(t, folder, true, listing, keep, faults, i, st).0 != Failed
    decreases |listing| - i
  {
    if i < |listing| && keep(i) {
      PreviewStepGoesOn(t, folder, listing, i, st, faults);
      RunPreviewNeverFails(t, folder, listing, keep, faults, i + 1, Step(t, folder, true, listing, i, st, faults).st);
    }
  }

  /** With a well-formed registry, a preview pass over a readable folder never fails. */
  lemma PreviewNeverFails(t: Table, folder: Path, listing: seq<string>, keep: nat -> bool, faults: Faults, fs: Fs)
    requires t.Valid() && folder in fs.dirs
    ensures Pass(t, folder, true, listing, keep, faults, fs).0 != Failed
  {
    if listing != [] {
      RunPreviewNeverFails(t, folder, listing, keep, faults, 0, Start(t, fs));
    }
  }

  /** The 1-based positions of the visible files among the first n of the listing, in order. */
  function VisiblePositions(listing: seq<string>, n: nat): seq<nat>
    requires n <= |listing|
  {
    if n == 0 then []
    else VisiblePositions(listing, n - 1) + if IsSystemOrHiddenFile(listing[n - 1]) then [] else [n]
  }

  /** They are well-formed progress reports, and every visible file among the first n is one of them. */
  lemma {:induction false} VisiblePositionsSpec(listing: seq<string>, n: nat)
    requires n <= |listing|
    ensures ProgressOk(listing, n, VisiblePositions(listing, n))
    ensures forall j :: 0 <= j < n && !IsSystemOrHiddenFile(listing[j]) ==> j + 1 in VisiblePositions(listing, n)
  {
    if n > 0 {
      VisiblePositionsSpec(listing, n - 1);
      ProgressStep(listing, n - 1, VisiblePositions(listing, n - 1), VisiblePositions(listing, n));
    }
  }

  /**
   * A pass whose every step keeps an invariant going and meets no error ends where it is
   * first told to stop, completed or cancelled, with the invariant still true.
   */
  lemma {:induction false} RunKeeps(t: Table, folder: Path, preview: bool, listing: seq<string>, keep: nat -> bool,
                                    faults: Faults, inv: (nat, PassState) -> bool, i: nat, st: PassState)
    requires i <= |listing| && inv(i, st)
    requires forall j, s {:trigger Step(t, folder, preview, listing, j, s, faults)} :: i <= j < |listing| && inv(j, s) ==>
      Step(t, folder, preview, listing, j, s, faults).Next? && inv(j + 1, Step(t, folder, preview, listing, j, s, faults).st)
    ensures var stop := StopAt(listing, keep, i);
      && Run(t, folder, preview, listing, keep, faults, i, st).0 == (if stop == |listing| then Completed else Cancelled)
      && inv(stop, Run(t, folder, preview, listing, keep, faults, i, st).1)
    decreases |listing| - i
  {
    if i < |listing| && keep(i) {
      var s := KeptStepOn(t, folder, preview, listing, keep, faults, inv, i, st);
      RunKeeps(t, folder, preview, listing, keep, faults, inv, i + 1, s);
    } else if i < |listing| {
      RunCancel(t, folder, preview, listing, keep, faults, i, st);
    }
  }

  /** One step of RunKeeps: the pass goes on from the next state, where the invariant and the hypothesis still hold. */
  lemma KeptStepOn(t: Table, folder: Path, preview: bool, listing: seq<string>, keep: nat -> bool,
                   faults: Faults, inv: (nat, PassState) -> bool, i: nat, st: PassState) returns (s: PassState)
    requires i < |listing| && keep(i) && inv(i, st)
    requires forall j, s {:trigger Step(t, folder, preview, listing, j, s, faults)} :: i <= j < |listing| && inv(j, s) ==>
      Step(t, folder, preview, listing, j, s, faults).Next? && inv(j + 1, Step(t, folder, preview, listing, j, s, faults).st)
    ensures inv(i + 1, s) && StopAt(listing, keep, i) == StopAt(listing, keep, i + 1)
    ensures forall j, s {:trigger Step(t, folder, preview, listing, j, s, faults)} :: i + 1 <= j < |listing| && inv(j, s) ==>
      Step(t, folder, preview, listing, j, s, faults).Next? && inv(j + 1, Step(t, folder, preview, listing, j, s, faults).st)
    ensures Run(t, folder, preview, listing, keep, faults, i, st) == Run(t, folder, preview, listing, keep, faults, i + 1, s)
  {
    s := Step(t, folder, preview, listing, i, st, faults).st;
    RunNext(t, folder, preview, listing, keep, faults, i, st, s);
  }

  /** What a preview keeps true from position j on: every category is counted, every visible file so far reported. */
  ghost predicate PreviewSoFar(t: Table, listing: seq<string>, j: nat, s: PassState)
  {
    j <= |listing| && s.stats.Keys == t.lists.Keys && s.progress == VisiblePositions(listing, j)
  }

  lemma PreviewStepsKeep(t: Table, folder: Path, listing: seq<string>, faults: Faults)
    requires t.Valid()
    ensures forall j, s :: 0 <= j < |listing| && PreviewSoFar(t, listing, j, s) ==>
      Step(t, folder, true, listing, j, s, faults).Next? && PreviewSoFar(t, listing, j + 1, Step(t, folder, true, listing, j, s, faults).st)
  {
    forall j, s | 0 <= j < |listing| && PreviewSoFar(t, listing, j, s)
      ensures Step(t, folder, true, listing, j, s, faults).Next?
      ensures PreviewSoFar(t, listing, j + 1, Step(t, folder, true, listing, j, s, faults).st)
    {
      PreviewStepGoesOn(t, folder, listing, j, s, faults);
    }
  }

  lemma RunPreviewReports(t: Table, folder: Path, listing: seq<string>, keep: nat -> bool, faults: Faults, st: PassState)
    requires t.Valid() && st.stats.Keys == t.lists.Keys && st.progress == []
    ensures var r := Run(t, folder, true, listing, keep, faults, 0, st);
      var stop := StopAt(listing, keep, 0);
      r.0 == (if stop == |listing| then Completed else Cancelled) && r.1.progress == VisiblePositions(listing, stop)
  {
    PreviewStepsKeep(t, folder, listing, faults);
    var inv := (j: nat, s: PassState) => PreviewSoFar(t, listing, j, s);
    RunKeeps(t, folder, true, listing, keep, faults, inv, 0, st);
  }

  /**
   * Conversely to ProgressReportsVisibleFiles: a preview over a readable folder reports
   * every visible file before the point where it was cancelled, in order, and completes
   * exactly when it was never told to stop.
   */
  lemma PreviewReportsEveryVisibleFile(t: Table, folder: Path, listing: seq<string>, keep: nat -> bool, faults: Faults, fs: Fs)
    requires t.Valid()
    ensures var r := Pass(t, folder, true, listing, keep, faults, fs);
      var stop := StopAt(listing, keep, 0);
      && (folder !in fs.dirs ==> r.0 == Failed && r.1.progress == [])
      && (folder in fs.dirs && listing != [] ==>
            r.1.progress == VisiblePositions(listing, stop) && r.0 == if stop == |listing| then Completed else Cancelled)
  {
    if folder in fs.dirs && listing != [] {
      RunPreviewReports(t, folder, listing, keep, faults, Start(t, fs));
    }
  }

  // ----- a pass without errors -----

  /** No file sits on the folder or above it, nor where the category folder of a listed file goes. */
  ghost predicate RoomForCategories(t: Table, folder: Path, listing: seq<string>, fs: Fs)
  {
    && (forall k :: 0 <= k <= |folder| ==> folder[..k] !in fs.files)
    && (forall j :: 0 <= j < |listing| ==> folder + [CategoryOf(t, listing[j])] !in fs.files)
  }

  ghost predicate NoFaults(faults: Faults, i: nat)
  {
    !faults.makedirs(i) && !faults.move(i) && !faults.times(i)
  }

  /** What a real pass that meets no error keeps true from position i on. */
  ghost predicate Smooth(t: Table, fs0: Fs, folder: Path, listing: seq<string>, i: nat, st: PassState)
  {
    && Replayable(t, fs0, folder, listing, i, st)
    && RoomForCategories(t, folder, listing, st.fs)
    && st.stats.Keys == t.lists.Keys
    && st.progress == VisiblePositions(listing, i)
  }

  /** Moving a file to a path two levels below the folder keeps the room. */
  lemma RoomAfterMove(t: Table, folder: Path, listing: seq<string>, fs: Fs, src: Path, dest: Path, v: Bytes)
    requires RoomForCategories(t, folder, listing, fs) && |dest| == |folder| + 2
    ensures RoomForCategories(t, folder, listing, Fs((fs.files - {src})[dest := v], fs.dirs))
  {
  }

  /** The category folder of a listed file can be made, or is there already. */
  lemma CategoryFolderReady(t: Table, folder: Path, listing: seq<string>, fs: Fs, i: nat)
    requires i < |listing| && RoomForCategories(t, folder, listing, fs)
    ensures var cp := Join(folder, CategoryOf(t, listing[i]));
      var made := EnsureDir(fs, cp, false);
      made.Some? && cp in made.value.dirs
  {
    var cp := Join(folder, CategoryOf(t, listing[i]));
    forall k | 0 <= k <= |cp| ensures cp[..k] !in fs.files {
      if k <= |folder| {
        assert cp[..k] == folder[..k];
      } else {
        assert cp[..k] == cp;
      }
    }
  }

  lemma SmoothStep(t: Table, fs0: Fs, folder: Path, listing: seq<string>, i: nat, st: PassState, faults: Faults)
    requires t.Valid() && i < |listing| && NoFaults(faults, i) && Smooth(t, fs0, folder, listing, i, st)
    ensures Step(t, folder, false, listing, i, st, faults).Next?
    ensures Smooth(t, fs0, folder, listing, i + 1, Step(t, folder, false, listing, i, st, faults).st)
  {
    StepOutcome(t, folder, false, listing, i, st, faults);
    StepReplayable(t, fs0, folder, listing, i, st, faults);
    var name := listing[i];
    if !IsSystemOrHiddenFile(name) {
      var c := CategoryOf(t, name);
      ClassifyIsCategory(t, name);
      var cp := Join(folder, c);
      CategoryFolderReady(t, folder, listing, st.fs, i);
      var m := EnsureDir(st.fs, cp, false).value;
      var src := Join(folder, name);
      assert src in st.fs.files;
      var dest := ResolvePath(m, Join(cp, name));
      assert |dest| == |folder| + 2;
      RoomAfterMove(t, folder, listing, m, src, dest, m.files[src]);
    }
  }

  lemma SmoothStepsKeep(t: Table, fs0: Fs, folder: Path, listing: seq<string>, faults: Faults)
    requires t.Valid() && forall j :: 0 <= j < |listing| ==> NoFaults(faults, j)
    ensures forall j, s :: 0 <= j < |listing| && Smooth(t, fs0, folder, listing, j, s) ==>
      Step(t, folder, false, listing, j, s, faults).Next? && Smooth(t, fs0, folder, listing, j + 1, Step(t, folder, false, listing, j, s, faults).st)
  {
    forall j, s | 0 <= j < |listing| && Smooth(t, fs0, folder, listing, j, s)
      ensures Step(t, folder, false, listing, j, s, faults).Next?
      ensures Smooth(t, fs0, folder, listing, j + 1, Step(t, folder, false, listing, j, s, faults).st)
    {
      SmoothStep(t, fs0, folder, listing, j, s, faults);
    }
  }

  lemma RunSmooth(t: Table, fs0: Fs, folder: Path, listing: seq<string>, keep: nat -> bool, faults: Faults, st: PassState)
    requires t.Valid() && Smooth(t, fs0, folder, listing, 0, st)
    requires forall j :: 0 <= j < |listing| ==> keep(j) && NoFaults(faults, j)
    ensures Run(t, folder, false, listing, keep, faults, 0, st).0 == Completed
    ensures Run(t, folder, false, listing, keep, faults, 0, st).1.progress == VisiblePositions(listing, |listing|)
  {
    SmoothStepsKeep(t, fs0, folder, listing, faults);
    var inv := (j: nat, s: PassState) => Smooth(t, fs0, folder, listing, j, s);
    RunKeeps(t, folder, false, listing, keep, faults, inv, 0, st);
    assert StopAt(listing, keep, 0) == |listing|;
  }

  /**
   * A real pass over a folder's files that meets no I/O error and is never cancelled
   * completes, reports every visible file, and records exactly one move per visible
   * file, in listing order, from the folder into its category folder.
   */
  lemma FaultFreePassMovesEveryVisibleFile(t: Table, folder: Path, listing: seq<string>, keep: nat -> bool, faults: Faults, fs0: Fs)
    requires t.Valid() && IsListing(fs0, folder, listing) && NoNameClash(t, listing)
    requires forall i :: 0 <= i < |listing| ==> folder + [listing[i]] !in fs0.dirs
    requires forall k :: 0 <= k <= |folder| ==> folder[..k] !in fs0.files
    requires forall j :: 0 <= j < |listing| ==> keep(j) && NoFaults(faults, j)
    ensures var r := Pass(t, folder, false, listing, keep, faults, fs0);
      && r.0 == (if listing == [] then NoFiles else Completed)
      && r.1.progress == VisiblePositions(listing, |listing|)
      && Recorded(t, folder, listing, r.1.ops, r.1.progress)
  {
    RecordsMatchProgress(t, folder, listing, keep, faults, fs0);
    if listing != [] {
      SmoothAtStart(t, folder, listing, fs0);
      RunSmooth(t, fs0, folder, listing, keep, faults, Start(t, fs0));
    }
  }

  /** A pass over a folder's files, with nothing in the way of its category folders, starts smoothly. */
  lemma SmoothAtStart(t: Table, folder: Path, listing: seq<string>, fs0: Fs)
    requires t.Valid() && IsListing(fs0, folder, listing) && NoNameClash(t, listing)
    requires forall i :: 0 <= i < |listing| ==> folder + [listing[i]] !in fs0.dirs
    requires forall k :: 0 <= k <= |folder| ==> folder[..k] !in fs0.files
    ensures Smooth(t, fs0, folder, listing, 0, Start(t, fs0))
  {
    ListingLeavesRoom(t, folder, listing, fs0);
    assert Undoable(fs0, folder, listing, [], fs0);
  }

  /** The files of a folder never sit where a category folder of one of them goes. */
  lemma ListingLeavesRoom(t: Table, folder: Path, listing: seq<string>, fs0: Fs)
    requires IsListing(fs0, folder, listing) && NoNameClash(t, listing)
    requires forall k :: 0 <= k <= |folder| ==> folder[..k] !in fs0.files
    ensures RoomForCategories(t, folder, listing, fs0)
  {
    forall j | 0 <= j < |listing| ensures folder + [CategoryOf(t, listing[j])] !in fs0.files {
      var p := folder + [CategoryOf(t, listing[j])];
      assert p[..|folder|] == folder && p[|folder|] == CategoryOf(t, listing[j]);
    }
  }

  // ----- cancellation -----

  /** The listed files from position i on still hold what they held at the start. */
  ghost predicate KeptFrom(fs0: Fs, folder: Path, listing: seq<string>, i: nat, fs: Fs)
  {
    forall j :: i <= j < |listing| && folder + [listing[j]] in fs0.files ==>
      folder + [listing[j]] in fs.files && fs.files[folder + [listing[j]]] == fs0.files[folder + [listing[j]]]
  }

  /** One step touches no listed file but its own. */
  lemma KeptStep(t: Table, fs0: Fs, folder: Path, preview: bool, listing: seq<string>, i: nat, st: PassState, faults: Faults)
    requires i < |listing| && Distinct(listing) && KeptFrom(fs0, folder, listing, i, st.fs)
    ensures var r := Step(t, folder, preview, listing, i, st, faults);
      KeptFrom(fs0, folder, listing, i + 1, if r.Next? then r.st.fs else r.fs)
  {
    StepOutcome(t, folder, preview, listing, i, st, faults);
    var name := listing[i];
    if !IsSystemOrHiddenFile(name) && !preview {
      var c := CategoryOf(t, name);
      var cp := Join(folder, c);
      var made := EnsureDir(st.fs, cp, faults.makedirs(i));
      if made.Some? {
        forall j | i + 1 <= j < |listing| ensures folder + [listing[j]] != Join(folder, name) {
          assert (folder + [listing[j]])[|folder|] != (folder + [name])[|folder|];
        }
      }
    }
  }

  lemma {:induction false} RunKeepsRest(t: Table, fs0: Fs, folder: Path, preview: bool, listing: seq<string>, keep: nat -> bool,
                                        faults: Faults, i: nat, st: PassState, bound: nat)
    requires KeptUntil(keep, i, bound, |listing|) && Distinct(listing) && KeptFrom(fs0, folder, listing, i, st.fs)
    ensures KeptFrom(fs0, folder, listing, bound, Run(t, folder, preview, listing, keep, faults, i, st).1.fs)
    decreases |listing| - i
  {
    if i < |listing| && keep(i) {
      KeptStep(t, fs0, folder, preview, listing, i, st, faults);
      RunKept(t, folder, preview, listing, keep, faults, i, st);
      var r := Step(t, folder, preview, listing, i, st, faults);
      if r.Next? {
        assert KeptUntil(keep, i + 1, bound, |listing|);
        RunKeepsRest(t, fs0, folder, preview, listing, keep, faults, i + 1, r.st, bound);
      }
    } else {
      assert bound == i;
      assert Run(t, folder, preview, listing, keep, faults, i, st).1 == st;
    }
  }

  /**
   * A pass never touches a listed file at or after the point where it was told to stop:
   * when it is cancelled, every file it had not reached yet is still in the folder with
   * its contents (and however else it ends, the files past that point are too).
   */
  lemma PassSparesTheRest(t: Table, folder: Path, preview: bool, listing: seq<string>, keep: nat -> bool, faults: Faults, fs0: Fs)
    requires Distinct(listing)
    ensures KeptFrom(fs0, folder, listing, StopAt(listing, keep, 0), Pass(t, folder, preview, listing, keep, faults, fs0).1.fs)
  {
    if folder in fs0.dirs && listing != [] {
      RunKeepsRest(t, fs0, folder, preview, listing, keep, faults, 0, Start(t, fs0), StopAt(listing, keep, 0));
    }
  }

  // ----- undo -----

  lemma {:induction false} UndoPrefixCounts(fs: Fs, ops: seq<Op>, faults: Faults, n: nat)
    requires n <= |ops|
    ensures UndoPrefix(fs, ops, faults, n).0 + UndoPrefix(fs, ops, faults, n).1 == n
  {
    if n > 0 {
      UndoPrefixCounts(fs, ops, faults, n - 1);
    }
  }

  /**
   * Undo without a record or without confirmation changes nothing; a confirmed undo
   * accounts for every recorded move as restored or failed, and clears the record.
   */
  lemma UndoAccountsForEveryMove(last: Option<seq<Op>>, confirmed: bool, fs: Fs, faults: Faults)
    ensures var (result, f, after) := Undo(last, confirmed, fs, faults);
      && (last.None? || last.value == [] ==> result == NothingToUndo && f == fs && after == last)
      && (last.Some? && last.value != [] && !confirmed ==> result == Declined && f == fs && after == last)
      && (last.Some? && last.value != [] && confirmed ==>
            result.Undone? && result.restored + result.errors == |last.value| && after == None)
  {
    if last.Some? && last.value != [] && confirmed {
      UndoPrefixCounts(fs, last.value, faults, |last.value|);
    }
  }

  // ----- sort, then undo -----

  /**
   * The shape of a recorded operation: each move goes from a file directly inside the
   * folder, named in the listing, to a path one level deeper; no two moves share a path.
   */
  ghost predicate OpsShape(folder: Path, listing: seq<string>, ops: seq<Op>)
  {
    && (forall k :: 0 <= k < |ops| ==> (
          && |ops[k].0| == |folder| + 2 && ops[k].1 == folder + [Basename(ops[k].1)]
          && Basename(ops[k].1) in listing))
    && (forall k, l :: 0 <= k < l < |ops| ==> ops[k].0 != ops[l].0 && ops[k].1 != ops[l].1)
  }

  /**
   * The recorded moves can be replayed backwards: each destination holds the bytes its
   * source had at the start, and no source exists any more.
   */
  ghost predicate Undoable(fs0: Fs, folder: Path, listing: seq<string>, ops: seq<Op>, fs: Fs)
  {
    && OpsShape(folder, listing, ops)
    && folder in fs.dirs
    && (forall k :: 0 <= k < |ops| ==> (
          && ops[k].0 in fs.files && ops[k].1 in fs0.files && fs.files[ops[k].0] == fs0.files[ops[k].1]
          && ops[k].1 !in fs.files && ops[k].1 !in fs.dirs))
  }

  /** The files the pass has not reached yet are still where they were, as they were. */
  ghost predicate Pending(fs0: Fs, folder: Path, listing: seq<string>, i: nat, fs: Fs)
  {
    forall j :: i <= j < |listing| ==> (
      var p := folder + [listing[j]];
      p in fs.files && p in fs0.files && fs.files[p] == fs0.files[p] && p !in fs.dirs)
  }

  /** No listed file is named like the category folder of a listed file. */
  ghost predicate NoNameClash(t: Table, listing: seq<string>)
  {
    forall i, j :: 0 <= i < |listing| && 0 <= j < |listing| ==> listing[i] != CategoryOf(t, listing[j])
  }

  ghost predicate Distinct(listing: seq<string>)
  {
    forall i, j :: 0 <= i < j < |listing| ==> listing[i] != listing[j]
  }

  /** Creating a category folder whose name no listed file has disturbs neither the record nor the pending files. */
  lemma MakeDirsKeepsUndoable(fs0: Fs, folder: Path, listing: seq<string>, i: nat, ops: seq<Op>, fs: Fs, c: string, fault: bool)
    requires Undoable(fs0, folder, listing, ops, fs) && Pending(fs0, folder, listing, i, fs)
    requires forall j :: 0 <= j < |listing| ==> listing[j] != c
    ensures var made := MakeDirs(fs, folder + [c], fault);
      made.Some? ==> Undoable(fs0, folder, listing, ops, made.value) && Pending(fs0, folder, listing, i, made.value)
  {
    var d := folder + [c];
    var made := MakeDirs(fs, d, fault);
    if made.Some? {
      var m := made.value;
      forall x | x in listing && folder + [x] !in fs.dirs ensures folder + [x] !in m.dirs {
        assert (folder + [x])[|folder|] == x != c == d[|folder|];
        assert d[..|d|] == d;
      }
      forall k | 0 <= k < |ops| ensures ops[k].1 !in m.dirs {
        assert Basename(ops[k].1) in listing;
      }
      forall j | i <= j < |listing| ensures folder + [listing[j]] !in m.dirs {
        assert listing[j] in listing;
      }
    }
  }

  /**
   * Moving the i-th listed file to a fresh path one level deeper keeps the old record
   * replayable, and the record extended by that move as well.
   */
  lemma MoveKeepsUndoable(fs0: Fs, folder: Path, listing: seq<string>, i: nat, ops: seq<Op>, fs: Fs, dest: Path, fault: bool)
    requires i < |listing| && Distinct(listing)
    requires Undoable(fs0, folder, listing, ops, fs) && Pending(fs0, folder, listing, i, fs)
    requires !Exists(fs, dest) && |dest| == |folder| + 2
    ensures var src := folder + [listing[i]];
      var moved := Move(fs, src, dest, fault);
      moved.Some? ==> && Undoable(fs0, folder, listing, ops, moved.value)
                      && Undoable(fs0, folder, listing, ops + [(dest, src)], moved.value)
                      && Pending(fs0, folder, listing, i + 1, moved.value)
  {
    var src := folder + [listing[i]];
    var moved := Move(fs, src, dest, fault);
    if moved.Some? {
      var m := moved.value;
      assert Target(fs, src, dest) == dest;
      assert m.files == (fs.files - {src})[dest := fs.files[src]];
      var ops' := ops + [(dest, src)];
      assert Basename(src) == listing[i];
      forall k | 0 <= k < |ops'|
        ensures |ops'[k].0| == |folder| + 2 && ops'[k].1 == folder + [Basename(ops'[k].1)]
        ensures Basename(ops'[k].1) in listing
        ensures ops'[k].0 in m.files && ops'[k].1 in fs0.files && m.files[ops'[k].0] == fs0.files[ops'[k].1]
        ensures ops'[k].1 !in m.files && ops'[k].1 !in m.dirs
      {
        if k < |ops| {
          assert ops'[k] == ops[k];
        }
      }
      forall k, l | 0 <= k < l < |ops'| ensures ops'[k].0 != ops'[l].0 && ops'[k].1 != ops'[l].1 {
        if l < |ops| {
          assert ops'[k] == ops[k] && ops'[l] == ops[l];
        } else {
          assert ops'[k] == ops[k];
        }
      }
      forall j | i + 1 <= j < |listing| ensures folder + [listing[j]] != src {
        assert (folder + [listing[j]])[|folder|] != src[|folder|];
      }
    }
  }

  lemma RelocateKeepsUndoable(fs0: Fs, folder: Path, listing: seq<string>, i: nat, st: PassState, c: string, dest: Path, faults: Faults)
    requires i < |listing| && Distinct(listing)
    requires Undoable(fs0, folder, listing, st.ops, st.fs) && Pending(fs0, folder, listing, i, st.fs)
    requires !Exists(st.fs, dest) && |dest| == |folder| + 2
    ensures match Relocate(st, i, c, folder + [listing[i]], dest, faults)
      case Next(s) => Undoable(fs0, folder, listing, s.ops, s.fs) && Pending(fs0, folder, listing, i + 1, s.fs)
      case Abort(f) => Undoable(fs0, folder, listing, st.ops, f)
  {
    var src := folder + [listing[i]];
    MoveKeepsUndoable(fs0, folder, listing, i, st.ops, st.fs, dest, faults.move(i));
    match Move(st.fs, src, dest, faults.move(i))
    case None =>
    case Some(moved) =>
      if !faults.times(i) {
        CountBookkeeping(st.(fs := moved, ops := st.ops + [(dest, src)]), c, i);
      }
  }

  /** One step of a real pass keeps the record replayable, provided no listed name is a category folder's. */
  lemma StepKeepsUndoable(t: Table, fs0: Fs, folder: Path, listing: seq<string>, i: nat, st: PassState, faults: Faults)
    requires i < |listing| && Distinct(listing) && NoNameClash(t, listing)
    requires Undoable(fs0, folder, listing, st.ops, st.fs) && Pending(fs0, folder, listing, i, st.fs)
    ensures var r := Step(t, folder, false, listing, i, st, faults);
      && (r.Next? ==> Undoable(fs0, folder, listing, r.st.ops, r.st.fs) && Pending(fs0, folder, listing, i + 1, r.st.fs))
      && (r.Abort? ==> Undoable(fs0, folder, listing, st.ops, r.fs))
  {
    var name := listing[i];
    if !IsSystemOrHiddenFile(name) {
      var c := CategoryOf(t, name);
      var categoryPath := Join(folder, c);
      assert forall j :: 0 <= j < |listing| ==> listing[j] != c;
      if !Exists(st.fs, categoryPath) {
        MakeDirsKeepsUndoable(fs0, folder, listing, i, st.ops, st.fs, c, faults.makedirs(i));
      }
      var made := EnsureDir(st.fs, categoryPath, faults.makedirs(i));
      if made.Some? {
        var dest := ResolvePath(made.value, Join(categoryPath, name));
        assert Dirname(dest) == categoryPath;
        assert |dest| == |folder| + 2;
        RelocateKeepsUndoable(fs0, folder, listing, i, st.(fs := made.value), c, dest, faults);
      }
    }
  }

  /** What a real pass keeps true from position i on. */
  ghost predicate Replayable(t: Table, fs0: Fs, folder: Path, listing: seq<string>, i: nat, st: PassState)
  {
    && i <= |listing| && Distinct(listing) && NoNameClash(t, listing)
    && Undoable(fs0, folder, listing, st.ops, st.fs) && Pending(fs0, folder, listing, i, st.fs)
  }

  lemma StepReplayable(t: Table, fs0: Fs, folder: Path, listing: seq<string>, i: nat, st: PassState, faults: Faults)
    requires i < |listing| && Replayable(t, fs0, folder, listing, i, st)
    ensures var r := Step(t, folder, false, listing, i, st, faults);
      && (r.Next? ==> Replayable(t, fs0, folder, listing, i + 1, r.st))
      && (r.Abort? ==> Undoable(fs0, folder, listing, st.ops, r.fs))
  {
    StepKeepsUndoable(t, fs0, folder, listing, i, st, faults);
  }

  lemma {:induction false} RunKeepsUndoable(t: Table, fs0: Fs, folder: Path, listing: seq<string>, keep: nat -> bool, faults: Faults,
                                            i: nat, st: PassState)
    requires Replayable(t, fs0, folder, listing, i, st)
    ensures var r := Run(t, folder, false, listing, keep, faults, i, st).1;
      Undoable(fs0, folder, listing, r.ops, r.fs)
    decreases |listing| - i
  {
    if i < |listing| && keep(i) {
      StepReplayable(t, fs0, folder, listing, i, st, faults);
      var r := Step(t, folder, false, listing, i, st, faults);
      if r.Next? {
        RunKeepsUndoable(t, fs0, folder, listing, keep, faults, i + 1, r.st);
      }
    }
  }

  /**
   * Undo has replayed the first n moves: their sources hold the original bytes again and
   * their destinations are gone; the other moves are still replayable.
   */
  ghost predicate UndoneUpTo(fs0: Fs, folder: Path, listing: seq<string>, ops: seq<Op>, n: nat, f: Fs)
  {
    n <= |ops| && OpsShape(folder, listing, ops) && folder in f.dirs && RestoredBefore(fs0, ops, n, f) && MovedFrom(fs0, ops, n, f)
  }

  ghost predicate RestoredBefore(fs0: Fs, ops: seq<Op>, n: nat, f: Fs)
    requires n <= |ops|
  {
    forall k :: 0 <= k < n ==> (
      && ops[k].1 in f.files && ops[k].1 in fs0.files && f.files[ops[k].1] == fs0.files[ops[k].1]
      && ops[k].0 !in f.files)
  }

  ghost predicate MovedFrom(fs0: Fs, ops: seq<Op>, n: nat, f: Fs)
  {
    forall k :: n <= k < |ops| ==> (
      && ops[k].0 in f.files && ops[k].1 in fs0.files && f.files[ops[k].0] == fs0.files[ops[k].1]
      && ops[k].1 !in f.files && ops[k].1 !in f.dirs)
  }

  /** Moving the n-th file back restores it and disturbs no other recorded move. */
  lemma UndoStepRestores(fs0: Fs, folder: Path, listing: seq<string>, ops: seq<Op>, n: nat, f: Fs, faults: Faults)
    requires n < |ops| && UndoneUpTo(fs0, folder, listing, ops, n, f) && !faults.move(n)
    ensures var (ok, g) := MoveFileSpec(f, ops[n].0, ops[n].1, faults.makedirs(n), faults.move(n), faults.times(n));
      UndoneUpTo(fs0, folder, listing, ops, n + 1, g) && ok == !faults.times(n)
  {
    var (d, s) := ops[n];
    assert Dirname(s) == folder;
    var mv := Move(f, d, s, false);
    assert Target(f, d, s) == s;
    assert mv.Some?;
    var g := mv.value;
    assert g.files == (f.files - {d})[s := f.files[d]];
    forall k | 0 <= k < |ops| && k != n ensures ops[k].0 != d && ops[k].1 != s {
      if k < n {
        assert ops[k].0 != ops[n].0 && ops[k].1 != ops[n].1;
      } else {
        assert ops[n].0 != ops[k].0 && ops[n].1 != ops[k].1;
      }
    }
  }

  lemma UndoableStartsUndo(fs0: Fs, folder: Path, listing: seq<string>, ops: seq<Op>, fs: Fs)
    requires Undoable(fs0, folder, listing, ops, fs)
    ensures UndoneUpTo(fs0, folder, listing, ops, 0, fs)
  {
  }

  ghost predicate MovesSucceed(faults: Faults, n: nat)
  {
    forall k :: 0 <= k < n ==> !faults.move(k)
  }

  ghost predicate TimesSucceed(faults: Faults, n: nat)
  {
    forall k :: 0 <= k < n ==> !faults.times(k)
  }

  /** The n-th replayed move, in terms of the undo loop. */
  lemma UndoPrefixStep(fs0: Fs, folder: Path, listing: seq<string>, ops: seq<Op>, fs: Fs, faults: Faults, n: nat)
    requires 0 < n <= |ops| && !faults.move(n - 1)
    requires UndoneUpTo(fs0, folder, listing, ops, n - 1, UndoPrefix(fs, ops, faults, n - 1).2)
    ensures UndoneUpTo(fs0, folder, listing, ops, n, UndoPrefix(fs, ops, faults, n).2)
    ensures UndoPrefix(fs, ops, faults, n).0 == UndoPrefix(fs, ops, faults, n - 1).0 + if faults.times(n - 1) then 0 else 1
  {
    var u := UndoPrefix(fs, ops, faults, n - 1);
    UndoPrefixNext(fs, ops, faults, n - 1, u.0, u.1, u.2);
    UndoStepRestores(fs0, folder, listing, ops, n - 1, u.2, faults);
    var m := MoveFileSpec(u.2, ops[n - 1].0, ops[n - 1].1, faults.makedirs(n - 1), faults.move(n - 1), faults.times(n - 1));
    assert UndoPrefix(fs, ops, faults, n).2 == m.1;
  }

  lemma {:induction false} UndoPrefixRestores(fs0: Fs, folder: Path, listing: seq<string>, ops: seq<Op>, fs: Fs, faults: Faults, n: nat)
    requires n <= |ops| && Undoable(fs0, folder, listing, ops, fs)
    requires MovesSucceed(faults, |ops|)
    ensures UndoneUpTo(fs0, folder, listing, ops, n, UndoPrefix(fs, ops, faults, n).2)
    ensures TimesSucceed(faults, n) ==> UndoPrefix(fs, ops, faults, n).0 == n
  {
    if n == 0 {
      UndoableStartsUndo(fs0, folder, listing, ops, fs);
    } else {
      UndoPrefixRestores(fs0, folder, listing, ops, fs, faults, n - 1);
      UndoPrefixStep(fs0, folder, listing, ops, fs, faults, n);
    }
  }

  /** Whatever way a pass over a folder's files ends, its recorded moves can be replayed backwards. */
  lemma PassLeavesUndoable(t: Table, folder: Path, listing: seq<string>, keep: nat -> bool, faults: Faults, fs0: Fs)
    requires IsListing(fs0, folder, listing) && NoNameClash(t, listing)
    requires forall i :: 0 <= i < |listing| ==> folder + [listing[i]] !in fs0.dirs
    ensures var r := Pass(t, folder, false, listing, keep, faults, fs0).1;
      Undoable(fs0, folder, listing, r.ops, r.fs)
  {
    var st := Start(t, fs0);
    assert Undoable(fs0, folder, listing, st.ops, st.fs);
    if listing != [] {
      assert Replayable(t, fs0, folder, listing, 0, st);
      RunKeepsUndoable(t, fs0, folder, listing, keep, faults, 0, st);
    }
  }

  /**
   * Undoing a replayable record with every move succeeding puts each moved file back
   * under its old name with its old contents and leaves nothing where it was moved to;
   * without a failed timestamp copy every move counts as restored.
   */
  lemma UndoRestoresAll(fs0: Fs, folder: Path, listing: seq<string>, ops: seq<Op>, fs: Fs, undoFaults: Faults)
    requires Undoable(fs0, folder, listing, ops, fs)
    requires forall k :: !undoFaults.move(k)
    ensures var u := Undo(Some(ops), true, fs, undoFaults);
      && RestoredBefore(fs0, ops, |ops|, u.1)
      && (ops != [] && (forall k :: !undoFaults.times(k)) ==> u.0 == Undone(|ops|, 0))
  {
    if ops != [] {
      assert MovesSucceed(undoFaults, |ops|);
      UndoPrefixRestores(fs0, folder, listing, ops, fs, undoFaults, |ops|);
      var (restored, errors, f) := UndoPrefix(fs, ops, undoFaults, |ops|);
      assert Undo(Some(ops), true, fs, undoFaults) == (Undone(restored, errors), f, None);
      if forall k :: !undoFaults.times(k) {
        assert TimesSucceed(undoFaults, |ops|);
        UndoPrefixCounts(fs, ops, undoFaults, |ops|);
      }
    }
  }

  /**
   * Sorting a folder and then undoing the pass puts every moved file back under its
   * old name with its old contents, and leaves nothing at the places it was moved to;
   * without a failed timestamp copy every move counts as restored.
   */
  lemma SortThenUndoRestores(t: Table, folder: Path, listing: seq<string>, keep: nat -> bool, faults: Faults, fs0: Fs,
                             undoFaults: Faults)
    requires IsListing(fs0, folder, listing) && NoNameClash(t, listing)
    requires forall i :: 0 <= i < |listing| ==> folder + [listing[i]] !in fs0.dirs
    requires forall k :: !undoFaults.move(k)
    ensures var r := Pass(t, folder, false, listing, keep, faults, fs0).1;
      var u := Undo(Some(r.ops), true, r.fs, undoFaults);
      && RestoredBefore(fs0, r.ops, |r.ops|, u.1)
      && (r.ops != [] && (forall k :: !undoFaults.times(k)) ==> u.0 == Undone(|r.ops|, 0))
  {
    PassLeavesUndoable(t, folder, listing, keep, faults, fs0);
    var r := Pass(t, folder, false, listing, keep, faults, fs0).1;
    UndoRestoresAll(fs0, folder, listing, r.ops, r.fs, undoFaults);
  }
}
