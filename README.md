# File Sorter — a verified model of its core

File Sorter is a desktop tool that tidies a folder. It looks at every regular file
directly inside the folder, picks a category from the file's extension ("Images",
"Documents", "Code", … with "Others" as the catch-all), and moves the file into a
sub-folder of that name. It renames the file when that name is already taken. A
preview mode only counts what would happen. The moves of a real pass are remembered,
so that one undo can move the files back. There is also a backup/restore pair that
copies the folder's files aside and back.

This project models that core in Dafny and proves what it promises.

- `FileSystem` (`filesystem.dfy`) is an abstract disk. It holds the files with their
  bytes and the set of directories. It offers the `os` / `shutil` primitives the
  application uses: `makedirs`, `move`, `copy2` and a directory listing. Each primitive
  that can raise returns `None`. A fault flag stands for I/O errors that the state
  alone does not determine.
- `Strings` (`strings.dfy`) holds the Python string operations the core relies on:
  `lower`, `os.path.splitext` and `str(n)`.
- `Categories` (`file_categories.dfy`) is the category registry. It has an ordered
  table of categories and the index from lower-cased extension to category. A class
  `FileCategories` holds the two.
- `FileOperations` (`file_operations.dfy`) holds the duplicate-name resolution, the
  hidden-file test, `move_file`, and backup/restore. A class `FileOperations` holds
  the disk and the `backupDir` slot.
- `FileSorter` (`file_sorter.dfy`) holds the sorting pass and the undo. They are
  specified by the functions `Pass` and `Undo`. The class `FileSorterApp` holds
  `lastOperation` and `isSorting`, and its methods are proved against those functions.
- `SorterProperties` (`sorter_properties.dfy`) proves the pass's promises:
  - the exact effect of one iteration;
  - a preview changes nothing;
  - progress is reported only for visible files, in order, and a preview reports every one of them;
  - a real pass without errors or cancellation moves every visible file, once, provided no listed file is named like a category folder and no file sits on the folder's own path;
  - the recorded moves of any real pass have pairwise distinct destinations;
  - a cancelled pass leaves the files it had not reached untouched;
  - the undo record matches the counted files;
  - the counters are per-category tallies;
  - a preview never fails;
  - undo accounts for every recorded move.

Environment inputs are parameters of the model:
- the folder listing (the order `os.scandir` returns);
- the clock (`now`);
- the cancellation flag read before each file (`keep`, the value of `is_sorting` that
  another thread may clear);
- the user's answer to the undo confirmation (`confirmed`);
- the I/O faults.

## Model

| member | source | states |
|---|---|---|
| Categories.DefaultTable | file_categories.py:14-26 | the default registry with its eleven categories in order, which is well formed (distinct names, names = keys, "Others" present) |
| Categories.AddExtensions | file_categories.py:36-37 | the inner loop of the index rebuild, one category's extensions written in order (its contents are stated by AddExtensionsLookup) |
| Categories.BuildIndex | file_categories.py:32-37 | the index rebuild over the categories in table order (its contents are stated by BuildIndexIsLastClaimant and IndexKeysAreClaimed) |
| Categories.LastClaimantSpec | file_categories.py:32-37 | the reference definition of the index finds no category exactly when none claims the extension, and otherwise the last category in table order that claims it |
| Categories.AddExtensionsLookup | file_categories.py:36-37 | the inner loop adds precisely the lower-cased extensions of one category, mapping them to it and leaving other keys alone |
| Categories.BuildIndexIsLastClaimant | file_categories.py:32-37 | after the rebuild an extension has an entry iff some category claims it, and the entry is the last claimant (later categories overwrite earlier ones) |
| Categories.IndexKeysAreClaimed | file_categories.py:35-37 | every key of the index is lower case and is claimed by the category it maps to, which is a table category |
| Categories.Classify | file_categories.py:48-56 | the lookup of the lower-cased extension with "Others" as fallback (its meaning is stated by ClassifyByTable and ClassifyIsCategory) |
| Categories.ClassifyByTable | file_categories.py:48-56 | a file's category is the last claimant of its lower-cased extension, or "Others" when there is none |
| Categories.ClassifyIsCategory | file_categories.py:52-56 | with a well-formed table, the category of any file name is one of the table's categories |
| Categories.ClassifyLowerName | file_categories.py:48-53 | a name and its lower-cased form get the same category |
| Categories.ClassifyIgnoresCase | file_categories.py:48-53 | two names that are equal up to letter case get the same category |
| Categories.LastGivenSpec | file_categories.py:85-86 | the list given last for a category in the custom mapping is found, and nothing is found for a category not given |
| Categories.Merge | file_categories.py:85-86 | the update loop over the custom items (its effect is stated by MergeLookup and MergeKeepsOrder) |
| Categories.MergeLookup | file_categories.py:85-86 | after merging, a category exists iff it existed or was given; a given one holds the list given last, and any other keeps its old list |
| Categories.MergeKeepsOrder | file_categories.py:79-89 | merging keeps the table well formed and keeps the old names in place, new ones appended, so "Others" never goes away |
| Categories.AsPairs | file_categories.py:91-97 | the table as its (name, extensions) items, one per name, in table order |
| Categories.MergeAsPairsIsIdentity | file_categories.py:91-97 | merging a well-formed table's own items back into that same table changes nothing |
| Categories.MergeOnto | file_categories.py:79-97 | merging the items of a table into any table whose names it begins with, and whose keys it extends, gives that table, names and lists alike |
| Categories.ReloadRestores | file_categories.py:79-97 | the saved items of any well-formed table that begins with the default names, merged into a fresh default registry, give that table back |
| Categories.SavedPreferencesReload | file_categories.py:79-97 | every table reachable from the default one by custom categories survives saving and reloading into a fresh default registry unchanged |
| Categories.FileCategories.constructor | file_categories.py:11-30 | the registry starts as the default table, with its index built |
| Categories.FileCategories.BuildExtensionMap | file_categories.py:32-37 | the two nested loops leave exactly the index of the table |
| Categories.FileCategories.GetCategoryForFile | file_categories.py:39-56 | the result is a table category: the last claimant of the lower-cased extension, else "Others" |
| Categories.FileCategories.GetAllCategories | file_categories.py:58-64 | the result lists exactly the table's categories, each once |
| Categories.FileCategories.GetExtensionsForCategory | file_categories.py:66-77 | the stored list of a known category, and [] for an unknown one |
| Categories.FileCategories.GetCustomCategories | file_categories.py:91-97 | the result is the whole table: one item per category, in table order, each with its stored list; merged back it gives the table unchanged |
| Categories.FileCategories.UpdateCustomCategories | file_categories.py:79-89 | the table becomes the merge of the old table with the given lists, and the registry remains well formed with its index rebuilt |
| Strings.Lower | file_categories.py:49 | `lower` keeps the length and lower-cases each character |
| Strings.LowerIsLower | file_categories.py:37 | lower-casing gives a lower-case string and is idempotent |
| Strings.SplitExt | file_categories.py:48 | `splitext` splits the name into stem and extension, which concatenate back to the name |
| Strings.SplitExtSpec | file_categories.py:48 | the extension is empty or a single final dot-suffix; it is non-empty iff some dot has a non-dot before it (leading dots do not start an extension) |
| Strings.ExtOfLower | file_categories.py:48-49 | the extension of the lower-cased name is the lower-cased extension |
| Strings.ExtUpToCase | file_categories.py:48-49 | names equal up to case have extensions equal up to case |
| Strings.NatToString | file_operations.py:75 | the decimal spelling of the counter is a non-empty string of digits |
| Strings.ParseNatToString | file_operations.py:75 | parsing the decimal spelling gives the counter back |
| Strings.NatToStringInjective | file_operations.py:75 | distinct counters are spelled differently |
| FileSystem.MakeDirs | file_operations.py:96-97 | `makedirs` succeeds iff the path does not exist, no prefix of it is a file and there is no fault; it then adds the path and only ancestors of it as directories, and keeps the files |
| FileSystem.Move | file_operations.py:43 | a successful `move` puts the source's bytes at the target (into a directory destination) and removes the source; it changes no other path; without a fault it succeeds whenever the source is a file, the destination is not a directory and its parent is one |
| FileSystem.Copy | file_operations.py:102 | a successful `copy2` writes the source's bytes at the target and changes nothing else; without a fault it succeeds whenever the source is a file and the destination a fresh name in a directory |
| FileSystem.Exists | file_operations.py:34 | `os.path.exists`: true exactly of the paths that are files or directories (used by the checks at file_operations.py:65, 74 and file_sorter.py:260, 267, 270) |
| FileSystem.Target | file_operations.py:43 | where `shutil.move` and `copy2` put a file: into the destination when it is a directory (as at file_operations.py:102, 130 and file_sorter.py:287), otherwise at the destination itself |
| FileSystem.IsListing | file_sorter.py:226 | the regular-file entries of `os.scandir(folder)`: the folder is a directory, and the listing names each regular file directly inside it exactly once (also the listings at file_operations.py:100-101, 127-128) |
| FileOperations.FileOperations.constructor | file_operations.py:15-17 | the helpers start with no backup recorded, over the given disk |
| FileOperations.SuffixedName | file_operations.py:75 | the numbered name `<stem>_<counter><ext>`, with the stem and extension of `os.path.splitext` (the same spelling as file_sorter.py:271) |
| FileOperations.Candidate | file_operations.py:75-76 | the k-th probed path lies in the same directory as the original, one component under it, named by SuffixedName |
| FileOperations.CandidateInjective | file_operations.py:75-76 | distinct counters give distinct candidate paths |
| FileOperations.ProbesBounded | file_operations.py:74-77 | if the first k candidates all exist, at least k paths exist, so the probing loop terminates |
| FileOperations.Probe | file_operations.py:74-77 | the probing loop ends at a free candidate whose counter is at least the start, with all earlier candidates taken |
| FileOperations.ResolvePath | file_operations.py:56-79 | a free destination is kept; a taken one becomes the first free `name_N.ext` (N ≥ 1) in the same directory; the result never exists |
| FileOperations.ResolvedCounterIsSmallest | file_operations.py:71-79 | the resolved name carries the smallest counter whose candidate is free |
| FileOperations.HandleDuplicate | file_operations.py:56-79 | the loop computes exactly the resolved path |
| FileOperations.IsSystemOrHiddenFile | file_operations.py:139-149 | the hidden-file test on the name's prefixes (its meaning is stated by HiddenMeansPrefix) |
| FileOperations.HiddenMeansPrefix | file_operations.py:139-149 | a name is system or hidden iff it begins with "." or with "~$" |
| FileOperations.MoveFileSpec | file_operations.py:19-54 | on success the destination's directory exists and holds the source's bytes, and the source is gone; a failure before `utime` leaves every file as it was |
| FileOperations.MoveFileFrame | file_operations.py:19-54 | `move_file` changes no path but the source and the place it moves it to, removes no directory, and creates only the destination's directory and its ancestors |
| FileOperations.FileOperations.MoveFile | file_operations.py:19-54 | the method moves exactly as the specification function says and returns its verdict |
| FileOperations.CopyPrefix | file_operations.py:99-102 | the copy loop of backup and restore, stopping at the first exception; it never changes the directories |
| FileOperations.CopyPrefixEffect | file_operations.py:100-102 | with distinct targets disjoint from the sources, a successful copy loop leaves each target holding its source's bytes, and any run leaves every other path unchanged |
| FileOperations.CopyPrefixStops | file_operations.py:99-110 | after the first failing copy no later file is copied (the exception ends the loop) |
| FileOperations.FileOperations.CopyAll | file_operations.py:100-102 | the copy loop of the backup and the restore computes exactly the specification's result |
| FileOperations.BackupPath | file_operations.py:93-94 | the backup directory is a sibling of the source directory |
| FileOperations.BackupOutsideSource | file_operations.py:93-94 | no path inside the backup directory is a path inside the source directory |
| FileOperations.BackupSpec | file_operations.py:81-110 | a returned path is the backup path; no file or directory is ever removed |
| FileOperations.BackupCopiesEveryFile | file_operations.py:96-106 | after a successful backup every listed file has a copy with the same bytes in the backup directory, and every source file keeps its bytes |
| FileOperations.FileOperations.CreateBackup | file_operations.py:81-110 | the disk changes as the specification says; `backupDir` is set to the new backup only on success |
| FileOperations.RestoreSpec | file_operations.py:112-137 | without a recorded backup that still exists nothing happens and the result is false; directories are never changed |
| FileOperations.RestoreCopiesEveryFile | file_operations.py:123-133 | a successful restore copies every backup file to the same name in the backup's parent directory |
| FileOperations.RestoreMissesSource | file_operations.py:124-130 | the restore as written leaves every file directly inside the backed-up directory as it was, unless that directory is the root or a backup file carries the directory's own name (which `copy2` then redirects into it) |
| FileOperations.RestoreIntoSpec | file_operations.py:112-137 | the corrected restore: the same guards, copying into the source directory |
| FileOperations.BackupRestoreRoundTrip | file_operations.py:81-137 | a backup followed by a successful corrected restore gives every backed-up file its bytes back at its original path |
| FileOperations.FileOperations.RestoreFromBackup | file_operations.py:112-137 | the method copies exactly as the as-written specification says |
| FileSorter.InitialStats | file_sorter.py:239-240 | every category of the registry starts with a counter of zero, and no other key exists |
| FileSorter.Count | file_sorter.py:299-303 | counting a file under its category and reporting progress, or the `KeyError` of a missing counter (its effect on the counters and the progress is stated by SorterProperties.StepBookkeeping and StatsCountCategories) |
| FileSorter.Relocate | file_sorter.py:280-303 | the move of one file with its bookkeeping (its exact outcome is stated by SorterProperties.RelocateOutcome) |
| FileSorter.EnsureDir | file_sorter.py:259-261 | an existing path is left alone; a missing one is created with its ancestors, failing exactly on a fault or a file on the way; files never change |
| FileSorter.Place | file_sorter.py:256-303 | one visible file: preview count, or category folder, free name and move (its exact outcome is stated by SorterProperties.StepOutcome) |
| FileSorter.Step | file_sorter.py:247-303 | the loop body for the i-th listed file (its exact case split is stated by SorterProperties.StepOutcome) |
| FileSorter.Run | file_sorter.py:243-306 | the loop from position i on, with the cancellation check before each file (its end is stated by SorterProperties.RunKeeps, ProgressReportsVisibleFiles and RunNotCompleted) |
| FileSorter.Pass | file_sorter.py:226-310 | the whole pass: an unreadable folder fails, an empty one reports no files, otherwise the loop runs from the initial counters (its properties are stated in SorterProperties) |
| FileSorter.Saves | file_sorter.py:309-310 | a pass stores its moves for undo when it did not fail, was real and moved something (the class method's ensures uses it) |
| FileSorter.UndoPrefix | file_sorter.py:341-363 | the undo loop over the first n recorded moves, each moved back by the same makedirs, stat, move and utime steps that `move_file` takes (its effect is stated by SorterProperties.UndoPrefixCounts and UndoPrefixRestores) |
| FileSorter.Undo | file_sorter.py:326-366 | the undo: no record, declined, or every move replayed and the record cleared (its effect is stated by SorterProperties.UndoAccountsForEveryMove and UndoRestoresAll) |
| FileSorter.FileSorterApp.constructor | file_sorter.py:58-61 | no operation to undo, and not sorting |
| FileSorter.FileSorterApp.MoveAndRecord | file_sorter.py:280-303 | the move, the timestamp copy, the record and the counters of one file do exactly what Relocate says |
| FileSorter.FileSorterApp.PlaceFile | file_sorter.py:256-303 | the category folder, the free name, the move and the counters of one visible file do exactly what Place says |
| FileSorter.FileSorterApp.SortOne | file_sorter.py:247-303 | one loop iteration does exactly what the step function says: skip, count, create the category folder, resolve the name, move, record, or raise |
| FileSorter.FileSorterApp.SortFilesThread | file_sorter.py:215-324 | the outcome, the disk, the counters and the progress are those of the pass; a non-failed real pass that moved something becomes the operation to undo, otherwise the old one stays; `isSorting` ends false |
| FileSorter.FileSorterApp.UndoLastOperation | file_sorter.py:326-369 | the result, the disk and the record are those of the undo function; `isSorting` is untouched |
| SorterProperties.RelocateOutcome | file_sorter.py:280-303 | moving a file to a free path goes through exactly when there is no fault, the file exists and the folder does; a failed move skips the file with nothing changed; a failed `utime` leaves it moved, uncounted and unrecorded; otherwise it is counted and the move recorded, or the missing counter raises |
| SorterProperties.StepOutcome | file_sorter.py:247-303 | the exact case split of one iteration: hidden skipped; preview counted with the disk unchanged; real pass: failed `makedirs` ends the pass with the disk as it was, otherwise the file goes to the name the duplicate loop picks (free, in the category folder, the name itself or its first free numbered variant) with the outcome of RelocateOutcome |
| SorterProperties.MoveBookkeeping | file_sorter.py:280-303 | a move either leaves the bookkeeping alone or counts the file and records exactly that move |
| SorterProperties.StepBookkeeping | file_sorter.py:250-303 | one iteration either leaves the bookkeeping alone, or counts the file under its category with progress i+1 and (in a real pass) records one move from the folder into its category folder; in preview it never touches the disk |
| SorterProperties.PreviewTouchesNothing | file_sorter.py:260-280 | a preview pass leaves the disk unchanged and stores nothing to undo |
| SorterProperties.StopAt | file_sorter.py:243-245 | the first position at which the cancellation flag is found cleared (or the end), with the flag set before it |
| SorterProperties.ProgressReportsVisibleFiles | file_sorter.py:243-303 | progress is reported only for visible files, strictly increasing, never at or beyond the cancellation point; a pass told to stop early never reports completion |
| SorterProperties.VisiblePositionsSpec | file_sorter.py:250-303 | the positions of the visible files among the first n are well-formed progress reports and contain every visible file among them |
| SorterProperties.RunKeeps | file_sorter.py:243-306 | a loop whose every step keeps an invariant and raises nothing ends where it is first told to stop, completed or cancelled, with the invariant true |
| SorterProperties.PreviewReportsEveryVisibleFile | file_sorter.py:226-303 | conversely, a preview over a readable folder reports every visible file before the cancellation point, in order, and completes exactly when never told to stop; an unreadable folder fails with no report |
| SorterProperties.RecordsMatchProgress | file_sorter.py:264-303 | in a real pass the k-th recorded move takes the k-th counted file from the folder to its own name or a numbered variant of it in its category folder |
| SorterProperties.StepHoldsDestinations | file_sorter.py:264-293 | one iteration keeps every recorded destination a file, one level below the category folders, and distinct from the others |
| SorterProperties.RecordedDestinationsDistinct | file_sorter.py:264-293 | on every input, however a real pass ends, no two of its recorded moves have the same destination |
| SorterProperties.FaultFreePassMovesEveryVisibleFile | file_sorter.py:226-310 | with a well-formed registry, a real pass over a folder's files with no I/O error and no cancellation, where no listed file is named like a category folder and no file sits on the folder's own path, completes, reports every visible file and records exactly one move per visible file, in listing order, into its category folder |
| SorterProperties.PassSparesTheRest | file_sorter.py:243-245 | every listed file at or after the point where the pass is told to stop still holds its original bytes when the pass ends |
| SorterProperties.StatsCountCategories | file_sorter.py:240-300 | every category's final counter equals the number of reported files of that category, and the counters' keys are the categories |
| SorterProperties.PreviewNeverFails | file_sorter.py:226-306 | with a well-formed registry, a preview over an existing folder never fails |
| SorterProperties.UndoPrefixCounts | file_sorter.py:341-363 | after n replayed moves the restored and failed counts add up to n |
| SorterProperties.UndoAccountsForEveryMove | file_sorter.py:326-366 | without a record or without confirmation nothing changes; a confirmed undo counts every recorded move as restored or failed, and clears the record |
| SorterProperties.StepKeepsUndoable | file_sorter.py:250-303 | when no listed file is named like a category folder, one real iteration keeps every recorded move reversible (its destination holds the original bytes, its source is free) and leaves the files not yet reached untouched; an iteration that raises leaves the earlier record reversible |
| SorterProperties.RunKeepsUndoable | file_sorter.py:243-306 | provided no listed file is named like a category folder, the rest of a real pass, however it ends, leaves a record whose every move can be replayed backwards |
| SorterProperties.PassLeavesUndoable | file_sorter.py:226-310 | a real pass over a listed folder whose files are not named like category folders ends with a reversible record |
| SorterProperties.UndoStepRestores | file_sorter.py:341-363 | replaying one recorded move whose `shutil.move` succeeds puts that file back with its original bytes, frees its category location and leaves the later moves replayable; it counts as restored exactly when `os.utime` succeeds |
| SorterProperties.UndoPrefixRestores | file_sorter.py:341-363 | after the first n replayed moves, each of those files is back with its original bytes and gone from its category folder, and the rest are still replayable; with no timestamp fault all n count as restored |
| SorterProperties.UndoRestoresAll | file_sorter.py:326-366 | a confirmed undo of a reversible record restores every file and, without timestamp faults, reports all of them restored and none failed |
| SorterProperties.SortThenUndoRestores | file_sorter.py:226-366 | sorting a folder and then undoing the pass restores every moved file under its old name with its old contents and empties the places it was moved to, provided no listed file is named like a category folder and no move of the undo fails |

## Left out

- Lower: lower-cases ASCII letters only. Python's `str.lower` also folds non-ASCII letters, so two non-ASCII extensions that differ in case may be classified differently here.
- Time: `time.time()` is the parameter `now`. The timestamp copy of `copy2` and the `atime`/`mtime` restore are not modelled. Only a failure of `os.utime` is modelled, as a fault: the file stays moved but is neither counted nor recorded.
- Threads: the thread in `start_sorting` is not modelled. Cancellation is the flag `keep(i)`, read once before each file. `time.sleep` between files is left out.
- User interface: logging, the status bar, the statistics and progress widgets, and `messagebox` are left out. The counters and progress reports are returned instead. `gui_components.py` is not part of this model.
- Other methods: `start_sorting`, `on_closing`, and preference loading and saving are left out. The preference round trip is covered as a property of the category table: saving a table and merging it into a fresh default registry gives it back (`ReloadRestores`, `SavedPreferencesReload`); the JSON file itself is not modelled.
- Listing: `os.scandir` returns entries in an unspecified order. The listing is a parameter, tied to the disk by `IsListing`.
- Links: symbolic links, special files and permissions beyond a fault flag are not modelled.
- Empty parent: `os.path.dirname` of a bare name is "", and `os.makedirs("")` raises. The model's paths are absolute, so that case does not arise.
- Atomic move: `shutil.move` is treated as one atomic step. A cross-device copy-then-delete that fails half way is not modelled.
- CreateBackup: the model checks that the source directory exists in the state before the backup directory is made; the source scans it afterwards. The two agree, because making the sibling backup directory never creates the source directory.
- FaultFreePassMovesEveryVisibleFile: assumes that no listed file is named like a category folder, that no listed name is a directory, that no file sits on the folder's own path, and that the registry is well formed. With the listing `a.jpg`, `Images` where `Images` is a file, the source does not create the `Images` category folder for `a.jpg` (the path exists), and the move of `a.jpg` then fails, so the pass does not move every visible file there.
- StepKeepsUndoable: assumes that no listed file is named like a category folder. Otherwise a file `Images` may be moved to `Others` and a later image then creates the folder `Images` where that file was, so its recorded move can no longer be replayed backwards.
- RunKeepsUndoable: carries the same assumption through `Replayable`; it is not promised for a folder with a file named like a category folder.
- PassLeavesUndoable: assumes that no listed file is named like a category folder and that no listed name is a directory.
- SortThenUndoRestores: assumes that no listed file is named like a category folder. Without it, a file named `Images` is moved to `Others`, and the folder `Images` is then created where it was. Undo cannot put it back there. The lemma also assumes that no replayed `shutil.move` fails.
- Category paths: a category name is treated as one path component, and paths are compared exactly. With a custom name such as `Docs/Work`, `os.path.join` makes two nested folders and the recorded destination is one level deeper than the model says. With the name `.`, the destination is the folder itself: the file already exists there, so the source renames it in place to `name_1.ext`. On Windows and macOS the disk is usually case-insensitive, so `os.path.exists` treats `Images` and `images` as one folder. The model has none of these cases.
- Categories.FileCategories.GetCustomCategories: the source returns the registry's own dict, so a caller that mutates it changes the registry; the model returns a value that shares nothing.
- Categories.FileCategories.GetExtensionsForCategory: the source returns the registry's own list, with the same aliasing; the model returns a value.
- FileSystem.Move: `shutil.move` also moves a directory source. The model's Move fails on one. This can matter only to undo, after a recorded destination has been replaced by a directory.
- FileOperations.FileOperations.MoveFile: `preserve_timestamps` is always its default, True; the call with False (no `os.stat`, no `os.utime`) is not modelled.
- Names: when the source directory is the root, `os.path.basename` is "". The model keeps that behaviour and proves nothing special about it.

## Findings

| source | as written | input that shows it | evidently intended | confidence | as-written member | corrected member |
|---|---|---|---|---|---|---|
| file_operations.py:124-130 | the restore copies the backup's files into `os.path.dirname(self.backup_dir)`, the parent of the backup, which is the parent of the source directory ("get the original directory (parent of backup)") | back up `/home/u/Downloads`, giving `/home/u/backup_Downloads_T`; the restore writes each `<name>` to `/home/u/<name>` and leaves `/home/u/Downloads/<name>` as it was (a backup file that is itself named `Downloads` is redirected by `copy2` into `/home/u/Downloads/Downloads`) | copy each backup file back into the directory it was backed up from | not executed | FileOperations.RestoreMissesSource | FileOperations.BackupRestoreRoundTrip |
