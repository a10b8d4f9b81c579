# symlark reconciliation engine, modelled in Dafny

symlark walks a working ("GWS") tree and an archive tree that hold the same
datasets. A dataset is a directory whose children are version directories
named `v` plus eight characters, with a `latest` symbolic link. For every
working dataset whose archive counterpart is valid, symlark visits the
working versions newest first and compares each one with the target of the
archive's `latest` link:

- an older version is deleted and replaced by a link into the archive;
- the equal version is left alone if it already links to the archive copy,
  deduplicated (deleted, then linked) if `dirs_match` finds both copies equal,
  and otherwise left alone;
- a newer version is only reported.

The model keeps the filesystem as a map from path strings to nodes
(`File(size, digest)`, `Dir(entries)`, `Symlink(target)`). A file's digest is
an uninterpreted value stored in its node. Every `os` call the engine makes is
a function of that map, and a Python exception becomes an `OsError` value.
Exceptions are never caught in the source, so the first one ends the run with
the filesystem as it was when it was raised (`Effect = Done | Failed`).

Files:

- `outcomes.dfy`: the exceptions, `Outcome` and `Option`.
- `strings.dfy`: Python string order, `sorted`, `str.replace`, `str.endswith`,
  the two version-name patterns, and the numeric meaning of version order.
- `paths.dfy`: `os.path.join` and `os.path.split`.
- `filesystem.dfy`: the filesystem map and the `os` primitives
  (`listdir`, `readlink`, `getsize`, `md5`, `remove`, `rmdir`, `symlink`).
- `listing.dfy`: `nested_list`, `os.walk` with `identify_dirs`, and
  `find_versions`.
- `compare.dfy`: `dirs_match`, both as written and corrected.
- `archive.dfy`: `VersionDir`, `ArchiveDir` and `_check_valid`.
- `actions.dfy`: `delete_dir`, `symlink`, and the delete-then-link
  replacement.
- `reconcile.dfy`: the decision rule and the loops of `main`, as functions.
- `engine.dfy`: class `Engine`, which holds the filesystem as a mutable field.
  Its methods perform the same steps with loops. Each method is proved to end
  in the state, and with the exception, that its function in the other
  modules gives.

Behaviour of the source that the model keeps on purpose:

- `dirs_match` strips the base only from top-level files, because the
  recursive call of `nested_list` drops `remove_base`. The stripping uses
  `str.replace`, which removes every occurrence of the base, not only a
  prefix (`Scan.Shown`, `Strings.ReplaceAll`).
- The two version patterns differ. `find_versions` uses the glob `v????????`:
  `v` and exactly eight characters of any kind. `identify_dirs` uses
  `re.match(r"v\d{8}")`: a prefix match, so longer names also qualify
  (`Strings.PatternsDiffer`).
- `_check_valid` has two independent `if` chains. An archive that has a
  `latest` link but no versions therefore raises `IndexError` rather than
  being reported invalid (`Archive.ValidityExact`).
- `latest` is compared with the newest version by its whole target string,
  not by the target's basename.
- The stale branch has no symlink guard. On a second run it lists through the
  link it created earlier, removes every file of the directory the link
  resolves to (the archive copy when the archive path is absolute), and only
  then fails on `rmdir` (`Reconcile.StaleRerunDamagesArchive`). A run is
  therefore not idempotent for stale versions. It is idempotent for a
  deduplicated equal version (`Reconcile.DeduplicationIsFinal`).
- The per-file loop of `dirs_match` runs over the characters of the path
  string. This is listed under Findings. The engine uses the corrected loop,
  which visits the listed files.

## Model

| member | source | states |
|---|---|---|
| Strings.LessTrichotomy | symlark/symlark.py:166-192 | For any two names, exactly one branch applies: older, equal or newer (Python string order is total). |
| Strings.Less | symlark/symlark.py:166 | Definition of Python's `str` `<`: code point by code point, a proper prefix first. Its order properties are the lemmas below. |
| Strings.LessTransitive | symlark/symlark.py:166 | Python's string `<` is transitive. |
| Strings.LessIrreflexive | symlark/symlark.py:166-172 | No name is older than itself, so the equal version never takes the stale branch. |
| Strings.Sort | symlark/symlark.py:31 | `sorted` returns an ascending permutation of its input. |
| Strings.SortUnique | symlark/symlark.py:31 | Two ascending sequences with the same elements are equal, so the sorted listing depends only on which paths were collected. |
| Strings.ReplaceAll | symlark/symlark.py:28 | `str.replace` with a non-empty pattern never lengthens a string when the replacement is no longer than the pattern, and leaves a string shorter than the pattern as it is. |
| Strings.ReplaceAllPrefix | symlark/symlark.py:28 | `str.replace` on a path that starts with the base removes that occurrence and carries on through the rest of the path. |
| Strings.ReplaceAllAbsent | symlark/symlark.py:28 | `str.replace` leaves a path without any occurrence of the base unchanged. |
| Strings.GlobVersion | symlark/symlark.py:99 | Definition of the glob `v????????` on an entry name: `v` and exactly eight characters. Compared with the regex in the two lemmas below. |
| Strings.RegexVersion | symlark/symlark.py:92 | Definition of `re.match(r"v\d{8}")`: the name starts with `v` and eight ASCII digits; anything may follow. |
| Strings.PatternsAgreeOnVersionIds | symlark/symlark.py:89-99 | A name is `v` plus exactly eight digits iff it matches both the glob `v????????` and the regex prefix `v\d{8}`. |
| Strings.PatternsDiffer | symlark/symlark.py:89-99 | The glob accepts `vABCDEFGH`, which the regex rejects; the regex accepts `v20200101-old`, which the glob rejects. |
| Strings.DigitOrder | symlark/symlark.py:166 | On digit strings of equal length, string `<` is numeric `<`. |
| Strings.VersionOrderIsNumeric | symlark/symlark.py:166-172 | For two `v`+8-digit names, the engine's `<` and `==` agree with numeric order and equality of the eight digits. |
| Paths.SplitJoin | symlark/symlark.py:106 | `os.path.split` of a joined path gives back the directory and the entry name. |
| Paths.BaseJoin | symlark/symlark.py:99 | `os.path.basename` of a globbed path is the entry name. |
| Paths.JoinInjective | symlark/symlark.py:161 | Distinct version names of one dataset give distinct paths. |
| FileSystem.ListDir | symlark/symlark.py:21 | `os.listdir` succeeds exactly on a directory or a link to one. |
| FileSystem.ReadLink | symlark/symlark.py:115 | `readlink` succeeds exactly on a symbolic link and returns its target. |
| FileSystem.Size | symlark/symlark.py:85-86 | `size` of a file is its recorded byte length. |
| FileSystem.Md5 | symlark/symlark.py:76-82 | `md5` succeeds exactly on a file and returns the digest of its content. |
| FileSystem.RemoveEntry | symlark/symlark.py:65 | `os.remove` succeeds exactly on an existing non-directory entry, and on success removes only that path; every other node except the directory's entry list keeps its value; a failure changes nothing. |
| FileSystem.RemoveDir | symlark/symlark.py:68 | `os.rmdir` succeeds exactly on an empty real directory (never on a link), and on success removes only that path; every other node except the parent's entry list keeps its value; a failure changes nothing. |
| FileSystem.MakeSymlink | symlark/symlark.py:71-73 | `os.symlink` fails on an empty target or an occupied path and then leaves the filesystem unchanged; on success it adds the link and changes nothing but the parent's entry list. |
| FileSystem.MutationsKeepWellFormed | symlark/symlark.py:62-73 | Removing an entry, removing a directory and creating a link keep every entry name valid and every link target non-empty. |
| Scan.Listing | symlark/symlark.py:19-31 | `nested_list` returns a sorted list. |
| Scan.ListingRaisesOnlyAtTop | symlark/symlark.py:19-31 | `nested_list(d)` raises exactly when `d` is not a directory; every descent succeeds. |
| Scan.ListingOnlyNonDirectories | symlark/symlark.py:19-31 | Without a base, everything listed lies strictly below `d` and is not a directory. |
| Scan.ListingComplete | symlark/symlark.py:19-31 | Every non-directory entry of `d` is listed (base removed), and everything listed under a subdirectory is listed under `d`. |
| Scan.Shown | symlark/symlark.py:27-28 | The shown path is never longer than the path; that `str.replace` with the empty replacement cuts out a leading base and leaves a path without the base unchanged is stated by `Strings.ReplaceAllPrefix` and `Strings.ReplaceAllAbsent`. |
| Scan.WalkBelow | symlark/symlark.py:91 | Every directory `os.walk(d)` yields is a directory at or below `d`. |
| Scan.Walk | symlark/symlark.py:91 | `os.walk(d)` yields something iff `d` is a real directory, and then yields `d` first. |
| Scan.KeepRoots | symlark/symlark.py:90-95 | The accumulator of `identify_dirs` holds at most one entry per walked path; which ones is `Scan.DatasetRootsExact`. |
| Scan.DatasetRoots | symlark/symlark.py:89-95 | A top that is not a directory gives no dataset roots. |
| Scan.DatasetRootsExact | symlark/symlark.py:89-95 | `identify_dirs` returns exactly the walked directories with an immediate subdirectory whose name starts with `v` and eight ASCII digits. |
| Scan.GlobVersions | symlark/symlark.py:99 | The glob keeps exactly the entry names that are `v` plus eight characters. |
| Scan.FindVersions | symlark/symlark.py:98-99 | `find_versions` returns exactly the matching entry names of a directory, ascending; none for a missing directory; never `latest`. |
| Compare.TallyRaisedStays | symlark/symlark.py:43-56 | An exception from `size` or `md5` ends the per-file loop. |
| Compare.PairStep | symlark/symlark.py:47-56 | One pass of the per-file loop leaves a non-file alone, adds at most one to the tally, and raises only on a file whose partner's `size` or `md5` raises. |
| Compare.TallyOf | symlark/symlark.py:43-56 | The tally never exceeds the number of pairs visited. |
| Compare.TallyCountsMismatches | symlark/symlark.py:43-56 | The tally is the number of pairs whose files differ in size or digest. Digests are computed only for pairs of equal size. |
| Compare.CleanTallyMeansEqualFiles | symlark/symlark.py:43-58 | A zero tally means every visited file has a partner of the same size and digest. |
| Compare.EqualFilesMeanCleanTally | symlark/symlark.py:43-58 | Equal sizes and digests for every visited file give a zero tally. |
| Compare.DirsMatch | symlark/symlark.py:34-41 | `dirs_match` gives the falsy "listings differ" result exactly when both listings succeed and differ; no size or digest is looked at then. |
| Compare.DirsMatchExact | symlark/symlark.py:34-59 | The corrected `dirs_match` is true iff the listings agree and every file below the directory `d1` resolves to (through a link at `d1`, as `os.listdir` does) has an archive counterpart with the same size and digest. |
| Compare.DirsMatchAsWritten | symlark/symlark.py:34-59 | `dirs_match` as written; like the corrected one, it can only succeed when both listings succeed (its meaning is the next lemma). |
| Compare.DirsMatchAsWrittenExact | symlark/symlark.py:34-59 | As written, `dirs_match` is true iff the listings agree and each path built from one character of `d1` that is a file has a partner of the same size and digest. |
| Compare.CharPairsMissLongNames | symlark/symlark.py:43-45 | The paths the loop as written builds never name an entry of `d1` or `d2` whose name is longer than one character, so ordinary files are never checked. |
| Compare.AsWrittenAcceptsDifferingFiles | symlark/symlark.py:43-58 | As written, `dirs_match` reports a match for two copies whose one file differs in size; the corrected comparison does not. |
| Compare.LinkedCopyCompared | symlark/symlark.py:43-56 | When the working version is a link to a directory whose file differs in size from the archive copy's, the corrected comparison reads that file through the link and reports no match. |
| Archive.MakeVersionDir | symlark/symlark.py:102-106 | `VersionDir` keeps the path it was given. |
| Archive.VersionDirSplits | symlark/symlark.py:106 | For a version path, `base` is the dataset directory and `version` the version name. |
| Archive.LatestOf | symlark/symlark.py:114-115 | `latest` holds the link target exactly when `latest` is a symbolic link, and that target is never empty. |
| Archive.Validity | symlark/symlark.py:118-134 | A true validity needs an existing directory, some versions and a `latest` equal to the last one; no `latest` gives False; the only exception is `IndexError` on an empty version list. |
| Archive.ValidityExact | symlark/symlark.py:118-134 | Validity is true iff the directory exists, versions are non-empty, `latest` is a link, and its target equals the last version. It raises `IndexError` exactly when `latest` exists with no versions. |
| Archive.ArchiveValidity | symlark/symlark.py:110-134 | A valid archive is a directory with versions and a `latest` link; without a `latest` link it is invalid. |
| Archive.ArchiveValidityExact | symlark/symlark.py:109-134 | The same conjunction read from the filesystem. A valid archive's `latest` target names one of its own entries that matches the glob. |
| Archive.ArchiveDir.constructor | symlark/symlark.py:110-115 | The constructor sets `exists`, `versions` and `latest` from the filesystem. |
| Archive.ArchiveDir.CheckValid | symlark/symlark.py:118-134 | `_check_valid` computes the validity of the fields and stores it in `valid`, or raises and leaves `valid` unset. |
| Archive.OpenArchive | symlark/symlark.py:110-116 | `ArchiveDir(dr)` raises exactly when the validity raises; otherwise its fields and `valid` are those of the filesystem. |
| Actions.RemoveEachFrame | symlark/symlark.py:64-65 | The removal loop deletes only listed entries of the resolved directory (all of them on success) and changes nothing else. |
| Actions.RemoveEachSucceeds | symlark/symlark.py:64-65 | The removal loop succeeds when every listed entry is an existing non-directory. |
| Actions.RemoveEachDirEntry | symlark/symlark.py:64-65 | A listed subdirectory or missing entry makes the removal loop raise. |
| Actions.RemoveEach | symlark/symlark.py:64-65 | The removal loop only removes paths, and can raise only when it has a name to remove. |
| Actions.DeleteDirOutcome | symlark/symlark.py:62-68 | `delete_dir` succeeds iff every entry is a non-directory; then exactly the directory and its entries are gone, every node except the parent is unchanged, and no node changes kind. |
| Actions.DeleteDir | symlark/symlark.py:62-68 | `delete_dir` only removes paths; an `os.listdir` that raises leaves everything unchanged; on success `dr` existed and is gone. |
| Actions.DeleteDirFrame | symlark/symlark.py:62-68 | A successful `delete_dir` removes only paths, leaves every node other than the parent's entry list unchanged, and changes no node between directory and non-directory. |
| Actions.StaleRerunDestroysArchive | symlark/symlark.py:62-68 | `delete_dir` on a link removes every file of the directory the link resolves to, and then raises `NotADirectory`; the link itself remains unchanged. |
| Actions.RelinkSucceeds | symlark/symlark.py:62-73 | Delete-then-link succeeds on a flat version directory inside a real dataset directory, and leaves a link to the archive path. |
| Actions.Relink | symlark/symlark.py:166-168 | On success `gv` existed and is now a link to `av`; delete-then-link adds no path other than `gv`. |
| Actions.RelinkOutcome | symlark/symlark.py:166-168 | A successful delete-then-link leaves `gv` a link to `av`, removes exactly the entries `gv` held, and leaves every node other than `gv` and its parent unchanged. |
| Reconcile.Decide | symlark/symlark.py:165-198 | Replace iff older than `latest`, or equal, not already linked and matching. Report-only iff newer. Already-linked iff equal and linked. |
| Reconcile.Linked | symlark/symlark.py:175 | Definition of the already-linked test: `gv` is a link whose target string ends with `av`. |
| Reconcile.DecideIsNumeric | symlark/symlark.py:165-192 | For well-formed version names, stale and newer follow the numeric order of the dates. |
| Reconcile.ReportLatest | symlark/symlark.py:185-198 | The `latest` report changes nothing, and raises iff `latest` exists but is not a link. |
| Reconcile.StepWith | symlark/symlark.py:160-198 | One version step, given what the equal branch's `dirs_match` returns, keeps the filesystem well formed. |
| Reconcile.VersionStep | symlark/symlark.py:160-198 | The version step of the corrected program keeps the filesystem well formed. |
| Reconcile.VersionStepAsWritten | symlark/symlark.py:160-198 | The version step as written, with the per-character `dirs_match`, keeps the filesystem well formed. |
| Reconcile.StepFollowsDecide | symlark/symlark.py:160-198 | Whatever the comparison returns, a step leaves the state of delete-then-link when the rule says replace and the state untouched otherwise. |
| Reconcile.VersionStepFollowsDecide | symlark/symlark.py:160-198 | One version step of the corrected program leaves the state delete-then-link gives when the rule says replace, and the state untouched otherwise. |
| Reconcile.EqualVersionReplacedOnlyWhenCopied | symlark/symlark.py:172-180 | No loss in the corrected program: an equal version changes only when it is not linked and every file below the directory it resolves to has an archive copy with the same size and digest. |
| Reconcile.EqualStepReplaces | symlark/symlark.py:172-180 | An equal version that is not linked and matches leaves exactly the state of delete-then-link. |
| Reconcile.DeduplicationReplaces | symlark/symlark.py:172-180 | Dedup correctness of the corrected program: a flat, unlinked equal version whose listing, sizes and digests agree with the archive becomes a link to the archive copy. |
| Reconcile.DifferingDecisions | symlark/symlark.py:172-180 | On two copies shaped like the Findings example, the as-written step replaces the working copy and the corrected step leaves the state unchanged. |
| Reconcile.RelinkDiffering | symlark/symlark.py:178-179 | On that shape, delete-then-link succeeds, removes the differing working file, and leaves a link to the archive copy. |
| Reconcile.LinkedCopyKept | symlark/symlark.py:172-180 | On that linked shape, the corrected step leaves the state unchanged, so the link's target keeps its differing file. |
| Reconcile.AsWrittenDeletesDifferingCopy | symlark/symlark.py:172-180 | Data loss as written: the equal branch deletes a working file that differs from its archive copy and links the version to the archive; the corrected program changes nothing. |
| Reconcile.DeduplicationIsFinal | symlark/symlark.py:172-180 | After deduplication `gv` links exactly to `av`, so the next run takes the already-linked branch and changes nothing. |
| Reconcile.StaleCleanup | symlark/symlark.py:165-169 | Stale cleanup: a flat working version older than `latest` is deleted and linked to its archive path in one step that raises nothing. |
| Reconcile.StaleReplacementLinks | symlark/symlark.py:165-169 | A stale step that completes leaves `gv` a link to `av`. |
| Reconcile.StaleRerunDamagesArchive | symlark/symlark.py:165-169 | A rerun on an already-linked stale version removes the files of the directory the link resolves to (the archive copy when the archive path is absolute) and raises. |
| Reconcile.Reversed | symlark/symlark.py:160 | `reversed` gives the versions in reverse order. |
| Reconcile.NewestFirst | symlark/symlark.py:160 | Sorted versions are visited newest first. |
| Reconcile.RunVersions | symlark/symlark.py:160-198 | The version loop keeps the filesystem well formed. |
| Reconcile.RunVersionsChangesOnlyWhenReplacing | symlark/symlark.py:160-198 | The version loop changes nothing unless some version is no newer than `latest`. |
| Reconcile.DatasetStepShape | symlark/symlark.py:149-160 | A dataset step raises with the archive's exception, does nothing for an invalid archive, or runs the version loop newest first. |
| Reconcile.DatasetChangesOnlyWhenValid | symlark/symlark.py:153-157 | A dataset changes only if its archive is valid and it holds a version no newer than the archive's `latest`. |
| Reconcile.ArchiveOf | symlark/symlark.py:153 | Definition of the archive path `d1.replace(bd1, bd2)`. |
| Reconcile.ArchiveOfRebases | symlark/symlark.py:153 | A dataset path that mentions the working root only at its start maps to the same relative path below the archive root. |
| Reconcile.DatasetStep | symlark/symlark.py:149-198 | One dataset's pass keeps the filesystem well formed. |
| Reconcile.RunDatasets | symlark/symlark.py:149-198 | The dataset loop keeps the filesystem well formed. |
| Reconcile.RunDatasetsUnchanged | symlark/symlark.py:149-157 | When no dataset has a valid archive, the dataset loop leaves the state unchanged, and raises iff some archive check raises. |
| Reconcile.RunUnchangedWithoutValidArchive | symlark/symlark.py:137-157 | `main` leaves the tree unchanged when no dataset root it identifies has a valid archive. |
| Reconcile.Run | symlark/symlark.py:137-149 | A missing top-level directory ends the run without any change. |
| Symlark.Engine.NestedList | symlark/symlark.py:19-31 | The accumulator loop returns exactly the sorted listing. |
| Symlark.Engine.NestedStep | symlark/symlark.py:21-29 | One entry of the loop: descending into a subdirectory or appending the shown path extends the accumulator as the listing's step does. |
| Symlark.Engine.CompareFiles | symlark/symlark.py:43-56 | The counting loop returns exactly the tally, or the first exception. |
| Symlark.Engine.DirsMatch | symlark/symlark.py:34-59 | The method returns what the corrected comparison gives, listing the files through a link at `d1`. |
| Symlark.Engine.DeleteDir | symlark/symlark.py:62-68 | The removal loop then `rmdir` leaves the state and exception of `delete_dir`. |
| Symlark.Engine.Symlink | symlark/symlark.py:71-73 | The new state is that of `os.symlink`. |
| Symlark.Engine.Relink | symlark/symlark.py:166-168 | Delete first, then link only if the delete returned. |
| Symlark.Engine.IdentifyDirs | symlark/symlark.py:89-95 | The append loop returns exactly the dataset roots. |
| Symlark.Engine.ReportLatest | symlark/symlark.py:185-189 | Reads `latest` only when it exists; the state is unchanged. |
| Symlark.Engine.ProcessVersion | symlark/symlark.py:160-198 | One version's branch, as `VersionStep`. |
| Symlark.Engine.ProcessVersions | symlark/symlark.py:160-198 | The loop over the versions newest first ends in the state and with the exception of the version loop. |
| Symlark.Engine.ProcessDataset | symlark/symlark.py:149-198 | One dataset's pass, as `DatasetStep`. |
| Symlark.Engine.Run | symlark/symlark.py:137-198 | The whole of `main`, as `Run`. |

## Findings

| source | as written | input that shows it | evidently intended | confidence | as-written member | corrected member |
|---|---|---|---|---|---|---|
| symlark/symlark.py:43 | `for i in d1` loops over the characters of the path string `d1`, so only a file whose name is one character occurring in `d1` is size- and digest-checked (for `/g/v1`: `g`, `v`, `1`) | working `/g/v1` holding `f` of size 10, archive `/a/v1` holding `f` of size 20, bases `/g` and `/a`: the listings agree, the loop checks `/g/v1/g`, `/g/v1/v`, `/g/v1/1`, `/` (none of them files), and `dirs_match` returns True, so the working copy would be deleted | loop over the files `nested_list(d1)` finds, each paired with the same relative path under `d2` | high; not executed | Compare.DirsMatchAsWritten, Compare.AsWrittenAcceptsDifferingFiles, Reconcile.AsWrittenDeletesDifferingCopy | Compare.DirsMatch, Compare.DirsMatchExact |

## Left out

- Logging: every `logger` call only reports and is not modelled. The
  `readlink` calls made for the report in `main` are kept, because they can
  raise.
- `md5` reads the file in 64 KiB blocks through `hashlib`. The model stores
  the digest in the file node as an uninterpreted value.
- `os.path.getsize` of a directory is the constant `DirectorySize` (4096).
  The real value depends on the filesystem.
- Symbolic links are followed once, at the final component of a path handed
  to `listdir`, `isdir`, `isfile`, `exists`, `getsize` and `md5`, and at the
  directory part of `os.remove`. A link in an earlier component is not
  resolved, and a link's target is not itself followed again.
- `nested_list` does not descend into a link to a directory; it lists the
  link like a file. `os.path.isdir` would follow the link, and with a cycle
  of links the source raises (`RecursionError`, or an `OSError` for too many
  levels of links or too long a name) where the model lists the link. `os.walk` does not descend into
  links, as in Python. Unlike Python, the model does not walk a top that is
  itself a link to a directory, where `os.walk(top)` walks the target.
- A relative link target is resolved against the directory that holds the
  link, by joining the two strings; `..` and `.` components are not
  normalised.
- `Path(...)` and `.as_posix()` normalise paths (collapsing `//`, dropping
  `./` and trailing `/`). The model uses the raw link target string.
- `glob` treats metacharacters inside the dataset path specially. The model
  treats that path as a literal.
- Errors other than the listed `OsError` kinds are not modelled: permissions,
  I/O failures in the middle of a read, and an interrupted run.
- `Reconcile.ArchiveOf` models `d1.replace(bd1, bd2)` literally. Only the
  case where `bd1` occurs once, at the start, is proved to map a dataset to
  the same relative path (`Reconcile.ArchiveOfRebases`).
- Strings.RegexVersion: accepts ASCII digits only, as `re.match` would with
  `re.ASCII`; Python's `\d` on `str` also matches the other Unicode decimal
  digits (category Nd), so a name such as `v` plus eight Arabic-Indic digits
  is a version to the source and not to the model.
- Reconcile.VersionStep: models the corrected program, whose `dirs_match`
  visits the listed files; the no-loss and deduplication rows are about that
  program. The as-written step is `Reconcile.VersionStepAsWritten`. For it,
  only the deletion on the Findings example is proved
  (`Reconcile.AsWrittenDeletesDifferingCopy`). The run loops and the class
  `Engine` use the corrected comparison.
- `VersionDir.as_path` is never read by the engine and is not modelled.
- Symmetry of `dirs_match` is not stated. The listing comparison is
  symmetric, but the corrected per-file loop visits only the files of `d1`.
