# zotfile_doctor in Dafny

This is a model of `zotfile_doctor.py`, a consistency checker between a Zotero
database and a zotfile-managed directory of PDF attachments. The checker does
four things:

- It reads the attachment paths of the database (`iter_db`) and normalises each one to a key.
- It normalises the path of every `*.pdf` entry under the directory to a key (`iter_dir`).
- It reports the sorted differences of the two key sets (`main`).
- With `--clean`, it unlinks the files that only the directory has.

`remove_empty_dirs` is modelled too, although `main` never calls it.

The model has six modules:

- `Lexicographic`: Python's string ordering (code point by code point; a proper prefix comes first). It also gives `sorted()` of a set of strings, as the unique ascending listing of that set.
- `Strings`: the `str` operations the normaliser applies: `lower().endswith('.pdf')`, `count` and `replace(pat, '')`. Both scan left to right without overlap.
- `PurePaths`: the part of `PurePosixPath` the tool uses:
  - parsing into an anchor (`""`, `"/"` or `"//"`, as `posixpath.splitroot` does) and components (empty and `"."` components dropped);
  - `as_posix`, `/`, and `relative_to` (component-wise, never by string prefix).
- `Database`:
  - the rows of the attachment query: each cell is an SQLite value, and the `WHERE` clause is evaluated in SQL's three-valued logic;
  - the per-row normaliser: a key, a skip with its reason, or the uncaught `AttributeError` that `None.lower()` raises;
  - `iter_db` and the database key set of `main`.
- `FileSystem`: a `Volume` class holding the set of file paths and the set of directory paths. Its `Unlink` and `Rmdir` methods fail on entries that are missing, non-empty or `pinned` (not removable). `RemoveEmptyDirs` runs over a given bottom-up walk.
- `Doctor`: the disk key set, the report, the unlink loop and `DoctorMain`.

NFD normalisation (Unicode Standard Annex #15) is an uninterpreted parameter `nfd: string -> string`. Some lemmas assume `PathPreserving(nfd)`: the function is idempotent, and it maps a path in `as_posix` form to one of the same form with the same anchor. Real NFD has these properties.

Results about the code as written:

- A row whose path cell is NULL or a number ends the whole run: the `AttributeError` is not among the caught exceptions. A blob is skipped.
- Link-mode-2 rows pass the query whatever their content type.
- `/home/userX/a.pdf` is not under `/home/user`.
- Cleaning never deletes a file whose own disk key the database holds (`CleanSparesRecordedFiles`). A file can be recorded in the database under a different key, and then it is not protected:
  - A record of `attachments:` followed by the file's absolute path keeps the path absolute once the marker is removed. The file's own relative disk key is then in the dir-only list, and its unlink target is exactly the recorded file (`MarkedAbsoluteRecordIsUnlinked`).
  - With a relative `directory` argument, `relative_to` refuses every unmarked absolute record because the anchors differ, so such a row contributes no key (`RelativeDirectorySkipsAbsoluteRecord`). A file recorded only that way has a disk key the database lacks, and `--clean` tries to unlink it.
- The unlink target is `directory / key`, and the key has gone through NFD:
  - when NFD changes an orphan's relative path (a composed character in its name), the target is not the orphan (`TargetMissesEntryWhenNfdRenames`);
  - when NFD leaves the path unchanged, the target is the orphan (`TargetIsEntryWhenNfdFixesName`).

Behaviour of the code as written that a reader may not expect:

- `main` never prunes empty directories.
- A NULL or numeric path aborts the run. It is not skipped.
- Marker removal is `replace`, which is not idempotent: removing the marker from `attachmattachments:ents:a.pdf` leaves `attachments:a.pdf`, and a second removal gives `a.pdf`.

## Model

| member | source | states |
|---|---|---|
| Lexicographic.LessIrreflexive | zotfile_doctor.py:76-77 | no string sorts before itself |
| Lexicographic.LessAsymmetric | zotfile_doctor.py:76-77 | two strings are never each before the other |
| Lexicographic.LessTransitive | zotfile_doctor.py:76-77 | the string order is transitive |
| Lexicographic.LessTotal | zotfile_doctor.py:76-77 | two distinct strings are ordered one way or the other |
| Lexicographic.MinimumExists | zotfile_doctor.py:76-77 | every non-empty finite set of strings has a least element |
| Lexicographic.MinimumUnique | zotfile_doctor.py:76-77 | that least element is unique |
| Lexicographic.MinOf | zotfile_doctor.py:76-77 | the result is in the set and below every other member |
| Lexicographic.Sorted | zotfile_doctor.py:76-77 | `sorted(s)`: strictly ascending, holds exactly the members of `s`, length `len(s)` |
| Lexicographic.AscendingListingUnique | zotfile_doctor.py:76-77 | two strictly ascending lists with the same members are equal, so `sorted` is determined by its set |
| Strings.Lower | zotfile_doctor.py:42 | `lower()` keeps the length, leaves no upper-case ASCII letter, and changes no other character |
| Strings.HasPdfSuffix | zotfile_doctor.py:42 | the `.pdf` test holds iff the last four characters are '.', p/P, d/D, f/F |
| Strings.PdfSuffixDependsOnLastFour | zotfile_doctor.py:42 | strings agreeing on their last four characters agree on the test |
| Strings.EndsWithPdf | zotfile_doctor.py:42 | a string ending in ".pdf" passes the test |
| Strings.OccursIffSomePosition | zotfile_doctor.py:44 | `pat in s`, as a left-to-right scan, holds iff `pat` starts at some position of `s` |
| Strings.Count | zotfile_doctor.py:44 | `s.count(pat) > 0` iff `pat` occurs in `s` |
| Strings.RemoveAll | zotfile_doctor.py:45 | `replace(pat, '')` never lengthens, and changes the string iff `pat` occurs in it |
| Strings.RemoveAllLength | zotfile_doctor.py:45 | `replace` shortens by `len(pat)` per counted occurrence |
| Strings.RemoveAllKeepsSuffix | zotfile_doctor.py:45 | a tail without the last character of `pat` survives `replace` |
| Strings.RemoveMarkerKeepsPdfSuffix | zotfile_doctor.py:42-45 | a path passing the `.pdf` test still passes it after the marker is removed |
| Strings.RemoveAllSkipsPrefix | zotfile_doctor.py:45 | a prefix in which no occurrence starts is copied through by `replace` |
| Strings.MarkerRemovalJoinsMarker | zotfile_doctor.py:45 | removing the marker from "attachmattachments:ents:a.pdf" leaves "attachments:a.pdf" |
| Strings.SecondRemovalChanges | zotfile_doctor.py:45 | "attachments:a.pdf" still holds the marker and a second removal gives "a.pdf", so the removal is not idempotent |
| Strings.RemoveLeadingMarker | zotfile_doctor.py:44-45 | "attachments:" + rel, with no marker in rel, becomes rel |
| PurePaths.Parse | zotfile_doctor.py:47 | every parsed path has a valid anchor and components that are non-empty, not ".", without '/' |
| PurePaths.SplitJoin | zotfile_doctor.py:73 | splitting a '/'-join of slash-free components gives the components back |
| PurePaths.JoinEndsWithLast | zotfile_doctor.py:57 | the '/'-join of components ends with the last one |
| PurePaths.AsPosix | zotfile_doctor.py:57 | `as_posix()` begins with the anchor and ends with the path's name |
| PurePaths.ParseAsPosix | zotfile_doctor.py:73 | round trip: `Path(p.as_posix()) == p` for every well-formed path |
| PurePaths.CanonicalIdempotent | zotfile_doctor.py:73 | `Path(x).as_posix()` is a fixed point of itself |
| PurePaths.JoinPath | zotfile_doctor.py:98 | `/` with an anchored right side gives that side; with a relative one, the base's anchor and all components of both; well-formed operands give a well-formed path |
| PurePaths.RelativeTo | zotfile_doctor.py:47 | a successful `relative_to` is relative, joins back onto the root to the path, and is well formed when the path is |
| PurePaths.RelativeToFailsIffOutside | zotfile_doctor.py:47-50 | `relative_to` fails iff no relative path joined onto the root gives the path |
| PurePaths.JoinPathRelativeTo | zotfile_doctor.py:47 | `(root / r).relative_to(root) == r` for relative `r` |
| PurePaths.StringPrefixIsNotEnough | zotfile_doctor.py:47-50 | `/home/userX/a.pdf` is not relative to `/home/user` |
| Database.Selected | zotfile_doctor.py:33-34 | under SQL's three-valued logic, a row is returned iff link mode is 2, or link mode is 3 and content type is "application/pdf" |
| Database.LinkModeDecides | zotfile_doctor.py:33-34 | link mode 2 passes whatever the content type; modes other than 2 and 3 never pass |
| Database.NormalizeRow | zotfile_doctor.py:38-52 | NULL and numbers raise; blobs are skipped; a non-`.pdf` string is skipped; a key comes only from a `.pdf` string |
| Database.MarkerPathIgnoresRoot | zotfile_doctor.py:44-45 | a `.pdf` path holding the marker yields NFD of the path with every marker removed, whatever the root |
| Database.UnmarkedPathIsRelativised | zotfile_doctor.py:46-50 | without the marker, a key is produced iff the path lies under the root component-wise; the key is NFD of the components below the root; otherwise the row is skipped as outside |
| Database.MarkedRelativePath | zotfile_doctor.py:44-45 | "attachments:" + rel yields NFD(rel) |
| Database.AbsolutePathUnderRoot | zotfile_doctor.py:46-47 | the `as_posix` of `root / rel` yields NFD(`rel.as_posix()`) |
| Database.RelativeDirectorySkipsAbsoluteRecord | zotfile_doctor.py:46-50 | with a relative directory, an unmarked absolute `.pdf` record is skipped as outside the directory |
| Database.IterDb | zotfile_doctor.py:30-52 | the scan raises iff some selected row raises; otherwise a key is yielded iff some selected row normalises to it |
| Database.DbKeys | zotfile_doctor.py:73 | the set exists iff the scan does not raise; a key is in it iff it is the `as_posix` form of a key some selected row normalises to; every key is in `as_posix` form |
| Database.IterDbCompletes | zotfile_doctor.py:38-48 | the scan completes when no selected row's path is NULL or a number |
| Database.SingleRowKeys | zotfile_doctor.py:30-52 | a lone selected row that normalises to a key gives the database exactly that key's `as_posix` form |
| Database.DbKeyComesFromPdfRow | zotfile_doctor.py:33-45 | every database key is the `as_posix` form of the key of a selected row whose path is a `.pdf` string |
| FileSystem.Targets | zotfile_doctor.py:63-65 | one `rmdir` target per listed subdirectory, each directly inside the walked directory |
| FileSystem.Attempts | zotfile_doctor.py:62-65 | a path is tried iff it is a target of some step of the walk |
| FileSystem.RemovingOtherEntryKeepsChild | zotfile_doctor.py:65 | removing an entry not inside a directory leaves that directory non-empty |
| FileSystem.EmptyStaysEmpty | zotfile_doctor.py:65 | an empty directory stays empty as entries are removed |
| FileSystem.Volume.constructor | zotfile_doctor.py:60-67 | a volume with the given files, directories and unremovable entries |
| FileSystem.Volume.Unlink | zotfile_doctor.py:100 | succeeds iff the path is a removable file, and then removes exactly it |
| FileSystem.Volume.Rmdir | zotfile_doctor.py:65 | succeeds iff the path is a removable empty directory, and then removes exactly it |
| FileSystem.PrunedStep | zotfile_doctor.py:63-67 | one `rmdir` attempt keeps the pruning invariant over the tried prefix |
| FileSystem.EarlierTriesAreNotAbove | zotfile_doctor.py:62 | in a bottom-up walk nothing tried earlier is above the next target |
| FileSystem.PrunedAll | zotfile_doctor.py:62-67 | once every directory is tried, every remaining one below the top is unremovable or non-empty |
| FileSystem.RmdirEach | zotfile_doctor.py:63-67 | the inner loop tries each subdirectory of a step in order and keeps the invariant |
| FileSystem.RemoveEmptyDirs | zotfile_doctor.py:60-67 | files untouched; the top and directories outside it kept; every removed directory was removable and empty; no removable empty directory remains below the top |
| Doctor.Globbed | zotfile_doctor.py:56 | an entry matched by `rglob('*.pdf')` has a non-empty path relative to the directory |
| Doctor.DirKey | zotfile_doctor.py:57 | under an NFD that behaves like the real one, an entry's key is relative, in `as_posix` form and fixed by NFD |
| Doctor.DirKeys | zotfile_doctor.py:55-57 | a key is on disk iff it is NFD of `relative_to(directory).as_posix()` of some `.pdf`-named entry below the root; under a real-like NFD, every disk key is relative and in `as_posix` form |
| Doctor.RelPart | zotfile_doctor.py:57 | the part below the root is relative, non-empty and joins back to the entry |
| Doctor.GlobbedIsPdf | zotfile_doctor.py:56 | an entry matched by `*.pdf`, and its relative path, pass the database side's `.pdf` test |
| Doctor.Reconcile | zotfile_doctor.py:73-88 | both lists strictly ascending; db-only list = db minus dir; dir-only list = dir minus db; totals are the set sizes and bound the list lengths |
| Doctor.ReportPartitions | zotfile_doctor.py:76-77 | the lists are disjoint; what each set keeps outside its list is the intersection |
| Doctor.ReportListsAreSorted | zotfile_doctor.py:76-77 | each list equals any strictly ascending listing of its difference |
| Doctor.Target | zotfile_doctor.py:98 | `directory / file` for a relative key is the path whose `relative_to(directory)` is the parsed key; for an absolute key it is the key itself |
| Doctor.UnlinkTargets | zotfile_doctor.py:97-98 | one target per key, in order: below the directory at the key's relative path, or the key itself when absolute |
| Doctor.UnlinkedStep | zotfile_doctor.py:99-104 | one unlink attempt extends the event record and the removed set |
| Doctor.UnlinkEach | zotfile_doctor.py:97-104 | one event per key in order; success iff the target is a removable file not removed by an earlier key; the removed files are exactly the removable targets |
| Doctor.DoctorMain | zotfile_doctor.py:70-104 | aborts iff the database scan raises, touching nothing; the report is the reconciliation of the two key sets; nothing is unlinked without clean or orphans; otherwise exactly the orphans' targets are tried; directories are never touched |
| Doctor.TargetIsEntryWhenNfdFixesName | zotfile_doctor.py:98 | if NFD leaves an entry's relative path unchanged, its target is the entry |
| Doctor.TargetMissesEntryWhenNfdRenames | zotfile_doctor.py:98 | if NFD changes an entry's relative path, its target is a different path |
| Doctor.UnlinkTargetIsUnrecorded | zotfile_doctor.py:76-98 | the target of a dir-only key is never an entry whose key the database holds |
| Doctor.UntargetedFileSurvives | zotfile_doctor.py:97-104 | a file that no unlink target names is still there after the loop |
| Doctor.CleanSparesRecordedFiles | zotfile_doctor.py:93-104 | unlinking any list of disk-only keys (the dir-only list is one, by `Reconcile`) leaves every file whose own disk key the database holds |
| Doctor.RelativeRecordMatchesFile | zotfile_doctor.py:44-77 | when no selected row raises, a file recorded as "attachments:" + its relative path is in both sets and in neither list |
| Doctor.AbsoluteRecordMatchesFile | zotfile_doctor.py:47-77 | when no selected row raises, a file recorded by its absolute path under an absolute root is in both sets and in neither list |
| Doctor.MarkedAbsoluteRecordKey | zotfile_doctor.py:44-45 | a lone record of "attachments:" + an absolute path gives the database that path through NFD, still absolute |
| Doctor.MarkedAbsoluteRecordIsUnlinked | zotfile_doctor.py:44-104 | a file recorded only as "attachments:" + its absolute path has its disk key in the dir-only list, and its unlink target is the recorded file |

## Left out

- The SQLite connection and query execution. The query result is an input sequence of rows.
- The real traversals (`rglob`, `os.walk`). The volume's entries and the walk sequence are inputs. `RemoveEmptyDirs` requires the walk to list every directory below the top, each strictly below it, in bottom-up order.
- Symbolic links, unreadable directories and entries that change during the run, because the volume is a plain pair of sets.
- Resolution of a relative `directory` against the working directory: volume entries are named exactly as the process names them.
- Unicode NFD tables, because NFD is a parameter.
- Doctor.Globbed: the `*.pdf` match is case-sensitive, as on POSIX. The platform-dependent case folding of the glob is not modelled.
- Strings.Lower: only ASCII letters are lower-cased. No other character lower-cases to '.', 'p', 'd' or 'f', so the `.pdf` test is unaffected.
- Windows paths (drive letters, backslashes), because only `PurePosixPath` is modelled.
- Output through `print`/`rich`, beyond the report values and the list of unlink events. The argparse entry point and `cx_setup.py` (a build configuration) are also left out.
- Lone surrogates and encoding errors in path strings: strings are sequences of characters.
