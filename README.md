# tagfarm, modelled in Dafny

tagfarm organises media files by tag with a farm of symbolic links. Below a
*media root* is a directory `by-tag`. For each tag it holds a directory
`by-tag/<tag>`, and in there a relative link `../../<path of the file below
the root>`. The link is named after the file's base name. The model covers:

- the helpers of `src/tagfarm/utils.py`: `mkdir_p`, `find_media_root`,
  `index_files`, the link predicates, `relativize_target` and `tag_file`;
- the repair engine `perform_repair`, which renames legacy `Link to X`
  entries, leaves healthy links and regular files alone unless relinking is
  forced, and relinks each remaining entry to the one file of the content
  index that has its name;
- `src/tagfarm/main.py`'s older copy of that engine and the commands
  `untag`, `showtags`, `rename` and `collect`;
- the order in which `main` locates the media root and looks up its command.

The filesystem is a finite map from absolute, normalised paths (sequences of
names; `[]` is `/`) to a node: a directory, a regular file, or a symbolic
link holding a relative (`up` times `..`, then names) or an absolute target.
Operations that change the tree are methods on a `Disk` object holding that
map. Each method is proved equal to a state-transformer function, and the
properties are lemmas about those functions. A Python exception becomes an
`Err` result or a run whose `completed` flag is false; the run keeps the tree
as it was when the exception was raised.

Modules, in dependency order:

- `strings.dfy`: Python's string order and `sorted()` of a set of names.
- `filesystem.dfy`: the tree, the `os` and `os.path` calls the tool makes, and the `Disk`.
- `utils.dfy`: the helpers of `utils.py`. `main.py:13-65` are identical copies of them, except that `main.py` has no `readlink_or_broken`, and share this model.
- `repair.dfy`: both copies of `perform_repair`. One per-entry function carries a `Version` flag for where the copies differ.
- `commands.dfy`: the commands of `main.py` and `main`'s dispatch.

Where this model and a plain reading of the tool's intent differ, the model
follows the code:

- After a legacy rename, candidates are still looked up under the original
  `Link to X` name. So a renamed entry is pruned or left broken even when
  exactly one file named `X` exists (`Repair.LookupIgnoresRenamedName`,
  `Repair.RenamedLinkPrunedDespiteCandidate`).
- A rename collision does not skip the entry. It goes on to the
  force-relink gate under its legacy name.
- With `force_relink`, a regular file in a tag directory is deleted and
  replaced by a link when there is one candidate.
- Pruning removes any non-directory entry. With `force_relink` a directory
  entry reaches the lookup; pruning or relinking it raises and ends the run
  (`Repair.DirectoryEntryAborts`).
- `readlink_or_broken` raises on anything that is not a link. So in the
  newer engine, a collision involving a regular file ends the run.
- `untag` removes any entry of that name that is not a directory.

## Model

| member | source | states |
|---|---|---|
| Strings.SortedNames | src/tagfarm/utils.py:70 | `sorted()` of a name set: the same members, each once, strictly increasing in Python's string order |
| FileSystem.BaseName | src/tagfarm/utils.py:60 | `os.path.basename` of a normalised path: its last name, and `""` for `/` |
| FileSystem.Child | src/tagfarm/utils.py:77 | `os.path.join(dir, name)`: the directory extended by a non-empty name, whose base name it is; joining `""` names the directory itself |
| FileSystem.Lexists | src/tagfarm/utils.py:42 | `os.path.lexists`: there is an entry, whatever it is, without following a link |
| FileSystem.IsLink | src/tagfarm/utils.py:94 | `os.path.islink`: there is an entry and it is a symbolic link |
| FileSystem.IsDir | src/tagfarm/utils.py:11 | `os.path.isdir`: there is an entry and it is a directory; a link is not followed |
| FileSystem.Resolve | src/tagfarm/utils.py:42 | where a link leads: an absolute target as stored; a relative one from the link's directory, up `up` levels (never above `/`), then down its names |
| FileSystem.Exists | src/tagfarm/utils.py:42 | `os.path.exists`: there is an entry, and for a link also an entry where it leads |
| FileSystem.Children | src/tagfarm/utils.py:76 | `os.listdir`: a name is listed exactly when the directory has an entry of that name |
| FileSystem.Readlink | src/tagfarm/utils.py:50 | `os.readlink` succeeds exactly on links and returns the stored target |
| FileSystem.Remove | src/tagfarm/utils.py:106 | `os.remove` succeeds exactly on an existing non-directory and removes only that entry |
| FileSystem.MakeLink | src/tagfarm/utils.py:63 | `os.symlink` succeeds exactly on a free name in an existing directory and adds only that link |
| FileSystem.MakeDirs | src/tagfarm/utils.py:9 | `os.makedirs`: makes a missing parent first (EEXIST there is tolerated), then the path itself, failing with EEXIST when it is present |
| FileSystem.Rename | src/tagfarm/utils.py:90 | `os.rename`: fails on a missing source or `/`, a move into its own subtree, a destination whose parent is no directory, and a directory on either side of a replacement; a rename to itself changes nothing; otherwise the subtree moves |
| FileSystem.RenameMoves | src/tagfarm/utils.py:90 | a successful `os.rename` puts the source's node at the destination and removes the source name |
| FileSystem.RenamePreservesWellFormed | src/tagfarm/utils.py:90 | `os.rename` keeps the tree a tree (every entry's parent is a directory) |
| Utils.TagLinkPath | src/tagfarm/utils.py:60 | the link of a file in a tag: `<root>/by-tag/<tag>/<base name of the file>` |
| Utils.AfterMkdirP | src/tagfarm/utils.py:7-14 | the tree after `mkdir_p`: that of `os.makedirs`, where EEXIST is forgiven exactly when the path is a directory |
| Utils.MkdirPEffect | src/tagfarm/utils.py:7-14 | on an existing path `mkdir_p` succeeds iff it is a directory, and then changes nothing; on success the path is a directory, old entries are kept, and every new entry is a directory on the way to the path |
| Utils.MkdirP | src/tagfarm/utils.py:7-14 | the method succeeds exactly when `AfterMkdirP` does, leaving its tree; on failure the tree is unchanged |
| Utils.MediaRootOf | src/tagfarm/utils.py:17-22 | the result is the deepest ancestor of the start (inclusive, never `/`) holding a `by-tag` directory; no deeper one has it; none found means no ancestor has one |
| Utils.FindMediaRoot | src/tagfarm/utils.py:17-22 | the upward loop returns exactly that root, or none |
| Utils.ContentIndex | src/tagfarm/utils.py:25-38 | the index `index_files` builds, taken over the whole tree |
| Utils.IndexOver | src/tagfarm/utils.py:25-38 | every indexed path is a regular file under the root, outside `by-tag`, filed under its base name; every such file is indexed; no name maps to an empty set |
| Utils.DescribesUnique | src/tagfarm/utils.py:25-38 | that description determines the index completely |
| Utils.IndexFiles | src/tagfarm/utils.py:25-38 | the `setdefault` loop builds exactly that index |
| Repair.IndexUnchangedOutsideByTag | src/tagfarm/utils.py:28-30 | the index ignores everything below `by-tag`: trees that agree outside it have the same index |
| Utils.IsBrokenLink | src/tagfarm/utils.py:41-42 | broken iff the entry is a link and its target does not lexist |
| Utils.IsAbsoluteLink | src/tagfarm/utils.py:45-46 | raises iff the entry exists but is no link; true iff it is a link with an absolute target |
| Utils.ReadlinkOrBroken | src/tagfarm/utils.py:49-50 | succeeds iff the entry is a link; `*BROKEN*` iff the link is broken, and otherwise exactly the stored target |
| Utils.CommonPrefixLength | src/tagfarm/utils.py:55 | the longest common prefix of two paths, as `relpath` uses it |
| Utils.RelativizeTarget | src/tagfarm/utils.py:53-55 | a relative target with at least two `..`; for a path under the root, exactly `../..` plus the path below the root |
| Utils.RelativizeRoundTrip | src/tagfarm/utils.py:53-55 | resolving the target from `by-tag/<tag>/<name>` gives the original path back, for any absolute path, inside the root or not |
| Utils.AfterTagFile | src/tagfarm/utils.py:58-63 | the tree after `tag_file`: `mkdir_p` of the tag directory, then a link with `relativize_target`'s target unless the name already lexists |
| Utils.TagFileEffect | src/tagfarm/utils.py:58-63 | succeeds iff `mkdir_p` of the tag directory does; then the tag directory exists and the link lexists; an existing link means no change; otherwise exactly one link with `relativize_target`'s target is added |
| Utils.TagFileIdempotent | src/tagfarm/utils.py:58-63 | tagging again changes nothing |
| Utils.TagFileResolves | src/tagfarm/utils.py:58-63 | a newly made tag link resolves to the tagged file |
| Utils.TagFile | src/tagfarm/utils.py:58-63 | the method's tree and outcome are those of `AfterTagFile` |
| Repair.HasLegacyPrefix | src/tagfarm/utils.py:79 | `basename.startswith('Link to ')` |
| Repair.Normalise | src/tagfarm/utils.py:79-91 | the legacy step: `Link to X` is renamed to `X` when `X` does not lexist; otherwise a warning names both entries, the newer engine showing both with `readlink_or_broken` and raising on a non-link |
| Repair.Gate | src/tagfarm/utils.py:93-100 | without `force_relink`: a non-link is skipped with a warning, a healthy relative link is kept (noted when verbose); anything else goes on |
| Repair.Candidates | src/tagfarm/utils.py:102 | `index.get(basename, set())` |
| Repair.Resolution | src/tagfarm/utils.py:102-116 | no candidate: delete with a notice when pruning, else warn; several: warn; one: remove the entry and link it to `relativize_target` of the candidate; a failing `os` call raises |
| Repair.EntryStep | src/tagfarm/utils.py:77-116 | one entry: the legacy step, the gate, then the candidate step, candidates looked up under the name as listed |
| Repair.EntriesStep | src/tagfarm/utils.py:76-116 | a tag's entries in order; an exception ends the run |
| Repair.TagsRun | src/tagfarm/utils.py:71-121 | the tags in order: a non-directory is skipped, and a tag is reported after its loop only when it recorded a message; an exception ends the run before that tag's report |
| Repair.RepairRun | src/tagfarm/utils.py:66-121 | `perform_repair`: the index is built first, then the one restricted tag or the sorted listing of `by-tag`; listing a `by-tag` that is no directory raises |
| Repair.TheCandidate | src/tagfarm/utils.py:113 | the member of a one-element candidate set |
| Repair.NormaliseEntry | src/tagfarm/utils.py:79-91 | the legacy-prefix step's tree, entry name and messages, or the exception, are those of `Normalise` |
| Repair.ResolveEntry | src/tagfarm/utils.py:102-116 | the candidate step's tree and messages are those of `Resolution` |
| Repair.RepairEntry | src/tagfarm/utils.py:77-116 | the handling of one entry is that of `EntryStep` (legacy step, gate, candidate step) |
| Repair.RepairTagDir | src/tagfarm/utils.py:76-116 | the loop over a tag's entries is that of `EntriesStep` |
| Repair.RepairTag | src/tagfarm/utils.py:72-121 | one tag: skipped unless a directory, reported only when it recorded something, as the first step of `TagsRun` |
| Repair.RepairTags | src/tagfarm/utils.py:71-121 | the loop over tags, with its per-tag reports, is that of `TagsRun` |
| Repair.PerformRepair | src/tagfarm/utils.py:66-121 | `perform_repair`'s tree, report and completion are those of `RepairRun` |
| Repair.NormalisePreservesWellFormed | src/tagfarm/utils.py:79-91 | the legacy rename keeps the tree a tree |
| Repair.ResolutionPreservesWellFormed | src/tagfarm/utils.py:102-116 | pruning and relinking keep the tree a tree |
| Repair.EntryStepPreservesWellFormed | src/tagfarm/utils.py:77-116 | handling an entry keeps the tree a tree |
| Repair.GateLeavesAlone | src/tagfarm/utils.py:93-100 | without force-relink: a non-link only earns a skip warning; a healthy relative link is kept, noted only when verbose; the entry changes only if broken or absolute |
| Repair.AmbiguousLeftAlone | src/tagfarm/utils.py:109-110 | with several candidates the tree is not touched and a warning names them |
| Repair.NoCandidateDeletedIffPrune | src/tagfarm/utils.py:103-108 | with no candidate the entry is deleted iff pruning, with a notice, and otherwise only warned about |
| Repair.UniqueCandidateRelinked | src/tagfarm/utils.py:111-116 | with one candidate the entry becomes a link to `relativize_target` of it and a FIXED message is recorded |
| Repair.DirectoryEntryAborts | src/tagfarm/utils.py:102-112 | a directory reaches the lookup only with `force_relink`; pruning it or relinking it to its one candidate raises in `os.remove` and ends the run with the tree as the legacy step left it |
| Repair.FixedLinkIsHealthy | src/tagfarm/utils.py:111-116 | such a fixed link resolves to the candidate and is not broken, and the gate of a later pass without `force_relink` keeps it |
| Repair.LegacyRenamedUnlessTaken | src/tagfarm/utils.py:79-91 | `Link to X` is renamed to `X` iff `X` does not lexist; on collision both names stay with one warning: the older engine's short one, never raising, and the newer one's naming both entries with their `readlink_or_broken` values, raising iff either entry is no link |
| Repair.LookupIgnoresRenamedName | src/tagfarm/utils.py:102 | the index entry under the renamed name plays no part in the outcome |
| Repair.RenamedLinkPrunedDespiteCandidate | src/tagfarm/utils.py:79-106 | a pruning run renames an absolute `Link to X` and deletes it, though one file named `X` exists |
| Repair.NormaliseFrame | src/tagfarm/utils.py:79-91 | the legacy step changes only entries below the tag directory |
| Repair.ResolutionFrame | src/tagfarm/utils.py:102-116 | the candidate step changes only the entry itself |
| Repair.EntryStepFrame | src/tagfarm/utils.py:77-116 | handling an entry changes only entries below its tag directory |
| Repair.EntriesStepFrame | src/tagfarm/utils.py:76-116 | a tag's loop changes only entries below its tag directory and keeps the tree a tree |
| Repair.TagsRunFrame | src/tagfarm/utils.py:71-116 | the tag loop keeps the tree a tree and changes nothing but entries strictly below `by-tag/<tag>` for the tags it visits |
| Repair.RepairRunFrame | src/tagfarm/utils.py:66-121 | a repair keeps the tree a tree, changes nothing outside `by-tag`, nothing but entries below the listed tags' directories (below the one tag when restricted), and leaves the content index as it was |
| Repair.TagsRunReport | src/tagfarm/utils.py:118-121 | a tag is reported only with a non-empty message list, and reports follow the tag order |
| Repair.ReportedWhenRecorded | src/tagfarm/utils.py:118-121 | a tag is reported iff its directory exists, its loop completed and it recorded messages, and then first, with all of them; an exception drops the report |
| Repair.RepairRunReport | src/tagfarm/utils.py:70-121 | reports are non-empty and in sorted tag order, naming listed tags only; when restricted, the report is exactly that tag's messages if it recorded any, and empty otherwise |
| Commands.LegacyRepairRun | src/tagfarm/main.py:68-119 | main.py's `perform_repair`: tags and entries in `os.listdir` order, the short collision warning, no restriction to a tag |
| Commands.LegacyRepairRunFrame | src/tagfarm/main.py:68-119 | the older engine keeps the tree a tree, changes nothing but entries below the listed tags' directories, keeps its index valid and reports only tags with messages |
| Commands.PerformLegacyRepair | src/tagfarm/main.py:68-119 | the older `perform_repair`'s tree, report and completion are those of `LegacyRepairRun` |
| Commands.UntagRun | src/tagfarm/main.py:149-152 | each named file's link in the tag directory is removed when it lexists; an error ends the loop |
| Commands.UntagRemovesExactly | src/tagfarm/main.py:149-152 | exactly the lexisting links of the named files are removed, nothing else changes, and it fails iff one of them is a directory |
| Commands.Untag | src/tagfarm/main.py:149-152 | the loop's tree and outcome are those of `UntagRun` |
| Commands.TagsHolding | src/tagfarm/main.py:170-173 | the tags of the listing whose directory holds an entry with the base name, in listing order |
| Commands.Reported | src/tagfarm/main.py:174 | a file is printed when no threshold is given or its tag count is below it |
| Commands.Lines | src/tagfarm/main.py:167-175 | one line per file, in order, for each file whose tag count the threshold lets through |
| Commands.ShowTagsRun | src/tagfarm/main.py:165-175 | no files print nothing; otherwise `by-tag` must be a directory, and the lines are taken over its sorted listing |
| Commands.TagsHoldingExactly | src/tagfarm/main.py:168-171 | a tag is listed iff its directory has an entry with the base name; sorted input gives sorted output |
| Commands.LinesExactly | src/tagfarm/main.py:166-175 | a line is printed for a file iff the threshold lets its count through, and it lists exactly its tags |
| Commands.ShowTagsReportsTags | src/tagfarm/main.py:164-175 | `showtags` fails iff `by-tag` is no directory; each line lists, sorted, exactly the tags holding the file |
| Commands.TagsContaining | src/tagfarm/main.py:168-171 | the inner loop collects those tags |
| Commands.LineFor | src/tagfarm/main.py:166-175 | one file adds its line to those already printed, or nothing when the threshold holds it back |
| Commands.LinesFor | src/tagfarm/main.py:166-175 | the loop over the files prints the lines of `Lines` |
| Commands.ShowTags | src/tagfarm/main.py:164-175 | `showtags` prints those lines, or fails when `by-tag` is no directory |
| Commands.UpdateNotes | src/tagfarm/main.py:212-217 | the UPDATED lines the loop prints for a tree: one per tag holding the old name, in tag order, naming its new link |
| Commands.RelinkTag | src/tagfarm/main.py:211-217 | one tag: when the old link lexists, remove it and make the new link, printing UPDATED; a failing call raises |
| Commands.RelinkTags | src/tagfarm/main.py:210-217 | the tags in order; an exception ends the loop |
| Commands.RenameRun | src/tagfarm/main.py:201-217 | `os.rename` of the file, then every tag of `by-tag`'s listing relinked with `relativize_target` of the destination |
| Commands.RelinkTagsEffect | src/tagfarm/main.py:209-217 | only tags with an entry under the old name are touched, only at the old and new link; on completion the UPDATED lines are exactly one per such tag, in order, and each has a link to the new target under the new name and no old entry |
| Commands.RenameRelinks | src/tagfarm/main.py:201-217 | after the move, each tag with the old link gets a link under the new name that resolves to the new path, with one UPDATED line each in listing order; tags without it are untouched |
| Commands.TagLinksLeadTo | src/tagfarm/main.py:214 | the target `rename` writes resolves, from any tag directory, to the destination |
| Commands.RelinkTagsPreservesWellFormed | src/tagfarm/main.py:209-217 | relinking keeps the tree a tree |
| Commands.RelinkOne | src/tagfarm/main.py:209-217 | one tag is handled as `RelinkTag` says |
| Commands.RelinkLoop | src/tagfarm/main.py:209-217 | the loop over the tags is that of `RelinkTags` |
| Commands.RenameTagged | src/tagfarm/main.py:201-217 | `rename`'s tree, notes and completion are those of `RenameRun` |
| Commands.MoveEntry | src/tagfarm/main.py:239-250 | one entry: read the link, print the move when verbose, and move the file into `dest` unless that name exists there, else warn |
| Commands.MoveEntries | src/tagfarm/main.py:238-250 | the entries in order; an exception ends the loop |
| Commands.CollectRun | src/tagfarm/main.py:230-252 | a missing tag directory gives a warning only; otherwise `mkdir_p(dest)`, the moves, then main.py's `perform_repair` with `verbose` |
| Commands.MoveEntryOnlyIntoFreeName | src/tagfarm/main.py:238-250 | a file is moved only if nothing exists at `dest/<basename>`, and lands there; otherwise the tree is unchanged and a warning is printed |
| Commands.MoveEntriesPreservesWellFormed | src/tagfarm/main.py:238-250 | the moves keep the tree a tree |
| Commands.NotesOfMovesAreMoves | src/tagfarm/main.py:238-250 | each line the moves print names the place in `dest` of one of the listed entries: a move line, only when verbose, or a not-moving warning; at most two per entry |
| Commands.CollectEffect | src/tagfarm/main.py:230-252 | without the tag directory: a warning and no change; otherwise, after a completed run, the older repair ran on the moved tree and changed nothing outside `by-tag` |
| Commands.MoveOne | src/tagfarm/main.py:239-250 | one entry is handled as `MoveEntry` says |
| Commands.MoveEntriesLoop | src/tagfarm/main.py:238-250 | the loop over the tag's entries is that of `MoveEntries` |
| Commands.Collect | src/tagfarm/main.py:230-252 | `collect`'s notes, repair report, tree and completion are those of `CollectRun` |
| Commands.LookupCommand | src/tagfarm/main.py:255-262 | a command is found exactly for the six names of the table |
| Commands.MainDispatch | src/tagfarm/main.py:277-286 | the media root is located first (ValueError when there is none), then the command word is looked up (help and exit status 1 when unknown) |
| Commands.MainLocatesRootFirst | src/tagfarm/main.py:279-286 | no `by-tag` in the working directory or above means the root error, whatever the command; with a root, an unknown command exits; a known one runs on the root found |
| Commands.MainTestCases | src/tagfarm/tests.py:38-45 | `main(['backup.json'])` fails for a missing root, and with `by-tag` present it exits |

## Left out

- Argument parsing, the `tag` and `repair` wrappers (main.py:125-188) and `--verbose` parsing: options are plain parameters.
- Printed text: messages are records carrying the values the tool formats, not strings.
- `os.listdir`'s order: an `order` function of the name set. The newer engine sorts; main.py's code receives an arbitrary enumeration.
- `os.walk`'s order and its error handling: the content index is a finite map, independent of walk order.
- Path semantics: paths are absolute and normalised. `normpath`, `realpath` and `relpath` of relative or non-normal paths are not modelled, nor names containing `/`, nor `..` inside a name.
- Symbolic-link semantics: a link resolves in one hop. `isdir` and directory traversal do not follow links. Links to directories, link loops and symlinked parent directories are out of scope.
- `os.rename` onto an existing empty directory: the model treats every directory destination as an error.
- Errno detail: only EEXIST and "any other error" are told apart. Races and concurrent changes are out of scope.
- `find_media_root`: the working directory is a parameter (`os.path.realpath('.')` is not modelled).
- `Commands.MainDispatch`: `argparse`'s own exit on a missing command word is not modelled.
- `Commands.ShowTagsRun`: `by-tag` is listed once per file in the source. The model reads the tree once, since `showtags` changes nothing.
- Counts of printed lines are not related to counts of tags or entries (`LinesExactly` bounds them only by the number of files).
