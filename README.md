# Checkpointing hook for an AI coding assistant: a Dafny model

The modelled system keeps checkpoints of a project, so an AI coding assistant's file edits can be undone.
A *PreToolUse* hook runs before each `Write`, `Edit`, `MultiEdit` or `Manual` tool call.
It copies the project's files into a private git worktree, commits them as `CHECKPOINT: <message> [<time>]`,
and records the commit in a JSON metadata store.
A *PostToolUse* hook then marks the newest record `success` or `failed` from the tool's response.
A cleanup script prunes records older than the retention period and finds orphaned checkpoint repositories.
A restore script lists, searches and selects checkpoints and copies a checkpoint back over the project.

The model has these modules, one per source concern:

- `Wrappers`: `Option` and a `Result` whose error case names the Python exception raised.
- `Text` and `Numerals`: the parts of Python `str` behaviour the core relies on.
  These are `strip`, `split`, `in`, `replace`, ASCII `lower` and `int(str)`.
- `Json`: JSON values with Python truthiness, `dict.get`, `int()` and `float()`.
- `PosixPath`: `Path(s).name`.
- `Config`: validation of the settings file's `checkpointing` section and the file-exclusion rule.
- `FileTree`: a directory tree as a `Workspace` class, with files and directories updated in place.
- `Sync`: the `.gitignore` filter, `_sync_files`, `_batch_sync_files` and `_full_restore_sync` on workspaces.
- `Metadata`: the `CheckpointMetadata` store as a class over `map<project, map<hash, Record>>`.
- `GitOps`: hash validation, metadata truncation, `git log` parsing and `restore_checkpoint`.
- `Manager`: the two hook handlers and the dispatch in `checkpoint-manager.py`.
- `Cleanup`: `cleanup-checkpoints.py`.
- `Restore`: `restore-checkpoint.py`.

Each step of the world outside the program is a parameter of the model:

- a git subprocess's output, or whether it succeeded;
- the clock, as an integer number of seconds;
- `fnmatch`;
- a file's size;
- text decoding;
- the user's answers.

Dictionary and set iteration orders are not pinned down.
A loop over a dict or a set picks an arbitrary remaining element each time.
Listings are specified by `IsListing`: a one-to-one image of the table, sorted newest first, with ties in any order.

## Model

| member | source | states |
|---|---|---|
| Config.ClampInt | checkpointing/config.py:53 | the result lies in [lo, hi]; it is x inside the range and the nearer bound outside it |
| Config.ValidRetention | checkpointing/config.py:50-55 | retention is int(value) clamped to 1..365; a value int() rejects gives the default 7; an int() overflow raises |
| Config.ClampSize | checkpointing/config.py:65-70 | the size is clamped to 0.1..1000.0; +inf maps to 1000.0; -inf and NaN map to 0.1 |
| Config.ValidMaxSize | checkpointing/config.py:65-70 | the maximum file size is float(value) clamped, or the default 100.0 when float() rejects the value |
| Config.KeepTruthySpec | checkpointing/config.py:58-62 | the kept patterns are exactly str() of the truthy list items; all-truthy keeps every item; all-falsy keeps none |
| Config.ValidPatterns | checkpointing/config.py:58-62 | a list value is filtered to its truthy items; any other value gives the default patterns |
| Config.ValidateConfig | checkpointing/config.py:41-78 | each validated field is read from its key with its default; the bounds hold; it raises exactly when the retention conversion raises |
| Config.ValidateDefaults | checkpointing/config.py:30-39 | validating the default settings returns the default configuration unchanged |
| Config.ValidateEmpty | checkpointing/config.py:41-78 | an empty section validates to the default configuration |
| Config.DefaultPatternsSurvive | checkpointing/config.py:58-62 | the default exclusion list survives validation unchanged |
| Config.LoadConfig | checkpointing/config.py:17-28 | a missing or unreadable file gives the defaults; a non-object document raises; an object `checkpointing` section is validated |
| Config.LoadWithoutSection | checkpointing/config.py:17-28 | a settings object without a `checkpointing` key loads as the defaults |
| Config.AnyPatternMatchesIff | checkpointing/config.py:115-117 | the pattern loop reports a match iff some pattern matches the path |
| Config.ShouldExcludeFileIff | checkpointing/config.py:110-125 | a file is excluded iff some pattern matches it or it is a regular file larger than max_file_size_mb MiB |
| Config.NothingExcludedWithoutPatterns | checkpointing/config.py:110-125 | with no patterns and a file within the size limit nothing is excluded |
| Json.Get | checkpoint-manager.py:27-29 | `dict.get`: the stored value when the key is present, otherwise the default |
| Json.TruncateReal | checkpointing/config.py:52 | int() of a float truncates toward zero |
| Text.LStrip | checkpointing/git_ops.py:376 | the result is a suffix of the input that starts with a non-space, and only whitespace was removed |
| Text.RStrip | checkpointing/git_ops.py:376 | the result is a prefix of the input that ends with a non-space, and only whitespace was removed |
| Text.Split | checkpointing/git_ops.py:376 | `split(sep)` gives at least one piece, no piece holds sep, and joining the pieces with sep gives back the input |
| Text.SplitAtFirst | checkpointing/git_ops.py:378 | splitting at the first sep gives the part before it followed by the split of the rest |
| Text.RemoveAll | checkpointing/git_ops.py:396 | `replace(p, '')` never lengthens the text and leaves text without p unchanged |
| Text.RStripChar | checkpointing/git_ops.py:401 | `rstrip(c)` removes exactly the trailing run of c |
| Text.Lower | restore-checkpoint.py:100 | lower() keeps the length and lowers each character |
| Text.NatToString | restore-checkpoint.py:29-35 | the decimal numeral is non-empty, all digits, and has no leading zero unless the number is 0 |
| Text.DigitsOfNat | restore-checkpoint.py:106 | the numeral reads back as the number it was written from |
| Numerals.ParseIntOfString | restore-checkpoint.py:106 | int() of the decimal form of any integer gives that integer back |
| Numerals.ParseIntOfNegative | restore-checkpoint.py:106 | int() of the numeral of a negative integer gives that integer back |
| PosixPath.Parts | checkpoint-manager.py:59 | path parts are non-empty, never ".", and hold no '/' |
| PosixPath.Name | checkpoint-manager.py:59 | `Path(s).name` is the last part, or empty when there is none, and holds no '/' |
| PosixPath.NameOfJoin | checkpoint-manager.py:59 | the name of `d1/…/dn/file` is `file` |
| PosixPath.PartsOfJoin | checkpoint-manager.py:59 | reading back the parts of `d1/…/dn` joined with `/` gives `d1`, …, `dn` again |
| PosixPath.SplitJoin | checkpoint-manager.py:59 | splitting a '/'-joined path gives back its pieces |
| FileTree.WellFormedIsTree | checkpointing/git_ops.py:252-275 | in a well-formed tree no file is an ancestor of another entry |
| FileTree.DescendantGivesChild | checkpointing/git_ops.py:352 | a directory with any descendant has a child, so iterdir() is not empty |
| FileTree.RemoveEmptyDir | checkpointing/git_ops.py:352-353 | removing an empty directory keeps the tree well formed |
| FileTree.Workspace.MakeParents | checkpointing/git_ops.py:223 | `mkdir(parents=True, exist_ok=True)` adds all ancestors and fails iff one of them is a file, leaving files unchanged |
| FileTree.Workspace.CopyInto | checkpointing/git_ops.py:227 | copy2 writes the content at the path, or inside the directory standing at that path, and fails iff the copy would land on a directory |
| FileTree.Workspace.RemoveFile | checkpointing/git_ops.py:343-354 | unlink removes exactly the file; the climb removes exactly the emptied ancestors and stops at a non-empty one |
| Sync.BlankLineIgnoresEverything | checkpointing/git_ops.py:260-264 | as written, one whitespace-only .gitignore line makes every path ignored |
| Sync.IgnoredIgnoresBlankLines | checkpointing/git_ops.py:260-264 | the corrected filter ignores nothing for blank-only lines and agrees with the as-written filter when no line is whitespace-only |
| Sync.IgnoredBelow | checkpointing/git_ops.py:260-270 | an ignored directory hides everything below it, matching the skipped recursion |
| Sync.ReadIgnoreLines | checkpointing/git_ops.py:243-247 | without a .gitignore there are no patterns |
| Sync.SyncSet | checkpointing/git_ops.py:252-278 | the collected files are among the source's files |
| Sync.SyncSetsAgree | checkpointing/git_ops.py:243-264 | the files listed with the guard as written equal those listed with the corrected guard when no line is whitespace-only, and are none at all when one is |
| Sync.InteriorBlankLine | checkpointing/git_ops.py:243-264 | the .gitignore text `build`, `  `, `dist` splits into those three lines, and with the guard as written it lets no file through |
| Sync.CopyAll | checkpointing/git_ops.py:282-289 | the copy loop succeeds iff no collected file is blocked, and then has copied every collected file and created its parents and changed nothing else; on failure it stopped at a blocked file that no earlier copy unblocked, with the earlier copies in place |
| Sync.SyncFiles | checkpointing/git_ops.py:239-292 | every collected file is copied to its target and each parent directory is created; any other file is untouched; the sync fails iff some target's parent is blocked by a file, and then the files copied before the blocked one are in place and nothing else changed |
| Sync.Stale | checkpointing/git_ops.py:317-340 | the files to delete are exactly the visible project files that are not visible files of the checkpoint |
| Sync.PruneFiles | checkpointing/git_ops.py:342-354 | deleting the stale files removes exactly them and the directories they leave empty |
| Sync.FullRestoreSync | checkpointing/git_ops.py:294-357 | a full restore prunes the stale files, then performs the same sync as `_sync_files`, with the same state on failure |
| Sync.RestoreRoundTrip | checkpointing/git_ops.py:294-357 | given that the copy succeeded and no project directory stood where a synced file is copied (copy2 would copy into it), after a restore every synced checkpoint file has the checkpoint's content and every visible project file comes from the checkpoint; with no active ignore pattern the visible files equal the checkpoint's |
| Sync.BatchesPartition | checkpointing/git_ops.py:215-216 | the batches concatenate to the file list; each is non-empty and at most batch_size long, and all but the last are full |
| Sync.ProgressBounded | checkpointing/git_ops.py:231-234 | progress is reported only for more than 100 files, at multiples of 500, and the percentage is at most 100 and reaches 100 only at the end |
| Sync.PercentBelow | checkpointing/git_ops.py:233 | the integer percentage is below 100 iff fewer than all files were processed |
| Sync.BatchSyncFiles | checkpointing/git_ops.py:205-237 | a zero batch size raises ValueError and a negative one does nothing; otherwise every existing path is created, every copyable file is copied, and the sync fails iff some parent is blocked, stopping inside the first failing batch with the earlier batches synced |
| Sync.SyncInBatches | checkpointing/git_ops.py:215-234 | for a positive batch size the loop visits exactly `Batches` and reports in the integer form of `Progress`, and fails iff some present file's parent is blocked; on success every present path has its parents and every copyable file is copied; on failure the batches and reports are those before the failing batch, and the list is synced up to a blocked entry inside it |
| Sync.SyncNextBatch | checkpointing/git_ops.py:216-234 | one turn of the loop extends the synced prefix by the next batch and adds exactly that batch and its report, or fails at a blocked entry of the batch with the list synced up to it |
| Sync.SyncBatch | checkpointing/git_ops.py:218-229 | one batch extends the synced prefix of the list, or fails at a blocked entry with the list synced up to it |
| GitOps.ValidHashDigits | checkpointing/git_ops.py:32-37 | a hash is valid iff it is 1 to 40 hexadecimal digits in either case, optionally followed by one newline (the `$` anchor) |
| GitOps.HexRunOfLower | checkpointing/git_ops.py:37 | the regular expression matches the lowered text iff the original is a run of 1 to 40 hex digits |
| GitOps.SliceFirst | checkpointing/git_ops.py:139 | `[:n]` keeps the first n items of a list or string and raises on other values |
| GitOps.TruncateMetadata | checkpointing/git_ops.py:132-140 | metadata within 1 MiB is kept unchanged; oversized metadata keeps only tool_name, session_id and files, each read with its default |
| GitOps.TruncatedFiles | checkpointing/git_ops.py:136-140 | truncation keeps at most the first 10 files, and all of them when there are at most 10 |
| GitOps.TruncateRaises | checkpointing/git_ops.py:139 | a `files` value that cannot be sliced raises TypeError |
| GitOps.FindChar | checkpointing/git_ops.py:378 | the index found is the first occurrence of the character, or none when it is absent |
| GitOps.ParseLogLine | checkpointing/git_ops.py:376-412 | a log line gives an entry iff it is non-empty, holds `CHECKPOINT:` and has three '\|'-separated fields; hash and timestamp are the first two fields |
| GitOps.ParseLinesFrom | checkpointing/git_ops.py:375-414 | the listing has at most one entry per line, and each entry is the parse of some line |
| GitOps.ParseAll | checkpointing/git_ops.py:376-414 | the loop over the log lines yields exactly the parse of each line, in order |
| GitOps.ListCheckpoints | checkpointing/git_ops.py:359-414 | no repository or a failed log gives no checkpoints; otherwise the lines of the stripped log are parsed in order |
| GitOps.LogFieldsOf | checkpointing/git_ops.py:378-380 | `split('\|', 2)` of `a\|b\|c` gives a, b and c when a and b hold no '\|' |
| GitOps.DescribeFormatted | checkpointing/git_ops.py:399-401 | from `m [ts]` the description is strip(m) and the time part is ts |
| GitOps.DescribeLegacy | checkpointing/git_ops.py:402-405 | a message without both brackets is kept whole |
| GitOps.FormatThenParse | checkpointing/git_ops.py:172-173 | a commit subject written by create_checkpoint parses back to its hash, date and stripped message |
| GitOps.RestoreCheckpoint | checkpointing/git_ops.py:416-451 | it fails with the project untouched for a missing repository, an invalid hash or a failed checkout; a dry run changes nothing; otherwise it performs a full restore and succeeds iff that does not raise, leaving the state `Sync.FullRestoreSync` states on failure |
| Metadata.EditPathsSpec | checkpointing/metadata.py:245-249 | the MultiEdit paths are exactly the edits' file_path values, in order |
| Metadata.ExtractFiles | checkpointing/metadata.py:238-251 | the affected files are those of the specification function AffectedFiles |
| Metadata.WithStatusKeeps | checkpointing/metadata.py:149-156 | a status update changes only status, status_updated and, for a non-empty response, tool_response |
| Metadata.CheckpointMetadata.AddCheckpoint | checkpointing/metadata.py:58-109 | the new record is pending, stamped now, with the affected files; it is stored under project and hash and nothing else changes |
| Metadata.CheckpointMetadata.UpdateCheckpointStatus | checkpointing/metadata.py:117-161 | only a known record is updated, and the store is saved exactly then; otherwise nothing changes |
| Metadata.CheckpointMetadata.GetCheckpointMetadata | checkpointing/metadata.py:163-171 | a record is returned iff it is stored, and it is the stored one |
| Metadata.CheckpointMetadata.ListProjectCheckpoints | checkpointing/metadata.py:173-189 | the listing holds every record of the project once, newest first; an unknown project lists nothing |
| Metadata.ListingHeadIsNewest | checkpointing/metadata.py:186-187 | the first entry of a non-empty listing is a newest record |
| Metadata.ListingSize | checkpointing/metadata.py:173-189 | a listing has one entry per stored record |
| Metadata.PickNewest | checkpointing/metadata.py:186-187 | the key picked has the latest timestamp among the remaining keys |
| Metadata.Touching | checkpointing/metadata.py:258-261 | the matching records are exactly those whose files_affected holds the path |
| Metadata.FilterTouchingListing | checkpointing/metadata.py:253-262 | filtering a listing by a file gives a listing of the matching records |
| Metadata.CheckpointMetadata.FindCheckpointsByFile | checkpointing/metadata.py:253-262 | the result lists, newest first, exactly the project's records that touch the file |
| Metadata.KeptCount | checkpointing/metadata.py:226-229 | `[:keep]` keeps min(keep, n) entries for keep >= 0 and max(n + keep, 0) for keep < 0 |
| Metadata.DeleteListedFrom | checkpointing/metadata.py:226-229 | deleting the entries from position start on leaves exactly the first start hashes, with values unchanged |
| Metadata.ListingPrefixKeepsNewest | checkpointing/metadata.py:223-229 | keeping a listing's first entries keeps a newest-first prefix of the records |
| Metadata.KeepAllIsIdentity | checkpointing/metadata.py:223-231 | keeping as many records as there are leaves the table unchanged |
| Metadata.CheckpointMetadata.CleanupOldMetadata | checkpointing/metadata.py:191-236 | an unknown project is left alone; otherwise the project keeps its newest KeptCount records, other projects are untouched, and the store is saved iff there were more than keep records |
| Metadata.CountStatusOfListing | checkpointing/metadata.py:278-280 | counting statuses over a listing equals counting over the table |
| Metadata.StatusCountsBounded | checkpointing/metadata.py:277-280 | the success, failed and pending counts add up to at most the total |
| Metadata.TallyFiles | checkpointing/metadata.py:292-293 | tallying one record's files adds each file's occurrence count |
| Metadata.CountFiles | checkpointing/metadata.py:287-293 | each file's count is its number of occurrences over all records |
| Metadata.SelectTop | checkpointing/metadata.py:295-296 | at most 5 files, counts non-increasing and distinct; any file left out has a count no larger than the last one shown, and then 5 are shown |
| Metadata.MostModifiedFiles | checkpointing/metadata.py:287-296 | the top files carry their true positive occurrence counts in non-increasing order, and no omitted file occurs more often than the last one shown |
| Metadata.CheckpointMetadata.GetProjectStats | checkpointing/metadata.py:264-285 | an empty project gives zero stats; otherwise the total and status counts equal those of the table, latest is a newest timestamp, and the at most five top files are distinct, ordered by count, each with its exact number of occurrences across the project's records, and no omitted file occurs more often than the last one shown |
| Metadata.OccurrencesOfEnumerations | checkpointing/metadata.py:287-293 | the occurrence counts depend only on the records: any two enumerations of a table give the same count for every file |
| Manager.CheckpointMessage | checkpoint-manager.py:57-80 | every tool but Manual gets a message starting with "Before "; Manual uses its own message or "Manual checkpoint" |
| Manager.MessageEndsWithName | checkpoint-manager.py:57-75 | a file tool's message ends with the name of its file |
| Manager.MessageNamesJoinedFile | checkpoint-manager.py:57-75 | for a path `d1/…/dn/file` the message ends with `file` |
| Manager.PayloadFiles | checkpoint-manager.py:85 | the files list holds the file_path exactly when one is given, and nothing else |
| Manager.Payload | checkpoint-manager.py:82-86 | the commit note carries exactly tool_name, session_id and files |
| Manager.PayloadAgreesWithRecord | checkpoint-manager.py:82-99 | the note's files match the record's files_affected for a file tool |
| Manager.PrePlan | checkpoint-manager.py:18-86 | a snapshot is planned iff checkpointing is enabled, the tool is checkpointed, the file is not excluded and a repository exists or can be created |
| Manager.DefaultsSnapshotPlainFiles | checkpoint-manager.py:18-86 | with default settings a file tool on a file that no pattern matches and that is within 100 MiB is checkpointed |
| Manager.Created | checkpoint-manager.py:90 | only a non-empty commit hash counts as created |
| Manager.PreStored | checkpoint-manager.py:88-99 | a record is stored iff a snapshot is planned and the commit returns a non-empty hash |
| Manager.HandlePreToolUse | checkpoint-manager.py:18-108 | the hook always returns 0; the store gains exactly the new record when one is stored and is otherwise unchanged |
| Manager.StatusFor | checkpoint-manager.py:140 | the status is success iff the response's `success` value, default true, is truthy |
| Manager.StatusDefaults | checkpoint-manager.py:140 | a response without `success` is a success; a falsy `success` is a failure |
| Manager.HandlePostToolUse | checkpoint-manager.py:111-149 | the hook always returns 0; for an enabled file tool the newest record of a non-empty project is updated, and nothing else changes |
| Manager.RouteOf | checkpoint-manager.py:186-201 | `--status` wins; unreadable input is rejected; `--update-status` or a tool_response routes to PostToolUse; anything else to PreToolUse |
| Manager.ExitCode | checkpoint-manager.py:186-201 | the exit code is 1 exactly for invalid input or for a hook route whose configuration load raises, and 0 otherwise |
| Manager.HooksNeverBlock | checkpoint-manager.py:177-201 | the hook exits non-zero iff it is not a status request and either the input is not valid JSON or the settings load that each handler begins with (lines 21 and 114) raises |
| Manager.RunHook | checkpoint-manager.py:177-201 | the exit code follows the route and the settings load; a status request, invalid input or a raising settings load leaves the store unchanged; otherwise the dispatched handler's outcome holds under the loaded configuration |
| Cleanup.ExpiredKeys | cleanup-checkpoints.py:38-57 | the expired keys are keys of the table |
| Cleanup.Pruned | cleanup-checkpoints.py:38-66 | pruning keeps exactly the records that are not expired, unchanged |
| Cleanup.PrunedIdempotent | cleanup-checkpoints.py:38-66 | pruning twice with the same cutoff equals pruning once |
| Cleanup.NothingExpiredKeepsTable | cleanup-checkpoints.py:38-66 | with nothing expired pruning changes nothing |
| Cleanup.LaterCutoffRemovesMore | cleanup-checkpoints.py:33 | a later cutoff, meaning a shorter retention, expires at least as many records |
| Cleanup.ExpiredHashesMembers | cleanup-checkpoints.py:38-57 | the collected hashes are exactly those of listed records older than the cutoff |
| Cleanup.ExpiredOfEnumeration | cleanup-checkpoints.py:27-57 | collecting over a listing finds each expired key of the table once |
| Cleanup.CollectExpired | cleanup-checkpoints.py:38-57 | the count is the number of expired records, and a dry run collects nothing to delete |
| Cleanup.DeleteAll | cleanup-checkpoints.py:59-64 | deleting the collected hashes removes exactly those keys |
| Cleanup.CleanupProjectCheckpoints | cleanup-checkpoints.py:19-72 | it returns the number of expired records; without a dry run the project is pruned and saved when something expired; other projects are untouched |
| Cleanup.Items | cleanup-checkpoints.py:94 | `.items()` enumerates each entry of the table exactly once |
| Cleanup.PrunedAll | cleanup-checkpoints.py:88-119 | every project is pruned and no project is added or dropped |
| Cleanup.NothingExpiredKeepsStore | cleanup-checkpoints.py:75-125 | with nothing expired anywhere the store is unchanged |
| Cleanup.PruneProject | cleanup-checkpoints.py:91-119 | one project's count is its expired records, and it is pruned unless this is a dry run |
| Cleanup.PruneAll | cleanup-checkpoints.py:88-119 | the total is the number of expired (project, hash) pairs, and the store is pruned unless this is a dry run |
| Cleanup.CleanupAllProjects | cleanup-checkpoints.py:75-125 | the total counts every expired record once; the pruned store is saved only when not a dry run and something expired |
| Cleanup.Orphans | cleanup-checkpoints.py:142-152 | the orphans are the 12-character directory names that no project in the store uses |
| Cleanup.CleanupOrphanedRepos | cleanup-checkpoints.py:128-157 | no directory means nothing happens; otherwise the count is the number of orphans, and they are removed unless this is a dry run |
| Cleanup.Retention | cleanup-checkpoints.py:195 | a non-zero command-line retention overrides the configured one |
| Cleanup.ModeOf | cleanup-checkpoints.py:197-227 | with auto_cleanup off and no dry run nothing runs; otherwise orphan cleanup, one project or all projects, in that priority |
| Cleanup.RunCleanup | cleanup-checkpoints.py:160-227 | each mode's outcome holds; refusal, orphan cleanup and a project without a repository leave the store unchanged; the checkpoint directories change only in an orphan cleanup that is not a dry run, and then lose exactly the orphans |
| Restore.AgeOf | restore-checkpoint.py:22-35 | an age under a minute is "just now"; otherwise the largest unit that fits counts whole minutes, hours or days |
| Restore.Ago | restore-checkpoint.py:29-35 | the phrase is "<n> <unit>… ago", plural exactly when n is not 1 |
| Restore.FormatTimestamp | restore-checkpoint.py:18-37 | an unparseable time is shown as given; under a minute it reads "just now" |
| Restore.SingularIffOne | restore-checkpoint.py:29-35 | the unit is plural iff the count is not 1 |
| Restore.MatchingMembers | restore-checkpoint.py:164 | the matches are exactly the checkpoints whose hash starts with the id |
| Restore.UniqueMatchIsOnly | restore-checkpoint.py:170-176 | with a single match, every checkpoint whose hash starts with the id is that match |
| Restore.FullIdSelectsItself | restore-checkpoint.py:164 | with distinct 40-character hashes a full hash matches only its own checkpoint |
| Restore.RestoreById | restore-checkpoint.py:158-189 | it restores iff exactly one checkpoint matches and this is not a dry run; it exits 1 iff there is no unique match or the restore fails |
| Restore.RestoredIsListed | restore-checkpoint.py:158-189 | whatever is restored is a listed checkpoint whose hash starts with the id |
| Restore.ByNumber | restore-checkpoint.py:105-112 | number k selects the k-th checkpoint iff 1 <= k <= count; otherwise the number is invalid |
| Restore.ByPrefix | restore-checkpoint.py:113-124 | a prefix selects its match iff it is unique, is ambiguous iff there are several and matches nothing iff there are none |
| Restore.Interpret | restore-checkpoint.py:98-124 | "q" in any case quits; an integer selects by number; any other answer selects by prefix |
| Restore.NumbersAreOnlyIndices | restore-checkpoint.py:105-112 | an integer answer is never treated as a hash prefix |
| Restore.FirstSelectionIsListed | restore-checkpoint.py:96-128 | the prompt loop selects only listed checkpoints |
| Restore.ReadSelection | restore-checkpoint.py:96-128 | the loop ends with the first answer that quits or selects, or with no selection when the input ends |
| Restore.InteractiveRestore | restore-checkpoint.py:83-155 | no checkpoints means nothing happens; it restores iff something was selected and the confirmation is "y"; the exit code is 0 or 1, and it is 1 iff input ends at the confirmation prompt (the uncaught EOFError) or the restore fails, so a confirmed successful restore exits 0 |
| Restore.HitsMembers | restore-checkpoint.py:201-214 | the hits are exactly the checkpoints whose message or a recorded file contains the term, ignoring case |
| Restore.HitsDistinct | restore-checkpoint.py:201-214 | no checkpoint is listed twice |
| Restore.AnyFileContains | restore-checkpoint.py:213 | the check succeeds iff some file path contains the term, ignoring case |
| Restore.SearchCheckpoints | restore-checkpoint.py:192-225 | the matches are the hits in listing order, and the first 10 of them are shown |
| Restore.StatusIcon | restore-checkpoint.py:59-65 | success, failed and pending each map to their own icon |
| Restore.ShortId | restore-checkpoint.py:73 | the short id is the first 8 characters of the hash |
| Restore.ListRows | restore-checkpoint.py:40-80 | the rows follow the listing's `[:limit]` slice, numbered from 1, with the short id and message; the trailer appears iff the listing is non-empty and longer than limit |
| Restore.RowIconsFollowRecords | restore-checkpoint.py:59-65 | a row's icon shows its record's status, and "?" when there is no record or the status is unknown |
| Restore.CommandOf | restore-checkpoint.py:268-275 | a non-empty search wins, then --list, then a non-empty id, else interactive |

## Left out

- The lock file and the atomic save of the metadata store (checkpointing/metadata.py:26-56, 63-86 and the like) are left out: they guard against concurrency, which is not modelled. Each store method is one atomic step.
- JSON parsing and printing are left out. The byte size of `json.dumps(metadata)` is a parameter of `GitOps.TruncateMetadata`.
- The project hash (the first 12 characters of the SHA-256 of the path) is a parameter.
- `fnmatch` is a parameter (`Config.Matcher`).
- `max_file_size_mb` is a real number; float rounding is not modelled.
- `datetime`, ISO-8601 parsing and the time zone are left out. Timestamps are integer seconds, and ISO string ordering is the order of those seconds. An unparseable or mismatched-zone time in `format_timestamp` is a `None` elapsed time.
- The git subprocesses are left out: init, add, commit, rev-parse, notes, checkout, `git log` and `git diff` (get_checkpoint_diff). Their results are parameters.
- `create_checkpoint` itself is left out as a git sequence. Its parts are modelled: truncation, the sync and the commit subject.
- Git's normalisation of a commit subject (for example, folding newlines) is not modelled.
- `show_status` only prints. Its data is `Metadata.CheckpointMetadata.GetProjectStats`.
- Logging, `print`, `argparse`, `input()` and `sys.exit` are left out. Exit codes are returned values, and the user's answers are a sequence.
- Decoding hook input JSON into `HookInput` and `ToolInput` is left out, so a non-object JSON document is not modelled. Unreadable input is `None`.
- `Json.Str` renders values other than strings as placeholders. Rendering them is not modelled.
- `lower()` and `int(str)` cover ASCII only. Non-ASCII digits and case foldings are left out.
- Text decoding of the .gitignore file is a parameter.
- An `OverflowError` from `int(float('inf'))` in config validation is modelled as `Raised`. A hook whose settings load raises exits 1 with the store untouched (`Manager.RunHook`). Other exceptions are not modelled.
- Cleanup.RunCleanup: it takes an already loaded configuration. A settings file whose load raises (cleanup-checkpoints.py:194, config.py:25-26 and 52) ends the script with status 1 before anything is pruned; that path is not modelled.
- The `time_part` of the log parser is not used by the source. The model computes it, and `GitOps.DescribeFormatted` and `GitOps.FormatThenParse` prove it reads back as the timestamp.
- In `restore-checkpoint.py` the restore itself is a parameter (`restore: string -> bool`). `GitOps.RestoreCheckpoint` models it.
- Non-directory entries of the checkpoints directory are ignored by `Cleanup.CleanupOrphanedRepos`, so the base is a set of directory names.
- `cleanup_all_projects` deletes without checking membership. It is modelled by the same `Cleanup.DeleteAll`, whose check always passes there.
- `Cleanup.PruneAll`: the order in which projects and records are visited is arbitrary, so only the totals and the final store are stated.
- Sync.SyncSet, Sync.SyncFiles, Sync.FullRestoreSync, Sync.RestoreRoundTrip: these use the corrected guard of the finding below, where a whitespace-only .gitignore line ignores nothing; as written, such a line inside the file makes the sync list nothing (`Sync.SyncSetsAgree`, `Sync.InteriorBlankLine`).
- GitOps.RestoreCheckpoint: it uses `Sync.FullRestoreSync` and so the corrected .gitignore guard above.
- Sync.ProgressAt: the percentage is the exact integer `(i + size) * 100 / total`; the source computes `int((i + size) / total * 100)` in floating point, which can be one lower (total 50000 at 14500 files gives 28 there and 29 here).
- Sync.SyncInBatches, Sync.BatchSyncFiles, Sync.SyncNextBatch: their progress reports use `Sync.ProgressAt`, so the same floating-point rounding is not modelled.
- `Metadata.CheckpointMetadata.ListProjectCheckpoints`: the order among records with equal timestamps is not stated, because Python keeps dict insertion order and a map has none.

## Findings

| source | as written | input that shows it | evidently intended | confidence | as-written member | corrected member |
|---|---|---|---|---|---|---|
| checkpointing/git_ops.py:260-264 | a .gitignore line passes the `if pattern and not pattern.startswith('#')` guard before it is stripped, so a whitespace-only line strips to "" and "" is in every path | a .gitignore of the lines `build`, `  `, `dist`, with the blank line inside, makes `_sync_files` skip every file (`Sync.InteriorBlankLine`); a file of blanks only strips to empty first (git_ops.py:247) | blank and whitespace-only lines ignore nothing | not executed | Sync.BlankLineIgnoresEverything | Sync.IgnoredIgnoresBlankLines |

The hash validator `^[a-f0-9]{1,40}$` also accepts one trailing newline, because Python's `$` matches before a final newline.
`GitOps.ValidHashDigits` states this as modelled behaviour.
