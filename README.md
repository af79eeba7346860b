# A verified model of the CustomCLI recycle bin, editor buffer, CLI front end and mkdir -p

This project models four C sources of the CustomCLI repository in Dafny and proves their
behaviour against specifications:

- **The auto-delete engine** (`auto_delete.c`, modules `Paths` and `AutoDelete`). `delete_file`
  moves a file into the recycle bin under the held name `"<timestamp>_<basename>"` and
  inserts a row into the SQLite table `deleted_files`. `list_recycled` renders the rows.
  `restore_file` moves a held file back and drops its row. `purge_expired` unlinks held
  files whose `scheduled_deletion <= now` and drops their rows.
  - The file system is a map from path to node (file contents or directory).
  - The table is a map from row id to row.
  - Every system call and every SQL statement is one atomic update of these maps.
  - The class `RecycleBin` holds both maps and performs the four operations step by step.
  - Each method is proved equal to a specification function (`DeleteEffect`,
    `RestoreEffect`, `PurgeEffect`), whose properties are stated as contracts and lemmas.
  - The helpers `path_join`, `get_basename`, `get_dirname` (POSIX `basename()` and
    `dirname()`) and `get_extension` are pure functions in `Paths`. `format_string` is read
    as concatenation, with `%ld` rendered by `Decimal.Show`.
- **The text buffer and editing keys of the editor** (`Customised_CLI-main/nano.c`, module
  `Nano`).
  - `TextBuffer` is a class over an `array<string>` whose length is the capacity.
  - Insertion and deletion shift the array in place.
  - `buffer_open` splits the file on `'\n'` with the read loop of the source.
  - `buffer_save` joins the lines with `'\n'`.
  - One pass of `editor_loop` is `Step`. Enter, Backspace, printable keys and arrows are
    specified by the function `Edit` on a `Screen` (the lines and the cursor).
  - Lemmas give the meaning of each key as an edit of the saved text.
- **The command dispatch of `main.c`** (module `Cli`). `Main` maps `argv` to one engine
  command, or to a usage or validation error. Numbers are read as `strtol` reads them and
  then narrowed to a 32-bit `int`.
- **`mkdir_p` of `Customised_CLI-main/trash.c`** (module `Trash`).
  - It walks a 512-byte buffer.
  - At each `'/'` it cuts the string with a NUL, calls `mkdir` on the prefix and puts the
    `'/'` back.
  - It then calls `mkdir` on the whole path. `EEXIST` counts as success.

The environment is explicit:
- `realpath`'s answer, the current time, the date rendering, whether `init_system`
  succeeded, whether a file opens, and the bytes typed are all parameters.
- Failures the environment can inject are explicit too. `Faults` covers a database that
  cannot be opened or refuses writes, a failing `rename` or `mkdir`, and paths whose
  `unlink` is refused. In `Trash` it is a set of paths whose `mkdir` is refused.

### Where the code and its documented design differ (the model follows the code)

- **Row ids are reused.** `id INTEGER PRIMARY KEY` without `AUTOINCREMENT` gives a new row
  the largest id in use plus one, so the id of a deleted last row is given out again
  (`AutoDelete.IdIsReused`).
- **`list_recycled` has no ORDER BY.** The rows come in an unspecified order; `Enumerate`
  picks any order.
- **`get_extension` reads the last `'.'` of the whole absolute path**, not of the basename.
  The same holds for the `_restored` rename.
  - A dot in a directory name makes the rest of the path the "extension"
    (`Paths.ExtensionSpansDirectories`).
- **The `_restored` name drops the extension.** The design inserts `_restored` before the
  extension. The code writes a NUL at the last `'.'` and then formats `"%s_restored%s"` with
  the text at that NUL, which is now empty. So everything from the last dot on is lost.
  - An occupied `/home/u/a.txt` comes back as `/home/u/a_restored`, not
    `/home/u/a_restored.txt` (`Paths.RestoredNameExamples`, `Paths.RestoredNameDropsExtension`).
  - A dot in a directory name sends the file out of its directory: an occupied
    `/srv/v1.2/notes` comes back as `/srv/v1_restored` (`Paths.RestoredNameLeavesDirectory`).
  - The engine uses the name as written (`Paths.RestoredName`). The name the design describes
    is `Paths.IntendedRestoredName`, proved to keep the extension.
- **`rename` moves whole directories.** `delete_file` calls `stat` and then `rename` without
  checking the kind of node. A directory therefore goes into the bin with everything below it,
  and `restore_file` brings the whole subtree back (`AutoDelete.RenameFs`).
- **`restore_file` recreates only one directory level.** `create_directory` calls `mkdir`
  once.
- **A negative retention is accepted.** `strtol` reads `"-5"`. So `scheduled_deletion` can
  lie before `delete_timestamp`.
- **Two deletes in the same second collide.** Two deletes of files with the same basename
  in the same second compute the same held path, and the second `rename` replaces the
  first held file (`AutoDelete.HeldPathCollision`).
- **An empty numeric argument is accepted.** `strtol("")` leaves `end` at the NUL, so
  `restore ""` restores id 0 (`Cli.NumberQuirks`).

## Model

| member | source | states |
|---|---|---|
| `Paths.LastIndex` | auto_delete.c:593 | strrchr: the index of the last occurrence, with no occurrence after it, or -1 |
| `Paths.PathJoin` | auto_delete.c:533-550 | result is `a`, then `'/'` exactly when `a` is non-empty and does not end in `'/'`, then `b`; length between `|a|+|b|` and `|a|+|b|+1` |
| `Paths.Basename` | auto_delete.c:566-577 | POSIX basename: `"."` for empty, `"/"` for all slashes, else the last component after trailing slashes are stripped, free of `'/'` |
| `Paths.Dirname` | auto_delete.c:579-590 | POSIX dirname: `"."` for empty or a single component, `"/"` for all slashes, else a proper prefix of the path ending just before a `'/'` and not itself ending in `'/'` |
| `Paths.Extension` | auto_delete.c:592-599 | empty exactly when the whole path has no `'.'`; otherwise the suffix of the path starting at its last `'.'` |
| `Paths.RestoredName` | auto_delete.c:373-385 | the path cut before its last `'.'` (the extension of the whole path is lost), then `"_restored"`; appended when there is no dot; the result always differs from the input |
| `Paths.IntendedRestoredName` | auto_delete.c:377 | the documented name: `"_restored"` inserted before the extension, which is kept; longer than the input by the tag, so distinct from it |
| `Paths.BasenameOfJoin` | auto_delete.c:566-577 | the basename of `join(dir, name)` is `name` for a plain name |
| `Paths.DirnameOfJoin` | auto_delete.c:579-590 | the dirname of `join(dir, name)` is `dir` for a canonical directory |
| `Paths.JoinOfDirnameBasename` | auto_delete.c:344-353 | a canonical path other than `"/"` is the join of its dirname and its basename |
| `Paths.JoinIsCanonical` | auto_delete.c:533-550 | joining a canonical directory with a plain name gives a canonical path |
| `Paths.BasenameOfCanonical` | auto_delete.c:566-577 | the basename of a canonical path other than `"/"` is a non-empty plain name |
| `Paths.HeldNameInjective` | auto_delete.c:114 | held names `"%ld_%s"` coincide iff both the timestamps and the basenames do |
| `Paths.HeldNameIsComponent` | auto_delete.c:114 | a held name built from a plain basename is a non-empty single path component |
| `Paths.HeldNameShape` | auto_delete.c:114 | a held name ends in `'_'` and then the basename |
| `Paths.IntendedRestoredNameKeepsExtension` | auto_delete.c:377 | the documented name has the same `get_extension` as the original path |
| `Paths.RestoredNameDropsExtension` | auto_delete.c:374-377 | for a path with a single dot, the name as written has no extension although the original has one, so it differs from the documented name |
| `Paths.RestoredNameExamples` | auto_delete.c:373-385 | `a.txt` becomes `a_restored`, `notes` becomes `notes_restored`, and `/srv/v1.2/notes` becomes `/srv/v1_restored` |
| `Paths.ExtensionSpansDirectories` | auto_delete.c:592-599 | `get_extension("/srv/v1.2/notes") == ".2/notes"`: the dot is searched in the whole path |
| `Paths.RestoredNameOfJoin` | auto_delete.c:373-385 | when the last `.` of `dir/name` is in `dir`, the target is `dir` up to that dot followed by `"_restored"`: the file name is lost |
| `Paths.RestoredNameLeavesDirectory` | auto_delete.c:373-385 | for a dot-free file name in a directory whose path holds a dot, the `_restored` target lies in a different directory |
| `Decimal.Show` | auto_delete.c:114 | `%ld` text: non-empty, a leading `'-'` exactly for negative numbers, otherwise digits |
| `Decimal.ShowInjective` | auto_delete.c:114 | distinct timestamps print differently |
| `Decimal.Int32Width` | auto_delete.c:245-247 | a 32-bit `%d` id prints in at most 11 characters |
| `Decimal.Wrap32` | main.c:41 | the `(int)` cast: result in the 32-bit range, identity on that range |
| `Decimal.Wrap32Congruent` | main.c:41 | the cast keeps the value modulo 2^32 |
| `CStrings.UpToNul` | Customised_CLI-main/nano.c:93 | strcpy/strlen view of a buffer: the prefix before the first NUL, NUL-free, followed by a NUL when shorter |
| `AutoDelete.RenameFs` | auto_delete.c:131 | rename(2): fails when the source is missing, a path is empty or a fault is injected; on success the parent of `dst` is a directory, a replaced `dst` is of the same kind, a directory neither moves below itself nor replaces a non-empty one; `src` and every path below a moved directory land at `dst` with the same suffix and are gone from their old place; every other path other than `dst` is unchanged and nothing else appears; it succeeds whenever those conditions hold |
| `AutoDelete.MoveTree` | auto_delete.c:131 | the moved tree: every carried path relocated under `dst` with its node, the old carried paths gone, all other paths kept, and no other key |
| `AutoDelete.RenameFile` | auto_delete.c:131 | a regular file moves alone: the new tree is the old one without `src` and with `dst` holding its content |
| `AutoDelete.MkdirFs` | auto_delete.c:525-528 | mkdir(2) succeeds iff no fault, the path is new and its parent is a directory, and then adds exactly that directory |
| `AutoDelete.CreateDirectory` | auto_delete.c:513-531 | success with no change on an existing directory, failure when a non-directory is there or the parent is missing, otherwise exactly one new directory |
| `AutoDelete.UnlinkFs` | auto_delete.c:480-496 | unlink(2): ENOENT iff the path is absent; removes exactly that path iff it is a file that is not refused |
| `AutoDelete.Reclaimable` | auto_delete.c:480-496 | a held file is reclaimable exactly when its unlink succeeds or reports ENOENT, the two outcomes after which the row goes |
| `AutoDelete.NextId` | auto_delete.c:72-73 | the rowid of an insert: unused, 1 in an empty table, else one more than the largest id in use |
| `AutoDelete.DropRow` | auto_delete.c:331-333 | DELETE by id: the row is gone unless writes fail, and no other row changes |
| `AutoDelete.HeldPathCollision` | auto_delete.c:113-122 | two rows share a held path iff they have the same delete second and the same basename |
| `AutoDelete.HeldPathWithinBin` | auto_delete.c:122 | a held path lies strictly below the recycle bin |
| `AutoDelete.NewRow` | auto_delete.c:147-158 | the inserted row has `original_path = abs`, `delete_timestamp = now`, `scheduled_deletion - delete_timestamp = retention`, `file_type = get_extension(abs)` |
| `AutoDelete.DeleteEffect` | auto_delete.c:92-181 | delete_file: no change when resolution, stat or rename fails; otherwise the node and, for a directory, everything below it move under the held path, the old paths are gone and every other path is unchanged; on store failure no row is added (orphan); on success exactly one new row under a fresh id |
| `AutoDelete.RestoreEffect` | auto_delete.c:263-410 | restore_file: no change for an unknown id or an unopenable store; a missing held file drops the row and moves nothing; directory failure changes nothing; rename failure keeps the row and the held file, the only change being the directory made for the original; success moves the held content to the original path, or to the `_restored` name (distinct from it) when occupied, and drops the row |
| `AutoDelete.RestoreFrame` | auto_delete.c:343-399 | a successful restore: the held node and everything below it land at the target, the held path is gone unless it is the target, an occupied original keeps its content, every other path is unchanged, and the only new paths are the target, those below it and the original's directory |
| `AutoDelete.PutBackFrame` | auto_delete.c:353-387 | the final rename, seen from the tree before the one-level mkdir: the same frame as `RestoreFrame` |
| `AutoDelete.ExpiredIds` | auto_delete.c:424-427 | the ids selected by `scheduled_deletion <= now` |
| `AutoDelete.PurgeEffect` | auto_delete.c:412-510 | purge_expired: "nothing to purge" iff no row is expired; the new tree is the old one without the held paths of the reclaimable expired rows; purged counts those rows and failed the other expired rows; an expired row goes iff its unlink succeeded or hit ENOENT; unexpired rows are unchanged |
| `AutoDelete.PurgeEffectIs` | auto_delete.c:412-510 | once the store opens, the purge leaves the tree without the held paths of the reclaimed rows, drops those rows unless the store is read-only, and reports their count and the count of the other expired rows, or nothing to purge when both are 0 |
| `AutoDelete.Budget` | auto_delete.c:200-206 | the first pass's size estimate is at least 100 per row |
| `AutoDelete.Enumerate` | auto_delete.c:190-191 | a SELECT without ORDER BY: each row id exactly once, in some order |
| `AutoDelete.HeldPathEndsInName` | auto_delete.c:113-122 | the held path starts with the recycle bin path and ends with the held name, with a `'/'` before the name when the bin is not empty |
| `AutoDelete.RecycleBin.constructor` | auto_delete.h:8-12 | the system holds the recycle bin path, the file system and the table given |
| `AutoDelete.RecycleBin.NextRowId` | auto_delete.c:154-161 | the scan over rowids in use returns `NextId` of the table |
| `AutoDelete.RecycleBin.DeleteFile` | auto_delete.c:92-181 | the outcome and the new file system and table are those of `DeleteEffect` |
| `AutoDelete.RecycleBin.RestoreFile` | auto_delete.c:263-410 | the outcome and the new file system and table are those of `RestoreEffect` |
| `AutoDelete.RecycleBin.PurgeExpired` | auto_delete.c:412-510 | the outcome and the new file system and table are those of `PurgeEffect` |
| `AutoDelete.RecycleBin.ListRecycled` | auto_delete.c:183-261 | a store error when the store does not open; otherwise "No files in recycle bin" iff the table is empty and a listing iff it is not, with one listed line per row, each row exactly once, never truncated |
| `AutoDelete.ListedOf` | auto_delete.c:231-247 | a listed line carries the row's id read back as a C int (the id itself whenever it fits) and the row's original path |
| `AutoDelete.PurgeRows` | auto_delete.c:444-499 | the loop over the snapshot of expired rows removes exactly the held files of the reclaimable rows and their rows, and counts them and the others |
| `AutoDelete.PurgeStep` | auto_delete.c:480-496 | each unlink, on the file system as earlier iterations left it, has the outcome the row has on the original one, so the row order does not matter |
| `AutoDelete.DeletedRowFindsHeldFile` | auto_delete.c:301-319 | the held path rebuilt from a freshly inserted row holds the deleted file's content |
| `AutoDelete.DeleteMovesIntoBin` | auto_delete.c:131-165 | with no faults and a free held path, delete moves the file to the held path and inserts its row under an id not yet in the table |
| `AutoDelete.RestoreMovesBack` | auto_delete.c:343-399 | with no faults, restoring that row moves the file back to its free original path and drops the row, giving the tree and table from before the delete |
| `AutoDelete.MoveBack` | auto_delete.c:387 | renaming a file held at a free path back to its place, whose directory exists, gives back the tree from before the first move |
| `AutoDelete.DeleteThenRestore` | auto_delete.c:301-399 | delete then restore of the new id, with no faults, gives back the original file system and table |
| `AutoDelete.PurgeAgainFindsNothing` | auto_delete.c:504-509 | after a purge with no failures, a purge at the same time reports nothing to purge |
| `AutoDelete.PurgeRowFate` | auto_delete.c:424-499 | without faults, a purge keeps an unexpired row unchanged and removes an expired row together with its held regular file |
| `AutoDelete.RetentionWindow` | auto_delete.c:424-427 | a file deleted at `T` with retention `r` survives a purge before `T+r` and is reclaimed with its row at or after `T+r` |
| `AutoDelete.RenameKeepsEnclosingDir` | auto_delete.c:131 | a rename to a path below a directory, when it succeeds, leaves that directory a directory |
| `AutoDelete.DeleteKeepsBin` | auto_delete.c:131 | delete never removes the recycle bin directory |
| `AutoDelete.RestoreKeepsBin` | auto_delete.c:387 | restore never removes the recycle bin directory |
| `AutoDelete.PurgeKeepsBin` | auto_delete.c:480 | purge never removes the recycle bin directory |
| `AutoDelete.IdIsReused` | auto_delete.c:72-73 | after the row with the largest id is deleted, the next insert gets that id again |
| `AutoDelete.RestoreReplacesEarlierCopy` | auto_delete.c:373-387 | the `_restored` target (the original cut before its last dot) is not checked: restoring onto it replaces a file already there |
| `Cli.ClampLong` | main.c:41 | strtol saturates to the 64-bit long range: values inside are kept, values below become LONG_MIN and values above LONG_MAX |
| `Cli.Signed` | main.c:41 | the value of the digits, negated under a minus sign: zero iff the digits denote zero, otherwise of the sign read |
| `Cli.StrToLReadsNumeral` | main.c:41 | strtol of white space, an optional sign, digits and then a non-digit: the signed value of the digits saturated to a long, with `end` just past the digits |
| `Cli.StrToL` | main.c:41 | `strtol(s, &end, 10)`: end within the string, value 0 when no digits are read, value within the long range |
| `Cli.ParseInt` | main.c:40-42 | an accepted number fits a 32-bit int |
| `Cli.ParseIntAccepts` | main.c:41-46 | a number is accepted iff the argument is empty or is white space, an optional sign and digits to the end |
| `Cli.Main` | main.c:16-79 | usage before init when argc < 2; init failure before any command; and, both ways, once init succeeded: `delete` gives its usage with no path, retention 60 with a path only, the parsed retention or the not-a-number error with a fourth argument; `restore` gives its usage with no id, the parsed id or the not-a-number error; `list` and `purge` run exactly when named; any other name is reported as unknown |
| `Cli.ExitCode` | main.c:17-87 | main returns 0 exactly when a command ran, whatever the engine reported, and 1 otherwise |
| `Cli.RenderRoundTrip` | main.c:31-73 | every command with a NUL-free path and 32-bit numbers is produced by its rendered argument vector |
| `Cli.ParseShow` | main.c:61-67 | a printed 32-bit int parses back to itself |
| `Cli.DeleteDefaultsRetention` | main.c:38 | `delete <path>` runs with `DEFAULT_RETENTION_SECS` (60), whatever the program was called |
| `Cli.ExtraArgumentsIgnored` | main.c:51-53 | list and purge ignore any further arguments, whatever the program was called |
| `Cli.ParseNumeral` | main.c:41-42 | an argument of white space, an optional sign and digits has no NUL and is accepted with the signed value of its digits, saturated to a long and cut to an int |
| `Cli.DeleteNumeral` | main.c:38-49 | `delete <path> <numeral> ...` runs delete on the path with the numeral's value, whatever argv[0] is and whatever follows |
| `Cli.RestoreNumeral` | main.c:61-69 | `restore <numeral> ...` runs restore with the numeral's value, whatever argv[0] is and whatever follows |
| `Cli.RestorePlusSign` | main.c:62 | `restore +5` restores row 5 |
| `Cli.RestoreLeadingSpace` | main.c:62 | `restore " 5"` restores row 5 |
| `Cli.RestoreLeadingZeros` | main.c:62 | `restore 007` restores row 7: base 10, not octal |
| `Cli.DeleteNegativeRetention` | main.c:41 | `delete <path> -3` is accepted and runs with retention -3 |
| `Cli.NumberQuirks` | main.c:61-63 | `""` reads as 0, `" 7"` as 7, and `"12abc"` is refused |
| `Cli.DigitsWrap` | main.c:41 | a digit string within the long range is narrowed modulo 2^32 (`"4294967297"` reads as 1) |
| `Cli.OverflowSaturates` | main.c:41 | a digit string beyond the long range reads as -1 |
| `Cli.NegativeOverflowSaturates` | main.c:41 | a negative digit string beyond the long range reads as 0 |
| `Nano.JoinLines` | Customised_CLI-main/nano.c:187-192 | the joined text of NUL-free lines is NUL-free |
| `Nano.Split` | Customised_CLI-main/nano.c:132-160 | the pieces between `'\n'`s: at least one, none holding `'\n'`, the last empty iff the text is empty or ends in `'\n'` |
| `Nano.Feed` | Customised_CLI-main/nano.c:133-147 | one character of the read loop keeps the line buffer within MAX_LINE_LENGTH-1 characters |
| `Nano.Scan` | Customised_CLI-main/nano.c:132-148 | the line buffer never holds a `'\n'` or more than 999 characters |
| `Nano.ScanDone` | Customised_CLI-main/nano.c:133-142 | every line the read loop completes is free of `'\n'` and NUL and at most 999 characters |
| `Nano.Loaded` | Customised_CLI-main/nano.c:132-168 | the loaded lines: at least one, each free of `'\n'` and NUL and at most 999 characters |
| `Nano.ScanIsSplit` | Customised_CLI-main/nano.c:132-148 | on clean text the read loop completes every piece but the last, which stays in the line buffer |
| `Nano.LoadedIsSplit` | Customised_CLI-main/nano.c:150-168 | the loader splits clean text on `'\n'`, dropping only the empty piece after a final `'\n'`; an empty file gives one empty line |
| `Nano.JoinSplit` | Customised_CLI-main/nano.c:187-192 | joining the pieces of a text gives the text back |
| `Nano.SplitPiece` | Customised_CLI-main/nano.c:133-148 | text without `'\n'` is a single piece |
| `Nano.SplitAfterNewline` | Customised_CLI-main/nano.c:133-148 | a `'\n'` followed by `'\n'`-free text adds that text as one more piece |
| `Nano.SplitJoin` | Customised_CLI-main/nano.c:187-192 | splitting joined `'\n'`-free lines gives the lines back |
| `Nano.OpenAfterSave` | Customised_CLI-main/nano.c:177-196 | opening what was saved gives the same lines, for storable lines |
| `Nano.SaveAfterOpen` | Customised_CLI-main/nano.c:132-196 | saving what was opened writes clean text not ending in `'\n'` back unchanged |
| `Nano.SaveAfterOpenDropsFinalNewline` | Customised_CLI-main/nano.c:132-196 | a final `'\n'` is lost by open then save |
| `Nano.LongLineCut` | Customised_CLI-main/nano.c:144-146 | a line longer than 999 characters keeps only its first 999 |
| `Nano.Grow` | Customised_CLI-main/nano.c:82-85 | realloc to twice the capacity keeps the old lines |
| `Nano.ShiftDown` | Customised_CLI-main/nano.c:88-90 | lines `at..n-1` move to `at+1..n`, those before `at` stay |
| `Nano.ShiftUp` | Customised_CLI-main/nano.c:104-106 | lines `at+1..n-1` move to `at..n-2`, those before `at` stay |
| `Nano.ReadLoop` | Customised_CLI-main/nano.c:121-148 | after the read loop, the completed lines are at the front of the array and the current line is in `temp`, exactly as `Scan` of the file says |
| `Nano.ReadLines` | Customised_CLI-main/nano.c:150-168 | after the loop and the last-line and empty-file handling, exactly `Loaded(data)` is at the front of the array |
| `Nano.TextBuffer.constructor` | Customised_CLI-main/nano.c:43-61 | one empty line, capacity MAX_LINES, no file name, not modified |
| `Nano.InsertAt` | Customised_CLI-main/nano.c:88-93 | the shift and the copy put the new line at `at` with the old lines before and after it in order |
| `Nano.TextBuffer.InsertLine` | Customised_CLI-main/nano.c:79-96 | no-op outside `0..count`; otherwise lines become `old[..at] + [line] + old[at..]`, modified set, capacity doubled exactly when it was full |
| `Nano.TextBuffer.DeleteLine` | Customised_CLI-main/nano.c:98-110 | no-op outside `0..count-1`; otherwise exactly line `at` removed, order kept, modified set |
| `Nano.TextBuffer.Open` | Customised_CLI-main/nano.c:113-175 | on open failure only the name is kept; otherwise the lines are `Loaded(file)` and modified is cleared; the file must fit the capacity |
| `Nano.TextBuffer.Save` | Customised_CLI-main/nano.c:177-197 | writes the joined lines and clears modified when there is a name and the file opens; otherwise writes nothing and changes nothing |
| `Nano.Joined` | Customised_CLI-main/nano.c:187-192 | the write loop produces the lines joined by `'\n'` with none at the end |
| `Nano.Arrow` | Customised_CLI-main/nano.c:259-273 | arrows keep the row within the buffer and the lines unchanged; Up/Down keep the column; Right never passes the end of the line; Left/Right keep the cursor in the text |
| `Nano.DownLeavesColumnPastLine` | Customised_CLI-main/nano.c:264-266 | Down onto a shorter line leaves the column past its end, so a following printable key would give memmove a negative count |
| `Nano.Edit` | Customised_CLI-main/nano.c:259-311 | a defined key keeps the cursor on a row; every key but Up/Down keeps it within the text |
| `Nano.DefinedWithinText` | Customised_CLI-main/nano.c:276-311 | with the cursor within the text every key is defined; an undefined key is a byte with the cursor past the end of its line |
| `Nano.TouchesIffChanged` | Customised_CLI-main/nano.c:276-311 | a defined key sets the modified flag exactly when it changes the text |
| `Nano.EnterSplitsLine` | Customised_CLI-main/nano.c:275-284 | Enter: the two new rows concatenate to the old one, rows above stay, rows below shift, cursor at `(0, y+1)` |
| `Nano.BackspaceUndoesEnter` | Customised_CLI-main/nano.c:285-300 | Backspace right after Enter restores the screen |
| `Nano.BackspaceUndoesTyping` | Customised_CLI-main/nano.c:285-311 | Backspace right after a typed character restores the screen |
| `Nano.ReplaceRow` | Customised_CLI-main/nano.c:187-192 | replacing one row changes the saved text only between the text before and after that row |
| `Nano.SplitRow` | Customised_CLI-main/nano.c:187-192 | splitting a row in two puts one `'\n'` between its parts in the saved text |
| `Nano.EnterInsertsNewline` | Customised_CLI-main/nano.c:275-284 | in the saved text, Enter inserts `'\n'` at the cursor and moves past it |
| `Nano.TypingInsertsChar` | Customised_CLI-main/nano.c:301-311 | in the saved text, a printable key that fits inserts itself at the cursor and moves past it |
| `Nano.BackspaceInLine` | Customised_CLI-main/nano.c:287-292 | within a line, Backspace deletes the character before the cursor |
| `Nano.BackspaceJoinsRows` | Customised_CLI-main/nano.c:293-300 | at column 0, Backspace deletes the line break before the row and puts the cursor at the old end of the previous row |
| `Nano.BackspaceDeletesChar` | Customised_CLI-main/nano.c:285-300 | Backspace deletes the character before the cursor in the saved text, and changes nothing exactly at `(0,0)` |
| `Nano.TypingStaysInBuffer` | Customised_CLI-main/nano.c:306 | a printable key never makes a line longer than 999 characters |
| `Nano.MergeOverflowsLineBuffer` | Customised_CLI-main/nano.c:295-297 | a Backspace merge onto a full row yields 1000 characters, more than the row's buffer holds |
| `Nano.SplitLine` | Customised_CLI-main/nano.c:275-284 | the buffer and cursor after Enter are those of `Edit` |
| `Nano.RubOut` | Customised_CLI-main/nano.c:285-300 | the buffer and cursor after Backspace are those of `Edit`; modified set unless at `(0,0)` |
| `Nano.TypeChar` | Customised_CLI-main/nano.c:301-311 | the buffer and cursor after a printable key are those of `Edit`; modified set exactly when it fits |
| `Nano.MoveCursor` | Customised_CLI-main/nano.c:253-274 | the cursor after an arrow key is that of `Arrow` |
| `Nano.Step` | Customised_CLI-main/nano.c:229-313 | one loop pass: quits on Ctrl-Q or a cut escape, saves on Ctrl-S or a confirmed Ctrl-Q, otherwise applies `Edit` and sets modified as `Touches` says |
| `Nano.Pass` | Customised_CLI-main/nano.c:229-313 | one loop pass on the session: it writes iff the key saves and the file has a name and opens, the text written is the joined lines and the flag is cleared; any other key but a quit applies `Edit` |
| `Nano.Replay` | Customised_CLI-main/nano.c:225-314 | the keys run in order from a session: the cursor stays on a row |
| `Nano.ReplaySnoc` | Customised_CLI-main/nano.c:225-314 | one more defined key extends a replay by one pass and appends its written text |
| `Nano.SaveKeyWritesText` | Customised_CLI-main/nano.c:251-252 | Ctrl-S after any run writes the text on the screen at that point, clears modified and keeps the lines and cursor |
| `Nano.TypeAndSave` | Customised_CLI-main/nano.c:225-314 | typing `h`, `i` and Ctrl-S into an empty buffer writes `"hi"` once and leaves the cursor after the `i` |
| `Nano.RunKey` | Customised_CLI-main/nano.c:229-313 | one turn of the loop extends the replay of the keys so far by that key, with the new lines, cursor, flag and written texts |
| `Nano.EditorLoop` | Customised_CLI-main/nano.c:225-314 | runs the keys in order up to the first quitting key, or up to a key whose effect C leaves undefined; the lines, cursor, modified flag and the texts written, in order, are those of replaying the keys it used from the starting buffer |
| `Trash.PrefixesShape` | Customised_CLI-main/trash.c:21-30 | the prefixes are exactly the cuts before each `'/'`, in increasing length |
| `Trash.Steps` | Customised_CLI-main/trash.c:21-32 | the mkdir calls end with the whole path |
| `Trash.StepsShape` | Customised_CLI-main/trash.c:21-31 | the steps are distinct non-empty prefixes, every one but the last ends before a `'/'`, and every such prefix from index 1 is a step; a leading `'/'` never yields `mkdir("")` |
| `Trash.AttemptShape` | Customised_CLI-main/trash.c:21-33 | the calls are a prefix of the steps, all of them on success; existing entries never change; new entries are directories that were asked for |
| `Trash.MkdirPEffect` | Customised_CLI-main/trash.c:11-34 | the result is 0 or -1; existing entries never change; each new entry is a directory that mkdir was called on |
| `Trash.AttemptBlocked` | Customised_CLI-main/trash.c:26-27 | success iff no step is refused; a failure is the first refused step |
| `Trash.MkdirPSucceeds` | Customised_CLI-main/trash.c:21-33 | on return 0 every step exists, as a directory unless something else stood there |
| `Trash.MkdirPStops` | Customised_CLI-main/trash.c:26-27 | on -1 the calls stop at the first refused step, leaving later prefixes uncreated |
| `Trash.MkdirPRejects` | Customised_CLI-main/trash.c:14-16 | an empty path or one of 512 characters or more returns -1 with no mkdir call |
| `Trash.ExistingIsSuccess` | Customised_CLI-main/trash.c:26-31 | EEXIST is success: with something at every step the result is 0 and nothing changes |
| `Trash.FileInTheWay` | Customised_CLI-main/trash.c:31-33 | a regular file at the target still gives 0 and stays a non-directory |
| `Trash.Disk.Mkdir` | Customised_CLI-main/trash.c:26 | mkdir: EEXIST when something is there, a refusal, or one new directory; the call is logged |
| `Trash.MkdirPrefix` | Customised_CLI-main/trash.c:23-29 | one cut: mkdir on the prefix before the `'/'`, then the buffer restored unless it failed |
| `Trash.MakeParents` | Customised_CLI-main/trash.c:21-30 | the loop makes exactly the calls of `Attempt` on the prefixes, and the buffer equals the input after a full pass |
| `Trash.MkdirP` | Customised_CLI-main/trash.c:11-34 | return value, entries and calls are those of `MkdirPEffect` |

## Left out

- SQLite itself is not modelled: connections, prepared statements and durability. Each statement is one atomic map update. An unopenable database and a failing prepare are one fault; a database that refuses writes is another.
- `AutoDelete.RestoreEffect`: row ids are unbounded integers. The SQL `%d` and `sqlite3_column_int` read ids as 32-bit ints, which the model does not capture.
- `AutoDelete.NewRow`: `timestamp + retention_secs` is not bounded to a 64-bit `time_t`.
- `AutoDelete.RecycleBin.ListRecycled`: the rendered dates come from a parameter, because `localtime`/`strftime` depend on the time zone and locale. The message text is not produced. The model returns the listed rows and proves the `... (truncated)` branch unreachable.
- Message strings built by `format_string`/`vsnprintf` are not produced. Operations return an outcome kind. The use of freed `filename` in the missing-file message of `restore_file` (auto_delete.c:310, 335) is therefore not represented.
- Memory-allocation failures are not modelled: every `malloc`/`strdup`/`format_string` that returns NULL, and the `failed_count++` paths they feed in `purge_expired`.
- `realpath` is an oracle: `DeleteEffect` receives its answer as a parameter.
- `init_system`, `init_database` and `cleanup_system` are not modelled. `getenv("HOME")`, creating the bin and opening the database are reduced to the `initOk` flag of `Cli.Main` and to the `bin` parameter. The current time of `delete_file` and `purge_expired` is a parameter.
- errno is reduced to success, ENOENT or another failure. Which calls fail is chosen by the `Faults` parameter, not derived from permissions, devices or quotas.
- `Paths.Dirname`: the result for a path of exactly two leading slashes is implementation-defined in POSIX and is taken as `"/"`.
- `Nano.TextBuffer.InsertLine`: the copied line is stored whole. The `strcpy` overflow of the 1000-byte line buffer for lines of 1000 characters or more is not modelled.
- `Nano.RubOut`: the merged row may exceed the 1000-byte line buffer. The model stores the full string and does not model the overflow (`Nano.MergeOverflowsLineBuffer` exhibits the case).
- `Nano.TextBuffer.Open`: it requires the file's lines to fit the current capacity. The loader checks `count`, which stays 0, instead of `line_count`, so it never grows the array. It writes past the end instead, and that is not modelled.
- `Nano.EditorLoop`: the loop stops before a key whose effect C leaves undefined: Enter, Backspace or a fitting printable key with the column past the end of its row, as Up or Down can leave it. What the C program does then is not modelled.
- `Trash.MkdirPEffect`: entries are keyed by the path string exactly as `mkdir` receives it. The kernel resolves a trailing `'/'`, a doubled `'/'` and `.` components to the same directory; the model does not. So `"/tmp/a/"` makes a separate entry after `"/tmp/a"` where the kernel answers EEXIST, and a `HOME` of `"/"` gives `"//.local/share/Trash/files"`, whose steps are distinct keys. Which spellings name one directory, and the -1 or 0 that a refusal on the other spelling would give, are not captured. The lemmas about `mkdir_p` hold as stated for paths without such spellings.
- `Trash.Disk.Mkdir`: the same keying by the raw string applies to each single call.
- `AutoDelete.RestoreMovesBack`: it requires a non-empty original path, because `rename` to `""` fails with ENOENT. A path from `realpath` is never empty.
- Terminal raw mode, screen drawing, the status line, `buffer_free` and the editor's `main` are left out. They are terminal I/O and memory release.
- `daemon.c` is left out. Its fork/setsid, signals, `sleep` and the flag loop only call `purge_expired` every 60 seconds.
- The copy/move/list/read/remove/rename/mkdir utilities, `recover.c`, `recent.c`, `cleanlogs.c`, the mail client, and `trash.c`'s `main` are not part of this model. Each is a single system call, a stream copy, floating-point age arithmetic or network I/O.
