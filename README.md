# Sims 4 Mod Manager: a verified model of its services and store

This project models the logic of the Sims 4 Mod Manager. It is an Electron application that scans a Sims 4 `Mods` folder, keeps a catalogue of the mods it finds, enables and disables them by renaming files to and from `*.disabled`, and records every change in a git repository so that the user can roll the folder back. The model covers these parts:

- the two back-end stacks that do the work:
  - `ModManager` with `DatabaseManager` and `GitManager`;
  - `ModService` with `DatabaseService` and `GitService`;
- the pure helpers of `src/shared/utils.ts`;
- the four renderer store slices: mods, profiles, git and app.

How the parts are modelled:

- **State.** Each service whose fields change is a class whose methods carry `modifies` clauses. This covers the databases (`DatabaseService.Database`, `DatabaseManager.Store`), the file system (`FileSystem.Disk`), the git repositories (`GitTool.Repository`), the services and the four stores.
- **Tables.** Each SQL table is a map from primary key to row. Each query is a function on those maps. A row is a datatype with the columns the code binds.
- **Files.** The file system is a map from path to file data, plus the set of directories, the set of locked paths on which `rename` and `unlink` fail, and the set of files that `stat` reports but `readFile` cannot read. A directory listing is a `Listing` value.
- **Git.** Git itself is not modelled. A `GitTool.Repository` logs every command it is sent, in order, and answers each from fixed tables. The only exception is that `init` makes `checkIsRepo` answer true from then on. Each git-driving operation states:
  - the exact command log it produces;
  - the answer it gives;
  - that a sequence of awaited commands stops at the first one that throws (`GitTool.Attempted`, `GitTool.FirstError`).
- **Text and paths.** JavaScript string operations (`toLowerCase`, `includes`, `trim`, `split`, `replace`) and node's `path.basename`/`extname` are written out over Dafny strings in `Text` and `Paths`. Each regular expression the code applies is written out as the match it makes, in `ModNaming`, `ModService` and `CommitMessages`. This covers leftmost match, greedy and lazy quantifiers and their backtracking, the `i` flag without `u`, and `.` not matching line terminators.

## Model

| member | source | states |
|---|---|---|
| SharedUtils.SanitizeFileName | src/shared/utils.ts:25-27 | every reserved character `<>:"/\|?*` becomes `_`, every other character is kept in place, the length is unchanged |
| SharedUtils.SanitizeIdempotent | src/shared/utils.ts:25-27 | sanitising an already sanitised name changes nothing |
| SharedUtils.GetModTypeFromExtension | src/shared/utils.ts:29-40 | `.ts4script` gives script and `.cfg` gives cfg, in any letter case; every other extension gives package |
| SharedUtils.ModTypeIgnoresCase | src/shared/utils.ts:29-40 | an extension and its upper-cased form map to the same type |
| Paths.BaseName | src/services/ModManager.ts:88 | `path.basename`: the part after the last `/`, which holds no `/` and ends the path |
| Paths.BaseNameOfEntry | src/services/ModManager.ts:63 | the base name of `join(dir, name)` is the entry name `name` |
| Paths.ExtName | src/services/ModManager.ts:69 | `path.extname`: empty, or a dot-led suffix of the name with no further dot that is never the whole name; a name with a dot that does not start with one has an extension |
| Paths.StripExtension | src/services/ModManager.ts:121 | the name without its extension; the two together give the name back |
| ModNaming.StripBracketTags | src/services/ModManager.ts:124 | `replace(/\[.*?\]/g, '')` keeps only characters of its input |
| ModNaming.StripVersions | src/services/ModManager.ts:125 | `replace(/v?\d+\.?\d*\.?\d*/g, '')` leaves no digit |
| ModNaming.SeparatorsToSpaces | src/services/ModManager.ts:126 | `replace(/[-_]+/g, ' ')` leaves no `-` or `_` |
| ModNaming.ExtractModName | src/services/ModManager.ts:119-130 | the cleaned name, which holds no digit, `-` or `_`; when cleaning leaves nothing, the file name itself comes back |
| ModNaming.VersionSearch | src/services/ModManager.ts:133 | the capture of the leftmost `v?(\d+\.?\d*\.?\d*)` match is non-empty and starts with a digit |
| ModNaming.VersionSearchAtFirstDigit | src/services/ModManager.ts:132-135 | the leftmost match captures the number that starts at the first digit; a preceding `v` is never captured |
| ModNaming.ExtractVersionSpec | src/services/ModManager.ts:132-135 | extractVersion returns null exactly when the name has no digit, and otherwise returns the number at its first digit |
| ModNaming.ExtractAuthor | src/services/ModManager.ts:137-140 | the capture of the first `[...]` run is non-empty and holds no `]`; null when there is no such run |
| ModNaming.AuthorCaptureChars | src/services/ModManager.ts:138 | the captured author is non-empty and holds no `]` |
| ModNaming.DetermineCategoryByPriority | src/services/ModManager.ts:142-158 | the category is the first in the order script, CAS, build/buy, gameplay, override whose keyword occurs in the lower-cased name |
| ModNaming.DetermineCategoryIgnoresCase | src/services/ModManager.ts:143 | the category does not depend on letter case |
| ModNaming.DetermineCategoryOther | src/services/ModManager.ts:157 | `Other` comes back exactly when no keyword of any category occurs |
| FileSystem.Moved | src/services/ModManager.ts:174 | after a rename, the target holds the source's data, the source is gone, and other paths are unchanged |
| FileSystem.MovedBack | src/services/ModService.ts:163-169 | renaming a file to a free name and back restores the file table |
| FileSystem.Disk.Rename | src/services/ModManager.ts:174 | `fs.rename` fails exactly as `RenameCheck` decides (a missing source, a directory at the target or a locked name) and then changes nothing; otherwise it moves the file; directories and locks never change, and no path becomes both a file and a directory |
| FileSystem.RenameCheck | src/services/ModManager.ts:174 | `rename` succeeds exactly when the source is a regular file, no directory sits at the target and neither name is locked; a directory target fails with `EISDIR: illegal operation on a directory, rename '<from>' -> '<to>'` |
| FileSystem.Disk.Unlink | src/services/ModService.ts:200-202 | `unlink` fails exactly as `UnlinkCheck` decides and then changes nothing; otherwise it removes exactly that file; no path becomes both a file and a directory |
| FileSystem.UnlinkCheck | src/services/ModService.ts:200-202 | `unlink` succeeds exactly on an unlocked regular file; a directory at the path fails with EISDIR and a missing path with ENOENT |
| FileSystem.ReadDigest | src/services/ModManager.ts:91 | `readFile` yields the file's bytes exactly when the file is there and readable |
| ModManager.CreateModInfo | src/services/ModManager.ts:85-117 | no record exactly when `stat` or `readFile` fails; otherwise the record is `ModRecord` of the path, the `stat` data and the bytes read |
| ModManager.DisabledExtension | src/services/ModManager.ts:69-72 | a name that ends in `.disabled` has extension `.disabled` or none, so it never passes the `.package`/`.ts4script` test |
| ModManager.ScannedAreEnabled | src/services/ModManager.ts:58-83 | every record the recursive scan pushes is enabled and stands for a file on disk that passed the extension test |
| ModManager.ScanDirectory | src/services/ModManager.ts:58-83 | the scan appends, in entry order and recursing into directories, the records of the files that pass the test and can be read; an unreadable directory adds nothing |
| ModManager.ModRecord | src/services/ModManager.ts:88-110 | the record built from a successful `stat` and read: the given id and path, the size, hash, mtime and birthtime; enabled exactly when the base name does not end in `.disabled`, filed under the base name with its first `.disabled` removed when disabled; name, category, version (default `1.0.0`) and author (default `Unknown`) read off that file name by the extraction functions; no conflicts, dependencies, tags or `lastUsed` |
| ModManager.FindById | src/services/ModManager.ts:206 | the first record with that id, or nothing when none has it |
| ModManager.EnabledMods | src/services/ModManager.ts:211 | exactly the enabled records, in order |
| ModManager.GroupByFileName | src/services/ModManager.ts:215-222 | maps each lower-cased file name to its mods in order, and lists the names in the order they were first met |
| ModManager.CollectDuplicates | src/services/ModManager.ts:224-234 | one DUPLICATE_FILES conflict per name whose group has two or more mods, in insertion order |
| ModManager.DuplicatesAmong | src/services/ModManager.ts:215-234 | the two grouping loops yield exactly the duplicate conflicts of the groups in first-seen order |
| ModManager.DuplicateConflictsExact | src/services/ModManager.ts:224-234 | the duplicate conflicts are exactly the groups of two or more, one for each such name |
| ModManager.DuplicateConflictsOnePerKey | src/services/ModManager.ts:224-234 | no two duplicate conflicts share a description: one conflict per file name |
| ModManager.DuplicateFilesExact | src/services/ModManager.ts:209-253 | the DUPLICATE_FILES conflicts of the report are exactly those of the groups of enabled mods |
| ModManager.DuplicateConflictContents | src/services/ModManager.ts:226-232 | a duplicate conflict names every enabled mod with that lower-cased file name, with severity medium and not auto-resolvable |
| ModManager.ScriptConflictExact | src/services/ModManager.ts:236-246 | exactly one SCRIPT_CONFLICTS conflict, with severity low and in last place, when more than ten enabled mods end in `.ts4script` (compared case-sensitively); none otherwise |
| ModManager.ConflictIdsAreEnabled | src/services/ModManager.ts:211-246 | only enabled mods are ever named in a conflict |
| ModManager.GenerateSuggestions | src/services/ModManager.ts:255-270 | at most one suggestion per conflict |
| ModManager.SuggestionsLineUp | src/services/ModManager.ts:258-267 | when every conflict's type has a suggestion, suggestion i belongs to conflict i |
| ModManager.ReportFlags | src/services/ModManager.ts:248-252 | `hasConflicts` holds exactly when some conflict was found, and each conflict has its suggestion at the same position |
| ModManager.ConflictsAmong | src/services/ModManager.ts:211-252 | the two loops of checkConflicts build the report `ReportOf` describes |
| ModManager.DisableEnablePath | src/services/ModManager.ts:171-193 | appending `.disabled` and then removing the first `.disabled` restores a path that holds none of its own |
| ModManager.ApplyEnable | src/services/ModManager.ts:166-179 | a record that is already enabled is left alone; otherwise the file is renamed to its path with the first `.disabled` removed, and the record changes only when the rename succeeds, which it does not when a directory sits at the enabled path; a failure reads `Failed to enable mod: Error: …` |
| ModManager.ApplyDisable | src/services/ModManager.ts:188-201 | an enabled record's file gets `.disabled` appended; the record changes only when the rename succeeds, which it does not when a directory sits at the disabled path |
| ModManager.DisableEnableRoundTrip | src/services/ModManager.ts:160-202 | disabling and then enabling a record restores both the record and the file table |
| ModManager.Manager.ScanResultEnabled | src/services/ModManager.ts:41-56 | every record of a successful scan is enabled and names a file on disk |
| ModManager.Manager.ScanModsFolder | src/services/ModManager.ts:41-56 | fails with `Mods folder not configured…` when no folder is set, or with `Mods folder not found: …` when it is missing; otherwise returns the scan of the folder |
| ModManager.Manager.FindModById | src/services/ModManager.ts:204-207 | a fresh scan, then the first record with that id |
| ModManager.Manager.EnableMod | src/services/ModManager.ts:160-180 | `Mod not found: <id>` when the scan has no such record; since every scanned record is enabled, it renames nothing |
| ModManager.Manager.DisableMod | src/services/ModManager.ts:182-202 | `Mod not found: <id>` when the scan has no such record; otherwise the file is renamed to `path + ".disabled"`, as `RenameCheck` allows (a directory there fails with EISDIR and changes nothing) |
| ModManager.Manager.CheckConflicts | src/services/ModManager.ts:209-253 | the conflict report over the scanned records, or the scan's error |
| ModManager.Manager.SetModsPath | src/services/ModManager.ts:272-275 | sets the folder and stores it as `modsPath` |
| ModService.ModExtensionLen | src/services/ModService.ts:116 | the length of the `\.(package\|ts4script\|cfg)$` match, 0 when there is none: never longer than the name, and a match starts at a dot |
| ModService.StripFirstVersionTag | src/services/ModService.ts:119 | removing the leftmost `[-_](v?\d+\.?\d*\.?\d*)` match never lengthens the name |
| ModService.CapitalizeWords | src/services/ModService.ts:125 | upper-cases each word-initial letter and changes nothing else |
| ModService.ServiceModName | src/services/ModService.ts:114-128 | the cleaned name holds no `-` or `_`; when trimming leaves nothing, the file name itself comes back |
| ModService.ServiceNameCapitalised | src/services/ModService.ts:114-128 | no word of a cleaned name starts with a lower-case letter |
| ModService.CandidatesPassTest | src/services/ModService.ts:50-75 | every path the scan yields names a file whose lower-cased extension is a mod extension or `.disabled` |
| ModService.ScanDirectory | src/services/ModService.ts:50-75 | the paths of the candidate files in entry order, recursing into directories; an unreadable directory yields none |
| ModService.CreateModFromFile | src/services/ModService.ts:77-139 | no record exactly when `stat` fails or the actual extension is not a mod extension; otherwise the record has the given id, path, size, dates and `now`, is enabled exactly when the name does not end in `.disabled` (whose first occurrence is then dropped from its file name), takes its type from the actual extension, is named `ServiceModName` of the actual file name, has the author `Script Mod Author` exactly when it is a script mod and none otherwise, and has no version or description |
| ModService.SavedAllReadsBack | src/services/ModService.ts:28-34 | after saving records with distinct ids one after another, each reads back as saved |
| ModService.TogglePath | src/services/ModService.ts:156-171 | enabling a path that ends in `.disabled` removes its first `.disabled`, disabling a path that lacks the suffix appends it, and in the two other cases the path stays |
| ModService.TogglePathChanges | src/services/ModService.ts:161-177 | a toggle renames the file exactly when it changes the path |
| ModService.ToggleEffect | src/services/ModService.ts:149-190 | `Mod not found` without any change for an unknown id; every failure leaves the store unchanged; a success reports the negated flag, keeps the set of ids and leaves every other mod as it was; a success that renames had a file at the old path and no directory at the new one |
| ModService.ToggleStoresNewState | src/services/ModService.ts:173-180 | after a corrected toggle, the stored record has the new flag and the new path, and the file sits at that path |
| ModService.ToggleOff | src/services/ModService.ts:166-185 | toggling off an enabled mod, with no directory at the disabled name, moves its file there and reports it disabled |
| ModService.ToggleOn | src/services/ModService.ts:159-185 | toggling on a disabled mod whose path ends in `.disabled`, with no directory at the enabled name, moves its file back and reports it enabled |
| ModService.ToggleTwice | src/services/ModService.ts:149-190 | with the corrected write-back, toggling an enabled mod twice (no directory at either name) restores the table and the files |
| ModService.StaleFlagAfterToggle | src/services/ModService.ts:174-180 | as written, the record saved after a rename carries the old flag, so two toggles leave `a.package` as `a.package.disabled` |
| ModService.DeleteEffect | src/services/ModService.ts:192-215 | `Mod not found` without any change for an unknown id; every failure leaves the store unchanged; a directory at the mod's path fails with `Failed to delete mod: EISDIR: …`; a success reports `{ success: true, message: 'Mod deleted successfully' }`, the row is gone, no file remains at the mod's path, and every other mod is as it was |
| ModService.Service.ScanMods | src/services/ModService.ts:18-48 | `Mods directory does not exist: <path>` when the folder is missing; `[]` with a closed database; otherwise every candidate whose record can be created is saved and returned, in scan order; the database stays open or closed as it was |
| ModService.Service.GetMods | src/services/ModService.ts:141-143 | `Database not initialized` when closed; otherwise every row once, read back, in ascending name order |
| ModService.Service.GetModById | src/services/ModService.ts:145-147 | `Database not initialized` when closed; otherwise the row's record, or null |
| ModService.Service.ToggleMod | src/services/ModService.ts:149-190 | performs `ToggleEffect` as written on the disk's files and directories: a directory at the new path fails with EISDIR and changes nothing; after a rename the record is saved with the new path and its old `enabled` |
| ModService.Service.DeleteMod | src/services/ModService.ts:192-215 | performs `DeleteEffect` on the disk and the database and returns its `{ success, message }` |
| DatabaseService.Encode | src/services/DatabaseService.ts:90-105 | the flag is bound as 1 or 0, and the row decodes back to exactly the record |
| DatabaseService.Decode | src/services/DatabaseService.ts:128-144 | only 1 reads as enabled; the id, path and name come back as stored |
| DatabaseService.RowRoundTrip | src/services/DatabaseService.ts:96-134 | a row holding 1 or 0 is exactly the encoding of the record it decodes to |
| DatabaseService.Saved | src/services/DatabaseService.ts:82-86 | `INSERT OR REPLACE` replaces the row with that key and leaves the others |
| DatabaseService.WithoutRow | src/services/DatabaseService.ts:194 | `DELETE` removes that row only; an absent id deletes nothing |
| DatabaseService.WithEnabled | src/services/DatabaseService.ts:210 | `UPDATE … SET enabled` changes that row's flag alone; an absent id updates nothing |
| DatabaseService.Database.Initialize | src/services/DatabaseService.ts:14-27 | opens the database and keeps existing rows |
| DatabaseService.Database.SaveMod | src/services/DatabaseService.ts:79-114 | `Database not initialized` when closed; otherwise the row is upserted |
| DatabaseService.Database.GetMods | src/services/DatabaseService.ts:116-149 | every row once, read back, in ascending name order |
| DatabaseService.Database.GetModById | src/services/DatabaseService.ts:151-189 | `Database not initialized` when closed; otherwise the row's record, or null |
| DatabaseService.Database.DeleteMod | src/services/DatabaseService.ts:191-205 | `Database not initialized` when closed; otherwise removes that row only |
| DatabaseService.Database.UpdateModEnabled | src/services/DatabaseService.ts:207-221 | `Database not initialized` when closed; otherwise changes that row's flag only |
| DatabaseService.Database.Close | src/services/DatabaseService.ts:223-236 | afterwards the database is closed and its rows are kept |
| DatabaseManager.NumberOrNull | src/services/DatabaseManager.ts:130-145 | `n \|\| null`: 0 and an absent value become NULL, and any other number is kept |
| DatabaseManager.TextOrNull | src/services/DatabaseManager.ts:130-145 | `s \|\| null`: the empty string and an absent value become NULL, and any other text is kept |
| DatabaseManager.ModRoundTrip | src/services/DatabaseManager.ts:114-212 | a record reads back exactly as saved unless an optional field holds 0 or `''`, which comes back as null; the flag always survives |
| DatabaseManager.ListMods | src/services/DatabaseManager.ts:163-170 | every row once, read back, in ascending name order |
| DatabaseManager.SortedListing | src/services/DatabaseManager.ts:163-170 | a listing sorted by name, decoded, holds every row once, read back, in name order |
| DatabaseManager.EnabledListing | src/services/DatabaseManager.ts:172-179 | the listing of `WHERE enabled = 1` holds exactly the enabled records of the table |
| DatabaseManager.ProfileRoundTrip | src/services/DatabaseManager.ts:215-300 | a profile reads back as saved unless its description is the empty string |
| DatabaseManager.Activated | src/services/DatabaseManager.ts:267-280 | afterwards only the requested profile is active, stamped with `now`; every other column of every row is unchanged |
| DatabaseManager.ActivatedAlone | src/services/DatabaseManager.ts:267-280 | a profile is active exactly when it is the requested one and that one exists |
| DatabaseManager.LimitCount | src/services/DatabaseManager.ts:320-333 | `LIMIT n` lets `min(n, rows)` rows through; a negative limit means none is cut |
| DatabaseManager.NewestFirst | src/services/DatabaseManager.ts:320-333 | the stored commits read back, no commit twice, newest first, as many as the limit allows, and none left out is newer than one returned |
| DatabaseManager.SortedPage | src/services/DatabaseManager.ts:320-333 | the first rows of a listing sorted newest first that names no key twice, decoded, are a page as `NewestFirst` states it |
| DatabaseManager.SetThenGet | src/services/DatabaseManager.ts:336-360 | the key that was set reads back as the parse of the value's JSON text; other keys read as before |
| DatabaseManager.Store.Initialize | src/services/DatabaseManager.ts:19-30 | opens the database and keeps existing rows |
| DatabaseManager.Store.SaveMod | src/services/DatabaseManager.ts:114-150 | upserts the encoded row, or fails when closed |
| DatabaseManager.Store.GetMod | src/services/DatabaseManager.ts:152-161 | the decoded row, or null |
| DatabaseManager.Store.GetAllMods | src/services/DatabaseManager.ts:163-170 | all mods in name order |
| DatabaseManager.Store.GetEnabledMods | src/services/DatabaseManager.ts:172-179 | the enabled mods in name order |
| DatabaseManager.Store.DeleteMod | src/services/DatabaseManager.ts:181-186 | removes that row only |
| DatabaseManager.Store.SaveProfile | src/services/DatabaseManager.ts:215-234 | upserts the encoded profile |
| DatabaseManager.Store.GetProfile | src/services/DatabaseManager.ts:236-245 | the decoded profile, or null |
| DatabaseManager.Store.GetAllProfiles | src/services/DatabaseManager.ts:247-254 | all profiles in name order |
| DatabaseManager.Store.GetActiveProfile | src/services/DatabaseManager.ts:256-265 | an active profile, or null when none is active |
| DatabaseManager.Store.SetActiveProfile | src/services/DatabaseManager.ts:267-280 | applies the two-step update of `Activated` |
| DatabaseManager.Store.DeleteProfile | src/services/DatabaseManager.ts:282-287 | removes that row only |
| DatabaseManager.Store.SaveCommit | src/services/DatabaseManager.ts:303-318 | upserts the commit under its hash |
| DatabaseManager.Store.GetCommits | src/services/DatabaseManager.ts:320-333 | the page `NewestFirst` describes: stored commits, none twice, newest first, cut at the limit |
| DatabaseManager.Store.SetSetting | src/services/DatabaseManager.ts:336-345 | stores the JSON text of the value under the key |
| DatabaseManager.Store.GetSetting | src/services/DatabaseManager.ts:347-360 | null for a missing key, the parsed value, or the raw text when parsing fails |
| DatabaseManager.Store.GetAllSettings | src/services/DatabaseManager.ts:362-379 | every key, each with its parsed value or raw text |
| DatabaseManager.Store.Close | src/services/DatabaseManager.ts:381-386 | closes an open store; a closed one stays closed |
| GitTool.Repository.Run | src/services/GitService.ts:11-47 | every command is logged, whether or not it throws; only a successful `init` makes the folder a repository |
| GitTool.AttemptedStops | src/services/GitService.ts:11-47 | awaiting commands in turn: all but the last attempted succeeded, the sequence ends early only at a command that throws, and it runs to the end when none does |
| GitTool.FirstErrorNone | src/services/GitService.ts:11-47 | no error is reported exactly when no command throws |
| GitTool.StopsAt | src/services/GitService.ts:11-47 | when the commands before k succeed and the one at k throws, exactly the commands up to k run and its error is reported |
| GitTool.AttemptedAppend | src/services/GitService.ts:11-47 | awaiting two runs of commands runs the second only when the first did not throw, and reports the first error |
| GitTool.RunSteps | src/services/GitService.ts:11-47 | the commands are issued in order up to and including the first that throws, and that command's error is returned |
| GitTool.Newest | src/services/GitService.ts:143 | `--max-count=limit` keeps at most `limit` entries, as a prefix of the log, and keeps the whole log when the limit is negative or not below its length |
| GitTool.BackupBranch | src/services/GitService.ts:197 | the backup branch name starts with `backup-` |
| GitService.KeptLinesAppend | src/services/GitService.ts:176-181 | line filtering works line by line: two runs of lines give the files of each, in order |
| GitService.ChangedFilesRoundTrip | src/services/GitService.ts:169-187 | file names listed one per line are read back exactly and in order |
| GitService.ShortHash | src/services/GitService.ts:209 | `substring(0, 7)`: a prefix of the hash, at most 7 characters long and exactly 7 when the hash has that many |
| GitService.InitCommitsOnce | src/services/GitService.ts:11-47 | for an existing repository the steps hold no `init` and no commit; for a new one `init` is second and the only commit is the last step |
| GitService.CommitOnlyWithChanges | src/services/GitService.ts:98-134 | a clean tree is never staged or committed; otherwise the one commit, with the given message, comes last, after the status check |
| GitService.ShowFiles | src/services/GitService.ts:169-187 | runs `show --name-only --pretty=format: <hash>` and returns its changed files, or `[]` when it throws |
| GitService.CollectHistory | src/services/GitService.ts:150-160 | one entry per log entry, in log order, with the author as `name <email>` and the files its `show` lists |
| GitService.Service.Rebind | src/services/GitService.ts:100-103 | sets `repoPath` first, then makes a new handle only when there is none or the last call asked for another path; on a missing folder it fails and keeps the old handle (or none) under the new path, so a handle for another folder is used only after such a failure |
| GitService.Service.InitializeRepository | src/services/GitService.ts:11-47 | on a missing folder `Failed to initialize git repository: Cannot use simple-git on a directory that does not exist`, the old handle kept and nothing issued; otherwise a fresh handle, and only the check on an existing repository; otherwise `init`, the `.gitignore` and one commit, stopping at the first command that throws, with the matching reply |
| GitService.InitRun | src/services/GitService.ts:11-47 | the commands and reply of initializeRepository once the handle is made, as in `GitService.Service.InitializeRepository` |
| GitService.StaleHandleReused | src/services/GitService.ts:98-103 | after a call for a missing folder has failed while a handle for another folder existed, the next call for the same folder gets through the rebind and reaches the other folder |
| GitService.Service.CommitChanges | src/services/GitService.ts:98-134 | a failed rebind gives `Failed to commit changes: ` and the constructor's message with nothing issued; otherwise, on the handle's folder, the status comes first; a clean tree gives success with no hash and no commit; otherwise everything is staged and committed, and the reply reports the hash and the change count |
| GitService.CommitRun | src/services/GitService.ts:105-126 | the commands and reply of commitChanges once the handle is bound, as in `GitService.Service.CommitChanges` |
| GitService.Service.GetChangedFiles | src/services/GitService.ts:169-187 | `[]` without a handle; otherwise runs `show` on the folder the handle was made for and returns its changed files, `[]` when it throws |
| GitService.Service.GetHistory | src/services/GitService.ts:136-167 | the log of the handle's folder cut at `limit`, each entry with its changed files, in log order; `[]` when `log` throws or the rebind fails |
| GitService.HistoryRun | src/services/GitService.ts:143-167 | the commands and result of getHistory once the handle is bound, as in `GitService.Service.GetHistory` |
| GitService.Service.RevertToCommit | src/services/GitService.ts:189-217 | a failed rebind gives `Failed to revert to commit: ` and the constructor's message; otherwise the backup branch, then `main` with no fallback, then the hard reset, stopping at the first that throws; the reply names the backup branch and the first seven characters of the hash, or the error |
| GitService.Service.GetCurrentBranch | src/services/GitService.ts:219-232 | `status.current`, or `main` when it is empty, `status` throws or the rebind fails |
| GitService.Service.CreateBranch | src/services/GitService.ts:234-254 | `checkoutLocalBranch` on the handle's folder, and a reply that names the branch or the error, including a failed rebind's |
| GitService.Service.SwitchBranch | src/services/GitService.ts:256-276 | `checkout` on the handle's folder, and a reply that names the branch or the error, including a failed rebind's |
| GitService.Service.GetBranches | src/services/GitService.ts:278-291 | the local branches of the handle's folder, or `[]` when the command throws or the rebind fails |
| GitService.Service.GetStatus | src/services/GitService.ts:293-305 | the status of the handle's folder, or null when it throws or the rebind fails |
| GitManager.DefaultModsPath | src/services/GitManager.ts:18-27 | the default folder ends in `Documents/Electronic Arts/The Sims 4/Mods` under the user profile |
| GitManager.RepoPathFor | src/services/GitManager.ts:18-27 | a non-empty stored `modsPath` wins; otherwise the default folder |
| GitManager.Setup | src/services/GitManager.ts:29-52 | the repository check, then on a new folder `init`, the `.gitignore` (whose failure is ignored), staging and the setup commit, stopping at the first that throws; returns whether setup got through |
| GitManager.EnsureKey | src/services/GitManager.ts:104-120 | reads the key and writes the default only when it is unset; reports whether the write, if any, succeeded |
| GitManager.EnsureGitConfig | src/services/GitManager.ts:104-120 | `user.name`, then `user.email` unless writing the name threw |
| GitManager.InitRepository | src/services/GitManager.ts:29-52 | the setup commands, then the user defaults when setup reached them; every error is swallowed |
| GitManager.SetupCommitsOnlyFresh | src/services/GitManager.ts:29-52 | an existing repository is never re-initialised or committed to; a new one gets exactly the five commands, in order, when nothing throws |
| GitManager.IgnoreFailureTolerated | src/services/GitManager.ts:97-101 | a `.gitignore` that cannot be written does not stop the setup commit |
| GitManager.ConfigOnlyWhenUnset | src/services/GitManager.ts:104-120 | a key is written only when it was unset, and every unset key is written when no write throws |
| GitManager.HistoryEntry | src/services/GitManager.ts:148-155 | keeps the hash, message and date, keeps only the author's name, and holds at most one mod change parsed from the message |
| GitManager.HistoryEntries | src/services/GitManager.ts:144-159 | one entry per log entry, in order |
| GitManager.SnapshotCommitsOnlyChanges | src/services/GitManager.ts:122-142 | a snapshot commits exactly when staging and the status succeeded and the status listed files |
| GitManager.Snapshot | src/services/GitManager.ts:122-142 | stages everything, reads the status, and commits only a dirty tree, stopping at the first command that throws, whose error it returns |
| GitManager.SwitchToMain | src/services/GitManager.ts:232-235 | `checkout('main')`, and `checkout('master')` only when `main` throws; the error is `master`'s |
| GitManager.ResetToCommit | src/services/GitManager.ts:227-238 | the backup branch, `main` or `master`, then the hard reset, stopping at the first error |
| GitManager.RollbackGuarded | src/services/GitManager.ts:219-245 | the hard reset runs only after the commit was found and the backup branch was made; `master` is tried only when `main` fails |
| GitManager.Open | src/services/GitManager.ts:11-16 | `new GitManager()`: fails with the constructor's message, issuing nothing, when the stored or default folder is missing; otherwise a fresh manager bound there, after the initialisation's commands |
| GitManager.Manager.constructor | src/services/GitManager.ts:11-27 | once the folder exists: binds `repoPath` and the handle to the stored or default folder and runs the initialisation |
| GitManager.Manager.InitializeRepository | src/services/GitManager.ts:29-52 | issues exactly the commands of `InitLog` |
| GitManager.Manager.CreateSnapshot | src/services/GitManager.ts:122-142 | `''` for a clean tree, the new hash otherwise, or `Failed to create Git snapshot: …` |
| GitManager.Manager.GetHistory | src/services/GitManager.ts:144-159 | at most `maxCount` entries, each with at most one mod change, or `[]` when `log` throws |
| GitManager.Manager.RollbackToCommit | src/services/GitManager.ts:219-245 | `Commit <hash> not found` when `show` prints nothing; otherwise the guarded reset; failures are prefixed `Failed to rollback to commit <hash>: ` |
| GitManager.Manager.CreateBranch | src/services/GitManager.ts:247-253 | `checkoutLocalBranch`, or `Failed to create branch <name>: …` |
| GitManager.Manager.SwitchBranch | src/services/GitManager.ts:255-261 | `checkout`, or `Failed to switch to branch <name>: …` |
| GitManager.Manager.GetCurrentBranch | src/services/GitManager.ts:263-271 | the current branch, or `unknown`; never empty |
| GitManager.Manager.GetBranches | src/services/GitManager.ts:273-281 | the local branches, or `[]` |
| GitManager.Manager.GetStatus | src/services/GitManager.ts:283-290 | the status, or null |
| GitManager.Manager.SetRepositoryPath | src/services/GitManager.ts:292-296 | sets `repoPath`; on a missing folder throws the constructor's message and keeps the old handle and the stored `modsPath`; otherwise rebinds the handle and stores the path |
| GitManager.Manager.GetRepositoryPath | src/services/GitManager.ts:298-300 | `repoPath`, which may differ from the handle's folder after a failed `SetRepositoryPath` |
| CommitMessages.ExtractModName | src/services/GitManager.ts:202-217 | the trimmed group of the first pattern that matches anywhere, with the `mod:` pattern tried first; null when neither matches |
| CommitMessages.KeywordAction | src/services/GitManager.ts:161-200 | an action exactly when the lower-cased message holds one of the keywords; `enabled` wins over all others, `disabled` is chosen exactly when it occurs without `enabled`; never `updated` |
| CommitMessages.ParseModChanges | src/services/GitManager.ts:161-200 | at most one change, never with an empty id, named by the extracted mod name, under the keyword's action; exactly one whenever a keyword occurs and a non-empty name is extracted |
| CommitMessages.EnabledRoundTrip | src/main/main.ts:101 | the message `Enabled mod: N` for a one-line, non-blank N parses back as enabling trim(N) |
| CommitMessages.DisabledRoundTrip | src/main/main.ts:101 | the message `Disabled mod: N` parses back as disabling trim(N), unless N itself holds `enabled` |
| Rows.SortedRows | src/services/DatabaseService.ts:119 | an `ORDER BY` listing holds every row of the table, names no key twice, and is in sort order |
| ModsSlice.Filtered | src/renderer/src/store/slices/modsSlice.ts:145-154 | a mod is kept exactly when it matches the search (empty term, or a case-insensitive substring of name, author or filename) and the category (empty, or equal) |
| ModsSlice.InOrderTotalPreorder | src/renderer/src/store/slices/modsSlice.ts:157-181 | the comparator on lower-cased name, date or size, ascending or descending, is total and transitive |
| ModsSlice.SortInPlace | src/renderer/src/store/slices/modsSlice.ts:157 | `sort` in place: afterwards the array is sorted and is a permutation of what it held |
| ModsSlice.Select | src/renderer/src/store/slices/modsSlice.ts:142-184 | exactly the mods that pass both filters, each as often as before, sorted by the chosen key and order |
| ModsSlice.ModsStore.SelectFilteredMods | src/renderer/src/store/slices/modsSlice.ts:142-184 | the filtered and sorted mods, with the store left untouched |
| ModsSlice.Merge | src/renderer/src/store/slices/modsSlice.ts:73 | `{ ...mod, ...payload }`: the id is the payload's; every other field takes the payload's value when it carries one and keeps the mod's otherwise |
| Types.FirstWithKey | src/renderer/src/store/slices/modsSlice.ts:71 | `findIndex` on ids, shared by both slices: the first position with that key, or none exactly when no element has it |
| Types.FirstWithKeyAfterReplace | src/renderer/src/store/slices/modsSlice.ts:70-75 | replacing an element by one with the same key moves no key lookup |
| ModsSlice.ModsStore.constructor | src/renderer/src/store/slices/modsSlice.ts:15-24 | the initial state |
| ModsSlice.ModsStore.UpdateModInState | src/renderer/src/store/slices/modsSlice.ts:70-75 | merges into the first mod with the id, and is a no-op when there is none; nothing else changes |
| ModsSlice.ModsStore.Pending | src/renderer/src/store/slices/modsSlice.ts:80-115 | sets `loading` and clears `error` |
| ModsSlice.ModsStore.Rejected | src/renderer/src/store/slices/modsSlice.ts:88-126 | sets the message, or the thunk's default when the message is absent or empty |
| ModsSlice.ModsStore.ScanFulfilled | src/renderer/src/store/slices/modsSlice.ts:84-87 | replaces the list wholesale |
| ModsSlice.ModsStore.EnableFulfilled | src/renderer/src/store/slices/modsSlice.ts:98-105 | enables the first match and stamps `lastUsed` |
| ModsSlice.ModsStore.DisableFulfilled | src/renderer/src/store/slices/modsSlice.ts:116-122 | clears the first match's flag and changes nothing else |
| ModsSlice.ModsStore.SetSearchTerm | src/renderer/src/store/slices/modsSlice.ts:55-57 | changes that field only |
| ModsSlice.ModsStore.SetSelectedCategory | src/renderer/src/store/slices/modsSlice.ts:58-60 | changes that field only |
| ModsSlice.ModsStore.SetSortBy | src/renderer/src/store/slices/modsSlice.ts:61-63 | changes that field only |
| ModsSlice.ModsStore.SetSortOrder | src/renderer/src/store/slices/modsSlice.ts:64-66 | changes that field only |
| ModsSlice.ModsStore.ClearError | src/renderer/src/store/slices/modsSlice.ts:67-69 | changes that field only |
| ProfilesSlice.WithoutId | src/renderer/src/store/slices/profilesSlice.ts:41 | keeps exactly the profiles with another id; a list without the id is unchanged |
| ProfilesSlice.WithoutIdAppend | src/renderer/src/store/slices/profilesSlice.ts:41 | the filter keeps the relative order of the survivors |
| ProfilesSlice.WithoutIdIdempotent | src/renderer/src/store/slices/profilesSlice.ts:40-45 | removing an id twice is removing it once |
| ProfilesSlice.ProfilesStore.AddProfile | src/renderer/src/store/slices/profilesSlice.ts:31-33 | appends: the length grows by one, the new profile is last, and the earlier ones are unchanged |
| ProfilesSlice.ProfilesStore.UpdateProfile | src/renderer/src/store/slices/profilesSlice.ts:34-39 | replaces the first profile with the id, or changes nothing; the length and `activeProfile` are kept |
| ProfilesSlice.ProfilesStore.RemoveProfile | src/renderer/src/store/slices/profilesSlice.ts:40-45 | removes every profile with the id, and clears `activeProfile` exactly when its id matches |
| ProfilesSlice.ProfilesStore.SetProfiles | src/renderer/src/store/slices/profilesSlice.ts:25-27 | changes that field only |
| ProfilesSlice.ProfilesStore.SetActiveProfile | src/renderer/src/store/slices/profilesSlice.ts:28-30 | changes that field only |
| ProfilesSlice.ProfilesStore.SetLoading | src/renderer/src/store/slices/profilesSlice.ts:46-48 | changes that field only |
| ProfilesSlice.ProfilesStore.SetError | src/renderer/src/store/slices/profilesSlice.ts:49-51 | changes that field only |
| GitSlice.GitStore.constructor | src/renderer/src/store/slices/gitSlice.ts:11-16 | no commits and the branch `main` |
| GitSlice.GitStore.AddCommit | src/renderer/src/store/slices/gitSlice.ts:45-47 | prepends: the new commit comes first and the old list follows |
| GitSlice.GitStore.Pending | src/renderer/src/store/slices/gitSlice.ts:52-69 | sets `loading` and clears `error` |
| GitSlice.GitStore.HistoryFulfilled | src/renderer/src/store/slices/gitSlice.ts:56-59 | replaces the commits |
| GitSlice.GitStore.Rejected | src/renderer/src/store/slices/gitSlice.ts:60-76 | keeps the commits and sets the message, or `Failed to get Git history` / `Failed to rollback` |
| GitSlice.GitStore.RollbackFulfilled | src/renderer/src/store/slices/gitSlice.ts:70-72 | clears `loading` only |
| GitSlice.GitStore.SetCurrentBranch | src/renderer/src/store/slices/gitSlice.ts:39-41 | changes that field only |
| GitSlice.GitStore.ClearError | src/renderer/src/store/slices/gitSlice.ts:42-44 | changes that field only |
| AppSlice.MergeSettings | src/renderer/src/store/slices/appSlice.ts:52-54 | each key present in the payload takes its value, and every other key keeps its old one |
| AppSlice.MergeSettingsThen | src/renderer/src/store/slices/appSlice.ts:52-54 | two merges are one merge with the combined payload; the same payload twice is once; an empty payload changes nothing |
| AppSlice.AppStore.constructor | src/renderer/src/store/slices/appSlice.ts:13-29 | the default settings, not initialised, sidebar open, dashboard |
| AppSlice.AppStore.SetSettings | src/renderer/src/store/slices/appSlice.ts:52-54 | merges the payload into the settings only |
| AppSlice.AppStore.ToggleSidebar | src/renderer/src/store/slices/appSlice.ts:67-69 | negates `sidebarOpen` only |
| AppSlice.AppStore.InitializePending | src/renderer/src/store/slices/appSlice.ts:74-77 | sets `loading` and clears `error` |
| AppSlice.AppStore.InitializeFulfilled | src/renderer/src/store/slices/appSlice.ts:78-81 | sets `isInitialized` and clears `loading` |
| AppSlice.AppStore.SelectFolderPending | src/renderer/src/store/slices/appSlice.ts:88-90 | sets `loading` and leaves `error` alone |
| AppSlice.AppStore.SelectFolderFulfilled | src/renderer/src/store/slices/appSlice.ts:91-96 | sets `modsFolder` only for a non-null, non-empty path, and clears `loading` in every case |
| AppSlice.AppStore.Rejected | src/renderer/src/store/slices/appSlice.ts:82-100 | sets the message, or `Failed to initialize app` / `Failed to select folder` |
| AppSlice.AppStore.SetSidebarOpen | src/renderer/src/store/slices/appSlice.ts:55-57 | changes that field only |
| AppSlice.AppStore.SetCurrentPage | src/renderer/src/store/slices/appSlice.ts:58-60 | changes that field only |
| AppSlice.AppStore.SetError | src/renderer/src/store/slices/appSlice.ts:61-63 | changes that field only |
| AppSlice.AppStore.ClearError | src/renderer/src/store/slices/appSlice.ts:64-66 | changes that field only |

## Left out

- Electron, IPC, windows, menus and the React pages are not modelled. The auto-commit after a toggle in `src/main/main.ts` is represented only by the message it commits (`CommitMessages.ToggleCommitMessage`).
- `SettingsService` and `ModManager.initializeModsPath` are not modelled: they are settings-file I/O and folder probing. `ModManager.Manager.constructor` starts with no folder set.
- Filesystem watching (`startWatching`, `stopWatching`, chokidar callbacks), `debounce` and `importMod` are not modelled: they are event- and timer-driven, or plain file copies.
- SHA-256 hashing, `uuidv4`, `generateId`, `Date.now()` and `new Date()` are not computed. Hashes come from the file data, ids from a `mint` function parameter, and times are `now` parameters.
- `formatFileSize` and `formatDate` are not modelled, because they use floating point and `Intl`.
- Git's own behaviour (merges, the working tree, what `reset --hard` does to files) is not modelled. A repository answers from fixed tables, so the model states which commands run, in which order, and what the services do with the answers.
- The contents of the `.gitignore` files are not modelled. Writing one is a single command that can fail.
- JSON text is not modelled. The arrays stored as JSON are kept as values, and a setting's JSON text is an abstract `Json` value with its own parse.
- ISO date strings are not modelled: dates are integers (milliseconds), so a date that the `Date` round trip would alter is not represented.
- `path.join` normalisation (`..`, doubled separators) and Windows separators are not modelled. Paths are joined with `/`, and entry names hold no separator.
- Case mapping covers ASCII letters only. For the keyword tests and the regular expressions (no `u` flag) this is exact. For `toLowerCase` on search terms, mod names and file names outside ASCII it is a simplification.
- String order is code-point order. JavaScript's `<` and SQLite's BINARY collation compare UTF-16 units and UTF-8 bytes, which agree with it except between surrogate pairs and `U+E000`–`U+FFFF`.
- ModsSlice.SortInPlace: the order of mods that compare equal is not stated. JavaScript's sort is stable, and this is not modelled.
- DatabaseManager.ListMods: rows with equal names may come in any order, as SQLite promises nothing for them.
- DatabaseManager.Store.GetActiveProfile: which of several active rows `.get()` returns is left open, as SQLite does not specify it.
- ModsSlice.Merge: a payload field present but `undefined` (which the spread would copy) is not modelled. A field is either carried with a value or absent.
- DatabaseManager.Store.SetSetting: `setSetting(key, undefined)` (which binds `JSON.stringify(undefined)`) is not modelled. Values are JSON values.
- The `GitManager` constructor does not await `initializeRepository`. Here it runs to completion before any other call, so interleavings with later calls are not modelled.
- GitManager.Manager.constructor: a Dafny constructor cannot fail, so it models what `new GitManager()` does once `simpleGit` has accepted the folder; `GitManager.Open` models the whole expression, including the throw on a missing folder.
- `simpleGit('')` works in the process's current folder. Here the empty path is a folder like any other, accepted only when it is listed in `GitTool.Repository.folders`.
- An error thrown by simple-git is rendered as `Error: <message>` inside template strings. Errors with another name are not modelled.
- ModNaming.StripBracketTags: the contract states only that no character is invented; which runs are removed is stated by its definition, the lazy match written out, and is not restated as a separate property.
- ModService.StripFirstVersionTag: the contract states only that the name never grows; which match is removed is stated by its definition.
- ModManager.GenerateSuggestions: the contract bounds the count only; which suggestion each conflict gets is stated by `ModManager.SuggestionsLineUp` when every conflict's type has one.
- A file removed or changed between `stat` and `readFile` in `createModInfo` is not modelled as a race: the read's outcome is a function of the disk's state (a missing or unreadable file fails), so concurrent changes to the folder are out of scope.
- FileSystem.UnlinkCheck: a directory at the path fails with Linux's EISDIR message; macOS and Windows report EPERM for it, and the platform is not a parameter.
- FileSystem.RenameCheck: only regular files are renamed. A directory at the source path is reported as ENOENT, where node would rename the directory; the services only rename mod files. A directory target fails with Linux's EISDIR message.
- SQLite failures other than a closed database (a full disk, a locked file, constraint errors) are not modelled.

## Findings

| source | as written | input that shows it | evidently intended | confidence | as-written member | corrected member |
|---|---|---|---|---|---|---|
| src/services/ModService.ts:174-180 | after a rename, `toggleMod` saves the record it read before the toggle with only the new path, so `saveMod` writes back the old `enabled` over the new one | toggling an enabled `a.package` renames it to `a.package.disabled` but the stored flag stays enabled; a second toggle then only clears the flag, leaving `a.package.disabled` on disk | the saved record carries the new flag as well, so two toggles restore the file and the record | not executed | ModService.StaleFlagAfterToggle | ModService.ToggleTwice |
