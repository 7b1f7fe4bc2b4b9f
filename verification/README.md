# cbin recycle bin — a Dafny model

cbin replaces `rm` on Unix servers with a recycle bin. Deleted paths are not
removed. They are moved into `<bin>/<ip>_<host>/<YYYY-MM-DD>/`. Each date
directory keeps a JSON journal, `metadata.json`, that says where every
recycled path came from, so the move can be undone later.

This project models six parts of the repository and proves properties of them:

- **The recycle engine of the Go agent** (`agent/src/recycle.go`, `agent/src/metadata.go`).
  - Workers drain a queue of paths.
  - Each path is moved into today's date directory: by `os.Rename`, or, for a file, by read + write + remove.
  - One journal entry is appended per completed move.
  - `restoreFile` walks the date directories. It renames or copies every journaled copy back and removes its entry from the journal.
- **The older recycler of `main.go`**: the same idea with one rename and no journal.
- **Two agent helpers** (`agent/src/utils.go`):
  - the fan-out log writer;
  - the search for the server's IPv4 address.
- **The health checker sidecar** (`agent/health-checker/health.go`):
  - its configuration defaults;
  - the NFS mount retry loop;
  - the five checks;
  - stripping the `rm` alias from `/etc/bash.bashrc` when the process or the mount is down.
- **The master's Django views** (`master/master_app/views.py`):
  - log filtering;
  - `safe_join`;
  - the NFS export rules it adds and removes in `/etc/exports`.

How the model is built:

- The file tree is a `map<Path, Node>` (`FileSystem`).
- Journals are a separate map from `metadata.json` paths to `JournalDoc` values (`Metadata`).
- Every outcome decided by the operating system is a parameter that the caller chooses (`MoveEnv`, `AttemptEnv`, `RestoreEnv`, `LegacyEnv`, `CheckEnv`, the `readOk`/`writeOk` flags):
  - whether a rename, a read, a write or a removal succeeds;
  - the clock readings;
  - the MIME type;
  - the walk order;
  - the output of `df`.
- Each Go function that changes the disk step by step is a method of a class:
  - `Recycle.RecycleBin`;
  - `Legacy.LegacyRecycler`;
  - `Health.HealthChecker`;
  - `AgentUtils.MultiWriter`.
  Each such method is proved equal to a specification function. The lemmas state what the code promises about that function.

Files:

| file | module | contents |
|---|---|---|
| `wrappers.dfy` | `Wrappers` | `Option`, `Result` |
| `text.dfy` | `Text` | `strings.Split`/`Join`, filtering, `TrimSpace`/`strip`, ASCII `lower` |
| `gopath.dfy` | `GoPath` | `filepath.Base`, `Ext`, `Join` |
| `filesystem.dfy` | `FileSystem` | the tree, `Rename`, `WriteFile`, `Remove`, `MkdirAll` |
| `metadata.dfy` | `Metadata` | `FileMetadata`, the journal document, `writeMetadata` |
| `recycle.dfy` | `Recycle` | dispatch, move, restore, journal rewrite, class `RecycleBin` |
| `recycle_laws.dfy` | `RecycleLaws` | properties of the engine |
| `legacy.dfy` | `Legacy` | `main.go`'s recycler |
| `agent_utils.dfy` | `AgentUtils` | `MultiWriter`, `getServerInfo` |
| `health.dfy` | `Health` | the health checker |
| `views.dfy` | `Views` | the master's views |

## Model

| member | source | states |
|---|---|---|
| Text.Filter | agent/health-checker/health.go:238-243 | Keeps exactly the elements that pass the test: every kept element passes, and every passing element is kept. |
| Text.FilterAppend | agent/src/recycle.go:261-268 | Filtering a concatenation is concatenating the filtered parts, so the order of the kept entries is the original order. |
| Text.FilterKeepsAll | master/master_app/views.py:227-228 | When every element passes, the sequence comes back unchanged. |
| Text.FilterIdempotent | agent/health-checker/health.go:237-245 | Filtering twice with the same test is filtering once. |
| Text.Split | agent/health-checker/health.go:237 | `strings.Split` gives at least one part, and no part holds the separator. |
| Text.JoinSplit | main.go:72 | Joining the parts of a split with the same separator gives back the input. |
| Text.SplitJoin | agent/health-checker/health.go:237-245 | Splitting a join of separator-free parts gives back the parts. |
| Text.JoinAvoids | agent/health-checker/health.go:245 | Joining parts that do not contain a pattern creates no occurrence of it, as long as the separator is not in the pattern. |
| Text.JoinContainsPart | agent/health-checker/health.go:245 | A part that contains a pattern makes the joined text contain it. |
| Text.Trim | agent/src/recycle.go:20 | The result is a slice of the input with only characters of the given class before it and after it, and it neither starts nor ends with such a character. |
| Text.TrimIdempotent | main.go:77 | Trimming twice is trimming once. |
| Text.Lower | master/master_app/views.py:55 | Same length; each character is lowered on its own. |
| GoPath.Base | agent/src/recycle.go:58 | `filepath.Base` is never empty, is `/` or free of `/`, and for a path not ending in `/` is its last element. |
| GoPath.Ext | agent/src/recycle.go:86 | `filepath.Ext` holds no `/`. It is empty or starts with its only `.`. It is empty exactly when the last element has no dot. |
| GoPath.ExtOfLastElement | agent/src/recycle.go:86 | The extension depends only on the last path element. |
| GoPath.ExtOfName | agent/src/recycle.go:86 | The extension of `stem.ext` (`ext` free of `.` and `/`) is `.ext`. |
| GoPath.BaseOfName | agent/src/recycle.go:68 | A name without `/` is its own base. |
| GoPath.BaseOfJoin | agent/src/recycle.go:69 | The base of `Join(dir, name)` is `name`, so `CurrentName` is the name the move built. |
| FileSystem.Rename | agent/src/recycle.go:60 | The node at the source appears at the destination, and every path below the source appears at the matching path below the destination with the same node (`SubtreeMoved`). The source and everything below it are gone. Paths outside both are unchanged. |
| FileSystem.RenameBack | agent/src/recycle.go:202 | For a path outside the temporary location, renaming there and back keeps whether it exists and what it holds. |
| FileSystem.RenameBackFrame | agent/src/recycle.go:202 | Renaming there and back keeps every path outside the temporary location. |
| FileSystem.WriteFile | agent/src/recycle.go:98 | The path holds the data as a file, it is the only path added, and no other path changes. |
| FileSystem.MkdirAll | agent/src/recycle.go:51 | The path exists afterwards, an existing node is kept, and no other path changes. |
| Metadata.Encode | agent/src/metadata.go:32 | The written document decodes back to the entries; an empty list is written as `null`. |
| Metadata.JournalWrite | agent/src/metadata.go:19-37 | Fails exactly when an existing journal cannot be read or the write fails, and a failure leaves the file as it was. Otherwise the file decodes to the earlier entries plus the new one. |
| Metadata.WriteCreatesJournal | agent/src/metadata.go:23-36 | A missing journal is created holding only the new entry. |
| Metadata.WriteAppends | agent/src/metadata.go:24-31 | A readable journal keeps its entries in order, with the new one last. |
| Metadata.ReadErrorKeepsJournal | agent/src/metadata.go:24-27 | A journal that exists but cannot be read is left alone. |
| Metadata.MalformedJournalOverwritten | agent/src/metadata.go:28-36 | A journal that does not decode is replaced by one holding only the new entry. |
| Metadata.AppendAfterEmptied | agent/src/metadata.go:28-31 | After `null` (every entry restored), the next append starts a one-entry list. |
| Recycle.WalkDirs | agent/src/recycle.go:129-137 | Every directory the walk visits except the root is collected, and nothing else is. |
| Recycle.RebuildJournal | agent/src/recycle.go:261-268 | The loop's list equals the specification `Updated`: entries of other events are kept and the target's are replaced or dropped. |
| Recycle.CollectTargetDirs | agent/src/recycle.go:125-147 | The loop's list equals `TargetDirs`. |
| Recycle.RecycleBin.WriteMetadata | agent/src/metadata.go:19-37 | Changes only the journal and reports the error of `JournalWrite`. |
| Recycle.RecycleBin.UpdateMetadata | agent/src/recycle.go:240-289 | The new state is `UpdateJournals` of the old: the journal is rewritten only when it was read and decoded. |
| Recycle.Move | agent/src/recycle.go:38-122 | `moveFileToRecycleBin` on the disk; its contract is carried by `RecycleLaws.MoveMissingNoChange`, `MoveKeepsData`, `MoveJournalsOnlyOnSuccess`, `FailedMoveOnlyCreatesDateDir`, `MoveByRename` and `MoveRecordsLocation`. |
| Recycle.Restore | agent/src/recycle.go:124-238 | `restoreFile` on the disk; its contract is carried by `RecycleLaws.TargetDirsSelection`, `RestoreOnlyDropsRestored`, `SingleFileRestoresAtMostOne`, `RestoreOneDate` and `RecycleThenRestore`. |
| Recycle.RecycleBin.MoveFileToRecycleBin | agent/src/recycle.go:38-122 | The new disk and the reported status are those of `Move`. |
| Recycle.RecycleBin.Transfer | agent/src/recycle.go:89-110 | The copy fallback has the result and tree of `TransferFile`. |
| Recycle.RecycleBin.RecycleFiles | agent/src/recycle.go:17-36 | Draining the queue gives `MoveAll` over the trimmed arguments. |
| Recycle.RecycleBin.MoveBack | agent/src/recycle.go:202-223 | Rename-or-copy back has the result and tree of `RelocateBack`. |
| Recycle.RecycleBin.RestoreFromJournal | agent/src/recycle.go:177-236 | The loop over one journal's entries equals `RestoreEntries`, including the early return after a single-file restore. |
| Recycle.RecycleBin.RestoreFile | agent/src/recycle.go:124-238 | The new disk is the one `Restore` gives: the files and journals after every date directory's entries were tried. |
| RecycleLaws.DispatchedOnce | agent/src/recycle.go:18-34 | Every argument is queued once, trimmed and in order, whatever the number of workers. The workers take the whole queue off; when no worker starts, nothing is taken off it. |
| RecycleLaws.QueueAppend | agent/src/recycle.go:18-21 | The queue of two batches of arguments is the first batch's queue followed by the second's. |
| RecycleLaws.MoveAllAppend | agent/src/recycle.go:28-30 | Draining a queue is draining its first part and then the rest, so the paths are moved one after another in queue order. |
| RecycleLaws.NoWorkersNoChange | agent/src/recycle.go:24-34 | With no worker the disk is unchanged. |
| RecycleLaws.MoveMissingNoChange | agent/src/recycle.go:39-47 | A path that cannot be stat'ed changes nothing: no date directory, no entry. |
| RecycleLaws.DestinationDiffers | agent/src/recycle.go:58-86 | When the clock reading holds no `/`, the destination is never the source. |
| RecycleLaws.TransferKeepsData | agent/src/recycle.go:89-110 | A failed read or write changes nothing. A failed removal leaves the source and the copy. A completed transfer leaves the data at the destination. |
| RecycleLaws.MoveToFailure | agent/src/recycle.go:54-110 | The ways a move of an existing node can end. Every failure except a failed removal leaves the prepared tree as it was. |
| RecycleLaws.MoveToJournals | agent/src/recycle.go:66-120 | Only a completed move touches the journals, and it appends to the date directory's journal. |
| RecycleLaws.MoveToEntry | agent/src/recycle.go:66-119 | The entry names the original path, its base, the destination's base, the size (0 for a directory) and "directory" or the MIME type. |
| RecycleLaws.MoveToKeepsData | agent/src/recycle.go:54-110 | After a failure the source still holds its node. After a completed move the destination holds the same data, and for a directory every path below it moved along with its node. After a failed removal both the source and the copy hold the data. |
| RecycleLaws.MoveKeepsData | agent/src/recycle.go:38-110 | The same guarantee for the whole `moveFileToRecycleBin`, including the subtree of a moved directory: no data is lost. |
| RecycleLaws.MoveJournalsOnlyOnSuccess | agent/src/recycle.go:38-122 | The journal changes only on a completed move, and only the date directory's journal, by one append. |
| RecycleLaws.MoveByRename | agent/src/recycle.go:86-120 | A successful rename moves the path to its destination and appends its entry. |
| RecycleLaws.DestinationName | agent/src/recycle.go:115 | The journaled current name is the last element of the destination. |
| RecycleLaws.FailedMoveOnlyCreatesDateDir | agent/src/recycle.go:50-110 | A move that does not complete changes no path, except that it may create the date directory. |
| RecycleLaws.MovedEntry | agent/src/recycle.go:112-120 | The entry a completed move journals. |
| RecycleLaws.MoveRecordsLocation | agent/src/recycle.go:112-120 | When the base name and the clock hold no `/`, the entry's date directory plus its current name is the path of the copy, so restore finds it. |
| RecycleLaws.DestNameOfName | agent/src/recycle.go:58-86 | With clock `10:00:00`, a file `a.txt` becomes `a.txt_10:00:00.txt` and a directory `logs` becomes `logs_10:00:00`. |
| RecycleLaws.SameNameSameDestination | agent/src/recycle.go:86 | Two files with the same name in different directories, recycled in the same second, get the same destination. |
| RecycleLaws.CollisionOverwrites | agent/src/recycle.go:86-120 | After such a collision the bin holds only the second file, and the journal holds two entries that name the same copy. |
| RecycleLaws.AppendTwice | agent/src/metadata.go:19-37 | Two appends to a date directory without a journal leave exactly those two entries. |
| RecycleLaws.UpdatedRemoveFilters | agent/src/recycle.go:261-268 | In remove mode the rewrite keeps exactly the entries of other events (different path or time), in order. |
| RecycleLaws.RemoveDropsOnlyTarget | agent/src/recycle.go:262-268 | After removal no entry of the target's event is left, and every other entry is. |
| RecycleLaws.RemoveIdempotent | agent/src/recycle.go:262-268 | Removing twice is removing once. |
| RecycleLaws.UpdatedReplaces | agent/src/recycle.go:265-266 | Outside remove mode, every entry of the target's event is replaced by the target in place. |
| RecycleLaws.UpdateJournalsFrame | agent/src/recycle.go:240-289 | A journal that is missing, unreadable or undecodable is not rewritten. Otherwise only that journal changes. |
| RecycleLaws.TargetDirsSelection | agent/src/recycle.go:127-147 | Either the one date directory, or every directory of a successful walk except the root. A failed walk restores nothing. |
| RecycleLaws.RestoreEntrySkips | agent/src/recycle.go:179-193 | A name that does not match the filter, or a copy missing from the bin, is skipped and changes nothing. |
| RecycleLaws.RestoreEntrySucceeds | agent/src/recycle.go:202-235 | When the name matches and the copy is in the bin, a successful relocation reports the entry, stops a single-file restore, leaves the tree `RelocateBack` gives and rewrites the journal in remove mode. With a readable, decodable journal and a successful write, the new journal holds no entry of the restored event and keeps every other entry. |
| RecycleLaws.RestoreEntryFailureKeepsEntry | agent/src/recycle.go:202-223 | A failed relocation keeps the entry and does not count as restored. |
| RecycleLaws.RestoreEntryRespects | agent/src/recycle.go:179-235 | A restored entry matches the name filter, and with a filter the loop stops after one. |
| RecycleLaws.SingleFileRestoresAtMostOne | agent/src/recycle.go:177-236 | With a name filter at most one entry is restored, and it has that name. |
| RecycleLaws.RestoreOnlyDropsRestored | agent/src/recycle.go:177-236 | A restore never adds a journal entry, and every entry it drops belongs to the event of an entry it restored. |
| RecycleLaws.RestoreOnlyEntry | agent/src/recycle.go:177-236 | A one-entry journal whose copy is renamed back ends up empty (`null`), and the entry is reported. |
| RecycleLaws.RestoreOneDate | agent/src/recycle.go:144-147 | Restoring one date is restoring that date directory's journal. |
| RecycleLaws.MoveIntoFreshDate | agent/src/recycle.go:38-122 | Recycling by rename into a date directory without a journal: the new journal holds exactly the entry, and it leads back from the copy to the path. |
| RecycleLaws.RestoreAfterMove | agent/src/recycle.go:146-236 | Restoring the date of that single entry renames the copy back and empties the journal. |
| RecycleLaws.RecycleThenRestore | agent/src/recycle.go:38-238 | Round trip: recycle by rename, then restore the date. Every path outside the copy is back as it was, the moved entry is reported, and the journal is empty. |
| RecycleLaws.CopyRoundTripResetsMode | agent/src/recycle.go:205-215 | When both renames fail and the copies succeed, the file comes back with its content but with mode `os.ModePerm`. |
| Legacy.LegacyMove | main.go:100-134 | `main.go`'s `moveFileToRecycleBin`; its contract is carried by `LegacySkipNoChange`, `LegacyRecycledIff`, `LegacyRecycledByRename` and `LegacyFailureKeepsSource`. |
| Legacy.LegacyRecycler.MoveFileToRecycleBin | main.go:100-134 | The new tree and the status are those of `LegacyMove`. |
| Legacy.LegacyRecycler.Run | main.go:38-93 | Queueing and draining the `-f` list gives `LegacyMoveAll` over the dispatched paths. |
| Legacy.LegacyDispatchedOnce | main.go:72-93 | An empty `-f`, or no workers, dispatches nothing. Otherwise every trimmed comma element is dispatched once, in order, and the elements make up the whole argument. |
| Legacy.LegacySkipNoChange | main.go:102-119 | A missing path, or a date directory that cannot be created, changes nothing. |
| Legacy.LegacyRecycledIff | main.go:100-134 | Recycled exactly when the path exists and both `MkdirAll` and `Rename` succeed. |
| Legacy.LegacyRecycledByRename | main.go:113-133 | A recycled path is renamed to `<date>/<name>_<HH:MM:SS><ext>`. |
| Legacy.LegacyFailureKeepsSource | main.go:115-132 | Without a rename every existing path keeps its node; at most the date directory appears. |
| Legacy.LegacyAgreesOnFiles | main.go:122-127 | For a file whose rename succeeds, the older recycler gives the same destination and tree as the engine. |
| Legacy.LegacyDirectoryName | main.go:123 | A directory named `stem.ext` is renamed to `<date>/stem.ext_<HH:MM:SS>.ext` (so `logs.d` becomes `logs.d_<HH:MM:SS>.d`), which differs from the engine's destination for the same directory and clock readings. |
| AgentUtils.FirstFailure | agent/src/utils.go:19-23 | Every writer before the index succeeds, and the writer at the index fails. |
| AgentUtils.MultiWriter.Write | agent/src/utils.go:18-26 | Returns `MultiWrite`. Each writer up to and including the first failure receives `p`. |
| AgentUtils.MultiWriteReply | agent/src/utils.go:19-25 | An error exactly when some writer fails, and then it is the first failing writer's reply. Otherwise `len(p)`, nil. |
| AgentUtils.DeliveredInOrder | agent/src/utils.go:19-23 | Writers up to the first failure receive `p` once, later writers nothing, and the answers are unchanged. |
| AgentUtils.FirstSelected | agent/src/utils.go:75-79 | The first accepted address of an interface: an `*net.IPNet`, not loopback, IPv4. None when no address is accepted. |
| AgentUtils.FindServerIP | agent/src/utils.go:66-87 | The search gives the first accepted address in interface order. It fails on the first interface whose `Addrs()` errs before that, and finds nothing only when every interface was searched. |
| AgentUtils.GetServerInfo | agent/src/utils.go:65-89 | `getServerInfo`; its contract is carried by `FindServerIP` and `ServerInfoChoice`. |
| AgentUtils.ServerInfoChoice | agent/src/utils.go:65-89 | A result is a non-loopback IPv4 `IPNet` of the first interface that has one, with the host name. Interfaces with only `*net.IPAddr` give "no private IP found". |
| Health.ApplyDefaults | agent/health-checker/health.go:316-324 | A zero check interval, retry count or retry delay is replaced, a nonzero one (negative included) is kept, and the directory and worker count are untouched. |
| Health.DefaultValues | agent/health-checker/health.go:316-324 | The defaults are 60, 5 and 60, and applying them twice is applying them once. |
| Health.LoadConfig | agent/health-checker/health.go:303-327 | An open or decode failure gives its prefixed error. Otherwise the decoded configuration with defaults applied. |
| Health.FilterAliasLines | agent/health-checker/health.go:238-243 | The loop keeps exactly the lines without the alias, in order. |
| Health.StripAliasRemoves | agent/health-checker/health.go:237-245 | After removal the file no longer contains the alias line. |
| Health.StripAliasKeepsCleanText | agent/health-checker/health.go:237-245 | A file without the alias is rewritten unchanged. |
| Health.StripAliasIdempotent | agent/health-checker/health.go:237-245 | Removing twice is removing once. |
| Health.NfsRetrySpec | agent/health-checker/health.go:189-211 | Succeeds exactly when some attempt before `MaxRetries` runs `df -t nfs -t nfs4` without error and gets non-empty output, and then it stops at the first such attempt. Otherwise it makes `max(0, MaxRetries)` attempts and reports "NFS mount check failed after max retries". |
| Health.RemoveAlias | agent/health-checker/health.go:231-253 | `removeAlias`; its contract is `RemoveAliasOutcome`, with `StripAliasRemoves` and `StripAliasKeepsCleanText` on the text written. |
| Health.HealthCheck | agent/health-checker/health.go:132-160 | One `performHealthCheck`; its contract is carried by `StatusReportsChecks`, `RemovalIffCritical`, `BashrcOnlyStripped`, `LastErrorNotCleared` and `LastErrorOnlyOnFailure`. |
| Health.RemoveAliasOutcome | agent/health-checker/health.go:231-253 | A read or write error is reported with its prefix and leaves `/etc/bash.bashrc` as it was. Otherwise the file is the stripped text and the `source` error is reported. |
| Health.HealthChecker.constructor | agent/health-checker/health.go:94-103 | Starts with the configuration, a status holding only the timestamp (every flag false, no last error) and no probes made. |
| Health.HealthChecker.CheckNFSWithRetries | agent/health-checker/health.go:189-211 | The result, the status error and the probes made are those of `NfsRetry`. |
| Health.HealthChecker.RemoveAliasFromBashrc | agent/health-checker/health.go:231-253 | The new `/etc/bash.bashrc` and the error are those of `RemoveAlias`. |
| Health.HealthChecker.CheckProcessRunning | agent/health-checker/health.go:164-171 | Running exactly when `pgrep` succeeds; a failure becomes the last error. |
| Health.HealthChecker.CheckRecycleBinExists | agent/health-checker/health.go:173-179 | Exists exactly when the stat succeeds; a failure becomes the last error. |
| Health.HealthChecker.CheckRecycleFileExists | agent/health-checker/health.go:181-187 | Exists exactly when the stat of `/usr/local/bin/cbin` succeeds; a failure becomes the last error. |
| Health.HealthChecker.CheckAliasExists | agent/health-checker/health.go:213-229 | Present exactly when the file is readable and contains the alias line; a read failure becomes the last error. |
| Health.HealthChecker.PerformHealthCheck | agent/health-checker/health.go:132-160 | The status, the file and whether removal ran are those of `HealthCheck`, with one NFS probe sequence. |
| Health.StatusReportsChecks | agent/health-checker/health.go:136-151 | Each flag of the status reports its own check, and the timestamp is the clock reading. |
| Health.RemovalIffCritical | agent/health-checker/health.go:153-159 | The alias is removed exactly when the process is down or no NFS mount was found. |
| Health.BashrcOnlyStripped | agent/health-checker/health.go:153-159 | `/etc/bash.bashrc` changes only by removing the alias lines, and only when removal ran. |
| Health.LastErrorNotCleared | agent/health-checker/health.go:136-151 | Passing checks never clear the last error: when every check passes and the first NFS probe finds a mount, the previous last error stays and the alias is not removed. |
| Health.LastErrorOnlyOnFailure | agent/health-checker/health.go:164-211 | A changed last error means some check failed, the NFS check failed, or a `df` run made before the one that found the mount failed. |
| Views.SplitLines | master/master_app/views.py:55 | No line holds a line boundary, and there are no lines exactly when the text is empty. |
| Views.SplitLinesOfJoin | master/master_app/views.py:55-56 | Splitting the `\n`-join of break-free non-empty lines gives the lines back. |
| Views.FilterLogs | master/master_app/views.py:51-56 | `filter_logs`; its contract is carried by `FilterLogsLines` (exactly the lines containing the query, ignoring case, in order), `FilterLogsIdempotent` and `FilterLogsIgnoresQueryCase`. |
| Views.ViewLog | master/master_app/views.py:26-49 | The text `view_logs` shows; its contract is `ViewLogChoice` (a blank stripped query passes the log through, otherwise it is filtered by the stripped query). |
| Views.FilterLogsLines | master/master_app/views.py:55-56 | The result is the `\n`-join of exactly the lines that contain the query, ignoring case, in order. |
| Views.FilterLogsIdempotent | master/master_app/views.py:55-56 | Filtering with the same query again changes nothing. |
| Views.FilterLogsIgnoresQueryCase | master/master_app/views.py:55 | Queries that lower-case to the same text select the same lines. |
| Views.ViewLogChoice | master/master_app/views.py:31-46 | A blank query (after `strip`) shows the log unchanged. Otherwise the log is filtered with the stripped query. |
| Views.SafeJoin | master/master_app/views.py:86-93 | The path is accepted exactly when `os.path.join(base, *paths)` starts with the base, and then it is that join. Otherwise the result is a 404 with "Access Denied". |
| Views.RelativeJoinExtends | master/master_app/views.py:90 | Joining relative parts extends the base. |
| Views.RelativePartsAccepted | master/master_app/views.py:90-91 | With relative parts the join is accepted. |
| Views.AbsolutePartReplaces | master/master_app/views.py:90-91 | An absolute part replaces what precedes it, so a part outside the base is refused. |
| Views.Universal | master/master_app/views.py:139 | Reading a file in text mode translates `\r\n` and a lone `\r` to `\n`: the text read holds no `\r`, is no longer than the file, and a file without `\r` reads as itself. |
| Views.PrefixCheckEscapes | master/master_app/views.py:86-93 | With the default base `/mnt/s3-bucket`, the sibling `/mnt/s3-bucket-old/x` and the climb `..`/`etc` are both accepted (the parts come from the request at views.py:69 and 100). |
| Views.FileLines | master/master_app/views.py:139 | Splitting a text at `\n`: each line non-empty, at most one `\n`, only at the end, and only the last may lack it. |
| Views.FileLinesNoCR | master/master_app/views.py:139 | The lines of a text without `\r` hold no `\r`. |
| Views.ConcatFileLines | master/master_app/views.py:228-230 | Writing the lines back concatenated gives the original text. |
| Views.FileLinesOfConcat | master/master_app/views.py:228-230 | Reading back a concatenation of well-formed lines gives the same lines. |
| Views.CheckExportExists | master/master_app/views.py:131-141 | `check_export_exists`: true exactly when `/etc/exports` was read and some line, as read in text mode and stripped, starts with `<BASE_DIR>/<ip> <ip>(`; a read error gives false. `RemoveThenAbsent`, `SetupNeverAppends` and `SetupThenFound` state what it gives after the file is rewritten. |
| Views.RemoveExportRule | master/master_app/views.py:220-233 | `remove_export_rule`; its contract is carried by `RemoveFailureKeepsFile`, `RemoveThenAbsent`, `RemoveWithoutRule` and `RemoveIdempotent`. |
| Views.RemoveFailureKeepsFile | master/master_app/views.py:226-233 | A read or write error leaves `/etc/exports` as it was. |
| Views.KeptLinesReadBack | master/master_app/views.py:226-230 | The kept lines, written back, hold no `\r` and read back as exactly the kept lines. |
| Views.RemoveThenAbsent | master/master_app/views.py:224-230 | After a successful removal the file holds no `\r`, reads back as exactly the kept lines, and the client's rule is no longer found. |
| Views.RemoveWithoutRule | master/master_app/views.py:224-230 | A file without the rule is rewritten with its line ends translated to `\n`, so unchanged when it holds no `\r`. |
| Views.RemoveIdempotent | master/master_app/views.py:224-230 | Removing twice is removing once. |
| Views.SetupRule | master/master_app/views.py:155-162 | The rule text `<client_dir> <ip>(rw,sync,no_subtree_check,all_squash,anonuid=65534,anongid=65534,fsid=<fsid>)`; `SetupRuleHasPrefix` and `SetupRuleTrailingSlash` state how it relates to the prefix the check looks for. |
| Views.SetupClientDirectory | master/master_app/views.py:151-171 | `setup_client_directory` as written; its contract is `SetupNeverAppends`. |
| Views.SetupRuleHasPrefix | master/master_app/views.py:155-162 | For a base without a trailing `/`, the rule `setup_client_directory` builds begins with the prefix that `check_export_exists` and `remove_export_rule` search for. |
| Views.SetupRuleTrailingSlash | master/master_app/views.py:155-162 | With a trailing `/` on the base, the rule it builds does not begin with that prefix. |
| Views.SetupNeverAppends | master/master_app/views.py:151-171 | As written, `setup_client_directory` returns False and leaves `/etc/exports` as it was on every input; even on an empty file with every step succeeding, the client's rule is not found afterwards. |
| Views.AppendedLineRead | master/master_app/views.py:165-167 | A file without `\r` that is empty or ends with `\n`, with a plain line and its `\n` appended, reads back as its old lines followed by that line. |
| Views.SetupThenFound | master/master_app/views.py:151-171 | The corrected setup reports success, `check_export_exists` then finds the client's rule, and a second setup leaves the file unchanged. |

## Left out

- Concurrency:
  - The engine's and `main.go`'s worker pools are read as one sequential loop over the queue.
  - Races between workers, and the unsynchronised read-modify-write of `metadata.json` by concurrent moves into one date directory, are not modelled.
  - The health checker's mutex, ticker, HTTP handler and `time.Sleep` between retries are left out. `RetryDelaySec` is only given its default.
- Operating-system outcomes are parameters, not modelled behaviour:
  - `os.Rename` and `ioutil.WriteFile` are assumed to overwrite an existing destination.
  - A failed write changes nothing, so partial writes are not modelled.
  - umask, ownership and timestamps are not modelled.
- FileSystem.MkdirAll: creates only the named directory, not its missing parents.
- Recycle.Move, Legacy.LegacyMove and RecycleLaws.MoveMissingNoChange: a path is looked up as an exact key of the tree. Nothing resolves a trailing `/`, `.`, `..`, `//`, the working directory or symbolic links, so `logs/`, `./logs` and an absolute spelling of `logs` are different, missing paths in the model, although `os.Stat` finds them.
- Walk order: `filepath.Walk`'s lexical order is not derived. The visited items are a parameter in the order given.
- Errors of `filepath.Walk` are modelled only as "the walk failed".
- GoPath.Join: joins with one `/`. It does not apply `filepath.Clean`, so `..`, `.` and repeated slashes are not resolved.
- Text.Lower: lowers ASCII letters only, whereas Python's `str.lower` is Unicode-wide. `splitlines` boundaries are the ones Python documents, on characters.
- Journals:
  - Journals are kept in their own map beside the file tree, so a recycled file named `metadata.json` does not clash with a journal.
  - JSON is modelled by its decoded value: `null`, a list of entries, or undecodable.
  - `FileSize` is the length of the content.
  - The three `time.Now()` readings of a move (date, `HH:MM:SS`, `DeletedAt`) are three independent parameters. Their consistency is not modelled, so a move just before midnight may journal a time of the next day.
- MIME detection (`mimetype.DetectFile`) is an oracle result; a failure ends the move.
- Logging (logrus, lumberjack, `initLogger`) is left out. The log lines are modelled only as the status a move or a restore ends with.
- `main.go`'s `getServerInfo`, `readConfig`, `-h` help and flag parsing are left out, apart from the `-f` and workers values.
- `agent/src/main.go`'s command-line handling is not part of this model.
- AgentUtils.GetServerInfo:
  - the address is kept as bytes, not in `IP.String()` dotted form;
  - `net.Interfaces()` and `os.Hostname()` are oracle results.
- Health checks call external programs (`pgrep`, `df -t nfs -t nfs4`, `source`). They are modelled as error oracles and `df`'s output text. Error messages of the operating system are opaque strings.
- Health.HealthChecker.CheckNFSWithRetries: the sleep between attempts is left out; which probes were made is ghost state.
- Django views: request parsing, template rendering, the ORM, `subprocess` calls (`exportfs`, `mkdir`, `chmod`, `systemctl`) and authentication are left out. Only the text operations on the log and on `/etc/exports` are modelled.
- Views.SetupRule: `fsid` is taken as its decimal text.
- Views.SetupClientDirectory: the `mkdir` and `chmod` commands are an oracle (`SetupEnv`); `chmod`'s result is ignored, as in the code. `create_base_directory` and `add_agent` are left out with the rest of the Django views.
- Views.SafeJoin: models the prefix check as written. It does not normalise, so relative parts, `..` included, are always accepted (`RelativePartsAccepted`), and an absolute sibling sharing the prefix, such as `/mnt/s3-bucket-old/x` for the default base `/mnt/s3-bucket`, is accepted too (`PrefixCheckEscapes`). A check that normalises the path and compares whole path elements is not modelled.

Behaviour of the code that may look unintended, which the model keeps:

- A journal that exists but does not decode is overwritten by a one-entry journal (`Metadata.MalformedJournalOverwritten`). It does not fail loudly.
- When removing the source after a successful copy fails, the move returns with no journal entry (`agent/src/recycle.go:105-109`). An entry is not written in that case.
- Two recycles of the same name in the same second overwrite each other (`RecycleLaws.CollisionOverwrites`). Nothing disambiguates them.
- Copying back during restore writes mode `os.ModePerm` rather than the original mode (`RecycleLaws.CopyRoundTripResetsMode`).

## Findings

| source | as written | input that shows it | evidently intended | confidence | as-written member | corrected member |
|---|---|---|---|---|---|---|
| master/master_app/views.py:164-169 | `/etc/exports` is opened with mode `"a"` and then iterated. A file opened for appending is not readable, so the iteration raises `io.UnsupportedOperation`, an `OSError` that `except IOError` catches. The function returns False without writing. `add_agent` (views.py:199) therefore never adds an agent and reports "Failed to set up NFS or require sudo access."; when the base directory already exists, `create_base_directory` returns None and setup is not even reached. | an empty `/etc/exports`, the client directory present, `open` succeeding | append the rule with its `\n` unless a stripped line already is the rule, and return True | high; not executed | Views.SetupNeverAppends | Views.SetupThenFound |
