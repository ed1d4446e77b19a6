# rssbox-seedr, modelled in Dafny

rssbox watches an RSS feed and passes each new entry through a pool of Seedr
accounts. The pipeline has five steps:

1. A feed watcher records every new entry as a PENDING document in the MongoDB
   `downloads` collection. Its watermark is the publication time of the newest
   accepted entry.
2. A worker (`SeedrClient`) claims a free account for each pending download and
   asks Seedr to fetch the torrent.
3. Later the worker claims up to five DOWNLOADING accounts and checks each one.
   - If the torrent has become a folder or file of the same name, the worker
     downloads every wanted file. It keeps the files whose extension is
     configured, uploads them to a cloud drive named by the MD5 of the file name
     and records them in the `files` base. Then it deletes the download.
   - If the torrent is still running, the account is left to go on downloading.
   - If the download timed out or vanished, the account is idled or reset.
4. Every worker announces itself with a heartbeat every 30 seconds.
5. A cleanup (`WorkerHandler`, and an older copy inside `SeedrClient`) deletes
   workers that have not beaten for 40 seconds. It then releases every account
   and download still locked by a worker that is gone.

The model keeps the program's structure, one module per source file:

| module | file |
|---|---|
| `Enums` | `enum.py` |
| `Store` | the collections and the unique index on `downloads.url` in `__init__.py` |
| `Config` | `config.py` |
| `Paths` | the parts of `posixpath` and `str` that the code uses |
| `Downloads` | `modules/download.py` |
| `Listing` | the value classes of `modules/seedr.py` |
| `Seedrs` | the `Seedr` account class |
| `Heartbeats` | `modules/heartbeat.py` |
| `Workers` | `handlers/worker_handler.py` and the cleanup in `seedr_client.py` |
| `Files` | `handlers/file_handler.py` and its copy in `seedr_client.py` |
| `WatchRss` | `modules/watchrss.py` |
| `Client` | `seedr_client.py` |

How the program's state is represented:

- **Classes that update fields in place** are Dafny classes: `Download`, `Seedr`,
  `Heartbeat`, `WatchRSS`, `WorkerHandler`, `FileHandler` and `SeedrClient`.
- **The database** is a class with one map per collection.
- **The outside world** is a value: the local files and the history of download
  and upload calls. It includes the disk, the cloud drives and the `files` base.

What is proved:

- **Unique urls.** The unique index keeps one download per url, and every operation
  that writes downloads preserves this.
- **Saves and status changes.** Each `mark_*` method has a precise effect on the
  stored account.
- **Finding the result of a download.** `find_seedr` and the decision table of
  `check_downloads` are stated in full.
- **Claims.** A claim never takes over a locked account, and every claimed account
  ends DOWNLOAD_CHECKING and locked by the worker.
- **After a check.** Every account that was checked ends unlocked and IDLE or
  DOWNLOADING, and no other account changes.
- **The file walk.**
  - It handles exactly the wanted files in the tree, in order.
  - It makes one drive upload and one `files` record per file.
  - It leaves no local copy behind.
- **The cleanup.** It leaves no account or download locked by a missing or stale
  worker. A worker that beats on schedule survives it.
- **The feed watermark.** On a newest-first feed it never moves back, and a second
  check delivers nothing twice.
- **Configuration.** The extension list splits and joins back to the configured
  value.

The model also records some behaviour of the code as it stands:

- **`mark_as_failed` always raises**, because `Download` has no `mark_as_failed`
  method.
- **`get_free_seedr` hands `Seedr` the document as it was before the claim.** If
  that account has no token, the login's save writes the old status and lock back.
  This frees the account again while the worker goes on using it.
- **The two copies of `download_file` differ.** `seedr_client.py` skips a file that
  is already on disk whatever its size; `file_handler.py` skips it only when the
  size matches.
- **Two log messages of `check_downloads` read attributes `Seedr` does not
  define** (`key` and `download_name`). The model states both the code as written
  and the loop with those messages corrected; see Findings.
- **`Seedr` raises KeyError on an account with neither token nor password.**
  `get_free_seedr` has claimed the account by then, and in `get_downloads_to_check`
  every later claimed account stays claimed.
- **The two copies of the cleanup differ.**
  - Only `worker_handler.py` releases LOCKED accounts.
  - Only `seedr_client.py` releases DOWNLOAD_CHECKING accounts.

## Model

| member | source | states |
|---|---|---|
| `Enums.ValueInjective` | rssbox/enum.py:11-18 | distinct statuses are stored as distinct strings |
| `Enums.FromValue` | rssbox/enum.py:11-18 | `SeedrStatus(v)` as declared: found exactly for the seven declared values, never DOWNLOAD_CHECKING |
| `Enums.DownloadCheckingHasNoMember` | rssbox/seedr_client.py:187 | the status the client stores while checking has no member in the enumeration as written |
| `Enums.FromValueWithChecking` | rssbox/enum.py:11-18 | the lookup extended with DOWNLOAD_CHECKING finds exactly the status stored as `v` |
| `Enums.ValueRoundTrip` | rssbox/enum.py:11-18 | every status reads back as itself from its stored value |
| `Store.UpsertKeepsUrlsUnique` | rssbox/__init__.py:49 | an upsert that the unique url index accepts keeps urls unique |
| `Store.Database.constructor` | rssbox/__init__.py:46-52 | a database whose downloads have unique urls, holding the four given collections |
| `Config.RemoveSpaces` | rssbox/config.py:15 | `replace(" ", "")`: no space is left, and every other character keeps its count |
| `Config.Split` | rssbox/config.py:15 | `split(sep)`: at least one piece, no piece holds the separator, pieces hold only characters of the input |
| `Config.SplitCount` | rssbox/config.py:15 | there is one piece more than there are separators |
| `Config.JoinSplit` | rssbox/config.py:15 | joining the pieces of a split with the separator gives the original string back |
| `Config.SplitJoin` | rssbox/config.py:15 | splitting a join of separator-free pieces gives the pieces back |
| `Config.FilterExtensions` | rssbox/config.py:12-15 | `FILTER_EXTENSIONS`: one entry per comma plus one, none holds a space or comma, they join back to the space-free setting |
| `Config.SplitEndingInSeparator` | rssbox/config.py:15 | a string ending in the separator splits with an empty last piece |
| `Config.TrailingCommaGivesEmptyEntry` | rssbox/config.py:14-15 | a trailing comma in the setting makes "" an accepted extension |
| `Config.DownloadPath` | rssbox/config.py:17-18 | `abspath(DOWNLOAD_PATH)` is absolute; by default it is `downloads` under the working directory |
| `Config.LogLevel` | rssbox/config.py:21-22 | DEBUG exactly when `--debug` or `--verbose` is given or `LOG_LEVEL` is DEBUG, else INFO |
| `Paths.LastIndexOf` | rssbox/handlers/file_handler.py:48 | `rfind`: -1 or an index holding the character |
| `Paths.LastIndexOfIsLast` | rssbox/handlers/file_handler.py:48 | no occurrence follows the index found, and -1 means there is none |
| `Paths.LastIndexOfAt` | rssbox/handlers/file_handler.py:48 | the last occurrence of a character is the one `rfind` returns |
| `Paths.Join` | rssbox/handlers/file_handler.py:105-109 | `os.path.join`: an absolute second part replaces the first, otherwise one '/' separates them |
| `Paths.RStripSlashes` | rssbox/seedr_client.py:346 | `rstrip('/')`: a prefix of the input that does not end in '/' |
| `Paths.DirnameOfChild` | rssbox/seedr_client.py:346 | the dirname of `dir/name` is `dir` when `name` holds no '/' |
| `Paths.Ext` | rssbox/handlers/file_handler.py:48 | `splitext`'s extension is no longer than the path |
| `Paths.ExtIsSuffix` | rssbox/handlers/file_handler.py:48 | the extension is "" or a suffix that starts with its only '.' and holds no '/' |
| `Paths.Lower` | rssbox/handlers/file_handler.py:49 | `lower()` keeps the length |
| `Paths.LowerMapsLetters` | rssbox/handlers/file_handler.py:49 | `lower()` leaves no upper-case letter, keeps every other character and maps each letter to its lower-case one |
| `Paths.NatToStringDigits` | rssbox/handlers/file_handler.py:109 | `str(n)` of a natural number consists of decimal digits |
| `Paths.IntToStringHasNoSlash` | rssbox/handlers/file_handler.py:109 | `str(file.id)` holds no '/', so it is a single path component |
| `Downloads.EntryRecord` | rssbox/modules/download.py:71-80 | `from_entry`: PENDING, url from the link, name from the title, no Seedr name, no lock |
| `Downloads.PendingRecord` | rssbox/modules/download.py:58-62 | the document `mark_as_pending` writes: same url and name, PENDING, no Seedr name, no lock |
| `Downloads.ProcessingRecord` | rssbox/modules/download.py:52-56 | the document `mark_as_processing` writes: same url and name, PROCESSING under Seedr's name, no lock |
| `Downloads.Download.Load` | rssbox/modules/download.py:18-25 | the object holds the stored document |
| `Downloads.Download.FromEntry` | rssbox/modules/download.py:71-80 | a new download under a fresh id, holding the entry's document |
| `Downloads.Download.Save` | rssbox/modules/download.py:49-50 | upsert under the id, refused exactly when another document has the url; unique urls are preserved |
| `Downloads.Download.MarkAsProcessing` | rssbox/modules/download.py:52-56 | the document becomes `ProcessingRecord` of the old one, then saved |
| `Downloads.Download.MarkAsPending` | rssbox/modules/download.py:58-62 | back to the pending document, then saved |
| `Downloads.Download.Unlock` | rssbox/modules/download.py:64-66 | only the lock is cleared, then saved |
| `Downloads.Download.Delete` | rssbox/modules/download.py:68-69 | exactly the document with this id is removed |
| `Downloads.Download.Create` | rssbox/modules/download.py:37-47 | insert under a new key, or on a duplicate url adopt the stored document except its lock; urls stay unique |
| `Downloads.CreateKeepsOnePerUrl` | rssbox/modules/download.py:37-47 | after `create` urls are unique and a document with the new url is stored |
| `Listing.ParseReply` | rssbox/modules/seedr.py:177-182 | KeyError exactly when `code` is missing or 200 without `result`; success iff code 200 and result == True; error falls back to result |
| `Listing.SuccessfulReplyError` | rssbox/modules/seedr.py:180-182 | a successful reply without an error field reports its `result` as the error |
| `Seedrs.ReadStatus` | rssbox/modules/seedr.py:26 | a missing status reads as IDLE, a status value as itself, "" raises |
| `Seedrs.ReadAccount` | rssbox/modules/seedr.py:22-30 | the fields read from a document, priority 0 when missing; fails exactly on an empty status |
| `Seedrs.WriteAccount` | rssbox/modules/seedr.py:88-101 | the saved document reads back as the saved fields, password untouched |
| `Seedrs.SaveTo` | rssbox/modules/seedr.py:88-101 | `update_one` without upsert: only this id's document changes, and only if it exists |
| `Seedrs.SaveOverwrites` | rssbox/modules/seedr.py:88-101 | a later save overwrites everything an earlier one wrote |
| `Seedrs.StatusUpdated` | rssbox/modules/seedr.py:103-107 | the new status; the lock is cleared exactly for DOWNLOADING and IDLE; nothing else changes |
| `Seedrs.Idled` | rssbox/modules/seedr.py:120-125 | IDLE with no time, download or lock; token and priority kept |
| `Seedrs.IdledRefinesUpdate` | rssbox/modules/seedr.py:120-125 | `mark_as_idle` is `update_status(IDLE)` that also forgets the download and its time |
| `Seedrs.UploadingBy` | rssbox/modules/seedr.py:127-130 | UPLOADING and locked by the worker; nothing else changes |
| `Seedrs.DownloadingFrom` | rssbox/modules/seedr.py:109-113 | DOWNLOADING the download since now, unlocked; token and priority kept |
| `Seedrs.TimedOutLater` | rssbox/modules/seedr.py:150-151 | once timed out, an account stays timed out as time passes |
| `Seedrs.Seedr.Load` | rssbox/modules/seedr.py:22-45 | on a document `Seedr` returns on: the fields read from it; with no usable token the login's token is saved at once |
| `Seedrs.Seedr.Save` | rssbox/modules/seedr.py:88-101 | the store becomes `SaveTo` of the object's six fields |
| `Seedrs.Seedr.UpdateStatus` | rssbox/modules/seedr.py:103-107 | the fields become `StatusUpdated`, then saved |
| `Seedrs.Seedr.MarkAsIdle` | rssbox/modules/seedr.py:120-125 | the fields become `Idled`, then saved |
| `Seedrs.Seedr.MarkAsUploading` | rssbox/modules/seedr.py:127-130 | the fields become `UploadingBy`, then saved |
| `Seedrs.Seedr.CurrentDownload` | rssbox/modules/seedr.py:157-168 | the cached download, else the linked stored one (then cached), else none |
| `Seedrs.Seedr.MarkAsDownloading` | rssbox/modules/seedr.py:109-118 | the account is saved DOWNLOADING the download; the linked download, holding its stored url and name, becomes PROCESSING under Seedr's name and is saved exactly when its url is free, or the call raises when none is found |
| `Seedrs.Seedr.MarkAsFailed` | rssbox/modules/seedr.py:132-136 | the account is idled and saved, then the call always raises and no download changes |
| `Seedrs.Seedr.MarkAsCompleted` | rssbox/modules/seedr.py:138-142 | the account is idled and saved; only a download cached earlier is deleted |
| `Seedrs.Seedr.Reset` | rssbox/modules/seedr.py:144-148 | the account is idled and saved; the cached download returns to PENDING and is saved, raising on a duplicate url |
| `Seedrs.Seedr.DownloadTimeout` | rssbox/modules/seedr.py:150-155 | true exactly when the download was added more than `timeout` seconds ago, and only then idled |
| `Seedrs.Seedr.AddDownload` | rssbox/modules/seedr.py:76-86 | the parsed reply; on success the effect of `MarkAsDownloading` in full (account, download, exception); on refusal the account is idled and no download changes; an unparsable reply changes nothing |
| `Heartbeats.HeartbeatId` | rssbox/modules/heartbeat.py:41-43 | the job id is `heartbeat-` followed by the worker id |
| `Heartbeats.HeartbeatIdInjective` | rssbox/modules/heartbeat.py:41-43 | distinct workers get distinct job ids |
| `Heartbeats.Beaten` | rssbox/modules/heartbeat.py:33-39 | upsert of this worker's heartbeat time; no other worker changes |
| `Heartbeats.Removed` | rssbox/modules/heartbeat.py:28-31 | exactly this worker's document is deleted |
| `Heartbeats.Heartbeat.constructor` | rssbox/modules/heartbeat.py:11-15 | the worker has beaten once and its 30-second job is scheduled |
| `Heartbeats.Heartbeat.StartHeartbeat` | rssbox/modules/heartbeat.py:17-26 | one beat, then the job every 30 seconds under `heartbeat_id` |
| `Heartbeats.Heartbeat.Beat` | rssbox/modules/heartbeat.py:33-39 | the workers become `Beaten` at the current time |
| `Heartbeats.Heartbeat.StopHeartbeat` | rssbox/modules/heartbeat.py:28-31 | succeeds exactly when the job exists; then the job and the worker document are removed, else nothing changes |
| `Workers.StaleIds` | rssbox/handlers/worker_handler.py:39-43 | exactly the workers whose last beat is before the threshold |
| `Workers.Survivors` | rssbox/handlers/worker_handler.py:45-46 | every stale worker is deleted and no other |
| `Workers.Remap` | rssbox/handlers/worker_handler.py:104-109 | released as DOWNLOADING exactly from LOCKED or UPLOADING in the handler, and from DOWNLOAD_CHECKING or UPLOADING in the client; otherwise IDLE |
| `Workers.MatchedAccounts` | rssbox/handlers/worker_handler.py:61-100 | exactly the candidate-status accounts whose lock names a missing or stale worker |
| `Workers.Released` | rssbox/handlers/worker_handler.py:112-120 | the remapped status and no lock; nothing else changes |
| `Workers.ReleasedAccounts` | rssbox/handlers/worker_handler.py:102-120 | matched accounts are released, all others unchanged |
| `Workers.MatchedDownloads` | rssbox/handlers/worker_handler.py:132-173 | exactly the locked PENDING or PROCESSING downloads whose lock names a missing or stale worker |
| `Workers.RevertedDownloads` | rssbox/handlers/worker_handler.py:175-184 | matched downloads become PENDING and unlocked, all others unchanged |
| `Workers.RevertKeepsUrlsUnique` | rssbox/handlers/worker_handler.py:175-184 | reverting downloads keeps urls unique |
| `Workers.AccountCleanupLeavesNoOrphans` | rssbox/handlers/worker_handler.py:57-126 | after the account cleanup, no candidate-status account is locked by a missing or stale worker |
| `Workers.DownloadCleanupLeavesNoOrphans` | rssbox/handlers/worker_handler.py:128-190 | after the download cleanup, no PENDING or PROCESSING download is locked by a missing or stale worker |
| `Workers.CleanupsDiffer` | rssbox/seedr_client.py:71-123 | an orphaned LOCKED account is released only by the handler, a DOWNLOAD_CHECKING one only by the client |
| `Workers.OnScheduleSurvives` | rssbox/handlers/worker_handler.py:34-36 | a worker that beat within the last 30 seconds survives a cleanup and holds its locks |
| `Workers.WorkerHandler.constructor` | rssbox/handlers/worker_handler.py:14-24 | the handler works on the given database |
| `Workers.WorkerHandler.Clean` | rssbox/handlers/worker_handler.py:31-55 | stale workers deleted, then accounts and downloads released; afterwards no orphaned locks remain and urls stay unique |
| `Workers.WorkerHandler.ProcessStaleSeedrs` | rssbox/handlers/worker_handler.py:57-126 | the accounts become `ReleasedAccounts` of the matched ones |
| `Workers.WorkerHandler.ProcessStaleDownloads` | rssbox/handlers/worker_handler.py:128-190 | the downloads become `RevertedDownloads` of the matched ones |
| `Workers.DeleteStaleWorkers` | rssbox/handlers/worker_handler.py:39-49 | returns the stale ids and leaves the survivors |
| `Workers.ReleaseOrphanedAccounts` | rssbox/handlers/worker_handler.py:100-120 | one `update_one` per matched account gives `ReleasedAccounts` |
| `Workers.UpdateOne` | rssbox/handlers/worker_handler.py:112-120 | only the named document's status and lock change, and only if it exists |
| `Files.CheckExtensionOfDottedName` | rssbox/handlers/file_handler.py:47-51 | a name `base.ext` is wanted exactly when `lower(ext)` is configured |
| `Files.CheckExtensionWithoutDot` | rssbox/handlers/file_handler.py:47-51 | a name without a dot is wanted exactly when "" is configured |
| `Files.UpperCaseEntryNeverMatches` | rssbox/config.py:15 | the entries are not lower-cased while the extension is (rssbox/handlers/file_handler.py:49, rssbox/seedr_client.py:293): an entry with an upper-case letter matches no name, and adding it to the list changes no answer |
| `Files.FileDirShape` | rssbox/handlers/file_handler.py:108-109 | a file's directory ends in its id, not in '/' |
| `Files.FileDirIsParent` | rssbox/seedr_client.py:346-350 | the dirname of a file's path is the file's directory when its name has no '/' |
| `Files.AcceptedFiles` | rssbox/handlers/file_handler.py:40-45 | the wanted files of a list, at most as many as the list has |
| `Files.AcceptedFilesMembers` | rssbox/handlers/file_handler.py:40-45 | exactly the files with a configured extension are kept |
| `Files.AcceptedFilesAppend` | rssbox/handlers/file_handler.py:31-33 | filtering a concatenation filters each part in turn |
| `Files.AcceptedInComplete` | rssbox/handlers/file_handler.py:27-38 | the walk handles exactly the wanted files anywhere in the folder |
| `Files.AcceptedInAllComplete` | rssbox/handlers/file_handler.py:34-36 | the walk over several folders handles exactly the wanted files in any of them |
| `Files.CallsFor` | rssbox/handlers/file_handler.py:40-45 | two calls per wanted file, a download and an upload |
| `Files.CallsForAppend` | rssbox/handlers/file_handler.py:27-38 | handling two lists one after the other makes the calls of handling both |
| `Files.RecordsAppend` | rssbox/handlers/file_handler.py:89-97 | records and drive uploads of consecutive calls concatenate |
| `Files.RecordsOfCalls` | rssbox/handlers/file_handler.py:89-97 | one `files` record per handled file, in order: its name, size, MD5 of the name and zero downloads |
| `Files.PutsOfCalls` | rssbox/handlers/file_handler.py:82-87 | one drive upload per handled file, in order, to the drive named by the MD5 of its name |
| `Files.RecordsOfPair` | rssbox/handlers/file_handler.py:79-103 | handling one file inserts its record and makes its drive upload |
| `Files.DownloadFetches` | rssbox/handlers/file_handler.py:53-56 | a file on disk with its Seedr size is not fetched again; the handler fetches one of another size, the client keeps it |
| `Files.DownloadLeavesFile` | rssbox/handlers/file_handler.py:53-77 | after `download_file` the file is on disk, with its Seedr size unless the client kept an older copy |
| `Files.DirnameContains` | rssbox/seedr_client.py:346 | the dirname of a path holding '/' contains the path |
| `Files.TransferRemovesLocalCopy` | rssbox/handlers/file_handler.py:111-113 | after a file is handled its local copy is gone, in both copies of the code |
| `Files.FileHandler.constructor` | rssbox/handlers/file_handler.py:17-19 | the handler holds the given settings and world |
| `Files.FileHandler.DownloadFile` | rssbox/handlers/file_handler.py:53-77 | returns the file's path and records a download call |
| `Files.FileHandler.UploadFile` | rssbox/handlers/file_handler.py:79-103 | records an upload call at the current time |
| `Files.FileHandler.ProcessFile` | rssbox/handlers/file_handler.py:40-45 | 1 with a download and an upload when wanted, else 0 with nothing done |
| `Files.FileHandler.ProcessFolder` | rssbox/handlers/file_handler.py:27-38 | the count and the calls of handling every wanted file of the tree, own files first |
| `Files.FileHandler.ProcessFiles` | rssbox/handlers/file_handler.py:31-33 | the count and the calls of the wanted files of the list, in order |
| `Files.FileHandler.ProcessFolders` | rssbox/handlers/file_handler.py:34-36 | the count and the calls of the wanted files of each sub-folder, in order |
| `Files.FileHandler.Upload` | rssbox/handlers/file_handler.py:21-25 | a file or a whole folder: the count and the calls of its wanted files |
| `WatchRss.FeedId` | rssbox/modules/watchrss.py:31 | the id when given and non-empty, else the url |
| `WatchRss.Reloaded` | rssbox/modules/watchrss.py:56-57 | the stored watermark, or the current time when there is none |
| `WatchRss.NewEntries` | rssbox/modules/watchrss.py:73-77 | the selection is no longer than the feed |
| `WatchRss.NewEntriesMembers` | rssbox/modules/watchrss.py:73-77 | exactly the entries newer than the watermark are selected |
| `WatchRss.NewEntriesAppend` | rssbox/modules/watchrss.py:73-77 | the selection keeps the feed's order |
| `WatchRss.NewestFirstGivesPrefix` | rssbox/modules/watchrss.py:73-80 | on a newest-first feed the new entries are a prefix of the feed |
| `WatchRss.NextWatermarkAsWritten` | rssbox/modules/watchrss.py:80-93 | as written: raises exactly on an empty feed |
| `WatchRss.NextWatermark` | rssbox/modules/watchrss.py:80-97 | moves to the first entry's time only for new entries and an accepting reply; otherwise unchanged |
| `WatchRss.EmptyFeedRaises` | rssbox/modules/watchrss.py:80 | on an empty feed the code as written raises, the corrected one keeps the watermark |
| `WatchRss.CorrectedAgreesOnNonEmptyFeeds` | rssbox/modules/watchrss.py:80-97 | on any non-empty feed the corrected watermark is the one written |
| `WatchRss.WatermarkAdvances` | rssbox/modules/watchrss.py:80-93 | on a newest-first feed the watermark never moves back and passes every delivered entry |
| `WatchRss.SecondCheckDeliversNothing` | rssbox/modules/watchrss.py:73-93 | after an accepted check the same newest-first feed delivers nothing |
| `WatchRss.UnorderedFeedCanRecede` | rssbox/modules/watchrss.py:80 | on a feed that is not newest first an accepted check can move the watermark back |
| `WatchRss.WatchRSS.constructor` | rssbox/modules/watchrss.py:13-40 | an explicit watermark is stored; otherwise the current time for a new feed, or the stored one |
| `WatchRss.WatchRSS.UpdateLastSavedOn` | rssbox/modules/watchrss.py:42-57 | with a time, upsert and hold it; without, reload the stored one |
| `WatchRss.WatchRSS.Check` | rssbox/modules/watchrss.py:65-97 | delivers the new entries; the watermark becomes `NextWatermark` and is stored only when accepted |
| `Client.ClaimedForProcessing` | rssbox/seedr_client.py:154 | PROCESSING and locked by the worker; nothing else changes |
| `Client.ClaimedForChecking` | rssbox/seedr_client.py:185-190 | DOWNLOAD_CHECKING and locked by the worker; nothing else changes |
| `Client.ClaimsAfter` | rssbox/seedr_client.py:175-194 | the claims keep the set of accounts |
| `Client.ClaimedIds` | rssbox/seedr_client.py:175-194 | the claimed ids are among the ids tried and the stored accounts |
| `Client.ClaimsSkipLocked` | rssbox/seedr_client.py:176-184 | a locked or untried account is never claimed and stays as it was |
| `Client.ClaimsLock` | rssbox/seedr_client.py:185-194 | every claimed account ends DOWNLOAD_CHECKING and locked by the worker |
| `Client.ClaimsUnlockedEarlier` | rssbox/seedr_client.py:176-194 | an id tried without success was locked and stays as it was |
| `Client.AllClaimed` | rssbox/seedr_client.py:175-194 | distinct unlocked accounts are all claimed |
| `Client.FolderIndex` | rssbox/seedr_client.py:241-243 | the first folder with the name, or the folder count |
| `Client.FileIndex` | rssbox/seedr_client.py:245-247 | the first file with the name, or the file count |
| `Client.FindSeedr` | rssbox/seedr_client.py:238-249 | an item with the name, none exactly when nothing is so named, a folder when one is |
| `Client.Decide` | rssbox/seedr_client.py:198-236 | no download, upload, timed out, still downloading or reset, each exactly under its condition |
| `Client.AnyTorrentNamed` | rssbox/seedr_client.py:222-230 | true exactly when some torrent has the name |
| `Client.LoggedIn` | rssbox/modules/seedr.py:22-45 | a document without a usable token on which `Seedr` returns gets the login's token and its fields as read; one with a token, or one on which `Seedr` raises, is unchanged |
| `Client.LoginChangesOnlyToken` | rssbox/modules/seedr.py:33-45 | for a document with a status and a password but no usable token, the login's save changes only the token and a missing priority |
| `Client.LoginUndoesProcessingClaim` | rssbox/seedr_client.py:145-159 | the login's save of the pre-claim document makes the claimed account free again |
| `Client.ClaimedLoadable` | rssbox/modules/seedr.py:26-34 | on a document claimed for checking, `Seedr` raises exactly when it has neither a usable token nor a password |
| `Client.LinkedName` | rssbox/modules/seedr.py:157-168 | the name of the linked download, found exactly when one is linked |
| `Client.FindToCheck` | rssbox/seedr_client.py:162-171 | distinct DOWNLOADING unlocked accounts, at most five, all of them when fewer |
| `Client.SeedrClient.constructor` | rssbox/seedr_client.py:30-44 | the worker beats, stale workers go, orphaned accounts are released and the worker survives |
| `Client.SeedrClient.GetFreeSeedr` | rssbox/seedr_client.py:145-159 | claims a free account exactly when there is one, and changes no other account; builds the `Seedr` from the pre-claim document, or raises after the claim when `Seedr` cannot read it |
| `Client.SeedrClient.ClaimForChecking` | rssbox/seedr_client.py:175-194 | the claims give `ClaimsAfter`, the ids `ClaimedIds`, the documents after each claim |
| `Client.SeedrClient.GetDownloadsToCheck` | rssbox/seedr_client.py:161-196 | claims the accounts found, then builds their `Seedr`s in order until one has neither token nor password; only the built ones are logged in; no other account changes |
| `Client.SeedrClient.ClaimToCheck` | rssbox/seedr_client.py:162-194 | the accounts found are all claimed: each ends DOWNLOAD_CHECKING and locked by the worker; no other account changes |
| `Client.SeedrClient.LoadClaimed` | rssbox/seedr_client.py:196 | one `Seedr` per claimed document in order, each login saving only its own account, stopping exactly at the first document on which `Seedr` raises |
| `Client.SeedrClient.LoadOne` | rssbox/seedr_client.py:142-143 | the stored document becomes `LoggedIn`, and the new object reads as it |
| `Client.SeedrClient.Upload` | rssbox/seedr_client.py:269-277 | UPLOADING, the item transferred, then the account idled and its download deleted |
| `Client.SeedrClient.CheckOne` | rssbox/seedr_client.py:201-236 | the loop body with its log messages corrected: carries out `Decide`; the account ends unlocked and IDLE or DOWNLOADING; only a reset can raise, and never while urls are unique |
| `Client.SeedrClient.CheckOneAsWritten` | rssbox/seedr_client.py:201-236 | as written: without a download, and on a timeout, the log message raises AttributeError, before the idle in the first case and after it in the second; other decisions as in `CheckOne` |
| `Client.SeedrClient.CheckDownloads` | rssbox/seedr_client.py:198-236 | with the corrected log messages of `CheckOne` (see Findings): when a claimed account has no credentials nothing is checked; otherwise only a raising reset stops the loop; checked accounts end settled, the rest stay claimed, no other account changes |
| `Client.SeedrClient.CheckClaimed` | rssbox/seedr_client.py:201-236 | with the corrected log messages of `CheckOne` (see Findings): the accounts checked in order end settled, the rest unchanged, until a reset raises |
| `Client.SeedrClient.BeginDownload` | rssbox/seedr_client.py:251-267 | tries distinct pending downloads, stopping when they run out, when no account is free, or on an exception; each one placed is PROCESSING under the name in the reply to adding it, on a formerly free account now DOWNLOADING it; no other download and no busy account changes |
| `Client.SeedrClient.PlaceOne` | rssbox/seedr_client.py:252-267 | one turn of the loop: earlier placements are kept, and the download is added to them exactly when an account took it |
| `Client.PlacedStep` | rssbox/seedr_client.py:252-267 | a turn keeps every earlier placement: the account it claims was free, hence none already downloading, and no other download changes |
| `Client.SeedrClient.AddToFreeSeedr` | rssbox/seedr_client.py:255-267 | no free account exactly when nothing is claimed; else only the claimed free account and this download change: on acceptance the account is DOWNLOADING it since `now`, unlocked, and the download PROCESSING; on refusal the account is IDLE |
| `Client.SeedrClient.Start` | rssbox/seedr_client.py:46-49 | begin, check, then stop the heartbeat; an exception leaves it running; with the corrected log messages of `CheckOne` (see Findings), unique urls and a password on every account, the heartbeat is stopped whenever `begin_download` did not raise |

## Left out

- The Seedr web API is not modelled: login, listing, fetch links, `purge` and
  `addTorrent`. Its answers are parameters: a login token, a listing per account
  and a reply to adding each download, looked up by the download (each is tried at
  most once per run, so an account that refused one download may take the next).
- HTTP downloads, the local filesystem, the Deta drives and the `files` base are
  modelled only through the history of download and upload calls.
- MD5 digests are kept symbolic. `created_at` is an integer time, not an ISO string.
- The clock is a parameter (`now`), and times are integer seconds. Naive and aware
  datetimes are not told apart: a watermark reloaded from `datetime.now()`
  without a time zone would make the comparison in `check` raise in Python.
- Feed fetching and parsing are not modelled: the feed is a sequence of entries
  with publication times, so `mktime` and time zones are left out. The callback is
  represented by its reply.
- Of the scheduler, only its table of jobs is modelled. `WorkerHandler.start`
  (a job every 40 seconds) is not modelled, since the cleanup's effect is what is
  proved.
- MongoDB concurrency and transactions are not modelled: operations run one at a
  time. Each atomic `find_one_and_update` is one step whose choice of document
  is left open.
- `Client.SeedrClient.BeginDownload` iterates over the PENDING downloads present
  at the start. It does not follow a live cursor that would see later inserts.
- `Client.SeedrClient.GetDownloadsToCheck` uses one login token for every login
  in a run.
- `Client.SeedrClient.constructor` takes the worker id as a parameter instead of
  generating it with nanoid.
- `Files.FileHandler.ProcessFolder` splits the two loops of `process_folder` into
  the methods `ProcessFiles` and `ProcessFolders`.
- `Files.FileHandler.DownloadFile` takes every fetch from Seedr to answer HTTP
  200. The other branch returns None without writing the file, after which
  `upload_file`'s `drive.put` raises on the missing path and ends the walk. That
  failure path is not modelled.
- `Files.DownloadLeavesFile` rests on the same assumption: a fetch always writes
  the file with its Seedr size (`Files.SizeAfter`).
- `Config.DownloadPath` does not collapse "." and ".." segments or repeated
  slashes (`normpath`).
- `Paths.Lower` lower-cases ASCII letters only. Other letters are kept as they are.
- Logging is not modelled. `__main__.py` and the start-up code of `__init__.py`
  are not modelled, apart from the collections and the unique index they create.
- `utils.delete_file` is modelled only by its effect: the removed directory
  disappears with everything under it.

## Findings

| source | as written | input that shows it | evidently intended | confidence | as-written member | corrected member |
|---|---|---|---|---|---|---|
| rssbox/modules/watchrss.py:80 | the first entry's time is read before checking whether there are entries | a feed with no entries: `parsed.entries[0]` raises IndexError | an empty feed delivers nothing and keeps the watermark | high, not executed | `WatchRss.EmptyFeedRaises` | `WatchRss.NextWatermark` |
| rssbox/seedr_client.py:79 | `SeedrStatus.DOWNLOAD_CHECKING` is used, but enum.py declares no such member | constructing any `SeedrClient`: the cleanup's pipeline reads the member and raises AttributeError | DOWNLOAD_CHECKING is a status stored and read like the others | high, not executed | `Enums.DownloadCheckingHasNoMember` | `Enums.FromValueWithChecking` |
| rssbox/seedr_client.py:219 | the timeout message reads `seedr.download_name` (and `seedr.key`), which `Seedr` does not define | a claimed account whose download has no folder, file or torrent in the listing and was added more than an hour ago: `download_timeout` idles and saves it, then the message raises AttributeError. The loop ends, the accounts not yet checked stay DOWNLOAD_CHECKING and locked, and `start` never stops the heartbeat | the message names the download, and the loop goes on | high, not executed | `Client.SeedrClient.CheckOneAsWritten` | `Client.SeedrClient.CheckOne` |
| rssbox/seedr_client.py:205 | the message for an account without a download reads `seedr.key`, which `Seedr` does not define | a claimed account whose `download_id` names no stored download: the message raises AttributeError before `mark_as_idle`, so this account and the later ones stay DOWNLOAD_CHECKING and locked | the account is idled and the loop goes on | medium, not executed (the base class from `seedrcc` is not part of this model) | `Client.SeedrClient.CheckOneAsWritten` | `Client.SeedrClient.CheckOne` |
