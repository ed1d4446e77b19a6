/**
 * rssbox/seedr_client.py: the worker that moves downloads through Seedr accounts. It
 * claims free accounts for pending downloads (`begin_download`), claims accounts whose
 * torrents may have finished (`get_downloads_to_check`), and decides for each of those
 * whether to upload, wait, or give up (`check_downloads`). Every claim is one atomic
 * `find_one_and_update`; which matching document it picks is left open.
 *
 * This module uses `SeedrStatus.DownloadChecking`, which enum.py does not define (see
 * module Enums): with the enumeration as written these methods raise AttributeError at
 * their first use of it. The model states what the code evidently means.
 */
module Client {
  import opened Common
  import opened Enums
  import opened Store
  import opened Downloads
  import opened Listing
  import opened Seedrs
  import opened Files
  import opened Heartbeats
  import opened Workers

  /** How many accounts `get_downloads_to_check` looks at (`limit(5)`). */
  const CheckLimit: nat := 5

  /** The filter of `get_free_seedr`: status IDLE, missing, or "". */
  predicate Free(acc: Account) {
    acc.status == Status(Idle) || acc.status.Absent? || acc.status.Blank?
  }

  /**
   * Account `a`, free in `before`, is in `after` DOWNLOADING download `k` since `now`,
   * and unlocked: what `mark_as_downloading` leaves.
   */
  predicate Started(before: map<Id, Account>, after: map<Id, Account>, a: Id, k: Id, now: int) {
    a in before && Free(before[a]) && a in after &&
    after[a].status == Status(Downloading) && after[a].downloadId == Some(k) &&
    after[a].addedAt == Some(now) && after[a].lockedBy == None
  }

  /** Every account document has a `password`, so no `Seedr` raises KeyError. */
  predicate WithPasswords(accounts: map<Id, Account>) {
    forall k :: k in accounts ==> accounts[k].password.Some?
  }

  /**
   * What `begin_download` has started, from the accounts `before` and downloads
   * `downloads0` to `accounts` and `downloads`: each download `k` in `placed` is
   * DOWNLOADING on the formerly free account `placed[k]`, and PROCESSING under the
   * name in that account's reply.
   */
  predicate Placed(before: map<Id, Account>, downloads0: map<Id, DownloadRecord>,
                   accounts: map<Id, Account>, downloads: map<Id, DownloadRecord>,
                   placed: map<Id, Id>, replies: Id -> RawReply, now: int)
  {
    forall k :: k in placed ==>
      Started(before, accounts, placed[k], k, now) && k in downloads0 && k in downloads &&
      ParseReply(replies(k)).Ok? &&
      downloads[k] == ProcessingRecord(downloads0[k], ParseReply(replies(k)).value.name)
  }

  /**
   * One turn of `begin_download` keeps `Placed`: the account it claims was free, so it
   * is none of the accounts already downloading, and it changes no other download.
   */
  lemma PlacedStep(before: map<Id, Account>, downloads0: map<Id, DownloadRecord>,
                   accounts: map<Id, Account>, downloads: map<Id, DownloadRecord>,
                   accounts': map<Id, Account>, downloads': map<Id, DownloadRecord>,
                   placed: map<Id, Id>, replies: Id -> RawReply, now: int, k: Id, a: Id, started: bool)
    requires Placed(before, downloads0, accounts, downloads, placed, replies, now)
    requires k !in placed && a in accounts && Free(accounts[a]) && accounts.Keys == before.Keys
    requires forall b :: b in before && !Free(before[b]) ==> accounts[b] == before[b]
    requires accounts'.Keys == accounts.Keys && downloads'.Keys == downloads.Keys
    requires forall b :: b in accounts && b != a ==> accounts'[b] == accounts[b]
    requires forall j :: j in placed ==> downloads'[j] == downloads[j]
    requires started ==>
      Started(accounts, accounts', a, k, now) && k in downloads0 && k in downloads' && ParseReply(replies(k)).Ok? &&
      downloads'[k] == ProcessingRecord(downloads0[k], ParseReply(replies(k)).value.name)
    ensures Placed(before, downloads0, accounts', downloads', if started then placed[k := a] else placed, replies, now)
  {
    forall j | j in placed
      ensures Started(before, accounts', placed[j], j, now)
    {
      assert Started(before, accounts, placed[j], j, now);
      assert placed[j] != a;
    }
    if started {
      assert a in before && Free(before[a]);
    }
  }

  /** No account passes `get_free_seedr`'s filter. */
  predicate NoFreeAccount(accounts: map<Id, Account>) {
    forall k :: k in accounts ==> !Free(accounts[k])
  }

  /** The lock filter of `get_downloads_to_check`: `locked_by` missing, null or "". */
  predicate Unlocked(acc: Account) {
    acc.lockedBy.None? || acc.lockedBy == Some("")
  }

  /** The filter of the `find` in `get_downloads_to_check`: DOWNLOADING and unlocked. */
  predicate ToCheck(acc: Account) {
    acc.status == Status(Downloading) && Unlocked(acc)
  }

  /** The `$set` of `get_free_seedr`: PROCESSING and locked by `worker`; nothing else changes. */
  function ClaimedForProcessing(acc: Account, worker: Id): (r: Account)
    ensures r.status == Status(SeedrStatus.Processing) && r.lockedBy == Some(worker)
    ensures r.(status := acc.status, lockedBy := acc.lockedBy) == acc
  {
    acc.(status := Status(SeedrStatus.Processing), lockedBy := Some(worker))
  }

  /** The `$set` of a check claim: DOWNLOAD_CHECKING and locked by `worker`; nothing else changes. */
  function ClaimedForChecking(acc: Account, worker: Id): (r: Account)
    ensures r.status == Status(DownloadChecking) && r.lockedBy == Some(worker)
    ensures r.(status := acc.status, lockedBy := acc.lockedBy) == acc
  {
    acc.(status := Status(DownloadChecking), lockedBy := Some(worker))
  }

  /**
   * The accounts after the check claims for `ks`, one `find_one_and_update` each, in
   * order: an account is claimed when it exists and is still unlocked at its turn.
   */
  function ClaimsAfter(accounts: map<Id, Account>, ks: seq<Id>, worker: Id): (r: map<Id, Account>)
    ensures r.Keys == accounts.Keys
    decreases |ks|
  {
    if ks == [] then accounts
    else
      var a := ClaimsAfter(accounts, ks[..|ks| - 1], worker);
      var k := ks[|ks| - 1];
      if k in a && Unlocked(a[k]) then a[k := ClaimedForChecking(a[k], worker)] else a
  }

  /** The ids those claims succeeded for, in order (`locked_accounts`). */
  function ClaimedIds(accounts: map<Id, Account>, ks: seq<Id>, worker: Id): (r: seq<Id>)
    ensures |r| <= |ks|
    ensures forall k :: k in r ==> k in ks && k in accounts
    decreases |ks|
  {
    if ks == [] then []
    else
      var a := ClaimsAfter(accounts, ks[..|ks| - 1], worker);
      var k := ks[|ks| - 1];
      ClaimedIds(accounts, ks[..|ks| - 1], worker) + (if k in a && Unlocked(a[k]) then [k] else [])
  }

  /**
   * An account that is locked when the claims start is never taken over: it is not
   * claimed and stays as it was. An account none of the claims names stays as it was too.
   */
  lemma {:induction false} ClaimsSkipLocked(accounts: map<Id, Account>, ks: seq<Id>, worker: Id, k: Id)
    requires k in accounts && (!Unlocked(accounts[k]) || k !in ks)
    ensures k !in ClaimedIds(accounts, ks, worker)
    ensures ClaimsAfter(accounts, ks, worker)[k] == accounts[k]
    decreases |ks|
  {
    if ks != [] {
      assert k !in ks ==> k !in ks[..|ks| - 1];
      ClaimsSkipLocked(accounts, ks[..|ks| - 1], worker, k);
    }
  }

  /** Every claimed account ends DOWNLOAD_CHECKING and locked by this worker. */
  lemma {:induction false} ClaimsLock(accounts: map<Id, Account>, ks: seq<Id>, worker: Id, k: Id)
    requires k in ClaimedIds(accounts, ks, worker)
    ensures ClaimsAfter(accounts, ks, worker)[k] == ClaimedForChecking(accounts[k], worker)
    decreases |ks|
  {
    var init := ks[..|ks| - 1];
    var a := ClaimsAfter(accounts, init, worker);
    var last := ks[|ks| - 1];
    if k in ClaimedIds(accounts, init, worker) {
      ClaimsLock(accounts, init, worker, k);
      if last == k && Unlocked(a[k]) {
        assert a[k] == ClaimedForChecking(accounts[k], worker);
      }
    } else {
      assert k == last && k in a && Unlocked(a[k]);
      if k in init {
        // Its earlier turn failed, so it was already locked and has stayed so.
        ClaimsUnlockedEarlier(accounts, init, worker, k);
      } else {
        ClaimsSkipLocked(accounts, init, worker, k);
      }
    }
  }

  /** An id that an earlier claim named without success stays locked afterwards. */
  lemma {:induction false} ClaimsUnlockedEarlier(accounts: map<Id, Account>, ks: seq<Id>, worker: Id, k: Id)
    requires k in ks && k in accounts && k !in ClaimedIds(accounts, ks, worker)
    ensures ClaimsAfter(accounts, ks, worker)[k] == accounts[k] && !Unlocked(accounts[k])
    decreases |ks|
  {
    var init := ks[..|ks| - 1];
    var last := ks[|ks| - 1];
    if k in init {
      ClaimsUnlockedEarlier(accounts, init, worker, k);
    } else {
      ClaimsSkipLocked(accounts, init, worker, k);
    }
  }

  /** One more claim: the claims for `ks[..i + 1]` are those for `ks[..i]` followed by a claim of `ks[i]`. */
  lemma ClaimsSnoc(accounts: map<Id, Account>, ks: seq<Id>, i: int, worker: Id)
    requires 0 <= i < |ks|
    ensures var a := ClaimsAfter(accounts, ks[..i], worker);
            var k := ks[i];
            var ok := k in a && Unlocked(a[k]);
            ClaimsAfter(accounts, ks[..i + 1], worker) == (if ok then a[k := ClaimedForChecking(a[k], worker)] else a) &&
            ClaimedIds(accounts, ks[..i + 1], worker) == ClaimedIds(accounts, ks[..i], worker) + (if ok then [k] else [])
  {
    assert ks[..i + 1][..i] == ks[..i];
  }

  /** `find_seedr`'s first loop: the index of the first folder named `name`, or the folder count. */
  function FolderIndex(folders: seq<Tree>, name: string): (i: nat)
    ensures i <= |folders|
    ensures i < |folders| ==> folders[i].info.name == name
    ensures forall j :: 0 <= j < i ==> folders[j].info.name != name
  {
    if folders == [] then 0
    else if folders[0].info.name == name then 0
    else 1 + FolderIndex(folders[1..], name)
  }

  /** `find_seedr`'s second loop: the index of the first file named `name`, or the file count. */
  function FileIndex(files: seq<SeedrFile>, name: string): (i: nat)
    ensures i <= |files|
    ensures i < |files| ==> files[i].name == name
    ensures forall j :: 0 <= j < i ==> files[j].name != name
  {
    if files == [] then 0
    else if files[0].name == name then 0
    else 1 + FileIndex(files[1..], name)
  }

  /** The name of what `find_seedr` returns. */
  function ItemName(item: Item): string {
    match item
    case FileItem(f) => f.name
    case FolderItem(t) => t.info.name
  }

  /**
   * `find_seedr(download, listing)`: the first folder named like the download, else
   * the first file so named, else nothing; a folder wins over a file.
   */
  function FindSeedr(name: string, listing: SeedrList): (r: Option<Item>)
    ensures r.Some? ==> ItemName(r.value) == name
    ensures r.None? <==>
      (forall i :: 0 <= i < |listing.folders| ==> listing.folders[i].info.name != name) &&
      (forall i :: 0 <= i < |listing.files| ==> listing.files[i].name != name)
    ensures (exists i :: 0 <= i < |listing.folders| && listing.folders[i].info.name == name) ==>
      r.Some? && r.value.FolderItem? && r.value.folder in listing.folders
    ensures r.Some? && r.value.FileItem? ==> r.value.file in listing.files
  {
    var i := FolderIndex(listing.folders, name);
    if i < |listing.folders| then Some(FolderItem(listing.folders[i]))
    else
      var j := FileIndex(listing.files, name);
      if j < |listing.files| then Some(FileItem(listing.files[j])) else None
  }

  /** A torrent with the download's name is still in the account (the loop over `torrents`). */
  predicate TorrentNamed(torrents: seq<SeedrTorrent>, name: string) {
    exists t :: t in torrents && t.name == name
  }

  /** What `check_downloads` does with one claimed account. */
  datatype Decision =
    | NoLinkedDownload   // no download: the account is idled
    | UploadFound(item: Item)   // found in the listing: uploaded, account idled, download deleted
    | TimedOutIdle       // not found and timed out: the account is idled
    | StillDownloading   // a torrent of that name is running: DOWNLOADING, unlocked
    | ResetDownload      // otherwise: the account is idled, the download back to PENDING

  /**
   * The decision table of `check_downloads` for an account whose download is named
   * `download` (`None` when it has none), given its listing and whether it timed out.
   */
  function Decide(download: Option<string>, listing: SeedrList, timedOut: bool): (d: Decision)
    ensures d.NoLinkedDownload? <==> download.None?
    ensures d.UploadFound? <==> download.Some? && FindSeedr(download.value, listing).Some?
    ensures d.UploadFound? ==> FindSeedr(download.value, listing) == Some(d.item)
    ensures d.TimedOutIdle? <==> download.Some? && FindSeedr(download.value, listing).None? && timedOut
    ensures d.StillDownloading? <==>
      download.Some? && FindSeedr(download.value, listing).None? && !timedOut && TorrentNamed(listing.torrents, download.value)
    ensures d.ResetDownload? <==>
      download.Some? && FindSeedr(download.value, listing).None? && !timedOut && !TorrentNamed(listing.torrents, download.value)
  {
    if download.None? then NoLinkedDownload
    else
      match FindSeedr(download.value, listing)
      case Some(item) => UploadFound(item)
      case None =>
        if timedOut then TimedOutIdle
        else if TorrentNamed(listing.torrents, download.value) then StillDownloading
        else ResetDownload
  }

  /** The loop over the torrents: true exactly when some torrent has the name. */
  method AnyTorrentNamed(torrents: seq<SeedrTorrent>, name: string) returns (found: bool)
    ensures found <==> TorrentNamed(torrents, name)
  {
    found := false;
    var i := 0;
    while i < |torrents|
      invariant 0 <= i <= |torrents|
      invariant !found <==> forall j :: 0 <= j < i ==> torrents[j].name != name
    {
      if torrents[i].name == name {
        found := true;
        break;
      }
      i := i + 1;
    }
  }

  /** No id occurs twice (the ids a query returns). */
  predicate Distinct(ks: seq<Id>) {
    forall i, j :: 0 <= i < j < |ks| ==> ks[i] != ks[j]
  }

  /** When the ids are distinct and all name unlocked accounts, every claim succeeds. */
  lemma {:induction false} AllClaimed(accounts: map<Id, Account>, ks: seq<Id>, worker: Id)
    requires Distinct(ks)
    requires forall k :: k in ks ==> k in accounts && Unlocked(accounts[k])
    ensures ClaimedIds(accounts, ks, worker) == ks
    decreases |ks|
  {
    if ks != [] {
      var init := ks[..|ks| - 1];
      var k := ks[|ks| - 1];
      forall i | 0 <= i < |init| ensures init[i] != k {
        assert init[i] == ks[i];
      }
      AllClaimed(accounts, init, worker);
      ClaimsSkipLocked(accounts, init, worker, k);
      assert init + [k] == ks;
    }
  }

  /** The first `i + 1` ids are the first `i` and then the `i`-th. */
  lemma PrefixSnoc(ks: seq<Id>, i: nat)
    requires i < |ks|
    ensures ks[..i + 1] == ks[..i] + [ks[i]]
  {
  }

  /** A document claimed for checking reads back; `Seedr` raises on it only for want of credentials. */
  lemma ClaimedLoadable(acc: Account, worker: Id)
    ensures Loadable(ClaimedForChecking(acc, worker)) <==> !NoCredentials(acc)
  {
    assert ReadAccount(ClaimedForChecking(acc, worker)).Ok?;
  }

  /** Appending an id not yet present keeps a sequence of ids duplicate-free. */
  lemma DistinctSnoc(ks: seq<Id>, k: Id)
    requires Distinct(ks) && k !in ks
    ensures Distinct(ks + [k])
  {
  }

  /**
   * The stored document after `Seedr(client, account)` reads `acc`: when it has no
   * usable token, the login's token is saved together with the fields as read. A
   * document on which `Seedr` raises (see `Loadable`) is left as it is.
   */
  function LoggedIn(acc: Account, loginToken: string): (r: Account)
    ensures Loadable(acc) && !Truthy(acc.token) ==>
      ReadAccount(r) == Ok(ReadAccount(acc).value.(token := Some(loginToken)))
    ensures !Loadable(acc) || Truthy(acc.token) ==> r == acc
    ensures r.password == acc.password
  {
    if !Loadable(acc) || Truthy(acc.token) then acc
    else WriteAccount(acc, ReadAccount(acc).value.(token := Some(loginToken)))
  }

  /**
   * For a document holding a status value the login's save changes only the token and
   * the priority, which becomes 0 when it was missing.
   */
  lemma LoginChangesOnlyToken(acc: Account, loginToken: string)
    requires acc.status.Status? && !Truthy(acc.token) && acc.password.Some?
    ensures LoggedIn(acc, loginToken).(token := acc.token, priority := acc.priority) == acc
    ensures LoggedIn(acc, loginToken).token == Some(loginToken)
    ensures LoggedIn(acc, loginToken).priority == Some(acc.priority.GetOr(0))
  {
  }

  /**
   * `get_free_seedr` hands `Seedr` the document as it was before the claim. When that
   * document has no usable token, the login saves it back, status and lock included:
   * the account is free again in the store while this worker goes on using it.
   */
  lemma LoginUndoesProcessingClaim(acc: Account, worker: Id, loginToken: string)
    requires Free(acc) && !acc.status.Blank? && !Truthy(acc.token)
    ensures var saved := SaveTo(map[worker := ClaimedForProcessing(acc, worker)], worker,
                                ReadAccount(acc).value.(token := Some(loginToken)));
            Free(saved[worker]) && saved[worker].lockedBy == acc.lockedBy
  {
  }

  /** An account as `check_downloads` leaves it: unlocked, and IDLE or DOWNLOADING. */
  predicate Settled(acc: Account) {
    acc.lockedBy == None && (acc.status == Status(Idle) || acc.status == Status(Downloading))
  }

  /** The name of the download the `download` property finds, if it finds one. */
  function LinkedName(downloadId: Option<Id>, downloads: map<Id, DownloadRecord>): (r: Option<string>)
    ensures r.Some? <==> Linked(downloadId, downloads)
    ensures r.Some? ==> r.value == downloads[downloadId.value].name
  {
    if Linked(downloadId, downloads) then Some(downloads[downloadId.value].name) else None
  }

  /** Why `begin_download` stopped. */
  datatype Stop =
    | Exhausted           // every pending download was handed to an account
    | NoFreeSeedr         // no free account was left
    | Aborted(error: string)  // an exception ended the loop

  /**
   * The `find(...).limit(5)` of `get_downloads_to_check`: distinct DOWNLOADING,
   * unlocked accounts, as many as there are up to five, in an order the database picks.
   */
  method FindToCheck(accounts: map<Id, Account>) returns (ks: seq<Id>)
    ensures Distinct(ks) && |ks| <= CheckLimit
    ensures forall k :: k in ks ==> k in accounts && ToCheck(accounts[k])
    ensures |ks| < CheckLimit ==> forall k :: k in accounts && ToCheck(accounts[k]) ==> k in ks
  {
    var rest := set k | k in accounts && ToCheck(accounts[k]);
    ks := [];
    while rest != {} && |ks| < CheckLimit
      invariant Distinct(ks) && |ks| <= CheckLimit
      invariant forall k :: k in ks ==> k in accounts && ToCheck(accounts[k]) && k !in rest
      invariant forall k :: k in rest ==> k in accounts && ToCheck(accounts[k])
      invariant forall k :: k in accounts && ToCheck(accounts[k]) ==> k in ks || k in rest
      decreases |rest|
    {
      var k :| k in rest;
      ks := ks + [k];
      rest := rest - {k};
    }
  }

  class SeedrClient {
    const id: Id
    const db: Database
    const heartbeat: Heartbeat
    const handler: FileHandler

    /**
     * `SeedrClient(accounts, downloads, workers, scheduler)`: the worker id (a nanoid,
     * here a parameter) starts beating, then `clean_stale_seedrs_and_workers` deletes
     * the stale workers and releases the accounts of this file's cleanup. The worker's
     * own fresh beat keeps it out of the stale set.
     */
    constructor (id: Id, db: Database, scheduler: Scheduler, settings: Settings, world: World, now: int)
      requires HeartbeatId(id) !in scheduler.jobs
      requires settings.variant.ClientVariant?
      modifies db`workers, db`accounts, scheduler`jobs
      ensures this.id == id && this.db == db && heartbeat.db == db && heartbeat.id == id
      ensures handler.settings == settings && handler.world == world && fresh(handler)
      ensures scheduler.jobs == old(scheduler.jobs)[HeartbeatId(id) := Job(id, Interval)]
      ensures var beaten := Beaten(old(db.workers), id, now);
              var threshold := now - StaleAfter;
              db.workers == Survivors(beaten, threshold) &&
              db.accounts == ReleasedAccounts(ClientCleanup, old(db.accounts),
                MatchedAccounts(ClientCleanup, old(db.accounts), db.workers, StaleIds(beaten, threshold), threshold))
      ensures id in db.workers
      ensures AccountsHeld(ClientCleanup, db.accounts, db.workers, now - StaleAfter)
    {
      this.id := id;
      this.db := db;
      heartbeat := new Heartbeat(id, db, scheduler, now);
      handler := new FileHandler(settings, world);
      new;
      var threshold := now - StaleAfter;
      ghost var beaten := db.workers;
      OnScheduleSurvives(beaten, id, now);
      var staleIds := DeleteStaleWorkers(db, threshold);
      ReleaseOrphanedAccounts(db, ClientCleanup, staleIds, threshold);
      AccountCleanupLeavesNoOrphans(ClientCleanup, old(db.accounts), db.workers, staleIds, threshold);
    }

    /**
     * `get_free_seedr()`: one account passing the free filter, chosen by the database,
     * is set PROCESSING and locked by this worker; `Seedr` is built from the document
     * as it was before (the default of `find_one_and_update`). Nothing is claimed when
     * no account is free. When `Seedr` raises on the claimed document (ValueError on
     * an empty status, KeyError on a missing password) it does so after the claim, and
     * `s` is null.
     */
    method GetFreeSeedr(loginToken: string) returns (claimed: Option<Id>, s: Seedr?)
      modifies db`accounts
      ensures claimed.None? <==> NoFreeAccount(old(db.accounts))
      ensures claimed.None? ==> s == null && db.accounts == old(db.accounts)
      ensures claimed.Some? ==> claimed.value in old(db.accounts) && Free(old(db.accounts)[claimed.value])
      ensures db.accounts.Keys == old(db.accounts).Keys
      ensures forall b :: b in old(db.accounts) && Some(b) != claimed ==> db.accounts[b] == old(db.accounts)[b]
      ensures forall b :: b in old(db.accounts) ==> db.accounts[b].password == old(db.accounts)[b].password
      ensures claimed.Some? ==>
        var k := claimed.value;
        var before := old(db.accounts)[k];
        var after := old(db.accounts)[k := ClaimedForProcessing(before, id)];
        (s == null <==> !Loadable(before)) &&
        (s == null ==> db.accounts == after) &&
        (s != null ==> fresh(s) && s.id == k && s.db == db && s.cached == null &&
                       ReadAccount(LoggedIn(before, loginToken)) == Ok(s.State()) &&
                       db.accounts == (if Truthy(before.token) then after else SaveTo(after, k, s.State())))
    {
      if k :| k in db.accounts && Free(db.accounts[k]) {
        var before := db.accounts[k];
        db.accounts := db.accounts[k := ClaimedForProcessing(before, id)];
        claimed := Some(k);
        if !Loadable(before) {
          s := null;
        } else {
          s := new Seedr.Load(db, k, before, loginToken);
        }
      } else {
        claimed, s := None, null;
      }
    }

    /**
     * The loop of `get_downloads_to_check` over the accounts found: each still
     * unlocked one is claimed for checking, and the document after the claim kept.
     */
    method ClaimForChecking(ks: seq<Id>) returns (claimed: seq<Id>, docs: seq<Account>)
      requires Distinct(ks)
      modifies db`accounts
      ensures claimed == ClaimedIds(old(db.accounts), ks, id)
      ensures db.accounts == ClaimsAfter(old(db.accounts), ks, id)
      ensures |docs| == |claimed|
      ensures forall i :: 0 <= i < |docs| ==> docs[i] == ClaimedForChecking(old(db.accounts)[claimed[i]], id)
    {
      claimed, docs := [], [];
      var i := 0;
      while i < |ks|
        invariant 0 <= i <= |ks|
        invariant claimed == ClaimedIds(old(db.accounts), ks[..i], id)
        invariant db.accounts == ClaimsAfter(old(db.accounts), ks[..i], id)
        invariant |docs| == |claimed|
        invariant forall j :: 0 <= j < |docs| ==> docs[j] == ClaimedForChecking(old(db.accounts)[claimed[j]], id)
      {
        var k := ks[i];
        ClaimsSnoc(old(db.accounts), ks, i, id);
        if k in db.accounts && Unlocked(db.accounts[k]) {
          assert k !in ks[..i];
          ClaimsSkipLocked(old(db.accounts), ks[..i], id, k);
          db.accounts := db.accounts[k := ClaimedForChecking(db.accounts[k], id)];
          claimed := claimed + [k];
          docs := docs + [db.accounts[k]];
        }
        i := i + 1;
      }
      assert ks[..i] == ks;
    }

    /**
     * `get_downloads_to_check()`: up to five DOWNLOADING, unlocked accounts are found
     * and each is claimed for checking; a `Seedr` is built from each claimed document
     * (a login saves the ones without a usable token). Nothing else changes. Fewer
     * `seedrs` than `checked` accounts means the comprehension raised KeyError on the
     * first account with neither token nor password, leaving it and the rest claimed.
     */
    method GetDownloadsToCheck(loginToken: string) returns (checked: seq<Id>, seedrs: seq<Seedr>)
      modifies db`accounts
      ensures Distinct(checked) && |checked| <= CheckLimit
      ensures forall k :: k in checked ==> k in old(db.accounts) && ToCheck(old(db.accounts)[k])
      ensures |checked| < CheckLimit ==>
        forall k :: k in old(db.accounts) && ToCheck(old(db.accounts)[k]) ==> k in checked
      ensures db.accounts.Keys == old(db.accounts).Keys
      ensures forall k :: k in old(db.accounts) && k !in checked ==> db.accounts[k] == old(db.accounts)[k]
      ensures |seedrs| <= |checked|
      ensures |seedrs| < |checked| ==> NoCredentials(old(db.accounts)[checked[|seedrs|]])
      ensures forall i :: 0 <= i < |seedrs| ==> !NoCredentials(old(db.accounts)[checked[i]])
      ensures forall i :: 0 <= i < |checked| ==>
        var claimed := ClaimedForChecking(old(db.accounts)[checked[i]], id);
        db.accounts[checked[i]] == if i < |seedrs| then LoggedIn(claimed, loginToken) else claimed
      ensures forall i :: 0 <= i < |seedrs| ==>
        fresh(seedrs[i]) && seedrs[i].id == checked[i] && seedrs[i].db == db && seedrs[i].cached == null &&
        ReadAccount(db.accounts[checked[i]]) == Ok(seedrs[i].State())
    {
      checked := ClaimToCheck();
      seedrs := LoadClaimed(checked, loginToken);
      if |seedrs| < |checked| {
        ClaimedLoadable(old(db.accounts)[checked[|seedrs|]], id);
      }
      forall i | 0 <= i < |seedrs|
        ensures !NoCredentials(old(db.accounts)[checked[i]])
      {
        ClaimedLoadable(old(db.accounts)[checked[i]], id);
      }
    }

    /**
     * The `find` of `get_downloads_to_check` and the claims that follow it: every
     * account found is still unlocked, so each is claimed for checking.
     */
    method ClaimToCheck() returns (ks: seq<Id>)
      modifies db`accounts
      ensures Distinct(ks) && |ks| <= CheckLimit
      ensures forall k :: k in ks ==> k in old(db.accounts) && ToCheck(old(db.accounts)[k])
      ensures |ks| < CheckLimit ==>
        forall k :: k in old(db.accounts) && ToCheck(old(db.accounts)[k]) ==> k in ks
      ensures db.accounts.Keys == old(db.accounts).Keys
      ensures forall k :: k in old(db.accounts) && k !in ks ==> db.accounts[k] == old(db.accounts)[k]
      ensures forall i :: 0 <= i < |ks| ==> db.accounts[ks[i]] == ClaimedForChecking(old(db.accounts)[ks[i]], id)
    {
      ks := FindToCheck(db.accounts);
      AllClaimed(db.accounts, ks, id);
      var claimed, _ := ClaimForChecking(ks);
      forall k | k in old(db.accounts)
        ensures db.accounts[k] == if k in ks then ClaimedForChecking(old(db.accounts)[k], id) else old(db.accounts)[k]
      {
        if k in ks {
          ClaimsLock(old(db.accounts), ks, id, k);
        } else {
          ClaimsSkipLocked(old(db.accounts), ks, id, k);
        }
      }
    }

    /**
     * The comprehension that ends `get_downloads_to_check`: `Seedr` on each claimed
     * document in turn, each login saving only its own account, until one raises;
     * `seedrs` holds the objects built before that.
     */
    method LoadClaimed(ks: seq<Id>, loginToken: string) returns (seedrs: seq<Seedr>)
      requires Distinct(ks)
      requires forall k :: k in ks ==> k in db.accounts
      modifies db`accounts
      ensures |seedrs| <= |ks|
      ensures |seedrs| < |ks| ==> !Loadable(old(db.accounts)[ks[|seedrs|]])
      ensures forall i :: 0 <= i < |seedrs| ==> Loadable(old(db.accounts)[ks[i]])
      ensures db.accounts.Keys == old(db.accounts).Keys
      ensures forall k :: k in old(db.accounts) && k !in ks ==> db.accounts[k] == old(db.accounts)[k]
      ensures forall i :: 0 <= i < |ks| ==>
        db.accounts[ks[i]] == if i < |seedrs| then LoggedIn(old(db.accounts)[ks[i]], loginToken) else old(db.accounts)[ks[i]]
      ensures forall i :: 0 <= i < |seedrs| ==>
        fresh(seedrs[i]) && seedrs[i].id == ks[i] && seedrs[i].db == db && seedrs[i].cached == null &&
        ReadAccount(db.accounts[ks[i]]) == Ok(seedrs[i].State())
    {
      seedrs := [];
      var i := 0;
      while i < |ks| && Loadable(db.accounts[ks[i]])
        invariant 0 <= i <= |ks| && |seedrs| == i
        invariant db.accounts.Keys == old(db.accounts).Keys
        invariant forall k :: k in old(db.accounts) && k !in ks ==> db.accounts[k] == old(db.accounts)[k]
        invariant forall j :: 0 <= j < |ks| ==>
          db.accounts[ks[j]] == if j < i then LoggedIn(old(db.accounts)[ks[j]], loginToken) else old(db.accounts)[ks[j]]
        invariant forall j :: 0 <= j < i ==> Loadable(old(db.accounts)[ks[j]])
        invariant forall j :: 0 <= j < i ==>
          fresh(seedrs[j]) && seedrs[j].id == ks[j] && seedrs[j].db == db && seedrs[j].cached == null &&
          ReadAccount(db.accounts[ks[j]]) == Ok(seedrs[j].State())
      {
        var k := ks[i];
        assert forall j :: 0 <= j < |ks| && j != i ==> ks[j] != k;
        var s := LoadOne(k, loginToken);
        seedrs := seedrs + [s];
        i := i + 1;
      }
    }

    /** `get_seedr(account)` for the stored document of `k`, on which `Seedr` returns. */
    method LoadOne(k: Id, loginToken: string) returns (s: Seedr)
      requires k in db.accounts && Loadable(db.accounts[k])
      modifies db`accounts
      ensures fresh(s) && s.id == k && s.db == db && s.cached == null
      ensures db.accounts == old(db.accounts)[k := LoggedIn(old(db.accounts)[k], loginToken)]
      ensures ReadAccount(db.accounts[k]) == Ok(s.State())
    {
      s := new Seedr.Load(db, k, db.accounts[k], loginToken);
    }

    /**
     * `upload(seedr, item)`: the account is marked UPLOADING by this worker, the file or
     * folder is transferred, and the account is completed (idled, its download deleted).
     */
    method Upload(seedr: Seedr, item: Item, now: int) returns (outcome: Outcome)
      requires seedr.db == db && seedr.Valid()
      modifies seedr`status, seedr`addedAt, seedr`downloadId, seedr`lockedBy, seedr`cached
      modifies db`accounts, db`downloads, handler`world
      ensures seedr.Valid() && seedr.cached == old(seedr.cached)
      ensures seedr.State() == Idled(old(seedr.State()))
      ensures seedr.db.accounts == SaveTo(old(seedr.db.accounts), seedr.id, seedr.State())
      ensures handler.world ==
        old(handler.world).(calls := old(handler.world).calls + CallsFor(AcceptedItem(item, handler.settings.exts), now))
      ensures outcome == (if seedr.cached == null then NoDownload else Done)
      ensures seedr.db.downloads ==
        if seedr.cached == null then old(seedr.db.downloads) else old(seedr.db.downloads) - {seedr.cached.id}
      ensures old(UniqueUrls(seedr.db.downloads)) ==> UniqueUrls(seedr.db.downloads)
    {
      ghost var st0 := seedr.State();
      seedr.MarkAsUploading(id);
      var _ := handler.Upload(item, now);
      outcome := seedr.MarkAsCompleted();
      SaveOverwrites(old(seedr.db.accounts), seedr.id, UploadingBy(st0, id), seedr.State());
    }

    /**
     * The body of `check_downloads`' loop for one claimed account, given the account's
     * listing, with log messages that read only attributes `Seedr` has (for the code
     * as written see `CheckOneAsWritten`): the decision of `Decide`, carried out.
     * Every decision leaves the account unlocked and IDLE or DOWNLOADING, written back
     * by one or more saves. Only `reset` can raise (DuplicateKeyError from the
     * download's upsert), after the account has been saved.
     */
    method CheckOne(seedr: Seedr, listing: SeedrList, now: int) returns (d: Decision, outcome: Outcome)
      requires seedr.db == db && seedr.cached == null
      modifies seedr`status, seedr`addedAt, seedr`downloadId, seedr`lockedBy, seedr`cached
      modifies db`accounts, db`downloads, handler`world
      ensures d == Decide(LinkedName(old(seedr.downloadId), old(db.downloads)), listing,
                          TimedOut(old(seedr.addedAt), DefaultTimeout, now))
      ensures seedr.lockedBy == None && (seedr.status == Idle || seedr.status == SeedrStatus.Downloading)
      ensures db.accounts == SaveTo(old(db.accounts), seedr.id, seedr.State())
      ensures seedr.id in db.accounts ==> Settled(db.accounts[seedr.id])
      ensures d.StillDownloading? ==> seedr.State() == StatusUpdated(old(seedr.State()), SeedrStatus.Downloading)
      ensures !d.StillDownloading? ==> seedr.State() == Idled(old(seedr.State()))
      ensures outcome == Done || (d.ResetDownload? && outcome == DuplicateUrl)
      ensures d.UploadFound? ==> db.downloads == old(db.downloads) - {old(seedr.downloadId).value}
      ensures d.UploadFound? ==> (handler.world ==
        old(handler.world).(calls := old(handler.world).calls + CallsFor(AcceptedItem(d.item, handler.settings.exts), now)))
      ensures !d.UploadFound? ==> handler.world == old(handler.world)
      ensures d.ResetDownload? ==>
        var k := old(seedr.downloadId).value;
        (outcome == Done <==> UrlAvailable(old(db.downloads), k, old(db.downloads)[k].url)) &&
        db.downloads == if outcome == Done then old(db.downloads)[k := PendingRecord(old(db.downloads)[k])]
                        else old(db.downloads)
      ensures !d.UploadFound? && !d.ResetDownload? ==> db.downloads == old(db.downloads)
      ensures old(UniqueUrls(db.downloads)) ==> UniqueUrls(db.downloads) && outcome == Done
    {
      var download := seedr.CurrentDownload();
      if download == null {
        seedr.MarkAsIdle();
        d, outcome := NoLinkedDownload, Done;
        return;
      }
      var found := FindSeedr(download.name, listing);
      if found.Some? {
        outcome := Upload(seedr, found.value, now);
        d := UploadFound(found.value);
      } else {
        var timedOut := seedr.DownloadTimeout(now, DefaultTimeout);
        if timedOut {
          d, outcome := TimedOutIdle, Done;
        } else {
          var running := AnyTorrentNamed(listing.torrents, download.name);
          if running {
            seedr.UpdateStatus(SeedrStatus.Downloading);
            d, outcome := StillDownloading, Done;
          } else {
            outcome := seedr.Reset();
            d := ResetDownload;
          }
        }
      }
    }

    /**
     * The body of `check_downloads`' loop as written: the log message for an account
     * without a download reads `seedr.key`, and the one for a timed-out download reads
     * `seedr.download_name`, attributes `Seedr` is not known to have. The first raises
     * before the account is idled, the second after `download_timeout` has idled and
     * saved it; either exception ends the loop. The other decisions are as in `CheckOne`.
     */
    method CheckOneAsWritten(seedr: Seedr, listing: SeedrList, now: int) returns (d: Decision, outcome: Outcome)
      requires seedr.db == db && seedr.cached == null
      modifies seedr`status, seedr`addedAt, seedr`downloadId, seedr`lockedBy, seedr`cached
      modifies db`accounts, db`downloads, handler`world
      ensures d == Decide(LinkedName(old(seedr.downloadId), old(db.downloads)), listing,
                          TimedOut(old(seedr.addedAt), DefaultTimeout, now))
      ensures outcome == NoSuchAttribute <==> d.NoLinkedDownload? || d.TimedOutIdle?
      ensures d.NoLinkedDownload? ==>
        seedr.State() == old(seedr.State()) && db.accounts == old(db.accounts) && db.downloads == old(db.downloads)
      ensures d.TimedOutIdle? ==>
        seedr.State() == Idled(old(seedr.State())) && db.accounts == SaveTo(old(db.accounts), seedr.id, seedr.State()) &&
        db.downloads == old(db.downloads)
      ensures !d.NoLinkedDownload? && !d.TimedOutIdle? ==>
        seedr.lockedBy == None && (seedr.status == Idle || seedr.status == SeedrStatus.Downloading) &&
        db.accounts == SaveTo(old(db.accounts), seedr.id, seedr.State()) &&
        (outcome == Done || (d.ResetDownload? && outcome == DuplicateUrl))
    {
      var download := seedr.CurrentDownload();
      if download == null {
        d, outcome := NoLinkedDownload, NoSuchAttribute;
        return;
      }
      var found := FindSeedr(download.name, listing);
      if found.Some? {
        outcome := Upload(seedr, found.value, now);
        d := UploadFound(found.value);
      } else {
        var timedOut := seedr.DownloadTimeout(now, DefaultTimeout);
        if timedOut {
          d, outcome := TimedOutIdle, NoSuchAttribute;
        } else {
          var running := AnyTorrentNamed(listing.torrents, download.name);
          if running {
            seedr.UpdateStatus(SeedrStatus.Downloading);
            d, outcome := StillDownloading, Done;
          } else {
            outcome := seedr.Reset();
            d := ResetDownload;
          }
        }
      }
    }

    /**
     * `check_downloads()`, with `listing` standing for `seedr.list()` of each account,
     * and with the log messages of `CheckOne` (see Findings in README.md). The first
     * `loaded` claimed accounts get a `Seedr`; when one has no credentials, nothing is
     * checked. Otherwise the claimed accounts are checked in order, and a `reset` that
     * raises ends the loop. The accounts not reached stay claimed for checking; every
     * account checked ends unlocked and IDLE or DOWNLOADING; no other account changes.
     */
    method CheckDownloads(listing: Id -> SeedrList, loginToken: string, now: int)
      returns (checked: seq<Id>, loaded: nat, decisions: seq<Decision>)
      modifies db`accounts, db`downloads, handler`world
      ensures Distinct(checked) && |checked| <= CheckLimit
      ensures forall k :: k in checked ==> k in old(db.accounts) && ToCheck(old(db.accounts)[k])
      ensures |checked| < CheckLimit ==>
        forall k :: k in old(db.accounts) && ToCheck(old(db.accounts)[k]) ==> k in checked
      ensures db.accounts.Keys == old(db.accounts).Keys
      ensures forall k :: k in old(db.accounts) && k !in checked ==> db.accounts[k] == old(db.accounts)[k]
      ensures |decisions| <= loaded <= |checked|
      ensures loaded < |checked| ==> decisions == [] && NoCredentials(old(db.accounts)[checked[loaded]])
      ensures forall i :: 0 <= i < |decisions| ==> Settled(db.accounts[checked[i]])
      ensures forall i :: |decisions| <= i < |checked| ==>
        var claimed := ClaimedForChecking(old(db.accounts)[checked[i]], id);
        db.accounts[checked[i]] == if i < loaded then LoggedIn(claimed, loginToken) else claimed
      ensures loaded == |checked| && |decisions| < loaded ==> decisions != [] && decisions[|decisions| - 1].ResetDownload?
      ensures old(UniqueUrls(db.downloads)) ==> UniqueUrls(db.downloads)
      ensures old(UniqueUrls(db.downloads)) && loaded == |checked| ==> |decisions| == |checked|
    {
      var seedrs;
      checked, seedrs := GetDownloadsToCheck(loginToken);
      loaded := |seedrs|;
      if loaded < |checked| {
        decisions := [];
        return;
      }
      decisions := CheckClaimed(checked, seedrs, listing, now);
      forall j | |decisions| <= j < |checked| ensures checked[j] !in checked[..|decisions|] {
        forall m | 0 <= m < |decisions| ensures checked[m] != checked[j] {
        }
      }
    }

    /**
     * The loop of `check_downloads` over the claimed accounts `checked`, whose `Seedr`
     * objects are `seedrs`: each is checked in order until one raises.
     */
    method CheckClaimed(checked: seq<Id>, seedrs: seq<Seedr>, listing: Id -> SeedrList, now: int)
      returns (decisions: seq<Decision>)
      requires Distinct(checked) && |seedrs| == |checked|
      requires forall k :: k in checked ==> k in db.accounts
      requires forall j :: 0 <= j < |seedrs| ==> seedrs[j].id == checked[j] && seedrs[j].db == db && seedrs[j].cached == null
      modifies db`accounts, db`downloads, handler`world
      modifies set j | 0 <= j < |seedrs| :: seedrs[j]
      ensures |decisions| <= |checked|
      ensures db.accounts.Keys == old(db.accounts).Keys
      ensures forall k :: k in old(db.accounts) && k !in checked[..|decisions|] ==> db.accounts[k] == old(db.accounts)[k]
      ensures forall i :: 0 <= i < |decisions| ==> Settled(db.accounts[checked[i]])
      ensures |decisions| < |checked| ==> decisions != [] && decisions[|decisions| - 1].ResetDownload?
      ensures old(UniqueUrls(db.downloads)) ==> |decisions| == |checked| && UniqueUrls(db.downloads)
    {
      decisions := [];
      var raised := false;
      ghost var done: set<Id> := {};
      var i := 0;
      while i < |seedrs| && !raised
        invariant 0 <= i <= |seedrs| && |decisions| == i
        invariant forall j :: i <= j < |seedrs| ==> seedrs[j].cached == null
        invariant db.accounts.Keys == old(db.accounts).Keys
        invariant forall k :: k in old(db.accounts) ==>
          if k in done then Settled(db.accounts[k]) else db.accounts[k] == old(db.accounts)[k]
        invariant forall j :: 0 <= j < i ==> checked[j] in done
        invariant forall k :: k in done ==> k in checked[..i]
        invariant raised ==> i > 0 && decisions[i - 1].ResetDownload?
        invariant old(UniqueUrls(db.downloads)) ==> UniqueUrls(db.downloads) && !raised
      {
        var seedr := seedrs[i];
        PrefixSnoc(checked, i);
        forall j | i < j < |seedrs| ensures seedrs[j] != seedr {
          assert checked[j] != checked[i];
        }
        var d, outcome := CheckOne(seedr, listing(checked[i]), now);
        decisions := decisions + [d];
        raised := outcome != Done;
        done := done + {checked[i]};
        i := i + 1;
      }
    }

    /**
     * `begin_download()`, with `replies` standing for Seedr's reply to adding each
     * download (each is tried at most once per run, on whichever account is claimed): each PENDING download found goes to a newly claimed free
     * account. The loop ends when the downloads run out, when no account is free, or at
     * the first exception (a document `Seedr` raises on, a reply that cannot be parsed,
     * an upsert the unique index rejects, an account whose download cannot be found).
     * `placed` maps each download the loop started to the account now downloading it;
     * only free accounts are claimed, and no other download changes.
     */
    method BeginDownload(replies: Id -> RawReply, loginToken: string, now: int)
      returns (tried: seq<Id>, placed: map<Id, Id>, stop: Stop)
      modifies db`accounts, db`downloads
      ensures Distinct(tried)
      ensures forall k :: k in tried ==> k in old(db.downloads) && old(db.downloads)[k].status == Pending
      ensures stop.Exhausted? ==>
        forall k :: k in old(db.downloads) && old(db.downloads)[k].status == Pending ==> k in tried
      ensures stop.NoFreeSeedr? ==> NoFreeAccount(db.accounts)
      ensures db.accounts.Keys == old(db.accounts).Keys
      ensures forall a :: a in old(db.accounts) ==> db.accounts[a].password == old(db.accounts)[a].password
      ensures forall a :: a in old(db.accounts) && !Free(old(db.accounts)[a]) ==> db.accounts[a] == old(db.accounts)[a]
      ensures forall k :: k in placed ==> k in tried
      ensures Placed(old(db.accounts), old(db.downloads), db.accounts, db.downloads, placed, replies, now)
      ensures db.downloads.Keys == old(db.downloads).Keys
      ensures forall k :: k in old(db.downloads) && k !in placed ==> db.downloads[k] == old(db.downloads)[k]
      ensures old(UniqueUrls(db.downloads)) ==> UniqueUrls(db.downloads)
    {
      var found := db.downloads;
      var pending := set k | k in found && found[k].status == Pending;
      var rest := pending;
      tried, placed, stop := [], map[], Exhausted;
      while rest != {}
        invariant rest <= pending
        invariant Distinct(tried)
        invariant forall k :: k in tried ==> k in pending && k !in rest
        invariant forall k :: k in pending ==> k in tried || k in rest
        invariant stop.Exhausted?
        invariant db.accounts.Keys == old(db.accounts).Keys
        invariant forall a :: a in old(db.accounts) ==> db.accounts[a].password == old(db.accounts)[a].password
        invariant forall a :: a in old(db.accounts) && !Free(old(db.accounts)[a]) ==> db.accounts[a] == old(db.accounts)[a]
        invariant forall k :: k in placed ==> k in tried
        invariant Placed(old(db.accounts), old(db.downloads), db.accounts, db.downloads, placed, replies, now)
        invariant db.downloads.Keys == old(db.downloads).Keys
        invariant forall k :: k in old(db.downloads) && k !in placed ==> db.downloads[k] == old(db.downloads)[k]
        invariant old(UniqueUrls(db.downloads)) ==> UniqueUrls(db.downloads)
        decreases |rest|
      {
        var k :| k in rest;
        var tried', rest' := tried + [k], rest - {k};
        DistinctSnoc(tried, k);
        assert forall j :: j in tried' ==> j in pending && j !in rest';
        assert |rest'| < |rest|;
        var step;
        step, placed := PlaceOne(k, found[k], placed, replies, loginToken, now, old(db.accounts), old(db.downloads));
        if step == Some(NoFreeSeedr) {
          stop := NoFreeSeedr;
          break;
        }
        tried, rest := tried', rest';
        if step.Some? {
          stop := step.value;
          break;
        }
      }
    }

    /**
     * The body of `begin_download`'s loop for the download `k`, found as `rec`: the
     * download is handed to a free account, and recorded in `placed` when it started.
     * `before` and `downloads0` are the collections as the loop found them.
     */
    method PlaceOne(k: Id, rec: DownloadRecord, placed: map<Id, Id>, replies: Id -> RawReply, loginToken: string,
                    now: int, ghost before: map<Id, Account>, ghost downloads0: map<Id, DownloadRecord>)
      returns (stop: Option<Stop>, placed': map<Id, Id>)
      requires k !in placed && k in downloads0 && rec == downloads0[k]
      requires k in db.downloads && db.downloads[k] == rec
      requires db.accounts.Keys == before.Keys
      requires forall a :: a in before && !Free(before[a]) ==> db.accounts[a] == before[a]
      requires Placed(before, downloads0, db.accounts, db.downloads, placed, replies, now)
      modifies db`accounts, db`downloads
      ensures stop.Some? ==> stop.value.NoFreeSeedr? || stop.value.Aborted?
      ensures stop == Some(NoFreeSeedr) <==> NoFreeAccount(old(db.accounts))
      ensures stop == Some(NoFreeSeedr) ==> db.accounts == old(db.accounts)
      ensures placed' == placed || (stop.None? && k in placed' && placed' == placed[k := placed'[k]])
      ensures Placed(before, downloads0, db.accounts, db.downloads, placed', replies, now)
      ensures db.accounts.Keys == old(db.accounts).Keys
      ensures forall a :: a in old(db.accounts) ==> db.accounts[a].password == old(db.accounts)[a].password
      ensures forall a :: a in before && !Free(before[a]) ==> db.accounts[a] == before[a]
      ensures db.downloads.Keys == old(db.downloads).Keys
      ensures forall j :: j in old(db.downloads) && j !in placed' ==> db.downloads[j] == old(db.downloads)[j]
      ensures forall j :: j in placed ==> db.downloads[j] == old(db.downloads)[j]
      ensures old(UniqueUrls(db.downloads)) ==> UniqueUrls(db.downloads)
    {
      var download := new Download.Load(db, k, rec);
      ghost var accounts0, downloads1 := db.accounts, db.downloads;
      var claimed, started;
      stop, claimed, started := AddToFreeSeedr(download, replies, loginToken, now);
      placed' := placed;
      if claimed.None? {
        return;
      }
      PlacedStep(before, downloads0, accounts0, downloads1, db.accounts, db.downloads,
                 placed, replies, now, k, claimed.value, started);
      if started {
        placed' := placed[k := claimed.value];
      }
    }

    /**
     * One turn of `begin_download`'s loop: a free account is claimed and asked to add
     * `download`. `stop` is `None` when the loop goes on; otherwise it ends, for want of
     * a free account or by an exception. `started` says that the account took the
     * download: it is then DOWNLOADING it, and the download PROCESSING; when Seedr
     * refused, the account is IDLE. Only the claimed account and the download change.
     */
    method AddToFreeSeedr(download: Download, replies: Id -> RawReply, loginToken: string, now: int)
      returns (stop: Option<Stop>, claimed: Option<Id>, started: bool)
      requires download.db == db
      modifies db`accounts, db`downloads
      ensures stop.Some? ==> stop.value.NoFreeSeedr? || stop.value.Aborted?
      ensures stop == Some(NoFreeSeedr) <==> NoFreeAccount(old(db.accounts))
      ensures claimed.None? <==> stop == Some(NoFreeSeedr)
      ensures claimed.None? ==> db.accounts == old(db.accounts) && db.downloads == old(db.downloads)
      ensures claimed.Some? ==> claimed.value in old(db.accounts) && Free(old(db.accounts)[claimed.value])
      ensures db.accounts.Keys == old(db.accounts).Keys
      ensures forall a :: a in old(db.accounts) && Some(a) != claimed ==> db.accounts[a] == old(db.accounts)[a]
      ensures forall a :: a in old(db.accounts) ==> db.accounts[a].password == old(db.accounts)[a].password
      ensures started ==> stop.None?
      ensures stop.None? ==>
        claimed.Some? && ParseReply(replies(download.id)).Ok? &&
        (started <==> ParseReply(replies(download.id)).value.success)
      ensures started ==>
        var a := claimed.value;
        Started(old(db.accounts), db.accounts, a, download.id, now) && download.id in old(db.downloads) &&
        db.downloads == old(db.downloads)[download.id :=
          ProcessingRecord(old(db.downloads)[download.id], ParseReply(replies(download.id)).value.name)]
      ensures stop.None? && !started ==>
        var acc := db.accounts[claimed.value];
        acc.status == Status(Idle) && acc.downloadId == None && acc.lockedBy == None
      ensures !started ==> db.downloads == old(db.downloads)
      ensures old(UniqueUrls(db.downloads)) ==> UniqueUrls(db.downloads)
    {
      var before := db.accounts;
      var seedr;
      claimed, seedr := GetFreeSeedr(loginToken);
      started := false;
      if claimed.None? {
        return Some(NoFreeSeedr), claimed, started;
      }
      var a := claimed.value;
      if seedr == null {
        var error := if before[a].status.Blank? then "ValueError: '' is not a valid SeedrStatus" else "KeyError: 'password'";
        return Some(Aborted(error)), claimed, started;
      }
      var r, outcome := seedr.AddDownload(download, replies(download.id), now);
      if r.Raised? {
        stop := Some(Aborted(r.error));
      } else if outcome != Done {
        stop := Some(Aborted("an exception from mark_as_downloading"));
      } else {
        stop := None;
        started := r.value.success;
      }
    }

    /**
     * `start()`: `begin_download`, then `check_downloads`, then `stop_heartbeat`. An
     * exception in either of the first two leaves the heartbeat running. When every
     * account has a password and the urls are unique, only `begin_download` can raise.
     */
    method Start(replies: Id -> RawReply, listing: Id -> SeedrList, loginToken: string, now: int)
      returns (stop: Stop, stopped: bool)
      requires heartbeat.db == db && heartbeat.id == id
      modifies db`accounts, db`downloads, db`workers, handler`world, heartbeat.scheduler`jobs
      ensures stopped ==> !stop.Aborted?
      ensures stopped ==> id !in db.workers && HeartbeatId(id) !in heartbeat.scheduler.jobs
      ensures !stopped ==> db.workers == old(db.workers)
      ensures old(UniqueUrls(db.downloads)) && WithPasswords(old(db.accounts)) && !stop.Aborted? ==>
        (stopped <==> HeartbeatId(id) in old(heartbeat.scheduler.jobs))
    {
      var tried, placed;
      tried, placed, stop := BeginDownload(replies, loginToken, now);
      stopped := false;
      if stop.Aborted? {
        return;
      }
      var checked, _, decisions := CheckDownloads(listing, loginToken, now);
      if |decisions| < |checked| {
        return;
      }
      stopped := heartbeat.StopHeartbeat();
    }
  }
}
