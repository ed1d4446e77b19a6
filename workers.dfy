/**
 * rssbox/handlers/worker_handler.py: recovery from workers that stopped beating. A
 * worker is stale when its last heartbeat is more than 40 seconds old. The cleanup
 * deletes the stale workers, then releases every account and download still locked by
 * a worker that is gone or stale. The aggregation pipelines are the predicates
 * `Orphaned`, `MatchedAccounts` and `MatchedDownloads` over the collections.
 *
 * rssbox/seedr_client.py carries an older copy of the account part with other
 * statuses; both are stated here, selected by `Cleanup`.
 */
module Workers {
  import opened Common
  import opened Enums
  import opened Store
  import Heartbeats

  /** The stale threshold, in seconds. */
  const StaleAfter: int := 40

  /** `last_heartbeat < threshold`, strictly. */
  predicate Stale(w: Worker, threshold: int) {
    w.lastHeartbeat < threshold
  }

  /** The ids the `find` on `last_heartbeat < threshold` returns. */
  function StaleIds(workers: map<Id, Worker>, threshold: int): (r: set<Id>)
    ensures forall k :: k in r <==> k in workers && Stale(workers[k], threshold)
  {
    set k | k in workers && Stale(workers[k], threshold)
  }

  /** The workers left by `delete_many` of the stale ids: every stale one goes, no other. */
  function Survivors(workers: map<Id, Worker>, threshold: int): (r: map<Id, Worker>)
    ensures r.Keys == workers.Keys - StaleIds(workers, threshold)
    ensures forall k :: k in r ==> r[k] == workers[k] && !Stale(r[k], threshold)
  {
    workers - StaleIds(workers, threshold)
  }

  /**
   * The `$lookup`/`$match` stage: the lock names no worker (a null lock included, as
   * no worker has a null id), or a stale worker, or one of the ids just deleted.
   */
  predicate Orphaned(lockedBy: Option<Id>, workers: map<Id, Worker>, staleIds: set<Id>, threshold: int) {
    lockedBy.None? || lockedBy.value !in workers || Stale(workers[lockedBy.value], threshold) ||
    lockedBy.value in staleIds
  }

  /** Which of the two account cleanups: worker_handler.py's or seedr_client.py's. */
  datatype Cleanup = HandlerCleanup | ClientCleanup

  /**
   * The statuses the first `$match` selects: PROCESSING, UPLOADING and LOCKED in
   * worker_handler.py; PROCESSING, UPLOADING and DOWNLOAD_CHECKING in seedr_client.py.
   */
  predicate Candidate(v: Cleanup, f: StatusField) {
    match v
    case HandlerCleanup =>
      f == Status(SeedrStatus.Processing) || f == Status(Uploading) || f == Status(Locked)
    case ClientCleanup =>
      f == Status(SeedrStatus.Processing) || f == Status(Uploading) || f == Status(DownloadChecking)
  }

  /**
   * The status a released account gets: in worker_handler.py DOWNLOADING when it was
   * LOCKED or UPLOADING and IDLE otherwise; in seedr_client.py DOWNLOADING when it was
   * DOWNLOAD_CHECKING or UPLOADING and IDLE otherwise.
   */
  function Remap(v: Cleanup, s: SeedrStatus): (r: SeedrStatus)
    ensures r == Downloading || r == Idle
    ensures v.HandlerCleanup? ==> (r == Downloading <==> s == Locked || s == Uploading)
    ensures v.ClientCleanup? ==> (r == Downloading <==> s == DownloadChecking || s == Uploading)
  {
    match v
    case HandlerCleanup => if s == Locked || s == Uploading then Downloading else Idle
    case ClientCleanup => if s == DownloadChecking || s == Uploading then Downloading else Idle
  }

  /** The accounts the pipeline returns. */
  function MatchedAccounts(
    v: Cleanup, accounts: map<Id, Account>, workers: map<Id, Worker>, staleIds: set<Id>, threshold: int)
    : (r: set<Id>)
    ensures forall k :: k in r <==>
      k in accounts && Candidate(v, accounts[k].status) && Orphaned(accounts[k].lockedBy, workers, staleIds, threshold)
  {
    set k | k in accounts && Candidate(v, accounts[k].status) &&
            Orphaned(accounts[k].lockedBy, workers, staleIds, threshold)
  }

  /** One `update_one`: the account's status is remapped from `s` and its lock cleared. */
  function Released(v: Cleanup, acc: Account, s: SeedrStatus): (r: Account)
    ensures r.status == Status(Remap(v, s)) && r.lockedBy == None
    ensures r.(status := acc.status, lockedBy := acc.lockedBy) == acc
  {
    acc.(status := Status(Remap(v, s)), lockedBy := None)
  }

  /** The status of a candidate account, which is always a status value. */
  function CandidateStatus(f: StatusField): SeedrStatus {
    if f.Status? then f.s else Idle
  }

  /** The accounts after every matched one has been released. */
  function ReleasedAccounts(v: Cleanup, accounts: map<Id, Account>, matched: set<Id>): (r: map<Id, Account>)
    ensures r.Keys == accounts.Keys
    ensures forall k :: k in accounts && k !in matched ==> r[k] == accounts[k]
    ensures forall k :: k in accounts && k in matched ==>
      r[k] == Released(v, accounts[k], CandidateStatus(accounts[k].status))
  {
    map k | k in accounts :: if k in matched then Released(v, accounts[k], CandidateStatus(accounts[k].status)) else accounts[k]
  }

  /** The downloads the second pipeline returns: PENDING or PROCESSING, locked, and orphaned. */
  function MatchedDownloads(downloads: map<Id, DownloadRecord>, workers: map<Id, Worker>, staleIds: set<Id>, threshold: int)
    : (r: set<Id>)
    ensures forall k :: k in r <==>
      k in downloads && (downloads[k].status == Pending || downloads[k].status == DownloadStatus.Processing) &&
      downloads[k].lockedBy.Some? && Orphaned(downloads[k].lockedBy, workers, staleIds, threshold)
  {
    set k | k in downloads && (downloads[k].status == Pending || downloads[k].status == DownloadStatus.Processing) &&
            downloads[k].lockedBy.Some? && Orphaned(downloads[k].lockedBy, workers, staleIds, threshold)
  }

  /** The `update_many`: each matched download becomes PENDING and unlocked; nothing else changes. */
  function RevertedDownloads(downloads: map<Id, DownloadRecord>, matched: set<Id>): (r: map<Id, DownloadRecord>)
    ensures r.Keys == downloads.Keys
    ensures forall k :: k in downloads && k !in matched ==> r[k] == downloads[k]
    ensures forall k :: k in downloads && k in matched ==>
      r[k].status == Pending && r[k].lockedBy == None &&
      r[k].(status := downloads[k].status, lockedBy := downloads[k].lockedBy) == downloads[k]
  {
    map k | k in downloads :: if k in matched then downloads[k].(status := Pending, lockedBy := None) else downloads[k]
  }

  /** Reverting changes no url, so the unique index on `url` still holds. */
  lemma RevertKeepsUrlsUnique(downloads: map<Id, DownloadRecord>, matched: set<Id>)
    requires UniqueUrls(downloads)
    ensures UniqueUrls(RevertedDownloads(downloads, matched))
  {
    var r := RevertedDownloads(downloads, matched);
    forall a, b | a in r && b in r && r[a].url == r[b].url ensures a == b {
      assert r[a].url == downloads[a].url && r[b].url == downloads[b].url;
    }
  }

  /** No account of a candidate status is locked by a worker that is missing or stale. */
  predicate AccountsHeld(v: Cleanup, accounts: map<Id, Account>, workers: map<Id, Worker>, threshold: int) {
    forall k :: k in accounts && Candidate(v, accounts[k].status) ==>
      accounts[k].lockedBy.Some? && accounts[k].lockedBy.value in workers &&
      !Stale(workers[accounts[k].lockedBy.value], threshold)
  }

  /** No PENDING or PROCESSING download is locked by a worker that is missing or stale. */
  predicate DownloadsHeld(downloads: map<Id, DownloadRecord>, workers: map<Id, Worker>, threshold: int) {
    forall k ::
      (k in downloads && (downloads[k].status == Pending || downloads[k].status == DownloadStatus.Processing) &&
       downloads[k].lockedBy.Some?) ==>
      downloads[k].lockedBy.value in workers && !Stale(workers[downloads[k].lockedBy.value], threshold)
  }

  /**
   * After the account cleanup, whichever its variant, every account of a candidate
   * status is locked by a live worker: a released account has left the candidate
   * statuses, and one that was not released was not orphaned.
   */
  lemma {:induction false} AccountCleanupLeavesNoOrphans(
    v: Cleanup, accounts: map<Id, Account>, workers: map<Id, Worker>, staleIds: set<Id>, threshold: int)
    ensures AccountsHeld(v, ReleasedAccounts(v, accounts, MatchedAccounts(v, accounts, workers, staleIds, threshold)),
                         workers, threshold)
  {
    var matched := MatchedAccounts(v, accounts, workers, staleIds, threshold);
    var after := ReleasedAccounts(v, accounts, matched);
    forall k | k in after && Candidate(v, after[k].status)
      ensures after[k].lockedBy.Some? && after[k].lockedBy.value in workers &&
              !Stale(workers[after[k].lockedBy.value], threshold)
    {
      assert after[k] == accounts[k];
      assert !Orphaned(accounts[k].lockedBy, workers, staleIds, threshold);
    }
  }

  /** After the download cleanup every PENDING or PROCESSING lock names a live worker. */
  lemma {:induction false} DownloadCleanupLeavesNoOrphans(
    downloads: map<Id, DownloadRecord>, workers: map<Id, Worker>, staleIds: set<Id>, threshold: int)
    ensures DownloadsHeld(RevertedDownloads(downloads, MatchedDownloads(downloads, workers, staleIds, threshold)),
                          workers, threshold)
  {
    var matched := MatchedDownloads(downloads, workers, staleIds, threshold);
    var after := RevertedDownloads(downloads, matched);
    forall k | k in after && (after[k].status == Pending || after[k].status == DownloadStatus.Processing) &&
                after[k].lockedBy.Some?
      ensures after[k].lockedBy.value in workers && !Stale(workers[after[k].lockedBy.value], threshold)
    {
      assert after[k] == downloads[k];
      assert !Orphaned(downloads[k].lockedBy, workers, staleIds, threshold);
    }
  }

  /**
   * The two account cleanups disagree: an orphaned LOCKED account is released by
   * worker_handler.py and left alone by seedr_client.py, and an orphaned
   * DOWNLOAD_CHECKING account the other way round.
   */
  lemma CleanupsDiffer(acc: Account, workers: map<Id, Worker>, staleIds: set<Id>, threshold: int)
    requires Orphaned(acc.lockedBy, workers, staleIds, threshold)
    ensures acc.status == Status(Locked) ==>
      MatchedAccounts(HandlerCleanup, map["a" := acc], workers, staleIds, threshold) == {"a"} &&
      MatchedAccounts(ClientCleanup, map["a" := acc], workers, staleIds, threshold) == {}
    ensures acc.status == Status(DownloadChecking) ==>
      MatchedAccounts(HandlerCleanup, map["a" := acc], workers, staleIds, threshold) == {} &&
      MatchedAccounts(ClientCleanup, map["a" := acc], workers, staleIds, threshold) == {"a"}
  {
    var m := map["a" := acc];
    if acc.status == Status(Locked) {
      assert "a" in MatchedAccounts(HandlerCleanup, m, workers, staleIds, threshold);
    } else if acc.status == Status(DownloadChecking) {
      assert "a" in MatchedAccounts(ClientCleanup, m, workers, staleIds, threshold);
    }
  }

  /**
   * A worker whose last beat is at most one heartbeat interval old is not stale at the
   * cleanup's threshold, because the 30 second interval is below the 40 second limit;
   * so a cleanup keeps it.
   */
  lemma {:induction false} OnScheduleSurvives(workers: map<Id, Worker>, id: Id, now: int)
    requires id in workers && workers[id].lastHeartbeat >= now - Heartbeats.Interval
    ensures id in Survivors(workers, now - StaleAfter)
    ensures !Orphaned(Some(id), Survivors(workers, now - StaleAfter), StaleIds(workers, now - StaleAfter), now - StaleAfter)
  {
    assert !Stale(workers[id], now - StaleAfter);
    assert id !in StaleIds(workers, now - StaleAfter);
  }

  class WorkerHandler {
    const db: Database

    constructor (db: Database)
      ensures this.db == db
    {
      this.db := db;
    }

    /**
     * `clean_stale_seedrs_and_workers()` at time `now`: the stale workers are deleted,
     * then the accounts and the downloads are released against the workers that remain.
     */
    method Clean(now: int)
      modifies db`workers, db`accounts, db`downloads
      ensures var threshold := now - StaleAfter;
              var staleIds := StaleIds(old(db.workers), threshold);
              db.workers == Survivors(old(db.workers), threshold) &&
              db.accounts == ReleasedAccounts(HandlerCleanup, old(db.accounts),
                MatchedAccounts(HandlerCleanup, old(db.accounts), db.workers, staleIds, threshold)) &&
              db.downloads == RevertedDownloads(old(db.downloads),
                MatchedDownloads(old(db.downloads), db.workers, staleIds, threshold))
      ensures AccountsHeld(HandlerCleanup, db.accounts, db.workers, now - StaleAfter)
      ensures DownloadsHeld(db.downloads, db.workers, now - StaleAfter)
      ensures old(UniqueUrls(db.downloads)) ==> UniqueUrls(db.downloads)
    {
      var threshold := now - StaleAfter;
      var staleIds := DeleteStaleWorkers(db, threshold);
      ProcessStaleSeedrs(staleIds, threshold);
      ProcessStaleDownloads(staleIds, threshold);
      AccountCleanupLeavesNoOrphans(HandlerCleanup, old(db.accounts), db.workers, staleIds, threshold);
      DownloadCleanupLeavesNoOrphans(old(db.downloads), db.workers, staleIds, threshold);
      if old(UniqueUrls(db.downloads)) {
        RevertKeepsUrlsUnique(old(db.downloads), MatchedDownloads(old(db.downloads), db.workers, staleIds, threshold));
      }
    }

    /** `process_stale_seedrs(stale_ids, threshold)`. */
    method ProcessStaleSeedrs(staleIds: set<Id>, threshold: int)
      modifies db`accounts
      ensures db.accounts == ReleasedAccounts(HandlerCleanup, old(db.accounts),
        MatchedAccounts(HandlerCleanup, old(db.accounts), db.workers, staleIds, threshold))
    {
      ReleaseOrphanedAccounts(db, HandlerCleanup, staleIds, threshold);
    }

    /** `process_stale_downloads(stale_ids, threshold)`: one `update_many` over the matched ids. */
    method ProcessStaleDownloads(staleIds: set<Id>, threshold: int)
      modifies db`downloads
      ensures db.downloads ==
        RevertedDownloads(old(db.downloads), MatchedDownloads(old(db.downloads), db.workers, staleIds, threshold))
    {
      var matched := MatchedDownloads(db.downloads, db.workers, staleIds, threshold);
      if matched != {} {
        db.downloads := RevertedDownloads(db.downloads, matched);
      } else {
        assert RevertedDownloads(db.downloads, matched) == db.downloads;
      }
    }
  }

  /**
   * The first part of both `clean_stale_seedrs_and_workers`: the ids of the workers
   * whose heartbeat is older than `threshold` are collected, then those workers are
   * deleted when there are any.
   */
  method DeleteStaleWorkers(db: Database, threshold: int) returns (staleIds: set<Id>)
    modifies db`workers
    ensures staleIds == StaleIds(old(db.workers), threshold)
    ensures db.workers == Survivors(old(db.workers), threshold)
  {
    staleIds := StaleIds(db.workers, threshold);
    if staleIds != {} {
      db.workers := db.workers - staleIds;
    }
  }

  /**
   * The account part of both cleanups (`process_stale_seedrs` in worker_handler.py):
   * the pipeline's result is taken first, with each account's status, and then every
   * account in it gets its own `update_one`.
   */
  method ReleaseOrphanedAccounts(db: Database, v: Cleanup, staleIds: set<Id>, threshold: int)
    modifies db`accounts
    ensures db.accounts ==
      ReleasedAccounts(v, old(db.accounts), MatchedAccounts(v, old(db.accounts), db.workers, staleIds, threshold))
  {
    var found := db.accounts;
    var matched := MatchedAccounts(v, found, db.workers, staleIds, threshold);
    var todo := matched;
    while todo != {}
      invariant todo <= matched
      invariant db.accounts == ReleasedAccounts(v, found, matched - todo)
      decreases |todo|
    {
      var k :| k in todo;
      ReleaseNext(v, found, matched, todo, k);
      db.accounts := UpdateOne(db.accounts, k, Remap(v, CandidateStatus(found[k].status)));
      todo := todo - {k};
    }
    assert matched - todo == matched;
  }

  /** `update_one` with `$set` of the status and a null lock, on the document `k` if it exists. */
  function UpdateOne(accounts: map<Id, Account>, k: Id, s: SeedrStatus): (r: map<Id, Account>)
    ensures r.Keys == accounts.Keys
    ensures forall j :: j in accounts && j != k ==> r[j] == accounts[j]
    ensures k in accounts ==> r[k] == accounts[k].(status := Status(s), lockedBy := None)
  {
    if k in accounts then accounts[k := accounts[k].(status := Status(s), lockedBy := None)] else accounts
  }

  /** The loop step of `process_stale_seedrs`: taking `k` off the to-do set releases it. */
  lemma ReleaseNext(v: Cleanup, accounts: map<Id, Account>, matched: set<Id>, todo: set<Id>, k: Id)
    requires todo <= matched && k in todo
    requires forall j :: j in matched ==> j in accounts
    ensures k in accounts
    ensures ReleasedAccounts(v, accounts, matched - (todo - {k})) ==
      UpdateOne(ReleasedAccounts(v, accounts, matched - todo), k, Remap(v, CandidateStatus(accounts[k].status)))
  {
    assert matched - (todo - {k}) == (matched - todo) + {k};
    ReleaseStep(v, accounts, matched - todo, k);
  }

  /** Releasing one more matched account extends the released set by that account. */
  lemma ReleaseStep(v: Cleanup, accounts: map<Id, Account>, done: set<Id>, k: Id)
    requires k in accounts && k !in done
    ensures ReleasedAccounts(v, accounts, done + {k}) ==
      UpdateOne(ReleasedAccounts(v, accounts, done), k, Remap(v, CandidateStatus(accounts[k].status)))
  {
    var a := ReleasedAccounts(v, accounts, done + {k});
    var b := UpdateOne(ReleasedAccounts(v, accounts, done), k, Remap(v, CandidateStatus(accounts[k].status)));
    assert a.Keys == b.Keys;
    forall j | j in a ensures a[j] == b[j] {
    }
  }
}
