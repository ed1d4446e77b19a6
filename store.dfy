/**
 * The MongoDB collections of rssbox/__init__.py: `accounts`, `downloads` (with its
 * unique index on `url`), `workers` and `watchrss`. Each collection is a map from
 * `_id` to a document; a `find_one_and_update`, `update_one`, `update_many` or
 * `delete_many` is one assignment to a map field.
 */
module Store {
  import opened Common
  import opened Enums

  /** The `status` field of an account document: a status value, missing, or "". */
  datatype StatusField = Status(s: SeedrStatus) | Absent | Blank

  /**
   * An account document. `save()` writes the six fields from `token` to `priority`;
   * `password` (and any other field) is left as it is; `None` is a missing field.
   */
  datatype Account = Account(
    password: Option<string>,
    token: Option<string>,
    status: StatusField,
    addedAt: Option<int>,
    downloadId: Option<Id>,
    lockedBy: Option<Id>,
    priority: Option<int>)

  /** A download document: exactly the five fields of `Download.dict`; `_id` is the map key. */
  datatype DownloadRecord = DownloadRecord(
    url: string,
    name: string,
    status: DownloadStatus,
    downloadName: Option<string>,
    lockedBy: Option<Id>)

  /** A worker document, written by the worker's heartbeat. */
  datatype Worker = Worker(lastHeartbeat: int)

  /** The unique index on `downloads.url`: no two documents share a url. */
  ghost predicate UniqueUrls(downloads: map<Id, DownloadRecord>) {
    forall a, b :: a in downloads && b in downloads && downloads[a].url == downloads[b].url ==> a == b
  }

  /** Writing `url` under `id` does not collide with another document's url. */
  predicate UrlAvailable(downloads: map<Id, DownloadRecord>, id: Id, url: string) {
    forall k :: k in downloads && k != id ==> downloads[k].url != url
  }

  /** An upsert that the unique index accepts keeps the urls unique. */
  lemma UpsertKeepsUrlsUnique(downloads: map<Id, DownloadRecord>, id: Id, rec: DownloadRecord)
    requires UniqueUrls(downloads) && UrlAvailable(downloads, id, rec.url)
    ensures UniqueUrls(downloads[id := rec])
  {
  }

  /** The database: one map per collection. */
  class Database {
    var accounts: map<Id, Account>
    var downloads: map<Id, DownloadRecord>
    var workers: map<Id, Worker>
    /** The `watchrss` collection: the `last_saved_on` watermark stored per feed id. */
    var feeds: map<Id, int>

    /** The guarantee of the unique index on `url`. */
    ghost predicate Valid()
      reads this
    {
      UniqueUrls(downloads)
    }

    constructor (accounts: map<Id, Account>, downloads: map<Id, DownloadRecord>,
                 workers: map<Id, Worker>, feeds: map<Id, int>)
      requires UniqueUrls(downloads)
      ensures Valid()
      ensures this.accounts == accounts && this.downloads == downloads
      ensures this.workers == workers && this.feeds == feeds
    {
      this.accounts := accounts;
      this.downloads := downloads;
      this.workers := workers;
      this.feeds := feeds;
    }
  }
}
