/**
 * rssbox/modules/download.py: a queued download. The object holds the fields of one
 * `downloads` document; each `mark_*` method assigns some of them and upserts the
 * document by `_id`.
 */
module Downloads {
  import opened Common
  import opened Enums
  import opened Store

  /** A feed entry: its link, its title and its publication time in seconds. */
  datatype Entry = Entry(link: string, title: string, published: int)

  /** The document `from_entry` describes: a new PENDING download of the entry's link. */
  function EntryRecord(entry: Entry): (rec: DownloadRecord)
    ensures rec.url == entry.link && rec.name == entry.title
    ensures rec.status == Pending && rec.downloadName == None && rec.lockedBy == None
  {
    DownloadRecord(entry.link, entry.title, Pending, None, None)
  }

  /** The document a download is reset to by `mark_as_pending`. */
  function PendingRecord(rec: DownloadRecord): (r: DownloadRecord)
    ensures r.url == rec.url && r.name == rec.name
    ensures r.status == Pending && r.downloadName == None && r.lockedBy == None
  {
    rec.(status := Pending, downloadName := None, lockedBy := None)
  }

  /** The document `mark_as_processing` writes: PROCESSING under Seedr's `name`, unlocked. */
  function ProcessingRecord(rec: DownloadRecord, name: Option<string>): (r: DownloadRecord)
    ensures r.url == rec.url && r.name == rec.name
    ensures r.status == DownloadStatus.Processing && r.downloadName == name && r.lockedBy == None
  {
    rec.(status := DownloadStatus.Processing, downloadName := name, lockedBy := None)
  }

  class Download {
    const db: Database
    var id: Id
    var url: string
    var name: string
    var status: DownloadStatus
    var downloadName: Option<string>
    var lockedBy: Option<Id>

    /** `dict`: the document written on save, without `_id`. */
    function Dict(): DownloadRecord
      reads this
    {
      DownloadRecord(url, name, status, downloadName, lockedBy)
    }

    /** `Download(client, dict)`: the object for the stored document `rec` under `id`. */
    constructor Load(db: Database, id: Id, rec: DownloadRecord)
      ensures this.db == db && this.id == id && Dict() == rec
    {
      this.db := db;
      this.id := id;
      url, name, status := rec.url, rec.name, rec.status;
      downloadName, lockedBy := rec.downloadName, rec.lockedBy;
    }

    /**
     * `from_entry`: a new PENDING download whose url is the entry's link and whose name
     * is its title, under a newly generated ObjectId.
     */
    constructor FromEntry(db: Database, entry: Entry, objectId: Id)
      ensures this.db == db && id == objectId && Dict() == EntryRecord(entry)
    {
      this.db := db;
      id := objectId;
      url, name, status := entry.link, entry.title, Pending;
      downloadName, lockedBy := None, None;
    }

    /**
     * `save()`: upsert of `dict` under `id`. The unique index on `url` rejects the write
     * (DuplicateKeyError, `ok` false) when another document already has this url.
     */
    method Save() returns (ok: bool)
      modifies db`downloads
      ensures ok <==> UrlAvailable(old(db.downloads), id, url)
      ensures db.downloads == if ok then old(db.downloads)[id := Dict()] else old(db.downloads)
      ensures old(UniqueUrls(db.downloads)) ==> UniqueUrls(db.downloads)
    {
      ok := UrlAvailable(db.downloads, id, url);
      if ok {
        assert UniqueUrls(db.downloads) ==> UniqueUrls(db.downloads[id := Dict()]) by {
          if UniqueUrls(db.downloads) {
            UpsertKeepsUrlsUnique(db.downloads, id, Dict());
          }
        }
        db.downloads := db.downloads[id := Dict()];
      }
    }

    /** `mark_as_processing(n)`: PROCESSING, named `n` by Seedr, unlocked; then saved. */
    method MarkAsProcessing(n: Option<string>) returns (ok: bool)
      modifies this`status, this`downloadName, this`lockedBy, db`downloads
      ensures status == DownloadStatus.Processing && downloadName == n && lockedBy == None
      ensures Dict() == ProcessingRecord(old(Dict()), n)
      ensures ok <==> UrlAvailable(old(db.downloads), id, url)
      ensures db.downloads == if ok then old(db.downloads)[id := Dict()] else old(db.downloads)
      ensures old(UniqueUrls(db.downloads)) ==> UniqueUrls(db.downloads)
    {
      status := DownloadStatus.Processing;
      downloadName := n;
      lockedBy := None;
      ok := Save();
    }

    /** `mark_as_pending()`: back to PENDING with no Seedr name and no lock; then saved. */
    method MarkAsPending() returns (ok: bool)
      modifies this`status, this`downloadName, this`lockedBy, db`downloads
      ensures Dict() == PendingRecord(old(Dict()))
      ensures ok <==> UrlAvailable(old(db.downloads), id, url)
      ensures db.downloads == if ok then old(db.downloads)[id := Dict()] else old(db.downloads)
      ensures old(UniqueUrls(db.downloads)) ==> UniqueUrls(db.downloads)
    {
      status := Pending;
      downloadName := None;
      lockedBy := None;
      ok := Save();
    }

    /** `unlock()`: only the lock is cleared; then saved. */
    method Unlock() returns (ok: bool)
      modifies this`lockedBy, db`downloads
      ensures Dict() == old(Dict()).(lockedBy := None)
      ensures ok <==> UrlAvailable(old(db.downloads), id, url)
      ensures db.downloads == if ok then old(db.downloads)[id := Dict()] else old(db.downloads)
      ensures old(UniqueUrls(db.downloads)) ==> UniqueUrls(db.downloads)
    {
      lockedBy := None;
      ok := Save();
    }

    /** `delete()`: removes the document with this `_id` and no other. */
    method Delete()
      modifies db`downloads
      ensures db.downloads == old(db.downloads) - {id}
      ensures old(UniqueUrls(db.downloads)) ==> UniqueUrls(db.downloads)
    {
      db.downloads := db.downloads - {id};
    }

    /**
     * `create()`: inserts `dict`. The document carries no `_id`, so the database stores
     * it under a newly generated key `generatedId`; the object keeps its own `id`. When
     * a document with the same url exists, the insert is rejected and the object adopts
     * that document's id, url, name, status and Seedr name (not its lock).
     */
    method Create(generatedId: Id)
      requires UniqueUrls(db.downloads)
      requires generatedId !in db.downloads
      modifies this, db`downloads
      ensures UniqueUrls(db.downloads)
      ensures lockedBy == old(lockedBy)
      ensures UrlAvailable(old(db.downloads), generatedId, old(url)) ==>
        db.downloads == old(db.downloads)[generatedId := old(Dict())] && Dict() == old(Dict()) &&
        id == old(id)
      ensures !UrlAvailable(old(db.downloads), generatedId, old(url)) ==>
        db.downloads == old(db.downloads) && id in db.downloads &&
        Dict() == db.downloads[id].(lockedBy := old(lockedBy)) && url == old(url)
    {
      if UrlAvailable(db.downloads, generatedId, url) {
        UpsertKeepsUrlsUnique(db.downloads, generatedId, Dict());
        db.downloads := db.downloads[generatedId := Dict()];
      } else {
        var k :| k in db.downloads && k != generatedId && db.downloads[k].url == url;
        var rec := db.downloads[k];
        id := k;
        url, name, status, downloadName := rec.url, rec.name, rec.status, rec.downloadName;
      }
    }
  }

  /**
   * `create()` keeps at most one document per url, whether it inserts or adopts, and
   * afterwards a document with the new download's url is stored.
   */
  lemma {:induction false} CreateKeepsOnePerUrl(
    downloads: map<Id, DownloadRecord>, rec: DownloadRecord, generatedId: Id)
    requires UniqueUrls(downloads) && generatedId !in downloads
    ensures var after := if UrlAvailable(downloads, generatedId, rec.url)
                         then downloads[generatedId := rec] else downloads;
      UniqueUrls(after) && exists k :: k in after && after[k].url == rec.url
  {
    if !UrlAvailable(downloads, generatedId, rec.url) {
      var k :| k in downloads && k != generatedId && downloads[k].url == rec.url;
    } else {
      assert downloads[generatedId := rec][generatedId].url == rec.url;
    }
  }
}
