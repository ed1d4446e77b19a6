/**
 * rssbox/modules/seedr.py: one Seedr account. The object holds the fields of an
 * `accounts` document; each `mark_*` method assigns some of them and then `save()`s,
 * which writes those six fields back into the stored document (an `update_one`
 * without upsert). The Seedr web API (login, listing, adding and purging torrents) is
 * not modelled: a login yields a token given as a parameter, and the reply to adding
 * a torrent is an input.
 */
module Seedrs {
  import opened Common
  import opened Enums
  import opened Store
  import opened Downloads
  import opened Listing

  /** The default of `download_timeout`: one hour, in seconds. */
  const DefaultTimeout: int := 60 * 60

  /** The six fields of an account that the object holds and `save()` writes. */
  datatype SeedrState = SeedrState(
    token: Option<string>,
    status: SeedrStatus,
    addedAt: Option<int>,
    downloadId: Option<Id>,
    lockedBy: Option<Id>,
    priority: int)

  /**
   * `SeedrStatus(account.get("status", "IDLE"))`: a missing status reads as IDLE and
   * the empty string raises ValueError. The lookup is the one extended with
   * `DOWNLOAD_CHECKING`, so that the accounts the client claims can be read back.
   */
  function ReadStatus(f: StatusField): (r: Result<SeedrStatus>)
    ensures r.Ok? <==> !f.Blank?
    ensures f.Absent? ==> r == Ok(Idle)
    ensures f.Status? ==> r == Ok(f.s)
  {
    match f
    case Absent => Ok(Idle)
    case Blank => Raised("ValueError: '' is not a valid SeedrStatus")
    case Status(s) =>
      ValueRoundTrip(s);
      var v := FromValueWithChecking(Value(s));
      if v.Some? then Ok(v.value) else Raised("ValueError: not a valid SeedrStatus")
  }

  /**
   * The fields `Seedr(client, account)` reads from a stored document: the token as
   * stored (a login follows when it is falsy), the status, the optional fields, and a
   * priority of 0 when there is none.
   */
  function ReadAccount(acc: Account): (r: Result<SeedrState>)
    ensures r.Ok? <==> !acc.status.Blank?
    ensures r.Ok? ==> r.value.token == acc.token && r.value.addedAt == acc.addedAt &&
                      r.value.downloadId == acc.downloadId && r.value.lockedBy == acc.lockedBy
    ensures r.Ok? ==> r.value.priority == acc.priority.GetOr(0)
    ensures acc.status.Absent? ==> r.Ok? && r.value.status == Idle
  {
    match ReadStatus(acc.status)
    case Raised(e) => Raised(e)
    case Ok(s) => Ok(SeedrState(acc.token, s, acc.addedAt, acc.downloadId, acc.lockedBy, acc.priority.GetOr(0)))
  }

  /**
   * The document after `save()` `$set` the six fields of `st`: reading it back gives
   * `st` again, and its password is untouched.
   */
  function WriteAccount(acc: Account, st: SeedrState): (a: Account)
    ensures a.password == acc.password
    ensures ReadAccount(a) == Ok(st)
  {
    acc.(token := st.token, status := Status(st.status), addedAt := st.addedAt,
         downloadId := st.downloadId, lockedBy := st.lockedBy, priority := Some(st.priority))
  }

  /**
   * `save()` on the accounts collection: the document with `_id == id`, if there is
   * one, gets the six fields of `st`; no document is created and no other changes.
   */
  function SaveTo(accounts: map<Id, Account>, id: Id, st: SeedrState): (r: map<Id, Account>)
    ensures r.Keys == accounts.Keys
    ensures forall k :: k in accounts && k != id ==> r[k] == accounts[k]
    ensures id in accounts ==> ReadAccount(r[id]) == Ok(st) && r[id].password == accounts[id].password
  {
    if id in accounts then accounts[id := WriteAccount(accounts[id], st)] else accounts
  }

  /** A later save overwrites everything an earlier one wrote. */
  lemma SaveOverwrites(accounts: map<Id, Account>, id: Id, st1: SeedrState, st2: SeedrState)
    ensures SaveTo(SaveTo(accounts, id, st1), id, st2) == SaveTo(accounts, id, st2)
  {
    assert SaveTo(SaveTo(accounts, id, st1), id, st2).Keys == SaveTo(accounts, id, st2).Keys;
  }

  /**
   * `update_status(s)`: the status becomes `s`; the lock is cleared exactly when `s` is
   * DOWNLOADING or IDLE and kept otherwise; nothing else changes.
   */
  function StatusUpdated(st: SeedrState, s: SeedrStatus): (r: SeedrState)
    ensures r.status == s
    ensures r.lockedBy == None <==> s == SeedrStatus.Downloading || s == Idle || st.lockedBy == None
    ensures !(s == SeedrStatus.Downloading || s == Idle) ==> r.lockedBy == st.lockedBy
    ensures r.(status := st.status, lockedBy := st.lockedBy) == st
  {
    var lockedBy := if s == SeedrStatus.Downloading || s == Idle then None else st.lockedBy;
    st.(status := s, lockedBy := lockedBy)
  }

  /**
   * `mark_as_idle()`: IDLE, with no timestamp, no download and no lock; the token and
   * the priority are kept.
   */
  function Idled(st: SeedrState): (r: SeedrState)
    ensures r.status == Idle && r.addedAt == None && r.downloadId == None && r.lockedBy == None
    ensures r.token == st.token && r.priority == st.priority
  {
    st.(status := Idle, addedAt := None, downloadId := None, lockedBy := None)
  }

  /**
   * `update_status(IDLE)` is weaker than `mark_as_idle()`: both unlock, but only the
   * latter forgets the download and its start time.
   */
  lemma IdledRefinesUpdate(st: SeedrState)
    ensures Idled(st) == StatusUpdated(st, Idle).(addedAt := None, downloadId := None)
  {
  }

  /** `mark_as_uploading(w)`: UPLOADING and locked by `w`; the download and its start time stay. */
  function UploadingBy(st: SeedrState, w: Id): (r: SeedrState)
    ensures r.status == SeedrStatus.Uploading && r.lockedBy == Some(w)
    ensures r.(status := st.status, lockedBy := st.lockedBy) == st
  {
    st.(status := SeedrStatus.Uploading, lockedBy := Some(w))
  }

  /**
   * `mark_as_downloading(download, response)`: the account records the download and
   * the time it was added, is DOWNLOADING and unlocked; token and priority are kept.
   */
  function DownloadingFrom(st: SeedrState, downloadId: Id, now: int): (r: SeedrState)
    ensures r.status == SeedrStatus.Downloading && r.lockedBy == None
    ensures r.downloadId == Some(downloadId) && r.addedAt == Some(now)
    ensures r.token == st.token && r.priority == st.priority
  {
    st.(downloadId := Some(downloadId), addedAt := Some(now), status := SeedrStatus.Downloading, lockedBy := None)
  }

  /** The condition of `download_timeout`: a start time exists and lies more than `timeout` seconds back. */
  predicate TimedOut(addedAt: Option<int>, timeout: int, now: int) {
    addedAt.Some? && addedAt.value + timeout < now
  }

  /** Once timed out, an account stays timed out as the clock advances. */
  lemma TimedOutLater(addedAt: Option<int>, timeout: int, now: int, later: int)
    requires TimedOut(addedAt, timeout, now) && now <= later
    ensures TimedOut(addedAt, timeout, later)
  {
  }

  /** `get_download()` finds a document: `download_id` is truthy and names a stored download. */
  predicate Linked(downloadId: Option<Id>, downloads: map<Id, DownloadRecord>) {
    Truthy(downloadId) && downloadId.value in downloads
  }

  /**
   * `Seedr(client, account)` returns rather than raises: the status reads (no
   * ValueError), and a document without a usable token has a `password` to log in
   * with (no KeyError).
   */
  predicate Loadable(acc: Account) {
    ReadAccount(acc).Ok? && !NoCredentials(acc)
  }

  /** Neither a usable token nor a password: `account["password"]` raises KeyError. */
  predicate NoCredentials(acc: Account) {
    !Truthy(acc.token) && acc.password.None?
  }

  /**
   * How a method that also acts on the account's download ended: normally, or with the
   * exception Python raises after the account has been saved: the download is None
   * (AttributeError on None), the download's upsert collides with another url
   * (DuplicateKeyError), `Download` has no such method (AttributeError), or a log
   * message reads an attribute `Seedr` does not have (AttributeError).
   */
  datatype Outcome = Done | NoDownload | DuplicateUrl | NoSuchMethod | NoSuchAttribute

  class Seedr {
    const db: Database
    const id: Id
    var token: Option<string>
    var status: SeedrStatus
    var addedAt: Option<int>
    var downloadId: Option<Id>
    var lockedBy: Option<Id>
    var priority: int
    /** The download object cached by the `download` property; `null` until one is found. */
    var cached: Download?

    /** The six fields `save()` writes. */
    function State(): SeedrState
      reads this
    {
      SeedrState(token, status, addedAt, downloadId, lockedBy, priority)
    }

    /** The cached download belongs to the same database. */
    predicate Valid()
      reads this
    {
      cached == null || cached.db == db
    }

    /**
     * `Seedr(client, account)` for the stored document `acc` under `id`. When the
     * document has no usable token, a login yields `loginToken` and the object is saved
     * at once, which writes its fields (as read from `acc`) back into the store. The
     * documents for which it raises are left to the callers (see `Loadable`).
     */
    constructor Load(db: Database, id: Id, acc: Account, loginToken: string)
      requires Loadable(acc)
      modifies db`accounts
      ensures this.db == db && this.id == id && cached == null && Valid()
      ensures Truthy(acc.token) ==> State() == ReadAccount(acc).value && db.accounts == old(db.accounts)
      ensures !Truthy(acc.token) ==>
        State() == ReadAccount(acc).value.(token := Some(loginToken)) &&
        db.accounts == SaveTo(old(db.accounts), id, State())
    {
      var st := ReadAccount(acc).value;
      this.db := db;
      this.id := id;
      token, status, addedAt := st.token, st.status, st.addedAt;
      downloadId, lockedBy, priority := st.downloadId, st.lockedBy, st.priority;
      cached := null;
      new;
      if !Truthy(token) {
        token := Some(loginToken);
        Save();
      }
    }

    /** `save()`. */
    method Save()
      modifies db`accounts
      ensures db.accounts == SaveTo(old(db.accounts), id, State())
    {
      db.accounts := SaveTo(db.accounts, id, State());
    }

    /** `update_status(s)`, then saved. */
    method UpdateStatus(s: SeedrStatus)
      modifies this`status, this`lockedBy, db`accounts
      ensures State() == StatusUpdated(old(State()), s)
      ensures db.accounts == SaveTo(old(db.accounts), id, State())
    {
      status := s;
      if s == SeedrStatus.Downloading || s == Idle {
        lockedBy := None;
      }
      Save();
    }

    /** `mark_as_idle()`, then saved. */
    method MarkAsIdle()
      modifies this`status, this`addedAt, this`downloadId, this`lockedBy, db`accounts
      ensures State() == Idled(old(State()))
      ensures db.accounts == SaveTo(old(db.accounts), id, State())
    {
      status := Idle;
      addedAt := None;
      downloadId := None;
      lockedBy := None;
      Save();
    }

    /** `mark_as_uploading(w)`, then saved. */
    method MarkAsUploading(w: Id)
      modifies this`status, this`lockedBy, db`accounts
      ensures State() == UploadingBy(old(State()), w)
      ensures db.accounts == SaveTo(old(db.accounts), id, State())
    {
      lockedBy := Some(w);
      status := SeedrStatus.Uploading;
      Save();
    }

    /**
     * The `download` property: the cached download when there is one; otherwise the
     * stored download that `download_id` names, which is then cached, or `null` (and
     * nothing cached) when there is none.
     */
    method CurrentDownload() returns (d: Download?)
      requires Valid()
      modifies this`cached
      ensures Valid() && d == cached
      ensures old(cached) != null ==> cached == old(cached)
      ensures old(cached) == null ==> (cached != null <==> Linked(downloadId, db.downloads))
      ensures old(cached) == null && cached != null ==>
        fresh(cached) && cached.id == downloadId.value && cached.Dict() == db.downloads[cached.id]
    {
      if cached == null && Linked(downloadId, db.downloads) {
        cached := new Download.Load(db, downloadId.value, db.downloads[downloadId.value]);
      }
      d := cached;
    }

    /**
     * `mark_as_downloading(download, response)`: the account is saved as DOWNLOADING
     * the download `download`, then the account's download (the cached one, or the one
     * now linked) is made PROCESSING under the name Seedr reported and saved.
     */
    method MarkAsDownloading(download: Download, name: Option<string>, now: int) returns (r: Outcome)
      requires Valid()
      modifies this`downloadId, this`addedAt, this`status, this`lockedBy, this`cached
      modifies db`accounts, db`downloads, cached
      ensures Valid()
      ensures State() == DownloadingFrom(old(State()), download.id, now)
      ensures r == Done || r == DuplicateUrl || r == NoDownload
      ensures r == NoDownload <==> cached == null
      ensures old(cached) != null ==> cached == old(cached)
      ensures old(cached) == null && cached != null ==>
        fresh(cached) && cached.id == download.id && download.id != "" && download.id in old(db.downloads) &&
        cached.url == old(db.downloads)[download.id].url && cached.name == old(db.downloads)[download.id].name
      ensures r == NoDownload ==> db.downloads == old(db.downloads)
      ensures cached != null ==>
        cached.status == DownloadStatus.Processing && cached.downloadName == name && cached.lockedBy == None &&
        (r == Done <==> UrlAvailable(old(db.downloads), cached.id, cached.url)) &&
        db.downloads == (if r == Done then old(db.downloads)[cached.id := cached.Dict()] else old(db.downloads))
      ensures db.accounts == SaveTo(old(db.accounts), id, State())
      ensures old(UniqueUrls(db.downloads)) ==> UniqueUrls(db.downloads)
    {
      downloadId := Some(download.id);
      addedAt := Some(now);
      status := SeedrStatus.Downloading;
      lockedBy := None;
      Save();
      var d := CurrentDownload();
      if d == null {
        r := NoDownload;
      } else {
        var ok := d.MarkAsProcessing(name);
        r := if ok then Done else DuplicateUrl;
      }
    }

    /**
     * `mark_as_failed(soft)`: the account is idled and saved; the account's download is
     * then asked to `mark_as_failed`, a method `Download` does not have, so the call
     * always raises and no download changes.
     */
    method MarkAsFailed(soft: bool) returns (r: Outcome)
      requires Valid()
      modifies this`status, this`addedAt, this`downloadId, this`lockedBy, db`accounts
      ensures Valid() && cached == old(cached)
      ensures State() == Idled(old(State()))
      ensures db.accounts == SaveTo(old(db.accounts), id, State())
      ensures r == (if cached == null then NoDownload else NoSuchMethod)
    {
      MarkAsIdle();
      // After `mark_as_idle` the download id is None, so only a cached download is found.
      r := if cached == null then NoDownload else NoSuchMethod;
    }

    /**
     * `mark_as_completed()`: the account is idled and saved, then its download is
     * deleted. `mark_as_idle` has already cleared the download id, so only a download
     * the property cached earlier is found.
     */
    method MarkAsCompleted() returns (r: Outcome)
      requires Valid()
      modifies this`status, this`addedAt, this`downloadId, this`lockedBy, this`cached
      modifies db`accounts, db`downloads
      ensures Valid() && cached == old(cached)
      ensures State() == Idled(old(State()))
      ensures db.accounts == SaveTo(old(db.accounts), id, State())
      ensures r == (if cached == null then NoDownload else Done)
      ensures db.downloads == if cached == null then old(db.downloads) else old(db.downloads) - {cached.id}
      ensures old(UniqueUrls(db.downloads)) ==> UniqueUrls(db.downloads)
    {
      MarkAsIdle();
      var d := CurrentDownload();
      if d == null {
        r := NoDownload;
      } else {
        d.Delete();
        r := Done;
      }
    }

    /**
     * `reset()`: the account is idled and saved, then its (cached) download returns to
     * PENDING with no Seedr name and no lock, and is saved.
     */
    method Reset() returns (r: Outcome)
      requires Valid()
      modifies this`status, this`addedAt, this`downloadId, this`lockedBy, this`cached
      modifies db`accounts, db`downloads, cached
      ensures Valid() && cached == old(cached)
      ensures State() == Idled(old(State()))
      ensures db.accounts == SaveTo(old(db.accounts), id, State())
      ensures r == Done || r == DuplicateUrl || r == NoDownload
      ensures r == NoDownload <==> cached == null
      ensures cached != null ==> cached.Dict() == PendingRecord(old(cached.Dict()))
      ensures cached != null ==> (r == Done <==> UrlAvailable(old(db.downloads), cached.id, cached.url))
      ensures cached != null ==>
        db.downloads == (if r == Done then old(db.downloads)[cached.id := cached.Dict()] else old(db.downloads))
      ensures cached == null ==> db.downloads == old(db.downloads)
      ensures cached != null ==> cached.id == old(cached.id)
      ensures old(UniqueUrls(db.downloads)) ==> UniqueUrls(db.downloads)
    {
      MarkAsIdle();
      var d := CurrentDownload();
      if d == null {
        r := NoDownload;
      } else {
        var ok := d.MarkAsPending();
        r := if ok then Done else DuplicateUrl;
      }
    }

    /**
     * `download_timeout(timeout)`: true exactly when the download was added more than
     * `timeout` seconds before `now`; only then is the account idled and saved.
     */
    method DownloadTimeout(now: int, timeout: int) returns (timedOut: bool)
      modifies this`status, this`addedAt, this`downloadId, this`lockedBy, db`accounts
      ensures timedOut <==> TimedOut(old(addedAt), timeout, now)
      ensures timedOut ==> State() == Idled(old(State())) && db.accounts == SaveTo(old(db.accounts), id, State())
      ensures !timedOut ==> State() == old(State()) && db.accounts == old(db.accounts)
    {
      timedOut := TimedOut(addedAt, timeout, now);
      if timedOut {
        MarkAsIdle();
      }
    }

    /**
     * `add_download(download)`: the reply `raw` to adding the download's url is parsed;
     * on success the account starts downloading it, otherwise it is idled. A reply
     * that cannot be parsed raises before anything changes.
     */
    method AddDownload(download: Download, raw: RawReply, now: int) returns (r: Result<AddResponse>, outcome: Outcome)
      requires Valid()
      modifies this`downloadId, this`addedAt, this`status, this`lockedBy, this`cached
      modifies db`accounts, db`downloads, cached
      ensures Valid()
      ensures r == ParseReply(raw)
      ensures r.Raised? ==> State() == old(State()) && db.downloads == old(db.downloads) && outcome == Done
      ensures r.Ok? && r.value.success ==> State() == DownloadingFrom(old(State()), download.id, now)
      ensures !(r.Ok? && r.value.success) ==> cached == old(cached)
      ensures r.Ok? && r.value.success ==>
        (outcome == Done || outcome == DuplicateUrl || outcome == NoDownload) && (outcome == NoDownload <==> cached == null) &&
        (outcome == NoDownload ==> db.downloads == old(db.downloads)) &&
        (old(cached) != null ==> cached == old(cached))
      ensures r.Ok? && r.value.success && old(cached) == null && cached != null ==>
        fresh(cached) && cached.id == download.id && download.id in old(db.downloads) &&
        cached.url == old(db.downloads)[download.id].url && cached.name == old(db.downloads)[download.id].name
      ensures r.Ok? && r.value.success && cached != null ==>
        cached.status == DownloadStatus.Processing && cached.downloadName == r.value.name && cached.lockedBy == None &&
        (outcome == Done <==> UrlAvailable(old(db.downloads), cached.id, cached.url)) &&
        db.downloads == (if outcome == Done then old(db.downloads)[cached.id := cached.Dict()] else old(db.downloads))
      ensures r.Ok? && !r.value.success ==>
        State() == Idled(old(State())) && db.downloads == old(db.downloads) && outcome == Done
      ensures r.Ok? ==> status == (if r.value.success then SeedrStatus.Downloading else Idle)
      ensures db.accounts == if r.Raised? then old(db.accounts) else SaveTo(old(db.accounts), id, State())
      ensures old(UniqueUrls(db.downloads)) ==> UniqueUrls(db.downloads)
    {
      r := ParseReply(raw);
      outcome := Done;
      if r.Ok? {
        if r.value.success {
          outcome := MarkAsDownloading(download, r.value.name, now);
        } else {
          MarkAsIdle();
        }
      }
    }
  }
}
