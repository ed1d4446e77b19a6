/** The status enumerations of rssbox/enum.py. */
module Enums {
  import opened Common

  /** Lifecycle of a queued download (a feed entry to fetch). */
  datatype DownloadStatus = Pending | Processing | Completed | Error

  /**
   * Lifecycle of a Seedr account. The first seven constructors are the members of
   * `SeedrStatus` in enum.py. `DownloadChecking` is NOT a member there: seedr_client.py
   * refers to `SeedrStatus.DOWNLOAD_CHECKING`, which Python rejects with an
   * AttributeError. It is added here, and used only by the model of seedr_client.py,
   * so that the client's intended behaviour can be stated; `FromValue` below keeps the
   * enumeration as written and `FromValueWithChecking` the extended one.
   */
  datatype SeedrStatus =
    | Idle | Processing | Downloading | Locked | Uploading | Completed | Error
    | DownloadChecking

  /** The string stored in the database for each status (`.value`). */
  function Value(s: SeedrStatus): string {
    match s
    case Idle => "IDLE"
    case Processing => "PROCESSING"
    case Downloading => "DOWNLOADING"
    case Locked => "LOCKED"
    case Uploading => "UPLOADING"
    case Completed => "COMPLETED"
    case Error => "ERROR"
    case DownloadChecking => "DOWNLOAD_CHECKING"
  }

  /** `Value` is injective: distinct statuses are stored as distinct strings. */
  lemma ValueInjective(s: SeedrStatus, t: SeedrStatus)
    requires Value(s) == Value(t)
    ensures s == t
  {
    assert Value(s)[0] == Value(t)[0];
    if s.Processing? || s.Completed? || s.Error? || s.DownloadChecking? || s.Downloading? {
      assert |Value(s)| == |Value(t)|;
    }
  }

  /**
   * `SeedrStatus(v)`: the lookup by value of the enumeration as enum.py declares it.
   * `None` stands for the ValueError Python raises for any other string.
   */
  function FromValue(v: string): (r: Option<SeedrStatus>)
    ensures r.Some? ==> Value(r.value) == v && !r.value.DownloadChecking?
    ensures forall s: SeedrStatus :: !s.DownloadChecking? && Value(s) == v ==> r == Some(s)
  {
    if v == "IDLE" then Some(Idle)
    else if v == "PROCESSING" then Some(SeedrStatus.Processing)
    else if v == "DOWNLOADING" then Some(Downloading)
    else if v == "LOCKED" then Some(Locked)
    else if v == "UPLOADING" then Some(Uploading)
    else if v == "COMPLETED" then Some(SeedrStatus.Completed)
    else if v == "ERROR" then Some(SeedrStatus.Error)
    else None
  }

  /**
   * The value the client stores while it checks an account has no member in the
   * enumeration as written: reading such an account back fails.
   */
  lemma DownloadCheckingHasNoMember()
    ensures FromValue(Value(DownloadChecking)) == None
  {
  }

  /** The corrected lookup, over the enumeration extended with `DOWNLOAD_CHECKING`. */
  function FromValueWithChecking(v: string): (r: Option<SeedrStatus>)
    ensures r.Some? ==> Value(r.value) == v
    ensures forall s: SeedrStatus :: Value(s) == v ==> r == Some(s)
  {
    if v == "DOWNLOAD_CHECKING" then Some(DownloadChecking) else FromValue(v)
  }

  /** With the extension, every stored status reads back as itself. */
  lemma {:induction false} ValueRoundTrip(s: SeedrStatus)
    ensures FromValueWithChecking(Value(s)) == Some(s)
    ensures !s.DownloadChecking? ==> FromValue(Value(s)) == Some(s)
  {
  }
}
