/**
 * rssbox/modules/watchrss.py: a watermark over an RSS feed. The watermark (the
 * `last_saved_on` time) is stored per feed id in the `watchrss` collection; `check`
 * hands the entries published strictly after it to a callback and, once the callback
 * has accepted them, moves the watermark to the time of the feed's first entry.
 * Fetching and parsing the feed are not modelled: the feed is a sequence of entries
 * with integer publication times, and the callback is represented by its reply.
 */
module WatchRss {
  import opened Common
  import opened Store
  import opened Downloads

  /** What the callback does with the new entries: returns a value, or raises. */
  datatype Reply = Returned(confirm: bool) | Failed

  /** `self.id = id or url`: the given id unless it is missing or empty, else the url. */
  function FeedId(url: string, id: Option<string>): (r: Id)
    ensures Truthy(id) ==> r == id.value
    ensures !Truthy(id) ==> r == url
  {
    if Truthy(id) then id.value else url
  }

  /**
   * The watermark `update_last_saved_on()` reloads: the stored one, or the current
   * time when the feed has no document yet.
   */
  function Reloaded(feeds: map<Id, int>, id: Id, now: int): (w: int)
    ensures id in feeds ==> w == feeds[id]
    ensures id !in feeds ==> w == now
  {
    if id in feeds then feeds[id] else now
  }

  /** The entries of `check`'s comprehension: published strictly after the watermark, in feed order. */
  function NewEntries(feed: seq<Entry>, watermark: int): (r: seq<Entry>)
    ensures |r| <= |feed|
  {
    if feed == [] then []
    else (if feed[0].published > watermark then [feed[0]] else []) + NewEntries(feed[1..], watermark)
  }

  /** Exactly the entries of the feed newer than the watermark are selected. */
  lemma {:induction false} NewEntriesMembers(feed: seq<Entry>, watermark: int, e: Entry)
    ensures e in NewEntries(feed, watermark) <==> e in feed && e.published > watermark
  {
    if feed != [] {
      NewEntriesMembers(feed[1..], watermark, e);
      assert feed == [feed[0]] + feed[1..];
    }
  }

  /** The selection keeps the feed's order: selecting from two parts is selecting from each in turn. */
  lemma {:induction false} NewEntriesAppend(a: seq<Entry>, b: seq<Entry>, watermark: int)
    ensures NewEntries(a + b, watermark) == NewEntries(a, watermark) + NewEntries(b, watermark)
  {
    if a == [] {
      assert a + b == b;
    } else {
      assert (a + b)[1..] == a[1..] + b;
      NewEntriesAppend(a[1..], b, watermark);
    }
  }

  /** The feed lists its newest entry first. */
  predicate NewestFirst(feed: seq<Entry>) {
    forall i, j :: 0 <= i < j < |feed| ==> feed[j].published <= feed[i].published
  }

  /** On a newest-first feed the new entries are a prefix of the feed. */
  lemma {:induction false} NewestFirstGivesPrefix(feed: seq<Entry>, watermark: int)
    requires NewestFirst(feed)
    ensures var r := NewEntries(feed, watermark); r == feed[..|r|]
  {
    if feed != [] {
      assert NewestFirst(feed[1..]);
      NewestFirstGivesPrefix(feed[1..], watermark);
      var rest := NewEntries(feed[1..], watermark);
      if feed[0].published > watermark {
        assert feed[..|rest| + 1] == [feed[0]] + feed[1..][..|rest|];
      } else if rest != [] {
        assert rest[0] == feed[1];
        NewEntriesMembers(feed[1..], watermark, rest[0]);
        assert false;
      }
    }
  }

  /** The callback was called and the watermark is to move: new entries and an accepted reply. */
  predicate Accepted(newEntries: seq<Entry>, checkConfirmation: bool, reply: Reply) {
    newEntries != [] && reply.Returned? && (!checkConfirmation || reply.confirm)
  }

  /**
   * The watermark after `check`, as written: the first entry's time is read before
   * anything else, so an empty feed raises IndexError.
   */
  function NextWatermarkAsWritten(watermark: int, feed: seq<Entry>, checkConfirmation: bool, reply: Reply)
    : (r: Result<int>)
    ensures feed == [] <==> r.Raised?
  {
    if feed == [] then Raised("IndexError: list index out of range")
    else if Accepted(NewEntries(feed, watermark), checkConfirmation, reply) then Ok(feed[0].published)
    else Ok(watermark)
  }

  /**
   * The watermark after `check`, corrected so that an empty feed, like any feed with no
   * new entry, leaves it as it is. It moves to the first entry's time only when there
   * are new entries and the callback returned (and, under confirmation, returned a
   * truthy value); a callback that raises leaves it unchanged.
   */
  function NextWatermark(watermark: int, feed: seq<Entry>, checkConfirmation: bool, reply: Reply): (r: int)
    ensures NewEntries(feed, watermark) == [] ==> r == watermark
    ensures reply.Failed? ==> r == watermark
    ensures checkConfirmation && reply == Returned(false) ==> r == watermark
    ensures Accepted(NewEntries(feed, watermark), checkConfirmation, reply) ==> feed != [] && r == feed[0].published
  {
    if Accepted(NewEntries(feed, watermark), checkConfirmation, reply) then feed[0].published else watermark
  }

  /** On an empty feed the code as written raises where the corrected watermark stays put. */
  lemma EmptyFeedRaises(watermark: int, checkConfirmation: bool, reply: Reply)
    ensures NextWatermarkAsWritten(watermark, [], checkConfirmation, reply).Raised?
    ensures NextWatermark(watermark, [], checkConfirmation, reply) == watermark
  {
  }

  /** On any non-empty feed the two agree. */
  lemma CorrectedAgreesOnNonEmptyFeeds(watermark: int, feed: seq<Entry>, checkConfirmation: bool, reply: Reply)
    requires feed != []
    ensures NextWatermarkAsWritten(watermark, feed, checkConfirmation, reply) ==
      Ok(NextWatermark(watermark, feed, checkConfirmation, reply))
  {
  }

  /** On a newest-first feed the watermark never moves back, and moves past every entry it delivered. */
  lemma {:induction false} WatermarkAdvances(watermark: int, feed: seq<Entry>, checkConfirmation: bool, reply: Reply)
    requires NewestFirst(feed)
    ensures NextWatermark(watermark, feed, checkConfirmation, reply) >= watermark
    ensures Accepted(NewEntries(feed, watermark), checkConfirmation, reply) ==>
      forall e :: e in NewEntries(feed, watermark) ==> e.published <= NextWatermark(watermark, feed, checkConfirmation, reply)
  {
    var r := NewEntries(feed, watermark);
    if Accepted(r, checkConfirmation, reply) {
      NewEntriesMembers(feed, watermark, r[0]);
      forall e | e in r ensures e.published <= feed[0].published {
        NewEntriesMembers(feed, watermark, e);
      }
    }
  }

  /** A check right after an accepted one delivers nothing again from the same newest-first feed. */
  lemma {:induction false} SecondCheckDeliversNothing(watermark: int, feed: seq<Entry>, checkConfirmation: bool, reply: Reply)
    requires NewestFirst(feed)
    requires Accepted(NewEntries(feed, watermark), checkConfirmation, reply)
    ensures NewEntries(feed, NextWatermark(watermark, feed, checkConfirmation, reply)) == []
  {
    var w := NextWatermark(watermark, feed, checkConfirmation, reply);
    var r := NewEntries(feed, w);
    if r != [] {
      NewEntriesMembers(feed, w, r[0]);
      assert false;
    }
  }

  /** When the feed is not newest first, an accepted check can move the watermark back. */
  lemma UnorderedFeedCanRecede()
    ensures NextWatermark(10, [Entry("a", "a", 5), Entry("b", "b", 20)], false, Returned(true)) == 5
  {
    assert NewEntries([Entry("b", "b", 20)], 10) == [Entry("b", "b", 20)];
    assert NewEntries([Entry("a", "a", 5), Entry("b", "b", 20)], 10) != [];
  }

  class WatchRSS {
    const url: string
    const id: Id
    const db: Database
    const checkConfirmation: bool
    var lastSavedOn: int

    /**
     * `WatchRSS(url, db, callback, id, last_saved_on, check_confirmation)` at time
     * `now`: an explicit watermark is stored; otherwise a feed without a document gets
     * `now` stored, and one with a document loads it.
     */
    constructor (url: string, db: Database, idArg: Option<string>, lastSavedOnArg: Option<int>,
                 checkConfirmation: bool, now: int)
      modifies db`feeds
      ensures this.url == url && this.id == FeedId(url, idArg) && this.db == db
      ensures this.checkConfirmation == checkConfirmation
      ensures lastSavedOnArg.Some? ==>
        lastSavedOn == lastSavedOnArg.value && db.feeds == old(db.feeds)[id := lastSavedOn]
      ensures lastSavedOnArg.None? && id !in old(db.feeds) ==>
        lastSavedOn == now && db.feeds == old(db.feeds)[id := now]
      ensures lastSavedOnArg.None? && id in old(db.feeds) ==>
        lastSavedOn == old(db.feeds)[id] && db.feeds == old(db.feeds)
    {
      this.url := url;
      this.id := FeedId(url, idArg);
      this.db := db;
      this.checkConfirmation := checkConfirmation;
      lastSavedOn := now;
      new;
      if lastSavedOnArg.Some? {
        UpdateLastSavedOn(lastSavedOnArg, now);
      } else if id !in db.feeds {
        UpdateLastSavedOn(Some(now), now);
      } else {
        UpdateLastSavedOn(None, now);
      }
    }

    /**
     * `update_last_saved_on(t)`: with a time, upsert it for this feed and hold it;
     * without one, reload the stored watermark (the current time if there is none).
     */
    method UpdateLastSavedOn(t: Option<int>, now: int)
      modifies this`lastSavedOn, db`feeds
      ensures t.Some? ==> lastSavedOn == t.value && db.feeds == old(db.feeds)[id := t.value]
      ensures t.None? ==> lastSavedOn == Reloaded(old(db.feeds), id, now) && db.feeds == old(db.feeds)
    {
      if t.Some? {
        db.feeds := db.feeds[id := t.value];
        lastSavedOn := t.value;
      } else {
        lastSavedOn := if id in db.feeds then db.feeds[id] else now;
      }
    }

    /**
     * `check()` on the fetched `feed`, with the corrected handling of an empty feed:
     * the watermark is reloaded, the new entries are delivered to the callback (none
     * when there are none), and the watermark is stored again only when the callback's
     * reply accepts them.
     */
    method Check(feed: seq<Entry>, reply: Reply, now: int) returns (delivered: seq<Entry>)
      modifies this`lastSavedOn, db`feeds
      ensures delivered == NewEntries(feed, Reloaded(old(db.feeds), id, now))
      ensures lastSavedOn == NextWatermark(Reloaded(old(db.feeds), id, now), feed, checkConfirmation, reply)
      ensures db.feeds == if Accepted(delivered, checkConfirmation, reply)
                          then old(db.feeds)[id := lastSavedOn] else old(db.feeds)
    {
      UpdateLastSavedOn(None, now);
      var entries := NewEntries(feed, lastSavedOn);
      delivered := entries;
      if entries != [] {
        var last := feed[0].published;
        match reply
        case Failed =>
        case Returned(confirm) =>
          if checkConfirmation {
            if confirm {
              UpdateLastSavedOn(Some(last), now);
            }
          } else {
            UpdateLastSavedOn(Some(last), now);
          }
      }
    }
  }
}
