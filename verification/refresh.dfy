/**
 * One run of the refresh endpoint over the whole feed table, as a function of
 * the database before the run, the fetched documents and the clock.
 *
 * For each feed in table order: fetch its URL, build the records of all its
 * items, and, when there is at least one record, run the insert for each of
 * them and stamp the feed's `refreshed` column. A request that raises, or an
 * item that lacks one of the six tags, raises out of the endpoint: the run
 * stops at that feed, which gets no rows and no stamp, and later feeds are
 * not visited. Each statement is taken to commit on its own, so what earlier
 * feeds wrote stays.
 */
module Refresh {
  import opened Wrappers
  import opened Tables
  import opened Extract

  /** The document each URL's request returns; a URL with no entry is one whose request raises. */
  type Pages = map<Text, Document>

  /** Why a run stopped at a feed. */
  datatype Cause = FetchFailed | MissingTag(tag: Text)

  datatype Outcome = Done | Aborted(feed: FeedId, cause: Cause)

  /** The database after a run, and how the run ended. */
  datatype Run = Run(db: Db, outcome: Outcome)

  /** Feed `f` is fetched and all its items yield records. */
  predicate FeedOk(f: Feed, pages: Pages) {
    f.url in pages && ExtractAll(f.id, pages[f.url]).Ok?
  }

  /** The records of a feed that is fetched and extracted. */
  function Records(f: Feed, pages: Pages): seq<Record>
    requires FeedOk(f, pages)
  {
    ExtractAll(f.id, pages[f.url]).value
  }

  /** Why a failing feed stops the run. */
  function CauseOf(f: Feed, pages: Pages): Cause
    requires !FeedOk(f, pages)
  {
    if f.url !in pages then FetchFailed else MissingTag(ExtractAll(f.id, pages[f.url]).error)
  }

  /** The first `n` feeds of `fl` are all fetched and extracted. */
  predicate OkThrough(fl: seq<Feed>, pages: Pages, n: nat)
    requires n <= |fl|
  {
    forall k | 0 <= k < n :: FeedOk(fl[k], pages)
  }

  /** The body of the loop for one feed. */
  function RefreshFeed(db: Db, f: Feed, pages: Pages, now: Timestamp): Result<Db, Cause> {
    if f.url !in pages then Err(FetchFailed)
    else
      match ExtractAll(f.id, pages[f.url])
      case Err(tag) => Err(MissingTag(tag))
      case Ok(recs) =>
        if |recs| == 0 then Ok(db)
        else
          var d := InsertAll(db, recs);
          Ok(d.(refreshed := d.refreshed[f.id := now]))
  }

  /** The loop over the feed list `fl`. */
  function RefreshAll(db: Db, fl: seq<Feed>, pages: Pages, now: Timestamp): Run
    decreases |fl|
  {
    if |fl| == 0 then Run(db, Done)
    else
      var prev := RefreshAll(db, fl[..|fl| - 1], pages, now);
      if prev.outcome.Aborted? then prev
      else
        var f := fl[|fl| - 1];
        match RefreshFeed(prev.db, f, pages, now)
        case Err(cause) => Run(prev.db, Aborted(f.id, cause))
        case Ok(d) => Run(d, Done)
  }

  /** The loop body fails exactly on a feed that is not fetched or not extracted, for that feed's cause. */
  lemma RefreshFeedOk(db: Db, f: Feed, pages: Pages, now: Timestamp)
    ensures RefreshFeed(db, f, pages, now).Ok? <==> FeedOk(f, pages)
    ensures RefreshFeed(db, f, pages, now).Err? ==> RefreshFeed(db, f, pages, now).error == CauseOf(f, pages)
  {
  }

  /**
   * Handling one feed, in terms of its document: it fails iff the request
   * raises (and then nothing else is looked at) or some item lacks a tag, in
   * which case the error is the first tag missing from the first such item.
   * On success the feed's records are inserted, and its `refreshed` column is
   * stamped iff the document has at least one item.
   */
  lemma RefreshFeedSpec(db: Db, f: Feed, pages: Pages, now: Timestamp)
    ensures RefreshFeed(db, f, pages, now).Ok? <==>
      f.url in pages && forall i | 0 <= i < |pages[f.url]| :: Complete(pages[f.url][i])
    ensures f.url !in pages ==> RefreshFeed(db, f, pages, now) == Err(FetchFailed)
    ensures f.url in pages && RefreshFeed(db, f, pages, now).Err? ==>
      var doc, cause := pages[f.url], RefreshFeed(db, f, pages, now).error;
      cause.MissingTag? && exists i | 0 <= i < |doc| ::
        (forall j | 0 <= j < i :: Complete(doc[j])) && FirstMissing(TAGS, doc[i]) == Some(cause.tag)
    ensures RefreshFeed(db, f, pages, now).Ok? ==>
      var d := RefreshFeed(db, f, pages, now).value;
      && FeedOk(f, pages)
      && d.items == InsertAll(db, Records(f, pages)).items
      && d.feeds == db.feeds
      && d.refreshed == if |pages[f.url]| > 0 then db.refreshed[f.id := now] else db.refreshed
  {
    if f.url in pages {
      var doc := pages[f.url];
      ExtractAllSpec(f.id, doc);
      if ExtractAll(f.id, doc).Err? {
        ExtractAllFirstError(f.id, doc);
      } else {
        InsertAllAppendOnly(db, Records(f, pages));
      }
    }
  }

  /** Whether the first `m` feeds are fine does not depend on the feeds after them. */
  lemma OkThroughPrefix(fl: seq<Feed>, pages: Pages, n: nat, m: nat)
    requires m <= n <= |fl|
    ensures OkThrough(fl[..n], pages, m) == OkThrough(fl, pages, m)
  {
    assert forall k | 0 <= k < m :: fl[..n][k] == fl[k];
  }

  /** A run completes exactly when every feed is fetched and extracted. */
  lemma {:induction false} RefreshAllDone(db: Db, fl: seq<Feed>, pages: Pages, now: Timestamp)
    ensures RefreshAll(db, fl, pages, now).outcome.Done? <==> OkThrough(fl, pages, |fl|)
    decreases |fl|
  {
    if |fl| > 0 {
      var n := |fl|;
      var init, f := fl[..n - 1], fl[n - 1];
      RefreshAllDone(db, init, pages, now);
      OkThroughPrefix(fl, pages, n - 1, n - 1);
      var prev := RefreshAll(db, init, pages, now);
      var r := RefreshAll(db, fl, pages, now);
      if prev.outcome.Done? {
        RefreshFeedOk(prev.db, f, pages, now);
        assert OkThrough(fl, pages, n) <==> FeedOk(f, pages);
      } else {
        assert r == prev;
        assert !OkThrough(fl, pages, n - 1);
      }
    }
  }

  /**
   * A run that does not complete stops at the first feed that is not fetched
   * or not extracted, naming it and the cause, and leaves the database as the
   * run over the feeds before it left it: nothing of the failing feed or of
   * later feeds is written.
   */
  lemma {:induction false} RefreshAllAborted(db: Db, fl: seq<Feed>, pages: Pages, now: Timestamp)
    requires RefreshAll(db, fl, pages, now).outcome.Aborted?
    ensures var r := RefreshAll(db, fl, pages, now);
      exists i | 0 <= i < |fl| ::
        && OkThrough(fl, pages, i)
        && !FeedOk(fl[i], pages)
        && r.outcome == Aborted(fl[i].id, CauseOf(fl[i], pages))
        && r.db == RefreshAll(db, fl[..i], pages, now).db
    decreases |fl|
  {
    var n := |fl|;
    var init := fl[..n - 1];
    var prev := RefreshAll(db, init, pages, now);
    if prev.outcome.Aborted? {
      RefreshAllAborted(db, init, pages, now);
      var i :| 0 <= i < |init| && OkThrough(init, pages, i) && !FeedOk(init[i], pages)
        && prev.outcome == Aborted(init[i].id, CauseOf(init[i], pages))
        && prev.db == RefreshAll(db, init[..i], pages, now).db;
      AbortedWitness(db, fl, pages, now, i);
    } else {
      RefreshAllDone(db, init, pages, now);
      AbortedAtLast(db, fl, pages, now);
    }
  }

  /** The run stopped before the last feed: the witness for the feeds before it is one for all. */
  lemma AbortedWitness(db: Db, fl: seq<Feed>, pages: Pages, now: Timestamp, i: nat)
    requires 0 < |fl| && i < |fl| - 1
    requires var init := fl[..|fl| - 1];
      var prev := RefreshAll(db, init, pages, now);
      && prev.outcome.Aborted?
      && OkThrough(init, pages, i) && !FeedOk(init[i], pages)
      && prev.outcome == Aborted(init[i].id, CauseOf(init[i], pages))
      && prev.db == RefreshAll(db, init[..i], pages, now).db
    ensures var r := RefreshAll(db, fl, pages, now);
      && OkThrough(fl, pages, i)
      && !FeedOk(fl[i], pages)
      && r.outcome == Aborted(fl[i].id, CauseOf(fl[i], pages))
      && r.db == RefreshAll(db, fl[..i], pages, now).db
  {
    var init := fl[..|fl| - 1];
    assert init[..i] == fl[..i] && init[i] == fl[i];
    OkThroughPrefix(fl, pages, |fl| - 1, i);
  }

  /** The run got through all feeds but the last and stopped there. */
  lemma AbortedAtLast(db: Db, fl: seq<Feed>, pages: Pages, now: Timestamp)
    requires 0 < |fl|
    requires RefreshAll(db, fl, pages, now).outcome.Aborted?
    requires OkThrough(fl[..|fl| - 1], pages, |fl| - 1)
    requires RefreshAll(db, fl[..|fl| - 1], pages, now).outcome.Done?
    ensures var r := RefreshAll(db, fl, pages, now);
      var i := |fl| - 1;
      && OkThrough(fl, pages, i)
      && !FeedOk(fl[i], pages)
      && r.outcome == Aborted(fl[i].id, CauseOf(fl[i], pages))
      && r.db == RefreshAll(db, fl[..i], pages, now).db
  {
    var n := |fl|;
    var prev := RefreshAll(db, fl[..n - 1], pages, now);
    OkThroughPrefix(fl, pages, n - 1, n - 1);
    RefreshFeedOk(prev.db, fl[n - 1], pages, now);
  }

  /** Extending a completed run over the first `n` feeds by feed `n`. */
  lemma RefreshAllStep(db: Db, fl: seq<Feed>, n: nat, pages: Pages, now: Timestamp)
    requires n < |fl|
    requires RefreshAll(db, fl[..n], pages, now).outcome.Done?
    ensures var prev := RefreshAll(db, fl[..n], pages, now).db;
      RefreshAll(db, fl[..n + 1], pages, now) ==
        match RefreshFeed(prev, fl[n], pages, now)
        case Err(cause) => Run(prev, Aborted(fl[n].id, cause))
        case Ok(d) => Run(d, Done)
  {
    assert fl[..n + 1][..n] == fl[..n];
  }

  /** A run that stopped on the first `n` feeds is the run over all of them. */
  lemma {:induction false} RefreshAllAbortSticks(db: Db, fl: seq<Feed>, n: nat, pages: Pages, now: Timestamp)
    requires n <= |fl|
    requires RefreshAll(db, fl[..n], pages, now).outcome.Aborted?
    ensures RefreshAll(db, fl, pages, now) == RefreshAll(db, fl[..n], pages, now)
    decreases |fl| - n
  {
    if n < |fl| {
      assert fl[..n + 1][..n] == fl[..n];
      RefreshAllAbortSticks(db, fl, n + 1, pages, now);
    } else {
      assert fl[..n] == fl;
    }
  }

  /**
   * A run only appends to feed_item: existing rows are neither changed nor
   * removed, new rows are unread, and the feed rows are unchanged apart from `refreshed`.
   */
  lemma {:induction false} RefreshAllAppendOnly(db: Db, fl: seq<Feed>, pages: Pages, now: Timestamp)
    ensures var r := RefreshAll(db, fl, pages, now).db;
      && db.items <= r.items
      && r.feeds == db.feeds
      && forall k | |db.items| <= k < |r.items| :: !r.items[k].read
    decreases |fl|
  {
    if |fl| > 0 {
      var init, f := fl[..|fl| - 1], fl[|fl| - 1];
      RefreshAllAppendOnly(db, init, pages, now);
      var prev := RefreshAll(db, init, pages, now);
      if prev.outcome.Done? && FeedOk(f, pages) {
        InsertAllAppendOnly(prev.db, Records(f, pages));
      }
    }
  }

  /** A run keeps the non-NULL `(feedid, guid)` pairs of feed_item unique. */
  lemma {:induction false} RefreshAllKeepsWellFormed(db: Db, fl: seq<Feed>, pages: Pages, now: Timestamp)
    requires WellFormed(db)
    ensures WellFormed(RefreshAll(db, fl, pages, now).db)
    decreases |fl|
  {
    if |fl| > 0 {
      var init, f := fl[..|fl| - 1], fl[|fl| - 1];
      RefreshAllKeepsWellFormed(db, init, pages, now);
      var prev := RefreshAll(db, init, pages, now);
      if prev.outcome.Done? && FeedOk(f, pages) {
        InsertAllKeepsWellFormed(prev.db, Records(f, pages));
      }
    }
  }

  /** Some feed with id `x`, reached by the run, has a document with at least one item. */
  predicate Stamped(fl: seq<Feed>, pages: Pages, x: FeedId) {
    exists i | 0 <= i < |fl| :: OkThrough(fl, pages, i + 1) && fl[i].id == x && |pages[fl[i].url]| > 0
  }

  /** The run reaches the last feed of `fl`, extracts it, and its document has at least one item. */
  predicate LastStamps(fl: seq<Feed>, pages: Pages) {
    |fl| > 0 && OkThrough(fl, pages, |fl|) && |pages[fl[|fl| - 1].url]| > 0
  }

  lemma StampedStep(fl: seq<Feed>, pages: Pages, x: FeedId)
    requires |fl| > 0
    ensures Stamped(fl, pages, x) <==> Stamped(fl[..|fl| - 1], pages, x) || (LastStamps(fl, pages) && fl[|fl| - 1].id == x)
  {
    if Stamped(fl[..|fl| - 1], pages, x) {
      StampedGrows(fl, pages, x);
    }
    if Stamped(fl, pages, x) && !(LastStamps(fl, pages) && fl[|fl| - 1].id == x) {
      StampedShrinks(fl, pages, x);
    }
    if (LastStamps(fl, pages) && fl[|fl| - 1].id == x) {
      assert OkThrough(fl, pages, |fl| - 1 + 1);
    }
  }

  lemma StampedGrows(fl: seq<Feed>, pages: Pages, x: FeedId)
    requires |fl| > 0 && Stamped(fl[..|fl| - 1], pages, x)
    ensures Stamped(fl, pages, x)
  {
    var init := fl[..|fl| - 1];
    var i :| 0 <= i < |init| && OkThrough(init, pages, i + 1) && init[i].id == x && |pages[init[i].url]| > 0;
    OkThroughPrefix(fl, pages, |fl| - 1, i + 1);
    assert fl[i] == init[i];
  }

  lemma StampedShrinks(fl: seq<Feed>, pages: Pages, x: FeedId)
    requires |fl| > 0 && Stamped(fl, pages, x) && !(LastStamps(fl, pages) && fl[|fl| - 1].id == x)
    ensures Stamped(fl[..|fl| - 1], pages, x)
  {
    var init := fl[..|fl| - 1];
    var i :| 0 <= i < |fl| && OkThrough(fl, pages, i + 1) && fl[i].id == x && |pages[fl[i].url]| > 0;
    assert i < |fl| - 1;
    OkThroughPrefix(fl, pages, |fl| - 1, i + 1);
    assert init[i] == fl[i];
  }

  /** The watermark after handling one feed that the run reaches. */
  lemma RefreshFeedWatermark(d: Db, f: Feed, pages: Pages, now: Timestamp)
    requires FeedOk(f, pages)
    ensures var res := RefreshFeed(d, f, pages, now);
      res.Ok? && res.value.refreshed == if |pages[f.url]| > 0 then d.refreshed[f.id := now] else d.refreshed
  {
    ExtractAllSpec(f.id, pages[f.url]);
    InsertAllAppendOnly(d, Records(f, pages));
  }

  /** The watermarks after the run over `fl`, from those after the run over all feeds but the last. */
  lemma RefreshAllWatermarkStep(db: Db, fl: seq<Feed>, pages: Pages, now: Timestamp)
    requires |fl| > 0
    ensures var prev := RefreshAll(db, fl[..|fl| - 1], pages, now).db;
      RefreshAll(db, fl, pages, now).db.refreshed ==
        if LastStamps(fl, pages) then prev.refreshed[fl[|fl| - 1].id := now] else prev.refreshed
  {
    var n := |fl|;
    var init, f := fl[..n - 1], fl[n - 1];
    RefreshAllDone(db, init, pages, now);
    OkThroughPrefix(fl, pages, n - 1, n - 1);
    var prev := RefreshAll(db, init, pages, now);
    var r := RefreshAll(db, fl, pages, now);
    if prev.outcome.Aborted? {
      assert !OkThrough(fl, pages, n - 1);
      assert !LastStamps(fl, pages);
      assert r == prev;
    } else {
      assert OkThrough(fl, pages, n - 1);
      RefreshFeedOk(prev.db, f, pages, now);
      if FeedOk(f, pages) {
        assert OkThrough(fl, pages, n);
        RefreshFeedWatermark(prev.db, f, pages, now);
        assert r.db == RefreshFeed(prev.db, f, pages, now).value;
      } else {
        assert !OkThrough(fl, pages, n);
        assert r.db == prev.db;
      }
    }
  }

  /**
   * A feed's `refreshed` becomes the run's time exactly when the run reached
   * it and its document had at least one item, whether or not any row was
   * new; every other feed keeps its old value (or its NULL).
   */
  lemma {:induction false} RefreshAllWatermark(db: Db, fl: seq<Feed>, pages: Pages, now: Timestamp, x: FeedId)
    ensures var r := RefreshAll(db, fl, pages, now).db;
      if Stamped(fl, pages, x) then x in r.refreshed && r.refreshed[x] == now
      else (x in r.refreshed <==> x in db.refreshed) && (x in db.refreshed ==> r.refreshed[x] == db.refreshed[x])
    decreases |fl|
  {
    if |fl| > 0 {
      RefreshAllWatermark(db, fl[..|fl| - 1], pages, now, x);
      StampedStep(fl, pages, x);
      RefreshAllWatermarkStep(db, fl, pages, now);
    }
  }

  /** Every record with a guid of feed `f` already has its row. */
  predicate Covered(rows: seq<Row>, f: Feed, pages: Pages) {
    FeedOk(f, pages) ==>
      var recs := Records(f, pages);
      forall k | 0 <= k < |recs| && recs[k].guid.Some? :: HasKey(rows, recs[k].feedid, recs[k].guid)
  }

  lemma CoveredGrows(rows: seq<Row>, more: seq<Row>, f: Feed, pages: Pages)
    requires rows <= more && Covered(rows, f, pages)
    ensures Covered(more, f, pages)
  {
    if FeedOk(f, pages) {
      var recs := Records(f, pages);
      forall k | 0 <= k < |recs| && recs[k].guid.Some?
        ensures HasKey(more, recs[k].feedid, recs[k].guid)
      {
        HasKeyGrows(rows, more, recs[k].feedid, recs[k].guid);
      }
    }
  }

  /** After a run, every record with a guid of every feed the run got through has its row. */
  lemma {:induction false} RefreshAllCovers(db: Db, fl: seq<Feed>, pages: Pages, now: Timestamp)
    ensures forall i | 0 <= i < |fl| && OkThrough(fl, pages, i + 1) ::
      Covered(RefreshAll(db, fl, pages, now).db.items, fl[i], pages)
    decreases |fl|
  {
    if |fl| > 0 {
      var n := |fl|;
      var init, f := fl[..n - 1], fl[n - 1];
      RefreshAllCovers(db, init, pages, now);
      RefreshAllDone(db, init, pages, now);
      var prev := RefreshAll(db, init, pages, now);
      var r := RefreshAll(db, fl, pages, now);
      if prev.outcome.Done? && FeedOk(f, pages) {
        var recs := Records(f, pages);
        InsertAllAppendOnly(prev.db, recs);
        InsertAllStoresKeys(prev.db, recs);
        assert Covered(r.db.items, f, pages);
      }
      RefreshAllAppendOnly(db, init, pages, now);
      forall i | 0 <= i < n && OkThrough(fl, pages, i + 1)
        ensures Covered(r.db.items, fl[i], pages)
      {
        if i < n - 1 {
          assert init[i] == fl[i];
          assert OkThrough(init, pages, i + 1);
          if prev.outcome.Done? && FeedOk(f, pages) {
            CoveredGrows(prev.db.items, r.db.items, fl[i], pages);
          }
        }
      }
    }
  }

  /** Handling a feed whose keyed records are all stored adds only guid-less rows. */
  lemma RefreshFeedCoveredAddsKeyless(d: Db, f: Feed, pages: Pages, now: Timestamp)
    requires Covered(d.items, f, pages)
    ensures var res := RefreshFeed(d, f, pages, now);
      res.Ok? ==> d.items <= res.value.items && forall k | |d.items| <= k < |res.value.items| :: res.value.items[k].item.guid.None?
  {
    if FeedOk(f, pages) {
      InsertAllSkipsKnownKeys(d, Records(f, pages));
    }
  }

  /** What holds of the feeds of `fl` holds of those of `fl` without its last feed. */
  lemma CoveredPrefix(rows: seq<Row>, fl: seq<Feed>, pages: Pages)
    requires |fl| > 0
    requires forall i | 0 <= i < |fl| && OkThrough(fl, pages, i + 1) :: Covered(rows, fl[i], pages)
    ensures var init := fl[..|fl| - 1];
      forall i | 0 <= i < |init| && OkThrough(init, pages, i + 1) :: Covered(rows, init[i], pages)
  {
    var init := fl[..|fl| - 1];
    forall i | 0 <= i < |init| && OkThrough(init, pages, i + 1)
      ensures Covered(rows, init[i], pages)
    {
      assert init[i] == fl[i];
      OkThroughPrefix(fl, pages, |fl| - 1, i + 1);
    }
  }

  /** Two appended runs of guid-less rows make one. */
  lemma KeylessSegments(a: seq<Row>, b: seq<Row>, c: seq<Row>)
    requires a <= b <= c
    requires forall k | |a| <= k < |b| :: b[k].item.guid.None?
    requires forall k | |b| <= k < |c| :: c[k].item.guid.None?
    ensures a <= c
    ensures forall k | |a| <= k < |c| :: c[k].item.guid.None?
  {
    assert forall k | 0 <= k < |a| :: c[k] == b[k] == a[k];
    forall k | |a| <= k < |c| ensures c[k].item.guid.None? {
      if k < |b| { assert c[k] == b[k]; }
    }
  }

  /** A run over feeds whose keyed records are all stored already adds only guid-less rows. */
  lemma {:induction false} RefreshAllCoveredAddsKeyless(db: Db, fl: seq<Feed>, pages: Pages, now: Timestamp)
    requires forall i | 0 <= i < |fl| && OkThrough(fl, pages, i + 1) :: Covered(db.items, fl[i], pages)
    ensures var r := RefreshAll(db, fl, pages, now).db;
      db.items <= r.items && forall k | |db.items| <= k < |r.items| :: r.items[k].item.guid.None?
    decreases |fl|
  {
    if |fl| > 0 {
      var n := |fl|;
      CoveredPrefix(db.items, fl, pages);
      RefreshAllCoveredAddsKeyless(db, fl[..n - 1], pages, now);
      if OkThrough(fl, pages, n) {
        assert OkThrough(fl, pages, (n - 1) + 1);
      }
      CoveredStep(db, fl, pages, now);
    }
  }

  /** The step of `RefreshAllCoveredAddsKeyless` for the last feed of `fl`. */
  lemma CoveredStep(db: Db, fl: seq<Feed>, pages: Pages, now: Timestamp)
    requires |fl| > 0
    requires OkThrough(fl, pages, |fl|) ==> Covered(db.items, fl[|fl| - 1], pages)
    requires var p := RefreshAll(db, fl[..|fl| - 1], pages, now).db;
      db.items <= p.items && forall k | |db.items| <= k < |p.items| :: p.items[k].item.guid.None?
    ensures var r := RefreshAll(db, fl, pages, now).db;
      db.items <= r.items && forall k | |db.items| <= k < |r.items| :: r.items[k].item.guid.None?
  {
    var n := |fl|;
    var prev := RefreshAll(db, fl[..n - 1], pages, now);
    var r := RefreshAll(db, fl, pages, now);
    if prev.outcome.Done? && FeedOk(fl[n - 1], pages) {
      LastFeedCovered(db, fl, pages, now);
      FeedAddsKeyless(db, prev.db, fl[n - 1], pages, now);
      assert r.db == RefreshFeed(prev.db, fl[n - 1], pages, now).value;
    } else {
      RefreshFeedOk(prev.db, fl[n - 1], pages, now);
      assert r.db == prev.db;
    }
  }

  /** After a completed run over the feeds before it, the last feed is still covered. */
  lemma LastFeedCovered(db: Db, fl: seq<Feed>, pages: Pages, now: Timestamp)
    requires |fl| > 0 && FeedOk(fl[|fl| - 1], pages)
    requires OkThrough(fl, pages, |fl|) ==> Covered(db.items, fl[|fl| - 1], pages)
    requires var prev := RefreshAll(db, fl[..|fl| - 1], pages, now);
      prev.outcome.Done? && db.items <= prev.db.items
    ensures Covered(RefreshAll(db, fl[..|fl| - 1], pages, now).db.items, fl[|fl| - 1], pages)
  {
    var n := |fl|;
    RefreshAllDone(db, fl[..n - 1], pages, now);
    OkThroughPrefix(fl, pages, n - 1, n - 1);
    assert OkThrough(fl, pages, n);
    CoveredGrows(db.items, RefreshAll(db, fl[..n - 1], pages, now).db.items, fl[n - 1], pages);
  }

  /** A covered feed adds only guid-less rows on top of a state that holds only guid-less rows beyond `db`. */
  lemma FeedAddsKeyless(db: Db, prev: Db, f: Feed, pages: Pages, now: Timestamp)
    requires FeedOk(f, pages) && Covered(prev.items, f, pages)
    requires db.items <= prev.items && forall k | |db.items| <= k < |prev.items| :: prev.items[k].item.guid.None?
    ensures RefreshFeed(prev, f, pages, now).Ok?
    ensures var r := RefreshFeed(prev, f, pages, now).value;
      db.items <= r.items && forall k | |db.items| <= k < |r.items| :: r.items[k].item.guid.None?
  {
    RefreshFeedOk(prev, f, pages, now);
    RefreshFeedCoveredAddsKeyless(prev, f, pages, now);
    KeylessSegments(db.items, prev.items, RefreshFeed(prev, f, pages, now).value.items);
  }

  /**
   * Running the refresh a second time over the same feed list with unchanged
   * documents adds no row with a guid: the rows it adds, if any, are
   * guid-less items, which the insert can never recognise.
   */
  lemma RefreshTwice(db: Db, fl: seq<Feed>, pages: Pages, first: Timestamp, second: Timestamp)
    ensures var r1 := RefreshAll(db, fl, pages, first).db;
      var r2 := RefreshAll(r1, fl, pages, second).db;
      r1.items <= r2.items && forall k | |r1.items| <= k < |r2.items| :: r2.items[k].item.guid.None?
  {
    RefreshAllCovers(db, fl, pages, first);
    RefreshAllCoveredAddsKeyless(RefreshAll(db, fl, pages, first).db, fl, pages, second);
  }
}
