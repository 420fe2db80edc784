/**
 * The refresh endpoint as the program runs it: a loop over the feed list that
 * changes the two tables in place. `Database` holds the tables; its methods
 * are proved to leave exactly the state the `Refresh` functions describe, so
 * every lemma there applies to them.
 */
module Store {
  import opened Wrappers
  import opened Tables
  import opened Extract
  import opened Refresh

  class Database {
    var feeds: seq<Feed>
    var items: seq<Row>
    var nextId: nat
    var refreshed: map<FeedId, Timestamp>

    /** The tables as a value. */
    function State(): Db
      reads this
    {
      Db(feeds, items, nextId, refreshed)
    }

    /** feed_item's non-NULL `(feedid, guid)` pairs are unique and its ids come from the sequence. */
    ghost predicate Valid()
      reads this
    {
      WellFormed(State())
    }

    /** A database with the given feed table, no items and no feed refreshed yet. */
    constructor (feeds: seq<Feed>)
      ensures Valid()
      ensures State() == Db(feeds, [], 0, map[])
    {
      this.feeds := feeds;
      items := [];
      nextId := 0;
      refreshed := map[];
    }

    /** `executemany` of the insert-if-absent statement over `recs`, in order. */
    method InsertItems(recs: seq<Record>)
      requires Valid()
      modifies this
      ensures Valid()
      ensures State() == InsertAll(old(State()), recs)
      ensures old(items) <= items && feeds == old(feeds) && refreshed == old(refreshed)
    {
      var i := 0;
      while i < |recs|
        invariant 0 <= i <= |recs|
        invariant Valid()
        invariant State() == InsertAll(old(State()), recs[..i])
      {
        var rec := recs[i];
        assert recs[..i + 1][..i] == recs[..i];
        InsertNewKeepsWellFormed(State(), rec);
        if !HasKey(items, rec.feedid, rec.guid) {
          items := items + [Row(nextId, rec, false)];
          nextId := nextId + 1;
        }
        i := i + 1;
      }
      assert recs[..i] == recs;
      InsertAllAppendOnly(old(State()), recs);
    }

    /**
     * One call of the refresh endpoint: visit every feed of the feed table, in
     * order, inserting its new items and stamping it with `now` when its
     * document has items. `pages` stands for the network.
     */
    method Refresh(pages: Pages, now: Timestamp) returns (outcome: Outcome)
      requires Valid()
      modifies this
      ensures Valid()
      ensures Run(State(), outcome) == RefreshAll(old(State()), old(feeds), pages, now)
    {
      var feedList := feeds;
      ghost var start := State();
      var i := 0;
      while i < |feedList|
        invariant 0 <= i <= |feedList|
        invariant Valid()
        invariant feeds == feedList
        invariant RefreshAll(start, feedList[..i], pages, now) == Run(State(), Done)
      {
        var f := feedList[i];
        RefreshAllStep(start, feedList, i, pages, now);
        ghost var before := State();
        if f.url !in pages {
          outcome := Aborted(f.id, FetchFailed);
          RefreshAllAbortSticks(start, feedList, i + 1, pages, now);
          return;
        }
        var extracted := ExtractItems(f.id, pages[f.url]);
        if extracted.Err? {
          outcome := Aborted(f.id, MissingTag(extracted.error));
          RefreshAllAbortSticks(start, feedList, i + 1, pages, now);
          return;
        }
        var recs := extracted.value;
        if |recs| > 0 {
          InsertItems(recs);
          refreshed := refreshed[f.id := now];
        }
        assert RefreshFeed(before, f, pages, now) == Ok(State());
        i := i + 1;
      }
      assert feedList[..i] == feedList;
      outcome := Done;
    }
  }
}
