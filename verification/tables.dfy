/**
 * The two tables the refresh writes, `feed` and `feed_item`, as values, and
 * the insert statement that refresh runs once per parsed item:
 *
 *   INSERT INTO feed_item (...) SELECT ... WHERE NOT EXISTS (
 *     SELECT 1 FROM feed_item WHERE feedid = :feedid AND guid = :guid)
 *
 * Comparing with a NULL guid is never true in SQL, so a record without a guid
 * is never blocked; a row of another feed with the same guid does not block
 * either.
 */
module Tables {
  import opened Wrappers

  type FeedId = int
  type UserId = int
  type Timestamp = int
  type Text = string

  /** The parameters of one insert: a feed_item row as the refresh builds it. */
  datatype Record = Record(
    feedid: FeedId,
    name: Option<Text>,
    url: Option<Text>,
    description: Option<Text>,
    content: Option<Text>,
    published: Option<Text>,
    guid: Option<Text>)

  /** A stored feed_item row: the record plus the columns the database fills in. */
  datatype Row = Row(id: nat, item: Record, read: bool)

  /** A feed row; its `refreshed` column is kept in `Db.refreshed`. */
  datatype Feed = Feed(id: FeedId, url: Text, userid: UserId)

  /**
   * The database as the core sees it: the feed table in the order
   * `SELECT * FROM feed` returns it, the feed_item table in insertion order,
   * the next value of feed_item's id sequence, and each feed's `refreshed`
   * column (a feed id without an entry has `refreshed` NULL).
   */
  datatype Db = Db(feeds: seq<Feed>, items: seq<Row>, nextId: nat, refreshed: map<FeedId, Timestamp>)

  /** `feedid = :feedid AND guid = :guid` holds of `row` (never for a NULL guid). */
  predicate Matches(row: Row, feedid: FeedId, guid: Option<Text>) {
    guid.Some? && row.item.feedid == feedid && row.item.guid == guid
  }

  /** The `NOT EXISTS` subquery finds a row. */
  predicate HasKey(rows: seq<Row>, feedid: FeedId, guid: Option<Text>) {
    exists i | 0 <= i < |rows| :: Matches(rows[i], feedid, guid)
  }

  /** No two rows of one feed share a non-NULL guid. */
  predicate UniqueKeys(rows: seq<Row>) {
    forall i, j | 0 <= i < j < |rows| :: !Matches(rows[j], rows[i].item.feedid, rows[i].item.guid)
  }

  /** Row ids were drawn from the id sequence in insertion order. */
  predicate IdsOrdered(rows: seq<Row>, nextId: nat) {
    && (forall i | 0 <= i < |rows| :: rows[i].id < nextId)
    && (forall i, j | 0 <= i < j < |rows| :: rows[i].id < rows[j].id)
  }

  predicate WellFormed(db: Db) {
    UniqueKeys(db.items) && IdsOrdered(db.items, db.nextId)
  }

  /** One execution of the insert statement for `rec`. */
  function InsertNew(db: Db, rec: Record): Db {
    if HasKey(db.items, rec.feedid, rec.guid) then db
    else db.(items := db.items + [Row(db.nextId, rec, false)], nextId := db.nextId + 1)
  }

  /** `executemany` of the insert statement: one execution per record, in order. */
  function InsertAll(db: Db, recs: seq<Record>): Db
    decreases |recs|
  {
    if |recs| == 0 then db
    else InsertNew(InsertAll(db, recs[..|recs| - 1]), recs[|recs| - 1])
  }

  /** The guid-less records of `recs`, in order. */
  function Keyless(recs: seq<Record>): seq<Record> {
    if |recs| == 0 then []
    else if recs[|recs| - 1].guid.None? then Keyless(recs[..|recs| - 1]) + [recs[|recs| - 1]]
    else Keyless(recs[..|recs| - 1])
  }

  /** The records stored in `rows`, in order. */
  function ItemsOf(rows: seq<Row>): (r: seq<Record>)
    ensures |r| == |rows| && forall k | 0 <= k < |rows| :: r[k] == rows[k].item
  {
    if |rows| == 0 then [] else ItemsOf(rows[..|rows| - 1]) + [rows[|rows| - 1].item]
  }

  /** A key that is present stays present when rows are appended. */
  lemma HasKeyGrows(rows: seq<Row>, more: seq<Row>, feedid: FeedId, guid: Option<Text>)
    requires rows <= more
    requires HasKey(rows, feedid, guid)
    ensures HasKey(more, feedid, guid)
  {
    var i :| 0 <= i < |rows| && Matches(rows[i], feedid, guid);
    assert more[i] == rows[i];
  }

  /**
   * The insert only appends: existing rows are untouched, the feed table and
   * the watermarks are unchanged, and every new row is an unread copy of one
   * of the records, with the next ids of the sequence in insertion order.
   */
  lemma {:induction false} InsertAllAppendOnly(db: Db, recs: seq<Record>)
    ensures var r := InsertAll(db, recs);
      && db.items <= r.items
      && |r.items| - |db.items| <= |recs|
      && r.feeds == db.feeds && r.refreshed == db.refreshed
      && r.nextId == db.nextId + (|r.items| - |db.items|)
      && forall k | |db.items| <= k < |r.items| ::
           && !r.items[k].read && r.items[k].item in recs
           && r.items[k].id == db.nextId + (k - |db.items|)
    decreases |recs|
  {
    if |recs| > 0 {
      var init := recs[..|recs| - 1];
      InsertAllAppendOnly(db, init);
      var p := InsertAll(db, init);
      forall k | |db.items| <= k < |InsertAll(db, recs).items|
        ensures InsertAll(db, recs).items[k].item in recs
      {
        if k < |p.items| {
          assert p.items[k].item in init;
        }
      }
    }
  }

  /** One insert keeps keys unique and ids ordered. */
  lemma InsertNewKeepsWellFormed(db: Db, rec: Record)
    requires WellFormed(db)
    ensures WellFormed(InsertNew(db, rec))
  {
    var r := InsertNew(db, rec);
    if !HasKey(db.items, rec.feedid, rec.guid) {
      var n := |db.items|;
      forall i, j | 0 <= i < j < |r.items|
        ensures !Matches(r.items[j], r.items[i].item.feedid, r.items[i].item.guid)
      {
        if j == n && Matches(r.items[j], r.items[i].item.feedid, r.items[i].item.guid) {
          assert Matches(db.items[i], rec.feedid, rec.guid);
        }
      }
    }
  }

  /** `executemany` of the insert keeps the non-NULL `(feedid, guid)` pairs unique. */
  lemma {:induction false} InsertAllKeepsWellFormed(db: Db, recs: seq<Record>)
    requires WellFormed(db)
    ensures WellFormed(InsertAll(db, recs))
    decreases |recs|
  {
    if |recs| > 0 {
      InsertAllKeepsWellFormed(db, recs[..|recs| - 1]);
      InsertNewKeepsWellFormed(InsertAll(db, recs[..|recs| - 1]), recs[|recs| - 1]);
    }
  }

  /**
   * After the insert, every record with a guid has a row of its feed with that
   * guid: it was inserted, or an earlier row (stored before, or inserted from
   * an earlier record of the same batch) blocked it.
   */
  lemma {:induction false} InsertAllStoresKeys(db: Db, recs: seq<Record>)
    ensures forall k | 0 <= k < |recs| && recs[k].guid.Some? ::
      HasKey(InsertAll(db, recs).items, recs[k].feedid, recs[k].guid)
    decreases |recs|
  {
    if |recs| > 0 {
      var init, last := recs[..|recs| - 1], recs[|recs| - 1];
      var p := InsertAll(db, init);
      var r := InsertAll(db, recs);
      InsertAllStoresKeys(db, init);
      forall k | 0 <= k < |recs| && recs[k].guid.Some?
        ensures HasKey(r.items, recs[k].feedid, recs[k].guid)
      {
        if k < |init| {
          assert init[k] == recs[k];
          HasKeyGrows(p.items, r.items, recs[k].feedid, recs[k].guid);
        } else if !HasKey(p.items, last.feedid, last.guid) {
          assert Matches(r.items[|p.items|], last.feedid, last.guid);
        }
      }
    }
  }

  /** When every guid of the batch is already stored for its feed, only guid-less rows are added. */
  lemma {:induction false} InsertAllSkipsKnownKeys(db: Db, recs: seq<Record>)
    requires forall k | 0 <= k < |recs| && recs[k].guid.Some? :: HasKey(db.items, recs[k].feedid, recs[k].guid)
    ensures var r := InsertAll(db, recs);
      db.items <= r.items && forall k | |db.items| <= k < |r.items| :: r.items[k].item.guid.None?
    decreases |recs|
  {
    if |recs| > 0 {
      var init, last := recs[..|recs| - 1], recs[|recs| - 1];
      InsertAllSkipsKnownKeys(db, init);
      var p := InsertAll(db, init);
      if last.guid.Some? {
        HasKeyGrows(db.items, p.items, last.feedid, last.guid);
      }
    }
  }

  lemma KeylessSnoc(recs: seq<Record>, rec: Record)
    ensures Keyless(recs + [rec]) == if rec.guid.None? then Keyless(recs) + [rec] else Keyless(recs)
  {
    assert (recs + [rec])[..|recs|] == recs;
  }

  lemma ItemsOfSnoc(rows: seq<Row>, row: Row)
    ensures ItemsOf(rows + [row]) == ItemsOf(rows) + [row.item]
  {
    assert (rows + [row])[..|rows|] == rows;
  }

  /** Every guid-less record is inserted, in order, on every execution. */
  lemma {:induction false} InsertAllKeepsKeyless(db: Db, recs: seq<Record>)
    ensures var r := InsertAll(db, recs);
      db.items <= r.items && Keyless(ItemsOf(r.items[|db.items|..])) == Keyless(recs)
    decreases |recs|
  {
    if |recs| > 0 {
      var init, last := recs[..|recs| - 1], recs[|recs| - 1];
      InsertAllKeepsKeyless(db, init);
      var p := InsertAll(db, init);
      KeylessAfterInsertNew(db.items, p, last, Keyless(init));
      assert InsertAll(db, recs) == InsertNew(p, last);
      assert Keyless(recs) == if last.guid.None? then Keyless(init) + [last] else Keyless(init);
    }
  }

  /** The step of `InsertAllKeepsKeyless` for one more record. */
  lemma KeylessAfterInsertNew(rows: seq<Row>, p: Db, rec: Record, ks: seq<Record>)
    requires rows <= p.items && Keyless(ItemsOf(p.items[|rows|..])) == ks
    ensures var r := InsertNew(p, rec);
      rows <= r.items && Keyless(ItemsOf(r.items[|rows|..])) == if rec.guid.None? then ks + [rec] else ks
  {
    var before := p.items[|rows|..];
    if !HasKey(p.items, rec.feedid, rec.guid) {
      var row := Row(p.nextId, rec, false);
      assert (p.items + [row])[|rows|..] == before + [row];
      ItemsOfSnoc(before, row);
      KeylessSnoc(ItemsOf(before), rec);
    }
  }

  /** Some record of `recs` carries the non-NULL key `(feedid, guid)`. */
  predicate Carries(recs: seq<Record>, feedid: FeedId, guid: Option<Text>) {
    guid.Some? && exists j | 0 <= j < |recs| :: recs[j].feedid == feedid && recs[j].guid == guid
  }

  /**
   * The record `rec`, coming after `earlier` in the batch, is new for a table
   * that held `rows` before the batch: its guid is NULL, or its key is neither
   * stored nor carried by an earlier record of the batch.
   */
  predicate NewKey(rows: seq<Row>, earlier: seq<Record>, rec: Record) {
    rec.guid.None? || !(HasKey(rows, rec.feedid, rec.guid) || Carries(earlier, rec.feedid, rec.guid))
  }

  /**
   * The records of `recs` that a batch insert into `rows` should add, in batch
   * order, judged against `rows` and the batch alone: of several records with
   * one key, only the first, and only if the key was not stored before.
   */
  function Fresh(rows: seq<Row>, recs: seq<Record>): seq<Record>
    decreases |recs|
  {
    if |recs| == 0 then []
    else
      var init, last := recs[..|recs| - 1], recs[|recs| - 1];
      if NewKey(rows, init, last) then Fresh(rows, init) + [last] else Fresh(rows, init)
  }

  lemma HasKeySnoc(rows: seq<Row>, row: Row, feedid: FeedId, guid: Option<Text>)
    ensures HasKey(rows + [row], feedid, guid) <==> HasKey(rows, feedid, guid) || Matches(row, feedid, guid)
  {
    if HasKey(rows + [row], feedid, guid) && !Matches(row, feedid, guid) {
      var i :| 0 <= i < |rows| + 1 && Matches((rows + [row])[i], feedid, guid);
      assert Matches(rows[i], feedid, guid);
    }
    if HasKey(rows, feedid, guid) {
      var i :| 0 <= i < |rows| && Matches(rows[i], feedid, guid);
      assert (rows + [row])[i] == rows[i];
    }
    if Matches(row, feedid, guid) {
      assert (rows + [row])[|rows|] == row;
    }
  }

  /**
   * After the batch, the `NOT EXISTS` subquery finds a key exactly when it was
   * stored before or some record of the batch carries it: a NULL guid is never
   * found, and a key is found only for its own feed.
   */
  lemma {:induction false} InsertAllHasKey(db: Db, recs: seq<Record>, feedid: FeedId, guid: Option<Text>)
    ensures HasKey(InsertAll(db, recs).items, feedid, guid)
      <==> HasKey(db.items, feedid, guid) || Carries(recs, feedid, guid)
    decreases |recs|
  {
    if |recs| > 0 {
      var init, last := recs[..|recs| - 1], recs[|recs| - 1];
      InsertAllHasKey(db, init, feedid, guid);
      var p := InsertAll(db, init);
      assert Carries(recs, feedid, guid) <==>
        Carries(init, feedid, guid) || (guid.Some? && last.feedid == feedid && last.guid == guid)
      by {
        if Carries(recs, feedid, guid) {
          var j :| 0 <= j < |recs| && recs[j].feedid == feedid && recs[j].guid == guid;
          if j < |init| { assert init[j] == recs[j]; }
        }
        if Carries(init, feedid, guid) {
          var j :| 0 <= j < |init| && init[j].feedid == feedid && init[j].guid == guid;
          assert recs[j] == init[j];
        }
      }
      if HasKey(p.items, last.feedid, last.guid) {
        assert InsertAll(db, recs) == p;
        if guid.Some? && last.feedid == feedid && last.guid == guid {
          assert HasKey(p.items, feedid, guid);
        }
      } else {
        HasKeySnoc(p.items, Row(p.nextId, last, false), feedid, guid);
      }
    }
  }

  /**
   * The rows a batch adds are exactly the `Fresh` records, in batch order:
   * records are inserted in order, and of two records with one non-NULL key
   * the first is stored and the later one skipped.
   */
  lemma {:induction false} InsertAllAddsFresh(db: Db, recs: seq<Record>)
    ensures var r := InsertAll(db, recs);
      db.items <= r.items && ItemsOf(r.items[|db.items|..]) == Fresh(db.items, recs)
    decreases |recs|
  {
    if |recs| > 0 {
      var init, last := recs[..|recs| - 1], recs[|recs| - 1];
      InsertAllAddsFresh(db, init);
      var p := InsertAll(db, init);
      InsertAllHasKey(db, init, last.feedid, last.guid);
      assert NewKey(db.items, init, last) <==> !HasKey(p.items, last.feedid, last.guid);
      var before := p.items[|db.items|..];
      if !HasKey(p.items, last.feedid, last.guid) {
        var row := Row(p.nextId, last, false);
        assert InsertAll(db, recs).items == p.items + [row];
        assert (p.items + [row])[|db.items|..] == before + [row];
        ItemsOfSnoc(before, row);
      } else {
        assert InsertAll(db, recs) == p;
      }
    }
  }
}
