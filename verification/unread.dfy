/**
 * The unread-items query of the feeds endpoint:
 *
 *   SELECT fi.id, fi.name, fi.url, fi.content, fi.description, fi.content, fi.published
 *   FROM feed_item fi LEFT JOIN feed f ON (f.id = fi.feedid)
 *   WHERE fi.read = false AND f.userid = :userid
 *   ORDER BY fi.published DESC
 *
 * The `f.userid = :userid` test discards the rows the left join left without
 * a feed, so a row is selected when it is unread and some feed row with its
 * feed id belongs to the user (feed.id is the feed table's key, so there is
 * at most one). PostgreSQL puts NULLs first in a descending sort; how two
 * non-NULL `published` values compare depends on the column's type, so it is
 * given as `rank`. Rows with equal keys come back in no promised order.
 */
module Unread {
  import opened Wrappers
  import opened Tables

  /** The selected columns of one result row. */
  datatype ItemView = ItemView(
    id: nat,
    name: Option<Text>,
    url: Option<Text>,
    content: Option<Text>,
    description: Option<Text>,
    published: Option<Text>)

  function View(row: Row): ItemView {
    ItemView(row.id, row.item.name, row.item.url, row.item.content, row.item.description, row.item.published)
  }

  /** Some feed with id `feedid` belongs to `user`. */
  predicate OwnedBy(feeds: seq<Feed>, feedid: FeedId, user: UserId) {
    exists k | 0 <= k < |feeds| :: feeds[k].id == feedid && feeds[k].userid == user
  }

  /** The WHERE clause. */
  predicate Wanted(feeds: seq<Feed>, row: Row, user: UserId) {
    !row.read && OwnedBy(feeds, row.item.feedid, user)
  }

  /** The selected rows in table order, before sorting. */
  function Selected(feeds: seq<Feed>, rows: seq<Row>, user: UserId): seq<ItemView>
    decreases |rows|
  {
    if |rows| == 0 then []
    else
      var init := Selected(feeds, rows[..|rows| - 1], user);
      if Wanted(feeds, rows[|rows| - 1], user) then init + [View(rows[|rows| - 1])] else init
  }

  /** `a` may come before `b` under `ORDER BY published DESC` (NULLS FIRST). */
  predicate Precedes(a: ItemView, b: ItemView, rank: Text -> int) {
    a.published.None? || (b.published.Some? && rank(a.published.value) >= rank(b.published.value))
  }

  predicate SortedDesc(s: seq<ItemView>, rank: Text -> int) {
    forall i, j | 0 <= i < j < |s| :: Precedes(s[i], s[j], rank)
  }

  /** `v` put into the sorted `s` in front of the first element it may precede. */
  function InsertByPublished(v: ItemView, s: seq<ItemView>, rank: Text -> int): (r: seq<ItemView>)
    requires SortedDesc(s, rank)
    ensures SortedDesc(r, rank)
    ensures multiset(r) == multiset(s) + multiset{v}
    decreases |s|
  {
    if |s| == 0 then [v]
    else if Precedes(v, s[0], rank) then
      assert forall j | 0 < j < |s| :: Precedes(s[0], s[j], rank);
      [v] + s
    else
      var rest := InsertByPublished(v, s[1..], rank);
      assert s == [s[0]] + s[1..];
      HeadPrecedes(v, s, rest, rank);
      [s[0]] + rest
  }

  /** The head of a sorted `s` that `v` may not precede may precede every element of `s[1..]` with `v` added. */
  lemma HeadPrecedes(v: ItemView, s: seq<ItemView>, rest: seq<ItemView>, rank: Text -> int)
    requires |s| > 0 && SortedDesc(s, rank) && !Precedes(v, s[0], rank)
    requires multiset(rest) == multiset(s[1..]) + multiset{v}
    ensures forall x | x in rest :: Precedes(s[0], x, rank)
  {
    forall x | x in rest ensures Precedes(s[0], x, rank) {
      assert x in multiset(rest);
      if x != v {
        assert x in multiset(s[1..]);
        var j :| 0 <= j < |s[1..]| && s[1..][j] == x;
        assert s[j + 1] == x;
      }
    }
  }

  /** The rows of `s` in `ORDER BY published DESC` order. */
  function SortDesc(s: seq<ItemView>, rank: Text -> int): (r: seq<ItemView>)
    ensures SortedDesc(r, rank)
    ensures multiset(r) == multiset(s)
    decreases |s|
  {
    if |s| == 0 then []
    else
      assert s == s[..|s| - 1] + [s[|s| - 1]];
      InsertByPublished(s[|s| - 1], SortDesc(s[..|s| - 1], rank), rank)
  }

  /**
   * The unread items of `user`: the selected rows, each once, newest
   * `published` first (NULL before any date).
   */
  function UnreadItems(db: Db, user: UserId, rank: Text -> int): (r: seq<ItemView>)
    ensures SortedDesc(r, rank)
    ensures multiset(r) == multiset(Selected(db.feeds, db.items, user))
  {
    SortDesc(Selected(db.feeds, db.items, user), rank)
  }

  /** A view is selected exactly when it is the view of an unread row of one of the user's feeds. */
  lemma {:induction false} SelectedMembers(feeds: seq<Feed>, rows: seq<Row>, user: UserId, v: ItemView)
    ensures v in Selected(feeds, rows, user) <==>
      exists i | 0 <= i < |rows| :: Wanted(feeds, rows[i], user) && View(rows[i]) == v
    decreases |rows|
  {
    if |rows| > 0 {
      var init := rows[..|rows| - 1];
      SelectedMembers(feeds, init, user, v);
      if exists i | 0 <= i < |init| :: Wanted(feeds, init[i], user) && View(init[i]) == v {
        var i :| 0 <= i < |init| && Wanted(feeds, init[i], user) && View(init[i]) == v;
        assert rows[i] == init[i];
      }
      if exists i | 0 <= i < |rows| :: Wanted(feeds, rows[i], user) && View(rows[i]) == v {
        var i :| 0 <= i < |rows| && Wanted(feeds, rows[i], user) && View(rows[i]) == v;
        if i < |init| { assert init[i] == rows[i]; }
      }
    }
  }

  /** The indices of `rows` that pass the WHERE clause. */
  function WantedIndices(feeds: seq<Feed>, rows: seq<Row>, user: UserId): set<nat> {
    set i: nat | i < |rows| && Wanted(feeds, rows[i], user)
  }

  lemma WantedIndicesSnoc(feeds: seq<Feed>, rows: seq<Row>, user: UserId)
    requires |rows| > 0
    ensures var n := |rows|;
      WantedIndices(feeds, rows, user) ==
        WantedIndices(feeds, rows[..n - 1], user) + if Wanted(feeds, rows[n - 1], user) then {n - 1} else {}
  {
    var n := |rows|;
    assert forall i | 0 <= i < n - 1 :: rows[..n - 1][i] == rows[i];
  }

  /** The filter keeps one view per row that passes the WHERE clause. */
  lemma {:induction false} SelectedCounts(feeds: seq<Feed>, rows: seq<Row>, user: UserId)
    ensures |Selected(feeds, rows, user)| == |WantedIndices(feeds, rows, user)|
    decreases |rows|
  {
    var n := |rows|;
    if n == 0 {
      assert WantedIndices(feeds, rows, user) == {};
    } else {
      var init := rows[..n - 1];
      SelectedCounts(feeds, init, user);
      WantedIndicesSnoc(feeds, rows, user);
      var a := WantedIndices(feeds, init, user);
      assert n - 1 !in a;
    }
  }

  /** The query returns one row per unread `feed_item` row of the user's feeds, and no more. */
  lemma UnreadItemsCount(db: Db, user: UserId, rank: Text -> int)
    ensures |UnreadItems(db, user, rank)| == |WantedIndices(db.feeds, db.items, user)|
  {
    var sel := Selected(db.feeds, db.items, user);
    assert |UnreadItems(db, user, rank)| == |multiset(UnreadItems(db, user, rank))| == |multiset(sel)| == |sel|;
    SelectedCounts(db.feeds, db.items, user);
  }

  /**
   * The query returns exactly the unread rows of the user's feeds: a view is
   * in the result iff some such row has it, and when row ids are distinct each
   * of those rows appears exactly once.
   */
  lemma UnreadItemsMembers(db: Db, user: UserId, rank: Text -> int, v: ItemView)
    ensures v in UnreadItems(db, user, rank) <==>
      exists i | 0 <= i < |db.items| :: Wanted(db.feeds, db.items[i], user) && View(db.items[i]) == v
  {
    var sel := Selected(db.feeds, db.items, user);
    assert v in UnreadItems(db, user, rank) <==> v in multiset(sel);
    SelectedMembers(db.feeds, db.items, user, v);
  }

  /** With distinct row ids, no view is selected twice. */
  lemma {:induction false} SelectedDistinct(feeds: seq<Feed>, rows: seq<Row>, user: UserId, nextId: nat)
    requires IdsOrdered(rows, nextId)
    ensures forall v | v in multiset(Selected(feeds, rows, user)) :: multiset(Selected(feeds, rows, user))[v] == 1
    decreases |rows|
  {
    if |rows| > 0 {
      var n := |rows|;
      var init, last := rows[..n - 1], rows[n - 1];
      assert IdsOrdered(init, nextId);
      SelectedDistinct(feeds, init, user, nextId);
      var s0 := Selected(feeds, init, user);
      if Wanted(feeds, last, user) {
        SelectedMembers(feeds, init, user, View(last));
        assert View(last) !in s0;
        assert multiset(s0 + [View(last)]) == multiset(s0) + multiset{View(last)};
      }
    }
  }

  /** In a well-formed database, every unread row of the user's feeds is returned exactly once. */
  lemma UnreadItemsOnce(db: Db, user: UserId, rank: Text -> int, i: nat)
    requires WellFormed(db)
    requires i < |db.items| && Wanted(db.feeds, db.items[i], user)
    ensures multiset(UnreadItems(db, user, rank))[View(db.items[i])] == 1
  {
    SelectedDistinct(db.feeds, db.items, user, db.nextId);
    SelectedMembers(db.feeds, db.items, user, View(db.items[i]));
  }
}
