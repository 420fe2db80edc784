# rss-reader-api: feed refresh and unread items, modelled in Dafny

The repository is a small Flask API over two PostgreSQL tables: `feed` (one row
per subscribed RSS feed, with its owner and a `refreshed` timestamp) and
`feed_item` (one row per stored item, with a `read` flag). It has two
behaviours beyond framework wiring, and this project models both:

- **Refresh** (`GET /api/feeds/refresh`). The endpoint visits every feed in turn.
  It fetches the feed's URL and turns each `<item>` of the document into a
  record of six tag values. Each record is then inserted unless a row of the
  same feed already has the same guid. When the document had at least one
  item, the feed's `refreshed` column is stamped with the current time.
- **Unread items** (`GET /api/feeds`). This returns the unread rows of the
  caller's feeds, newest `published` first.

Modules:

- `wrappers.dfy` (`Wrappers`): `Option` for SQL NULL / Python `None`, and
  `Result`.
- `tables.dfy` (`Tables`): the tables as values (`Db`, `Row`, `Record`,
  `Feed`). It also holds the insert statement: `InsertNew` is one execution,
  `InsertAll` is `executemany` over a batch. Its lemmas cover the SQL rule
  that a NULL guid never matches, append-only behaviour, and uniqueness of
  `(feedid, guid)`.
- `extract.dfy` (`Extract`): one parsed `<item>` becomes an insert record, or
  the lookup that raises.
- `refresh.dfy` (`Refresh`): a whole run of the endpoint as a function of the
  database, the fetched documents and the clock. Its lemmas cover how a run
  ends, append-only behaviour, uniqueness, the watermark, and idempotence on
  a second run.
- `store.dfy` (`Store`): the endpoint as the program runs it. Class
  `Database` holds the tables as fields, and methods with loops update them
  in place. Each method is proved to produce exactly the state the `Refresh`
  functions describe.
- `unread.dfy` (`Unread`): the unread-items query as a filter and a sort.

Modelling choices:

- **Network.** The network is a parameter, `pages: map<url, document>`. A URL
  with no entry stands for a `requests.get` that raises. `requests` does not
  raise on an HTTP error status, so a 404 page is just another document.
- **Parsed documents.** The XML parse is outside the model. A document is the
  sequence of its `<item>` elements. Each element is a map from tag name to
  that tag's `.string`. A missing key means `find` returned `None`, so reading
  `.string` raises. A `None` value means the tag exists but has no single
  string child; it is stored as NULL.
- **Commits.** Each `mutate_query` is taken to commit on its own. When a run
  raises at some feed, the rows and stamps of earlier feeds stay. The failing
  feed and all later feeds are untouched.
- **Clock.** `now()` is one parameter for the whole run.
- **Row ids.** `feed_item.id` comes from a sequence, modelled as `Db.nextId`.
  New rows are unread.
- **Feed ids.** `feed.id` is taken to be the feed table's key.
- **Sort order of `published`.** The column type is not visible, so how two
  non-NULL `published` values compare is a parameter, `rank`. As in
  PostgreSQL, NULLs sort first under `DESC`.

The code does not isolate errors per feed: one failing feed aborts the whole
run, and the model does the same. The code also has no fallback dedup key
when an item has no guid, no Atom `<entry>` support, no date parsing, and no
request timeouts or size caps, so neither does the model.

## Model

| member | source | states |
|---|---|---|
| `Extract.FirstMissing` | web/__init__.py:90-95 | reading the tags in order raises at the first absent one: the result is that tag, all earlier tags are present, and there is no result iff every tag is present |
| `Extract.ExtractAllSpec` | web/__init__.py:87-97 | extraction succeeds iff every item has all six tags; then it yields one record per `<item>` in document order, with the feed's id, `name` from `title`, `url` from `link`, `description`, `content` from `content:encoded`, the raw `pubDate` text and `guid` |
| `Extract.ExtractAllFirstError` | web/__init__.py:87-97 | a failed extraction reports the first tag missing from the first item that lacks one; every earlier item is complete |
| `Extract.ExtractItems` | web/__init__.py:86-97 | the loop that builds `items` by `append` computes exactly the extraction function, including which lookup raises |
| `Tables.InsertAllHasKey` | web/__init__.py:100-114 | after `executemany`, the `NOT EXISTS` subquery finds `(feedid, guid)` iff that key was stored before or some record of the batch carries it; a NULL guid is never found, and a guid is found only for its own feed, so another feed's row never blocks an insert |
| `Tables.InsertAllAppendOnly` | web/__init__.py:100-114 | `executemany` only appends: old rows stay as they were, at most one row per record is added, each new row is an unread copy of a record, the new rows take the next ids of the sequence in insertion order, and feeds and watermarks are unchanged |
| `Tables.InsertAllAddsFresh` | web/__init__.py:100-114 | the rows a batch adds are exactly the records whose guid is NULL or whose key is neither stored nor carried by an earlier record of the batch, in batch order: records are inserted in order, and of two records with one key the first is stored and the later one skipped |
| `Tables.InsertAllKeepsWellFormed` | web/__init__.py:100-114 | inserting record by record, each check seeing earlier inserts, keeps non-NULL `(feedid, guid)` pairs unique, including duplicates within one batch |
| `Tables.InsertAllStoresKeys` | web/__init__.py:108-110 | after the batch, every record with a guid has a row of its feed with that guid |
| `Tables.InsertAllSkipsKnownKeys` | web/__init__.py:108-110 | when every guid of the batch is already stored for its feed, only guid-less rows are added |
| `Tables.InsertAllKeepsKeyless` | web/__init__.py:95-110 | every record whose guid is NULL is inserted on every execution: the guid-less rows added are exactly the guid-less records, in order |
| `Refresh.RefreshFeedSpec` | web/__init__.py:84-118 | handling one feed fails iff its request raises or one of its items lacks a tag; a raised request is `FetchFailed`, otherwise the error is the first tag missing from the first item that lacks one; on success the feed's records are inserted, the feed list is unchanged, and `refreshed` is stamped with the run's time iff the document has at least one item |
| `Refresh.RefreshAllDone` | web/__init__.py:82-118 | a run completes iff every feed is fetched and every item of every feed has all six tags |
| `Refresh.RefreshAllAborted` | web/__init__.py:82-118 | a run that does not complete stops at the first feed that is not fetched or not extracted, naming it and the cause; the database is what the run over the earlier feeds left, with nothing written for the failing feed or later ones |
| `Refresh.RefreshAllAppendOnly` | web/__init__.py:99-118 | a run never changes or removes a `feed_item` row and adds only unread rows; the feed rows are unchanged apart from their `refreshed` column |
| `Refresh.RefreshAllKeepsWellFormed` | web/__init__.py:99-118 | a run keeps the non-NULL `(feedid, guid)` pairs of `feed_item` unique and the row ids ordered |
| `Refresh.RefreshAllWatermark` | web/__init__.py:99-118 | a feed's `refreshed` becomes the run's time iff the run got through it and its document had at least one item, even if no row was new; every other feed keeps its old value or NULL |
| `Refresh.RefreshAllCovers` | web/__init__.py:83-114 | after a run, every record with a guid of every feed the run got through is stored |
| `Refresh.RefreshAllCoveredAddsKeyless` | web/__init__.py:83-114 | a run over feeds whose records with guids are all stored adds only guid-less rows |
| `Refresh.RefreshTwice` | web/__init__.py:81-118 | a second run over the same feeds with unchanged documents only appends, and every row it adds has a NULL guid |
| `Store.Database.InsertItems` | web/__init__.py:100-114 | the `executemany` loop updates the table in place to exactly `InsertAll` of the old table and keeps it well-formed |
| `Store.Database.Refresh` | web/__init__.py:81-119 | the endpoint's loop leaves exactly the database and outcome of `RefreshAll` over the feed list it read, and keeps the table well-formed |
| `Unread.InsertByPublished` | web/__init__.py:73 | inserting one row into a list sorted by `published DESC` (NULLs first) keeps it sorted and adds exactly that row |
| `Unread.SortDesc` | web/__init__.py:73 | the sort returns a permutation of its input ordered by `published` non-increasing, NULLs first |
| `Unread.UnreadItems` | web/__init__.py:64-76 | the result is ordered by `published` non-increasing and is a permutation of the selected unread rows of the user's feeds |
| `Unread.SelectedMembers` | web/__init__.py:69-72 | a row is selected iff it is unread and a feed with its feed id belongs to the user |
| `Unread.UnreadItemsCount` | web/__init__.py:64-76 | the query returns exactly as many rows as there are unread `feed_item` rows of the user's feeds |
| `Unread.UnreadItemsMembers` | web/__init__.py:64-76 | a row view is in the result iff some unread row of one of the user's feeds has it |
| `Unread.UnreadItemsOnce` | web/__init__.py:64-76 | in a well-formed database, each unread row of the user's feeds appears exactly once in the result |

## Left out

- The HTTP fetch (`requests.get`) is I/O; its results are the `pages` parameter.
- The XML parse (BeautifulSoup) is a foreign library; its output is the
  parameter. This includes how `find` searches nested elements and matches
  the prefixed name `content:encoded`.
- The database helpers `fetch_query`, `mutate_query` and
  `disconnect_database` are not part of this model. Only the semantics of the
  SQL text is modelled. Commit behaviour is an assumption, stated above.
- `Refresh.RefreshAll`: `now()` is one value for the whole run. In
  PostgreSQL it is the start time of the transaction that runs each `UPDATE`,
  so it may differ from feed to feed.
- `Unread.UnreadItems`: PostgreSQL's comparison of two non-NULL `published`
  values is the `rank` parameter. Rows with equal keys may come back in any
  order; the contract promises only sortedness and the permutation.
- A database statement that fails is not modelled: a value the column type
  rejects, a lost connection or any other error from PostgreSQL. A run stops
  only for the two causes in `Refresh.Cause`: a request that raises and an
  item that lacks a tag.
- The fetch results are keyed by URL, so two feed rows with the same URL get
  the same document, or the same failure, within one run. The code makes
  one request per feed row (web/__init__.py:84), and two such requests could
  return different documents.
- The JSON encoding of the result (`jsonify`) is left out, including the
  duplicate `content` column collapsing into one key.
- Flask setup, CORS, the SMTP error mail, the 500 handler and teardown are
  framework wiring.
- Login and token checking (`web.authorisation`, `authenticate_user`) are not
  part of this model; the query takes the caller's user id as a parameter.
- Concurrent runs are out of scope; the model is sequential. So is any change
  to the `read` flag, which happens outside this code.
