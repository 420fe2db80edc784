/**
 * Turning the parsed `<item>` elements of one fetched document into insert
 * records. The fetch and the XML parse are outside the model: a document is
 * the sequence of its `<item>` elements in document order, each given as a map
 * from tag name to the tag's `.string` (absent key: `find` returned `None`;
 * `None` value: the tag exists but has no single string child).
 */
module Extract {
  import opened Wrappers
  import opened Tables

  type Entry = map<Text, Option<Text>>
  type Document = seq<Entry>

  /** The tags read from each item, in the order the record's fields are built. */
  const TAGS: seq<Text> := ["title", "link", "description", "content:encoded", "pubDate", "guid"]

  /** The first tag of `tags` that `e` lacks: the lookup that raises. */
  function FirstMissing(tags: seq<Text>, e: Entry): (r: Option<Text>)
    ensures r.None? <==> forall k | 0 <= k < |tags| :: tags[k] in e
    ensures r.Some? ==> exists k | 0 <= k < |tags| ::
      tags[k] == r.value && tags[k] !in e && forall j | 0 <= j < k :: tags[j] in e
  {
    if tags == [] then None
    else if tags[0] !in e then Some(tags[0])
    else
      var rest := FirstMissing(tags[1..], e);
      if rest.Some? then
        var k :| 0 <= k < |tags[1..]| && tags[1..][k] == rest.value && tags[1..][k] !in e
          && forall j | 0 <= j < k :: tags[1..][j] in e;
        assert tags[k + 1] == rest.value && tags[k + 1] !in e;
        assert forall j | 0 <= j < k + 1 :: tags[j] in e by {
          forall j | 0 <= j < k + 1 ensures tags[j] in e {
            if j > 0 { assert tags[j] == tags[1..][j - 1]; }
          }
        }
        rest
      else
        assert forall k | 0 <= k < |tags| :: tags[k] in e by {
          forall k | 0 <= k < |tags| ensures tags[k] in e {
            if k > 0 { assert tags[k] == tags[1..][k - 1]; }
          }
        }
        rest
  }

  /** Looking the six tags up in order raises on the first absent one. */
  lemma FirstMissingTags(e: Entry)
    ensures FirstMissing(TAGS, e) ==
      if "title" !in e then Some("title")
      else if "link" !in e then Some("link")
      else if "description" !in e then Some("description")
      else if "content:encoded" !in e then Some("content:encoded")
      else if "pubDate" !in e then Some("pubDate")
      else if "guid" !in e then Some("guid")
      else None
  {
    var t0 := TAGS;
    var t1, t2, t3 := t0[1..], t0[2..], t0[3..];
    var t4, t5, t6 := t0[4..], t0[5..], t0[6..];
    assert t1 == ["link", "description", "content:encoded", "pubDate", "guid"] && t1[1..] == t2;
    assert t2 == ["description", "content:encoded", "pubDate", "guid"] && t2[1..] == t3;
    assert t3 == ["content:encoded", "pubDate", "guid"] && t3[1..] == t4;
    assert t4 == ["pubDate", "guid"] && t4[1..] == t5;
    assert t5 == ["guid"] && t5[1..] == t6 && t6 == [];
    assert FirstMissing(t5, e) == if "guid" !in e then Some("guid") else None;
    assert FirstMissing(t4, e) == if "pubDate" !in e then Some("pubDate") else FirstMissing(t5, e);
    assert FirstMissing(t3, e) == if "content:encoded" !in e then Some("content:encoded") else FirstMissing(t4, e);
    assert FirstMissing(t2, e) == if "description" !in e then Some("description") else FirstMissing(t3, e);
    assert FirstMissing(t1, e) == if "link" !in e then Some("link") else FirstMissing(t2, e);
  }

  /** The item has all six tags, so building its record does not raise. */
  predicate Complete(e: Entry) {
    forall k | 0 <= k < |TAGS| :: TAGS[k] in e
  }

  lemma IncompleteIffMissing(e: Entry)
    ensures Complete(e) <==> FirstMissing(TAGS, e).None?
  {
  }

  /** The record of a complete item of feed `feedid`; `published` is the raw pubDate text. */
  function ToRecord(feedid: FeedId, e: Entry): Record
    requires Complete(e)
  {
    assert TAGS[0] == "title" && TAGS[1] == "link" && TAGS[2] == "description";
    assert TAGS[3] == "content:encoded" && TAGS[4] == "pubDate" && TAGS[5] == "guid";
    Record(feedid, e["title"], e["link"], e["description"], e["content:encoded"], e["pubDate"], e["guid"])
  }

  /** One item's record, or the first tag whose lookup raised. */
  function ExtractEntry(feedid: FeedId, e: Entry): Result<Record, Text> {
    match FirstMissing(TAGS, e)
    case Some(tag) => Err(tag)
    case None => Ok(ToRecord(feedid, e))
  }

  /** The records of all items of `doc` in document order, or the error of the first item that raised. */
  function ExtractAll(feedid: FeedId, doc: Document): Result<seq<Record>, Text>
    decreases |doc|
  {
    if |doc| == 0 then Ok([])
    else
      match ExtractAll(feedid, doc[..|doc| - 1])
      case Err(tag) => Err(tag)
      case Ok(recs) =>
        match ExtractEntry(feedid, doc[|doc| - 1])
        case Err(tag) => Err(tag)
        case Ok(rec) => Ok(recs + [rec])
  }

  /**
   * Extraction succeeds exactly when every item has all six tags, and then
   * yields one record per item, in document order, with the current feed's id
   * and each field taken from its tag.
   */
  lemma {:induction false} ExtractAllSpec(feedid: FeedId, doc: Document)
    ensures ExtractAll(feedid, doc).Ok? <==> forall i | 0 <= i < |doc| :: Complete(doc[i])
    ensures ExtractAll(feedid, doc).Ok? ==>
      var recs := ExtractAll(feedid, doc).value;
      |recs| == |doc| && forall i | 0 <= i < |doc| :: Complete(doc[i]) && recs[i] == ToRecord(feedid, doc[i])
    decreases |doc|
  {
    if |doc| > 0 {
      var n := |doc|;
      var init, last := doc[..n - 1], doc[n - 1];
      ExtractAllSpec(feedid, init);
      var prev := ExtractAll(feedid, init);
      if prev.Err? {
        ExtractAllFirstError(feedid, init);
        var i :| 0 <= i < n - 1 && FirstMissing(TAGS, init[i]) == Some(prev.error);
        assert init[i] == doc[i];
        IncompleteIffMissing(doc[i]);
      } else {
        var recs := prev.value;
        assert forall i | 0 <= i < n - 1 :: init[i] == doc[i];
        if Complete(last) {
          assert ExtractAll(feedid, doc) == Ok(recs + [ToRecord(feedid, last)]);
        } else {
          assert ExtractAll(feedid, doc).Err?;
        }
      }
    }
  }

  /** A failed extraction names the first missing tag of the first item that lacks one. */
  lemma {:induction false} ExtractAllFirstError(feedid: FeedId, doc: Document)
    requires ExtractAll(feedid, doc).Err?
    ensures exists i | 0 <= i < |doc| ::
      && (forall j | 0 <= j < i :: Complete(doc[j]))
      && FirstMissing(TAGS, doc[i]) == Some(ExtractAll(feedid, doc).error)
    decreases |doc|
  {
    var n := |doc|;
    var init := doc[..n - 1];
    var prev := ExtractAll(feedid, init);
    if prev.Err? {
      assert ExtractAll(feedid, doc) == prev;
      ExtractAllFirstError(feedid, init);
      var i :| 0 <= i < n - 1 && (forall j | 0 <= j < i :: Complete(init[j]))
        && FirstMissing(TAGS, init[i]) == Some(prev.error);
      assert forall j | 0 <= j <= i :: init[j] == doc[j];
      FirstErrorAt(doc, i, prev.error);
    } else {
      ExtractAllSpec(feedid, init);
      assert ExtractEntry(feedid, doc[n - 1]).Err?;
      assert forall j | 0 <= j < n - 1 :: init[j] == doc[j];
      FirstErrorAt(doc, n - 1, ExtractAll(feedid, doc).error);
    }
  }

  /** Item `i` of `doc` is the first incomplete one. */
  lemma FirstErrorAt(doc: Document, i: nat, tag: Text)
    requires i < |doc|
    requires forall j | 0 <= j < i :: Complete(doc[j])
    requires FirstMissing(TAGS, doc[i]) == Some(tag)
    ensures exists k | 0 <= k < |doc| :: (forall j | 0 <= j < k :: Complete(doc[j])) && FirstMissing(TAGS, doc[k]) == Some(tag)
  {
  }

  /** A failure on the first `n` items is the failure of the whole document. */
  lemma {:induction false} ExtractAllErrSticks(feedid: FeedId, doc: Document, n: nat)
    requires n <= |doc|
    requires ExtractAll(feedid, doc[..n]).Err?
    ensures ExtractAll(feedid, doc) == ExtractAll(feedid, doc[..n])
    decreases |doc| - n
  {
    if n < |doc| {
      assert doc[..n + 1][..n] == doc[..n];
      ExtractAllErrSticks(feedid, doc, n + 1);
    } else {
      assert doc[..n] == doc;
    }
  }

  /** The loop over `soup.find_all('item')` that builds the list of records. */
  method ExtractItems(feedid: FeedId, doc: Document) returns (r: Result<seq<Record>, Text>)
    ensures r == ExtractAll(feedid, doc)
  {
    var items: seq<Record> := [];
    var i := 0;
    while i < |doc|
      invariant 0 <= i <= |doc|
      invariant ExtractAll(feedid, doc[..i]) == Ok(items)
    {
      var e := doc[i];
      assert doc[..i + 1][..i] == doc[..i];
      if "title" !in e || "link" !in e || "description" !in e
        || "content:encoded" !in e || "pubDate" !in e || "guid" !in e
      {
        var tag := if "title" !in e then "title"
          else if "link" !in e then "link"
          else if "description" !in e then "description"
          else if "content:encoded" !in e then "content:encoded"
          else if "pubDate" !in e then "pubDate"
          else "guid";
        r := Err(tag);
        FirstMissingTags(e);
        ExtractAllErrSticks(feedid, doc, i + 1);
        return;
      }
      FirstMissingTags(e);
      var item := Record(feedid, e["title"], e["link"], e["description"], e["content:encoded"], e["pubDate"], e["guid"]);
      items := items + [item];
      i := i + 1;
    }
    assert doc[..i] == doc;
    r := Ok(items);
  }
}
