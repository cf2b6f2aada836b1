/**
 The comment-count rollup of `ArticleService.updateCommentCount`: the given
 article ids are normalised, comments are counted per article by an
 aggregate, and each counted article gets its cached `meta.comments` set.
 */
module CommentRollup {
  import opened Collections
  import opened Store

  /** The argument: a single id, or an array of ids. */
  datatype IdsArg = Scalar(id: string) | List(ids: seq<string>)

  /** `Array.isArray` or wrap the scalar into a one-element array. */
  function Normalize(arg: IdsArg): seq<string> {
    match arg
    case Scalar(id) => [id]
    case List(ids) => ids
  }

  /**
   `[...new Set(ids)].filter(isObjectId)`; converting a valid id to the
   store's identifier type keeps its identity.
   */
  function Targets(ids: seq<string>, isObjectId: string -> bool): (r: seq<Id>)
    ensures NoDup(r)
    ensures forall x :: x in r <==> x in ids && isObjectId(x)
  {
    FilterNoDup(Dedup(ids), isObjectId);
    Filter(Dedup(ids), isObjectId)
  }

  function CommentArticle(c: Comment): Id { c.article }

  /** The number of comments that reference article `id`. */
  function CommentCount(comments: seq<Comment>, id: Id): nat {
    |Filter(comments, (c: Comment) => c.article == id)|
  }

  /** One result row of the aggregate: an article id and its number of comments. */
  datatype CountRow = CountRow(article: Id, total: nat)

  function RowArticle(row: CountRow): Id { row.article }

  /** The `$match` stage: the comments on one of the targeted articles. */
  function Matched(comments: seq<Comment>, targets: seq<Id>): seq<Comment> {
    Filter(comments, (c: Comment) => c.article in targets)
  }

  /** The `$group` keys: each article of a matched comment, once. */
  function GroupKeys(matched: seq<Comment>): seq<Id> {
    Dedup(Map(matched, CommentArticle))
  }

  /** The `$group` row of one key: `$sum: 1` over the matched comments with that key. */
  function RowOf(matched: seq<Comment>, id: Id): CountRow {
    CountRow(id, |Filter(matched, (c: Comment) => c.article == id)|)
  }

  /**
   The aggregate `$match: { article: { $in: targets } }` then `$group` by
   `article` with `$sum: 1`: one row per targeted article that has comments,
   holding its exact number of comments.
   */
  function CountRows(comments: seq<Comment>, targets: seq<Id>): (rows: seq<CountRow>)
    ensures NoDup(Map(rows, RowArticle))
    ensures forall row :: row in rows ==> row.article in targets && row.total == CommentCount(comments, row.article) > 0
    ensures forall id :: id in targets && CommentCount(comments, id) > 0 ==> CountRow(id, CommentCount(comments, id)) in rows
  {
    var matched := Matched(comments, targets);
    var rows := Map(GroupKeys(matched), id => RowOf(matched, id));
    assert Map(rows, RowArticle) == GroupKeys(matched);
    forall row | row in rows ensures row.article in targets && row.total == CommentCount(comments, row.article) > 0 {
      var i :| 0 <= i < |rows| && rows[i] == row;
      RowSound(comments, targets, GroupKeys(matched)[i]);
    }
    forall id | id in targets && CommentCount(comments, id) > 0
      ensures CountRow(id, CommentCount(comments, id)) in rows
    {
      RowComplete(comments, targets, id);
      var i :| 0 <= i < |GroupKeys(matched)| && GroupKeys(matched)[i] == id;
      MatchedCount(comments, targets, id);
      assert rows[i] == CountRow(id, CommentCount(comments, id));
    }
    rows
  }

  /** Counting a targeted article's comments among the matched ones counts all of them. */
  lemma MatchedCount(comments: seq<Comment>, targets: seq<Id>, id: Id)
    requires id in targets
    ensures RowOf(Matched(comments, targets), id).total == CommentCount(comments, id)
  {
    FilterFilter(comments, (c: Comment) => c.article in targets, (c: Comment) => c.article == id);
  }

  /** Every group key is a targeted article, and its row holds its number of comments. */
  lemma RowSound(comments: seq<Comment>, targets: seq<Id>, id: Id)
    requires id in GroupKeys(Matched(comments, targets))
    ensures id in targets
    ensures RowOf(Matched(comments, targets), id).total == CommentCount(comments, id) > 0
  {
    var matched := Matched(comments, targets);
    var k :| 0 <= k < |matched| && Map(matched, CommentArticle)[k] == id;
    assert matched[k] in matched;
    FilterNonEmpty(comments, (c: Comment) => c.article == id, matched[k]);
    MatchedCount(comments, targets, id);
  }

  /** Every targeted article with a comment is a group key. */
  lemma RowComplete(comments: seq<Comment>, targets: seq<Id>, id: Id)
    requires id in targets && CommentCount(comments, id) > 0
    ensures id in GroupKeys(Matched(comments, targets))
  {
    var matched := Matched(comments, targets);
    var f := Filter(comments, (c: Comment) => c.article == id);
    assert f[0] in f;
    var c := f[0];
    assert c in matched;
    var k :| 0 <= k < |matched| && matched[k] == c;
    assert Map(matched, CommentArticle)[k] == id;
  }

  /** `$set: { 'meta.comments': n }`, or nothing when there is no row. */
  function Recount(a: Article, count: Option<nat>): Article {
    match count
    case Some(n) => a.(meta := a.meta.(comments := n))
    case None => a
  }

  /** The count of the row for `id`, if there is one. */
  function RowFor(rows: seq<CountRow>, id: Id): (r: Option<nat>)
    ensures r.None? <==> forall row :: row in rows ==> row.article != id
    ensures r.Some? ==> CountRow(id, r.value) in rows
  {
    if rows == [] then None
    else if rows[0].article == id then Some(rows[0].total)
    else RowFor(rows[1..], id)
  }

  /**
   `updateItemById` for one row: sets the count on the article with that id.
   With distinct stored ids, which MongoDB guarantees for `_id`, this touches
   at most the one document the update names.
   */
  function SetCount(articles: seq<Article>, row: CountRow): seq<Article> {
    Map(articles, (a: Article) => if a.id == row.article then Recount(a, Some(row.total)) else a)
  }

  /**
   The updates for all rows. `Promise.all` runs them concurrently; rows have
   distinct article ids, so their order does not matter and they are applied
   one after another here.
   */
  function ApplyRows(articles: seq<Article>, rows: seq<CountRow>): (r: seq<Article>)
    requires NoDup(Map(rows, RowArticle))
    decreases |rows|
    ensures |r| == |articles|
    ensures forall i :: 0 <= i < |articles| ==> r[i] == Recount(articles[i], RowFor(rows, articles[i].id))
  {
    if rows == [] then articles
    else
      var rest := rows[1..];
      assert Map(rest, RowArticle) == Map(rows, RowArticle)[1..];
      assert forall row :: row in rest ==> row.article != rows[0].article by {
        forall row | row in rest ensures row.article != rows[0].article {
          var k :| 0 <= k < |rest| && rest[k] == row;
          assert Map(rows, RowArticle)[k + 1] == row.article;
        }
      }
      ApplyRows(SetCount(articles, rows[0]), rest)
  }

  /** Whether `updateCommentCount(arg)` sets the count of article `id`. */
  predicate Counted(comments: seq<Comment>, arg: IdsArg, isObjectId: string -> bool, id: Id) {
    id in Normalize(arg) && isObjectId(id) && CommentCount(comments, id) > 0
  }

  /**
   `updateCommentCount`: every article named by a valid id that has comments
   gets `meta.comments` set to its exact number of comments; every other
   article, and every other field, is left as it was.
   */
  function UpdateCommentCount(db: Db, arg: IdsArg, isObjectId: string -> bool): (r: Db)
    ensures r.comments == db.comments && r.categories == db.categories
    ensures |r.articles| == |db.articles|
    ensures forall i :: 0 <= i < |db.articles| ==>
              r.articles[i] == if Counted(db.comments, arg, isObjectId, db.articles[i].id)
                               then Recount(db.articles[i], Some(CommentCount(db.comments, db.articles[i].id)))
                               else db.articles[i]
  {
    var ids := Normalize(arg);
    if |ids| == 0 then db
    else
      var rows := CountRows(db.comments, Targets(ids, isObjectId));
      RowsAreCounts(db.comments, Targets(ids, isObjectId), arg, isObjectId);
      db.(articles := ApplyRows(db.articles, rows))
  }

  lemma RowsAreCounts(comments: seq<Comment>, targets: seq<Id>, arg: IdsArg, isObjectId: string -> bool)
    requires targets == Targets(Normalize(arg), isObjectId)
    ensures forall id :: RowFor(CountRows(comments, targets), id)
                         == if Counted(comments, arg, isObjectId, id) then Some(CommentCount(comments, id)) else None
  {
    forall id ensures RowFor(CountRows(comments, targets), id)
                      == if Counted(comments, arg, isObjectId, id) then Some(CommentCount(comments, id)) else None
    {
      RowForTarget(comments, targets, arg, isObjectId, id);
    }
  }

  lemma RowForTarget(comments: seq<Comment>, targets: seq<Id>, arg: IdsArg, isObjectId: string -> bool, id: Id)
    requires targets == Targets(Normalize(arg), isObjectId)
    ensures RowFor(CountRows(comments, targets), id)
            == if Counted(comments, arg, isObjectId, id) then Some(CommentCount(comments, id)) else None
  {
    var rows := CountRows(comments, targets);
    if Counted(comments, arg, isObjectId, id) {
      assert id in targets;
      assert CountRow(id, CommentCount(comments, id)) in rows;
      var r := RowFor(rows, id);
      assert CountRow(id, r.value) in rows;
    } else {
      forall row | row in rows ensures row.article != id {
      }
    }
  }

  /** Running the rollup twice in a row gives the same state as running it once. */
  lemma UpdateIdempotent(db: Db, arg: IdsArg, isObjectId: string -> bool)
    ensures UpdateCommentCount(UpdateCommentCount(db, arg, isObjectId), arg, isObjectId)
            == UpdateCommentCount(db, arg, isObjectId)
  {
    var once := UpdateCommentCount(db, arg, isObjectId);
    var twice := UpdateCommentCount(once, arg, isObjectId);
    assert twice.articles == once.articles;
  }

  /** A scalar id is handled as a one-element array. */
  lemma ScalarIsSingleton(db: Db, id: string, isObjectId: string -> bool)
    ensures UpdateCommentCount(db, Scalar(id), isObjectId) == UpdateCommentCount(db, List([id]), isObjectId)
  {
  }

  /** Without a valid id, in particular with an empty array, nothing changes. */
  lemma NoValidIdNoChange(db: Db, arg: IdsArg, isObjectId: string -> bool)
    requires forall id :: id in Normalize(arg) ==> !isObjectId(id)
    ensures UpdateCommentCount(db, arg, isObjectId) == db
  {
    var r := UpdateCommentCount(db, arg, isObjectId);
    assert r.articles == db.articles;
  }

  /**
   An article named by a valid id that has no comments left keeps its old
   `meta.comments`: the aggregate yields no row for it.
   */
  lemma UncommentedCountIsKept(db: Db, arg: IdsArg, isObjectId: string -> bool, i: int)
    requires 0 <= i < |db.articles|
    requires CommentCount(db.comments, db.articles[i].id) == 0
    ensures UpdateCommentCount(db, arg, isObjectId).articles[i].meta.comments == db.articles[i].meta.comments
  {
  }

  /**
   A concrete stale count: an article cached as having one comment, whose
   comment is gone, still shows one comment after the rollup is run for it.
   */
  lemma StaleCountAfterLastCommentGoes()
    ensures var db := Db([Stale()], [], []);
            var r := UpdateCommentCount(db, Scalar("a"), _ => true);
            && CommentCount(db.comments, "a") == 0
            && r.articles[0].meta.comments == 1
  {
    var db := Db([Stale()], [], []);
    UncommentedCountIsKept(db, Scalar("a"), _ => true, 0);
  }

  /** An article cached as having one comment. */
  function Stale(): Article {
    Article("a", "", None, None, "", "", [], PUBLISH, 0, 0, 0, 0, 0, Meta(0, 1))
  }

  // ---------------------------------------------------------------------------
  // The rollup as evidently intended: every targeted article is recounted.
  // ---------------------------------------------------------------------------

  /**
   The rollup with a row for every valid targeted id, zero counts included,
   so that the cache of every named article matches its comments.
   */
  function RecountComments(db: Db, arg: IdsArg, isObjectId: string -> bool): (r: Db)
    ensures r.comments == db.comments && r.categories == db.categories
    ensures |r.articles| == |db.articles|
    ensures forall i :: 0 <= i < |db.articles| ==>
              r.articles[i] == if db.articles[i].id in Normalize(arg) && isObjectId(db.articles[i].id)
                               then Recount(db.articles[i], Some(CommentCount(db.comments, db.articles[i].id)))
                               else db.articles[i]
  {
    var ids := Normalize(arg);
    if |ids| == 0 then db
    else
      var targets := Targets(ids, isObjectId);
      var rows := RecountRows(db.comments, targets);
      db.(articles := ApplyRows(db.articles, rows))
  }

  /** One row per target, zero counts included. */
  function RecountRows(comments: seq<Comment>, targets: seq<Id>): (rows: seq<CountRow>)
    requires NoDup(targets)
    ensures NoDup(Map(rows, RowArticle))
    ensures forall id :: RowFor(rows, id) == if id in targets then Some(CommentCount(comments, id)) else None
  {
    var rows := Map(targets, id => CountRow(id, CommentCount(comments, id)));
    assert Map(rows, RowArticle) == targets;
    forall id ensures RowFor(rows, id) == if id in targets then Some(CommentCount(comments, id)) else None {
      if id in targets {
        var r := RowFor(rows, id);
        var k :| 0 <= k < |targets| && targets[k] == id;
        assert rows[k].article == id;
        assert CountRow(id, r.value) in rows;
      }
    }
    rows
  }

  /** After the intended rollup every named article's cache equals its number of comments. */
  lemma RecountMakesCacheExact(db: Db, arg: IdsArg, isObjectId: string -> bool, i: int)
    requires 0 <= i < |db.articles|
    requires db.articles[i].id in Normalize(arg) && isObjectId(db.articles[i].id)
    ensures RecountComments(db, arg, isObjectId).articles[i].meta.comments == CommentCount(db.comments, db.articles[i].id)
  {
  }

  /** The intended rollup repairs the stale count of the example above. */
  lemma RecountRepairsStaleCount()
    ensures RecountComments(Db([Stale()], [], []), Scalar("a"), _ => true).articles[0].meta.comments == 0
  {
    var db := Db([Stale()], [], []);
    RecountMakesCacheExact(db, Scalar("a"), _ => true, 0);
    assert CommentCount([], "a") == 0;
  }
}
