/**
 The article detail of `ArticleService.getItemById`: a public read counts a
 page view on a published article and hides its content; an authenticated
 read changes nothing. A found article gets its related and adjacent
 articles attached unless only the article itself was asked for.
 */
module Detail {
  import opened Collections
  import opened Store
  import opened Relation

  /** What is attached to a found article: the `related` and `adjacent` fields. */
  datatype Extras = Extras(related: Option<seq<RelatedItem>>, adjacent: Option<Adjacent>)

  /** A found article, with its extras when they were computed. */
  datatype Found = Found(article: Article, extras: Option<Extras>)

  /** The store after the call and the returned document (`None` is `null`). */
  datatype View = View(db: Db, data: Option<Found>)

  /** The query of the lookup: the id, and for public readers `state: PUBLISH` too. */
  predicate Selects(id: Id, authed: bool, a: Article) {
    a.id == id && Visible(a, authed)
  }

  /** `$inc: { 'meta.pvs': 1 }`. */
  function Viewed(a: Article): Article {
    a.(meta := a.meta.(pvs := a.meta.pvs + 1))
  }

  function Pvs(a: Article): int { a.meta.pvs }

  /** The article with its related and adjacent articles, unless `single`. */
  function Compose(db: Db, doc: Article, authed: bool, single: bool, limit: nat): (r: Found)
    ensures r.article == doc
    ensures r.extras.Some? <==> !single
  {
    if single then Found(doc, None)
    else Found(doc, Some(Extras(GetRelatedArticles(db.articles, Some(doc), limit),
                                GetAdjacentArticles(db.articles, Some(doc), authed))))
  }

  /**
   `getItemById(id, select, opt, single)`. A public reader's lookup is an
   update of the first published article with that id: its page views go up
   by one and the returned document, taken after the update, lacks `content`.
   An authenticated reader's lookup matches any state and writes nothing.
   `limit` is the configured number of related articles.
   */
  function GetItemById(db: Db, id: Id, authed: bool, single: bool, limit: nat): (r: View)
    ensures r.db.comments == db.comments && r.db.categories == db.categories
    ensures |r.db.articles| == |db.articles|
    ensures r.data.Some? <==> exists a :: a in db.articles && Selects(id, authed, a)
    ensures r.data.Some? ==> r.data.value.article.id == id && Visible(r.data.value.article, authed)
    ensures r.data.Some? ==> (r.data.value.extras.Some? <==> !single)
    ensures authed ==> r.db == db
    ensures authed && r.data.Some? ==> r.data.value.article in db.articles
    ensures !authed && r.data.Some? ==>
              exists i :: 0 <= i < |db.articles| && Selects(id, false, db.articles[i])
                          && r.db.articles[i] == Viewed(db.articles[i])
                          && r.data.value.article == Viewed(db.articles[i]).(content := None)
    ensures r.data.Some? && !single ==>
              r.data.value.extras.value
              == Extras(GetRelatedArticles(r.db.articles, Some(r.data.value.article), limit),
                        GetAdjacentArticles(r.db.articles, Some(r.data.value.article), authed))
    ensures !authed && r.data.Some? ==> r.data.value.article.content.None?
    ensures forall i :: 0 <= i < |db.articles| && r.db.articles[i] != db.articles[i] ==>
              && !authed && Selects(id, authed, db.articles[i])
              && r.db.articles[i] == Viewed(db.articles[i])
  {
    var k := FirstMatch(db.articles, (a: Article) => Selects(id, authed, a));
    if k.None? then View(db, None)
    else if authed then View(db, Some(Compose(db, db.articles[k.value], authed, single, limit)))
    else
      var viewed := Viewed(db.articles[k.value]);
      var after := db.(articles := db.articles[k.value := viewed]);
      View(after, Some(Compose(after, viewed.(content := None), authed, single, limit)))
  }

  /**
   A public read of a published article adds exactly one page view to the
   store; any other read adds none.
   */
  lemma PageViewsCountOneRead(db: Db, id: Id, authed: bool, single: bool, limit: nat)
    ensures SumBy(GetItemById(db, id, authed, single, limit).db.articles, Pvs)
            == SumBy(db.articles, Pvs) + if !authed && exists a :: a in db.articles && Selects(id, authed, a) then 1 else 0
  {
    var k := FirstMatch(db.articles, (a: Article) => Selects(id, authed, a));
    if !authed && k.Some? {
      SumByUpdate(db.articles, k.value, Viewed(db.articles[k.value]), Pvs);
    }
  }

  /** A draft is never counted as viewed by a public reader. */
  lemma DraftsAreNotCounted(db: Db, id: Id, single: bool, limit: nat, i: int)
    requires 0 <= i < |db.articles|
    requires db.articles[i].state != PUBLISH
    ensures GetItemById(db, id, false, single, limit).db.articles[i] == db.articles[i]
  {
  }

  /**
   Extras are computed for the article as returned and against the store as
   left by the read, so the related list never holds the article itself and
   is absent only for an empty id.
   */
  lemma ExtrasDescribeTheArticle(db: Db, id: Id, authed: bool, limit: nat)
    requires GetItemById(db, id, authed, false, limit).data.Some?
    ensures var f := GetItemById(db, id, authed, false, limit).data.value;
            && f.extras.Some?
            && (f.extras.value.related.None? <==> id == "")
            && (f.extras.value.adjacent.None? <==> id == "")
            && (f.extras.value.related.Some? ==> forall item :: item in f.extras.value.related.value ==> item.id != id)
  {
  }
}
