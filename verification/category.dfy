/**
 The category listing of `CategoryService.getList`: the matching categories
 in the requested order, by default oldest first, each with the number of
 its published articles filled in as `count`.
 */
module CategoryList {
  import opened Collections
  import opened Sorting
  import opened Store

  /** A `sort` option over an integer field of a category. */
  datatype SortOpt = SortOpt(key: Category -> int, descending: bool)

  function CategoryCreatedAt(c: Category): int { c.createdAt }

  /** `{ sort: 'createdAt' }`, the option the caller's options are merged over. */
  const DefaultSort: SortOpt := SortOpt(CategoryCreatedAt, false)

  /** The merged options: the caller's `sort` wins when present. */
  function EffectiveSort(opt: Option<SortOpt>): SortOpt {
    if opt.Some? then opt.value else DefaultSort
  }

  /** `find(query, select, opt)`: the categories `query` matches, in the option's order. */
  function Find(categories: seq<Category>, query: Category -> bool, order: SortOpt): (r: seq<Category>)
    ensures multiset(r) == multiset(Filter(categories, query))
    ensures order.descending ==> SortedDesc(r, order.key)
    ensures !order.descending ==> SortedAsc(r, order.key)
  {
    var matched := Filter(categories, query);
    if order.descending then SortDesc(matched, order.key) else SortAsc(matched, order.key)
  }

  /** The articles of `getList({ category: id, state: PUBLISH })`. */
  function PublishedIn(articles: seq<Article>, id: Id): seq<Article> {
    Filter(articles, (a: Article) => a.category == id && a.state == PUBLISH)
  }

  /** `item.count = articles.length` on a plain copy of the category. */
  function WithCount(articles: seq<Article>, c: Category): (r: Category)
    ensures r.count == Some(|PublishedIn(articles, c.id)|)
    ensures r.(count := c.count) == c
  {
    c.(count := Some(|PublishedIn(articles, c.id)|))
  }

  /**
   `getList(query, select, opt)`: the categories found, each with its
   count of published articles; an empty result is returned as it is.
   */
  function GetList(db: Db, query: Category -> bool, opt: Option<SortOpt>): (r: seq<Category>)
    ensures |r| == |Find(db.categories, query, EffectiveSort(opt))|
    ensures forall i :: 0 <= i < |r| ==>
              r[i].(count := None) == Find(db.categories, query, EffectiveSort(opt))[i].(count := None)
    ensures forall i :: 0 <= i < |r| ==> r[i].count == Some(|PublishedIn(db.articles, r[i].id)|)
  {
    var categories := Find(db.categories, query, EffectiveSort(opt));
    if |categories| > 0 then Map(categories, c => WithCount(db.articles, c)) else categories
  }

  /** The published articles of a category, counted as a set of store positions. */
  ghost function PublishedPositions(articles: seq<Article>, id: Id): set<int> {
    set j | 0 <= j < |articles| && articles[j].category == id && articles[j].state == PUBLISH
  }

  /** Every listed category's `count` is the number of published articles that reference it. */
  lemma CountIsPublishedArticles(db: Db, query: Category -> bool, opt: Option<SortOpt>, i: int)
    requires 0 <= i < |GetList(db, query, opt)|
    ensures GetList(db, query, opt)[i].count == Some(|PublishedPositions(db.articles, GetList(db, query, opt)[i].id)|)
  {
    PublishedCount(db.articles, GetList(db, query, opt)[i].id);
  }

  lemma PublishedCount(articles: seq<Article>, id: Id)
    ensures |PublishedIn(articles, id)| == |PublishedPositions(articles, id)|
  {
    var p := (a: Article) => a.category == id && a.state == PUBLISH;
    assert PublishedIn(articles, id) == Filter(articles, p);
    FilterSizeIsIndexCount(articles, p);
    assert IndicesBelow(articles, p, |articles|) == PublishedPositions(articles, id);
  }

  /** Except for `count`, the listing holds exactly the matching categories, each once. */
  lemma ListsTheMatchingCategories(db: Db, query: Category -> bool, opt: Option<SortOpt>)
    requires forall c :: c in db.categories ==> c.count.None?
    ensures multiset(Map(GetList(db, query, opt), ClearCount)) == multiset(Filter(db.categories, query))
  {
    var found := Find(db.categories, query, EffectiveSort(opt));
    var r := GetList(db, query, opt);
    forall i | 0 <= i < |found| ensures found[i].count.None? {
      assert found[i] in multiset(Filter(db.categories, query));
    }
    var cleared := Map(r, ClearCount);
    forall i | 0 <= i < |found| ensures cleared[i] == found[i] {
      assert cleared[i] == r[i].(count := None) == found[i].(count := None);
    }
    assert cleared == found;
  }

  function ClearCount(c: Category): Category { c.(count := None) }

  /** Without a `sort` option the listing is oldest first. */
  lemma DefaultIsOldestFirst(db: Db, query: Category -> bool)
    ensures SortedAsc(GetList(db, query, None), CategoryCreatedAt)
  {
    var found := Find(db.categories, query, DefaultSort);
    assert SortedAsc(found, CategoryCreatedAt);
  }

  /** When no category matches, the result is empty and nothing is counted. */
  lemma NoMatchIsEmpty(db: Db, query: Category -> bool, opt: Option<SortOpt>)
    requires forall c :: c in db.categories ==> !query(c)
    ensures GetList(db, query, opt) == []
  {
    FilterNone(db.categories, query);
  }
}
