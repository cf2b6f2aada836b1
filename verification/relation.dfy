/**
 The two relations `ArticleService` attaches to an article detail: articles
 related by a shared tag (`getRelatedArticles`) and the chronologically
 adjacent articles (`getAdjacentArticles`).
 */
module Relation {
  import opened Collections
  import opened Sorting
  import opened Store

  // ---------------------------------------------------------------------------
  // Related articles
  // ---------------------------------------------------------------------------

  /** The fields selected for a related article: `title thumb createdAt publishedAt meta category`. */
  datatype RelatedItem = RelatedItem(
    id: Id, title: string, thumb: string, createdAt: int, publishedAt: int, meta: Meta, category: Id)

  function Summarize(a: Article): RelatedItem {
    RelatedItem(a.id, a.title, a.thumb, a.createdAt, a.publishedAt, a.meta, a.category)
  }

  function RelatedCreatedAt(item: RelatedItem): int { item.createdAt }

  /** `tag: { $in: tags }` on an array field: some tag of `a` is among `tags`. */
  predicate SharesTag(a: Article, tags: seq<Id>) {
    exists t :: t in a.tags && t in tags
  }

  /** The query of `getRelatedArticles`: another article, in the same state, with a common tag. */
  predicate IsRelated(src: Article, a: Article) {
    a.id != src.id && a.state == src.state && SharesTag(a, src.tags)
  }

  /** `slice(0, n)`. */
  function Take<T>(s: seq<T>, n: nat): (r: seq<T>)
    ensures |r| == if |s| <= n then |s| else n
    ensures forall i :: 0 <= i < |r| ==> r[i] == s[i]
  {
    if |s| <= n then s else s[..n]
  }

  /** All related articles, each as often as it is stored, newest first (`sort: '-createdAt'`). */
  function RelatedCandidates(articles: seq<Article>, src: Article): (r: seq<Article>)
    ensures forall a :: a in r <==> a in articles && IsRelated(src, a)
    ensures forall a :: multiset(r)[a] == if IsRelated(src, a) then multiset(articles)[a] else 0
    ensures SortedDesc(r, CreatedAt)
  {
    var p := (a: Article) => IsRelated(src, a);
    var related := Filter(articles, p);
    var sorted := SortDesc(related, CreatedAt);
    FilterMultiset(articles, p);
    forall a ensures a in sorted <==> a in articles && IsRelated(src, a) {
      assert a in sorted <==> a in multiset(sorted);
      assert a in related <==> a in multiset(related);
    }
    sorted
  }

  /** Whether the input carries an `_id`: `!data || !data._id` is the missing case. */
  predicate HasId(data: Option<Article>) {
    data.Some? && data.value.id != ""
  }

  /**
   `getRelatedArticles`: `null` without an identified article; otherwise the
   first `limit` related articles, newest first. A query with no match gives
   an empty list, since an empty array is not falsy.
   */
  function GetRelatedArticles(articles: seq<Article>, data: Option<Article>, limit: nat): (r: Option<seq<RelatedItem>>)
    ensures r.None? <==> !HasId(data)
    ensures r.Some? ==> |r.value| <= limit
    ensures r.Some? ==> forall item :: item in r.value ==> item.id != data.value.id
    ensures r.Some? ==> forall item :: item in r.value ==> FromRelated(articles, data.value, item)
    ensures r.Some? ==> SortedDesc(r.value, RelatedCreatedAt)
  {
    if !HasId(data) then None
    else
      var src := data.value;
      var items := Map(Take(RelatedCandidates(articles, src), limit), Summarize);
      RelatedItemsSound(articles, src, limit);
      Some(items)
  }

  /** `item` is the summary of an article related to `src`. */
  ghost predicate FromRelated(articles: seq<Article>, src: Article, item: RelatedItem) {
    exists a :: a in articles && IsRelated(src, a) && item == Summarize(a)
  }

  lemma RelatedItemsSound(articles: seq<Article>, src: Article, limit: nat)
    ensures forall item :: item in Map(Take(RelatedCandidates(articles, src), limit), Summarize) ==>
              FromRelated(articles, src, item) && item.id != src.id
    ensures SortedDesc(Map(Take(RelatedCandidates(articles, src), limit), Summarize), RelatedCreatedAt)
  {
    var related := Filter(articles, a => IsRelated(src, a));
    var sorted := RelatedCandidates(articles, src);
    var taken := Take(sorted, limit);
    var items := Map(taken, Summarize);
    forall i | 0 <= i < |items| ensures FromRelated(articles, src, items[i]) && items[i].id != src.id {
      assert items[i] == Summarize(sorted[i]);
      assert sorted[i] in multiset(related);
      assert sorted[i] in related;
    }
    forall i, j | 0 <= i < j < |items| ensures RelatedCreatedAt(items[i]) >= RelatedCreatedAt(items[j]) {
      assert items[i] == Summarize(sorted[i]) && items[j] == Summarize(sorted[j]);
      assert CreatedAt(sorted[i]) >= CreatedAt(sorted[j]);
    }
  }

  /**
   The related list is complete up to the limit: it holds as many articles as
   the limit allows, lists no related article more often than it is stored,
   and any related article left out is no newer than every article listed.
   */
  lemma RelatedAreTheNewest(articles: seq<Article>, data: Option<Article>, limit: nat)
    requires HasId(data)
    ensures var r := GetRelatedArticles(articles, data, limit).value;
            var n := |Filter(articles, a => IsRelated(data.value, a))|;
            && |r| == (if n <= limit then n else limit)
            && multiset(r) <= multiset(Map(Filter(articles, a => IsRelated(data.value, a)), Summarize))
            && forall a :: a in articles && IsRelated(data.value, a) && Summarize(a) !in r ==> NoNewerThan(a, r)
  {
    var src := data.value;
    var sorted := RelatedCandidates(articles, src);
    var r := GetRelatedArticles(articles, data, limit).value;
    assert r == Map(Take(sorted, limit), Summarize);
    ListsEachRelatedOnce(articles, src, limit);
    forall a | a in articles && IsRelated(src, a) && Summarize(a) !in r
      ensures NoNewerThan(a, r)
    {
      LeftOutIsOlder(articles, src, limit, a);
    }
  }

  /** The listed summaries are drawn from the related articles without repetition beyond the store's own. */
  lemma ListsEachRelatedOnce(articles: seq<Article>, src: Article, limit: nat)
    ensures multiset(Map(Take(RelatedCandidates(articles, src), limit), Summarize))
         <= multiset(Map(Filter(articles, a => IsRelated(src, a)), Summarize))
  {
    var related := Filter(articles, a => IsRelated(src, a));
    var sorted := RelatedCandidates(articles, src);
    FilterMultiset(articles, a => IsRelated(src, a));
    forall a ensures multiset(sorted)[a] == multiset(related)[a] {
    }
    assert multiset(sorted) == multiset(related);
    MapPermutation(sorted, related, Summarize);
    var n := if |sorted| <= limit then |sorted| else limit;
    assert Take(sorted, limit) == sorted[..n];
    MapPrefix(sorted, n, Summarize);
  }

  /** `a` was created no later than any listed item. */
  ghost predicate NoNewerThan(a: Article, r: seq<RelatedItem>) {
    forall item :: item in r ==> a.createdAt <= item.createdAt
  }

  lemma LeftOutIsOlder(articles: seq<Article>, src: Article, limit: nat, a: Article)
    requires a in articles && IsRelated(src, a)
    requires Summarize(a) !in Map(Take(RelatedCandidates(articles, src), limit), Summarize)
    ensures NoNewerThan(a, Map(Take(RelatedCandidates(articles, src), limit), Summarize))
  {
    var related := Filter(articles, a => IsRelated(src, a));
    var sorted := RelatedCandidates(articles, src);
    var r := Map(Take(sorted, limit), Summarize);
    assert a in related;
    assert a in multiset(sorted);
    var j :| 0 <= j < |sorted| && sorted[j] == a;
    assert j >= |r|;
    forall i | 0 <= i < |r| ensures a.createdAt <= r[i].createdAt {
      assert r[i] == Summarize(sorted[i]);
      assert CreatedAt(sorted[i]) >= CreatedAt(sorted[j]);
    }
  }

  /** Without tags nothing is related: `$in` against an empty list matches nothing. */
  lemma NoTagsNoRelated(articles: seq<Article>, data: Option<Article>, limit: nat)
    requires HasId(data) && data.value.tags == []
    ensures GetRelatedArticles(articles, data, limit) == Some([])
  {
    FilterNone(articles, a => IsRelated(data.value, a));
  }

  // ---------------------------------------------------------------------------
  // Adjacent articles
  // ---------------------------------------------------------------------------

  /** The neighbours of an article; `None` is a missing neighbour. */
  datatype Adjacent = Adjacent(prev: Option<Article>, next: Option<Article>)

  /** The projection `-renderedContent`. */
  function WithoutRendered(a: Article): Article {
    a.(renderedContent := None)
  }

  /** A point query with `sort: 'createdAt'`: the first candidate in ascending creation order. */
  function FirstByCreatedAt(candidates: seq<Article>): (r: Option<Article>)
    ensures r.None? <==> candidates == []
    ensures r.Some? ==> exists a :: a in candidates && r.value == WithoutRendered(a) && IsOldest(a, candidates)
  {
    var sorted := SortAsc(candidates, CreatedAt);
    if sorted == [] then None
    else
      assert sorted[0] in multiset(candidates);
      assert IsOldest(sorted[0], candidates) by {
        forall b | b in candidates ensures sorted[0].createdAt <= b.createdAt {
          assert b in multiset(sorted);
          var k :| 0 <= k < |sorted| && sorted[k] == b;
          if k > 0 {
            assert CreatedAt(sorted[0]) <= CreatedAt(sorted[k]);
          }
        }
      }
      Some(WithoutRendered(sorted[0]))
  }

  /** No candidate was created before `a`. */
  ghost predicate IsOldest(a: Article, candidates: seq<Article>) {
    forall b :: b in candidates ==> a.createdAt <= b.createdAt
  }

  /** The query `createdAt: { $lt: … }`, with `state` fixed to PUBLISH for unauthenticated callers. */
  function Earlier(articles: seq<Article>, src: Article, authed: bool): (r: seq<Article>)
    ensures forall a :: a in r <==> a in articles && a.createdAt < src.createdAt && Visible(a, authed)
  {
    Filter(articles, (a: Article) => a.createdAt < src.createdAt && Visible(a, authed))
  }

  /** The query `createdAt: { $gt: … }`, with the same state restriction. */
  function Later(articles: seq<Article>, src: Article, authed: bool): (r: seq<Article>)
    ensures forall a :: a in r <==> a in articles && a.createdAt > src.createdAt && Visible(a, authed)
  {
    Filter(articles, (a: Article) => a.createdAt > src.createdAt && Visible(a, authed))
  }

  /**
   `getAdjacentArticles`: `null` without an identified article; otherwise the
   first article of each query in ascending creation order. For `next` that is
   the nearest later article; for `prev` it is the OLDEST earlier article, not
   the nearest one.
   */
  function GetAdjacentArticles(articles: seq<Article>, data: Option<Article>, authed: bool): (r: Option<Adjacent>)
    ensures r.None? <==> !HasId(data)
    ensures r.Some? ==> (r.value.prev.None? <==> Earlier(articles, data.value, authed) == [])
    ensures r.Some? ==> (r.value.next.None? <==> Later(articles, data.value, authed) == [])
  {
    if !HasId(data) then None
    else
      var src := data.value;
      Some(Adjacent(FirstByCreatedAt(Earlier(articles, src, authed)), FirstByCreatedAt(Later(articles, src, authed))))
  }

  /**
   `prev` is an earlier article the caller may see, and no visible article in
   the store is older: the oldest earlier article, not the nearest one.
   */
  lemma PrevIsOldestVisible(articles: seq<Article>, data: Option<Article>, authed: bool)
    requires HasId(data)
    requires GetAdjacentArticles(articles, data, authed).value.prev.Some?
    ensures var p := GetAdjacentArticles(articles, data, authed).value.prev.value;
            && p.createdAt < data.value.createdAt
            && (exists a :: a in articles && Visible(a, authed) && p == WithoutRendered(a))
            && forall b :: b in articles && Visible(b, authed) ==> p.createdAt <= b.createdAt
  {
    var src := data.value;
    var earlier := Earlier(articles, src, authed);
    var p := GetAdjacentArticles(articles, data, authed).value.prev.value;
    var a :| a in earlier && p == WithoutRendered(a) && IsOldest(a, earlier);
    forall b | b in articles && Visible(b, authed) ensures p.createdAt <= b.createdAt {
      if b.createdAt < src.createdAt {
        assert b in earlier;
      }
    }
  }

  /**
   `next` is a later article the caller may see, and no visible article lies
   strictly between the given article and `next`: the nearest later article.
   */
  lemma NextIsNearestLater(articles: seq<Article>, data: Option<Article>, authed: bool)
    requires HasId(data)
    requires GetAdjacentArticles(articles, data, authed).value.next.Some?
    ensures var n := GetAdjacentArticles(articles, data, authed).value.next.value;
            && n.createdAt > data.value.createdAt
            && (exists a :: a in articles && Visible(a, authed) && n == WithoutRendered(a))
            && forall b :: b in articles && Visible(b, authed) && b.createdAt > data.value.createdAt ==>
                 n.createdAt <= b.createdAt
  {
    var later := Later(articles, data.value, authed);
    var n := GetAdjacentArticles(articles, data, authed).value.next.value;
    var a :| a in later && n == WithoutRendered(a) && IsOldest(a, later);
  }

  /** For an unauthenticated caller both neighbours are published. */
  lemma PublicNeighboursArePublished(articles: seq<Article>, data: Option<Article>)
    requires HasId(data)
    ensures var adj := GetAdjacentArticles(articles, data, false).value;
            && (adj.prev.Some? ==> adj.prev.value.state == PUBLISH)
            && (adj.next.Some? ==> adj.next.value.state == PUBLISH)
  {
  }

  /**
   With a published article at each of the times 1, 2 and 3, the article at
   time 3 gets the one at time 1 as `prev`, although the one at time 2 is
   nearer.
   */
  lemma PrevSkipsNearestEarlier()
    ensures GetAdjacentArticles(Samples(), Some(Sample("a3", 3)), false)
            == Some(Adjacent(Some(Sample("a1", 1)), None))
  {
    var a3 := Sample("a3", 3);
    OldestEarlierThanLast();
    NoneLaterThanLast();
    assert GetAdjacentArticles(Samples(), Some(a3), false)
           == Some(Adjacent(FirstByCreatedAt(Earlier(Samples(), a3, false)), FirstByCreatedAt(Later(Samples(), a3, false))));
  }

  lemma OldestEarlierThanLast()
    ensures FirstByCreatedAt(Earlier(Samples(), Sample("a3", 3), false)) == Some(Sample("a1", 1))
  {
    SamplesEarlierThanLast();
    FirstOfPair(Sample("a1", 1), Sample("a2", 2));
  }

  /** In the same store the article at time 1 gets the nearest one, at time 2, as `next`. */
  lemma NextTakesNearestLater()
    ensures GetAdjacentArticles(Samples(), Some(Sample("a1", 1)), false)
            == Some(Adjacent(None, Some(Sample("a2", 2))))
  {
    var a1 := Sample("a1", 1);
    NearestLaterThanFirst();
    NoneEarlierThanFirst();
    assert GetAdjacentArticles(Samples(), Some(a1), false)
           == Some(Adjacent(FirstByCreatedAt(Earlier(Samples(), a1, false)), FirstByCreatedAt(Later(Samples(), a1, false))));
  }

  lemma NearestLaterThanFirst()
    ensures FirstByCreatedAt(Later(Samples(), Sample("a1", 1), false)) == Some(Sample("a2", 2))
  {
    SamplesLaterThanFirst();
    FirstOfPair(Sample("a2", 2), Sample("a3", 3));
  }

  lemma NoneLaterThanLast()
    ensures FirstByCreatedAt(Later(Samples(), Sample("a3", 3), false)) == None
  {
    FilterNone(Samples(), (a: Article) => a.createdAt > 3 && Visible(a, false));
  }

  lemma NoneEarlierThanFirst()
    ensures FirstByCreatedAt(Earlier(Samples(), Sample("a1", 1), false)) == None
  {
    FilterNone(Samples(), (a: Article) => a.createdAt < 1 && Visible(a, false));
  }

  lemma SamplesEarlierThanLast()
    ensures Earlier(Samples(), Sample("a3", 3), false) == [Sample("a1", 1), Sample("a2", 2)]
  {
    var a1, a2, a3 := Sample("a1", 1), Sample("a2", 2), Sample("a3", 3);
    var p := (a: Article) => a.createdAt < a3.createdAt && Visible(a, false);
    assert Samples()[..2] == [a1, a2];
    assert [a1, a2][..1] == [a1];
    assert [a1][..0] == [];
    assert Filter([a1], p) == [a1];
    assert Filter([a1, a2], p) == [a1, a2];
  }

  lemma SamplesLaterThanFirst()
    ensures Later(Samples(), Sample("a1", 1), false) == [Sample("a2", 2), Sample("a3", 3)]
  {
    var a1, a2, a3 := Sample("a1", 1), Sample("a2", 2), Sample("a3", 3);
    var p := (a: Article) => a.createdAt > a1.createdAt && Visible(a, false);
    assert Samples()[..2] == [a1, a2];
    assert [a1, a2][..1] == [a1];
    assert [a1][..0] == [];
    assert Filter([a1], p) == [];
    assert Filter([a1, a2], p) == [a2];
  }

  lemma FirstOfPair(x: Article, y: Article)
    requires x.createdAt < y.createdAt && x.renderedContent.None?
    ensures FirstByCreatedAt([x, y]) == Some(x)
  {
    assert [x, y][1..] == [y];
    assert SortDesc([y], z => -CreatedAt(z)) == [y];
    assert SortAsc([x, y], CreatedAt) == [x, y];
  }

  /** Three published articles created at the times 1, 2 and 3. */
  function Samples(): seq<Article> {
    [Sample("a1", 1), Sample("a2", 2), Sample("a3", 3)]
  }

  /** A published article created at `t`, with every other field empty. */
  function Sample(id: Id, t: int): Article {
    Article(id, "", None, None, "", "", [], PUBLISH, t, t, 0, 0, 0, Meta(0, 0))
  }

  // ---------------------------------------------------------------------------
  // Adjacent articles as evidently intended: `prev` is the nearest earlier one.
  // ---------------------------------------------------------------------------

  /** A point query with `sort: '-createdAt'`: the first candidate in descending creation order. */
  function NewestByCreatedAt(candidates: seq<Article>): (r: Option<Article>)
    ensures r.None? <==> candidates == []
    ensures r.Some? ==> exists a :: a in candidates && r.value == WithoutRendered(a) && IsNewest(a, candidates)
  {
    var sorted := SortDesc(candidates, CreatedAt);
    if sorted == [] then None
    else
      assert sorted[0] in multiset(candidates);
      assert IsNewest(sorted[0], candidates) by {
        forall b | b in candidates ensures sorted[0].createdAt >= b.createdAt {
          assert b in multiset(sorted);
          var k :| 0 <= k < |sorted| && sorted[k] == b;
          if k > 0 {
            assert CreatedAt(sorted[0]) >= CreatedAt(sorted[k]);
          }
        }
      }
      Some(WithoutRendered(sorted[0]))
  }

  /** No candidate was created after `a`. */
  ghost predicate IsNewest(a: Article, candidates: seq<Article>) {
    forall b :: b in candidates ==> a.createdAt >= b.createdAt
  }

  /**
   The neighbours with the `prev` query sorted newest first, so that both
   neighbours are the chronologically nearest visible articles.
   */
  function NearestAdjacentArticles(articles: seq<Article>, data: Option<Article>, authed: bool): (r: Option<Adjacent>)
    ensures r.None? <==> !HasId(data)
    ensures r.Some? ==> (r.value.prev.None? <==> Earlier(articles, data.value, authed) == [])
    ensures r.Some? ==> (r.value.next.None? <==> Later(articles, data.value, authed) == [])
    ensures r.Some? ==> r.value.next == GetAdjacentArticles(articles, data, authed).value.next
  {
    if !HasId(data) then None
    else
      var src := data.value;
      Some(Adjacent(NewestByCreatedAt(Earlier(articles, src, authed)), FirstByCreatedAt(Later(articles, src, authed))))
  }

  /**
   With the intended query, `prev` is an earlier article the caller may see,
   and no visible article lies strictly between it and the given article.
   */
  lemma PrevIsNearestEarlier(articles: seq<Article>, data: Option<Article>, authed: bool)
    requires HasId(data)
    requires NearestAdjacentArticles(articles, data, authed).value.prev.Some?
    ensures var p := NearestAdjacentArticles(articles, data, authed).value.prev.value;
            && p.createdAt < data.value.createdAt
            && (exists a :: a in articles && Visible(a, authed) && p == WithoutRendered(a))
            && forall b :: b in articles && Visible(b, authed) && b.createdAt < data.value.createdAt ==>
                 b.createdAt <= p.createdAt
  {
    var earlier := Earlier(articles, data.value, authed);
    var p := NearestAdjacentArticles(articles, data, authed).value.prev.value;
    var a :| a in earlier && p == WithoutRendered(a) && IsNewest(a, earlier);
  }

  /** In the sample store the intended query gives the article at time 3 the one at time 2 as `prev`. */
  lemma NearestPrevTakesNearestEarlier()
    ensures NearestAdjacentArticles(Samples(), Some(Sample("a3", 3)), false)
            == Some(Adjacent(Some(Sample("a2", 2)), None))
  {
    var a3 := Sample("a3", 3);
    NewestEarlierThanLast();
    NoneLaterThanLast();
    assert NearestAdjacentArticles(Samples(), Some(a3), false)
           == Some(Adjacent(NewestByCreatedAt(Earlier(Samples(), a3, false)), FirstByCreatedAt(Later(Samples(), a3, false))));
  }

  lemma NewestEarlierThanLast()
    ensures NewestByCreatedAt(Earlier(Samples(), Sample("a3", 3), false)) == Some(Sample("a2", 2))
  {
    SamplesEarlierThanLast();
    LastOfPair(Sample("a1", 1), Sample("a2", 2));
  }

  lemma LastOfPair(x: Article, y: Article)
    requires x.createdAt < y.createdAt && y.renderedContent.None?
    ensures NewestByCreatedAt([x, y]) == Some(y)
  {
    assert [x, y][1..] == [y];
    assert SortDesc([y], CreatedAt) == [y];
    assert SortDesc([x, y], CreatedAt) == [y, x];
  }
}
