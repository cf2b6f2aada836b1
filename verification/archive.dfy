/**
 The archive index of `ArticleService.archives`: the visible articles,
 newest first, grouped by (year, month) by the store's aggregate pipeline,
 then arranged into a list of years (newest first), each holding its month
 groups (newest first), with the total number of articles filed.
 */
module Archive {
  import opened Collections
  import opened Sorting
  import opened Store

  /** The projection of one article pushed into its month group. */
  datatype ArchiveItem = ArchiveItem(title: string, id: Id, createdAt: int, state: Option<int>, source: int)

  /** The `_id` of a group of the aggregate: a calendar month. */
  datatype MonthKey = MonthKey(year: int, month: int)

  /** One group produced by the aggregate pipeline. */
  datatype Group = Group(key: MonthKey, articles: seq<ArchiveItem>)

  /** One month of a year in the index; `monthStr` is the month's display label. */
  datatype MonthEntry = MonthEntry(month: int, monthStr: string, articles: seq<ArchiveItem>)

  /** One year of the index. */
  datatype YearEntry = YearEntry(year: int, months: seq<MonthEntry>)

  /** What `archives` returns. */
  datatype ArchiveIndex = ArchiveIndex(total: int, list: seq<YearEntry>)

  function KeyOf(a: Article): MonthKey {
    MonthKey(a.year, a.month)
  }

  /**
   The fields pushed for an article. `state` is pushed from `$state`, which the
   projection only keeps for authenticated callers, so it is absent otherwise.
   */
  function Project(a: Article, authed: bool): ArchiveItem {
    ArchiveItem(a.title, a.id, a.createdAt, if authed then Some(a.state) else None, a.source)
  }

  function ItemCreatedAt(item: ArchiveItem): int { item.createdAt }

  /** The `$match` stage: unauthenticated callers only see published articles. */
  function Matched(articles: seq<Article>, authed: bool): seq<Article> {
    Filter(articles, a => Visible(a, authed))
  }

  /** The `$match` and `$sort: { createdAt: -1 }` stages. */
  function Ordered(articles: seq<Article>, authed: bool): seq<Article> {
    SortDesc(Matched(articles, authed), CreatedAt)
  }

  /** The `$push` of one group: the projections of the articles with key `k`, in pipeline order. */
  function ItemsWithKey(s: seq<Article>, k: MonthKey, authed: bool): seq<ArchiveItem> {
    Map(Filter(s, a => KeyOf(a) == k), a => Project(a, authed))
  }

  /** One group per key, in the order of `keys`. */
  function GroupsFor(s: seq<Article>, keys: seq<MonthKey>, authed: bool): seq<Group> {
    Map(keys, k => Group(k, ItemsWithKey(s, k, authed)))
  }

  /** The projection of `a` sits in the group of its month. */
  ghost predicate Filed(groups: seq<Group>, a: Article, authed: bool) {
    exists i :: 0 <= i < |groups| && groups[i].key == KeyOf(a) && Project(a, authed) in groups[i].articles
  }

  /** Every item of every group is the projection of a visible article of the group's month. */
  ghost predicate GroupsHoldVisible(groups: seq<Group>, articles: seq<Article>, authed: bool) {
    forall i, j :: 0 <= i < |groups| && 0 <= j < |groups[i].articles| ==>
      exists a :: a in articles && Visible(a, authed) && KeyOf(a) == groups[i].key
                  && groups[i].articles[j] == Project(a, authed)
  }

  /** No two groups share a key. */
  ghost predicate DistinctKeys(groups: seq<Group>) {
    forall i, j :: 0 <= i < j < |groups| ==> groups[i].key != groups[j].key
  }

  /**
   The aggregate pipeline `$match`, `$sort`, `$project`, `$group` with `$push`.
   The store gives groups in no particular order; the model lists them in order
   of their newest article.
   */
  function Aggregate(articles: seq<Article>, authed: bool): (groups: seq<Group>)
    ensures DistinctKeys(groups)
    ensures forall g :: g in groups ==> SortedDesc(g.articles, ItemCreatedAt)
    ensures GroupsHoldVisible(groups, articles, authed)
    ensures forall a :: a in articles && Visible(a, authed) ==> Filed(groups, a, authed)
    ensures |groups| == 0 <==> Matched(articles, authed) == []
    ensures forall g :: g in groups ==> g.articles != []
  {
    var s := Ordered(articles, authed);
    var keys := Dedup(Map(s, KeyOf));
    var groups := GroupsFor(s, keys, authed);
    GroupsNonEmpty(s, keys, authed);
    GroupsSound(s, keys, articles, authed);
    GroupsComplete(s, keys, articles, authed);
    GroupsNewestFirst(s, keys, authed);
    GroupsEmpty(s, keys, articles, authed);
    groups
  }

  lemma GroupsEmpty(s: seq<Article>, keys: seq<MonthKey>, articles: seq<Article>, authed: bool)
    requires s == Ordered(articles, authed)
    requires keys == Dedup(Map(s, KeyOf))
    ensures |GroupsFor(s, keys, authed)| == 0 <==> Matched(articles, authed) == []
  {
    assert |s| == |Matched(articles, authed)|;
    if s != [] {
      assert Map(s, KeyOf)[0] in Map(s, KeyOf);
    }
  }

  /** `$group` only forms a group for a key some article has. */
  lemma GroupsNonEmpty(s: seq<Article>, keys: seq<MonthKey>, authed: bool)
    requires keys == Dedup(Map(s, KeyOf))
    ensures forall g :: g in GroupsFor(s, keys, authed) ==> g.articles != []
  {
    var groups := GroupsFor(s, keys, authed);
    forall i | 0 <= i < |groups| ensures groups[i].articles != [] {
      assert keys[i] in Map(s, KeyOf);
      var m :| 0 <= m < |s| && Map(s, KeyOf)[m] == keys[i];
      ItemFiled(s, keys[i], authed, s[m]);
    }
  }

  lemma GroupsSound(s: seq<Article>, keys: seq<MonthKey>, articles: seq<Article>, authed: bool)
    requires s == Ordered(articles, authed)
    ensures forall i, j :: 0 <= i < |keys| && 0 <= j < |GroupsFor(s, keys, authed)[i].articles| ==>
              exists a :: a in articles && Visible(a, authed) && KeyOf(a) == keys[i]
                          && GroupsFor(s, keys, authed)[i].articles[j] == Project(a, authed)
  {
    var groups := GroupsFor(s, keys, authed);
    forall i, j | 0 <= i < |keys| && 0 <= j < |groups[i].articles|
      ensures exists a :: a in articles && Visible(a, authed) && KeyOf(a) == keys[i]
                          && groups[i].articles[j] == Project(a, authed)
    {
      var f := Filter(s, a => KeyOf(a) == keys[i]);
      var a := f[j];
      assert a in f;
      assert a in multiset(s);
      assert a in Matched(articles, authed);
    }
  }

  lemma GroupsComplete(s: seq<Article>, keys: seq<MonthKey>, articles: seq<Article>, authed: bool)
    requires s == Ordered(articles, authed)
    requires keys == Dedup(Map(s, KeyOf))
    ensures forall a :: a in articles && Visible(a, authed) ==> Filed(GroupsFor(s, keys, authed), a, authed)
  {
    forall a | a in articles && Visible(a, authed)
      ensures Filed(GroupsFor(s, keys, authed), a, authed)
    {
      ArticleFiled(s, keys, articles, authed, a);
    }
  }

  lemma ArticleFiled(s: seq<Article>, keys: seq<MonthKey>, articles: seq<Article>, authed: bool, a: Article)
    requires s == Ordered(articles, authed)
    requires keys == Dedup(Map(s, KeyOf))
    requires a in articles && Visible(a, authed)
    ensures Filed(GroupsFor(s, keys, authed), a, authed)
  {
    var groups := GroupsFor(s, keys, authed);
    assert a in Matched(articles, authed);
    assert a in multiset(Matched(articles, authed));
    assert a in s;
    assert KeyOf(a) in Map(s, KeyOf);
    var i :| 0 <= i < |keys| && keys[i] == KeyOf(a);
    ItemFiled(s, keys[i], authed, a);
    assert groups[i] == Group(keys[i], ItemsWithKey(s, keys[i], authed));
  }

  /** An article of `s` in month `k` has its projection among that month's items. */
  lemma ItemFiled(s: seq<Article>, k: MonthKey, authed: bool, a: Article)
    requires a in s && KeyOf(a) == k
    ensures Project(a, authed) in ItemsWithKey(s, k, authed)
  {
    var f := Filter(s, b => KeyOf(b) == k);
    assert a in f;
    var m :| 0 <= m < |f| && f[m] == a;
    assert ItemsWithKey(s, k, authed)[m] == Project(a, authed);
  }

  lemma GroupsNewestFirst(s: seq<Article>, keys: seq<MonthKey>, authed: bool)
    requires SortedDesc(s, CreatedAt)
    ensures forall g :: g in GroupsFor(s, keys, authed) ==> SortedDesc(g.articles, ItemCreatedAt)
  {
    var groups := GroupsFor(s, keys, authed);
    forall g | g in groups ensures SortedDesc(g.articles, ItemCreatedAt) {
      var i :| 0 <= i < |groups| && groups[i] == g;
      FilterSortedDesc(s, a => KeyOf(a) == keys[i], CreatedAt);
    }
  }

  function GroupSize(g: Group): int { |g.articles| }

  /** Every visible article is counted once over all groups. */
  lemma AggregateCountsEveryArticle(articles: seq<Article>, authed: bool)
    ensures SumBy(Aggregate(articles, authed), GroupSize) == |Matched(articles, authed)|
  {
    var s := Ordered(articles, authed);
    var keys := Dedup(Map(s, KeyOf));
    forall a | a in s ensures KeyOf(a) in keys {
      var k :| 0 <= k < |s| && s[k] == a;
      assert Map(s, KeyOf)[k] == KeyOf(a);
    }
    GroupSizesAreKeyCounts(s, keys, authed);
    KeyCountsPartition(s, keys);
  }

  /** The number of articles of `s` in month `k`. */
  function KeyCount(s: seq<Article>, k: MonthKey): int {
    |Filter(s, a => KeyOf(a) == k)|
  }

  lemma {:induction false} GroupSizesAreKeyCounts(s: seq<Article>, keys: seq<MonthKey>, authed: bool)
    ensures SumBy(GroupsFor(s, keys, authed), GroupSize) == SumBy(keys, k => KeyCount(s, k))
  {
    if keys != [] {
      GroupSizesAreKeyCounts(s, keys[1..], authed);
      assert GroupsFor(s, keys, authed)[1..] == GroupsFor(s, keys[1..], authed);
    }
  }

  /** Counting per month over all months that occur counts every article once. */
  lemma {:induction false} KeyCountsPartition(s: seq<Article>, keys: seq<MonthKey>)
    requires NoDup(keys)
    requires forall a :: a in s ==> KeyOf(a) in keys
    ensures SumBy(keys, k => KeyCount(s, k)) == |s|
  {
    if s == [] {
      SumByZero(keys, k => KeyCount(s, k));
    } else {
      var n := |s| - 1;
      var init := s[..n];
      var x := s[n];
      assert s == init + [x];
      assert forall a :: a in init ==> a in s;
      KeyCountsPartition(init, keys);
      var ind := k => if KeyOf(x) == k then 1 else 0;
      forall k ensures KeyCount(s, k) == KeyCount(init, k) + ind(k) {
        KeyCountSnoc(init, x, k);
      }
      SumByAdd(keys, k => KeyCount(init, k), ind, k => KeyCount(s, k));
      SumBySingle(keys, ind, KeyOf(x));
    }
  }

  lemma KeyCountSnoc(init: seq<Article>, x: Article, k: MonthKey)
    ensures KeyCount(init + [x], k) == KeyCount(init, k) + if KeyOf(x) == k then 1 else 0
  {
    FilterSnoc(init, x, a => KeyOf(a) == k);
  }

  // ---------------------------------------------------------------------------
  // Arranging the groups into years and months.
  // ---------------------------------------------------------------------------

  function GroupYear(g: Group): int { g.key.year }
  function EntryMonth(m: MonthEntry): int { m.month }
  function EntryYear(y: YearEntry): int { y.year }
  function EntrySize(m: MonthEntry): int { |m.articles| }

  /** The number of articles filed under one year of the index. */
  function YearSize(y: YearEntry): int { SumBy(y.months, EntrySize) }

  /** The distinct years of the groups, newest first: a `Set` over the years sorted descending. */
  function YearsOf(groups: seq<Group>): (years: seq<int>)
    ensures StrictlyDesc(years, y => y)
    ensures forall y :: y in years <==> exists g :: g in groups && g.key.year == y
  {
    var ys := Map(groups, GroupYear);
    var sorted := SortDesc(ys, y => y);
    DedupOfDescendingIsStrict(sorted);
    forall y ensures y in Dedup(sorted) <==> exists g :: g in groups && g.key.year == y {
      if y in Dedup(sorted) {
        assert y in multiset(sorted);
        var k :| 0 <= k < |ys| && ys[k] == y;
        assert groups[k] in groups;
      }
      if g :| g in groups && g.key.year == y {
        var k :| 0 <= k < |groups| && groups[k] == g;
        assert ys[k] == y;
        assert y in multiset(ys);
        assert y in sorted;
      }
    }
    Dedup(sorted)
  }

  /** The month entry built from a group. */
  function ToEntry(g: Group, monthName: int -> string): MonthEntry {
    MonthEntry(g.key.month, monthName(g.key.month), g.articles)
  }

  /** The months collected for `year`, in group order, before they are sorted. */
  function MonthsOf(groups: seq<Group>, year: int, monthName: int -> string): (months: seq<MonthEntry>)
    ensures forall m :: m in months ==> exists g :: g in groups && g.key.year == year && m == ToEntry(g, monthName)
    ensures forall g :: g in groups && g.key.year == year ==> ToEntry(g, monthName) in months
  {
    if groups == [] then []
    else
      (if groups[0].key.year == year then [ToEntry(groups[0], monthName)] else [])
      + MonthsOf(groups[1..], year, monthName)
  }

  /** What `total` grows by while the months of `year` are collected. */
  function YearTotal(groups: seq<Group>, year: int): int {
    SumBy(groups, (g: Group) => if g.key.year == year then |g.articles| else 0)
  }

  /** One index entry per year, its months sorted newest first. */
  function YearEntries(years: seq<int>, groups: seq<Group>, monthName: int -> string): seq<YearEntry> {
    Map(years, y => YearEntryOf(groups, y, monthName))
  }

  /** The entry of one year: its months, sorted newest first. */
  function YearEntryOf(groups: seq<Group>, year: int, monthName: int -> string): YearEntry {
    YearEntry(year, SortDesc(MonthsOf(groups, year, monthName), EntryMonth))
  }

  /**
   The post-processing of the aggregate result into `{ total, list }`: the
   years are strictly descending, so none repeats; `total` is the number of
   articles listed over all months of all years, and also the number of
   articles over all groups; without groups the index is empty; and every
   year listed is the year of some group, so it holds at least one month.
   */
  function BuildIndex(groups: seq<Group>, monthName: int -> string): (r: ArchiveIndex)
    ensures |groups| == 0 <==> r.list == []
    ensures StrictlyDesc(r.list, EntryYear)
    ensures r.total == SumBy(r.list, YearSize)
    ensures r.total == SumBy(groups, GroupSize)
    ensures forall i :: 0 <= i < |r.list| ==> r.list[i].months != [] && YearOfSomeGroup(groups, r.list[i].year)
  {
    if |groups| == 0 then ArchiveIndex(0, [])
    else
      var years := YearsOf(groups);
      YearList(groups, monthName);
      IndexTotals(groups, monthName);
      ArchiveIndex(SumBy(years, y => YearTotal(groups, y)), YearEntries(years, groups, monthName))
  }

  /**
   The year entries of the groups' years: there is one when there is a group,
   they are strictly newest first, and each holds at least one month.
   */
  lemma YearList(groups: seq<Group>, monthName: int -> string)
    ensures |groups| > 0 ==> YearEntries(YearsOf(groups), groups, monthName) != []
    ensures StrictlyDesc(YearEntries(YearsOf(groups), groups, monthName), EntryYear)
    ensures forall i :: 0 <= i < |YearEntries(YearsOf(groups), groups, monthName)| ==>
              YearEntries(YearsOf(groups), groups, monthName)[i].months != []
              && YearOfSomeGroup(groups, YearEntries(YearsOf(groups), groups, monthName)[i].year)
  {
    var years := YearsOf(groups);
    if |groups| > 0 {
      assert groups[0].key.year in years;
    }
    YearsHaveMonths(years, groups, monthName);
  }

  /** Over the years the groups give, the listed total and the group total agree. */
  lemma IndexTotals(groups: seq<Group>, monthName: int -> string)
    ensures SumBy(YearsOf(groups), y => YearTotal(groups, y))
         == SumBy(YearEntries(YearsOf(groups), groups, monthName), YearSize)
    ensures SumBy(YearsOf(groups), y => YearTotal(groups, y)) == SumBy(groups, GroupSize)
  {
    var years := YearsOf(groups);
    YearEntriesTotal(years, groups, monthName);
    YearTotalsPartition(years, groups);
  }

  /** Some group was formed for a month of `year`. */
  ghost predicate YearOfSomeGroup(groups: seq<Group>, year: int) {
    exists g :: g in groups && g.key.year == year
  }

  /**
   The year entries follow the order of the years, and each year the groups
   give has an entry holding at least one month.
   */
  lemma YearsHaveMonths(years: seq<int>, groups: seq<Group>, monthName: int -> string)
    requires StrictlyDesc(years, y => y)
    requires forall y :: y in years <==> exists g :: g in groups && g.key.year == y
    ensures StrictlyDesc(YearEntries(years, groups, monthName), EntryYear)
    ensures forall i :: 0 <= i < |years| ==>
              YearEntries(years, groups, monthName)[i].months != [] && YearOfSomeGroup(groups, years[i])
  {
    var list := YearEntries(years, groups, monthName);
    assert forall i :: 0 <= i < |list| ==> list[i].year == years[i];
    forall i | 0 <= i < |years|
      ensures list[i].months != [] && YearOfSomeGroup(groups, years[i])
    {
      assert years[i] in years;
      var g :| g in groups && g.key.year == years[i];
      var months := MonthsOf(groups, years[i], monthName);
      assert ToEntry(g, monthName) in months;
      assert list[i] == YearEntryOf(groups, years[i], monthName);
      assert ToEntry(g, monthName) in multiset(list[i].months);
    }
  }

  /**
   `archives`: the aggregate followed by its post-processing. `total` is the
   number of articles the caller may see and the number listed; the list is
   empty exactly when the caller may see no article; and every year listed
   holds at least one month and is the year of an article the caller may see.
   */
  function Archives(db: Db, authed: bool, monthName: int -> string): (r: ArchiveIndex)
    ensures r.total == |Matched(db.articles, authed)|
    ensures r.total == SumBy(r.list, YearSize)
    ensures r.list == [] <==> Matched(db.articles, authed) == []
    ensures forall i :: 0 <= i < |r.list| ==> r.list[i].months != [] && YearOfVisible(db.articles, authed, r.list[i].year)
  {
    var groups := Aggregate(db.articles, authed);
    AggregateCountsEveryArticle(db.articles, authed);
    VisibleYears(db.articles, authed, groups);
    BuildIndex(groups, monthName)
  }

  /** Some article the caller may see was created in `year`. */
  ghost predicate YearOfVisible(articles: seq<Article>, authed: bool, year: int) {
    exists a :: a in articles && Visible(a, authed) && a.year == year
  }

  /** The year of every group is the year of a visible article, since no group is empty. */
  lemma VisibleYears(articles: seq<Article>, authed: bool, groups: seq<Group>)
    requires GroupsHoldVisible(groups, articles, authed)
    requires forall g :: g in groups ==> g.articles != []
    ensures forall y :: YearOfSomeGroup(groups, y) ==> YearOfVisible(articles, authed, y)
  {
    forall y | YearOfSomeGroup(groups, y) ensures YearOfVisible(articles, authed, y) {
      var g :| g in groups && g.key.year == y;
      var i :| 0 <= i < |groups| && groups[i] == g;
      var item := groups[i].articles[0];
      var a :| a in articles && Visible(a, authed) && KeyOf(a) == groups[i].key && item == Project(a, authed);
      assert a.year == y;
    }
  }

  /** Groups without key `key` yield no month entry of that month in its year. */
  lemma {:induction false} OtherMonths(groups: seq<Group>, key: MonthKey, monthName: int -> string)
    requires forall k :: 0 <= k < |groups| ==> groups[k].key != key
    ensures forall m :: m in MonthsOf(groups, key.year, monthName) ==> m.month != key.month
  {
    if groups != [] {
      var rest := groups[1..];
      assert forall k :: 0 <= k < |rest| ==> rest[k].key == groups[k + 1].key;
      OtherMonths(rest, key, monthName);
    }
  }

  /** Groups with distinct keys yield months with distinct numbers within a year. */
  lemma {:induction false} MonthsDistinct(groups: seq<Group>, year: int, monthName: int -> string)
    requires DistinctKeys(groups)
    ensures forall i, j :: 0 <= i < j < |MonthsOf(groups, year, monthName)| ==>
              MonthsOf(groups, year, monthName)[i].month != MonthsOf(groups, year, monthName)[j].month
  {
    if groups != [] {
      var rest := groups[1..];
      assert DistinctKeys(rest) by {
        forall i, j | 0 <= i < j < |rest| ensures rest[i].key != rest[j].key {
          assert groups[i + 1].key != groups[j + 1].key;
        }
      }
      MonthsDistinct(rest, year, monthName);
      var tail := MonthsOf(rest, year, monthName);
      if groups[0].key.year == year {
        forall k | 0 <= k < |rest| ensures rest[k].key != groups[0].key {
          assert groups[0].key != groups[k + 1].key;
        }
        OtherMonths(rest, groups[0].key, monthName);
        var months := MonthsOf(groups, year, monthName);
        assert months == [ToEntry(groups[0], monthName)] + tail;
        forall i, j | 0 <= i < j < |months| ensures months[i].month != months[j].month {
          if i == 0 {
            assert months[j] == tail[j - 1];
            assert months[j] in tail;
          } else {
            assert months[i] == tail[i - 1] && months[j] == tail[j - 1];
          }
        }
      }
    }
  }

  /** Within every year of the index the months are strictly descending. */
  lemma MonthsNewestFirst(groups: seq<Group>, monthName: int -> string)
    requires DistinctKeys(groups)
    ensures forall i :: 0 <= i < |BuildIndex(groups, monthName).list| ==>
              StrictlyDesc(BuildIndex(groups, monthName).list[i].months, EntryMonth)
  {
    var list := BuildIndex(groups, monthName).list;
    if |groups| > 0 {
      var years := YearsOf(groups);
      assert list == YearEntries(years, groups, monthName);
      forall i | 0 <= i < |list| ensures StrictlyDesc(list[i].months, EntryMonth) {
        var y := years[i];
        assert list[i] == YearEntryOf(groups, y, monthName);
        MonthsDistinct(groups, y, monthName);
        SortDescStrict(MonthsOf(groups, y, monthName), EntryMonth);
      }
    }
  }

  /** The month entry of `g` sits in year entry `i`, and no other year entry has its year. */
  ghost predicate FiledOnce(list: seq<YearEntry>, g: Group, monthName: int -> string) {
    exists i :: 0 <= i < |list| && list[i].year == g.key.year && ToEntry(g, monthName) in list[i].months
                && forall j :: 0 <= j < |list| && j != i ==> list[j].year != g.key.year
  }

  /** `m` is the month entry of some group of `year`. */
  ghost predicate FromGroup(groups: seq<Group>, year: int, m: MonthEntry, monthName: int -> string) {
    exists g :: g in groups && g.key.year == year && m == ToEntry(g, monthName)
  }

  /**
   Every group ends up in exactly one year entry, the one of its own year, and
   every month entry of a year comes from a group of that year.
   */
  lemma EveryGroupFiledOnce(groups: seq<Group>, monthName: int -> string)
    ensures forall g :: g in groups ==> FiledOnce(BuildIndex(groups, monthName).list, g, monthName)
    ensures forall i, m ::
              (0 <= i < |BuildIndex(groups, monthName).list| && m in BuildIndex(groups, monthName).list[i].months)
              ==> FromGroup(groups, BuildIndex(groups, monthName).list[i].year, m, monthName)
  {
    var list := BuildIndex(groups, monthName).list;
    if |groups| > 0 {
      GroupsFiled(groups, monthName);
      EntriesFromGroups(groups, monthName);
    }
  }

  lemma GroupsFiled(groups: seq<Group>, monthName: int -> string)
    requires |groups| > 0
    ensures forall g :: g in groups ==> FiledOnce(BuildIndex(groups, monthName).list, g, monthName)
  {
    var years := YearsOf(groups);
    var list := YearEntries(years, groups, monthName);
    assert list == BuildIndex(groups, monthName).list;
    forall g | g in groups ensures FiledOnce(list, g, monthName) {
      GroupFiled(groups, g, monthName);
    }
  }

  /** A group's month entry sits in the entry of its year, and no other entry has that year. */
  lemma GroupFiled(groups: seq<Group>, g: Group, monthName: int -> string)
    requires g in groups
    ensures FiledOnce(YearEntries(YearsOf(groups), groups, monthName), g, monthName)
  {
    var years := YearsOf(groups);
    var list := YearEntries(years, groups, monthName);
    assert g.key.year in years;
    var i :| 0 <= i < |years| && years[i] == g.key.year;
    EntryHoldsGroup(groups, g, monthName, i);
    YearEntryUnique(groups, monthName, i);
  }

  lemma EntryHoldsGroup(groups: seq<Group>, g: Group, monthName: int -> string, i: int)
    requires g in groups
    requires 0 <= i < |YearsOf(groups)| && YearsOf(groups)[i] == g.key.year
    ensures ToEntry(g, monthName) in YearEntries(YearsOf(groups), groups, monthName)[i].months
  {
    var months := MonthsOf(groups, g.key.year, monthName);
    assert ToEntry(g, monthName) in months;
    assert ToEntry(g, monthName) in multiset(months);
    assert YearEntries(YearsOf(groups), groups, monthName)[i] == YearEntryOf(groups, g.key.year, monthName);
  }

  lemma YearEntryUnique(groups: seq<Group>, monthName: int -> string, i: int)
    requires 0 <= i < |YearsOf(groups)|
    ensures var list := YearEntries(YearsOf(groups), groups, monthName);
            list[i].year == YearsOf(groups)[i]
            && forall j :: 0 <= j < |list| && j != i ==> list[j].year != list[i].year
  {
    var years := YearsOf(groups);
    var list := YearEntries(years, groups, monthName);
    assert list[i] == YearEntryOf(groups, years[i], monthName);
    forall j | 0 <= j < |list| && j != i ensures list[j].year != list[i].year {
      assert list[j] == YearEntryOf(groups, years[j], monthName);
      if j < i {
        assert years[j] > years[i];
      } else {
        assert years[i] > years[j];
      }
    }
  }

  lemma EntriesFromGroups(groups: seq<Group>, monthName: int -> string)
    requires |groups| > 0
    ensures forall i, m ::
              (0 <= i < |BuildIndex(groups, monthName).list| && m in BuildIndex(groups, monthName).list[i].months)
              ==> FromGroup(groups, BuildIndex(groups, monthName).list[i].year, m, monthName)
  {
    var years := YearsOf(groups);
    var list := YearEntries(years, groups, monthName);
    forall i, m | 0 <= i < |list| && m in list[i].months
      ensures FromGroup(groups, list[i].year, m, monthName)
    {
      var months := MonthsOf(groups, years[i], monthName);
      assert m in multiset(SortDesc(months, EntryMonth));
      assert m in months;
    }
  }

  lemma {:induction false} MonthsTotal(groups: seq<Group>, year: int, monthName: int -> string)
    ensures SumBy(MonthsOf(groups, year, monthName), EntrySize) == YearTotal(groups, year)
  {
    if groups != [] {
      MonthsTotal(groups[1..], year, monthName);
      var months := MonthsOf(groups, year, monthName);
      var tail := MonthsOf(groups[1..], year, monthName);
      if groups[0].key.year == year {
        assert months[1..] == tail;
      } else {
        assert months == tail;
      }
    }
  }

  lemma {:induction false} YearEntriesTotal(years: seq<int>, groups: seq<Group>, monthName: int -> string)
    ensures SumBy(YearEntries(years, groups, monthName), YearSize) == SumBy(years, y => YearTotal(groups, y))
  {
    if years != [] {
      YearEntriesTotal(years[1..], groups, monthName);
      var list := YearEntries(years, groups, monthName);
      assert list[1..] == YearEntries(years[1..], groups, monthName);
      SumBySortDesc(MonthsOf(groups, years[0], monthName), EntryMonth, EntrySize);
      MonthsTotal(groups, years[0], monthName);
    }
  }

  /** Summing per year over distinct years that cover every group counts every group once. */
  lemma {:induction false} YearTotalsPartition(years: seq<int>, groups: seq<Group>)
    requires NoDup(years)
    requires forall g :: g in groups ==> g.key.year in years
    ensures SumBy(years, y => YearTotal(groups, y)) == SumBy(groups, GroupSize)
  {
    if groups == [] {
      SumByZero(years, y => YearTotal(groups, y));
    } else {
      var g := groups[0];
      var rest := groups[1..];
      YearTotalsPartition(years, rest);
      var ind := y => if g.key.year == y then |g.articles| else 0;
      SumByAdd(years, ind, y => YearTotal(rest, y), y => YearTotal(groups, y));
      SumBySingle(years, ind, g.key.year);
    }
  }

  // ---------------------------------------------------------------------------
  // Properties of `archives` as a whole.
  // ---------------------------------------------------------------------------

  /** With no visible article the index is `{ total: 0, list: [] }`. */
  lemma ArchivesEmpty(db: Db, authed: bool, monthName: int -> string)
    requires forall a :: a in db.articles ==> !Visible(a, authed)
    ensures Archives(db, authed, monthName) == ArchiveIndex(0, [])
  {
    FilterNone(db.articles, a => Visible(a, authed));
    assert Ordered(db.articles, authed) == [];
  }

  /** An article that a caller may see is listed under its own year and month. */
  lemma ArchivesListVisibleArticle(db: Db, authed: bool, monthName: int -> string, a: Article)
    requires a in db.articles && Visible(a, authed)
    ensures Listed(Archives(db, authed, monthName).list, a, authed)
  {
    var groups := Aggregate(db.articles, authed);
    var list := BuildIndex(groups, monthName).list;
    assert Archives(db, authed, monthName).list == list;
    assert Filed(groups, a, authed);
    var k :| 0 <= k < |groups| && groups[k].key == KeyOf(a) && Project(a, authed) in groups[k].articles;
    GroupListed(groups, monthName, k, a, authed);
  }

  /** An article filed in a group is listed under the group's year and month. */
  lemma GroupListed(groups: seq<Group>, monthName: int -> string, k: nat, a: Article, authed: bool)
    requires k < |groups| && groups[k].key == KeyOf(a) && Project(a, authed) in groups[k].articles
    ensures Listed(BuildIndex(groups, monthName).list, a, authed)
  {
    var list := BuildIndex(groups, monthName).list;
    GroupsFiled(groups, monthName);
    assert groups[k] in groups;
    assert FiledOnce(list, groups[k], monthName);
    var i :| 0 <= i < |list| && list[i].year == groups[k].key.year && ToEntry(groups[k], monthName) in list[i].months;
    var m := ToEntry(groups[k], monthName);
    assert m.month == a.month && Project(a, authed) in m.articles;
  }

  /** The projection of `a` is listed under the year and month of `a`. */
  ghost predicate Listed(list: seq<YearEntry>, a: Article, authed: bool) {
    exists i, m :: 0 <= i < |list| && list[i].year == a.year && m in list[i].months
                   && m.month == a.month && Project(a, authed) in m.articles
  }

  /** `item` is the projection of an article the caller may see, from the given year and month. */
  ghost predicate ShowsVisible(db: Db, authed: bool, year: int, month: int, item: ArchiveItem) {
    exists a :: a in db.articles && Visible(a, authed) && a.year == year && a.month == month
                && item == Project(a, authed)
  }

  /**
   The articles of month entry `m` of `year` are newest first and are the
   projections of articles the caller may see from that year and month; for
   an unauthenticated caller they carry no `state`.
   */
  ghost predicate MonthShowsVisible(db: Db, authed: bool, year: int, m: MonthEntry) {
    && SortedDesc(m.articles, ItemCreatedAt)
    && (forall item :: item in m.articles ==> ShowsVisible(db, authed, year, m.month, item))
    && (!authed ==> forall item :: item in m.articles ==> item.state.None?)
  }

  /**
   Everything listed is the projection of an article the caller may see, filed
   under that article's year and month, newest first within its month; for an
   unauthenticated caller that means published articles, listed without `state`.
   */
  lemma ArchivesListOnlyVisibleArticles(db: Db, authed: bool, monthName: int -> string)
    ensures forall i, m :: 0 <= i < |Archives(db, authed, monthName).list|
              && m in Archives(db, authed, monthName).list[i].months
              ==> MonthShowsVisible(db, authed, Archives(db, authed, monthName).list[i].year, m)
  {
    var groups := Aggregate(db.articles, authed);
    var list := BuildIndex(groups, monthName).list;
    assert Archives(db, authed, monthName).list == list;
    if |groups| > 0 {
      EntriesFromGroups(groups, monthName);
      forall i, m | 0 <= i < |list| && m in list[i].months
        ensures MonthShowsVisible(db, authed, list[i].year, m)
      {
        assert FromGroup(groups, list[i].year, m, monthName);
        var g :| g in groups && g.key.year == list[i].year && m == ToEntry(g, monthName);
        EntryShowsVisible(db, authed, groups, g, monthName);
      }
    }
  }

  lemma EntryShowsVisible(db: Db, authed: bool, groups: seq<Group>, g: Group, monthName: int -> string)
    requires groups == Aggregate(db.articles, authed)
    requires g in groups
    ensures MonthShowsVisible(db, authed, g.key.year, ToEntry(g, monthName))
  {
    var k :| 0 <= k < |groups| && groups[k] == g;
    var m := ToEntry(groups[k], monthName);
    GroupShowsVisible(db, authed, groups, k);
    assert groups[k] in groups;
    if !authed {
      forall item | item in m.articles ensures item.state.None? {
        assert ShowsVisible(db, authed, groups[k].key.year, m.month, item);
      }
    }
  }

  lemma GroupShowsVisible(db: Db, authed: bool, groups: seq<Group>, k: int)
    requires groups == Aggregate(db.articles, authed)
    requires 0 <= k < |groups|
    ensures forall item :: item in groups[k].articles ==>
              ShowsVisible(db, authed, groups[k].key.year, groups[k].key.month, item)
  {
    assert GroupsHoldVisible(groups, db.articles, authed);
    forall item | item in groups[k].articles
      ensures ShowsVisible(db, authed, groups[k].key.year, groups[k].key.month, item)
    {
      var j :| 0 <= j < |groups[k].articles| && groups[k].articles[j] == item;
      assert exists a :: a in db.articles && Visible(a, authed) && KeyOf(a) == groups[k].key
                         && groups[k].articles[j] == Project(a, authed);
    }
  }
}
