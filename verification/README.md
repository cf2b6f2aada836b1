# Article relation and aggregation, modelled in Dafny

This project models the service layer of a blog platform, where articles,
categories and comments live in a document store. It covers five parts of
`ArticleService`, plus one of `CategoryService`:

- **the archive index** (`archives`): the articles a caller may see are
  grouped by year and month, then organised as a list of years, newest
  first, with the months of each year newest first and a `total`;
- **related articles** (`getRelatedArticles`): other articles in the same
  state that share a tag, newest first, cut to a limit;
- **adjacent articles** (`getAdjacentArticles`): one point query for an
  earlier article (`prev`) and one for a later article (`next`);
- **the comment-count rollup** (`updateCommentCount`): comments are counted
  per article, and the cached `meta.comments` of each counted article is
  updated;
- **the article detail** (`getItemById`): a public read counts a page view,
  and related and adjacent articles are attached;
- **the category listing** (`CategoryService.getList`): each category gets
  the number of its published articles as `count`.

The document store is an immutable value `Db(articles, categories, comments)`
made of three sequences. Each query is a filter and a stable sort over these
sequences. Each update is a function from one store to the next.

The modules are:

- `Collections`: filter, map, first-occurrence deduplication (`[...new Set(…)]`),
  sums, and the first matching position (`findOne`);
- `Sorting`: a stable insertion sort, used for `sort`/`$sort`;
- `Store`: the records;
- `Archive`;
- `Relation`: related and adjacent articles;
- `CommentRollup`;
- `Detail`;
- `CategoryList`.

The model follows the code in two places where its behaviour differs from
what an adjacent or related article is meant to be:

- `prev` is the **oldest** earlier article, not the nearest one. Both
  neighbour queries sort by `createdAt` ascending and take the first hit. For
  `next` that gives the nearest later article. For `prev` it gives the oldest
  visible article overall. An adjacent article is meant to be the
  chronologically nearest one, so this is a defect; it is listed under
  "## Findings" with a corrected definition, `Relation.NearestAdjacentArticles`.
  `Detail.GetItemById` composes the neighbours as the code computes them.
- `getRelatedArticles` returns an empty list, not `null`, when an article has
  an id but nothing is related to it. The expression
  `articles && articles.slice(…) || null` keeps `[]`, because an empty array
  is truthy. `Relation.NoTagsNoRelated` states this.

## Model

| member | source | states |
|---|---|---|
| Archive.Aggregate | app/service/article.js:58-84 | the aggregate has one group per (year, month), with no two groups sharing a key; each group's items are newest first (the `$sort` before `$push`); every item is the projection of a visible article of that month; every visible article is filed in its month's group; no group is empty, since `$group` forms a group only for a key some article has |
| Archive.AggregateCountsEveryArticle | app/service/article.js:63-84 | the group sizes add up to the number of articles the caller may see, so no article is lost or counted twice |
| Archive.YearsOf | app/service/article.js:88 | the year list is strictly descending, hence without repetition, and a year is in it exactly when some group has that year |
| Archive.MonthsOf | app/service/article.js:89-100 | the months collected for a year are exactly the month entries of the groups of that year |
| Archive.BuildIndex | app/service/article.js:85-110 | the list is empty exactly when there are no groups, in which case the index is `{ total: 0, list: [] }`; the years of `list` are strictly descending; `total` equals the sum of `articles.length` over every month of every year in `list`, and equals the sum of all group sizes, so every group is counted once; every listed year is the year of some group and holds at least one month, as the years are collected from the groups at :88 |
| Archive.Archives | app/service/article.js:49-111 | `total` is the number of articles the caller may see and also the number listed over all years and months; the list is empty exactly when the caller may see no article; every listed year holds at least one month and is the year of an article the caller may see |
| Archive.MonthsDistinct | app/service/article.js:89-100 | when group keys are distinct, the months collected for one year are pairwise distinct |
| Archive.MonthsNewestFirst | app/service/article.js:89-103 | within every year entry, months are strictly descending |
| Archive.EveryGroupFiledOnce | app/service/article.js:88-100 | every group appears, as its month entry, in exactly one year entry, the one for its own year; every month entry comes from a group of that year |
| Archive.YearTotalsPartition | app/service/article.js:88-100 | summing per-year totals over a duplicate-free list that covers every group's year counts every group exactly once |
| Archive.ArchivesEmpty | app/service/article.js:85-110 | if the caller can see no article, the result is `{ total: 0, list: [] }` |
| Archive.ArchivesListVisibleArticle | app/service/article.js:58-100 | every article the caller may see is listed under its own year and month |
| Archive.ArchivesListOnlyVisibleArticles | app/service/article.js:58-103 | everything listed is the projection of an article the caller may see, from that year and month, newest first; a public caller sees only published articles, listed without `state` |
| Relation.GetRelatedArticles | app/service/article.js:114-133 | `null` exactly when the input or its `_id` is missing; otherwise at most `limit` items, none with the input's id, each from another article in the same state that shares a tag, newest first |
| Relation.RelatedCandidates | app/service/article.js:117-131 | the query result holds exactly the other articles in the same state that share a tag, each as often as it is stored, newest first |
| Relation.RelatedAreTheNewest | app/service/article.js:117-132 | the list is as long as the limit allows and lists no related article more often than it is stored; any related article left out is no newer than every listed one |
| Relation.NoTagsNoRelated | app/service/article.js:121-132 | an identified article without tags gets an empty list, not `null` |
| Relation.FirstByCreatedAt | app/service/article.js:152-160 | a point query sorted by `createdAt` ascending returns nothing exactly when nothing matches; otherwise it returns the oldest match, without `renderedContent` |
| Relation.Earlier | app/service/article.js:138-146 | the `prev` query matches exactly the articles created before the input that the caller may see |
| Relation.Later | app/service/article.js:144-151 | the `next` query matches exactly the articles created after the input that the caller may see |
| Relation.GetAdjacentArticles | app/service/article.js:136-166 | `null` exactly when the input or its `_id` is missing; `prev` (resp. `next`) is missing exactly when no visible article is older (resp. newer) |
| Relation.PrevIsOldestVisible | app/service/article.js:138-160 | `prev` is a visible article older than the input, and no visible article in the store is older than `prev` |
| Relation.NextIsNearestLater | app/service/article.js:147-160 | `next` is a visible article newer than the input, and no visible article lies strictly between the input and `next` |
| Relation.PublicNeighboursArePublished | app/service/article.js:143-146 | for a public caller, both neighbours are published |
| Relation.PrevSkipsNearestEarlier | app/service/article.js:138-165 | with published articles at times 1, 2 and 3, the article at time 3 gets the article at time 1 as `prev` and no `next` |
| Relation.NextTakesNearestLater | app/service/article.js:147-165 | in the same store, the article at time 1 gets the article at time 2 as `next` and no `prev` |
| Relation.NewestByCreatedAt | app/service/article.js:152-160 | the `-createdAt` point query of the corrected `prev` in the first "## Findings" row (the code at :153 sorts only ascending): it returns nothing exactly when nothing matches; otherwise it returns the newest match, without `renderedContent` |
| Relation.NearestAdjacentArticles | app/service/article.js:136-166 | the intended neighbours: `null` exactly without an id, each neighbour missing exactly when its query is empty, and `next` as the code computes it |
| Relation.PrevIsNearestEarlier | app/service/article.js:138-160 | with the intended query, `prev` is a visible earlier article and no visible article lies strictly between it and the input |
| Relation.NearestPrevTakesNearestEarlier | app/service/article.js:138-165 | in the three-article store, the intended query gives the article at time 3 the article at time 2 as `prev` |
| CommentRollup.Targets | app/service/article.js:175 | the targets are duplicate-free, and an id is a target exactly when it was given and is valid |
| CommentRollup.CountRows | app/service/article.js:176-179 | the aggregate yields one row per targeted article that has comments, with distinct articles; each row holds that article's exact positive comment count |
| CommentRollup.RowFor | app/service/article.js:181 | the row lookup finds nothing exactly when no row names the id; otherwise it finds a row for that id |
| CommentRollup.ApplyRows | app/service/article.js:180-182 | applying the per-row updates sets each article's count to the count of its row, if any, and leaves everything else alone |
| CommentRollup.UpdateCommentCount | app/service/article.js:168-184 | comments and categories are unchanged; an article's `meta.comments` becomes its exact comment count exactly when a valid given id names it and it has comments; every other article is unchanged |
| CommentRollup.UpdateIdempotent | app/service/article.js:168-182 | running the rollup twice gives the same store as running it once |
| CommentRollup.ScalarIsSingleton | app/service/article.js:169-171 | a scalar id behaves like a one-element array |
| CommentRollup.NoValidIdNoChange | app/service/article.js:172-175 | an empty array, or ids that are all invalid, leave the store unchanged |
| CommentRollup.UncommentedCountIsKept | app/service/article.js:176-181 | an article with no comments keeps its old `meta.comments` |
| CommentRollup.StaleCountAfterLastCommentGoes | app/service/article.js:176-181 | an article cached with one comment and with no comments left still shows one comment after the rollup runs for it |
| CommentRollup.RecountComments | app/service/article.js:168-182 | the intended rollup sets the count of every valid given article to its exact comment count, zero included |
| CommentRollup.RecountMakesCacheExact | app/service/article.js:176-181 | after the intended rollup, every named article's cache equals its number of comments |
| CommentRollup.RecountRepairsStaleCount | app/service/article.js:176-181 | the intended rollup resets the stale count in the example above to zero |
| Detail.Compose | app/service/article.js:38-45 | related and adjacent articles are attached exactly when `single` is false |
| Detail.GetItemById | app/service/article.js:12-47 | an article is returned exactly when one matches the id (and, for a public reader, is published); an authenticated reader gets a stored article and the store is unchanged; a public reader gets a selected stored article after its page-view increment, without `content`, and that article is the only one the store changes; extras are attached exactly when an article is returned and `single` is false, and then they are `getRelatedArticles` and `getAdjacentArticles` of the returned article over the updated store |
| Detail.PageViewsCountOneRead | app/service/article.js:24-36 | the store's total page views go up by exactly one for a public read of an existing published article, and stay the same otherwise |
| Detail.DraftsAreNotCounted | app/service/article.js:25-32 | a public read never changes an unpublished article |
| Detail.ExtrasDescribeTheArticle | app/service/article.js:37-45 | when not `single`, extras are present; `related` and `adjacent` are `null` exactly when the id is empty; `related` never lists the article itself |
| CategoryList.Find | app/service/category.js:13-16 | the categories found are exactly the matching ones, each as often as it is stored, sorted by the option's key in its direction |
| CategoryList.WithCount | app/service/category.js:20-27 | the copy gets the number of the category's published articles as `count`, and no other field changes |
| CategoryList.GetList | app/service/category.js:12-32 | the result is as long as the categories found and in the same order; apart from `count`, each entry equals the category found at its position; each `count` is the number of published articles in that category |
| CategoryList.CountIsPublishedArticles | app/service/category.js:18-27 | every `count` equals the number of store positions holding a published article that references the category |
| CategoryList.ListsTheMatchingCategories | app/service/category.js:16-31 | with `count` cleared, the listing is a permutation of the matching categories |
| CategoryList.DefaultIsOldestFirst | app/service/category.js:13-16 | without a `sort` option, the listing is in ascending `createdAt` order |
| CategoryList.NoMatchIsEmpty | app/service/category.js:16-31 | when no category matches, the result is the empty list |

## Left out

- Document store: the store is three immutable sequences. MongoDB keeps each collection's `_id`s distinct; the model does not enforce this, and `SetCount` updating every article with the row's id agrees with `updateItemById` updating one document only when the ids are distinct. Query execution, projections, `populate` of `category` and `tag`, and id casting errors are not modelled.
- Referenced documents: tags are held as ids. The related query's `tag.map(t => t._id)` is taken to yield those ids.
- Store order: the store promises no order for the `$group` output. The model lists the aggregate's groups in the order of their newest article, but no stated property depends on that order.
- Ties: documents with equal sort keys keep their store order, because the sort is stable. The store promises no particular tie order.
- `updateItem`: `ProxyService.updateItem` is not part of this model. `Detail.GetItemById` assumes that it updates the first matching document and returns the document as it is after the update.
- Concurrency: the `Promise.all` fan-outs in the detail, rollup and category listing run one after another in the model. The rollup's updates touch distinct articles, so their order does not matter.
- Foreign helpers: `getMonthFromNum` is the parameter `monthName`. `validate.isObjectId` is the parameter `isObjectId`. `share.createObjectId` is the identity on a valid id.
- Dates: the `$year` and `$month` of `createdAt` are the stored fields `year` and `month`. Timestamps are integers.
- Session and configuration: the session's authentication flag is the parameter `authed`. The state enum's `PUBLISH` is the constant 1. `relatedArticleCount` is the parameter `limit`. The logger call is dropped.
- Unused or untyped parameters: `getItemById`'s `select` is never used by the code. Its `opt` is not modelled beyond the fixed `select: '-content'` of a public read. `getList`'s `select` projection is not modelled, and its `query` is a predicate over categories.
- `CategoryList.GetList`: the caller's `opt` is reduced to an optional sort on one integer-valued field, ascending or descending. String sort keys such as `name`, compound sorts, and `limit`/`skip` are not modelled; the merge with `{ sort: 'createdAt' }` keeps only the caller's sort when one is given.
- `Detail.GetItemById`: the returned article does not carry the populated `category` and `tag` documents.

## Findings

| source | as written | input that shows it | evidently intended | confidence | as-written member | corrected member |
|---|---|---|---|---|---|---|
| app/service/article.js:152-160 | both neighbour queries sort by `createdAt` ascending, so `prev` is the oldest visible article created before the given one | published articles created at times 1, 2 and 3; the adjacent articles of the one at time 3: `prev` is the one at time 1 | `prev` is the nearest earlier article, from a query sorted by `-createdAt` | high; not executed | Relation.PrevSkipsNearestEarlier | Relation.NearestAdjacentArticles |
| app/service/article.js:176-181 | only articles that still have a comment get a `$group` row, so only those articles are updated | an article cached with `meta.comments = 1` whose only comment has been deleted, then `updateCommentCount(id)`: the count stays 1 | every valid given article's count is set to its number of comments, 0 included, so the cache matches the comments | medium; not executed | CommentRollup.StaleCountAfterLastCommentGoes | CommentRollup.RecountComments |
