/**
 The records the services read and write, and the document store that holds
 them, reduced to three sequences. Store queries become filters and sorts
 over these sequences in the service modules.
 */
module Store {
  import opened Collections

  /** A document identifier in its string form; the empty string is a missing `_id`. */
  type Id = string

  /** Article lifecycle state that marks an article as public. */
  const PUBLISH: int := 1

  /** Counters kept on an article: page views and the cached number of comments. */
  datatype Meta = Meta(pvs: nat, comments: nat)

  /**
   An article. `year` and `month` are the calendar year and month of
   `createdAt`, as the store's date operators extract them. `content` and
   `renderedContent` are `None` when a projection excluded them.
   */
  datatype Article = Article(
    id: Id,
    title: string,
    content: Option<string>,
    renderedContent: Option<string>,
    thumb: string,
    category: Id,
    tags: seq<Id>,
    state: int,
    createdAt: int,
    publishedAt: int,
    year: int,
    month: int,
    source: int,
    meta: Meta)

  /** The sort key of articles. */
  function CreatedAt(a: Article): int { a.createdAt }

  /** A free-form key/value attribute of a category. */
  datatype Attribute = Attribute(key: string, value: string)

  /** A category; `count` is absent in the store and filled in by the category listing. */
  datatype Category = Category(
    id: Id,
    name: string,
    description: string,
    attributes: seq<Attribute>,
    createdAt: int,
    count: Option<nat>)

  /** A comment; only the article it belongs to matters here. */
  datatype Comment = Comment(id: Id, article: Id)

  /** The three collections of the document store. */
  datatype Db = Db(articles: seq<Article>, categories: seq<Category>, comments: seq<Comment>)

  /** Whether a caller may see `a`: authenticated callers see every state. */
  predicate Visible(a: Article, authed: bool) {
    authed || a.state == PUBLISH
  }
}
