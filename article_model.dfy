/**
 * The `Article` dataclass: its fields, the checks `__post_init__` runs when an
 * article is built, and `to_dict`, the dictionary handed to the database.
 * The two default factories (a fresh UUID for `id`, the current time for
 * `created_at`) become parameters.
 */
module ArticleModel {
  import opened Wrappers
  import opened Calendar

  /** The time of day of a `datetime`. */
  datatype TimeOfDay = TimeOfDay(hour: int, minute: int, second: int, microsecond: int)

  /** A `datetime`: a calendar date and a time of day. */
  datatype DateTime = DateTime(date: Date, time: TimeOfDay)

  datatype Article = Article(
    source: string,
    title: string,
    publishedDate: DateTime,
    url: string,
    rawText: string,
    cleanedText: Option<string>,
    id: string,
    createdAt: DateTime)

  /** The value of `to_dict()`: one field per key of the dictionary. */
  datatype ArticleDict = ArticleDict(
    id: string,
    source: string,
    title: string,
    publishedDate: Date,
    url: string,
    rawText: string,
    cleanedText: Option<string>,
    createdAt: DateTime)

  /**
   * `Article(...)`: the fields as given once `__post_init__` accepts them, or
   * the message of the `ValueError` it raises; source, title and url are
   * checked in that order.
   */
  function NewArticle(source: string, title: string, publishedDate: DateTime, url: string, rawText: string,
                      cleanedText: Option<string>, id: string, createdAt: DateTime): (r: Result<Article, string>)
    ensures r.Success? <==> source != [] && title != [] && url != []
    ensures source == [] ==> r == Failure("Source cannot be empty")
    ensures source != [] && title == [] ==> r == Failure("Title cannot be empty")
    ensures source != [] && title != [] && url == [] ==> r == Failure("URL cannot be empty")
    ensures r.Success? ==> r.value.source == source && r.value.title == title && r.value.url == url
                           && r.value.publishedDate == publishedDate && r.value.rawText == rawText
                           && r.value.cleanedText == cleanedText && r.value.id == id && r.value.createdAt == createdAt
  {
    if source == [] then Failure("Source cannot be empty")
    else if title == [] then Failure("Title cannot be empty")
    else if url == [] then Failure("URL cannot be empty")
    else Success(Article(source, title, publishedDate, url, rawText, cleanedText, id, createdAt))
  }

  /** `Article(...)` called without `cleaned_text`: the field is `None`. */
  function NewArticleDefault(source: string, title: string, publishedDate: DateTime, url: string, rawText: string,
                             id: string, createdAt: DateTime): (r: Result<Article, string>)
    ensures r.Success? <==> source != [] && title != [] && url != []
    ensures r.Success? ==> r.value.cleanedText == None
  {
    NewArticle(source, title, publishedDate, url, rawText, None, id, createdAt)
  }

  /** Every article that construction accepts has a source, a title and a url. */
  predicate WellFormed(a: Article) {
    a.source != [] && a.title != [] && a.url != []
  }

  /** Construction accepts exactly the well-formed field sets and rebuilds them unchanged. */
  lemma NewArticleRoundTrip(a: Article)
    ensures NewArticle(a.source, a.title, a.publishedDate, a.url, a.rawText, a.cleanedText, a.id, a.createdAt)
         == (if WellFormed(a) then Success(a) else
               Failure(if a.source == [] then "Source cannot be empty"
                       else if a.title == [] then "Title cannot be empty"
                       else "URL cannot be empty"))
  {
  }

  /** `to_dict()`: every field copied, `published_date` reduced to its date part. */
  function ToDict(a: Article): (d: ArticleDict)
    ensures d.publishedDate == a.publishedDate.date
    ensures d.id == a.id && d.source == a.source && d.title == a.title && d.url == a.url
            && d.rawText == a.rawText && d.cleanedText == a.cleanedText && d.createdAt == a.createdAt
  {
    ArticleDict(a.id, a.source, a.title, a.publishedDate.date, a.url, a.rawText, a.cleanedText, a.createdAt)
  }

  /** Two articles give the same dictionary exactly when they differ at most in the time of `published_date`. */
  lemma ToDictForgetsOnlyTime(a: Article, b: Article)
    ensures ToDict(a) == ToDict(b) <==> a.(publishedDate := b.publishedDate) == b && a.publishedDate.date == b.publishedDate.date
  {
    if ToDict(a) == ToDict(b) {
      assert a.(publishedDate := b.publishedDate) == b;
    }
  }
}
