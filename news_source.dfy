/**
 * `NewsSource`, the base of every source: it stores the source's name and
 * decides whether an article is complete enough to keep. Fetching and parsing
 * are abstract there and belong to each concrete source.
 */
module NewsSources {
  import opened Wrappers
  import opened ArticleModel

  /** The shortest title `validate_article` accepts. */
  const MinTitleLength := 10

  /** The shortest raw text `validate_article` accepts. */
  const MinRawTextLength := 50

  class NewsSource {
    const sourceName: string

    /** `__init__(source_name)`. */
    constructor(sourceName: string)
      ensures this.sourceName == sourceName
    {
      this.sourceName := sourceName;
    }

    /**
     * `validate_article`: False for an empty or short title, an empty url, or an
     * empty or short raw text, True otherwise.
     */
    function ValidateArticle(article: Article): (r: bool)
      ensures |article.title| < MinTitleLength ==> !r
      ensures article.url == [] ==> !r
      ensures |article.rawText| < MinRawTextLength ==> !r
      ensures r <==> |article.title| >= MinTitleLength && article.url != [] && |article.rawText| >= MinRawTextLength
    {
      if article.title == [] || |article.title| < MinTitleLength then false
      else if article.url == [] then false
      else if article.rawText == [] || |article.rawText| < MinRawTextLength then false
      else true
    }
  }

  /**
   * An article that passes validation already passed two of the construction
   * checks; with a source it rebuilds to itself.
   */
  lemma ValidArticleConstructs(src: NewsSource, a: Article)
    requires src.ValidateArticle(a) && a.source != []
    ensures NewArticle(a.source, a.title, a.publishedDate, a.url, a.rawText, a.cleanedText, a.id, a.createdAt)
         == Success(a)
  {
    NewArticleRoundTrip(a);
  }

  /** Validation looks only at title, url and raw text: the other fields never change its verdict. */
  lemma ValidationIgnoresOtherFields(src: NewsSource, a: Article, source: string, published: DateTime,
                                     cleaned: Option<string>, id: string, created: DateTime)
    ensures src.ValidateArticle(a.(source := source, publishedDate := published, cleanedText := cleaned,
                                   id := id, createdAt := created))
         == src.ValidateArticle(a)
  {
  }
}
