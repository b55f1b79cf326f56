/** The records the Sanskriti IAS source produces and the database stores. */
module Documents {
  import opened Wrappers

  /** Exam-relevance tags; `tags` is always empty in the current extractor. */
  datatype Metadata = Metadata(prelims: Option<string>, mains: Option<string>, tags: seq<string>)

  /** One content section: its `h2` heading, the running `h3` subheading, and its text. */
  datatype ContentRecord = ContentRecord(heading: string, subheading: Option<string>, content: string)

  datatype Faq = Faq(question: string, answer: string)

  datatype ImageRef = ImageRef(url: string, alt: string, caption: string)

  /** The `article` JSON document (without its `extracted_at` timestamp). */
  datatype ArticleJson = ArticleJson(
    title: string,
    source: string,
    metadata: Metadata,
    content: seq<ContentRecord>,
    faqs: seq<Faq>,
    images: seq<ImageRef>)

  /** `{"images": [...]}`: always a non-empty dict, so never falsy. */
  datatype Attachments = Attachments(images: seq<ImageRef>)

  /** What `_extract_article` returns for one container. */
  datatype ArticleRecord = ArticleRecord(
    publishedDate: string,
    sourceUrl: string,
    article: ArticleJson,
    attachments: Option<Attachments>)
}
