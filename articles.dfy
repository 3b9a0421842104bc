/**
 The records the headlines API returns, one per news article. The app never
 changes a record once received; it only compares whole records (by
 serialising both to JSON text and comparing the strings), which this model
 states as datatype equality.
 */
module Articles {

  datatype Option<T> = None | Some(value: T)

  /** The `source` sub-object of an article; only its name is shown. */
  datatype Source = Source(id: Option<string>, name: string)

  /** A whole article record as received: every field the headlines API
      sends for an article, all of which take part in the comparison. */
  datatype Article = Article(
    source: Source,
    author: Option<string>,
    title: string,            // the list's key
    description: Option<string>,
    content: string,
    url: string,              // opened by "Read more"
    urlToImage: Option<string>,
    publishedAt: string       // timestamp text, as received
  )
}
