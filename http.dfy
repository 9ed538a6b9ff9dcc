/** The parts of an Express request and response the handlers touch. */
module Http {
  import opened Outcomes
  import opened RequestValues
  import opened Tables

  /** Route parameters, query string and parsed JSON body of a request. */
  datatype Request = Request(params: map<string, Value>, query: map<string, Value>, body: map<string, Value>)

  /** `obj[key]`, which is `undefined` when the key is missing. */
  function Field(m: map<string, Value>, key: string): Value {
    if key in m then m[key] else Absent
  }

  /** The JSON a response carries. */
  datatype Payload =
    | ArticleList(articles: seq<ArticleSummary>)
    | ArticleEnvelope(article: ArticleWithCount)
    | CommentList(comments: seq<CommentView>)
    | CommentRow(comment: Comment)
    | UpdatedRow(row: Option<Article>)
    | NoContent
    | ErrorObject(error: ApiError)
    | Message(msg: string)

  datatype Response = Response(status: int, body: Payload)

  /** What a handler passes to `next(err)`: a `{status, msg}` descriptor, or
      an error without a status (one raised inside a library this model
      does not show). */
  datatype Thrown = Rejected(descriptor: ApiError) | Unrecognised

  /** A handler either answers the request or passes an error on. */
  datatype HandlerOutcome = Respond(response: Response) | Forward(error: Thrown)
}
