/** The article handlers: each reads its arguments from the request, makes
    one data-access call, answers with a fixed status and the resolved value,
    and hands a rejection to `next` exactly as it came. */
module ArticlesControllers {
  import opened Outcomes
  import opened RequestValues
  import opened Tables
  import opened Http
  import M = ArticlesModel
  import opened ArticlesStore

  /** The `.then`/`.catch(next)` of `getArticles`: 200 with the bare array. */
  function ArticlesListed(r: Result<seq<ArticleSummary>>): (out: HandlerOutcome)
    ensures out.Forward? <==> r.Err?
    ensures r.Err? ==> out.error == Rejected(r.error)
    ensures r.Ok? ==> out.response == Response(200, ArticleList(r.value))
  {
    match r
    case Ok(rows) => Respond(Response(200, ArticleList(rows)))
    case Err(e) => Forward(Rejected(e))
  }

  /** The `.then`/`.catch(next)` of `getArticle`: 200 with `{article: row}`. */
  function ArticleFetched(r: Result<ArticleWithCount>): (out: HandlerOutcome)
    ensures out.Forward? <==> r.Err?
    ensures r.Err? ==> out.error == Rejected(r.error)
    ensures r.Ok? ==> out.response == Response(200, ArticleEnvelope(r.value))
  {
    match r
    case Ok(row) => Respond(Response(200, ArticleEnvelope(row)))
    case Err(e) => Forward(Rejected(e))
  }

  /** The `.then`/`.catch(next)` of `getArticleComments`: 200 with the bare array. */
  function CommentsListed(r: Result<seq<CommentView>>): (out: HandlerOutcome)
    ensures out.Forward? <==> r.Err?
    ensures r.Err? ==> out.error == Rejected(r.error)
    ensures r.Ok? ==> out.response == Response(200, CommentList(r.value))
  {
    match r
    case Ok(rows) => Respond(Response(200, CommentList(rows)))
    case Err(e) => Forward(Rejected(e))
  }

  /** The `.then`/`.catch(next)` of `postArticleComments`: 201 with the new row. */
  function CommentPosted(r: Result<Comment>): (out: HandlerOutcome)
    ensures out.Forward? <==> r.Err?
    ensures r.Err? ==> out.error == Rejected(r.error)
    ensures r.Ok? ==> out.response == Response(201, CommentRow(r.value))
  {
    match r
    case Ok(c) => Respond(Response(201, CommentRow(c)))
    case Err(e) => Forward(Rejected(e))
  }

  /** The `.then`/`.catch(next)` of `deleteComment`: 204 with no body. */
  function CommentDeleted(r: Result<()>): (out: HandlerOutcome)
    ensures out.Forward? <==> r.Err?
    ensures r.Err? ==> out.error == Rejected(r.error)
    ensures r.Ok? ==> out.response == Response(204, NoContent)
  {
    match r
    case Ok(_) => Respond(Response(204, NoContent))
    case Err(e) => Forward(Rejected(e))
  }

  /** The `.then`/`.catch(next)` of `patchArticle`: 200 with whatever was
      resolved, which is nothing when no row had the id. */
  function VotesPatched(r: Result<Option<Article>>): (out: HandlerOutcome)
    ensures out.Forward? <==> r.Err?
    ensures r.Err? ==> out.error == Rejected(r.error)
    ensures r.Ok? ==> out.response == Response(200, UpdatedRow(r.value))
  {
    match r
    case Ok(row) => Respond(Response(200, UpdatedRow(row)))
    case Err(e) => Forward(Rejected(e))
  }

  /** `getArticles`: `sort_by`, `order` and `topic` go from the query string
      to the data-access call as they are. */
  function GetArticles(db: Db, req: Request): (out: HandlerOutcome)
    ensures var r := M.FetchArticles(db, Field(req.query, "sort_by"), Field(req.query, "order"), Field(req.query, "topic"));
            && (r.Ok? ==> out == Respond(Response(200, ArticleList(r.value))))
            && (r.Err? ==> out == Forward(Rejected(r.error)))
  {
    ArticlesListed(M.FetchArticles(db, Field(req.query, "sort_by"), Field(req.query, "order"), Field(req.query, "topic")))
  }

  /** `getArticle`, on the `article_id` route parameter. */
  function GetArticle(db: Db, req: Request): (out: HandlerOutcome)
    ensures var r := M.FetchArticle(db, Field(req.params, "article_id"));
            && (r.Ok? ==> out == Respond(Response(200, ArticleEnvelope(r.value))))
            && (r.Err? ==> out == Forward(Rejected(r.error)))
  {
    ArticleFetched(M.FetchArticle(db, Field(req.params, "article_id")))
  }

  /** `getArticleComments`, on the `article_id` route parameter. */
  function GetArticleComments(db: Db, req: Request): (out: HandlerOutcome)
    ensures var r := M.FetchArticleComments(db, Field(req.params, "article_id"));
            && (r.Ok? ==> out == Respond(Response(200, CommentList(r.value))))
            && (r.Err? ==> out == Forward(Rejected(r.error)))
  {
    CommentsListed(M.FetchArticleComments(db, Field(req.params, "article_id")))
  }

  /** `postArticleComments`: only `username` and `body` are taken from the
      request body, so any other field has no effect. */
  method PostArticleComments(store: Store, req: Request, now: int) returns (out: HandlerOutcome)
    requires store.Valid()
    modifies store
    ensures store.Valid()
    ensures var s := M.CreateArticleComment(old(store.Snapshot()), Field(req.params, "article_id"),
                                            Field(req.body, "username"), Field(req.body, "body"), now);
            out == CommentPosted(s.result) && store.Snapshot() == s.db
  {
    var r := store.CreateArticleComment(Field(req.params, "article_id"), Field(req.body, "username"), Field(req.body, "body"), now);
    out := CommentPosted(r);
  }

  /** `deleteComment`, on the `comment_id` route parameter. */
  method DeleteComment(store: Store, req: Request) returns (out: HandlerOutcome)
    requires store.Valid()
    modifies store
    ensures store.Valid()
    ensures var s := M.DeleteArticleComment(old(store.Snapshot()), Field(req.params, "comment_id"));
            out == CommentDeleted(s.result) && store.Snapshot() == s.db
  {
    var r := store.DeleteArticleComment(Field(req.params, "comment_id"));
    out := CommentDeleted(r);
  }

  /** `patchArticle`: `inc_votes` is taken from the request body. */
  method PatchArticle(store: Store, req: Request) returns (out: HandlerOutcome)
    requires store.Valid()
    modifies store
    ensures store.Valid()
    ensures var s := M.UpdateArticleVotes(old(store.Snapshot()), Field(req.params, "article_id"), Field(req.body, "inc_votes"));
            out == VotesPatched(s.result) && store.Snapshot() == s.db
  {
    var r := store.UpdateArticleVotes(Field(req.params, "article_id"), Field(req.body, "inc_votes"));
    out := VotesPatched(r);
  }
}
