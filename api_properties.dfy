/** Properties of the API as a client sees them: a handler's outcome passed
    through the error middleware, over the tables before and after. */
module ApiProperties {
  import opened Outcomes
  import opened RequestValues
  import opened Tables
  import opened Http
  import M = ArticlesModel
  import opened ArticlesStore
  import opened ArticlesControllers
  import opened ErrorHandling

  /** Every rejection of the data-access layer is a 400 or a 404, so the
      error chain answers it with its own status and never with 500. */
  lemma RejectionsAreClientErrors(db: Db, a: Value, b: Value, c: Value, now: int)
    ensures M.FetchArticles(db, a, b, c).Err? ==> M.FetchArticles(db, a, b, c).error.status in {400, 404}
    ensures M.FetchArticle(db, a).Err? ==> M.FetchArticle(db, a).error.status in {400, 404}
    ensures M.FetchArticleComments(db, a).Err? ==> M.FetchArticleComments(db, a).error.status in {400, 404}
    ensures M.UpdateArticleVotes(db, a, b).result.Err? ==> M.UpdateArticleVotes(db, a, b).result.error.status == 400
    ensures M.CreateArticleComment(db, a, b, c, now).result.Err? ==>
              M.CreateArticleComment(db, a, b, c, now).result.error.status in {400, 404}
    ensures M.DeleteArticleComment(db, a).result.Err? ==> M.DeleteArticleComment(db, a).result.error.status in {400, 404}
  {
  }

  /** A rejection forwarded by any handler reaches the client with exactly
      its own status and itself as the body. */
  lemma ForwardedRejectionKeepsStatus(e: ApiError)
    requires e.status in {400, 404}
    ensures Serve(Forward(Rejected(e))) == Response(e.status, ErrorObject(e))
  {
  }

  /** An id that is not a number is a 400 on every article route. */
  lemma NonNumericArticleIdIs400(db: Db, req: Request, now: int)
    requires IsNaN(Field(req.params, "article_id"))
    ensures Serve(GetArticle(db, req)) == Response(400, ErrorObject(M.BAD_REQUEST))
    ensures Serve(GetArticleComments(db, req)) == Response(400, ErrorObject(M.INVALID_ID))
    ensures Serve(VotesPatched(M.UpdateArticleVotes(db, Field(req.params, "article_id"), Field(req.body, "inc_votes")).result))
            == Response(400, ErrorObject(M.INVALID_ARTICLE_ID))
    ensures Serve(CommentPosted(M.CreateArticleComment(db, Field(req.params, "article_id"),
                                                      Field(req.body, "username"), Field(req.body, "body"), now).result))
            == Response(400, ErrorObject(M.INVALID_ID))
  {
  }

  /** A numeric id with no article row is a 404 on the reading routes and
      on posting a complete comment; patching it answers 200 with no row. */
  lemma MissingArticle(db: Db, req: Request, now: int)
    requires !IsNaN(Field(req.params, "article_id"))
    requires NumValue(Field(req.params, "article_id")) !in ArticleIds(db.articles)
    ensures Serve(GetArticle(db, req)) == Response(404, ErrorObject(M.PATH_NOT_FOUND))
    ensures Serve(GetArticleComments(db, req)) == Response(404, ErrorObject(M.NON_EXISTENT_ID))
    ensures Truthy(Field(req.body, "username")) && Truthy(Field(req.body, "body")) ==>
              Serve(CommentPosted(M.CreateArticleComment(db, Field(req.params, "article_id"),
                                                        Field(req.body, "username"), Field(req.body, "body"), now).result))
              == Response(404, ErrorObject(M.NON_EXISTENT_ARTICLE))
    ensures !IsNaN(Field(req.body, "inc_votes")) ==>
              Serve(VotesPatched(M.UpdateArticleVotes(db, Field(req.params, "article_id"), Field(req.body, "inc_votes")).result))
              == Response(200, UpdatedRow(None))
  {
  }

  /** The listing answers 400 for a bad direction or column, 404 for an
      unknown topic, and 200 otherwise, a known topic without articles
      included. */
  lemma ListingStatus(db: Db, req: Request)
    ensures var sortBy, order, topic := Field(req.query, "sort_by"), Field(req.query, "order"), Field(req.query, "topic");
            var status := Serve(GetArticles(db, req)).status;
            && (M.DirectionOf(order).None? || M.SortColumnOf(sortBy).None? ==> status == 400)
            && (M.DirectionOf(order).Some? && M.SortColumnOf(sortBy).Some? ==>
                  (status == 404 <==> Truthy(topic) && Text(topic) !in db.topics)
                  && (status == 200 <==> !Truthy(topic) || Text(topic) in db.topics))
  {
  }

  /** A missing `inc_votes` is a 400 naming `inc_votes`, even for an article
      that does not exist. */
  lemma MissingIncVotesIs400(db: Db, req: Request)
    requires !IsNaN(Field(req.params, "article_id"))
    requires "inc_votes" !in req.body
    ensures Serve(VotesPatched(M.UpdateArticleVotes(db, Field(req.params, "article_id"), Field(req.body, "inc_votes")).result))
            == Response(400, ErrorObject(ApiError(400, "Bad request. Invalid inc_votes")))
  {
  }

  /** Posting a comment: a missing field is a 400 before any table is read;
      with both fields, a missing article is a 404 that takes precedence
      over a missing user, which is a 404 too. */
  lemma PostCommentFailures(db: Db, req: Request, now: int)
    requires !IsNaN(Field(req.params, "article_id"))
    ensures var s := M.CreateArticleComment(db, Field(req.params, "article_id"),
                                            Field(req.body, "username"), Field(req.body, "body"), now);
            var res := Serve(CommentPosted(s.result));
            && (!Truthy(Field(req.body, "username")) || !Truthy(Field(req.body, "body")) ==>
                  res == Response(400, ErrorObject(M.MISSING_FIELDS)))
            && (Truthy(Field(req.body, "username")) && Truthy(Field(req.body, "body")) ==>
                  && (NumValue(Field(req.params, "article_id")) !in ArticleIds(db.articles) ==>
                        res == Response(404, ErrorObject(M.NON_EXISTENT_ARTICLE)))
                  && (NumValue(Field(req.params, "article_id")) in ArticleIds(db.articles) &&
                      Text(Field(req.body, "username")) !in db.users ==>
                        res == Response(404, ErrorObject(M.NON_EXISTENT_USER))))
            && (res.status != 201 ==> s.db == db)
  {
  }

  /** Fields of the body other than `username` and `body` do not change
      what posting a comment does. */
  lemma PostIgnoresOtherFields(db: Db, req: Request, key: string, v: Value, now: int)
    requires key != "username" && key != "body"
    ensures var extra := req.(body := req.body[key := v]);
            M.CreateArticleComment(db, Field(extra.params, "article_id"), Field(extra.body, "username"), Field(extra.body, "body"), now)
            == M.CreateArticleComment(db, Field(req.params, "article_id"), Field(req.body, "username"), Field(req.body, "body"), now)
  {
  }

  /** Deleting a comment answers 204 the first time and 404 the second. */
  lemma DeleteTwiceOverHttp(db: Db, req: Request)
    requires !IsNaN(Field(req.params, "comment_id"))
    requires NumValue(Field(req.params, "comment_id")) in CommentIds(db.comments)
    ensures var first := M.DeleteArticleComment(db, Field(req.params, "comment_id"));
            var second := M.DeleteArticleComment(first.db, Field(req.params, "comment_id"));
            && Serve(CommentDeleted(first.result)) == Response(204, NoContent)
            && Serve(CommentDeleted(second.result)) == Response(404, ErrorObject(M.NON_EXISTENT_ID))
  {
    M.DeleteTwice(db, Field(req.params, "comment_id"));
  }

  /** A client of the store: two deletes of one comment through the handler. */
  method DeleteTwiceOnStore(store: Store, req: Request) returns (first: Response, second: Response)
    requires store.Valid()
    requires !IsNaN(Field(req.params, "comment_id"))
    requires NumValue(Field(req.params, "comment_id")) in CommentIds(store.comments)
    modifies store
    ensures first == Response(204, NoContent)
    ensures second == Response(404, ErrorObject(M.NON_EXISTENT_ID))
  {
    DeleteTwiceOverHttp(store.Snapshot(), req);
    var out := DeleteComment(store, req);
    first := Serve(out);
    out := DeleteComment(store, req);
    second := Serve(out);
  }

  /** A client of the store: `+d` then `-d` on one article through the
      handler leaves every table as it was. */
  method VotesUpAndDownOnStore(store: Store, id: string, d: int) returns (up: Response, down: Response)
    requires store.Valid() && IsIntegerLiteral(id)
    modifies store
    ensures store.Snapshot() == old(store.Snapshot())
    ensures up.status == 200 && down.status == 200
  {
    M.VotesRoundTrip(store.Snapshot(), Str(id), d);
    var out := PatchArticle(store, Request(map["article_id" := Str(id)], map[], map["inc_votes" := Num(d)]));
    up := Serve(out);
    out := PatchArticle(store, Request(map["article_id" := Str(id)], map[], map["inc_votes" := Num(-d)]));
    down := Serve(out);
  }

  /** The first seeded article, as the HTTP tests describe it. */
  function ArticleOne(): Article {
    Article(1, "Living in the shadow of a great man", "mitch", "butter_bridge",
            "I find this existence challenging", 1594329060000, 100)
  }

  /** A small fixture: article 1 with two comments, and one comment elsewhere. */
  function Fixture(): Db {
    Db({"mitch", "cats", "paper"}, {"butter_bridge", "icellusedkars"},
       [ArticleOne(), Article(2, "Sony Vaio; or, The Laptop", "mitch", "icellusedkars", "Call me Mitchell.", 1602828180000, 0)],
       [Comment(1, 1, "butter_bridge", "Oh, I've got compassion running out of my ears.", 16, 1586179020000),
        Comment(2, 2, "icellusedkars", "The beautiful thing about treasure is that it exists.", 14, 1604113380000),
        Comment(3, 1, "icellusedkars", "Replacing the quiet elegance of the dark suit and tie.", 100, 1601463120000)],
       4)
  }

  /** `GET /api/articles/1` answers the whole row and its comment count, and
      `PATCH` with `inc_votes` 1 or -100 answers the row with 101 or 0 votes. */
  lemma ArticleOneExample()
    ensures Serve(GetArticle(Fixture(), Request(map["article_id" := Str("1")], map[], map[])))
            == Response(200, ArticleEnvelope(ArticleWithCount(ArticleOne(), 2)))
    ensures Serve(VotesPatched(M.UpdateArticleVotes(Fixture(), Str("1"), Num(1)).result))
            == Response(200, UpdatedRow(Some(ArticleOne().(votes := 101))))
    ensures Serve(VotesPatched(M.UpdateArticleVotes(Fixture(), Str("1"), Num(-100)).result))
            == Response(200, UpdatedRow(Some(ArticleOne().(votes := 0))))
  {
    assert NumValue(Str("1")) == 1 by {
      assert Str("1").s[..0] == [];
    }
    var cs := Fixture().comments;
    assert cs[1..][1..][1..] == [];
    assert CommentCount(cs, 1) == 2;
  }
}
