/** The relational store the data-access layer works on, as an object whose
    tables the three writing functions change in place. Each method makes
    the checks of its source function in order and then changes only the
    table its statement names; its postcondition ties the outcome and the
    new tables to the function of the same name in ArticlesModel. */
module ArticlesStore {
  import opened Outcomes
  import opened RequestValues
  import opened Tables
  import M = ArticlesModel

  class Store {
    var topics: set<string>
    var users: set<string>
    var articles: seq<Article>
    var comments: seq<Comment>
    var nextCommentId: int

    /** The tables as a value. */
    function Snapshot(): Db
      reads this
    {
      Db(topics, users, articles, comments, nextCommentId)
    }

    predicate Valid()
      reads this
    {
      Consistent(Snapshot())
    }

    /** A store holding the given (seeded) tables. */
    constructor (seed: Db)
      requires Consistent(seed)
      ensures Valid() && Snapshot() == seed
    {
      topics, users, articles := seed.topics, seed.users, seed.articles;
      comments, nextCommentId := seed.comments, seed.nextCommentId;
    }

    /** `updateArticleVotes`: after the two checks, the row with the id is
        found and its `votes` column is increased in place. */
    method UpdateArticleVotes(articleId: Value, incVotes: Value) returns (r: Result<Option<Article>>)
      requires Valid()
      modifies this
      ensures Valid()
      ensures Step(r, Snapshot()) == M.UpdateArticleVotes(old(Snapshot()), articleId, incVotes)
      ensures topics == old(topics) && users == old(users)
      ensures comments == old(comments) && nextCommentId == old(nextCommentId)
    {
      if IsNaN(articleId) {
        return Err(M.INVALID_ARTICLE_ID);
      }
      if IsNaN(incVotes) {
        return Err(M.INVALID_INC_VOTES);
      }
      var id, delta := NumValue(articleId), NumValue(incVotes);
      M.UpdateKeepsConsistency(Snapshot(), articleId, incVotes);
      var found := ArticleIndex(articles, id);
      if found.None? {
        M.AddVotesAbsent(articles, id, delta);
        return Ok(None);
      }
      var k := found.value;
      M.AddVotesAt(articles, id, delta, k);
      articles := articles[k := articles[k].(votes := articles[k].votes + delta)];
      r := Ok(Some(articles[k]));
    }

    /** `createArticleComment`: after the four checks, one row numbered by
        the comment sequence is appended and the sequence advances. */
    method CreateArticleComment(articleId: Value, username: Value, body: Value, now: int) returns (r: Result<Comment>)
      requires Valid()
      modifies this
      ensures Valid()
      ensures Step(r, Snapshot()) == M.CreateArticleComment(old(Snapshot()), articleId, username, body, now)
      ensures topics == old(topics) && users == old(users) && articles == old(articles)
    {
      M.CreateKeepsConsistency(Snapshot(), articleId, username, body, now);
      if IsNaN(articleId) {
        return Err(M.INVALID_ID);
      }
      if !Truthy(username) || !Truthy(body) {
        return Err(M.MISSING_FIELDS);
      }
      var id := NumValue(articleId);
      if FindArticle(articles, id).None? {
        return Err(M.NON_EXISTENT_ARTICLE);
      }
      var author := Text(username);
      if author !in users {
        return Err(M.NON_EXISTENT_USER);
      }
      var c := Comment(nextCommentId, id, author, Text(body), 0, now);
      comments := comments + [c];
      nextCommentId := nextCommentId + 1;
      r := Ok(c);
    }

    /** `deleteArticleComment`: after the id check, the row with the id is
        cut out of the table; when there is none the call rejects. */
    method DeleteArticleComment(commentId: Value) returns (r: Result<()>)
      requires Valid()
      modifies this
      ensures Valid()
      ensures Step(r, Snapshot()) == M.DeleteArticleComment(old(Snapshot()), commentId)
      ensures topics == old(topics) && users == old(users) && articles == old(articles)
      ensures nextCommentId == old(nextCommentId)
    {
      if IsNaN(commentId) {
        return Err(M.INVALID_ID);
      }
      var id := NumValue(commentId);
      var found := CommentIndex(comments, id);
      if found.None? {
        return Err(M.NON_EXISTENT_ID);
      }
      var k := found.value;
      WithoutCommentAt(comments, id, k);
      M.DeleteRemovesOneRow(Snapshot(), commentId);
      comments := comments[..k] + comments[k + 1..];
      r := Ok(());
    }
  }
}
