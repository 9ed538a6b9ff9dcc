/** The four tables the data-access layer reads and writes, and the row
    shapes its queries return. */
module Tables {
  import opened Outcomes

  /** A row of `articles`; `created_at` is an abstract clock reading. */
  datatype Article = Article(
    article_id: int, title: string, topic: string, author: string,
    body: string, created_at: int, votes: int)

  /** A row of `comments`. */
  datatype Comment = Comment(
    comment_id: int, article_id: int, author: string, body: string,
    votes: int, created_at: int)

  /** A row of the article listing: every column but `body`, plus the
      number of comments on the article. */
  datatype ArticleSummary = ArticleSummary(
    article_id: int, author: string, title: string, topic: string,
    created_at: int, votes: int, comment_count: nat)

  /** A row of the single-article fetch: the whole article row plus its
      comment count. */
  datatype ArticleWithCount = ArticleWithCount(row: Article, comment_count: nat)

  /** A row of the comment listing: every column but `article_id`. */
  datatype CommentView = CommentView(
    comment_id: int, votes: int, created_at: int, author: string, body: string)

  /** The tables: topic slugs, usernames, article rows, comment rows, and the
      next value of the sequence that numbers new comments. */
  datatype Db = Db(
    topics: set<string>, users: set<string>, articles: seq<Article>,
    comments: seq<Comment>, nextCommentId: int)

  /** How a data-access function settles, together with the tables after it. */
  datatype Step<T> = Step(result: Result<T>, db: Db)

  function ArticleIds(arts: seq<Article>): set<int> {
    set a | a in arts :: a.article_id
  }

  function CommentIds(cs: seq<Comment>): set<int> {
    set c | c in cs :: c.comment_id
  }

  predicate UniqueArticleIds(arts: seq<Article>) {
    forall i, j :: 0 <= i < j < |arts| ==> arts[i].article_id != arts[j].article_id
  }

  predicate UniqueCommentIds(cs: seq<Comment>) {
    forall i, j :: 0 <= i < j < |cs| ==> cs[i].comment_id != cs[j].comment_id
  }

  /** The store's invariant: primary keys are unique, every reference names
      an existing row, and the comment sequence is ahead of every id used. */
  predicate Consistent(db: Db) {
    && UniqueArticleIds(db.articles)
    && UniqueCommentIds(db.comments)
    && (forall a :: a in db.articles ==> a.topic in db.topics && a.author in db.users)
    && (forall c :: c in db.comments ==>
          && c.comment_id < db.nextCommentId
          && c.article_id in ArticleIds(db.articles)
          && c.author in db.users)
  }

  /** The position of the first article row with the given id. */
  function ArticleIndex(arts: seq<Article>, id: int): (r: Option<nat>)
    ensures r.Some? ==> r.value < |arts| && arts[r.value].article_id == id
    ensures r.Some? ==> forall j :: 0 <= j < r.value ==> arts[j].article_id != id
    ensures r.None? <==> id !in ArticleIds(arts)
  {
    if arts == [] then None
    else if arts[0].article_id == id then Some(0)
    else
      assert ArticleIds(arts) == {arts[0].article_id} + ArticleIds(arts[1..]) by {
        assert arts == [arts[0]] + arts[1..];
      }
      match ArticleIndex(arts[1..], id)
      case None => None
      case Some(k) => Some(k + 1)
  }

  /** `SELECT * FROM articles WHERE article_id = $1`, first row. */
  function FindArticle(arts: seq<Article>, id: int): (r: Option<Article>)
    ensures r.Some? ==> r.value in arts && r.value.article_id == id
    ensures r.None? <==> id !in ArticleIds(arts)
  {
    match ArticleIndex(arts, id)
    case None => None
    case Some(k) => Some(arts[k])
  }

  /** The position of the first comment row with the given id. */
  function CommentIndex(cs: seq<Comment>, id: int): (r: Option<nat>)
    ensures r.Some? ==> r.value < |cs| && cs[r.value].comment_id == id
    ensures r.None? <==> id !in CommentIds(cs)
  {
    if cs == [] then None
    else if cs[0].comment_id == id then Some(0)
    else
      assert CommentIds(cs) == {cs[0].comment_id} + CommentIds(cs[1..]) by {
        assert cs == [cs[0]] + cs[1..];
      }
      match CommentIndex(cs[1..], id)
      case None => None
      case Some(k) => Some(k + 1)
  }

  /** `SELECT COUNT(*) FROM comments WHERE article_id = $1`. */
  function CommentCount(cs: seq<Comment>, id: int): nat {
    if cs == [] then 0
    else (if cs[0].article_id == id then 1 else 0) + CommentCount(cs[1..], id)
  }

  /** The comment rows on one article, in table order. */
  function CommentsOf(cs: seq<Comment>, id: int): seq<Comment> {
    if cs == [] then []
    else (if cs[0].article_id == id then [cs[0]] else []) + CommentsOf(cs[1..], id)
  }

  /** The listed comments are exactly the rows on the article. */
  lemma {:induction false} CommentsOfMembers(cs: seq<Comment>, id: int)
    ensures forall c :: c in CommentsOf(cs, id) <==> c in cs && c.article_id == id
  {
    if cs != [] {
      CommentsOfMembers(cs[1..], id);
      assert cs == [cs[0]] + cs[1..];
    }
  }

  /** An article no row refers to has no comments listed. */
  lemma {:induction false} CommentsOfNone(cs: seq<Comment>, id: int)
    requires forall c :: c in cs ==> c.article_id != id
    ensures CommentsOf(cs, id) == []
  {
    if cs != [] {
      assert cs[0] in cs;
      assert forall c :: c in cs[1..] ==> c in cs;
      CommentsOfNone(cs[1..], id);
    }
  }

  /** `DELETE FROM comments WHERE comment_id = $1`: the rows that remain. */
  function WithoutComment(cs: seq<Comment>, id: int): seq<Comment> {
    if cs == [] then []
    else (if cs[0].comment_id == id then [] else [cs[0]]) + WithoutComment(cs[1..], id)
  }

  /** The remaining rows are exactly those without the id; some row is
      removed exactly when some row has the id. */
  lemma {:induction false} WithoutCommentMembers(cs: seq<Comment>, id: int)
    ensures forall c :: c in WithoutComment(cs, id) <==> c in cs && c.comment_id != id
    ensures |WithoutComment(cs, id)| <= |cs|
    ensures |WithoutComment(cs, id)| == |cs| <==> id !in CommentIds(cs)
  {
    if cs != [] {
      WithoutCommentMembers(cs[1..], id);
      assert cs == [cs[0]] + cs[1..];
      assert CommentIds(cs) == {cs[0].comment_id} + CommentIds(cs[1..]);
    }
  }

  /** The counted comments are exactly the listed ones. */
  lemma {:induction false} CommentCountIsListLength(cs: seq<Comment>, id: int)
    ensures CommentCount(cs, id) == |CommentsOf(cs, id)|
  {
    if cs != [] {
      CommentCountIsListLength(cs[1..], id);
    }
  }

  /** Appending a row on another article leaves the count alone; one on this
      article adds one. */
  lemma {:induction false} CommentCountAppend(cs: seq<Comment>, c: Comment, id: int)
    ensures CommentCount(cs + [c], id) == CommentCount(cs, id) + (if c.article_id == id then 1 else 0)
  {
    if cs == [] {
      assert [c][1..] == [];
    } else {
      assert (cs + [c])[1..] == cs[1..] + [c];
      CommentCountAppend(cs[1..], c, id);
    }
  }

  lemma {:induction false} CommentsOfAppend(cs: seq<Comment>, c: Comment, id: int)
    ensures CommentsOf(cs + [c], id) == CommentsOf(cs, id) + (if c.article_id == id then [c] else [])
  {
    if cs == [] {
      assert [c][1..] == [];
    } else {
      var head := if cs[0].article_id == id then [cs[0]] else [];
      assert (cs + [c])[0] == cs[0];
      assert (cs + [c])[1..] == cs[1..] + [c];
      assert CommentsOf(cs + [c], id) == head + CommentsOf(cs[1..] + [c], id);
      CommentsOfAppend(cs[1..], c, id);
      assert CommentsOf(cs, id) == head + CommentsOf(cs[1..], id);
    }
  }

  /** Without a row to delete, the delete keeps the table as it is. */
  lemma {:induction false} WithoutAbsentComment(cs: seq<Comment>, id: int)
    requires forall k :: 0 <= k < |cs| ==> cs[k].comment_id != id
    ensures WithoutComment(cs, id) == cs
  {
    if cs != [] {
      WithoutAbsentComment(cs[1..], id);
    }
  }

  /** With unique ids, deleting by id removes exactly the row at its position. */
  lemma {:induction false} WithoutCommentAt(cs: seq<Comment>, id: int, k: nat)
    requires UniqueCommentIds(cs)
    requires k < |cs| && cs[k].comment_id == id
    ensures WithoutComment(cs, id) == cs[..k] + cs[k + 1..]
  {
    if k == 0 {
      WithoutAbsentComment(cs[1..], id);
    } else {
      WithoutCommentAt(cs[1..], id, k - 1);
      assert cs[1..][..k - 1] == cs[1..k];
      assert cs[1..][k..] == cs[k + 1..];
      assert cs[..k] == [cs[0]] + cs[1..k];
    }
  }
}
