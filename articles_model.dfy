/** The data-access functions of the articles resource: each validates its
    arguments, checks that the rows it refers to exist, reads or changes the
    tables, and resolves with rows or rejects with a `{status, msg}`
    descriptor. Here each one is a function of the tables before the call;
    the three that write return the tables after it as well. */
module ArticlesModel {
  import opened Outcomes
  import opened RequestValues
  import opened Tables
  import opened ArticleOrdering

  const BAD_REQUEST := ApiError(400, "Bad request")
  const NON_EXISTENT_TOPIC := ApiError(404, "Non existent topic")
  const PATH_NOT_FOUND := ApiError(404, "Path not found")
  const INVALID_ID := ApiError(400, "Invalid ID")
  const NON_EXISTENT_ID := ApiError(404, "Non existent id")
  const INVALID_ARTICLE_ID := ApiError(400, "Bad request. Invalid article_id")
  const INVALID_INC_VOTES := ApiError(400, "Bad request. Invalid inc_votes")
  const MISSING_FIELDS := ApiError(400, "Missing required field(s)")
  const NON_EXISTENT_ARTICLE := ApiError(404, "Non existent article")
  const NON_EXISTENT_USER := ApiError(404, "Non existent user")

  // ---------------------------------------------------------------------
  // fetchArticles

  /** The `order` argument after its default: `undefined` reads as "DESC",
      and anything else must be exactly "ASC" or "DESC". */
  function DirectionOf(order: Value): (d: Option<Direction>)
    ensures d.Some? <==> order.Absent? || order == Str("ASC") || order == Str("DESC")
    ensures d == Some(Asc) <==> order == Str("ASC")
  {
    match order
    case Absent => Some(Desc)
    case Num(_) => None
    case Str(s) => if s == "ASC" then Some(Asc) else if s == "DESC" then Some(Desc) else None
  }

  /** The `sort_by` argument after its default: `undefined` reads as
      "created_at", and anything else must be one of the six column names. */
  function SortColumnOf(sortBy: Value): (c: Option<Column>)
    ensures c.Some? <==> sortBy.Absent? || (sortBy.Str? && sortBy.s in SORTABLE_COLUMNS)
    ensures sortBy.Absent? ==> c == Some(CreatedAt)
    ensures sortBy.Str? && c.Some? ==> ColumnName(c.value) == sortBy.s
  {
    match sortBy
    case Absent => Some(CreatedAt)
    case Num(_) => None
    case Str(s) => ParseColumn(s)
  }

  /** The listing projection of an article row. */
  function Summary(cs: seq<Comment>, a: Article): ArticleSummary {
    ArticleSummary(a.article_id, a.author, a.title, a.topic, a.created_at, a.votes,
                   CommentCount(cs, a.article_id))
  }

  function Summaries(cs: seq<Comment>, arts: seq<Article>): seq<ArticleSummary> {
    seq(|arts|, i requires 0 <= i < |arts| => Summary(cs, arts[i]))
  }

  /** `WHERE topic = $1`. */
  function WithTopic(arts: seq<Article>, t: string): (r: seq<Article>)
    ensures forall a :: a in r <==> a in arts && a.topic == t
    ensures forall a :: multiset(r)[a] == (if a.topic == t then multiset(arts)[a] else 0)
  {
    if arts == [] then []
    else
      assert arts == [arts[0]] + arts[1..];
      (if arts[0].topic == t then [arts[0]] else []) + WithTopic(arts[1..], t)
  }

  /** The rows a listing draws from: those on the topic when a truthy topic
      is given, otherwise all of them. */
  function Listed(db: Db, topic: Value): seq<Article> {
    if Truthy(topic) then WithTopic(db.articles, Text(topic)) else db.articles
  }

  /** `fetchArticles(sort_by, order, topic)`. The direction is checked first,
      then the column, both before any table is read; a truthy topic must
      name a row of `topics`. The listing is the projection of the selected
      rows, sorted by the column in the direction. */
  function FetchArticles(db: Db, sortBy: Value, order: Value, topic: Value): (r: Result<seq<ArticleSummary>>)
    ensures DirectionOf(order).None? ==> r == Err(BAD_REQUEST)
    ensures DirectionOf(order).Some? && SortColumnOf(sortBy).None? ==> r == Err(BAD_REQUEST)
    ensures DirectionOf(order).Some? && SortColumnOf(sortBy).Some? && Truthy(topic) && Text(topic) !in db.topics
            ==> r == Err(NON_EXISTENT_TOPIC)
    ensures r.Ok? <==>
              DirectionOf(order).Some? && SortColumnOf(sortBy).Some? && (Truthy(topic) ==> Text(topic) in db.topics)
    ensures r.Ok? ==> Sorted(r.value, SortColumnOf(sortBy).value, DirectionOf(order).value)
    ensures r.Ok? ==> multiset(r.value) == multiset(Summaries(db.comments, Listed(db, topic)))
  {
    match DirectionOf(order)
    case None => Err(BAD_REQUEST)
    case Some(dir) =>
      match SortColumnOf(sortBy)
      case None => Err(BAD_REQUEST)
      case Some(col) =>
        if Truthy(topic) && Text(topic) !in db.topics then Err(NON_EXISTENT_TOPIC)
        else Ok(SortRows(Summaries(db.comments, Listed(db, topic)), col, dir))
  }

  lemma FetchArticlesDefaults(db: Db, topic: Value)
    ensures FetchArticles(db, Absent, Absent, topic) == FetchArticles(db, Str("created_at"), Str("DESC"), topic)
  {
  }

  /** With a known topic the listing holds exactly the articles on it. */
  lemma ListingByTopic(db: Db, sortBy: Value, order: Value, topic: Value)
    requires DirectionOf(order).Some? && SortColumnOf(sortBy).Some?
    requires Truthy(topic) && Text(topic) in db.topics
    ensures forall row :: row in FetchArticles(db, sortBy, order, topic).value ==> row.topic == Text(topic)
    ensures forall a :: a in db.articles ==>
              (Summary(db.comments, a) in FetchArticles(db, sortBy, order, topic).value <==> a.topic == Text(topic))
    ensures multiset(FetchArticles(db, sortBy, order, topic).value) ==
              multiset(Summaries(db.comments, WithTopic(db.articles, Text(topic))))
    ensures |FetchArticles(db, sortBy, order, topic).value| == |WithTopic(db.articles, Text(topic))|
  {
    var r := FetchArticles(db, sortBy, order, topic);
    assert Listed(db, topic) == WithTopic(db.articles, Text(topic));
    TopicRows(db.comments, db.articles, Text(topic), r.value);
  }

  /** A permutation of the projection of the rows on topic `t` holds exactly
      the rows on `t`, one per article on it. */
  lemma TopicRows(cs: seq<Comment>, arts: seq<Article>, t: string, rows: seq<ArticleSummary>)
    requires multiset(rows) == multiset(Summaries(cs, WithTopic(arts, t)))
    ensures forall row :: row in rows ==> row.topic == t
    ensures forall a :: a in arts ==> (Summary(cs, a) in rows <==> a.topic == t)
    ensures |rows| == |WithTopic(arts, t)|
  {
    var on := WithTopic(arts, t);
    var listed := Summaries(cs, on);
    assert |rows| == |listed| by {
      assert |multiset(rows)| == |multiset(listed)|;
    }
    forall row | row in rows
      ensures row.topic == t
    {
      assert row in multiset(listed);
      var k :| 0 <= k < |listed| && listed[k] == row;
      assert on[k] in on;
    }
    forall a | a in arts && a.topic == t
      ensures Summary(cs, a) in rows
    {
      var k :| 0 <= k < |on| && on[k] == a;
      assert listed[k] == Summary(cs, a);
      assert listed[k] in multiset(rows);
    }
  }

  lemma {:induction false} WithTopicNone(arts: seq<Article>, t: string)
    requires forall a :: a in arts ==> a.topic != t
    ensures WithTopic(arts, t) == []
  {
    if arts != [] {
      assert arts[0] in arts;
      WithTopicNone(arts[1..], t);
    }
  }

  /** A known topic without articles lists nothing; it is not an error. */
  lemma KnownTopicWithoutArticles(db: Db, sortBy: Value, order: Value, topic: Value)
    requires DirectionOf(order).Some? && SortColumnOf(sortBy).Some?
    requires Truthy(topic) && Text(topic) in db.topics
    requires forall a :: a in db.articles ==> a.topic != Text(topic)
    ensures FetchArticles(db, sortBy, order, topic) == Ok([])
  {
    WithTopicNone(db.articles, Text(topic));
    var rows := FetchArticles(db, sortBy, order, topic).value;
    assert |multiset(rows)| == 0;
  }

  /** Without a topic the listing holds every article once. */
  lemma ListingWithoutTopic(db: Db, sortBy: Value, order: Value, topic: Value)
    requires !Truthy(topic) && FetchArticles(db, sortBy, order, topic).Ok?
    ensures |FetchArticles(db, sortBy, order, topic).value| == |db.articles|
    ensures forall a :: a in db.articles ==> Summary(db.comments, a) in FetchArticles(db, sortBy, order, topic).value
  {
    var rows := FetchArticles(db, sortBy, order, topic).value;
    var listed := Summaries(db.comments, db.articles);
    assert |multiset(rows)| == |multiset(listed)|;
    forall a | a in db.articles
      ensures Summary(db.comments, a) in rows
    {
      var k :| 0 <= k < |db.articles| && db.articles[k] == a;
      assert listed[k] in multiset(rows);
    }
  }

  /** Every listed article carries the number of comments on it. */
  lemma ListingCommentCounts(db: Db, sortBy: Value, order: Value, topic: Value)
    requires FetchArticles(db, sortBy, order, topic).Ok?
    ensures forall row :: row in FetchArticles(db, sortBy, order, topic).value ==>
              row.comment_count == CommentCount(db.comments, row.article_id)
  {
    var rows := FetchArticles(db, sortBy, order, topic).value;
    forall row | row in rows
      ensures row.comment_count == CommentCount(db.comments, row.article_id)
    {
      assert row in multiset(rows);
    }
  }

  // ---------------------------------------------------------------------
  // fetchArticle

  /** `fetchArticle(article_id)`: the whole row and its comment count. */
  function FetchArticle(db: Db, articleId: Value): (r: Result<ArticleWithCount>)
    ensures IsNaN(articleId) ==> r == Err(BAD_REQUEST)
    ensures !IsNaN(articleId) && NumValue(articleId) !in ArticleIds(db.articles) ==> r == Err(PATH_NOT_FOUND)
    ensures r.Ok? <==> !IsNaN(articleId) && NumValue(articleId) in ArticleIds(db.articles)
    ensures r.Ok? ==> && r.value.row in db.articles
                      && r.value.row.article_id == NumValue(articleId)
                      && r.value.comment_count == CommentCount(db.comments, NumValue(articleId))
  {
    if IsNaN(articleId) then Err(BAD_REQUEST)
    else
      var id := NumValue(articleId);
      match FindArticle(db.articles, id)
      case None => Err(PATH_NOT_FOUND)
      case Some(a) => Ok(ArticleWithCount(a, CommentCount(db.comments, id)))
  }

  // ---------------------------------------------------------------------
  // fetchArticleComments

  function View(c: Comment): CommentView {
    CommentView(c.comment_id, c.votes, c.created_at, c.author, c.body)
  }

  function Views(cs: seq<Comment>): seq<CommentView> {
    seq(|cs|, i requires 0 <= i < |cs| => View(cs[i]))
  }

  /** `fetchArticleComments(article_id)`: the article must exist; the listing
      is the projection of its comment rows, one per row. */
  function FetchArticleComments(db: Db, articleId: Value): (r: Result<seq<CommentView>>)
    ensures IsNaN(articleId) ==> r == Err(INVALID_ID)
    ensures !IsNaN(articleId) && NumValue(articleId) !in ArticleIds(db.articles) ==> r == Err(NON_EXISTENT_ID)
    ensures r.Ok? <==> !IsNaN(articleId) && NumValue(articleId) in ArticleIds(db.articles)
    ensures r.Ok? ==> |r.value| == CommentCount(db.comments, NumValue(articleId))
    ensures r.Ok? ==> forall c :: c in db.comments && c.article_id == NumValue(articleId) ==> View(c) in r.value
  {
    if IsNaN(articleId) then Err(INVALID_ID)
    else
      var id := NumValue(articleId);
      if FindArticle(db.articles, id).None? then Err(NON_EXISTENT_ID)
      else
        var on := CommentsOf(db.comments, id);
        CommentCountIsListLength(db.comments, id);
        CommentsOfMembers(db.comments, id);
        assert forall c :: c in on ==> View(c) in Views(on) by {
          forall c | c in on ensures View(c) in Views(on) {
            var k :| 0 <= k < |on| && on[k] == c;
            assert Views(on)[k] == View(c);
          }
        }
        Ok(Views(on))
  }

  /** Every listed comment is the projection of a comment on the article. */
  lemma ListedCommentsBelong(db: Db, articleId: Value)
    requires FetchArticleComments(db, articleId).Ok?
    ensures forall v :: v in FetchArticleComments(db, articleId).value ==>
              exists c :: c in db.comments && c.article_id == NumValue(articleId) && View(c) == v
  {
    var on := CommentsOf(db.comments, NumValue(articleId));
    CommentsOfMembers(db.comments, NumValue(articleId));
    forall v | v in FetchArticleComments(db, articleId).value
      ensures exists c :: c in db.comments && c.article_id == NumValue(articleId) && View(c) == v
    {
      var k :| 0 <= k < |on| && Views(on)[k] == v;
      assert on[k] in on;
    }
  }

  /** An existing article with no comments lists nothing; it is not an error. */
  lemma ArticleWithoutComments(db: Db, articleId: Value)
    requires !IsNaN(articleId) && NumValue(articleId) in ArticleIds(db.articles)
    requires forall c :: c in db.comments ==> c.article_id != NumValue(articleId)
    ensures FetchArticleComments(db, articleId) == Ok([])
  {
    CommentsOfNone(db.comments, NumValue(articleId));
  }

  /** The comment count of an article is the length of its comment listing. */
  lemma CommentCountMatchesListing(db: Db, articleId: Value)
    requires FetchArticle(db, articleId).Ok?
    ensures FetchArticleComments(db, articleId).Ok?
    ensures FetchArticle(db, articleId).value.comment_count == |FetchArticleComments(db, articleId).value|
  {
  }

  // ---------------------------------------------------------------------
  // updateArticleVotes

  /** `UPDATE articles SET votes = votes + $1 WHERE article_id = $2`. */
  function AddVotes(arts: seq<Article>, id: int, delta: int): seq<Article> {
    seq(|arts|, i requires 0 <= i < |arts| =>
      if arts[i].article_id == id then arts[i].(votes := arts[i].votes + delta) else arts[i])
  }

  lemma {:induction false} ArticleIndexSameIds(a: seq<Article>, b: seq<Article>, id: int)
    requires |a| == |b| && forall i :: 0 <= i < |a| ==> a[i].article_id == b[i].article_id
    ensures ArticleIndex(a, id) == ArticleIndex(b, id)
  {
    if a != [] {
      ArticleIndexSameIds(a[1..], b[1..], id);
    }
  }

  /** `updateArticleVotes(article_id, inc_votes)`: the id is checked before
      the increment; then every row with the id gains `inc_votes` votes and
      nothing else changes. It resolves with the updated row, or with
      nothing when no row has the id. */
  function UpdateArticleVotes(db: Db, articleId: Value, incVotes: Value): (s: Step<Option<Article>>)
    ensures IsNaN(articleId) ==> s == Step(Err(INVALID_ARTICLE_ID), db)
    ensures !IsNaN(articleId) && IsNaN(incVotes) ==> s == Step(Err(INVALID_INC_VOTES), db)
    ensures s.result.Err? <==> IsNaN(articleId) || IsNaN(incVotes)
    ensures s.db == db.(articles := s.db.articles)
    ensures |s.db.articles| == |db.articles|
  {
    if IsNaN(articleId) then Step(Err(INVALID_ARTICLE_ID), db)
    else if IsNaN(incVotes) then Step(Err(INVALID_INC_VOTES), db)
    else
      var id, delta := NumValue(articleId), NumValue(incVotes);
      var arts := AddVotes(db.articles, id, delta);
      Step(Ok(FindArticle(arts, id)), db.(articles := arts))
  }

  /** `isNaN` and the bound parameter see `5` and `"5"` alike, so an
      increment sent as a JSON number or as its decimal text makes the same
      update. */
  lemma TextualIncrementSame(db: Db, articleId: Value, n: int)
    ensures UpdateArticleVotes(db, articleId, Str(Decimal(n))) == UpdateArticleVotes(db, articleId, Num(n))
  {
    DecimalRoundTrip(n);
  }

  /** A successful update changes only the `votes` of the rows with the id,
      each by exactly the increment; it resolves with nothing exactly when
      no row has the id, and otherwise with the first such row as updated. */
  lemma UpdateChangesOnlyVotes(db: Db, articleId: Value, incVotes: Value)
    requires !IsNaN(articleId) && !IsNaN(incVotes)
    ensures var s := UpdateArticleVotes(db, articleId, incVotes);
            var id, delta := NumValue(articleId), NumValue(incVotes);
            && (forall i :: 0 <= i < |db.articles| ==>
                  s.db.articles[i] == if db.articles[i].article_id != id then db.articles[i]
                                      else db.articles[i].(votes := db.articles[i].votes + delta))
            && (s.result == Ok(None) <==> id !in ArticleIds(db.articles))
            && (s.result.Ok? && s.result.value.Some? ==>
                  && FindArticle(db.articles, id).Some?
                  && s.result.value.value == FindArticle(db.articles, id).value.(votes := FindArticle(db.articles, id).value.votes + delta))
  {
    var id, delta := NumValue(articleId), NumValue(incVotes);
    ArticleIndexSameIds(AddVotes(db.articles, id, delta), db.articles, id);
  }

  /** With unique ids the update changes exactly the row at the id's
      position, and that row is the one it resolves with. */
  lemma AddVotesAt(arts: seq<Article>, id: int, delta: int, k: nat)
    requires UniqueArticleIds(arts) && k < |arts| && arts[k].article_id == id
    ensures AddVotes(arts, id, delta) == arts[k := arts[k].(votes := arts[k].votes + delta)]
    ensures FindArticle(AddVotes(arts, id, delta), id) == Some(arts[k].(votes := arts[k].votes + delta))
  {
    var after := AddVotes(arts, id, delta);
    ArticleIndexSameIds(after, arts, id);
  }

  /** Without a row with the id the update changes nothing. */
  lemma AddVotesAbsent(arts: seq<Article>, id: int, delta: int)
    requires id !in ArticleIds(arts)
    ensures AddVotes(arts, id, delta) == arts
  {
    assert forall i :: 0 <= i < |arts| ==> arts[i] in arts;
  }

  /** Adding `d` votes and then `-d` votes restores the tables. */
  lemma VotesRoundTrip(db: Db, articleId: Value, d: int)
    requires !IsNaN(articleId)
    ensures UpdateArticleVotes(UpdateArticleVotes(db, articleId, Num(d)).db, articleId, Num(-d)).db == db
  {
    AddVotesInverse(db.articles, NumValue(articleId), d);
  }

  lemma AddVotesInverse(arts: seq<Article>, id: int, d: int)
    ensures AddVotes(AddVotes(arts, id, d), id, -d) == arts
  {
    var back := AddVotes(AddVotes(arts, id, d), id, -d);
    forall i | 0 <= i < |arts| ensures back[i] == arts[i] {
    }
  }

  lemma {:induction false} AddVotesKeepsIds(arts: seq<Article>, id: int, delta: int)
    ensures ArticleIds(AddVotes(arts, id, delta)) == ArticleIds(arts)
  {
    var after := AddVotes(arts, id, delta);
    forall x | x in ArticleIds(after) ensures x in ArticleIds(arts) {
      var a :| a in after && a.article_id == x;
      var k :| 0 <= k < |after| && after[k] == a;
      assert arts[k] in arts;
    }
    forall x | x in ArticleIds(arts) ensures x in ArticleIds(after) {
      var a :| a in arts && a.article_id == x;
      var k :| 0 <= k < |arts| && arts[k] == a;
      assert after[k] in after;
    }
  }

  lemma UpdateKeepsConsistency(db: Db, articleId: Value, incVotes: Value)
    requires Consistent(db)
    ensures Consistent(UpdateArticleVotes(db, articleId, incVotes).db)
  {
    if !IsNaN(articleId) && !IsNaN(incVotes) {
      var after := UpdateArticleVotes(db, articleId, incVotes).db;
      AddVotesKeepsIds(db.articles, NumValue(articleId), NumValue(incVotes));
      forall a | a in after.articles ensures a.topic in db.topics && a.author in db.users {
        var k :| 0 <= k < |after.articles| && after.articles[k] == a;
        assert db.articles[k] in db.articles;
      }
    }
  }

  // ---------------------------------------------------------------------
  // createArticleComment

  /** `createArticleComment(article_id, username, body)` at clock reading
      `now`. The checks run in order and the first failure wins: a NaN id,
      a falsy username or body, a missing article, a missing user. On
      success exactly one row is appended, numbered by the comment sequence,
      with no votes. */
  function CreateArticleComment(db: Db, articleId: Value, username: Value, body: Value, now: int): (s: Step<Comment>)
    ensures IsNaN(articleId) ==> s == Step(Err(INVALID_ID), db)
    ensures !IsNaN(articleId) && (!Truthy(username) || !Truthy(body)) ==> s == Step(Err(MISSING_FIELDS), db)
    ensures !IsNaN(articleId) && Truthy(username) && Truthy(body) && NumValue(articleId) !in ArticleIds(db.articles)
            ==> s == Step(Err(NON_EXISTENT_ARTICLE), db)
    ensures !IsNaN(articleId) && Truthy(username) && Truthy(body) && NumValue(articleId) in ArticleIds(db.articles)
            && Text(username) !in db.users
            ==> s == Step(Err(NON_EXISTENT_USER), db)
    ensures s.result.Ok? <==>
              && !IsNaN(articleId) && Truthy(username) && Truthy(body)
              && NumValue(articleId) in ArticleIds(db.articles) && Text(username) in db.users
    ensures s.result.Ok? ==>
              && s.result.value == Comment(db.nextCommentId, NumValue(articleId), Text(username), Text(body), 0, now)
              && s.db == db.(comments := db.comments + [s.result.value], nextCommentId := db.nextCommentId + 1)
  {
    if IsNaN(articleId) then Step(Err(INVALID_ID), db)
    else if !Truthy(username) || !Truthy(body) then Step(Err(MISSING_FIELDS), db)
    else
      var id := NumValue(articleId);
      if FindArticle(db.articles, id).None? then Step(Err(NON_EXISTENT_ARTICLE), db)
      else if Text(username) !in db.users then Step(Err(NON_EXISTENT_USER), db)
      else
        var c := Comment(db.nextCommentId, id, Text(username), Text(body), 0, now);
        Step(Ok(c), db.(comments := db.comments + [c], nextCommentId := db.nextCommentId + 1))
  }

  /** The new comment's id is not used by any existing row, and the checks
      made before the insert keep every reference valid. */
  lemma CreateKeepsConsistency(db: Db, articleId: Value, username: Value, body: Value, now: int)
    requires Consistent(db)
    ensures var s := CreateArticleComment(db, articleId, username, body, now);
            && Consistent(s.db)
            && (s.result.Ok? ==> s.result.value.comment_id !in CommentIds(db.comments))
  {
    var s := CreateArticleComment(db, articleId, username, body, now);
    if s.result.Ok? {
      var cs := s.db.comments;
      assert forall c :: c in cs ==> c in db.comments || c == s.result.value;
      forall i, j | 0 <= i < j < |cs| ensures cs[i].comment_id != cs[j].comment_id {
        if j == |db.comments| {
          assert cs[i] in db.comments;
        }
      }
    }
  }

  /** After a comment is posted the article's listing gains exactly its
      projection, at the end. */
  lemma CreatedCommentIsListed(db: Db, articleId: Value, username: Value, body: Value, now: int)
    requires CreateArticleComment(db, articleId, username, body, now).result.Ok?
    ensures FetchArticleComments(db, articleId).Ok?
    ensures FetchArticleComments(CreateArticleComment(db, articleId, username, body, now).db, articleId) ==
              Ok(FetchArticleComments(db, articleId).value + [View(CreateArticleComment(db, articleId, username, body, now).result.value)])
    ensures multiset(FetchArticleComments(CreateArticleComment(db, articleId, username, body, now).db, articleId).value) ==
              multiset(FetchArticleComments(db, articleId).value) + multiset{View(CreateArticleComment(db, articleId, username, body, now).result.value)}
  {
    var s := CreateArticleComment(db, articleId, username, body, now);
    var c := s.result.value;
    var id := NumValue(articleId);
    assert s.db.articles == db.articles;
    CommentsOfAppend(db.comments, c, id);
    var before := CommentsOf(db.comments, id);
    assert FetchArticleComments(db, articleId) == Ok(Views(before));
    assert FetchArticleComments(s.db, articleId) == Ok(Views(before + [c]));
    assert Views(before + [c]) == Views(before) + [View(c)];
  }

  /** After a comment is posted the article's comment count is one more. */
  lemma CreateIncrementsCommentCount(db: Db, articleId: Value, username: Value, body: Value, now: int)
    requires CreateArticleComment(db, articleId, username, body, now).result.Ok?
    ensures FetchArticle(db, articleId).Ok?
    ensures FetchArticle(CreateArticleComment(db, articleId, username, body, now).db, articleId).Ok?
    ensures FetchArticle(CreateArticleComment(db, articleId, username, body, now).db, articleId).value ==
              FetchArticle(db, articleId).value.(comment_count := FetchArticle(db, articleId).value.comment_count + 1)
  {
    var s := CreateArticleComment(db, articleId, username, body, now);
    assert s.db.articles == db.articles;
    CommentCountAppend(db.comments, s.result.value, NumValue(articleId));
  }

  /** Posting a comment leaves the listing of every other article as it was. */
  lemma CreateLeavesOtherListings(db: Db, articleId: Value, username: Value, body: Value, now: int, other: Value)
    requires CreateArticleComment(db, articleId, username, body, now).result.Ok?
    requires IsNaN(other) || NumValue(other) != NumValue(articleId)
    ensures FetchArticleComments(CreateArticleComment(db, articleId, username, body, now).db, other) ==
              FetchArticleComments(db, other)
  {
    var s := CreateArticleComment(db, articleId, username, body, now);
    assert s.db.articles == db.articles;
    if !IsNaN(other) {
      var o := NumValue(other);
      CommentsOfAppend(db.comments, s.result.value, o);
      assert CommentsOf(s.db.comments, o) == CommentsOf(db.comments, o);
      assert FindArticle(s.db.articles, o) == FindArticle(db.articles, o);
    }
  }

  // ---------------------------------------------------------------------
  // deleteArticleComment

  /** `deleteArticleComment(comment_id)`: the rows with the id are deleted,
      and when there were none the promise rejects. */
  function DeleteArticleComment(db: Db, commentId: Value): (s: Step<()>)
    ensures IsNaN(commentId) ==> s == Step(Err(INVALID_ID), db)
    ensures !IsNaN(commentId) && NumValue(commentId) !in CommentIds(db.comments) ==> s == Step(Err(NON_EXISTENT_ID), db)
    ensures s.result.Ok? <==> !IsNaN(commentId) && NumValue(commentId) in CommentIds(db.comments)
    ensures s.db == db.(comments := s.db.comments)
    ensures s.result.Ok? ==> forall c :: c in s.db.comments <==> c in db.comments && c.comment_id != NumValue(commentId)
  {
    if IsNaN(commentId) then Step(Err(INVALID_ID), db)
    else
      var kept := WithoutComment(db.comments, NumValue(commentId));
      WithoutCommentMembers(db.comments, NumValue(commentId));
      if |kept| == |db.comments| then Step(Err(NON_EXISTENT_ID), db)
      else Step(Ok(()), db.(comments := kept))
  }

  /** Deleting the same comment a second time finds nothing to delete. */
  lemma DeleteTwice(db: Db, commentId: Value)
    requires DeleteArticleComment(db, commentId).result.Ok?
    ensures var once := DeleteArticleComment(db, commentId).db;
            DeleteArticleComment(once, commentId) == Step(Err(NON_EXISTENT_ID), once)
  {
  }

  lemma UniqueAfterRemoval(cs: seq<Comment>, k: nat)
    requires UniqueCommentIds(cs) && k < |cs|
    ensures UniqueCommentIds(cs[..k] + cs[k + 1..])
  {
    var r := cs[..k] + cs[k + 1..];
    forall i, j | 0 <= i < j < |r| ensures r[i].comment_id != r[j].comment_id {
      var i' := if i < k then i else i + 1;
      var j' := if j < k then j else j + 1;
      assert r[i] == cs[i'] && r[j] == cs[j'];
    }
  }

  /** With unique ids a delete removes exactly one row, keeping the order of
      the others, and keeps the tables consistent. */
  lemma DeleteRemovesOneRow(db: Db, commentId: Value)
    requires Consistent(db) && DeleteArticleComment(db, commentId).result.Ok?
    ensures Consistent(DeleteArticleComment(db, commentId).db)
    ensures exists k :: 0 <= k < |db.comments| &&
              DeleteArticleComment(db, commentId).db.comments == db.comments[..k] + db.comments[k + 1..]
  {
    var id := NumValue(commentId);
    var k := CommentIndex(db.comments, id).value;
    WithoutCommentAt(db.comments, id, k);
    UniqueAfterRemoval(db.comments, k);
  }
}
