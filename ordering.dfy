/** The `ORDER BY ${sort_by} ${order}` clause of the article listing: the
    whitelist of sortable columns, the two directions, and a sort that
    meets them. */
module ArticleOrdering {
  import opened Outcomes
  import opened Tables

  /** The six columns a listing may be sorted by. */
  datatype Column = ArticleId | Title | Topic | Author | CreatedAt | Votes

  datatype Direction = Asc | Desc

  const SORTABLE_COLUMNS: seq<string> :=
    ["article_id", "title", "topic", "author", "created_at", "votes"]

  function ColumnName(c: Column): (name: string)
    ensures name in SORTABLE_COLUMNS
  {
    match c
    case ArticleId => "article_id"
    case Title => "title"
    case Topic => "topic"
    case Author => "author"
    case CreatedAt => "created_at"
    case Votes => "votes"
  }

  /** The whitelist check: a name is accepted exactly when it is one of the
      six column names, and then it names that column. */
  function ParseColumn(name: string): (c: Option<Column>)
    ensures c.Some? <==> name in SORTABLE_COLUMNS
    ensures c.Some? ==> ColumnName(c.value) == name
  {
    if name == "article_id" then Some(ArticleId)
    else if name == "title" then Some(Title)
    else if name == "topic" then Some(Topic)
    else if name == "author" then Some(Author)
    else if name == "created_at" then Some(CreatedAt)
    else if name == "votes" then Some(Votes)
    else None
  }

  lemma ParseColumnName(c: Column)
    ensures ParseColumn(ColumnName(c)) == Some(c)
  {
  }

  /** Code-point lexicographic order on text. */
  predicate LexLe(s: string, t: string) {
    s == [] || (t != [] && (s[0] < t[0] || (s[0] == t[0] && LexLe(s[1..], t[1..]))))
  }

  lemma {:induction false} LexLeTotal(s: string, t: string)
    ensures LexLe(s, t) || LexLe(t, s)
  {
    if s != [] && t != [] && s[0] == t[0] {
      LexLeTotal(s[1..], t[1..]);
    }
  }

  lemma {:induction false} LexLeTransitive(s: string, t: string, u: string)
    requires LexLe(s, t) && LexLe(t, u)
    ensures LexLe(s, u)
  {
    if s != [] && s[0] == t[0] && t[0] == u[0] {
      LexLeTransitive(s[1..], t[1..], u[1..]);
    }
  }

  /** Ascending order on one column. */
  predicate ColumnLe(col: Column, a: ArticleSummary, b: ArticleSummary) {
    match col
    case ArticleId => a.article_id <= b.article_id
    case Title => LexLe(a.title, b.title)
    case Topic => LexLe(a.topic, b.topic)
    case Author => LexLe(a.author, b.author)
    case CreatedAt => a.created_at <= b.created_at
    case Votes => a.votes <= b.votes
  }

  /** `a` may come before `b` in a listing ordered by `col` in direction `dir`. */
  predicate Precedes(col: Column, dir: Direction, a: ArticleSummary, b: ArticleSummary) {
    match dir
    case Asc => ColumnLe(col, a, b)
    case Desc => ColumnLe(col, b, a)
  }

  lemma PrecedesTotal(col: Column, dir: Direction, a: ArticleSummary, b: ArticleSummary)
    ensures Precedes(col, dir, a, b) || Precedes(col, dir, b, a)
  {
    match col
    case Title => LexLeTotal(a.title, b.title);
    case Topic => LexLeTotal(a.topic, b.topic);
    case Author => LexLeTotal(a.author, b.author);
    case _ =>
  }

  lemma PrecedesTransitive(col: Column, dir: Direction, a: ArticleSummary, b: ArticleSummary, c: ArticleSummary)
    requires Precedes(col, dir, a, b) && Precedes(col, dir, b, c)
    ensures Precedes(col, dir, a, c)
  {
    match (col, dir)
    case (Title, Asc) => LexLeTransitive(a.title, b.title, c.title);
    case (Title, Desc) => LexLeTransitive(c.title, b.title, a.title);
    case (Topic, Asc) => LexLeTransitive(a.topic, b.topic, c.topic);
    case (Topic, Desc) => LexLeTransitive(c.topic, b.topic, a.topic);
    case (Author, Asc) => LexLeTransitive(a.author, b.author, c.author);
    case (Author, Desc) => LexLeTransitive(c.author, b.author, a.author);
    case _ =>
  }

  /** Every row may come before every later row. */
  predicate Sorted(rows: seq<ArticleSummary>, col: Column, dir: Direction) {
    forall i, j :: 0 <= i < j < |rows| ==> Precedes(col, dir, rows[i], rows[j])
  }

  /** Puts `x` into a sorted listing, before the first row it may precede. */
  function Insert(x: ArticleSummary, rows: seq<ArticleSummary>, col: Column, dir: Direction): (r: seq<ArticleSummary>)
    requires Sorted(rows, col, dir)
    ensures Sorted(r, col, dir)
    ensures multiset(r) == multiset(rows) + multiset{x}
  {
    if rows == [] then [x]
    else if Precedes(col, dir, x, rows[0]) then
      InsertFront(x, rows, col, dir);
      [x] + rows
    else
      var rest := Insert(x, rows[1..], col, dir);
      assert rows == [rows[0]] + rows[1..];
      InsertBehind(x, rows, rest, col, dir);
      [rows[0]] + rest
  }

  lemma InsertFront(x: ArticleSummary, rows: seq<ArticleSummary>, col: Column, dir: Direction)
    requires Sorted(rows, col, dir) && rows != [] && Precedes(col, dir, x, rows[0])
    ensures Sorted([x] + rows, col, dir)
  {
    var r := [x] + rows;
    forall i, j | 0 <= i < j < |r|
      ensures Precedes(col, dir, r[i], r[j])
    {
      if i == 0 {
        assert r[j] == rows[j - 1];
        if j > 1 {
          PrecedesTransitive(col, dir, x, rows[0], rows[j - 1]);
        }
      } else {
        assert r[i] == rows[i - 1] && r[j] == rows[j - 1];
      }
    }
  }

  lemma InsertBehind(x: ArticleSummary, rows: seq<ArticleSummary>, rest: seq<ArticleSummary>, col: Column, dir: Direction)
    requires Sorted(rows, col, dir) && rows != [] && !Precedes(col, dir, x, rows[0])
    requires Sorted(rest, col, dir) && multiset(rest) == multiset(rows[1..]) + multiset{x}
    ensures Sorted([rows[0]] + rest, col, dir)
  {
    var r := [rows[0]] + rest;
    forall i, j | 0 <= i < j < |r|
      ensures Precedes(col, dir, r[i], r[j])
    {
      if i > 0 {
        assert r[i] == rest[i - 1] && r[j] == rest[j - 1];
      } else {
        assert r[j] == rest[j - 1];
        PrecedesFirst(x, rows, rest, j - 1, col, dir);
      }
    }
  }

  lemma PrecedesFirst(x: ArticleSummary, rows: seq<ArticleSummary>, rest: seq<ArticleSummary>, j: nat, col: Column, dir: Direction)
    requires Sorted(rows, col, dir) && rows != [] && !Precedes(col, dir, x, rows[0])
    requires multiset(rest) == multiset(rows[1..]) + multiset{x}
    requires j < |rest|
    ensures Precedes(col, dir, rows[0], rest[j])
  {
    assert rest[j] in multiset(rest);
    if rest[j] == x {
      PrecedesTotal(col, dir, x, rows[0]);
    } else {
      assert rest[j] in rows[1..];
      var m :| 0 <= m < |rows[1..]| && rows[1..][m] == rest[j];
      assert rows[m + 1] == rest[j];
    }
  }

  /** The listing's order: sorted by `col` in direction `dir`, holding the
      same rows. Rows that tie on the column keep no promised order. */
  function SortRows(rows: seq<ArticleSummary>, col: Column, dir: Direction): (r: seq<ArticleSummary>)
    ensures Sorted(r, col, dir)
    ensures multiset(r) == multiset(rows)
  {
    if rows == [] then []
    else
      assert rows == [rows[0]] + rows[1..];
      Insert(rows[0], SortRows(rows[1..], col, dir), col, dir)
  }
}
