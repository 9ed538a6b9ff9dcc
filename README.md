# NC News articles API: a Dafny model

This project models the request-handling core of a REST API that serves
topics, articles, comments and users out of a relational store. Three layers
are modelled:

- **The data-access functions of the articles resource.** These are
  `fetchArticles`, `fetchArticle`, `fetchArticleComments`,
  `updateArticleVotes`, `createArticleComment` and `deleteArticleComment`.
  Each one validates its arguments, checks that the rows it refers to exist,
  reads or changes one table, and settles with rows or with a
  `{status, msg}` descriptor.
- **The article handlers.** Each one maps the outcome of one data-access
  call to an HTTP status and body, or hands the rejection to `next`.
- **The error middleware.** `trigger404`, `customError` and `trigger500`,
  in the order the application registers them.

The store is the value `Tables.Db`. It holds topic slugs, usernames, article
rows, comment rows, and the next value of the comment id sequence.
`Tables.Consistent` is its invariant: unique primary keys, valid references,
and a sequence value above every comment id in use.

The three read-only functions are Dafny functions of a `Db`. The three
writing functions are specified twice:
- as functions of a `Db` that return the outcome together with the new
  tables (`Tables.Step`);
- as methods of the class `ArticlesStore.Store`, whose fields are the tables.
  These methods update the rows in place, and their postconditions tie them
  to the functions.

Request values are `Value = Str | Num | Absent`. `Absent` stands for
`undefined`. `IsNaN` agrees with JavaScript's `isNaN` on integers, integer
literals, strings holding a letter and `undefined`: `undefined` is NaN, a
number is not, an optionally signed run of decimal digits is numeric, and a
string with a letter in it is NaN. A missing `inc_votes` is therefore a 400.
Every other string is NaN here. The first line of "## Left out" lists where
that differs from `isNaN`.

`Truthy` follows JavaScript truthiness: `undefined`, `""` and `0` are falsy.

The clock reading `NOW()` is a parameter (`now`).

Where the source and its design notes disagree, the model follows the code:
- The handlers answer with bare arrays or rows. `patchArticle`,
  `postArticleComments`, `getArticles` and `getArticleComments` do not wrap
  their result in `{article: …}` / `{comment: …}` / `{articles: …}` /
  `{comments: …}`. Only `getArticle` wraps, as `{article: row}`.
- A bad `sort_by` or `order` is rejected with the message "Bad request". It
  is not "invalid sort/order".
- `PATCH` on an id with no row answers 200 with no body (`UpdatedRow(None)`).
  It is not a 404.

## Model

| member | source | states |
|---|---|---|
| RequestValues.DigitChar | models/articles-models.js:132-135 | a digit value is written as the digit character that reads back as that value |
| RequestValues.Digits | models/articles-models.js:132-135 | a natural number's rendering is a non-empty digit run |
| RequestValues.Decimal | models/articles-models.js:132-135 | `String(n)` of an integer is an integer literal |
| RequestValues.DigitValue | models/articles-models.js:45 | a digit character denotes a value below ten |
| RequestValues.DigitsRoundTrip | models/articles-models.js:132-135 | reading back the digits of a natural number gives the number |
| RequestValues.DecimalRoundTrip | models/articles-models.js:91-101 | an integer's decimal text is numeric and means that integer again, as matters when `inc_votes` is checked and bound |
| RequestValues.LetterIsNaN | models/articles-models.js:45-47 | any string holding a letter is NaN, so it is rejected as a bad id (e.g. "person", "no-an-id") |
| RequestValues.DigitStringIsNumeric | models/articles-models.js:45-47 | a non-empty string of digits is numeric and denotes its digits |
| Tables.ArticleIndex | models/articles-models.js:115-122 | the first position of a row with the id; nothing exactly when no row has it |
| Tables.FindArticle | models/articles-models.js:69-74 | the row returned has the id and is in the table; nothing exactly when no row has the id |
| Tables.CommentIndex | models/articles-models.js:145-150 | a position of a comment with the id; nothing exactly when no row has it |
| Tables.CommentsOfMembers | models/articles-models.js:76-79 | the comments selected for an article are exactly the rows with that `article_id` |
| Tables.CommentsOfNone | models/articles-models.js:76-79 | when no row refers to the article, its selection is empty |
| Tables.WithoutCommentMembers | models/articles-models.js:145-150 | the rows left by the delete are exactly those with another id; the row count drops exactly when some row had the id |
| Tables.CommentCountIsListLength | models/articles-models.js:51 | the `COUNT(*)` subquery equals the number of comment rows on the article |
| Tables.CommentCountAppend | models/articles-models.js:132-135 | appending a comment adds one to its article's count and nothing to others |
| Tables.CommentsOfAppend | models/articles-models.js:132-135 | appending a comment appends it to its article's comment selection only |
| Tables.WithoutAbsentComment | models/articles-models.js:145-150 | deleting an id no row has leaves the table as it is |
| Tables.WithoutCommentAt | models/articles-models.js:145-147 | with unique ids, deleting by id cuts out exactly the row at the id's position |
| ArticleOrdering.ColumnName | models/articles-models.js:13 | every column's name is on the whitelist |
| ArticleOrdering.ParseColumn | models/articles-models.js:12-18 | a `sort_by` name is accepted exactly when it is one of the six names, and then it names that column |
| ArticleOrdering.ParseColumnName | models/articles-models.js:12-18 | the whitelist check accepts each column's own name as that column |
| ArticleOrdering.LexLeTotal | models/articles-models.js:30 | any two texts are ordered one way or the other |
| ArticleOrdering.LexLeTransitive | models/articles-models.js:30 | the text order is transitive |
| ArticleOrdering.PrecedesTotal | models/articles-models.js:30 | under every column and direction any two listing rows are ordered one way or the other |
| ArticleOrdering.PrecedesTransitive | models/articles-models.js:30 | under every column and direction the row order is transitive |
| ArticleOrdering.Insert | models/articles-models.js:30 | inserting a row into a sorted listing keeps it sorted and adds exactly that row |
| ArticleOrdering.InsertFront | models/articles-models.js:30 | a row that may precede the first row of a sorted listing may lead it |
| ArticleOrdering.InsertBehind | models/articles-models.js:30 | a sorted listing stays sorted with its old first row in front of the rest |
| ArticleOrdering.PrecedesFirst | models/articles-models.js:30 | the first row of a sorted listing precedes each row that remains after an insert behind it |
| ArticleOrdering.SortRows | models/articles-models.js:29-41 | `ORDER BY ${sort_by} ${order}`: the result is sorted by the column in the direction and holds the same rows (ties in no promised order) |
| ArticlesModel.DirectionOf | models/articles-models.js:3-10 | `order` is accepted exactly when it is absent (defaulting to DESC), "ASC" or "DESC", case-sensitive |
| ArticlesModel.SortColumnOf | models/articles-models.js:3-18 | `sort_by` is accepted exactly when it is absent (defaulting to `created_at`) or one of the six names |
| ArticlesModel.WithTopic | models/articles-models.js:30 | `WHERE topic = $1` keeps exactly the rows on the topic, each as often as it occurs in the table, and drops all others |
| ArticlesModel.FetchArticles | models/articles-models.js:3-42 | a bad `order` is 400 "Bad request" whatever else is given; then a bad `sort_by` is 400 "Bad request"; then an unknown truthy topic is 404 "Non existent topic"; success exactly otherwise, with the selected rows' projection sorted as requested and the same rows |
| ArticlesModel.FetchArticlesDefaults | models/articles-models.js:3-7 | absent `sort_by` and `order` behave as `created_at` and `DESC` |
| ArticlesModel.ListingByTopic | models/articles-models.js:20-35 | with a known topic, every listed row is on it and an article is listed exactly when it is on the topic; the listing holds as many rows as there are on the topic, and its multiset of rows is the projection of those rows |
| ArticlesModel.TopicRows | models/articles-models.js:29-34 | any ordering of the topic's selection holds only rows on the topic, lists each article on it, and has one row per such article |
| ArticlesModel.WithTopicNone | models/articles-models.js:29-32 | no row on the topic means an empty selection |
| ArticlesModel.KnownTopicWithoutArticles | models/articles-models.js:20-35 | a known topic without articles gives an empty list, not an error |
| ArticlesModel.ListingWithoutTopic | models/articles-models.js:37-41 | a falsy topic lists every article exactly once |
| ArticlesModel.ListingCommentCounts | models/articles-models.js:30 | each listed row's `comment_count` is the number of comments with its `article_id` |
| ArticlesModel.FetchArticle | models/articles-models.js:44-59 | NaN id is 400 "Bad request"; no row is 404 "Path not found"; otherwise the full row with that id (body included) and its comment count |
| ArticlesModel.FetchArticleComments | models/articles-models.js:61-82 | NaN id is 400 "Invalid ID"; missing article is 404 "Non existent id"; otherwise one entry per comment on the article, each of them listed |
| ArticlesModel.ListedCommentsBelong | models/articles-models.js:76-81 | every listed entry is the `comment_id, votes, created_at, author, body` projection of a comment on the article |
| ArticlesModel.ArticleWithoutComments | __tests__/app.test.js:349-351 | an existing article that no comment refers to lists `Ok([])`, not an error |
| ArticlesModel.CommentCountMatchesListing | models/articles-models.js:49-58 | when an article is found, its comment listing succeeds and its length is the article's `comment_count` |
| ArticlesModel.ArticleIndexSameIds | models/articles-models.js:98-101 | rows with the same ids in the same places give the same position for an id |
| ArticlesModel.UpdateArticleVotes | models/articles-models.js:84-104 | NaN id is 400 "Bad request. Invalid article_id"; only then is a NaN increment (a missing one included) 400 "Bad request. Invalid inc_votes"; nothing but `articles` ever changes |
| ArticlesModel.TextualIncrementSame | models/articles-models.js:91-101 | `inc_votes` sent as the number n and as n's decimal text makes the same update with the same result |
| ArticlesModel.UpdateChangesOnlyVotes | models/articles-models.js:98-103 | a successful update changes only the `votes` of the rows with the id, by exactly the increment; it resolves with nothing exactly when no row has the id, else with the old row plus the increment |
| ArticlesModel.AddVotesAt | models/articles-models.js:98-101 | with unique ids the update rewrites exactly the row at the id's position |
| ArticlesModel.AddVotesAbsent | models/articles-models.js:98-103 | an update of an id no row has changes nothing |
| ArticlesModel.VotesRoundTrip | models/articles-models.js:98-101 | adding `d` and then `-d` votes restores every table |
| ArticlesModel.AddVotesInverse | models/articles-models.js:98-101 | the relative update by `-d` undoes the one by `d` |
| ArticlesModel.AddVotesKeepsIds | models/articles-models.js:98-101 | the update keeps the set of article ids |
| ArticlesModel.UpdateKeepsConsistency | models/articles-models.js:84-104 | the update keeps the store invariant |
| ArticlesModel.CreateArticleComment | models/articles-models.js:106-138 | the checks run in order (NaN id 400 "Invalid ID", falsy username or body 400 "Missing required field(s)", missing article 404 "Non existent article", missing user 404 "Non existent user"); a failure changes nothing; success appends exactly one row with the next sequence id, the article id, author = username, the body and 0 votes |
| ArticlesModel.CreateKeepsConsistency | models/articles-models.js:115-135 | the new id is used by no existing comment, and the checks before the insert keep the store invariant |
| ArticlesModel.CreatedCommentIsListed | models/articles-models.js:132-135 | after a post, the article's comment listing holds exactly the old entries plus the new comment's; in the model's table order the new one is last |
| ArticlesModel.CreateIncrementsCommentCount | models/articles-models.js:132-135 | after a post, the article's `comment_count` is one more and the row is otherwise the same |
| ArticlesModel.CreateLeavesOtherListings | models/articles-models.js:132-135 | a post leaves every other article's comment listing as it was |
| ArticlesModel.DeleteArticleComment | models/articles-models.js:140-151 | NaN id is 400 "Invalid ID"; an id no row has is 404 "Non existent id" and changes nothing; success removes exactly the rows with the id and changes no other table |
| ArticlesModel.DeleteTwice | models/articles-models.js:145-150 | deleting the same id again rejects with 404 "Non existent id" |
| ArticlesModel.UniqueAfterRemoval | models/articles-models.js:145-147 | cutting one row out keeps comment ids unique |
| ArticlesModel.DeleteRemovesOneRow | models/articles-models.js:145-150 | with unique ids the delete removes exactly one row, keeps the others in order, and keeps the store invariant |
| ArticlesStore.Store.constructor | models/articles-models.js:1 | the store holds exactly the seeded tables |
| ArticlesStore.Store.UpdateArticleVotes | models/articles-models.js:84-104 | the in-place update has the function's outcome and new tables, keeps the invariant and leaves the other tables alone |
| ArticlesStore.Store.CreateArticleComment | models/articles-models.js:106-138 | the in-place insert has the function's outcome and new tables, keeps the invariant and leaves topics, users and articles alone |
| ArticlesStore.Store.DeleteArticleComment | models/articles-models.js:140-151 | the in-place delete has the function's outcome and new tables, keeps the invariant and leaves every other table alone |
| ArticlesControllers.ArticlesListed | controllers/articles-controllers.js:15-19 | success is 200 with the bare array; a rejection goes to `next` unchanged |
| ArticlesControllers.ArticleFetched | controllers/articles-controllers.js:24-28 | success is 200 with `{article: row}`; a rejection goes to `next` unchanged |
| ArticlesControllers.CommentsListed | controllers/articles-controllers.js:33-37 | success is 200 with the bare array; a rejection goes to `next` unchanged |
| ArticlesControllers.CommentPosted | controllers/articles-controllers.js:44-48 | success is 201 with the created row; a rejection goes to `next` unchanged |
| ArticlesControllers.CommentDeleted | controllers/articles-controllers.js:53-57 | success is 204 with no body; a rejection goes to `next` unchanged |
| ArticlesControllers.VotesPatched | controllers/articles-controllers.js:65-69 | success is 200 with whatever was resolved, nothing included; a rejection goes to `next` unchanged |
| ArticlesControllers.GetArticles | controllers/articles-controllers.js:10-20 | `sort_by`, `order` and `topic` go from the query to the call unchanged; 200 with the listing or the rejection forwarded |
| ArticlesControllers.GetArticle | controllers/articles-controllers.js:22-29 | the `article_id` parameter goes to the call; 200 with `{article: row}` or the rejection forwarded |
| ArticlesControllers.GetArticleComments | controllers/articles-controllers.js:31-38 | the `article_id` parameter goes to the call; 200 with the listing or the rejection forwarded |
| ArticlesControllers.PostArticleComments | controllers/articles-controllers.js:40-49 | only `username` and `body` are read from the request body; the outcome and the new tables are those of the data-access call |
| ArticlesControllers.DeleteComment | controllers/articles-controllers.js:51-58 | the `comment_id` parameter goes to the call; the outcome and the new tables are those of the data-access call |
| ArticlesControllers.PatchArticle | controllers/articles-controllers.js:60-70 | `inc_votes` is read from the request body; the outcome and the new tables are those of the data-access call |
| ErrorHandling.Trigger404 | controllers/error-handling.js:1-3 | every unmatched request gets 404 `{msg: "Path not found"}` |
| ErrorHandling.CustomError | controllers/error-handling.js:5-8 | it answers exactly the errors with a truthy status, with that status and the error object as body; it passes every other error on unchanged |
| ErrorHandling.Trigger500 | controllers/error-handling.js:9-11 | every error reaching it gets 500 `{msg: "server error"}` |
| ErrorHandling.ErrorChain | app.js:41-42 | composed in the registered order, a descriptor comes out with exactly its own status and itself as body; anything else comes out as 500 |
| ErrorHandling.Serve | app.js:40-42 | a handler's answer reaches the client as is; a forwarded descriptor with a truthy status comes out with that status; any other forwarded error comes out as 500 "server error" |
| ApiProperties.RejectionsAreClientErrors | models/articles-models.js:3-151 | every rejection of the six functions carries status 400 or 404 |
| ApiProperties.ForwardedRejectionKeepsStatus | controllers/error-handling.js:5-11 | a forwarded 400 or 404 descriptor reaches the client with that status and itself as body |
| ApiProperties.NonNumericArticleIdIs400 | __tests__/app.test.js:214-221 | a NaN `article_id` is a 400 on GET article, GET comments, PATCH and POST, each with its own message |
| ApiProperties.MissingArticle | __tests__/app.test.js:206-213 | a numeric id with no row is 404 on GET article ("Path not found"), GET comments and a complete POST; PATCH answers 200 with nothing |
| ApiProperties.ListingStatus | __tests__/app.test.js:96-107 | the listing answers 400 for a bad `sort_by` or `order`, 404 exactly for an unknown truthy topic, and 200 otherwise |
| ApiProperties.MissingIncVotesIs400 | __tests__/app.test.js:272-280 | a body without `inc_votes` is 400 "Bad request. Invalid inc_votes" |
| ApiProperties.PostCommentFailures | __tests__/app.test.js:159-185 | a missing field is 400; then a missing article is 404 before a missing user is 404; a post that is not a 201 changes nothing |
| ApiProperties.PostIgnoresOtherFields | __tests__/app.test.js:128-149 | extra body fields do not change what posting does |
| ApiProperties.DeleteTwiceOverHttp | __tests__/app.test.js:362-368 | deleting an existing comment answers 204, and deleting it again answers 404 "Non existent id" |
| ApiProperties.DeleteTwiceOnStore | controllers/articles-controllers.js:51-58 | two deletes of one comment through the handler on the store answer 204 and then 404 |
| ApiProperties.VotesUpAndDownOnStore | controllers/articles-controllers.js:60-70 | `+d` then `-d` through the handler on the store answers 200 twice and leaves every table as it was |
| ApiProperties.ArticleOneExample | __tests__/app.test.js:224-262 | on a fixture, GET article 1 answers the whole row with its comment count, and PATCH by 1 and by -100 answers the row with 101 and 0 votes |

## Left out

- JavaScript number coercion beyond integers. Strings that `isNaN` treats as numbers but that are not integer literals are NaN here; examples are `""`, `" 7"`, `"1.5"`, `"0x1F"`, `"1e3"` and `"Infinity"`. In the source such a string passes the check and reaches PostgreSQL.
- JSON body values other than strings and integers. `null`, booleans, floats, objects and arrays are not modelled.
- PostgreSQL cast and range errors. Examples: an id such as `"1.5"`, or an integer outside the column's range, including a vote total that overflows. These surface as 500 in the source. Integers here are unbounded, and the model produces no such error. `Http.Thrown.Unrecognised` stands for an error without a status, and the error chain answers it with 500.
- SQL evaluation and the database client. Each statement is modelled by its effect on the tables.
- PostgreSQL's text collation. Text columns sort by code-point order here.
- Order of rows that tie on the sort column. The source leaves it unspecified, and the contracts promise none.
- Order of the comment listing. The query has no `ORDER BY`; the model returns table order.
- `NOW()`. The clock reading is the parameter `now`.
- The comment id SERIAL sequence is the field `nextCommentId`. The gaps that a failed insert leaves in the sequence are not modelled.
- Express routing and path matching in app.js. So is the static `GET /api` response. Only the order of the catch-all route and the two error handlers is modelled.
- models/api-model.js, a file read and a `JSON.parse`. This is I/O.
- models/topics-model.js and controllers/users-controller.js. Each is a single unfiltered table read.
- JSON serialisation of responses. For example, `created_at` is a string on the wire.
- Promises, asynchrony, and the check-then-act window between the existence checks and the writes. Each request is treated as atomic.
