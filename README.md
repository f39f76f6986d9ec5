# Trivia API request handling, modelled in Dafny

This project models the request handlers of the trivia service's Flask backend
(`backend/flaskr/__init__.py`). The service stores trivia questions and their
categories. It answers seven kinds of request: list the categories, list the
questions ten per page, delete a question, add a question, search the question
texts, list the questions of a category, and draw the next quiz question. The
database is an in-memory store: a `questions` table of
`Question(id, question, answer, category, difficulty)` rows with unique ids,
and a `categories` table of `Category(id, typeName)` rows.

Every handler returns a `Response`: either `Success(status, payload)` or
`Failure(kind)`. A failure stands for an `abort(code)` or for an exception that
the handler re-raises; Flask then answers it through the `errorhandler` table.

Modules, one per file:

- `Wrappers` (`wrappers.dfy`) holds `Option`.
- `Text` (`text.dfy`) models the search condition `ILIKE '%term%'`. It is
  substring containment after ASCII lower-casing. A scanning definition is
  proved equal to a positional one.
- `Models` (`models.dfy`) has the two records, id uniqueness and ordering,
  `ORDER BY id` (an insertion sort proved sorted and a permutation), and the
  id-to-type category map.
- `Query` (`query.dfy`) has the where-clauses as a `Criterion` datatype,
  `Select` (the rows a filter keeps, in table order), `.first()` and
  `.one_or_none()`. It also has the lemmas on selection: soundness and
  completeness, counting, order, chaining and removal.
- `Pagination` (`pagination.dfy`) models `paginate_quetions` with Python's exact
  slice semantics. It proves the page window, the size bound and that the
  pages rebuild the list.
- `Errors` (`errors.dfy`) holds the `errorhandler` table.
- `Handlers` (`handlers.dfy`) has the five read-only handlers, as functions of
  a snapshot of the tables.
- `Store` (`store.dfy`) has the class `TriviaDb`. It holds both tables and the
  id sequence. Delete and add are methods that update `questions` in place.
- `Fixture` (`fixture.dfy`) has the test suite's fixture and the responses its
  test cases expect.

The model follows the code where its behaviour is easy to misread:

- When no quiz candidate remains, `.first()` returns `None` and `None.format()`
  raises. The answer is therefore a 500, not a null question.
- A malformed `quiz_category` (missing, without `id`, or not numeric) also
  raises, so it gives a 500 rather than a 400.
- The quiz draw is deterministic. It takes the first eligible row in table
  order, and `random` is never used.
- `get_all_categories` returns only the list of type names, not the records.
- The 422 handler's body has no `success` key.
- A missing `searchTerm` makes `"%" + None` raise, which gives a 500.
- A page below 1 is neither rejected nor clamped. It is cut exactly as Python
  cuts `items[start:end]` with negative bounds. Page 0 is always empty, and a
  negative page counts from the end.

## Model

| member | source | states |
|---|---|---|
| Text.ContainsIffOccurs | backend/flaskr/__init__.py:191-193 | the scanning substring test holds exactly when the pattern occurs at some position of the text (both directions) |
| Text.ContainsIgnoringCaseIff | backend/flaskr/__init__.py:191-193 | a term matches a question text exactly when its lower-cased form occurs somewhere in the lower-cased text |
| Text.MissingCharNeverContained | backend/flaskr/__init__.py:191-193 | a term holding a character that the text lacks never matches it |
| Text.CaseOfTermIrrelevant | backend/flaskr/__init__.py:192 | two terms that agree after lower-casing match the same texts |
| Text.EmptyTermMatchesAll | backend/flaskr/__init__.py:192 | the empty term (`ILIKE '%%'`) matches every text |
| Text.ContainsIgnoringCase | backend/flaskr/__init__.py:192 | the `ILIKE '%term%'` condition: a matching term is never longer than the question text, and the empty term matches every text |
| Models.InsertById | backend/flaskr/__init__.py:86 | inserting into an id-sorted list keeps it sorted, adds exactly that question, and loses none |
| Models.SortById | backend/flaskr/__init__.py:86 | `order_by(Question.id)` returns the ids in non-decreasing order and is a permutation of the table (same multiset, same length) |
| Models.SortByIdOfIncreasing | backend/flaskr/__init__.py:86 | a table whose ids already increase comes back from the sort unchanged |
| Models.SortByIdMembers | backend/flaskr/__init__.py:86 | a question is in the sorted list iff it is in the table |
| Models.CategoryTypes | backend/flaskr/__init__.py:48 | the listed types are one per category, every category's type is listed, and every listed type belongs to a category |
| Models.CategoryMap | backend/flaskr/__init__.py:88-90 | the keys of the category dictionary are exactly the category ids |
| Models.CategoryMapAt | backend/flaskr/__init__.py:88-90 | with unique category ids, the dictionary sends each category's id to that category's type |
| Query.Select | backend/flaskr/__init__.py:191-193 | a filtered query returns exactly the rows that satisfy the filter (sound and complete), never more rows than the table |
| Query.First | backend/flaskr/__init__.py:269 | `.first()` is none exactly for an empty result, otherwise the result's first row |
| Query.Holds | backend/flaskr/__init__.py:262-267 | whether a row passes a where-clause (`ilike` at :192, `filter_by(category=...)` at :224 and :267, `id ==` at :119, `notin_` at :263): a search term passes exactly when its lower-cased form occurs in the lower-cased text, and `NOT IN` passes exactly when the id differs from every listed id |
| Query.Without | backend/flaskr/__init__.py:124 | after `question.delete()` no row has the id, and every row with another id stays |
| Query.OneOrNone | backend/flaskr/__init__.py:119 | `.one_or_none()` finds no row for an empty result and one row for a singleton; anything else is the raising case |
| Query.SelectAppend | backend/flaskr/__init__.py:191-193 | filtering distributes over concatenation, so results keep table order |
| Query.SelectAll | backend/flaskr/__init__.py:224 | a filter that every row passes returns the whole table |
| Query.SelectNone | backend/flaskr/__init__.py:224 | a filter that no row passes returns nothing |
| Query.SelectThenSelect | backend/flaskr/__init__.py:262-267 | chaining `filter` then `filter_by` is the same as filtering by both conditions |
| Query.SelectHeadIsEarliest | backend/flaskr/__init__.py:269 | the first row of a result is the earliest row of the table that satisfies the filter |
| Query.SelectCount | backend/flaskr/__init__.py:202 | over unique ids, the length of a result is the number of distinct rows that satisfy the filter |
| Query.SelectKeepsIncreasing | backend/flaskr/__init__.py:124 | filtering an id-increasing table gives an id-increasing result |
| Query.AtMostOneWithId | backend/flaskr/__init__.py:119 | over unique ids, the lookup by id finds at most one row, and finds one iff the id is present |
| Query.WithoutAbsent | backend/flaskr/__init__.py:119-124 | deleting an absent id leaves the table unchanged |
| Query.WithoutPresent | backend/flaskr/__init__.py:119-124 | deleting the id of row i removes exactly that row; the others stay, in order, and the count drops by one |
| Pagination.SliceBound | backend/flaskr/__init__.py:75 | a normalised Python slice bound lies within the sequence |
| Pagination.PySlice | backend/flaskr/__init__.py:75 | a Python slice never fails, is no longer than the sequence, and holds only its elements |
| Pagination.Paginate | backend/flaskr/__init__.py:66-77 | any page, even a non-positive one, holds at most 10 items, all taken from the list |
| Pagination.PageWindow | backend/flaskr/__init__.py:70-77 | for page >= 1 the page is exactly `items[min((page-1)*10, n) .. min(page*10, n)]`, and a page past the end is empty |
| Pagination.PageNonEmptyIff | backend/flaskr/__init__.py:70-77 | for page >= 1 the page is non-empty iff (page-1)*10 < n, that is iff page <= ceil(n/10) |
| Pagination.PageZeroIsEmpty | backend/flaskr/__init__.py:70-75 | page 0 is the slice `[-10:0]` and is always empty |
| Pagination.NegativePageCountsFromEnd | backend/flaskr/__init__.py:70-75 | page -1 of 15 items gives the first five, as Python's negative slice bounds count from the end |
| Pagination.PagesUpToIsPrefix | backend/flaskr/__init__.py:70-77 | pages 1..k laid end to end are the first min(10k, n) items |
| Pagination.AllPagesRebuild | backend/flaskr/__init__.py:70-77 | pages 1..ceil(n/10) laid end to end give back the whole list |
| Errors.Code | backend/flaskr/__init__.py:282-319 | each error kind's status code is one whose registered handler is that kind |
| Errors.HandlerFor | backend/flaskr/__init__.py:282-319 | handlers are registered only for error statuses (4xx and 5xx), and for each of 400, 404, 405, 422 and 500 |
| Errors.Body | backend/flaskr/__init__.py:282-319 | each error body has `success: false` and a message, except the 422 body, which has no `success` key |
| Errors.HandlerRoundTrip | backend/flaskr/__init__.py:282-319 | each error kind is served by the handler registered for its own status code, and each handler by its code |
| Errors.MessagesDistinct | backend/flaskr/__init__.py:282-319 | the message text determines the error kind |
| Handlers.ListCategories | backend/flaskr/__init__.py:37-53 | 404 iff there are no categories; otherwise 200 with the type names, one per category, in table order |
| Handlers.PageOf | backend/flaskr/__init__.py:87-101 | the shared tail of the paginated handlers: 404 iff the page is empty, otherwise 200 with that page and the size of the whole selection |
| Handlers.ShownIsPage | backend/flaskr/__init__.py:87-97 | whatever the outcome, the questions shown are exactly the requested page of the selection |
| Handlers.ListQuestions | backend/flaskr/__init__.py:79-105 | 404 on an empty store or a page past the end; on success at most 10 id-sorted questions from the store, `total_questions` equal to the store size on every page, the id-to-type map and a null current category |
| Handlers.ListQuestionsCategories | backend/flaskr/__init__.py:88-98 | with unique category ids, the `categories` of a successful listing sends each category's id to its type |
| Handlers.ListShownIsPage | backend/flaskr/__init__.py:86-97 | list-questions shows the requested page of the id-sorted table |
| Handlers.ListQuestionsWindow | backend/flaskr/__init__.py:86-97 | on page >= 1, list-questions shows exactly the window [(page-1)*10, page*10) of the id-sorted table |
| Handlers.ListedPagesRebuild | backend/flaskr/__init__.py:86-97 | reading list-questions from page 1 to the last page yields the whole table ordered by id |
| Handlers.ListQuestionsInStoreOrder | backend/flaskr/__init__.py:86-87 | for a table whose ids increase in storage order, the pages follow storage order |
| Handlers.SearchQuestions | backend/flaskr/__init__.py:184-208 | a missing term gives 500; otherwise 404 iff the page is empty; every returned question is in the store and contains the term ignoring case |
| Handlers.SearchTotalCounts | backend/flaskr/__init__.py:191-202 | `total_questions` counts exactly the distinct stored questions whose text contains the term ignoring case |
| Handlers.SearchIgnoresCase | backend/flaskr/__init__.py:191-193 | search terms that differ only in letter case give the same response |
| Handlers.QuestionsByCategory | backend/flaskr/__init__.py:217-237 | 404 iff the page is empty; every returned question is in the store and has that category; `current_category` is the requested id |
| Handlers.ByCategoryTotalCounts | backend/flaskr/__init__.py:224-231 | `total_questions` counts exactly the distinct stored questions of that category |
| Handlers.EmptyCategoryNotFound | backend/flaskr/__init__.py:223-227 | a category without questions gives 404 on every page, whether or not the category exists |
| Handlers.ByCategoryIgnoresCategories | backend/flaskr/__init__.py:223-224 | the response does not depend on the categories table, since the fetched category is never used |
| Handlers.PlayQuiz | backend/flaskr/__init__.py:249-275 | an absent `previous_questions`, a malformed category or no eligible question gives 500, and only then; a served question is stored, unseen, and of the category unless the id is 0 |
| Handlers.QuizDrawsEarliest | backend/flaskr/__init__.py:262-269 | the quiz serves the earliest eligible question in table order, with no randomness |
| Store.IsComplete | backend/flaskr/__init__.py:160-161 | a new question is rejected exactly when one of its four fields is falsy (`None`, `""` or `0`); an accepted one has non-empty texts and non-zero numbers |
| Store.TriviaDb.constructor | backend/test_flaskr.py:22-26 | a fresh database has the seeded categories, no questions, and ids that start at 1 |
| Store.TriviaDb.DeleteQuestion | backend/flaskr/__init__.py:113-133 | an absent id gives 404 and changes nothing; a present id gives 200 and removes exactly that question; ids stay increasing and the categories are untouched |
| Store.TriviaDb.AddQuestion | backend/flaskr/__init__.py:144-173 | 400 without any change if a field is absent, `""` or `0`; otherwise 201 and exactly one new question appended, with a fresh id |
| Store.DeleteFacts | backend/flaskr/__init__.py:119-124 | in an id-increasing table the lookup by id finds at most one row, and deletion keeps ids increasing and removes the id |
| Store.DeleteThenList | backend/flaskr/__init__.py:113-124 | after a present question is deleted, list-questions never shows it and reports one question fewer |
| Store.AddThenList | backend/flaskr/__init__.py:144-169 | after an add, list-questions reports one more question, and the new one is on the last page |
| Fixture.ListingsSucceed | backend/test_flaskr.py:52-68 | on the fixture, listing categories and questions succeeds, with one question and the map {1: "Math"} |
| Fixture.SearchScenario | backend/test_flaskr.py:165-191 | "four" and "FOUR" find the one question, "fred" gives 404, and no term gives 500 |
| Fixture.NotFoundResponses | backend/test_flaskr.py:70-123 | the failing cases answer 404 with `{"success": false, "message": "Resource not found"}` |
| Fixture.CategoryScenario | backend/test_flaskr.py:103-123 | category 1 lists the question with total 1; the absent category 2 gives 404 |
| Fixture.QuizScenario | backend/test_flaskr.py:193-206 | an "all categories" round serves the question; once it is seen, for a category without questions, or without `previous_questions`, the round fails with 500 |
| Fixture.DeleteScenario | backend/test_flaskr.py:70-101 | deleting id 2 gives 404, deleting id 1 gives 200, and list-questions then gives 404 |
| Fixture.AddScenario | backend/test_flaskr.py:125-143 | adding a complete question succeeds with 201, even for a category id that no category has |
| Fixture.IncompleteAddScenario | backend/flaskr/__init__.py:160-162 | an empty text, a zero difficulty or an absent answer each give 400, and no row is added |

## Left out

- Flask application setup, routing, CORS and the `after_request` headers are framework plumbing and are not modelled. The 405 answers come from routing, so only their handler's body is modelled.
- SQLAlchemy sessions and `db.session.close()` are not modelled; the tables are values held in memory. The `models` module is not part of this model, and `Question.format()` is taken to project the five fields, which makes it the identity on the record.
- Parsing of request bodies and query strings is not modelled. The page number arrives as an integer that has already been parsed. Request fields arrive typed, as `Option<string>` or `Option<int>`. A missing `searchTerm`, a missing `previous_questions` or a malformed `quiz_category["id"]` arrives as `None`. A body that is not JSON, or a field of the wrong JSON type, cannot be expressed.
- Handlers.SearchQuestions: `ILIKE` is modelled as substring containment after ASCII lower-casing. The `%` and `_` wildcards inside a term and locale-dependent case folding are not modelled.
- The categories query (`Category.query.all()` at `backend/flaskr/__init__.py:43` and `:89`) and the search, category and quiz queries have no `ORDER BY`. Their results are modelled in storage order, which the database does not promise.
- The store keeps ids in increasing order of insertion, as an autoincrement key hands them out. Rows inserted out of band with arbitrary ids are not modelled.
- Concurrent requests, interleaving, and failures of the database itself (the other source of 500 answers) are not modelled.
- The test harness's Postgres setup and tear-down are not modelled (`backend/test_flaskr.py:13-46`). Its fixture is rebuilt in `Fixture`.
