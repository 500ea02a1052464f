# Trivia API — a Dafny model of the question service

This project models the request-handling logic of the trivia backend
(`backend/flaskr/__init__.py`): pagination of question lists, listing, deletion,
creation, case-insensitive search, the category filter, and the quiz's choice of the
next unseen question. The SQL store is modelled as a sequence of `Question` rows kept in
id order, plus a sequence of `Category` rows. The handlers that only read the tables are
functions over those sequences, except the quiz, which is a method because its random
pick is a nondeterministic choice. The two handlers that change the table and the
category listing are methods of a `Store` class.

Modules, one per concern:

- `TriviaModel` (model.dfy): the rows, the `Reply` outcome (`Ok`, `Err(400|404|422)`, or
  `NoReturn` when a view function reaches its end without a `return`, which Flask answers
  with a 500), and the ordering predicates.
- `Filtering` (filtering.dfy): the generic row filter behind every `query.filter(...)`.
- `TextMatch` (text_match.dfy): `ILIKE '%term%'` as substring search after ASCII lower-casing.
- `Pagination` (pagination.dfy): `paginate_questions`, with Python's slice semantics,
  including page 0 and negative pages.
- `Handlers` (handlers.dfy): `get_questions`, `search_questions`,
  `get_questions_by_category` and `play_quiz`.
- `QuestionStore` (store.dfy): `delete_question`, `add_question` and `obtain_categories`.

Behaviour the model keeps as the code has it (where it differs from the service's
documented intent, the code is followed):

- `delete_question` raises `abort(404)` inside a `try` whose bare `except` aborts with 422,
  so an unknown id answers 422, not 404.
- `get_questions` has its `return` indented under `abort(404)`, so a non-empty page ends
  in `NoReturn`; only the 404 is a real answer.
- `obtain_categories` tests for an empty dictionary inside the loop, right after an
  insertion, so the 404 can never fire; with the `return` also inside that `if`, the view
  always ends in `NoReturn`.
- The category filter answers 400 (not 404) for an unknown category, never 404 for an
  empty page, and reports the size of the whole table as `total_questions`.
- A quiz category id sent as JSON null is not malformed: `None == 0` is false, so the
  pool is the questions with `category IS NULL`, which is empty; with no previous ids the
  quiz ends at once, with some it answers 422.
- The quiz ends (`question: None`) when the NUMBER of previous ids equals the size of the
  pool, whatever those ids are; when the count differs but every pool question was asked,
  `randrange(0, 0)` fails and the answer is 422.
- A negative page number selects rows counted from the end of the list (Python slicing);
  page 0 is always empty.

## Model

| member | source | states |
|---|---|---|
| Pagination.PySlice | backend/flaskr/__init__.py:18 | a Python slice is the run of the list from the normalised start to the normalised end (empty when the end comes first), never longer than end - start |
| Pagination.Paginate | backend/flaskr/__init__.py:12-20 | a page has at most 10 rows, all from the selection |
| Pagination.PaginatePositive | backend/flaskr/__init__.py:13-18 | for page >= 1 the page is exactly rows (page-1)*10 up to page*10, cut at the end |
| Pagination.PaginateZero | backend/flaskr/__init__.py:14-18 | page 0 is always empty |
| Pagination.PaginateNegative | backend/flaskr/__init__.py:14-18 | a negative page counts ten-row blocks back from the end of the list |
| Pagination.PaginateEmptyIff | backend/flaskr/__init__.py:14-18 | a page is non-empty exactly when page >= 1 and (page-1)*10 < n, or page < 0 and -page*10 < n |
| Pagination.PaginateIsWindow | backend/flaskr/__init__.py:17-18 | every page is a contiguous run of the selection in its order |
| Pagination.PaginateSorted | backend/flaskr/__init__.py:17-18 | pages of an id-ordered list are id-ordered |
| Filtering.Filter | backend/flaskr/__init__.py:155 | the filtered rows are exactly the rows that satisfy the condition, never more rows than before |
| Filtering.FilterKeepsAll | backend/flaskr/__init__.py:84-85 | when every row satisfies the condition the filter returns the list unchanged |
| Filtering.FilterKeepsNone | backend/flaskr/__init__.py:180-182 | when no row satisfies the condition the result is empty |
| Filtering.FilterSorted | backend/flaskr/__init__.py:131 | filtering keeps the rows' relative (id) order |
| Filtering.FilterDropsOne | backend/flaskr/__init__.py:84-85 | removing the one row with an id present among distinct ids shortens the list by exactly one |
| TextMatch.ContainsIff | backend/flaskr/__init__.py:131 | the substring scan succeeds exactly when the term occurs at some position of the text |
| TextMatch.MatchIgnoresCase | backend/flaskr/__init__.py:131 | lower-casing the text or the term does not change whether they match |
| TextMatch.EmptyTermMatchesAll | backend/flaskr/__init__.py:131 | the empty term (pattern `%%`) matches every question; the route never passes an empty term |
| TextMatch.MatchesTerm | backend/flaskr/__init__.py:131 | `text ILIKE '%term%'` holds exactly when the lower-cased term occurs at some position of the lower-cased text |
| TextMatch.TitleFindsCapitalised | backend/flaskr/__init__.py:131 | the term "title" matches the text "Book Title" |
| Handlers.GetQuestions | backend/flaskr/__init__.py:55-72 | 404 exactly when the requested page holds no rows, otherwise the view ends without a reply |
| Handlers.GetQuestionsEmptyStore | backend/flaskr/__init__.py:56-62 | an empty table gives 404 for every page |
| Handlers.SearchMatches | backend/flaskr/__init__.py:131 | the rows kept are exactly those whose text matches the term, and they stay in id order |
| Handlers.SearchQuestions | backend/flaskr/__init__.py:130-144 | 404 exactly when the page of matches is empty; otherwise the page is the requested page of the matches (1 to 10 matching rows), total = number of all matches, current_category = '' |
| Handlers.FindCategory | backend/flaskr/__init__.py:149 | the category found has the requested id; none is found exactly when no category has it |
| Handlers.InCategory | backend/flaskr/__init__.py:155 | the rows kept are exactly those of the category, and they stay in id order |
| Handlers.GetQuestionsByCategory | backend/flaskr/__init__.py:148-164 | 400 exactly for an unknown category; otherwise the requested page of the category's rows (at most 10, all of that category, possibly empty), total = size of the whole table, current_category = a name of that id |
| Handlers.CategoryNameIsUnique | backend/flaskr/__init__.py:149-163 | with unique category ids the name reported is that category's own |
| Handlers.QuizPool | backend/flaskr/__init__.py:175-184 | the pool is every question for id 0, the category's questions for another id, none for a null id; it stays in id order |
| Handlers.NextStep | backend/flaskr/__init__.py:175-186 | the draw selection is exactly the pool's questions whose id is not among the previous ids |
| Handlers.PlayQuiz | backend/flaskr/__init__.py:168-201 | a missing key or unsubscriptable category gives 422; question None exactly when the previous count equals the pool size; a drawn question is in the pool and not previously asked; 422 only when every pool question was asked |
| Handlers.QuizNullCategory | backend/flaskr/__init__.py:175-193 | a null category id ends the quiz when no previous ids are sent, and leaves an empty selection (422) otherwise |
| Handlers.QuizProgress | backend/flaskr/__init__.py:175-193 | with distinct previous ids all from the pool, the quiz either ends or has a question to draw |
| Handlers.QuizCoveredIsAllAsked | backend/flaskr/__init__.py:186-190 | previous ids listing each pool question once end the quiz |
| Handlers.QuizCountNotSet | backend/flaskr/__init__.py:186 | one foreign previous id ends a one-question quiz whose question was never asked |
| Handlers.QuizStuck | backend/flaskr/__init__.py:186-193 | all pool questions asked but a different count leaves an empty selection (422) |
| QuestionStore.FindQuestion | backend/flaskr/__init__.py:78 | the row found has the id; none is found exactly when the id is absent |
| QuestionStore.Without | backend/flaskr/__init__.py:84-85 | deleting a row keeps exactly the other rows in id order, and removes exactly one row when the id is present |
| QuestionStore.CategoryDict | backend/flaskr/__init__.py:42-44 | the dictionary's keys are exactly the category ids |
| QuestionStore.CategoryDictNames | backend/flaskr/__init__.py:43-44 | with unique ids every id maps to its category's name |
| QuestionStore.Store.DeleteQuestion | backend/flaskr/__init__.py:76-97 | present id and successful delete: that row removed, all others kept in order, count minus 1, reply carries the id and the re-read page; otherwise table unchanged and 422 |
| QuestionStore.Store.AddQuestion | backend/flaskr/__init__.py:101-126 | successful insert: one row with the four fields and a fresh id appended, created = that id, count plus 1; failed insert: table unchanged and 422 |
| QuestionStore.Store.ObtainCategories | backend/flaskr/__init__.py:39-51 | the loop builds the id-to-name dictionary of all categories and the view always ends without a reply |

## Left out

- Flask app construction, routing, CORS and the after-request headers: framework plumbing.
- The JSON bodies and messages of the error handlers, and the 405 handler: only the
  numeric code of an abort is modelled.
- SQLAlchemy and `models.py` (`setup_db`, `insert`, `delete`, `format`): not part of this
  model. The tables are sequences; `format()` is the row itself; whether an insert or a
  delete fails (including a NULL a missing body field would write) is a boolean parameter.
- Queries without `order_by` (search, category filter, quiz) are taken in table (id) order;
  SQL leaves that order unspecified.
- `ILIKE` pattern characters inside the term (the wildcards `%` and `_`, and the default
  escape character `\`, so that `a\%b` matches the text `a%b`) and non-ASCII case
  folding: terms are matched literally, with ASCII letters lower-cased.
- Parsing of the `page` query argument (a non-integer becomes 1): `page` is an `int`.
- Rows whose category is NULL: every modelled row has an integer category, so the pool
  of a null quiz category id is empty.
- String/int coercion of the quiz category id, and a request whose body is not JSON
  (`body.get` on None fails outside the `try`).
- The uniform distribution of `random.randrange`: the pick is a nondeterministic choice.
- Store.AddQuestion: does not model the database sequence advancing on a failed insert.
- Concurrent requests between a write and the re-read of the table.
