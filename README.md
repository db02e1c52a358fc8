# Trivia API request handling, in Dafny

A model of the route handlers of the trivia-question web API
(`backend/flaskr/__init__.py`). The relational database is replaced by an
in-memory store: the `questions` table is a sequence of `Question` records
(id, question, answer, category, difficulty) kept in ascending id order, and
the `categories` table a sequence of `Category` records (id, type). Each route
handler becomes an operation over that store that returns a `Response`: a
status code and a JSON body, either the route's own payload or the
`{success: false, error, message}` body of one of the four error handlers.

Modules, leaf to root:

- `Model` (`model.dfy`): the two record types, the id order, the filtered
  reads `.filter(...)` and `.get(id)`, the category dictionary and the loop that
  fills it.
- `Pagination` (`pagination.dfy`): `paginated_questions` with its page size of
  10 and Python's slice rules, including negative page numbers.
- `Text` (`text.dfy`): `ILIKE '%term%'` as ASCII case-folded substring
  containment.
- `Responses` (`responses.dfy`): the response bodies and the four error
  handlers.
- `Routes` (`routes.dfy`): the read-only routes (`list_categories`,
  `list_questions`, `search_question`, `list_categories_questions`,
  `get_next_questions`). Every request re-reads the tables, so each takes the
  rows it reads as inputs. Routes that loop in the source are methods proved
  against a function or predicate; those that do not are functions.
- `Store` (`database.dfy`): the `Database` class. `delete_question` changes
  its `questions` in place, and `create_question` changes `questions` and the
  id sequence; `categories` is only read.

Behaviours of the code worth knowing, all modelled as written:

- Search with an empty page over a non-empty set of matches answers 400, not
  404: the `abort(404)` at `backend/flaskr/__init__.py:82` raises inside the
  `try`, and the bare `except` at lines 88-89 calls `abort(400)`.
- The search's `total_questions` is the size of the returned page, not the
  number of matches (`backend/flaskr/__init__.py:85`).
- A quiz request without `previous_questions` fails with 400 only when the
  chosen category has at least one question: the `in` test that raises runs
  only inside the loop at `backend/flaskr/__init__.py:143-145`.
- The page number is any integer, sliced with Python's rules
  (`backend/flaskr/__init__.py:12-16`). Page 0 is empty, and page -1 of 24
  questions is questions 4 to 13. Nothing rejects non-positive pages.

## Model

| member | source | states |
|---|---|---|
| `Model.Filter` | backend/flaskr/__init__.py:117-118 | a filtered read holds exactly the rows of the table that the filter accepts, and no more rows than the table |
| `Model.FilterAscending` | backend/flaskr/__init__.py:76-79 | filtering an id-ordered table leaves the result in ascending id order |
| `Model.FilterKeepsAll` | backend/flaskr/__init__.py:137 | a filter that accepts every row returns the whole table |
| `Model.FilterAgree` | backend/flaskr/__init__.py:78 | two filters that agree on every row select the same rows in the same order |
| `Model.FilterShrinks` | backend/flaskr/__init__.py:142-145 | a narrower filter selects no more rows, and strictly fewer when some row passes only the wider one |
| `Model.InCategory` | backend/flaskr/__init__.py:117-118 | the category filter holds exactly the table's questions of that category; `Routes.CategoryQuestionsContract` uses it |
| `Model.Without` | backend/flaskr/__init__.py:63-64 | the table after a delete holds exactly the rows whose id differs; `Model.WithoutRemovesOne` gives the exact sequence |
| `Model.WithoutRemovesOne` | backend/flaskr/__init__.py:63-64 | deleting the row at index k of an id-ordered table removes that row and keeps every other row in order |
| `Model.FindQuestion` | backend/flaskr/__init__.py:63 | `Question.query.get` returns a row of the table with that id, and nothing only when no row has that id |
| `Model.FindCategory` | backend/flaskr/__init__.py:116 | `Category.query.get` returns a category with that id, and nothing only when no category has that id |
| `Model.CategoryMapOf` | backend/flaskr/__init__.py:36-39 | the category dictionary's keys are exactly the category ids |
| `Model.CategoryMapLookup` | backend/flaskr/__init__.py:38-39 | with distinct ids, the dictionary maps each category id to that category's type |
| `Model.CategoryMap` | backend/flaskr/__init__.py:50-52 | the loop that assigns `d[id] = type` per category builds the category dictionary |
| `Pagination.SliceBound` | backend/flaskr/__init__.py:16 | a normalised slice bound lies in 0..n, and a non-negative bound is cut at n |
| `Pagination.Slice` | backend/flaskr/__init__.py:16 | with non-negative bounds in order, `s[start:stop]` is the run from start to stop, both cut at the end |
| `Pagination.Paginate` | backend/flaskr/__init__.py:9-17 | a page never holds more than 10 items, for any page number |
| `Pagination.PageSlice` | backend/flaskr/__init__.py:11-17 | for page >= 1 a page is exactly the items from (page-1)*10 up to min(page*10, n) |
| `Pagination.PageIsRun` | backend/flaskr/__init__.py:16 | every page, for any page number, is one contiguous run of the selection |
| `Pagination.PageEmptyIff` | backend/flaskr/__init__.py:13-16 | for page >= 1 a page is empty exactly when (page-1)*10 >= n |
| `Pagination.NegativePages` | backend/flaskr/__init__.py:12-16 | over 24 items page 0 is empty and page -1 is items 4 to 13, by Python's negative slicing |
| `Pagination.PagesPrefix` | backend/flaskr/__init__.py:13-16 | pages 1 to k laid end to end are the first min(k*10, n) items |
| `Pagination.PagesCoverSelection` | backend/flaskr/__init__.py:9-17 | once k*10 >= n, pages 1 to k concatenated reproduce the whole ordered selection |
| `Text.MatchesTerm` | backend/flaskr/__init__.py:78 | `ILIKE '%term%'` holds exactly when some window of the folded text equals the folded term; `Text.MatchesIgnoreCase` and `Text.EmptyTermMatches` state its properties |
| `Text.ContainsIff` | backend/flaskr/__init__.py:78 | the position-by-position substring test holds exactly when some window of the text equals the term |
| `Text.MatchesIgnoreCase` | backend/flaskr/__init__.py:78 | two terms that fold to the same lower case match the same texts |
| `Text.EmptyTermMatches` | backend/flaskr/__init__.py:78 | the empty term matches every text |
| `Responses.BadRequest` | backend/flaskr/__init__.py:156-162 | the 400 handler answers status 400 with success false, error 400 and "bad request" |
| `Responses.NotFound` | backend/flaskr/__init__.py:164-170 | the 404 handler answers status 404 with success false, error 404 and "resource not found" |
| `Responses.Unprocessable` | backend/flaskr/__init__.py:172-178 | the 422 handler answers status 422 with success false, error 422 and "unprocessable" |
| `Responses.InternalServerError` | backend/flaskr/__init__.py:180-186 | the 500 handler answers status 500 with success false, error 500 and "something went wrong" |
| `Routes.PageFromSelection` | backend/flaskr/__init__.py:15-16 | every question of a page is from its selection, and a page of an id-ordered selection is id-ordered |
| `Routes.ListCategories` | backend/flaskr/__init__.py:34-42 | `GET /categories` answers 200 with a dictionary whose keys are exactly the category ids, each mapped to its type when ids are distinct |
| `Routes.ListQuestionsResponse` | backend/flaskr/__init__.py:46-58 | `list_questions` answers 200 or the 404 body, and a 200 holds at most 10 questions with total = table size; `Routes.ListQuestionsContract` states the rest |
| `Routes.ListQuestions` | backend/flaskr/__init__.py:44-58 | the handler with its category loop gives the response `ListQuestionsResponse` describes |
| `Routes.ListQuestionsContract` | backend/flaskr/__init__.py:46-58 | 404 exactly when 0 < n <= (page-1)*10; otherwise 200 with items (page-1)*10 up to page*10 of the table, in id order when the table is, total = table size, every category, null current category |
| `Routes.ListQuestionsBeyondEnd` | backend/test_flaskr.py:54-59 | page 1000 of a 24-question table answers the 404 body |
| `Routes.Matching` | backend/flaskr/__init__.py:76-79 | the search selection holds exactly the table's questions whose text matches the term |
| `Routes.SearchQuestions` | backend/flaskr/__init__.py:71-89 | `search_question` answers 200 or the 400 body, 400 on a missing body, and a 200 holds at most 10 questions with total = page size; `Routes.SearchContract` states the rest |
| `Routes.SearchContract` | backend/flaskr/__init__.py:71-89 | status is 200 or the 400 body; 400 exactly when the body is missing or the page is empty over a non-empty match set; a 200 holds only matching questions of the table, in id order, with total = page size |
| `Routes.SearchPage` | backend/flaskr/__init__.py:76-87 | for page >= 1 a 200 is exactly that page of the matches; no match gives 200 with an empty list and total 0 |
| `Routes.SearchIgnoresCase` | backend/flaskr/__init__.py:78 | terms that differ only in letter case give identical responses |
| `Routes.SearchHowAndHOW` | backend/flaskr/__init__.py:78 | for every table and page, searching "how" and "HOW" gives the same response |
| `Routes.SearchEmptyTerm` | backend/flaskr/__init__.py:76-79 | the empty term matches every question of the table |
| `Routes.CategoryQuestions` | backend/flaskr/__init__.py:113-128 | `list_categories_questions` answers 200 or the 404 body, 404 for a missing category, and a 200 holds at most 10 questions with total = the category's count; `Routes.CategoryQuestionsContract` states the rest |
| `Routes.CategoryQuestionsContract` | backend/flaskr/__init__.py:113-128 | status is 200 or the 404 body; 404 exactly when the category is missing or the page is empty while the category has questions; a 200 holds only questions of that category, in id order, total = the category's count, current category = {id: type} |
| `Routes.CategoryQuestionsPage` | backend/flaskr/__init__.py:117-119 | for page >= 1 a 200 is exactly that page of the category's questions |
| `Routes.QuizPool` | backend/flaskr/__init__.py:136-141 | the quiz pool holds exactly the table's questions for category 0, else exactly those of the category |
| `Routes.QuizCandidates` | backend/flaskr/__init__.py:142-145 | the candidates are exactly the pool's questions whose id is not in previous_questions |
| `Routes.QuizAnswers` | backend/flaskr/__init__.py:130-154 | every response the quiz route may give is 200 with a question body or the 400 body; `Routes.QuizContract` and `Routes.QuizBadRequest` state the rest |
| `Routes.GetNextQuestion` | backend/flaskr/__init__.py:130-154 | the handler, with its candidate loop and a free choice among the candidates, gives one of the responses `QuizAnswers` allows |
| `Routes.QuizContract` | backend/flaskr/__init__.py:136-152 | with a well-formed body: 200; the question returned is in the table, not in previous_questions, and of the chosen category unless it is 0; null exactly when every question of the category was asked |
| `Routes.QuizBadRequest` | backend/flaskr/__init__.py:132-154 | 400 exactly when the body, quiz_category or its id is missing, or previous_questions is missing while the category has questions; otherwise 200 |
| `Routes.QuizProgress` | backend/flaskr/__init__.py:142-145 | adding the asked question's id to previous_questions strictly shrinks the candidates, so a quiz ends with null |
| `Routes.QuizLastCandidate` | backend/flaskr/__init__.py:136-149 | with questions 20..24 in category 1 and 20, 21, 22, 24 asked, the only answer is question 23 |
| `Store.Database.constructor` | backend/flaskr/__init__.py:19-22 | a database over id-ordered questions and distinct category ids satisfies the store invariant |
| `Store.Database.DeleteQuestion` | backend/flaskr/__init__.py:60-69 | an id in the table: exactly that question is removed and `{deleted: id}` answered; an absent id: 422 and the table unchanged; the invariant is kept |
| `Store.Database.CreateQuestion` | backend/flaskr/__init__.py:91-111 | with a body: one question with the next, previously unused, id is appended and `{success: true, created: id}` answered; without one: 400 and nothing stored |
| `Store.ReadRoutesOnDatabase` | backend/flaskr/__init__.py:46-52 | read routes run on a consistent database return pages in id order, a category dictionary mapping each id to its type, and the requested category with its stored type |
| `Store.DeleteThenGet` | backend/test_flaskr.py:61-67 | deleting a present question shortens the table by one, keeps the other questions in order, and a later get of that id finds nothing |
| `Store.CreateThenDelete` | backend/flaskr/__init__.py:99-105 | appending a question with a fresh, larger id keeps the table id-ordered, and deleting it restores the table |

## Left out

- Flask plumbing is not modelled: app construction, `setup_db`, CORS, the `after_request` headers, routing and `jsonify`.
- Parsing the `page` query string is not modelled. The page is an integer input, and its default of 1 is the caller's.
- JSON body parsing is not modelled. A body is an `Option` of a typed record, and a missing key is `None` where the route's behaviour depends on it.
- The database and the ORM are replaced by sequences. Insert and delete are not modelled as failing, since the column constraints live in the `models` module, which is not part of this model.
- Store.Database.CreateQuestion: does not model per-field validation (a body with a missing field), because whether that fails depends on the column constraints of the `models` module.
- Store.Database.DeleteQuestion: a database failure during `question.delete()` that would also answer 422 is not modelled.
- Text.MatchesTerm: does not model SQL `ILIKE` wildcards (`%`, `_`) or the default escape character `\` inside the term, database collation or non-ASCII case folding.
- Routes.SearchQuestions: a body without `searchTerm` is not modelled; the source would search for the text "None".
- Routes.GetNextQuestion: the uniform distribution of `random.choice` is not stated. The result is only some member of the candidates.
- Routes.QuizPool: the order of `Question.query.all()` has no `order_by` and is not relied on. The model reads the table in its stored order, and the quiz results do not depend on that order.
- The routes do not sort. They take the table in the order the `Valid` invariant of `Store.Database` keeps it (ascending id), which stands in for `order_by(Question.id)`.
- `Question.format()` is not a separate member. The JSON form of a question carries the same five fields as the row.
- The 500 handler is modelled, but no modelled route reaches it.
- The ids handed out by the database's id sequence are modelled as larger than every id in the table. That is the `Valid` invariant of `Store.Database`, and it is what keeps `questions` in id order.
