# Trivia API request handlers, modelled in Dafny

The trivia backend stores questions and categories. It serves six endpoints:
- list categories;
- list questions ten per page;
- delete a question;
- create a question, or search question texts;
- list the questions of one category;
- pick the next quiz question.

This project models those handlers (`backend/flaskr/__init__.py`) over an in-memory
store. The store holds the question table as a sequence of rows in strictly increasing id
order, and the category table as a sequence of rows with distinct ids.

- `Entities` (entities.dfy): the `Question` and `Category` rows and the `Record` a
  question is formatted to. `IdOrdered` is the order `order_by(Question.id)` gives.
- `Pagination` (pagination.dfy): `paginate_questions`, with Python's slice rules written
  out, so pages 0 and below behave as they do in Python: negative bounds count from the
  end, then bounds are cut to the sequence.
- `Queries` (queries.dfy): the ORM queries as functions. This covers the order-keeping
  filters by category, by "not asked yet" and by case-insensitive substring. It also covers
  the `one_or_none` lookups by id and the `id -> type` dictionary comprehension.
- `Handlers` (handlers.dfy): the read-only handlers, written as functions of the tables
  and the request, returning a `Response`. It also holds quiz selection, a method that
  picks any eligible row, and the two error handlers' bodies.
- `QuestionStore` (store.dfy): class `Store`. It holds the question table and the id
  sequence. It has the two handlers that change the table in place: `DeleteQuestion` and
  `CreateQuestion`. `Scenario` replays the test suite's create and delete scenarios
  against a small store.

Request inputs are parameters:
- the `page` query argument is an `Option<int>`: `None` when absent or not an integer,
  which means page 1;
- the POST bodies are datatypes whose absent keys are `None`.

Where the test suite and the code disagree, the model follows the code:
- **Page past the end in `get_questions`.** `/questions?page=1000` gets 200 with an empty
  list. The test expects 404.
- **Categories with a query argument.** `/categories?page=5` gets 200, because no
  argument is read. The test expects 404.
- **Unknown quiz category.** Quiz category 30 gets 200 with a null question. The test
  expects 404.

For `/categories/500/questions` the code and the test agree on 404, because that
category's page is empty. The only case the code does not handle is a non-empty page
whose category row is missing: it would crash with a 500, and a precondition of
`GetQuestionsFromCategory` excludes it.

## Model

| member | source | states |
|---|---|---|
| Entities.FormatAll | backend/flaskr/__init__.py:25 | one record per row, in the same order, each keeping its row's id and category |
| Entities.FormatAllOrdered | backend/flaskr/__init__.py:25 | formatting an id-ordered selection gives id-ordered records |
| Entities.FormatAllFrom | backend/flaskr/__init__.py:25 | every formatted record is the format of one of the rows |
| Pagination.DefaultPageIsFirst | backend/flaskr/__init__.py:22-26 | `type=int` with default 1: an absent or non-integer page argument gives the first ten records |
| Pagination.PySlice | backend/flaskr/__init__.py:26 | Python's `s[lo:hi]`: never longer than s; for 0 <= lo <= hi <= len(s) it is exactly s[lo..hi]; empty when 0 <= hi <= lo |
| Pagination.PySliceNegativeStart | backend/flaskr/__init__.py:26 | a start between -len(s) and -1 counts from the end: it slices like lo + len(s) |
| Pagination.PySliceStartBeforeBeginning | backend/flaskr/__init__.py:26 | a start below -len(s) slices like 0 |
| Pagination.PySliceEndPastLength | backend/flaskr/__init__.py:26 | an end past len(s) slices like len(s) |
| Pagination.PySliceNegativeEnd | backend/flaskr/__init__.py:26 | an end between -len(s) and -1 counts from the end: it slices like hi + len(s), the case a page of -1 or below reaches |
| Pagination.PySliceLength | backend/flaskr/__init__.py:26 | a Python slice whose bounds are d apart holds at most d elements |
| Pagination.Paginate | backend/flaskr/__init__.py:21-28 | every page, whatever the page number (negative ones included), holds at most 10 records |
| Pagination.PageOfSelection | backend/flaskr/__init__.py:21-28 | for page >= 1, the page is the formatted selection from (page-1)*10 to min(page*10, n), in order |
| Pagination.PageEmptyIff | backend/flaskr/__init__.py:21-28 | for page >= 1, the page is empty exactly when (page-1)*10 >= n |
| Pagination.FullPage | backend/flaskr/__init__.py:21-28 | a page ending inside the selection holds exactly 10 records |
| Pagination.PageZeroIsEmpty | backend/flaskr/__init__.py:22-26 | page 0 slices [-10:0] and is always empty |
| Pagination.PageMinusOne | backend/flaskr/__init__.py:22-26 | page -1 counts from the end: rows n-20 up to n-10 when n >= 20 |
| Pagination.PageFrom | backend/flaskr/__init__.py:25-26 | every record of a page is the format of a row of the selection |
| Pagination.PageOrdered | backend/flaskr/__init__.py:25-26 | a page of an id-ordered selection is in id order |
| Pagination.PagesArePrefix | backend/flaskr/__init__.py:21-28 | pages 1..k concatenated are the first min(10k, n) formatted rows |
| Pagination.AllPagesCoverSelection | backend/flaskr/__init__.py:21-28 | pages 1..ceil(n/10) concatenated give back the whole formatted selection |
| Queries.Filter | backend/flaskr/__init__.py:122-124 | a filter returns exactly the rows that satisfy its condition, and no more rows than it was given |
| Queries.FilterOrdered | backend/flaskr/__init__.py:122-124 | filtering rows in id order keeps them in id order |
| Queries.FilterNoneMatch | backend/flaskr/__init__.py:198-202 | when no row satisfies the condition the filter returns nothing |
| Queries.InCategory | backend/flaskr/__init__.py:170 | the rows of one category, exactly, in id order |
| Queries.NotAsked | backend/flaskr/__init__.py:198 | the rows whose id is not in the previous-questions list, exactly, in id order |
| Queries.OrderedSameRowsEqual | backend/flaskr/__init__.py:122-124 | two id-ordered sequences holding the same rows are equal, so an ordered query result is determined by which rows it holds |
| Queries.LowerIdempotent | backend/flaskr/__init__.py:123 | case folding twice is case folding once |
| Queries.Contains | backend/flaskr/__init__.py:123 | substring test: true exactly when the term is a prefix of some suffix of the text |
| Queries.SearchIgnoresTermCase | backend/flaskr/__init__.py:123 | the case of the search term's letters does not change what matches |
| Queries.TajMahalMatches | backend/test_flaskr.py:143-150 | every term that case-folds to "Taj Mahal", the test's own term included, matches the Taj Mahal question |
| Queries.Matching | backend/flaskr/__init__.py:122-124 | the search selection holds exactly the rows whose text contains the term case-insensitively, in id order |
| Queries.IndexOf | backend/flaskr/__init__.py:91-94 | the lookup by id finds a row with that id, or reports none exactly when no row has it |
| Queries.RemoveAt | backend/flaskr/__init__.py:96 | removing one row of an ordered table drops the count by one, keeps id order and keeps every row with another id |
| Queries.FindCategory | backend/flaskr/__init__.py:172 | the category lookup finds a row with that id, or reports none exactly when no row has it |
| Queries.CategoryMap | backend/flaskr/__init__.py:54 | the keys of the dictionary are exactly the category ids |
| Queries.CategoryMapOfTable | backend/flaskr/__init__.py:48-57 | over distinct ids, each id maps to its own type and there is one entry per row |
| Handlers.ErrorHandler | backend/flaskr/__init__.py:217-229 | an error body exactly for the 404 and 422 responses, and that body reports success false |
| Handlers.ErrorBodiesMatchStatus | backend/flaskr/__init__.py:217-229 | exactly the 404 and 422 responses have an error body, with success false, error equal to the status, and message "resource not found" for 404 and "unprocessable" for 422 |
| Handlers.GetCategories | backend/flaskr/__init__.py:48-57 | always 200, whatever the query; keys are exactly the category ids; total_categories is the row count |
| Handlers.CategoriesOfTable | backend/flaskr/__init__.py:48-57 | each category id maps to its own type, and the map's size equals total_categories |
| Handlers.GetQuestions | backend/flaskr/__init__.py:66-83 | always 200; total_questions is the table size; at most 10 questions; current_category is a category's type; the map's keys are the category ids |
| Handlers.ListIsPageOfTable | backend/flaskr/__init__.py:69-78 | the list is the requested page of all questions in id order |
| Handlers.ListPastEndIsEmpty | backend/flaskr/__init__.py:66-83 | a page past the end succeeds with an empty list and the full total |
| Handlers.ListTotalsIgnorePage | backend/flaskr/__init__.py:75-83 | total_questions, current_category and categories do not depend on the page |
| Handlers.SearchQuestions | backend/flaskr/__init__.py:121-133 | 200; at most 10 results, each containing the term; total_questions is the number of all matches |
| Handlers.SearchIsPageOfMatches | backend/flaskr/__init__.py:121-133 | the result is the requested page of exactly the matching rows in id order, with their full count |
| Handlers.GetQuestionsFromCategory | backend/flaskr/__init__.py:167-184 | 404 exactly when the page is empty; otherwise every question is of that category, in id order, total_questions is the page length (at most 10) and category is that category's type |
| Handlers.EmptyCategoryNotFound | backend/flaskr/__init__.py:167-175 | a category no question belongs to gives 404 on every page |
| Handlers.CategoryPastEndNotFound | backend/flaskr/__init__.py:169-175 | a page past the category's last page gives 404 |
| Handlers.CategoryTotalIsPageLength | backend/flaskr/__init__.py:171-181 | for a category of more than 10 questions, page 1 reports 10, less than the category's size |
| Handlers.CategoryIsPageOfRows | backend/flaskr/__init__.py:170-184 | the result is the requested page of exactly the category's rows in id order |
| Handlers.Eligible | backend/flaskr/__init__.py:197-200 | the quiz draws from exactly the rows not asked yet and, unless the category is 0, of the quiz's category |
| Handlers.PlayGetQuestion | backend/flaskr/__init__.py:194-208 | 200; the question is null exactly when no row is eligible; otherwise it is the format of an eligible row |
| Handlers.QuizExhausted | backend/flaskr/__init__.py:198-206 | once every id has been asked no question is left |
| Handlers.QuizUnknownCategory | backend/flaskr/__init__.py:200-206 | a category no question has yields no question, not an error |
| QuestionStore.Store.DeleteQuestion | backend/flaskr/__init__.py:89-102 | 404 and an unchanged table exactly when no row has the id; otherwise that row alone is removed, the count drops by one and the order is kept |
| QuestionStore.Store.CreateQuestion | backend/flaskr/__init__.py:110-153 | a present, non-empty search term gives the search answer and an unchanged table. With the term absent or "", a body giving question, answer, category and difficulty appends one row under the next id and returns that id and the new count; a body missing any of the four gives 422 and leaves the table unchanged |

## Left out

- **HTTP plumbing.** Flask routing, `jsonify`, JSON parsing of the request, the CORS setup
  and the `after_request` headers (backend/flaskr/__init__.py:33-43) are framework code.
  The routes `<int:question_id>` and `<int:category_id>` (lines 89, 167) accept only
  non-negative ids, so a negative id is a routing 404. `DeleteQuestion` and
  `GetQuestionsFromCategory` accept any integer; for ids handed out by the sequence this
  makes no difference.
  Responses are a datatype, with `"success"` implied by the case.
- **Sessions and transactions.** ORM sessions, commits and rollback are not modelled.
  `models.py` is not part of this model. So `Question.format()` is taken to copy the five
  columns, `Category.format()` is taken to give the row's `id` and `type` (line 54), and whether the database accepts an insert is modelled by `InsertAccepted`: all
  four fields present. This matches the rejected bodies in the tests.
- **SQL `ilike`.** Its semantics are replaced by an ASCII case-insensitive substring test.
  `%` and `_` in a search term are plain characters here, and the database's Unicode case
  folding is not modelled.
- **`func.random()` ordering.** It becomes a choice of any eligible row. Its distribution
  is not modelled. The second `one_or_none()` call at line 206 has the same emptiness as
  the first, so it is one choice.
- **`Category.query.first()`.** It has no `order_by` in the source, so the database may
  return any row. `GetQuestions` takes the first element of the category sequence it is
  given, and nothing requires that sequence to be in id order. So its contract promises
  only that `current_category` is the type of some category.
- **Search values that are not strings.** A `search` value of another JSON type (a number,
  a list) is not modelled; the term is a string.
- **Create mode's unused work.** The unused selection and pagination in create mode (lines
  140-141) have no observable effect and are omitted.
- **Calls that crash** (unhandled 500s) are excluded by preconditions or by the types:
  - `Category.query.first()` on an empty table: `GetQuestions` requires a category.
  - A non-empty category page whose category row is missing: a precondition of
    `GetQuestionsFromCategory`.
  - A missing `quiz_category` or `previous_questions` key, or a body that is not JSON: the
    request datatypes always carry the fields.
  - Two rows with the same id (`MultipleResultsFound`): excluded by the store's id order.
- **Ids.** The id sequence is modelled as a counter (`nextId`) above the id of every row in the table.
  New rows are appended, so the table stays in id order.
- QuestionStore.Store.CreateQuestion: says nothing about the id sequence after a rejected
  insert. Whether the database consumes a sequence value on a failed insert is not known
  here.
- **The test suite.** backend/test_flaskr.py runs against a live PostgreSQL database with
  fixture-dependent ids. It is not modelled as a whole. `Scenario` and `TajMahalMatches`
  restate the parts that do not depend on fixtures.
