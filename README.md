# Trivia backend: query and selection logic

This project models the request handlers of a small trivia REST backend
(`backend/flaskr/__init__.py`), and proves properties of that model. The
backend lists questions ten per page, lists categories, deletes questions,
creates and searches questions, lists the questions of a category, and picks
a random unseen question for a quiz. It also maps error statuses to fixed
JSON bodies.

The database is replaced by an in-memory store, the class
`App.TriviaApp`. It holds three fields:

- the question table as a sequence kept in id order;
- the category table;
- the next id the table's id sequence will hand out.

The handlers are methods of that class. Delete and create change the
question sequence in place. The other handlers only read it. Each handler
that can abort returns `Ok(payload)` for a 200 response, or `Err(code)` for
the status it aborts with; `Categories`, which never aborts, returns the
category map itself.

Files and modules:

- `wrappers.dfy` (`Wrappers`): the `Option` type.
- `errors.dfy` (`Errors`): the five error codes, their statuses, the handler
  bodies, and the `Result` type the handlers return.
- `queries.dfy` (`Queries`): the pure logic, written as functions with lemmas:
  - pagination, with Python's slice rules written out;
  - the filter expressions the handlers chain onto the question query
    (`Criterion`, `Filter`);
  - an ILIKE matcher for the search;
  - the quiz candidate set;
  - lookup and removal by id;
  - the category map, and the loop that builds it.
- `app.dfy` (`App`): the store class, its `Insert` and `Delete` methods, and
  one method per request handler.
- `scenarios.dfy` (`Scenarios`): client code that replays the test suite's
  situations (`backend/test_flaskr.py`) on small stores. The handlers'
  results come from their contracts alone; the expected rows are computed
  from the query functions of `Queries`.

Behaviour of the code that the model keeps:

- Pages are not clamped. For page 0 and negative pages Python's negative
  slice indices apply. Page 0 is always empty. Page -1 is
  `items[max(0, N-20):max(0, N-10)]`, which is `items[N-20:N-10]` for
  N >= 20 and empty for N < 10 (`Queries.Paginate`,
  `Queries.NonPositivePages`).
- An empty page gives 404 in the two listing handlers. An out-of-range page,
  an unknown category and an empty category all give the same 404.
- The search term goes into the pattern `%term%` unescaped, so `%`, `_` and a
  backslash in the term act as ILIKE wildcards. For example, the term `%`
  matches every question. The substring property is proved for terms without
  those characters (`Queries.SearchIsSubstringMatch`).
- The search reports `total_questions` as the length of the returned page.
  The category listing reports the size of the whole category.
- When the quiz body's category has no `id`, the code compares the category
  column with `None`, which SQL reads as `IS NULL`. The model's rows have no
  NULL columns (see "Left out" on creates with missing fields), so no stored
  question matches and the quiz answers 404. Among integer ids, only 0
  selects every category.
- The database's rejection of a write (the `except Exception: abort(422)`
  paths) is a boolean parameter `accepted`: the store's verdict, which the
  handler cannot see in advance.
- The random choice of the quiz is Dafny's `:|`: any id of the candidate
  list. The question is then fetched again by that id, as the code does.

## Model

| member | source | states |
|---|---|---|
| `Errors.ErrorCodeOf` | backend/flaskr/__init__.py:238-276 | a status has a registered error exactly when it is one of the five statuses, and the error found has that status |
| `Errors.ErrorCodeOfStatus` | backend/flaskr/__init__.py:238-276 | looking up the status of an error gives that error back, so no two handlers share a status |
| `Errors.HandleError` | backend/flaskr/__init__.py:238-276 | every error body has `success == false` and its own status; 400, 404, 405, 422 and 500 carry "Bad request", "Resource was not found", "Method not found", "Unprocessable entity" and "Internal Server error" |
| `Errors.ErrorResponse` | backend/flaskr/__init__.py:238-276 | an aborted request gets a body exactly when its status is one of 400, 404, 405, 422, 500; that body is the one the handler registered for the status sends, so it echoes the status with `success == false` and carries that handler's message |
| `Errors.MessagesDistinct` | backend/flaskr/__init__.py:238-276 | the five messages are pairwise different, so a client can tell the errors apart by message |
| `Queries.PySlice` | backend/flaskr/__init__.py:70 | `s[i:j]` with non-negative bounds is the window from i to j clipped to the sequence; with negative bounds it is the window from N+i to N+j clipped at 0; bounds of one sign that cross give nothing; with a negative i and a non-negative j it runs from N+i (clipped at 0) to j (clipped to N), and the mirror case likewise, empty when they cross; never longer than s, only its elements |
| `Queries.Paginate` | backend/flaskr/__init__.py:64-70 | a page holds at most 10 items, all from the selection; for page >= 1 it is exactly the window from 10*(page-1) to 10*page, clipped to the selection, in order; page 0 is empty; a negative page is the window from N+10*(page-1) to N+10*page, clipped at 0 |
| `Queries.PageEmptyIffBeyondLast` | backend/flaskr/__init__.py:64-70 | for page >= 1, the page is empty exactly when page > ceil(N/10) |
| `Queries.NonPositivePages` | backend/flaskr/__init__.py:65-70 | page 0 is always empty; page -1 of at least 20 items is the window from N-20 to N-10, and of fewer than 10 items is empty (Python negative indices) |
| `Queries.PaginateKeepsIdOrder` | backend/flaskr/__init__.py:70-74 | every page of a selection ordered by id is itself ordered by id |
| `Queries.FirstPagesArePrefix` | backend/flaskr/__init__.py:64-70 | pages 1..k read in order are the first min(10k, N) items, each once |
| `Queries.AllPagesCoverSelection` | backend/flaskr/__init__.py:64-70 | pages 1..ceil(N/10) together are the whole selection, in order |
| `Queries.Filter` | backend/flaskr/__init__.py:183-184 | a filtered query holds exactly the rows of the query that satisfy the filter, and no more rows than the query (order: `Queries.FilterKeepsIdOrder`) |
| `Queries.FilterKeepsIdOrder` | backend/flaskr/__init__.py:183-184 | filtering a query ordered by id gives a result still ordered by id |
| `Queries.FindById` | backend/flaskr/__init__.py:98-99 | the lookup finds a row exactly when some row has the id, and the row found has that id and is stored |
| `Queries.FindByIdIsUnique` | backend/flaskr/__init__.py:224-227 | in an id-ordered store, looking up the id of a stored question returns that very question |
| `Queries.RemoveId` | backend/flaskr/__init__.py:103 | after removal no row has the id, and every other row is still there |
| `Queries.RemoveIdSplices` | backend/flaskr/__init__.py:103 | removing the id of row k from an id-ordered store leaves the rows before and after k unchanged and in order, and the store shrinks by exactly one |
| `Queries.RemoveIdKeepsIdOrder` | backend/flaskr/__init__.py:103-104 | removal keeps the store ordered by id |
| `Queries.SearchIsSubstringMatch` | backend/flaskr/__init__.py:152-153 | for a term without `%`, `_` or backslash, ILIKE `%term%` holds exactly when the text contains the term as a substring, ignoring case |
| `Queries.PercentTermMatchesAnyText` | backend/flaskr/__init__.py:152-153 | the search term `%` matches every text, because the term is not escaped |
| `Queries.PercentTermIsNotASubstring` | backend/flaskr/__init__.py:152-153 | a text without `%` does not contain the term `%`, so the ILIKE match and the substring test differ on that term |
| `Queries.SearchMatches` | backend/flaskr/__init__.py:152-153 | the search keeps exactly the stored questions whose text matches the pattern `%term%` |
| `Queries.SearchFindsSubstrings` | backend/flaskr/__init__.py:152-153 | for a term without wildcards, a question is a search match exactly when it is stored and its text contains the term, ignoring case |
| `Queries.QuizCandidates` | backend/flaskr/__init__.py:213-219 | a question is a candidate exactly when it is stored, its id is not among the previous ids, and the category is 0 or equals its category |
| `Queries.IdsOf` | backend/flaskr/__init__.py:220-221 | the id list is empty exactly when there are no candidates, and an id is listed exactly when some candidate has it |
| `Queries.UnusedCategoryHasNoCandidates` | backend/flaskr/__init__.py:216-222 | a non-zero category that no question has (such as 300) leaves no candidates, whatever was seen before |
| `Queries.AllSeenHasNoCandidates` | backend/flaskr/__init__.py:213-222 | once every stored id is among the previous ids, no candidates are left, in any category |
| `Queries.CategoryMapDomain` | backend/flaskr/__init__.py:38-43 | the category map's domain is exactly the set of category ids |
| `Queries.CategoryMapValue` | backend/flaskr/__init__.py:38-43 | with distinct category ids, each category's id maps to that category's type |
| `Queries.FormattedCategories` | backend/flaskr/__init__.py:38-43 | the loop builds the category map: its domain is the set of category ids, and with distinct ids each id maps to its category's type |
| `App.SearchResponse` | backend/flaskr/__init__.py:151-160 | the search response is the requested page of the ILIKE matches, so at most 10 stored questions that match the pattern; `total_questions` is the page's length; for a wildcard-free term every result contains the term, ignoring case |
| `App.TriviaApp.Insert` | backend/flaskr/__init__.py:137-141 | an accepted insert appends the question under the next id and advances the id; a rejected one changes nothing; the store stays ordered by id |
| `App.TriviaApp.Delete` | backend/flaskr/__init__.py:103 | an accepted delete removes the row with that id, shrinks the store by one, and keeps every other row in order; a rejected one changes nothing |
| `App.TriviaApp.Categories` | backend/flaskr/__init__.py:45-49 | GET /categories answers the id -> type map, whose domain is the set of category ids |
| `App.TriviaApp.RetrieveQuestions` | backend/flaskr/__init__.py:72-85 | 404 exactly when the page is empty, which for page >= 1 means past ceil(N/10); otherwise the page, in id order, the store's full size, the category map and no current category |
| `App.TriviaApp.DeleteQuestion` | backend/flaskr/__init__.py:96-113 | an unknown id gives 404 and leaves the store as it was; a store rejection gives 422 and changes nothing; otherwise the id is gone, the size drops by one, the others stay in order, and the response carries the id, the page and the new size |
| `App.TriviaApp.PostQuestions` | backend/flaskr/__init__.py:125-160 | with a search term the store is unchanged and the search page is returned; without one an accepted question is appended under the next id and the page and new size are returned, and a rejected one gives 422 with nothing changed |
| `App.TriviaApp.QuestionsForCategory` | backend/flaskr/__init__.py:181-195 | 404 exactly when the page of the category's questions is empty; otherwise that page of the category's questions, in id order, every one stored and of that category; `total_questions` is the size of the whole category, not of the page; the category map and the category id |
| `App.TriviaApp.QuizQuestion` | backend/flaskr/__init__.py:207-231 | 404 exactly when no candidate is left; otherwise the question is a candidate: stored, its id not among the previous ids, and in the requested category unless the category is 0 |
| `Scenarios.TitleMatches` | backend/test_flaskr.py:113-121 | in a store of "Title?", "Entitled" and "Who?", the search for "title" keeps the first two, in order |

## Left out

- Flask wiring, routing, CORS and the `after_request` headers
  (`backend/flaskr/__init__.py:12-32`): transport plumbing with no logic.
  The `<int:...>` route converters match only non-negative ids, so the
  delete and category handlers take `nat` ids; other paths are the router's
  404, not modelled.
- The `models` module (`setup_db`, `Question.insert/delete/format`) is not
  part of this model. The tables are in-memory sequences. `format()` is taken
  to give exactly the five fields of `Queries.Question`.
- Request and JSON parsing. Pages, ids and categories are integers in the
  model, so these are not modelled:
  - `type=int` turning a non-numeric page into 1;
  - a category id sent as a string, as in `"6"`, or as `false`, which
    Python compares equal to 0;
  - a missing `quiz_category` or `previous_questions`, which makes the code
    fail with an error outside the handled paths.
- Creates with missing fields: `create_new_question` passes
  `body.get(..., None)` for each absent field straight to the insert, so a
  body without `category` could store a NULL category if the unseen schema
  allows it. `App.NewQuestion` and `Queries.Question` cannot represent a
  missing field, so stored rows have no NULL columns, and the quiz's
  `IS NULL` filter (`Queries.CategoryIsNull`) matches no row.
- Why the database rejects a write (the 422 paths): the constraints live in
  the unseen schema. The model takes the verdict as the parameter
  `accepted`.
- App.TriviaApp.Insert: does not model that a PostgreSQL sequence also
  consumes an id when the insert fails; a rejected insert leaves `nextId`
  unchanged.
- `random.choice`: its uniform distribution is not modelled. The model only
  states that some candidate is chosen.
- Case folding in ILIKE covers ASCII letters only. Locale-dependent folding
  of other characters is not modelled.
- The search query has no `order_by`, so the database may return its rows in
  any order. The model returns them in store (id) order.
- `one_or_none()` raising on several matching rows: ids are unique in the
  store, so that cannot happen, and the model does not represent it.
- The 400, 405 and 500 errors are raised by the framework, not by the
  handlers. The model has their bodies but no request that produces them.
- The `success: true` field and the `current_category: null` of the search
  response are constant and implied by the `Ok` payload types.
- App.SearchResponse: the "results contain the term" property is stated only
  for terms without `%`, `_` or a backslash, because the code passes the term
  to ILIKE unescaped and those characters are wildcards there
  (`Queries.PercentTermMatchesAnyText`).
- The test suite's PostgreSQL fixture (`backend/test_flaskr.py:13-36`). Its
  scenarios appear as small stores in `scenarios.dfy`.
