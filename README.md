# Trivia API backend — a Dafny model of its request handlers

The trivia backend (`backend/flaskr/__init__.py`) is a small web service over two
tables: questions `(id, question, answer, category, difficulty)` and categories
`(id, type)`. Its handlers list the questions a page at a time, fetch one by id,
list the questions of one category, delete a question, answer `POST /questions`
either with a search or by adding a question, and pick the next quiz question.

This project models those handlers over the tables held in memory. The
questions table is a sequence kept in ascending id order. The categories table
is a read-only sequence.

- `sequences.dfy` (`Sequences`): `Filter`, the order-preserving selection behind
  the list comprehensions and SQL `WHERE` clauses, with its lemmas.
- `pagination.dfy` (`Pagination`): `paginate_questions`, with Python's slice
  rules written out. Negative slice bounds count from the end, and bounds are
  clamped into the list. So every page number has a defined result, page 0 and
  the pages past the end included.
- `entities.dfy` (`Entities`): the two row types, the error kinds 404/422/500,
  the lookups by primary key, and the lemmas about deleting and inserting rows.
- `search.dfy` (`Search`): case folding, substring search, and SQL `LIKE`/`ILIKE`
  as the handler actually uses them (see Findings).
- `quiz.dfy` (`Quiz`): the loop of `play_quiz` as a method, proved against
  `Filter`, and the lemmas showing that a quiz runs out of questions.
- `handlers.dfy` (`Handlers`): request bodies, response bodies and one member per
  handler. The read-only handlers are functions of the table contents.
  `PlayQuiz` is a method. The two handlers that change the questions table are
  methods of the class `Store`, which holds the table and the next id to hand out.

Where the code and the usual description of this API differ, the model follows
the code:
- The `except():` clauses catch nothing. So a failing store call never becomes
  the 422 that the delete and create handlers seem to promise. A
  `quiz_category` object without an `id` raises an uncaught error, which is a 500.
- The search is not a plain substring search. The term is spliced into an
  `ILIKE` pattern, where `%`, `_` and `\` keep their pattern meaning.
- `retrieve_questions` returns the whole table when the `page` parameter is
  absent or empty, and one page otherwise.
- A page number of 0 or below is not an error. Page 0 is empty. A negative page
  is the window Python's negative slice bounds give: at most ten items, counted
  back from the end of the list, and empty once it runs past the start.

## Model

| member | source | states |
|---|---|---|
| `Sequences.Filter` | backend/flaskr/__init__.py:290-298 | The result is no longer than the input, and an element is in it exactly when it is in the input and satisfies the predicate. |
| `Sequences.FilterAppend` | backend/flaskr/__init__.py:292-298 | Filtering `s + [x]` gives the filter of `s`, followed by `x` exactly when `x` is selected. This is the step of the appending loop. |
| `Sequences.FilterFirst` | backend/flaskr/__init__.py:300-304 | The first element of a non-empty filter sits at some index `k` of the input, satisfies the predicate, and no element before `k` does. |
| `Sequences.FilterKeepsAll` | backend/flaskr/__init__.py:293-294 | When every element satisfies the predicate, the filter is the whole input. |
| `Pagination.Paginate` | backend/flaskr/__init__.py:14-22 | A page never holds more than 10 items. For page >= 1 it is the slice `[(page-1)*10, page*10)` clipped to the list length. A page starting at or past the end is empty, and so is page 0. A negative page is the window Python's negative slice bounds give. |
| `Handlers.PageNumber` | backend/flaskr/__init__.py:15 | The page number is the integer the `page` parameter converts to. It is 1 when the parameter is absent or its text is not an integer. |
| `Pagination.PagesCover` | backend/flaskr/__init__.py:14-22 | Pages 1..n, one after the other, are exactly the first `min(10n, length)` items. No item is skipped or repeated. |
| `Pagination.ItemOnItsPage` | backend/flaskr/__init__.py:14-22 | Item `i` of the list is item `i % 10` of page `i / 10 + 1`. |
| `Entities.FindQuestion` | backend/flaskr/__init__.py:109-112 | The lookup finds a row exactly when the id is in the table, and the row it finds has that id. |
| `Entities.FindCategory` | backend/flaskr/__init__.py:233 | The lookup finds a category exactly when some category has that id, and the category it finds has that id. |
| `Entities.RemoveIdShrinksByOne` | backend/flaskr/__init__.py:114-123 | In an id-ordered table, removing a present id removes exactly one row. The id is then absent and the remaining rows stay in ascending id order. |
| `Entities.FilterAscending` | backend/flaskr/__init__.py:115 | Any selection from an id-ordered table is still in id order. |
| `Entities.FindInserted` | backend/flaskr/__init__.py:174-177 | After a row is appended under an id not in the table, a lookup of that id finds exactly that row. |
| `Entities.FindOther` | backend/flaskr/__init__.py:177 | Appending a row does not change what a lookup of any other id finds. |
| `Search.ContainsAt` | backend/flaskr/__init__.py:193-199 | The recursive `Contains` holds exactly when the term occurs in the text at some index. |
| `Search.MatchesTerm` | backend/flaskr/__init__.py:193-199 | The intended search holds exactly when the lower-cased term occurs at some index of the lower-cased question text. |
| `Search.AsWrittenMatch` | backend/flaskr/__init__.py:149-152 | The filter as written: the question text `ILIKE` the pattern `'%' + lower-cased term + '%'`, with `%`, `_` and `\` in the term keeping their pattern meaning. The empty term selects every question. |
| `Search.DoublePercentMatchesAll` | backend/flaskr/__init__.py:151-152 | The pattern `%%`, which the empty search term produces, matches every string under `ILIKE`. |
| `Search.PercentMatchesAnything` | backend/flaskr/__init__.py:151-152 | The `LIKE` pattern `%` matches every string. |
| `Search.LikeLiteralPrefix` | backend/flaskr/__init__.py:151-152 | For a term without `%`, `_` or `\`, the pattern `t%` matches exactly the strings that start with `t`. |
| `Search.LikeSubstring` | backend/flaskr/__init__.py:151-152 | For a term without `%`, `_` or `\`, the pattern `%t%` matches exactly the strings that contain `t`. |
| `Search.SearchAgreesWithoutWildcards` | backend/flaskr/__init__.py:149-152 | For a term without `%`, `_` or `\`, the `ILIKE` filter as written selects exactly the questions the intended substring search selects. |
| `Search.PercentTermMatchesAll` | backend/flaskr/__init__.py:149-152 | As written, the search term `%` selects every question. |
| `Search.UnderscoreTermMatchesWho` | backend/flaskr/__init__.py:149-152 | As written, the term `_` selects the question "who", which does not contain `_`. |
| `Quiz.PickUnasked` | backend/flaskr/__init__.py:290-309 | The answer is none exactly when every candidate's id has been asked. Otherwise it is the first candidate, in the given order, whose id has not been asked. With no previous questions it is the first candidate. |
| `Quiz.AskingNeverGrowsPool` | backend/flaskr/__init__.py:296 | Adding an id to the asked list never adds a question to the unasked pool. |
| `Quiz.AskingShrinksPool` | backend/flaskr/__init__.py:296-304 | Adding the id of an unasked candidate to the asked list strictly shrinks the unasked pool. So repeated calls end with no question after at most as many rounds as there are candidates. |
| `Handlers.RetrieveQuestions` | backend/flaskr/__init__.py:76-96 | With no (or an empty) `page` parameter the listing is the whole table. Otherwise it is the requested page. Every listed question is in the table, and the total is the size of the whole table either way. |
| `Handlers.PageBeyondTableIsEmpty` | backend/test_flaskr.py:99-109 | For a table of at most 9980 rows, page 999 lists no questions and still reports the full total. |
| `Handlers.GetQuestion` | backend/flaskr/__init__.py:211-223 | The result is 404 exactly when the id is absent. Otherwise it is the row of the table with that id. |
| `Handlers.RefusedIdNotFound` | backend/flaskr/__init__.py:210-223 | In a table of serial ids (all 1 or more), a lookup of any id below 1 gives 404. This covers the negative ids the route refuses. |
| `Handlers.QuestionsByCategory` | backend/flaskr/__init__.py:228-255 | The result is 404 exactly when the id is below 1 or no category has it. Otherwise the total counts the questions of that category, the listing is a page of them, and the current category is the one with that id. |
| `Handlers.ClassifyPost` | backend/flaskr/__init__.py:139-172 | An empty body is refused with 422. A non-null `search` makes the request a search for that term. Otherwise it adds a question exactly when all four columns are non-null, and every refusal is 422. |
| `Handlers.SearchQuestions` | backend/flaskr/__init__.py:148-163 | The total counts every question whose text contains the lower-cased term. The listing is a page of those questions, each in the table and each matching. |
| `Handlers.ParseQuiz` | backend/flaskr/__init__.py:274-280 | A missing or null `quiz_category` or `previous_questions` gives 422. A category object without `id` gives 500. Otherwise the query carries the previous ids and the category id, which may be null. |
| `Handlers.QuizCandidates` | backend/flaskr/__init__.py:282-288 | Category 0 draws from every question, any other id from the questions of that category, and a null id from none. |
| `Handlers.PlayQuiz` | backend/flaskr/__init__.py:272-309 | For every random order of the candidates: a refused request gives its error code. Otherwise the answer is null exactly when every candidate has been asked. A returned question is a candidate and the first unasked one in that order, and it is the first candidate when nothing has been asked. |
| `Handlers.Store.Insert` | backend/flaskr/__init__.py:174-177 | Appends exactly one row under the next serial id, which is larger than every id in the table, and advances the counter by one. So an id is never handed out twice, even after a delete. The table stays in id order with ids of 1 or more. |
| `Handlers.Store.Delete` | backend/flaskr/__init__.py:114 | Removes the row with that id and no other. The table stays in id order and the id counter is unchanged. |
| `Handlers.Store.DeleteQuestion` | backend/flaskr/__init__.py:107-124 | An unknown id gives 404 and leaves the table unchanged. Otherwise exactly that row is gone and a later lookup gives 404. The answer reports the id, a page of the rest and a total one smaller. The id counter is unchanged either way. |
| `Handlers.Store.CreateQuestion` | backend/flaskr/__init__.py:139-187 | A refused body gives 422 and a search gives the search result, both without changing the table or the id counter. An addition appends exactly one row under the next serial id, larger than every id in the table, advances the counter, and answers 201 with that id and a total one larger. A later lookup of the id finds the row as sent. |

## Findings

| source | as written | input that shows it | evidently intended | confidence | as-written member | corrected member |
|---|---|---|---|---|---|---|
| backend/flaskr/__init__.py:149-152 | The lower-cased term is spliced into the `ILIKE` pattern `'%' + search + '%'` without escaping. So `%`, `_` and `\` in the term act as pattern characters. | The search term `%` returns every question. The term `_` returns the question "who", which contains no `_`. | Return the questions whose text contains the term as a substring, ignoring case, as the comment at lines 193-199 asks. | medium; not executed | `Search.PercentTermMatchesAll` | `Search.MatchesTerm` |

`Search.AsWrittenMatch` is the filter as written. `Search.UnderscoreTermMatchesWho`
exhibits the second input. `Search.SearchAgreesWithoutWildcards` shows that the
two filters agree on every term without those three characters.
`Handlers.SearchQuestions` uses the corrected `Search.MatchesTerm`.

## Left out

- Flask routing, JSON encoding, the CORS setup and the `after_request` headers (lines 27-44) are not modelled. They are framework glue. Status codes are kept (`ErrorKind.Code`, `Handlers.StatusOf`); the constant JSON error bodies (lines 317-339) are not.
- `retrieve_categories` (lines 50-61) is not modelled. It returns the categories table and its size and makes no decision.
- The store (SQLAlchemy over Postgres) is replaced by in-memory sequences. Transactions, store failures and the 500 they cause are not modelled, and neither is concurrent access.
- The store's id sequence is modelled as a counter, `Store.nextId`. It starts one above the largest id (or at 1), only `Insert` advances it, and `Insert` hands out exactly its value. So ids are never reused.
- `func.random()` ordering is not modelled. `PlayQuiz` takes the candidates in any order that is a permutation of them, and its contract holds for every order.
- Parsing the `page` parameter to an integer is not modelled. `PageArg` carries the raw text and the integer it converts to, if any.
- Request bodies are modelled as typed fields: absent, null or given. A body that is not JSON, a body that is not a JSON object (`null` or a list, on which `body.get` fails with a 500), and a field value of the wrong JSON type (say a number for `search`, which makes `.lower()` fail), are not modelled.
- The quiz compares `category` to an integer; the category endpoint compares it to `str(category_id)`. Both are modelled with one integer category id.
- The route converter `<int:...>` only accepts non-negative ids. The model accepts any integer. A `Store` holds only ids of 1 or more, so any id the route would refuse is not found there (`Handlers.RefusedIdNotFound`).
- Case folding covers the ASCII letters only. Python's `str.lower` and Postgres `ILIKE` also fold other letters.
- The categories listed by `retrieve_questions` and `get_questions_by_category` are ordered by id in the source (lines 87 and 235). The model passes the categories table through as given and does not require it to be in id order.
- The search and category queries have no `ORDER BY`, so their order is up to the store. The model lists their results in id order.
- Handlers.SearchQuestions: models the intended substring search, not the `ILIKE` filter as written. The filter as written is `Search.AsWrittenMatch` (see Findings).
- In `get_questions_by_category` the `questions is None` branch (lines 241-243) can never be taken, because a query returns a list. The model has no such branch.
