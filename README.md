# Trivia API handlers in Dafny

A model of the request handlers of the trivia REST backend
(`backend/flaskr/__init__.py`): listing categories, listing questions ten to
a page, deleting and adding questions, case-insensitive search, listing the
questions of one category, and serving a random unseen quiz question, plus
the JSON error envelope for 404, 422 and 400.

The relational tables are an in-memory store:

- `Records.Question` / `Records.Category` are the rows (the column `type` of
  a category is the field `typeName`, because `type` is a Dafny keyword). A
  formatted question carries exactly the row's five fields, so the row
  stands for its formatted form.
- `Store.TriviaStore` is a class whose fields are the question table, the
  category table (both `seq`, in table order) and the next value of the
  question id sequence. `Valid()` is the primary-key invariant: ids are
  distinct, and every question id was handed out by the sequence. The two
  handlers that change the question table, delete and add, are methods of
  this class. Their `ensures` give the whole new state.
- The read-only handlers are functions of the tables' contents in
  `Queries`: categories, paginated listing, search and by-category.
  `Pagination` models `paginate_questions` with Python's slice rules.
- `Quiz.PlayQuiz` is the handler's `while True` draw-and-retry loop. It is
  proved equal to the specification function `Quiz.QuizRound`. Random
  numbers come from an oracle `draws: seq<nat>`, each draw taken modulo the
  category size. When the oracle runs out before the loop stops, the result
  is `StillDrawing`: the handler has not answered yet. This is how the
  unbounded loop is represented.
- `Responses.Response` is `Ok(body)` (success, status 200) or `Abort(code)`.
  The codes are 404, 422, and 500 for an exception nothing catches.
- Request bodies are JSON objects, `map<string, Json.Value>`. `Json.Truthy`
  is Python's truthiness. `Json.AsText` and `Json.AsInteger` say how a JSON
  value is stored in, or compared with, a text or integer column.

Three behaviours of the handlers worth stating:

- A quiz category given as `{"id": 0}` is a non-empty dict, so it is
  accepted (`Quiz.CategoryIdZeroAccepted`). Only a missing or falsy
  `quiz_category` is rejected with 422.
- A search body without `searchTerm` does not run a search. `'%' + None`
  raises `TypeError`, nothing catches it, and the answer is 500.
- The quiz also answers 500 in three more cases, because nothing catches the
  exception: the category has no questions (`randint(0, -1)`),
  `previous_questions` is absent or not a list or dict, or the category
  lookup fails.

## Model

| member | source | states |
|---|---|---|
| `Numerals.ParseInt32` | backend/flaskr/__init__.py:105-106 | the database reads id text as an integer exactly when, after an optional sign, it is a non-empty run of digits whose signed value fits in 32 bits; the value read is that signed value; any other text is an error |
| `Numerals.DecimalRoundTrip` | backend/flaskr/__init__.py:199 | reading back the digits of a natural number gives that number |
| `Numerals.IntToDecimal` | backend/flaskr/__init__.py:199 | `str()` of an integer is never empty, starts with a minus sign exactly for a negative number, and after that sign (if any) is the digits of its magnitude without leading zeros |
| `Numerals.IntTextRoundTrip` | backend/flaskr/__init__.py:199 | `str()` of a 32-bit integer reads back as the same integer |
| `Numerals.IntToDecimalInjective` | backend/flaskr/__init__.py:199 | distinct category ids have distinct `str()` texts, so two categories never share a key |
| `Json.Truthy` | backend/flaskr/__init__.py:236 | a JSON value is falsy exactly when it is null, false, 0, the empty string, the empty list or the empty dict |

| `Json.AsText` | backend/flaskr/__init__.py:137-142 | a text column takes a string as it is and an integer as its decimal text, which reads back as the same integer; any other JSON value is refused |
| `Json.AsInteger` | backend/flaskr/__init__.py:137-142 | an integer column takes an integer exactly when it fits in 32 bits, unchanged, and a string through the database integer reading; any other JSON value is refused |
| `Responses.ErrorHandler` | backend/flaskr/__init__.py:262-284 | 404 gives "resource not found", 422 "unprocessable entity" and 400 "bad request", each in an envelope echoing the code; every other code has no handler |
| `Pagination.SliceBound` | backend/flaskr/__init__.py:19 | a normalised slice bound is always within the sequence |
| `Pagination.PySlice` | backend/flaskr/__init__.py:19 | a Python slice never has more elements than the sequence |
| `Pagination.PySliceNonNegative` | backend/flaskr/__init__.py:19 | with bounds 0 <= start <= stop, a Python slice is the plain sub-sequence clamped at the end, and empty from the end on |
| `Pagination.PageWindow` | backend/flaskr/__init__.py:12-21 | a page holds at most ten questions, all of them from the table |
| `Pagination.PageWindowOfPositivePage` | backend/flaskr/__init__.py:14-19 | page p >= 1 holds the questions from position (p-1)*10 on, in table order: ten of them, or what remains |
| `Pagination.PageWindowEmptyIff` | backend/flaskr/__init__.py:14-19 | page p >= 1 is empty exactly when (p-1)*10 is at or past the end of the table |
| `Pagination.EveryQuestionOnItsPage` | backend/flaskr/__init__.py:12-21 | question i is entry i mod 10 of page i div 10 + 1, so every question appears on a page |
| `Pagination.PageZeroIsEmpty` | backend/flaskr/__init__.py:14-19 | page 0 is the slice [-10:0], which is always empty |
| `Pagination.PageMinusOneCountsFromEnd` | backend/flaskr/__init__.py:14-19 | page -1 is the slice [-20:-10], which is non-empty when there are more than ten questions and is taken from the end of the table |
| `Queries.CategoryMap` | backend/flaskr/__init__.py:61 | the dictionary has one key per category id, and a repeated id keeps the type of its last row |
| `Queries.CategoryMapOfDistinct` | backend/flaskr/__init__.py:56-63 | with distinct ids the dictionary has exactly as many entries as there are categories, each mapping to its type |
| `Queries.GetCategories` | backend/flaskr/__init__.py:56-63 | GET /categories always succeeds, with every category id as a key; with distinct ids it has one entry per category, each with its type |
| `Queries.RetrieveQuestions` | backend/flaskr/__init__.py:76-94 | GET /questions is 404 exactly when the page is empty; otherwise it returns the page (1 to 10 questions), the size of the whole table and every category |
| `Queries.FirstPageByDefault` | backend/flaskr/__init__.py:79-94 | without a page argument, a table of at least ten questions yields its first ten and the full count |
| `Queries.PageBeyondTableNotFound` | backend/flaskr/__init__.py:85-86 | a page that starts past the last question is 404 |
| `Queries.Filter` | backend/flaskr/__init__.py:198-199 | a filtered query returns exactly the table rows the condition accepts, each as many times as it occurs in the table, and no others |
| `Queries.WithCategory` | backend/flaskr/__init__.py:198-199 | the category query returns exactly the questions whose category text equals the key, each as often as in the table, and no others |
| `Queries.LowerAscii` | backend/flaskr/__init__.py:170 | lower-casing keeps the length, leaves no ASCII capital, leaves every other character unchanged, and lower-casing again changes nothing |
| `Queries.IsSubstringIff` | backend/flaskr/__init__.py:169-171 | the recursive substring test holds exactly when the term occurs at some position of the text |
| `Queries.MatchesTerm` | backend/flaskr/__init__.py:169-171 | `ILIKE '%term%'` matches exactly when the lower-cased term occurs at some position of the lower-cased text; the empty term matches every text, and a matching term is no longer than the text |
| `Queries.MatchesTermIgnoresCase` | backend/flaskr/__init__.py:169-171 | lower-casing the text or the term does not change whether they match |
| `Queries.SearchQuestions` | backend/flaskr/__init__.py:163-186 | an absent or non-string term gives 500; the empty string gives 404; otherwise success exactly when some question text contains the term ignoring case, and then the results are exactly the matching rows, each as often as in the table, with their count; no match gives 404 |
| `Queries.QuestionsByCategory` | backend/flaskr/__init__.py:195-216 | always succeeds and echoes the category id; the count is 0 exactly when no question has category `str(id)`, and then the placeholder text is sent; otherwise the rows are exactly the questions of that category, each as often as in the table, and the count is their number |
| `Store.FindById` | backend/flaskr/__init__.py:105-106 | `.first()` finds the first row with the id; None means that no row has it |
| `Store.LookupByText` | backend/flaskr/__init__.py:102-107 | a row is found exactly when the id text reads as an integer and some question has that id; the row found has it |
| `Store.HasAllFields` | backend/flaskr/__init__.py:128 | the body passes the key check exactly when it has all of `question`, `answer`, `difficulty` and `category`, so it has at least four entries |
| `Store.RemoveAtKeepsOthers` | backend/flaskr/__init__.py:107 | removing a row from a table with distinct ids leaves one row fewer, keeps every row with a different id, keeps ids distinct and leaves the id unfindable |
| `Store.NewQuestion` | backend/flaskr/__init__.py:126-141 | no row without all four keys; a row exactly when every value is accepted by its column, and then it carries those values under the given id |
| `Store.TriviaStore.DeleteQuestion` | backend/flaskr/__init__.py:102-114 | succeeds exactly when the text names an existing question: it removes exactly that row, leaves all others and the category table alone, and echoes the text; otherwise 422 and nothing changes |
| `Store.TriviaStore.AddQuestion` | backend/flaskr/__init__.py:125-152 | a missing key or a refused value gives 422 and nothing changes; otherwise it appends exactly one row with the given fields under a fresh id, returns that id and the old count plus one, and advances the id sequence |
| `Store.DeletedIdGone` | backend/flaskr/__init__.py:102-114 | after a delete the same id text finds nothing, so a second delete is 422 |
| `Store.AddedQuestionOnLastPage` | backend/flaskr/__init__.py:121-142 | an added question is the last entry of the last page of the listing |
| `Quiz.CategoryPool` | backend/flaskr/__init__.py:239-240 | the lookup succeeds exactly when `quiz_category` is a dict whose `id` a text column can compare, and it then gives exactly what the by-category query returns for that id text: the questions of that category, each as often as in the table |
| `Quiz.SupportsMembership` | backend/flaskr/__init__.py:246 | `in previous_questions` works on a list or a dict; on null, a number, a boolean or a string the handler fails, and an empty list is accepted |
| `Quiz.AlreadyAsked` | backend/flaskr/__init__.py:246 | a question counts as asked only when `previous_questions` is a list or dict; never for an empty one, never when the question equals no JSON value, and always when it equals some item of a list |
| `Quiz.FirstFreshDraw` | backend/flaskr/__init__.py:243-250 | finds the first draw that lands on a question not asked before, with every earlier draw landing on an asked one; None when every draw does |
| `Quiz.QuizRound` | backend/flaskr/__init__.py:229-255 | 422 exactly when `quiz_category` is missing or falsy; otherwise 500 exactly when the category lookup fails, the category is empty or `previous_questions` is not a list or dict; otherwise the question of the first draw not asked before, or still drawing when no draw so far qualifies; an answered question is in the table, belongs to the requested category and is not in `previous_questions` |
| `Quiz.PlayQuiz` | backend/flaskr/__init__.py:229-255 | the draw-and-retry loop gives exactly the round `QuizRound` describes |
| `Quiz.ExhaustedCategoryNeverAnswers` | backend/flaskr/__init__.py:245-250 | when every question of the category was asked before, no sequence of draws ends the loop |
| `Quiz.EmptyHistoryTakesFirstDraw` | backend/flaskr/__init__.py:243-250 | with an empty `previous_questions` list the first draw is the answer |
| `Quiz.DefaultEqualityIgnoresHistory` | backend/flaskr/__init__.py:246 | if a question equals no JSON value, as under Python's default equality, the first draw is the answer even when it was asked before |
| `Quiz.CategoryIdZeroAccepted` | backend/flaskr/__init__.py:236-237 | `{"id": 0}` is a non-empty dict, so it is not rejected with 422 |
| `Quiz.PoolIsCategoryListing` | backend/flaskr/__init__.py:239-240 | for a numeric id, the quiz draws from exactly the questions that the by-category route lists, and the pool is empty exactly when that route sends the placeholder |

## Left out

- Flask application setup, CORS and the `after_request` header injection are framework plumbing and are not modelled.
- HTTP routing and JSON serialisation are not modelled. `<int:category_id>` is taken as a `nat` parameter, so a non-integer path segment (the framework's own 404) is not modelled. The null `current category` fields are implied by the body constructors.
- The database, SQLAlchemy sessions and `models.py` are not part of this model. Table order is insertion order, but SQL without `ORDER BY` promises no order. `format()` is the identity. The column coercions in `Json.AsText` and `Json.AsInteger` assume a text `category` column and an integer `difficulty` column.
- Request bodies that are not JSON objects are not modelled. This covers a missing JSON body and a top-level list or string.
- `Pagination.PageNumber`: the page argument is already an `Option<int>`. How Python's `int()` parses the query text (spaces, `+`, underscores) is not modelled.
- `Numerals.ParseInt32`: the database also accepts spaces around integer text. This is not modelled.
- `Json.AsText`: a JSON null (stored as NULL in a nullable column) and a boolean (cast to the text 'true' or 'false') are refused here, so an added question carrying them is answered 422 where the database might store it.
- `Json.AsInteger`: a JSON null, a boolean and a non-integer number (such as 2.5, which the database rounds) are refused here or not expressible, so an added question carrying them is answered 422.
- `Quiz.CategoryPool`: a numeric quiz category id is assumed to compare with the `category` column as its decimal text, like `str(category_id)` on the by-category route. With a text column the database may instead reject comparing text with an integer, which would make the round 500.
- `Queries.MatchesTerm`: `ILIKE` treats `%`, `_` and `\` in the term as pattern characters. The model treats them as literal characters. Only ASCII letters are case-folded; there is no Unicode folding or collation.
- `Queries.QuestionsByCategory`: the handler's `except` branch (404 on a database failure) cannot happen on an in-memory table, so it is not modelled.
- `Store.TriviaStore.AddQuestion`: on a refused insert the id sequence does not advance here. A real sequence may skip a value.
- `Store.TriviaStore.DeleteQuestion`: a failed statement leaves the real database session needing a rollback. This is not modelled.
- `Quiz.PlayQuiz`: `random.randint` is replaced by the `draws` oracle, so there is no distribution. Non-termination is represented as `StillDrawing` after a finite oracle, not as a divergent loop.
- `Quiz.AlreadyAsked`: the question class's `__eq__` (and hashing, for a dict) lives in `models.py`, so it is the parameter `eq`. Dict membership is approximated by equality with some key.
- The 400 handler is registered but no handler aborts with 400. It appears only in `Responses.ErrorHandler`.
