# Daily quiz quota and accounts of the myble-flask backend

This project models the decision logic of the classroom quiz backend in
`main.py`: the attempt ledger (attempts.csv) that counts failed quizzes per
student per day, the login gate that refuses a student after two failures
on the same day, signup over the user store (users.csv), the quiz-fail
route that records a failure, and the quiz route's resolution of a
category name to its file.

The flat CSV files are sequences of records (`Records.User`,
`Records.AttemptRow`); a missing attempts.csv is the empty ledger, a missing
users.csv is `None` (login reports it, signup creates the file). Form fields
are `Option<string>`, because the request answers `None` for an absent field.
The date that stands for "today" is a parameter. Each route becomes a pure
function returning a `Reply` (success, or failure with the message the
route sends) and, where it writes, the store as the request leaves it.

Modules: `Records` (rows, replies, messages), `Attempts` (ledger lookup and
increment), `Accounts` (login, signup), `Quiz` (quiz-fail, category table,
quiz route).

Where the code is stricter or looser than a plain reading of its purpose, the
model follows the code: the ledger is not kept at one row per student and day
by any check; `increment_attempt` simply bumps every matching row, and
"at most one row per key" holds only because increment preserves it. The
quiz-fail route does not stop counting at two; the cap of two applies only at
login.

## Model

| member | source | states |
|---|---|---|
| Attempts.TodayAttempts | main.py:45-53 | the count returned is that of the first row matching both id and date, and 0 when no row matches |
| Attempts.Increment | main.py:56-71 | with a matching row: same length, ids and dates kept, every matching row's count up by exactly 1, all others unchanged; without one: the old ledger is kept as a prefix and exactly one row (id, today, 1) is appended |
| Attempts.IncrementAttempt | main.py:56-71 | the source's single pass with its `found` flag, then the conditional append, computes exactly the ledger that `Increment` specifies |
| Attempts.LookupAfterIncrement | main.py:45-71 | after an increment the lookup for the same student and day is the old lookup plus 1, for any ledger, duplicate rows included |
| Attempts.LookupOtherUnchanged | main.py:65-71 | an increment for one (student, day) leaves the lookup of every other (student, day) unchanged |
| Attempts.IncrementPreservesUniqueKeys | main.py:65-71 | if no two rows share a (student, day) key before an increment, none do after it |
| Accounts.Login | main.py:82-103 | a missing user store is reported first; with the store present and today's count at 2 or more the quota message is returned whatever the password; login succeeds iff the store exists, the count is below 2 and some row matches both id and password, and otherwise below quota the no-matching-member message is returned |
| Accounts.WrongPasswordRefused | main.py:97-103 | with unique ids, a login with a stored student's id and any other password fails |
| Accounts.SignupAsWritten | main.py:108-129 | the route as written: a present id is refused, with the duplicate-id message, iff a row already carries it; an absent id is never refused; a refusal leaves the user rows unchanged, a success appends exactly the row (id, password) in stored form, an absent field stored as the empty string |
| Accounts.SignupAsWrittenDuplicatesEmptyId | main.py:119-127 | when an empty id is already on file, an id-less signup as written succeeds and leaves two rows with the same id |
| Accounts.Signup | main.py:108-129 | refuses with the duplicate-id message iff the id (as stored) is already on file, leaving the rows unchanged; otherwise appends exactly one row; preserves unique ids; agrees with the route whenever the id is present |
| Accounts.SignupThenLogin | main.py:82-129 | after a successful signup with an id and password, login with the same pair succeeds while today's count is below 2 |
| Records.MessagesDistinct | main.py:87-158 | each refusal carries its own message text, the five texts of the routes, so no two refusals read alike |
| Quiz.QuizFileName | main.py:136 | the file name ends in ".csv" and its base is the table's romanised name for a table key, the category itself otherwise |
| Quiz.ResolvedNamesAreNotKeys | main.py:24-36 | no romanised name in the table is itself a key of the table |
| Quiz.ResolveIdempotent | main.py:24-36 | resolving a resolved name changes nothing |
| Quiz.RomanisedNameSameFile | main.py:24-36 | a category asked for by its romanised name reaches the same file as its Korean name |
| Quiz.DistinctCategoriesDistinctFiles | main.py:24-36 | two different table categories never share a file |
| Quiz.GetQuiz | main.py:134-150 | an absent category gives the `NoCategory` reply, standing for the uncaught error the route raises; a missing file is reported, naming the requested category, exactly when the category's file is absent; an empty file is reported exactly when it occurs; an item served is a row of the category's file |
| Quiz.EveryItemCanBeServed | main.py:145-148 | every row of a non-empty category file is served for some choice |
| Quiz.QuizFail | main.py:155-160 | an absent or empty id is refused with the missing-id message and the ledger unchanged; otherwise today's count for the student rises by 1, every other count is unchanged, and unique keys stay unique |
| Quiz.TwoFailuresBlockLogin | main.py:91-95 | after two recorded failures on a day, login that day is refused with the quota message whatever the password, whatever the ledger held before |
| Quiz.FailureCountsOnlyThatDay | main.py:45-53 | a failure recorded on one day does not change the login decision on any other day |

## Left out

- HTTP transport: Flask routing, `jsonify`, CORS and status codes; only the success/fail decision and the message choice are modelled.
- CSV parsing and writing, `os.path.exists`, `os.makedirs` and file handles; stores are in-memory sequences and a CSV row is assumed to read back as written.
- The attempts column is a `nat`: a malformed or negative value, on which `int()` raises or counts below zero, is not modelled.
- `get_today` and the clock: the date is a parameter, so `get_today_attempts` re-reading the clock on every row (a day change mid-scan) is not modelled.
- `random.choice` in the quiz route: replaced by a caller-supplied index taken modulo the number of rows; read errors behind the route's broad exception handler are not modelled.
- Quiz.GetQuiz: with no category parameter the view raises a TypeError (`None + ".csv"`) outside its `try`, so the client gets the framework's generic 500 error instead of the route's JSON reply; the model answers this case with the `NoCategory` reply.
- The data folder of the quiz route is a parameter kept apart from the user and attempt stores. In the source the category is joined to the data folder unchecked, so `category=users` or `category=attempts` falls back to users.csv or attempts.csv and serves one of their rows, plaintext password included; the model does not relate the folder to those stores.
- The quote route (`get_today_quote`): it is outside the modelled core; it has the same shape as the quiz route with a fixed file.
- The handwriting check (image decoding, OCR, `difflib` similarity ratio, 0.7 float threshold): foreign library calls and floating point.
- Arduino serial writes and `time.sleep`: hardware I/O.
- Concurrent writers on the CSV files: each request is modelled as atomic.

## Findings

| source | as written | input that shows it | evidently intended | confidence | as-written member | corrected member |
|---|---|---|---|---|---|---|
| main.py:119-127 | the duplicate check compares each stored id with the raw form value, which is `None` for an absent field and never equal to a stored string, while the CSV writer stores `None` as the empty string | users.csv already holds a row whose student_id is empty, and a signup arrives without a student_id field | student ids stay unique: the duplicate check should compare the id as it will be stored | medium; not executed | Accounts.SignupAsWrittenDuplicatesEmptyId | Accounts.Signup |
