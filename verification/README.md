# jog request handlers, modelled in Dafny

jog is a single-author blog written with Flask over one SQLite table,
`posts(id, title, body, date_created)`. Its request logic lives in the nine
view functions of `jog.py`: the index, a single post, the edit form, the edit
submit, a delete stub, the create form, the add action, login and logout.

This project models each view as a pure step over an abstract state

* the post store, a finite map from id to `Post(title, body, dateCreated)`;
* the session's `logged_in` flag;
* the session's queue of flashed messages;

taking the request's path and form inputs (and, for `/add`, the server time)
and giving the next state and one response: `Render(template, page)`,
`Redirect(target)`, `Abort(code)`, `NoResponse` (the delete view returns
`None`) or `Fail` (an exception escapes the view).

Modules:

* `Options` — `Option`.
* `Decimal` — `str()` of an id and the value of a digit string, with the
  round trip between them.
* `IdText` — the two readings of the edit submit's `id` field: the integer
  SQLite compares it as under the column's numeric affinity
  (`SqliteInteger`), and `int()` as Python 2.7 defines it (`PythonInt`),
  with lemmas on the spellings where they agree and where they part.
* `Listing` — the largest id of a set and the ids in descending order, with a
  proof that this order is the only strictly descending listing.
* `PostStore` — the table as a map, the id SQLite gives an inserted row, the
  INSERT and the UPDATE.
* `Jog` — configuration, state, pages, responses, the nine views and the
  router `Handle`.
* `JogProperties` — lemmas that relate several calls, routes or whole request
  sequences: login check order, logout idempotence, route-specific gating,
  frame conditions of add and edit, index order, and invariants of any run.

Modelling choices that follow the code:

* A failing request writes no session cookie (the configuration sets DEBUG, so
  the exception propagates), so `Fail` returns the session the request
  started with, and the flash the edit submit queues at jog.py:117 is lost
  when `int()` raises at jog.py:118. A store write committed before the
  failure stays: the edit submit commits its UPDATE and only then calls
  `int()`, so it can fail after writing
  (`JogProperties.FailKeepsSession`, `JogProperties.EditSubmitCommitsThenFails`).
* A missing form field (`request.form[...]` raising) is `Fail`: no handler
  logic runs after it.
* `/post/<id>` and `/edit/<id>` read the row without checking for it, so a
  missing id is `Fail`, not a not-found page.
* `/edit/<id>` binds `str(post_id)` as the parameter sequence itself. One
  character binds to the statement's single placeholder; two or more are too
  many parameters and the query raises. The model gives `Fail` for every id of
  two or more digits (`Jog.EditPost`), which are exactly the ids of 10 and
  above (`Decimal.SingleCharacterSpelling`).
* `/delete` checks the flag and otherwise returns nothing and writes nothing.
* The id of an inserted row is one more than the largest id, or 1 in an empty
  table: SQLite's rowid choice when rows are never deleted, and this program
  never deletes.
* The edit submit's `id` field is text, and two different readers see it.
  The UPDATE binds it against the integer `id` column, whose numeric affinity
  turns text that spells an integer-valued number into that integer: blanks
  at either end, a sign, digits with an optional decimal point, and an
  optional exponent, so `5`, ` 5 `, `5.0` and `5e0` all match row 5 and `1e1`
  matches row 10. The redirect then calls `int()` on the same text. The
  program's first line names `pypy`, a Python 2.7 interpreter, so this is
  Python 2.7's `int()`: blanks at either end, a sign, blanks after the sign,
  and digits; it raises on a point, an exponent or an underscore. So `5.0`
  rewrites row 5 and then fails, `- 5` matches no row and still reports the
  edit done and redirects to post -5, and `1_0` matches no row and fails.
* The link base of `/post/<id>` is the module constant `PUBLIC_URL_BASE`,
  read directly rather than through the application's configuration, so it
  is the constant `Jog.PublicUrlBase`; the credentials are read from the
  configuration, which a settings file can override, so they are the
  parameter `Config`.
* Two behaviours a reader might expect are absent from the code and so from
  the model: a missing post crashes instead of giving a not-found page, and
  delete removes nothing.

## Model

| member | source | states |
|---|---|---|
| `Decimal.NatToString` | jog.py:87 | `str()` of an id is a non-empty digit string with no leading zero |
| `Decimal.DigitsValueOfNatToString` | jog.py:87 | the digits `str()` writes for an id have that id as their value |
| `Decimal.NatToStringInjective` | jog.py:87 | distinct ids get distinct public links |
| `Decimal.SingleCharacterSpelling` | jog.py:94 | `str(post_id)` is one character exactly when the id is below ten |
| `IdText.PythonIntOfDigits` | jog.py:118 | `int()` reads a string of decimal digits as its value |
| `IdText.PythonIntRejects` | jog.py:118 | `int()` raises on any text holding a character that is not a digit, a blank or a sign, such as a decimal point, an exponent letter or an underscore |
| `IdText.SqliteIntegerOfDigits` | jog.py:109-115 | the UPDATE's comparison reads a string of decimal digits as its value |
| `IdText.SqliteIntegerRejectsUnderscore` | jog.py:109-115 | text holding an underscore stays text for the UPDATE and matches no id |
| `IdText.ReadingsOfSpelling` | jog.py:109-118 | the spelling `str()` gives an id reads back as that id both in the UPDATE and in `int()` |
| `IdText.ReadingsOfMinus` | jog.py:109-118 | a minus sign before digits reads as the negated value in the UPDATE and in `int()` |
| `IdText.ReadingsOfNegated` | jog.py:109-118 | a minus sign before the spelling `str()` gives n reads as -n both in the UPDATE and in `int()` |
| `IdText.ReadingsOfPointZero` | jog.py:109-118 | digits followed by `.0` match the row of their value in the UPDATE while `int()` raises on them |
| `IdText.ReadingsOfExponent` | jog.py:109-118 | digits, `e` and digits match the row m·10^x in the UPDATE while `int()` raises on them |
| `IdText.ReadingsOfPadded` | jog.py:109-118 | digits with a space at each end read as their value both in the UPDATE and in `int()` |
| `IdText.ReadingsOfUnderscore` | jog.py:109-118 | two digit runs joined by `_` match no row in the UPDATE, and `int()` raises on them |
| `IdText.ReadingsOfBlankAfterSign` | jog.py:109-118 | a minus sign, a space and digits match no row in the UPDATE, while `int()` skips the space and reads the negated value |
| `Listing.Max` | jog.py:65 | the largest id of a non-empty set is in the set and no id exceeds it |
| `Listing.Descending` | jog.py:65 | `ORDER BY id desc`: each id exactly once, strictly decreasing, as many as there are rows |
| `Listing.DescendingUnique` | jog.py:65 | two strictly descending sequences with the same ids are equal, so the order is determined |
| `PostStore.NextId` | jog.py:138-144 | an inserted row's id exceeds every stored id and is the largest plus one, or 1 in an empty table |
| `PostStore.Insert` | jog.py:138-145 | INSERT adds exactly the new id with the given title, body and time and keeps every earlier row |
| `PostStore.Update` | jog.py:109-116 | UPDATE keeps the set of ids, rewrites only the matching row's title and body, keeps its date, and changes nothing when no row matches |
| `PostStore.UpdateIdempotent` | jog.py:109-116 | repeating the same UPDATE leaves the table as one run does |
| `PostStore.InsertIdsIncrease` | jog.py:138-145 | each insert raises the next id by one, so ids are never reused |
| `Jog.EntriesList` | jog.py:65-74 | any strictly descending listing of exactly the stored ids, shown row by row, lists every row once as stored |
| `Jog.DescendingEntriesList` | jog.py:65-74 | the listed entries show every row once, as stored, in strictly descending id order |
| `Jog.IndexView` | jog.py:63-75 | the index renders `index.html` with all posts newest id first, no filtering or paging, and changes nothing |
| `Jog.ShowPost` | jog.py:77-87 | a stored id renders `post.html` with that row and its public link; an absent id fails; nothing changes |
| `Jog.EditPost` | jog.py:89-102 | logged out: flash and redirect to the index; logged in: fails for an absent id or an id of two or more digits, else renders the raw row in `edit.html`; the store never changes |
| `Jog.EditSubmit` | jog.py:104-118 | logged out: flash and redirect; logged in with a missing field: fails with no change; otherwise the row the UPDATE matches (if any) takes the new title and body and keeps its date while every other row stays, and then the request redirects to the id `int()` reads with one message queued, or fails with the write kept and no message when `int()` raises; ids, dates and the flag always stay |
| `Jog.DeletePost` | jog.py:120-124 | logged out: flash and redirect; logged in: no response and no change |
| `Jog.CreatePost` | jog.py:126-131 | logged out: flash and redirect; logged in: renders `create.html` with no change |
| `Jog.AddPost` | jog.py:134-147 | logged out: 401 with no flash and no change; logged in with both fields: exactly one new row with the given title, body and time, an id above all earlier ids, earlier rows kept, one message queued, redirect to the index; a missing field fails with no change |
| `Jog.Login` | jog.py:149-161 | the store never changes; the flag is set and one message queued exactly when a POST carries the configured username and password, and then the visitor is sent to the index; otherwise nothing changes |
| `Jog.Logout` | jog.py:163-167 | the flag is cleared whatever it was, one message is queued, the store is kept, and the visitor is sent to the index |
| `Jog.Handle` | jog.py:63-167 | each route renders only its own template; a 401 comes exactly from `/add` for a visitor who is not logged in; no response comes exactly from `/delete` for one who is |
| `JogProperties.LoginGetShowsForm` | jog.py:151-152 | a GET of `/login` renders the form with no error |
| `JogProperties.LoginWrongUsername` | jog.py:152-154 | a wrong username gives "Invalid username" whatever the password, and changes nothing |
| `JogProperties.LoginWrongPassword` | jog.py:155-156 | the right username with a wrong password gives "Invalid password" and changes nothing |
| `JogProperties.LoginSucceeds` | jog.py:157-160 | both credentials right set the flag, queue "You were logged in" and redirect to the index |
| `JogProperties.DefaultCredentialsLogIn` | jog.py:32-33 | under the file's own settings, a POST of `admin` and `default` logs in, queues one message and redirects to the index |
| `JogProperties.LogoutIdempotent` | jog.py:163-167 | logging out twice leaves the flag as once, and the store untouched |
| `JogProperties.LoggedOutGating` | jog.py:89-137 | when logged out, edit form, edit submit, create and delete each queue their own message and redirect without touching the store, while add answers 401 and queues nothing |
| `JogProperties.LogoutThenGated` | jog.py:163-167 | after a logout every gated route treats the visitor as logged out |
| `JogProperties.LoggedInCreateAndDelete` | jog.py:120-131 | logged in, `/create` renders its form and `/delete` gives no response, neither writing |
| `JogProperties.IndexOrderIsUnique` | jog.py:65-75 | any strictly descending listing of the store's ids is exactly the index's listing |
| `JogProperties.ShowPostLinksBack` | jog.py:79-87 | a shown post's public link is `PUBLIC_URL_BASE`, `/post/`, and a digit segment whose value is the id |
| `JogProperties.AddThenShow` | jog.py:134-147 | the post just added is shown by its id with the given title, body and request time |
| `JogProperties.LargestFirst` | jog.py:65-75 | in a listing of the store, the row with the largest id is the first entry |
| `JogProperties.AddThenIndexFirst` | jog.py:65-75 | the post just added is the first entry of the index |
| `JogProperties.EditSubmitIdempotent` | jog.py:104-118 | submitting the same edit twice leaves the store and the response as once |
| `JogProperties.EditSubmitMatched` | jog.py:109-118 | an id text both readings take for the same stored row rewrites exactly that row, queues one message and redirects to its page |
| `JogProperties.EditOfShownId` | jog.py:104-118 | submitting a stored row's id, spelled as `str()` spells it, edits exactly that row and redirects to its page |
| `JogProperties.EditSubmitMatchedButRejected` | jog.py:109-118 | an id text the UPDATE matches to a stored row but `int()` rejects rewrites that row and then fails, queueing nothing |
| `JogProperties.EditSubmitUnmatchedButRead` | jog.py:109-118 | an id text the UPDATE matches to no row but `int()` reads keeps every row, queues the done message and redirects to the id `int()` read |
| `JogProperties.EditSubmitBlankAfterSign` | jog.py:109-118 | a minus sign and a space before a row's id rewrite nothing, yet report the edit done and redirect to the negated id |
| `JogProperties.EditSubmitCommitsThenFails` | jog.py:109-118 | a stored row's id followed by `.0` rewrites that row and then fails with the session unchanged |
| `JogProperties.SessionFlagChanges` | jog.py:149-167 | only a good login sets the flag and only a logout clears it |
| `JogProperties.OnlyAddAndEditWrite` | jog.py:104-147 | only `/add` and `/edit_submit` can change the store, and only for a logged-in visitor |
| `JogProperties.FailKeepsSession` | jog.py:79-118 | a failing request keeps the flag and the flash queue, and only an edit submit can have written the store before failing |
| `JogProperties.HandleEvolves` | jog.py:63-167 | any request keeps every row's id and creation date and appends at most one flash message |
| `JogProperties.NoLoginNoWrites` | jog.py:91-147 | from a logged-out start, no sequence of requests without a good login changes the store or sets the flag |
| `JogProperties.RunEvolves` | jog.py:63-167 | over any sequence of requests, rows are never removed, creation dates never change, and the flash queue only grows at its end |

## Left out

* Markdown conversion and `Markup` (jog.py:69, 83): the third-party
  Python-Markdown package, outside this repository; the rendered body is
  kept as the term `Markdown(source)`.
* `time.ctime` display of dates (jog.py:71, 85): library and locale
  behaviour; kept as the term `Ctime(seconds)`. `int(time.time())` is the
  parameter `now`.
* The SQLite connection lifecycle (jog.py:49-60), commit and transaction
  behaviour beyond "the write takes effect", and SQLite's random rowid choice
  once the largest id reaches 2^63-1.
* Startup configuration and environment handling (jog.py:25-46); the
  credentials are a `Config` value, with the file's constants in
  `Jog.Defaults`.
* Flask internals: cookie signing, `url_for` spellings, template markup,
  `abort` pages, routing of unknown paths or methods, HTTP methods other than
  those declared; and the templates' draining of the flash queue, since the
  templates are not part of this model.
* Concurrency between requests.
* `IdText.SqliteInteger`: reads the exact value of the text, so it does not
  model SQLite's 64-bit integer range or its floating-point conversion:
  texts whose value lies outside that range, or that need more digits than a
  double holds to tell an integer from a near-integer, can compare
  differently in SQLite.
* `IdText.PythonInt`: takes only ASCII digits and ASCII blanks, while
  `int()` also accepts other Unicode digits and whitespace; `SqliteInteger`
  likewise takes only the ASCII forms SQLite accepts.
* `IdText.PythonInt`: models Python 2.7's `int()`, the language of the
  `pypy` interpreter jog.py:1 names. Under Python 3.6 and later `int()`
  instead accepts single underscores between digits (`1_0` reads as 10) and
  raises on a blank after the sign (`- 5`), and from 3.11 it also raises on
  text of more than 4300 digits.
* DEBUG is taken to be on, as jog.py:27 sets it, though a settings file named
  by `JOG_SETTINGS` could turn it off; with DEBUG off, Flask 1.1 and later
  answer a failure with a 500 page through the normal response path and save
  the session, including any message flashed before the failure.
* `JogProperties.FailKeepsSession`: does not promise an unchanged store for a
  failing `/edit_submit`, because its UPDATE is committed before `int()`
  raises (`JogProperties.EditSubmitCommitsThenFails`).
