# Library catalog: a verified model of the routes over users, books and the session

The application is a small Flask and SQLite library catalog. Users sign up with a username and a
password, log in, and then add, delete, list and search a shared table of books. This project
models the state machine underneath those routes:

- the **users table**, rows `(id, username, passwordHash)`, with the schema's UNIQUE username and
  AUTOINCREMENT id;
- the **books table**, rows `(id, title, author, available)`, with an AUTOINCREMENT id;
- the two AUTOINCREMENT counters `nextUserId` and `nextBookId` (the id the next insert receives);
- the client's **session**, either empty or an `(user_id, username)` identity.

`library.dfy` holds that state as the class `Library.LibraryApp`. Every route becomes a member:
the routes that change state (`signup`, `login`, `logout`, `add_book`, `delete_book`) are methods
that modify exactly the fields they touch; the read-only routes (`dashboard`, `view_books`,
`search`) are functions over the fields they read. The class invariant `Valid()` states the table
constraints: usernames are pairwise distinct, ids of each table rise strictly in table order and lie
below the counter, and a non-empty session names an existing user. Every method keeps it.

`tables.dfy` holds the rows and the row-level operations the routes run as SQL: look a user up by
name, insert a user under the UNIQUE constraint, check credentials, delete books by id. The lemmas
there give the table operations their meaning. `search.dfy` holds the search filter. `passwords.dfy`
keeps the password hasher abstract: a `Hasher` is a pair of functions `hash(password, scheme, salt)`
and `verify(stored, password)`. The predicate `Sound` states the one property the library promises:
a password verifies against any hash made from it with the scheme the application uses,
`HashMethod`. Lemmas that need this property take it as a `requires`.

Behaviour worth noting:

- Usernames, titles and authors may be empty: the schema says only NOT NULL (app.py:19-25) and
  the routes check nothing, so the model accepts the empty string.
- A signup rejected by the UNIQUE constraint uses up no id. SQLite rolls the failed statement back,
  together with its AUTOINCREMENT bump, so `nextUserId` is unchanged.
- `search` has **no** session check, unlike the other data routes (app.py:144-161). A caller
  without a session gets the same rows as one with a session. `LibraryApp.Search` reads only the
  `books` field, so this is visible in its frame.
- An empty query returns no rows, not every row.
- `FindByUsername` returns the first matching row in table order. The UNIQUE constraint lets at
  most one row match, so the choice does not matter (`FindByUsernameUnique`).

## Model

| member | source | states |
|---|---|---|
| Library.LibraryApp.Valid | app.py:17-26 | the schema's UNIQUE username and AUTOINCREMENT ids, plus a session naming an existing user; it implies that no two rows of a table share an id |
| Library.LibraryApp.HasSession | app.py:82 | the `'user_id' in session` guard that add_book, delete_book, dashboard and view_books test first (app.py:82, 102, 119, 133) |
| Search.FoldChar | app.py:153 | SQLite's ASCII case folding: only `A`-`Z` change, each to its lower-case letter, and no upper-case ASCII letter remains |
| Search.Fold | app.py:153-154 | a string folded char by char, same length, and folding again changes nothing |
| Search.Contains | app.py:154 | the `'%' + q + '%'` substring test; the empty pattern occurs everywhere and a pattern longer than the text never does |
| Search.RowMatches | app.py:153 | the WHERE clause on one row: the folded query occurs at some offset of the folded title or of the folded author |
| Search.Matches | app.py:153-154 | a row matches a query when its folded title or author contains the folded query; the empty query matches every row, which is why the route tests `if query:` first |
| Tables.FindByUsername | app.py:65-66 | the row found has the username asked for and is in the table; nothing is found exactly when no row has that username |
| Tables.FindByUsernameUnique | app.py:18-20 | with unique usernames the lookup returns the one row carrying the name |
| Tables.InsertUser | app.py:47-51 | the insert fails with the integrity error exactly when some row has the username; otherwise the old rows are kept and the new row comes last |
| Tables.InsertUserKeepsUniqueNames | app.py:19 | a successful insert keeps usernames pairwise distinct |
| Tables.InsertUserKeepsInvariant | app.py:18-19 | an insert with the next AUTOINCREMENT id keeps usernames distinct, ids strictly increasing and below the new counter |
| Tables.SecondInsertFails | app.py:45-52 | inserting the same username a second time always raises the integrity error, so each username has at most one row |
| Tables.Authenticate | app.py:65-71 | a successful check yields the identity of a row that has that username and whose stored hash verifies the password |
| Tables.AuthenticateDecidedByTheRow | app.py:65-75 | with unique usernames the login succeeds exactly when that user's stored hash verifies the password, and the identity is that row's id and username |
| Tables.SignupThenLogin | app.py:41-47 | after a signup that stores the hash of a password, a sound hasher lets the login with that password succeed with the new row's identity |
| Tables.AppendBookKeepsIds | app.py:23 | a book row appended with the next AUTOINCREMENT id keeps ids strictly increasing and below the new counter |
| Tables.RemoveId | app.py:124 | a row survives the delete exactly when it was in the table and carries another id; nothing is added |
| Tables.RemoveAbsentId | app.py:124 | deleting an id no row carries leaves the table unchanged |
| Tables.RemoveIdIdempotent | app.py:124 | deleting twice equals deleting once |
| Tables.RemoveIdIsSubsequence | app.py:124 | the surviving rows keep their table order |
| Tables.RemoveIdKeepsIds | app.py:124 | a delete keeps ids strictly increasing and below the counter |
| Search.ContainsIff | app.py:153-154 | the substring test holds exactly when the query occurs at some offset |
| Search.MatchingRows | app.py:152-155 | a row is in the result exactly when it is in the table and its folded title or folded author contains the folded query |
| Search.SearchCatalog | app.py:146-155 | an empty query gives no rows; otherwise a row is in the result exactly when it is in the table and matches |
| Search.MatchingRowsIsSubsequence | app.py:152-155 | the matching rows are a subsequence of the table, in table order |
| Search.SearchIsSubsequence | app.py:146-155 | every search result is a subsequence of the table |
| Search.SearchIgnoresCase | app.py:153 | two queries that differ only in ASCII case return the same rows |
| Search.FindsAuthorIgnoringCase | app.py:153-154 | the query "tolkien" finds a book whose author is "J.R.R. Tolkien" |
| Library.LibraryApp.constructor | app.py:13-27 | a fresh database has empty tables, both counters at 1 and no session, and satisfies the invariant |
| Library.LibraryApp.Signup | app.py:36-54 | a taken username changes nothing; otherwise exactly one row is appended, its id above every earlier id, its stored value the hash of the password; the invariant is kept |
| Library.LibraryApp.Login | app.py:58-77 | the login succeeds exactly when a row has the username and its hash verifies the password; success sets the session to that row's id and username, overwriting it; failure leaves the session; the tables are not touched |
| Library.LibraryApp.Logout | app.py:94-97 | the session is empty afterwards, whatever it held, so every guarded route redirects |
| Library.LibraryApp.AddBook | app.py:101-114 | without a session it redirects and changes nothing; with one it appends exactly one row with `available` 1 and an id above every id issued before |
| Library.LibraryApp.DeleteBook | app.py:118-128 | without a session it redirects and changes nothing; with one it removes exactly the rows carrying the id |
| Library.LibraryApp.Dashboard | app.py:81-90 | it redirects exactly when there is no session; with one it returns the whole books table |
| Library.LibraryApp.ViewBooks | app.py:132-141 | it redirects exactly when there is no session; with one it returns the whole books table |
| Library.LibraryApp.Search | app.py:145-161 | with or without a session: an empty query gives no rows; otherwise exactly the matching rows, as a subsequence of the table |
| Library.SignupOnFreshApp | app.py:36-50 | a signup on a fresh database stores exactly one row, with id 1 and the hash of the password, and leaves the session empty |
| Library.SignupThenLoginOnFreshApp | app.py:36-77 | on a fresh database, signing up and logging in with the same password leaves the session holding the new row's id and username |
| Library.SignupLoginAddDeleteLogout | app.py:36-141 | signup, login, add, delete and logout in a row: the dashboard lists the one new book with `available` 1, the listing is then empty, and after logout it redirects |

## Left out

- Flask plumbing: routing, `redirect`/`url_for` (kept only as the redirect target), templates,
  `flash` messages, form parsing and the signed session cookie. The GET branches of signup and login
  only render a page and change nothing.
- The search query comes from the query string on GET and from the form on POST, with `''` when
  absent. The model takes the resulting string as its argument.
- sqlite3 mechanics: connections, SQL text, commit, and the table creation in `init_db`. The model
  replaces them with in-memory sequences that carry the UNIQUE constraint and AUTOINCREMENT's
  "never reuse an id" rule, with ids as unbounded naturals instead of 64-bit integers.
- Library.LibraryApp.Signup and Library.LibraryApp.AddBook always insert: the model does not have
  SQLite's largest rowid 2^63-1, after which an AUTOINCREMENT insert fails with SQLITE_FULL and the
  request ends in a server error.
- Library.LibraryApp.DeleteBook takes any natural `book_id`: for a `book_id` of 2^63 or more,
  sqlite3 raises OverflowError while binding the parameter and the request ends in a server error,
  where the model returns the dashboard redirect. The table is unchanged in both.
- The password hashing library: PBKDF2, salt generation and constant-time comparison. The hasher
  is a pair of abstract functions, and the salt is an argument. So "two hashes of one password
  differ" is not modelled, because it rests on the library's randomness.
- Search.Matches: SQL `LIKE` treats `%` and `_` in the query as wildcards, because the query is not
  escaped. The model reads the query literally as a substring, with case folding only for ASCII
  `A`-`Z`, as SQLite does.
- Search.SearchCatalog and Library.LibraryApp.Search: two more limits of SQLite's `LIKE` are not
  modelled. SQLite refuses a pattern longer than its maximum LIKE pattern length (50,000 bytes by
  default), so a query of about that many UTF-8 bytes over a non-empty table ends in a server error
  ("LIKE or GLOB pattern too complex"), where the model returns the matching rows. And `LIKE` stops
  reading its pattern at a U+0000 character, so a query holding one acts as a pattern cut there
  (`"a\u0000b"` matches fields that end in `a` or `A`), where the model searches for the whole
  query as a literal substring. `LIKE` also stops reading a title or author at a U+0000, although
  the row is stored and listed whole, so a query that occurs only after such a character does not
  match (a title `"x\u0000Dune"` is not found by `"dune"`), where the model finds it.
- The debug `print` calls in `search` and the `app.run` entry point.
- Concurrent requests and the race between concurrent signups. There is one client and one session.
