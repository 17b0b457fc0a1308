# Account store of the sign-language demo server

A Dafny model of the user-account part of `flask_server1.py`, the Flask
backend of a sign-language-recognition demo. The server keeps one SQLite
table, `users`, and offers two account endpoints over it:

- `POST /signup` checks that eight string fields are present and non-empty,
  then inserts one row; it answers 200 "Signup successful", 400 "All fields
  are required", 400 "Username or email already exists" (a UNIQUE
  violation) or 500 "Server error: …" (any other storage fault).
- `POST /login` checks that `username` and `password` are present and
  non-empty, then selects the row whose `username` and `password` both
  equal them; it answers 200 with that row's `name` and `role`, 400 for a
  missing credential, or 401 "Invalid username or password".

The model has two modules.

- `Users` (`users.dfy`) holds the row type `User`, the request body (a map
  from member names to strings, where an absent key is a missing field and
  `""` a falsy one), the replies, and the pure queries: the required-field
  check `AllTruthy`, the row a signup would insert (`Candidate`), the UNIQUE
  probe `Taken`, the login query `Select`, and the table invariant
  `TableInvariant` (both UNIQUE constraints, every column filled, ids at
  least 1, strictly increasing and below the AUTOINCREMENT counter).
- `Handlers` (`handlers.dfy`) holds the class `UserStore`, whose fields
  `rows` and `nextId` are the table and its AUTOINCREMENT counter, with the
  state-changing `Signup` method; the read-only `Login` function over the
  table's rows; and the round-trip results that connect the two.

SQLite is abstracted as follows: `UNIQUE` is a membership test before the
append; `AUTOINCREMENT` is a counter that starts at 1 on a fresh database
file and advances by one per successful insert, so the model hands out the
smallest id allowed and a refused insert uses none (SQLite itself guarantees
only that ids increase, which is all `TableInvariant` relies on); the
`WHERE username = ? AND password = ?` comparison is exact string equality, as with SQLite's default BINARY
collation; `fetchone()` returns some matching row, which under the UNIQUE
constraint on `username` is the only one.

The generic `except Exception` path of signup is modelled by a parameter
`fault: Option<string>`: when it holds a message, the storage layer failed
after validation, the handler answers 500 with "Server error: " followed by
that message, and the table is unchanged.

## Model

| member | source | states |
|---|---|---|
| `Users.AllTruthy` | flask_server1.py:44-45 | true exactly when every listed field is present in the body with a non-empty value |
| `Users.Candidate` | flask_server1.py:44-57 | a row exists exactly when all eight required fields are truthy; it then carries the given id, has every column non-empty, and holds the eight submitted values verbatim |
| `Users.Taken` | flask_server1.py:21-31 | true exactly when some existing row already has the username or the email, i.e. when the insert violates a UNIQUE constraint |
| `Users.Matches` | flask_server1.py:83 | a row matches exactly when its `username` and its `password` both equal the supplied values, character for character |
| `Users.UniqueKeys` | flask_server1.py:23-28 | no two rows share a username and no two rows share an email: the two UNIQUE constraints |
| `Users.TableInvariant` | flask_server1.py:21-31 | the state the table keeps between requests: both UNIQUE constraints, every column non-empty, the AUTOINCREMENT counter at least 1, and ids at least 1, strictly increasing in insertion order and below the counter |
| `Users.Select` | flask_server1.py:83-84 | returns no row exactly when no row matches both username and password; a returned row is a row of the table that matches both |
| `Users.InsertKeepsInvariant` | flask_server1.py:21-31 | appending a complete row with fresh username and email and the counter's id keeps both UNIQUE constraints and the strictly increasing ids, with the counter advanced by one |
| `Users.SelectFindsTheMatch` | flask_server1.py:81-87 | with unique usernames, the lookup returns the one row matching the credentials, whatever the table order |
| `Users.InsertedKeysAreTaken` | flask_server1.py:51-65 | once a row is inserted, every later insert sharing its username or its email violates a UNIQUE constraint, whatever rows were appended in between |
| `Handlers.UserStore.constructor` | flask_server1.py:17-34 | on a fresh database file the table starts empty, satisfies the invariant, and the first AUTOINCREMENT id is 1 |
| `Handlers.UserStore.Signup` | flask_server1.py:38-68 | keeps the table invariant; a missing or empty field gives 400 "All fields are required", a storage fault 500 "Server error: <message>", a taken username or email 400 "Username or email already exists", all three with the table unchanged; otherwise 200 "Signup successful", exactly one row holding the submitted values appended, earlier rows untouched, its id above every id assigned before and the counter advanced |
| `Handlers.Login` | flask_server1.py:73-89 | a missing or empty username or password gives 400 "Username and password are required" whatever the table holds; otherwise 200 exactly when some row matches both values, with that row's name and role, and else 401 "Invalid username or password", the same reply for an unknown user and a wrong password |
| `Handlers.LoginAfterSignup` | flask_server1.py:51-87 | after the row of a successful signup is appended, a login with the same username and password answers 200 with the submitted name and role |
| `Handlers.LoginReturnsTheMatchingRow` | flask_server1.py:81-87 | on a table satisfying the invariant, a login whose credentials are those of a stored row answers 200 with that row's name and role |
| `Handlers.SignupThenLogin` | flask_server1.py:38-89 | on the store object: a complete signup with fresh keys answers 200, and the login that follows answers 200 with the submitted name and role |
| `Handlers.SignupTwice` | flask_server1.py:38-65 | on the store object: a second complete signup sharing the first one's username or email answers 400 "Username or email already exists" and leaves only the first row added |

## Left out

- The `/recognize` and `/collect` endpoints (flask_server1.py:92-159): they run external programs through `subprocess.run`, so their outcome depends entirely on foreign executables and process I/O.
- Connection handling, the write-ahead-logging pragma (flask_server1.py:19), `commit`/`close`, and the connection left open when an exception is raised before `conn.close()`: storage-engine plumbing with no effect on the table's contents as seen by the handlers.
- Concurrent requests: the model is sequential; SQLite serialises writers, so each signup is one atomic step.
- A storage fault during `login`: the handler has no `try`, so the fault propagates to the web framework, whose reply is not part of this model.
- A request whose body is not a JSON object (null, an array, a scalar, or malformed JSON): signup answers 400 "All fields are required" when the body is an array or string for which `'username' in data` is false, and 500 otherwise (flask_server1.py:40, 45-46, 66-68); login raises at flask_server1.py:74-75; both depend on how the framework decodes the body.
- JSON members that are not strings (numbers, booleans, lists, `null`): the body is modelled as a map from names to strings, so only "absent" and "empty string" are falsy values here.
- String values are sequences of Unicode scalar values, so a JSON string holding an unpaired surrogate (such as the escape `\ud800`) is not representable; for such a value the source answers 500 in signup, because the UTF-8 encoding fails when the INSERT binds it (flask_server1.py:51-57, 66-68), and raises an uncaught error in login at the SELECT (flask_server1.py:83).
- The NOT NULL constraints: the required-field check rejects every null or empty value before the insert, so they can never fire.
- Flask routing, CORS (flask_server1.py:9), logging, and the `app.run`/`DEBUG` bootstrap (flask_server1.py:163-165).
- Password hashing: the code stores and compares plaintext passwords, and the model does the same.
- Handlers.UserStore.constructor: models `init_db` on a fresh database file only; `CREATE TABLE IF NOT EXISTS` on the persistent `user_data.db` keeps the rows and the counter of earlier runs, and a restarted server is any state satisfying `Valid()`, which `Signup` and `Login` accept as they are.
- Handlers.UserStore.Signup: the AUTOINCREMENT counter `nextId` is an unbounded natural number; SQLite's rowid stops at 2^63-1, after which an insert fails and takes the 500 path, whereas the model still answers 200.
- Where exactly a storage fault strikes inside signup: it is abstracted to one point after validation and before the UNIQUE check, and the model does not say which faults a real connection can raise.
