# Credential flow of the PenSpecter server, in Dafny

This project models the authentication core of the PenSpecter server
(`src/api/auth.rs`). It covers the following parts:

- **The error taxonomy.** `AuthError` has five variants. Each one becomes a fixed
  HTTP status and a fixed plain-text label (`AuthErrors`).
- **Password hashing and verification.** `hash_password` and `verify_password`
  are thin wrappers around the Argon2 hasher (`Passwords`). The stored hash is a
  self-describing PHC string, and `Phc` gives it a `$`-separated format.
- **The `users` table and its two lookups** (`Users`).
- **The two request handlers, `register` and `login`** (`Auth`). They are methods
  of a `UserStore` class whose `rows` field is the table.
- **Request sequences a client can observe** (`Scenarios`).

The Argon2 computation is foreign code, so it is a parameter:
`kdf: (Config, string, Field) -> Option<Field>`. It takes the algorithm
configuration, the password and the salt. It returns the digest, or `None` when
the computation fails. The salt from the operating system's random generator
is a parameter too. Nothing about Argon2 is assumed. The round trip "a password
verifies against its own hash" (`Passwords.HashVerifyRoundTrip`) is a theorem
for every `kdf`. It follows from the proof that parsing a formatted PHC string
gives the hash back (`Phc.ParseFormat`).

Every database call can fail, for reasons such as connectivity or timeouts.
Which calls fail is given by boolean parameters of the handlers: `lookupFails`
and `insertFails`. A `SELECT` fetched with `fetch_optional` yields the first
row it selects, in table order.

Where the design description and the code differ, the model follows the code:

- `verify_password` turns an unparsable stored hash into `InvalidCredentials`.
  There is no separate parse-failure kind.
- A failed insert is always `DatabaseOperationFailed`. The code never maps a
  uniqueness violation back to `UserAlreadyExists` or `EmailAlreadyUsed`.
- The request's email is always present (`String`), while the table's `email`
  column is nullable (`Option<String>`).
- The username takes precedence only within the single row that the lookup
  returns. When one row holds the username and an earlier row holds the email,
  the lookup may return the email row, and the result is then
  `EmailAlreadyUsed`. `Auth.Admission` states that the username check wins
  whenever every row holding the email also holds the username, and that a
  colliding row always gives one of the two "taken" errors.

## Model

| member | source | states |
|---|---|---|
| `AuthErrors.IntoResponse` | src/api/auth.rs:39-58 | 401 exactly for `InvalidCredentials`; 409 exactly for `UserAlreadyExists` and `EmailAlreadyUsed`; 500 exactly for `PasswordHashFailed` and `DatabaseOperationFailed` |
| `AuthErrors.LabelRoundTrip` | src/api/auth.rs:39-58 | each failure's label reads back as that failure (`UserAlreadyExists` is sent as `UsernameAlreadyExists`), and no other string reads as a failure |
| `AuthErrors.IntoResponseInjective` | src/api/auth.rs:39-58 | distinct failures give distinct responses |
| `Phc.Split` | src/api/auth.rs:130 | splitting a stored string at `$` gives at least one field, and joining the fields gives the string back |
| `Phc.SplitJoin` | src/api/auth.rs:130 | splitting the join of `$`-free fields gives the same fields |
| `Phc.Format` | src/api/auth.rs:125 | a formatted hash is non-empty and starts with `$` |
| `Phc.Parse` | src/api/auth.rs:130-131 | whatever parses formats back to the same string |
| `Phc.ParseFormat` | src/api/auth.rs:125-131 | parsing a formatted hash gives the hash back |
| `Phc.FormatInjective` | src/api/auth.rs:125 | two hashes with the same string are equal |
| `Passwords.HashPassword` | src/api/auth.rs:119-127 | fails with `PasswordHashFailed` exactly when the Argon2 computation fails; otherwise the string parses to the default configuration, the given salt and the computed digest |
| `Passwords.VerifyPassword` | src/api/auth.rs:129-134 | `InvalidCredentials` exactly when the stored string does not parse; otherwise `true` exactly when recomputing with the stored configuration and salt gives the stored digest |
| `Passwords.HashVerifyRoundTrip` | src/api/auth.rs:119-134 | a password verifies against its own hash |
| `Passwords.VerifyOtherPassword` | src/api/auth.rs:129-134 | another password verifies against a hash exactly when its digest under the same salt collides |
| `Passwords.DistinctSaltsDistinctHashes` | src/api/auth.rs:119-127 | one password hashed under two different salts gives two different stored strings |
| `Users.FirstSelected` | src/api/auth.rs:67-72 | `None` exactly when no row matches the query; otherwise a matching row with no matching row before it |
| `Users.AppendKeepsUnique` | src/api/auth.rs:75-94 | appending a row that no existing row collides with keeps usernames unique and present emails unique |
| `Users.FirstSelectedAppend` | src/api/auth.rs:104-108 | a row appended with a username no other row has is the row a username lookup finds |
| `Auth.Admission` | src/api/auth.rs:67-85 | `DatabaseOperationFailed` exactly when the lookup fails; `UserAlreadyExists` when a row holds the username and every row holding the email also holds the username (such as a repeat of the same username and email); the request goes ahead exactly when no row collides and hashing works, and the row to insert holds the requested username, the email and the hash; a reported collision is a real one; a row without an email never causes `EmailAlreadyUsed`; register never reports `InvalidCredentials` |
| `Auth.LoginOutcome` | src/api/auth.rs:104-116 | the only failures are `DatabaseOperationFailed` and `InvalidCredentials`; an unknown user gets `InvalidCredentials`; success requires a row with the username whose hash verifies, and with unique usernames that is also sufficient |
| `Auth.UserStore.FetchOptional` | src/api/auth.rs:67-74 | a failing query gives an error; otherwise the first row the query selects |
| `Auth.UserStore.InsertFetchOne` | src/api/auth.rs:86-94 | a failed insert changes nothing; a successful insert appends the row, yet the fetch reports `RowNotFound` |
| `Auth.UserStore.InsertExecute` | src/api/auth.rs:86-94 | a failed insert changes nothing; a successful insert appends exactly the row and reports one row written |
| `Auth.UserStore.PrepareRow` | src/api/auth.rs:67-85 | the lookup, the username check, the email check and the hashing step decide as `Admission` does |
| `Auth.UserStore.RegisterAsWritten` | src/api/auth.rs:62-96 | never succeeds; it keeps identities unique; when admission passes and the insert works, the row is written but `DatabaseOperationFailed` is reported |
| `Auth.UserStore.Register` | src/api/auth.rs:62-96 | every failure leaves the table unchanged; success appends exactly the admitted row; insert failures become `DatabaseOperationFailed`; identities stay unique |
| `Auth.UserStore.Login` | src/api/auth.rs:98-117 | answers as `LoginOutcome` and changes nothing |
| `Auth.AdmissionKeepsUnique` | src/api/auth.rs:75-94 | an admitted row keeps usernames unique and present emails unique |
| `Auth.LoginAfterRegister` | src/api/auth.rs:85-116 | after a registration is admitted and written, logging in with the same username and password succeeds |
| `Auth.ReRegisterRejected` | src/api/auth.rs:67-83 | once a username is in the table, registering it again never succeeds; the failure is `UserAlreadyExists` unless an earlier row holds the new email |
| `Scenarios.BobSignsIn` | src/api/auth.rs:62-116 | register bob, then log in with the right password (success) and with a wrong one (`InvalidCredentials`) |
| `Scenarios.AliceCollisions` | src/api/auth.rs:62-116 | a duplicate username gives `UserAlreadyExists`; a duplicate email gives `EmailAlreadyUsed`; an unknown user and a wrong password get the same response |
| `Scenarios.InsertReportedAsFailure` | src/api/auth.rs:86-95 | as written, a fresh registration writes the row but reports `DatabaseOperationFailed`; the user can then log in, and retrying gives `UserAlreadyExists` |

## Findings

| source | as written | input that shows it | evidently intended | confidence | as-written member | corrected member |
|---|---|---|---|---|---|---|
| src/api/auth.rs:86-94 | The `INSERT` has no `RETURNING` clause but is run with `.fetch_one`. That call fails with "row not found" when the statement yields no row, and the error is mapped to `DatabaseOperationFailed`. The row has already been written by then. | Register `bob`, `b@x.com`, `pw1` on an empty table with a working database: the response is 500 `DatabaseOperationFailed`, yet `bob` can log in, and a retry gets 409 `UsernameAlreadyExists`. | Run the insert for its effect (`.execute`) and answer 200 after the row is written. | high; not executed | `Auth.UserStore.RegisterAsWritten`, `Scenarios.InsertReportedAsFailure` | `Auth.UserStore.Register`, `Scenarios.BobSignsIn` |

## Left out

- Argon2 itself, meaning the memory-hard derivation and the constant-time comparison of digests. Argon2 is a parameter `kdf` of the model. Whether two passwords' digests collide is therefore left open, and `Passwords.VerifyOtherPassword` states the result in terms of that collision.
- Salt generation from the operating system's random generator. The salt is a parameter, so the model cannot say that two calls draw different salts. `Passwords.DistinctSaltsDistinctHashes` shows that different salts give different stored strings.
- `Phc.Parse`: accepts exactly the shape the hasher writes, `$algorithm$version$params$salt$digest`. PHC strings without a version or a params field, and the per-field syntax checks (identifier characters, `key=value` params, base64), are not modelled. Such a string counts as unparsable or as any `$`-free field.
- `Passwords.HashPassword`: hashes the password as a `string` of characters, not as its UTF-8 bytes.
- The PostgreSQL connection, `sqlx` and `async`/`await`. The table is an in-memory sequence, and a database failure is a boolean parameter of each call. A constraint that the table itself enforces on insert is not modelled, because the schema is not part of this model.
- Row order. PostgreSQL returns rows in an unspecified order, and the model's lookups return the first matching row in insertion order.
- Concurrent requests, such as two registrations racing between the lookup and the insert. The model handles one request at a time.
- The handlers' log lines (`src/api/log.rs`), the server set-up and routing (`src/main.rs`), the pool bootstrap (`src/api/db.rs`), and JSON decoding and encoding of requests and replies.
- `Auth.UserStore.Register`: shows only through its result that no hashing is attempted after a failed lookup or a collision. The method body performs no hash on those paths.
