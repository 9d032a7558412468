# Approval-gated records application — a Dafny model

This project models the request handlers of a small Flask + SQLite web
application that an organisation uses to register personnel, approve their
accounts, assign cases to employees and let users author protocols (reports)
about cases. Two roles sign in independently: users, whose accounts must be
approved by an admin first, and admins.

Each state-changing route is a pure function from (database, session, form or
URL id) to a `Response(db', session', outcome)`. The outcome stands for the
flash message and redirect the browser receives.

- `Schema` defines the six tables: news, users, employees, cases, protocols and admins. Each is a `Table<T>`, a map from rowid to row plus the next AUTOINCREMENT rowid. `Valid` states what the schema guarantees: rowids are positive and below the counter, and usernames are unique in `users` and in `admins`.
- `Sessions` defines the signed cookie. It holds an optional `user_id` and `username` and an `admin` flag. The user guard `session.get('user_id')` is Python truthiness: the key is present and its value is not 0.
- `Forms` handles submitted fields. Reading a required field that is absent aborts the request with 400 (`BadRequest`) before anything is written. `form.get(name, default)` is `FieldOr`.
- `Sql` models SQLite's INTEGER affinity. The text of `case_id` and `assigned_to` becomes an integer when it is an integer literal that fits in 64 bits: an optional sign, then digits, leading zeros allowed, so "007" and "+7" both store 7. Other text is kept as text in the model. SQLite also converts real literals: "5.0" becomes the integer 5 and "5.5" becomes a REAL. The model keeps both as text (see "Left out"). `Sql` also states which integers fit a 64-bit parameter (`Bindable`).
- `Accounts` covers registration, the user and admin logins and logouts, and approve, reject, edit and delete of users.
- `Protocols` covers protocol create, view and delete, with the ownership test, and the admin's delete.
- `Records` covers the admin's news, employee and case screens.
- `App` defines one `Request` per route and `Handle`, the dispatcher. A run is a sequence of visits from many browsers. Each browser has its own session, and all of them share one database. `App` also holds the lemmas about all routes together: the login guards, invariant preservation, and where a browser's user identity can come from.
- `Properties` holds the lemmas that relate several requests.

Behaviours of the code a reader may not expect:

- Approve and reject do not look at the prior status. Edit can store any status text. So the account lifecycle is not one-way.
- Required fields are not validated by the handlers. A missing field ends in Flask's 400 error. An empty string is accepted.
- The user guard only checks the session. An account that is rejected or deleted after signing in keeps working until logout (`Properties.SessionOutlivesAccount`).
- The protocol page uses inner joins with `cases` and `users`. A protocol whose case or author row is gone is reported "not found" even to its author. The author can still delete it (`Properties.OrphanedProtocol`).
- A case's `status` defaults to "open" only when the field is absent. A submitted empty status is stored as empty.
- An edit that renames an account to a username another row holds hits the UNIQUE constraint. The error is not caught, so the model reports `ServerError` and writes nothing.
- Approving, rejecting or deleting an id that does not exist still reports success, as long as the id fits in 64 bits.
- A URL id beyond 2^63-1 cannot be bound as an SQLite parameter. Python's `sqlite3` raises `OverflowError`, and the request fails with a server error before anything is written. The model reports `ServerError` for such ids on every id route. The same holds for a session user id out of that range on the protocol routes.
- "Two concurrent deletes" of one protocol is modelled as two deletes one after the other (`Properties.SequentialDeletes`). The ownership query (app.py:551-552) and the delete (app.py:555) are separate statements. Two interleaved requests could therefore both pass the check; the model does not cover this.

## Model

| member | source | states |
|---|---|---|
| Accounts.Register | app.py:134-158 | Reports a duplicate exactly when the username is already in `users` (case-sensitive), checked before the other fields are read. It succeeds exactly when full name, username and password are present and the name is free. On success it adds exactly one row, under the next rowid, with status "pending", the submitted fields and empty optional fields. Every other row and table is untouched. Any other outcome leaves the database unchanged, and username uniqueness is preserved. |
| Accounts.FindAccount | app.py:170-171 | Returns a row whose username and password both equal the submitted ones, or none when no row matches. Under unique usernames it is the only matching row. |
| Accounts.UserLogin | app.py:165-189 | Never changes the database. The session changes only on success. On success the session gets the id and username of a row matching both credentials whose status is exactly "approved". With unique usernames, success, "not approved" and "rejected" hold exactly when a matching row has status approved, pending or rejected. A missing field gives 400. |
| Accounts.UserLogout | app.py:191-197 | Removes both `user_id` and `username` from the session. It keeps the admin flag and the database. |
| Accounts.AdminLogin | app.py:230-246 | Succeeds exactly when an `admins` row holds both credentials. Success raises the admin flag and changes nothing else. Failure leaves the session as it was. The database never changes. |
| Accounts.AdminLogout | app.py:248-253 | Clears the admin flag and keeps the signed-in user and the database. |
| Accounts.ApproveUser | app.py:415-426 | Without the admin flag it redirects to admin login and changes nothing. An id beyond 64 bits gives a server error and changes nothing. Otherwise it sets the target's status to "approved" whatever it was, and changes no other column, row or table. A missing id leaves the database unchanged. |
| Accounts.RejectUser | app.py:428-439 | The same as ApproveUser with status "rejected". |
| Accounts.EditUser | app.py:441-467 | Admin guard first, then 400 when a required field is missing. It returns a server error, writing nothing, exactly when the id is beyond 64 bits, or the row exists and another row already holds the new username. On success only that row changes, to the submitted columns with any submitted status. Uniqueness is preserved. |
| Accounts.DeleteUser | app.py:478-489 | Admin guard, then a server error with no change for an id beyond 64 bits. Otherwise it removes exactly that row, keeps every other row and the rowid counter, and leaves every other table (protocols included) unchanged. |
| Protocols.CreateProtocol | app.py:491-513 | User guard, then 400 exactly when case id, title or content is missing. With all three present it succeeds exactly when the session's user id fits in 64 bits; otherwise it reports a server error. On success it adds one row whose author is the session's user id. Its case id is the submitted text as SQLite stores it in an INTEGER column, and its number is the submitted one or empty. Nothing else changes. |
| Protocols.ViewProtocol | app.py:521-541 | User guard, and it never changes state. A protocol id or session user id beyond 64 bits gives a server error. Otherwise the protocol is shown exactly when the signed-in user wrote it and both its case and author rows exist. The page carries that protocol with its case's title and number and its author's full name. In every other case the outcome is "not found". |
| Protocols.DeleteProtocol | app.py:543-562 | User guard, then a server error with no change when the protocol id or session user id is beyond 64 bits. It succeeds exactly when both fit, the protocol exists and its author is the session's user. It then removes only that row. Otherwise it reports "not found or no rights" and changes nothing. |
| Protocols.AdminDeleteProtocol | app.py:606-617 | Admin guard, then a server error with no change for an id beyond 64 bits. Otherwise it removes that protocol whoever wrote it, and nothing else changes. |
| Records.AddNews | app.py:278-297 | Admin guard. It succeeds exactly when title, content and date are present. It appends that news row and nothing else; otherwise 400 with no change. |
| Records.DeleteNews | app.py:304-315 | Admin guard, then a server error with no change for an id beyond 64 bits. Otherwise it removes only that news row. |
| Records.AddEmployee | app.py:317-336 | Admin guard. It succeeds exactly when full name and position are present, and appends that employee with the department or an empty one. |
| Records.DeleteEmployee | app.py:343-354 | Admin guard, then a server error with no change for an id beyond 64 bits. Otherwise it removes only that employee row; cases are untouched. |
| Records.AddCase | app.py:356-377 | Admin guard. It succeeds exactly when the title is present. The new case has description and number as submitted or empty, and status as submitted or "open" when absent. It has no assignee when `assigned_to` is absent or empty, and otherwise the submitted text as stored in an INTEGER column. |
| Records.DeleteCase | app.py:391-402 | Admin guard, then a server error with no change for an id beyond 64 bits. Otherwise it removes only that case row; protocols are untouched. |
| Schema.SeedAdmin | app.py:105-109 | Startup seeding: an empty `admins` table gets exactly one row, admin/admin123. The row goes under the next rowid and the counter advances by one, as for any AUTOINCREMENT insert. Any other state is left alone. The schema invariants are preserved. |
| Sql.IntegerAffinity | app.py:504 | A form value written to an INTEGER column becomes an integer exactly when it is an integer literal (optional sign, then digits) whose value fits in 64 bits. That integer is the literal's value: the value the digits denote, negated after a "-". A literal outside 64 bits, and any other text (the empty string included), is stored unchanged as text. |
| Sql.AffinityRoundTrip | app.py:371 | Every 64-bit integer, sent as decimal text, is stored as exactly that integer. |
| Sql.LeadingZerosIgnored | app.py:504 | A non-negative 64-bit integer spelled with any number of leading zeros is stored as that integer. |
| Sql.PlusSignIgnored | app.py:504 | A non-negative 64-bit integer spelled with a leading "+", with or without leading zeros, is stored as that integer. |
| App.AdminGuard | app.py:418-419 | Every admin route called without the admin flag redirects to admin login and leaves the database and session unchanged. |
| App.UserGuard | app.py:494-495 | Every user route called without a truthy `user_id` redirects to user login and leaves the database and session unchanged. |
| App.HandlePreservesValid | app.py:36-48 | No request breaks the rowid discipline or username uniqueness. |
| App.RunPreservesValid | app.py:40 | Username uniqueness and the rowid discipline hold after any interleaving of visits from any browsers. |
| App.Step | app.py:180-181 | A visit runs its request with the visiting browser's own session. The shared database and that browser's session take the request's results, and every other browser's session is unchanged. |
| App.SilentBrowserUnchanged | app.py:180-181 | A browser that sends no request during a run keeps its session, whatever the other browsers do. |
| App.HandleKeepsConsistent | app.py:180-181 | No request leaves `user_id` set without `username` or the reverse. |
| App.UserIdentitySources | app.py:174-183 | A request keeps the session's user, clears it, or sets it to a row that the request's login credentials match and whose status is "approved". |
| App.AdminFlagSources | app.py:239-240 | The admin flag is raised only by an admin login whose credentials match an `admins` row. |
| App.IdentityFromApprovedLogin | app.py:174-183 | If a run ends with browser `b` on user `uid`, then either `b` held `uid` from the start, or `b` itself sent a login during the run that matched row `uid` while that row was approved. Other browsers' visits never sign `b` in. |
| App.SignedInOnlyAfterApprovedLogin | app.py:174-183 | A browser that starts without a cookie carries user `uid` only after one of its own visits was an approved login of `uid`. |
| Properties.FreshInstall | app.py:105-109 | Seeding an empty database gives a valid schema with exactly the default admin under rowid 1, and that admin can sign in with admin/admin123. |
| Properties.ApproveIdempotent | app.py:422 | Approving twice is the same as approving once. |
| Properties.RejectIdempotent | app.py:435 | Rejecting twice is the same as rejecting once. |
| Properties.LastDecisionWins | app.py:422-435 | Approve then reject leaves the database as reject alone does, and the reverse holds too. |
| Properties.RegisterTwice | app.py:137-141 | Resubmitting a successful registration reports a duplicate and changes nothing. |
| Properties.UnapprovedNeverSignsIn | app.py:174-187 | When no row matching the credentials is approved, login leaves the session unchanged and reports a denial. |
| Properties.LogoutUndoesLogin | app.py:194-195 | Logging out after a successful login leaves the same session as logging out without it. |
| Properties.RegistrationScenario | app.py:144-183 | Register ivanov/pw1: the account is pending and login is refused as not approved. After an admin approves it, login succeeds with the new row's id. The new rowid must fit in 64 bits. |
| Properties.ProtocolDependsOnFourFields | app.py:500-509 | Two forms that agree on case id, title, content and number create the same protocol. |
| Properties.AuthorNotSpoofable | app.py:505 | Adding a `user_id` field to the form does not change protocol creation. |
| Properties.SecondDeleteFails | app.py:551-559 | After a successful delete, deleting the same id again reports "not found or no rights" and changes nothing. |
| Properties.SequentialDeletes | app.py:551-559 | Take two deletes of one protocol, the first by its author, the second by any signed-in user and sent after the first has finished. The first succeeds and the second is refused. |
| Properties.OthersCannotTouch | app.py:528-559 | A signed-in user other than the author can neither view nor delete the protocol, even by its id. The database stays unchanged, and with ids that fit in 64 bits the outcomes are "not found" and "not found or no rights". |
| Properties.ViewableIsDeletable | app.py:528-555 | Any protocol the user may view, the same user may delete. |
| Properties.OrphanedProtocol | app.py:528-534 | After its case is deleted, the protocol is "not found" on its author's page, but its author can still delete it. The ids involved must fit in 64 bits. |
| Properties.SessionOutlivesAccount | app.py:494-509 | Rejecting or deleting a signed-in user's account does not stop that session from creating protocols. The user id must fit in 64 bits. |
| Properties.DeletedEmployeeStaysAssigned | app.py:350 | A case assigned to a deleted employee keeps its row, now referring to a missing employee. |
| Properties.DeletedCaseKeepsProtocols | app.py:398 | Deleting a case leaves the protocols table exactly as it was. The case row is gone whenever its id fits in 64 bits. |
| Properties.DeletedUserKeepsProtocols | app.py:485 | Deleting a user leaves the protocols table exactly as it was. The user row is gone whenever its id fits in 64 bits. |
| Properties.UnassignedCase | app.py:364-373 | A case filed with only a title and a number has no assignee, an empty description and status "open". |
| Properties.EmptyStatusIsKept | app.py:372 | A submitted empty status is stored empty rather than defaulted to "open". |

## Left out

- Page rendering, flash texts and redirect targets: each is reduced to an `Outcome` value.
- The read-only pages: the home page, both dashboards with their counts, the user list, the GET halves of the news, employee, case, protocol-create and user-edit screens, and the admin protocol list and protocol page. They only read, and their ordering depends on how SQLite collates free-form date and timestamp text.
- Database connection handling, the CREATE TABLE and ALTER TABLE statements of `init_db`, and configuration from environment variables (database path, port, debug flag, session secret). These are I/O and configuration. The admin seeding of `init_db` is modelled as `Schema.SeedAdmin`.
- `created_at` timestamps: they come from the database clock. The only modelled route that reads them is the protocol page, which selects the whole protocol row (app.py:529) and passes its `created_at` to the page (app.py:541). `Http.ProtocolView` leaves that column out.
- Storage-level failures such as a locked or full database. They propagate as server errors and are not modelled. The modelled exceptions are the UNIQUE violation on edit and parameters beyond 64 bits.
- Concurrent requests: each request is handled as one atomic step. A protocol delete runs its ownership query and its DELETE as two statements (app.py:551-555), so two interleaved deletes could both pass the check. Properties.SequentialDeletes covers only deletes one after the other.
- Session cookie signing and expiry: the session is taken as given.
- Passwords are opaque strings compared with `==`, as the application stores them.
- Form fields submitted several times: the model keeps one value per name, as `request.form[name]` returns the first.
- Sql.IntegerAffinity: text with leading or trailing spaces, and real literals whose value is a whole number (" 5", "5.0", "1e3"), are kept as text. SQLite would store them as integers (5, 5 and 1000), which can then equal a rowid. Real literals that are not whole numbers ("5.5", "1.5e0") are also kept as text. SQLite would store them as REAL, which never equals an integer rowid.
- Sql.IntegerAffinity: an integer literal outside 64 bits is kept as text. SQLite stores it as a real number. Either way it never equals a rowid.
- Tables.Table.Insert: rowid exhaustion at 2^63-1 (an SQLITE_FULL error) is not modelled.
- Accounts.FindAccount: SQLite returns the first matching row in index order. The model takes the least rowid. The two differ only when usernames are not unique, which the schema rules out.
- Accounts.UserLogin: the success, not-approved and rejected equivalences are stated under unique usernames, which the schema guarantees. Without that assumption the contract states only the one-way facts.
