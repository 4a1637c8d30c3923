# fast_zero request handlers, modelled in Dafny

fast_zero is a small web backend: users register, log in with email and
password to get a bearer token, and keep a private list of to-dos. This
project models the decision logic of its request handlers over an in-memory
database: a user table and a to-do table, each with an id sequence.

- `results.dfy` (`Results`): `Option` and the handler outcome
  `Ok | BadRequest | NotFound | Forbidden`, each error with its `detail`
  message.
- `seqs.dfy` (`Seqs`): what the SQL the handlers send does to a table.
  `Where` is a `WHERE` clause, keeping rows in table order. `FirstIndex` is
  `session.scalar`, the first matching row. `Page` is `OFFSET`/`LIMIT`.
- `text.dfy` (`Text`): `icontains`, which is `lower(col) LIKE '%' || lower(text) || '%'`,
  as ASCII lower-casing plus substring search.
- `tables.dfy` (`Tables`): the records and the `Store` class. `Store` holds
  `users`, `todos`, `nextUserId` and `nextToDoId`. Its `Valid()` says ids are
  distinct, at least 1, and below the next id to be handed out.
- `users.dfy` (`Users`): `fast_zero/routers/users.py`.
- `todo.dfy` (`ToDos`): `fast_zero/routers/todo.py`.
- `auth.dfy` (`Auth`): `fast_zero/routers/auth.py`.
- `app.dfy` (`App`): `fast_zero/app.py`. Its user handlers and its login are
  line-for-line copies of the router handlers. Each `App` member calls the
  router's member and restates the contract for its own endpoint.

Handlers that write to the database (create, update and delete a user;
create a to-do) are methods that take the `Store` and modify it. Handlers
that only read (list and get users, list to-dos, login, refresh) are
functions of the table contents. Because they are functions, they cannot
modify a table.

Three things come from code outside this model, so they are parameters with
no assumed properties:
- password hashing: `hash`;
- bcrypt verification: `verify`;
- token minting, `create_access_token` in `fast_zero/security.py`: `makeToken`,
  applied to the token's `Claims`.

The acting user is resolved by `get_current_user`, also in
`fast_zero/security.py`. Here it is an input. Only `UpdateUser` and
`DeleteUser` require it to be a row of the user table, because they change
that row. Creating a to-do, listing to-dos and refreshing a token accept any
user.

## Model

| member | source | states |
|---|---|---|
| `Users.RegistrationError` | fast_zero/routers/users.py:24-38 | Registration fails iff some row has the same username or email. Blame goes to the first clashing row: "Username already exists" iff that row has the same username, even if its email also matches. "Email already exists" iff it has a different username and the same email. |
| `Users.TakenUsernameReported` | fast_zero/routers/users.py:28-33 | If the username is taken and no row with the same email has a different username, the error is "Username already exists". |
| `Users.ReportDependsOnRowOrder` | fast_zero/routers/users.py:24-38 | Take one row with the username and another with the email. The reported error follows whichever row comes first. |
| `Users.RegisteredUsernameIsTaken` | fast_zero/routers/users.py:24-50 | After a successful registration, repeating the same request fails with "Username already exists". |
| `Users.CreateUser` | fast_zero/routers/users.py:22-50 | On a clash, returns BadRequest with the message `RegistrationError` gives and leaves the store unchanged. Otherwise it appends exactly one row, with the next id, the given username and email, and `hash(password)`. It returns that row's public view and advances the id sequence. Nothing else changes and `Valid()` still holds. |
| `Users.ListUsers` | fast_zero/routers/users.py:53-60 | Returns `min(limit, max(0, n - skip))` rows. Row `i` is the public view of table row `skip + i`. Defaults: `limit = 10`, `skip = 0`. |
| `Users.ListUsersDefaultsShowSmallTable` | fast_zero/routers/users.py:56-57 | With the defaults, a table of at most ten users is listed whole. |
| `Users.GetUser` | fast_zero/routers/users.py:63-73 | Ok iff some row has the id, and the result is that row's public view. Otherwise NotFound "User not found". |
| `Users.GetUserFindsRow` | fast_zero/routers/users.py:65 | When ids are distinct, looking up a row's id returns that row. |
| `Users.UpdatedRowIsFound` | fast_zero/routers/users.py:89-96 | After an update, the updated id is found with the new username and email. |
| `Users.OtherUsersUnchangedByUpdate` | fast_zero/routers/users.py:89-94 | After an update, every other id is found exactly as before. |
| `Users.UpdateUser` | fast_zero/routers/users.py:76-96 | If `user_id` is not the caller's id, returns Forbidden "Not enough permission" and changes nothing. This holds even when no row has that id. Otherwise only the caller's row changes: its username, email and password become the new username, email and `hash(password)`, and its id stays. Other rows, the to-dos and the id sequences are unchanged. |
| `Users.WithoutCutsOneRow` | fast_zero/routers/users.py:111-112 | Removing an id that only one row has removes exactly that row and keeps every other row, in order. |
| `Users.DeletedUserIsGone` | fast_zero/routers/users.py:111-114 | After a delete, looking up the deleted id gives NotFound "User not found". |
| `Users.OtherUsersUnchangedByDelete` | fast_zero/routers/users.py:111-112 | After a delete, with distinct ids, every other id is found exactly as before. |
| `Users.DeleteUser` | fast_zero/routers/users.py:99-114 | If `user_id` is not the caller's id, returns Forbidden "Not enough permission" and changes nothing. Otherwise it removes exactly the caller's row, so the table shrinks by one. It returns "User deleted", and `Valid()` still holds. The delete is assumed to commit. Other users' to-dos stay unchanged and no to-do is added or altered, so each of the caller's own to-dos is either removed or kept unchanged. |
| `ToDos.CreateToDo` | fast_zero/routers/todo.py:23-40 | Appends one to-do. Its id is the next id and its owner is the caller. Title, description and state are copied from the request. The user table does not change. |
| `ToDos.ListToDos` | fast_zero/routers/todo.py:43-66 | The response echoes `offset` and `limit` (defaults 0 and 10) and holds at most `limit` to-dos. |
| `ToDos.SkippingFiltersIsHarmless` | fast_zero/routers/todo.py:55-62 | A filter the handler skips (title or description absent or empty, state absent) would keep every row anyway. So the listing equals applying all four filters in turn. |
| `ToDos.NarrowedIsConjunction` | fast_zero/routers/todo.py:53-62 | The chained filters together equal one filter on their conjunction. |
| `ToDos.ListToDosIsPageOfListed` | fast_zero/routers/todo.py:53-64 | The result is the `offset`/`limit` page of the to-dos meeting the whole condition, in table order. Its length is `min(limit, max(0, n - offset))`. |
| `ToDos.ListedToDosMatch` | fast_zero/routers/todo.py:53-62 | Every listed to-do is in the table and owned by the caller. It contains the non-empty title and description filters, ignoring case, and has the given state. |
| `ToDos.ListedToDosComplete` | fast_zero/routers/todo.py:53-64 | Every to-do meeting the condition is listed when the page covers the whole selection. |
| `ToDos.CreatedToDoIsListed` | fast_zero/routers/todo.py:29-40 | A new to-do appears in its owner's unfiltered listing. |
| `ToDos.OthersToDosNotListed` | fast_zero/routers/todo.py:53 | Adding another user's to-do leaves the caller's listing unchanged. |
| `ToDos.DefaultWindowScenario` | tests/test_todo.py:37-60 | Five owned to-dos: the default listing returns 5, and `offset=1&limit=2` returns 2. |
| `ToDos.TestTitleContainsTest` | tests/test_todo.py:63-94 | "Test title" and "Test Description" both contain "test", ignoring case. |
| `ToDos.CombinedFilterScenario` | tests/test_todo.py:114-179 | Five matching done to-dos plus three doing ones, filtered by `title=test&description=test&state=done`: 5 are returned, and 3 with `offset=2&limit=3`. |
| `Text.ContainsIgnoresCase` | fast_zero/routers/todo.py:55-59 | Folding the case of either side first does not change the text filter's answer. |
| `Text.EmptyTextMatchesAll` | fast_zero/routers/todo.py:55-56 | Empty filter text matches every string. |
| `Seqs.PagesTile` | fast_zero/routers/todo.py:64 | Consecutive offset/limit windows fit together with no gap and no overlap. |
| `Auth.Login` | fast_zero/routers/auth.py:23-44 | Every failure is BadRequest "Incorrect email or password". An unknown email fails. A success returns `Token(makeToken(sub = email), "bearer")` for a user with that email whose password digest verifies. |
| `Auth.LoginSucceedsIff` | fast_zero/routers/auth.py:28-44 | When emails are distinct, login succeeds iff the user with that email exists and `verify(password, digest)` holds. |
| `Auth.LoginFailuresIndistinguishable` | fast_zero/routers/auth.py:30-40 | A known email with a wrong password gets exactly the answer an unknown email gets. |
| `Auth.LoginDecidedByFirstRow` | fast_zero/routers/auth.py:28-40 | With no uniqueness assumption, the first row with the form's email decides the login: it succeeds iff the password verifies against that row's digest, and when it does not, the answer equals the one an unknown email gets. |
| `Auth.RefreshAccessToken` | fast_zero/routers/auth.py:47-53 | Refresh returns a bearer token. It is the token that any successful login with the caller's email returns when minted by the same `makeToken`, that is, at the same instant, so its subject is the caller's email. |
| `App.CreateUser` | fast_zero/app.py:42-68 | Fails with the router's message iff the username or email is taken, changing nothing. Otherwise it stores one row with `hash(password)` under the next id and leaves the other rows unchanged. |
| `App.ListUsers` | fast_zero/app.py:71-78 | Returns the skip-then-limit slice of public views, with defaults `limit = 10` and `skip = 0`. |
| `App.GetUser` | fast_zero/app.py:81-91 | Returns the row's public view, or NotFound "User not found" for an absent id. |
| `App.UpdateUser` | fast_zero/app.py:94-114 | Forbidden, with nothing changed, when the id is not the caller's. Otherwise only the caller's username, email and digest change. |
| `App.DeleteUser` | fast_zero/app.py:117-132 | Forbidden, with nothing changed, when the id is not the caller's. Otherwise the delete is assumed to commit: only the caller's row is removed, other users' to-dos stay, and each of the caller's to-dos is either removed or kept unchanged. |
| `App.LoginForAccessToken` | fast_zero/app.py:135-153 | Both failure paths return BadRequest "Incorrect email or password". A success returns a bearer token for the form's email. |
| `App.RegisteredUserCanLogIn` | fast_zero/app.py:58-68 | After a successful registration, logging in with the same email and password returns a bearer token for that email, assuming the password verifies against its own digest. |

## Left out

- Token issuance and validation (signing, expiry, claim checks) and
  resolution of the current user: `fast_zero/security.py` is not part of this
  model. `makeToken` is an opaque parameter. The current user is an input.
- bcrypt: `hash` and `verify` are parameters with no assumed relation.
  `App.RegisteredUserCanLogIn` takes "the password verifies against its own
  digest" as a hypothesis.
- Database plumbing: sessions, commit and refresh, the test database and
  dependency overrides.
- Rules in `fast_zero/models.py`, which is not part of this model: unique
  constraints, `created_at`/`updated_at`, cascades and the members of
  `ToDoState`. The model uses draft, todo, doing, done and trash.
- Id sequences are modelled as counters that start at 1.
- Uniqueness of usernames and emails: nothing in the handlers keeps them
  unique across an update, so the model does not claim it.
- `Auth.LoginSucceedsIff` and `Auth.LoginFailuresIndistinguishable` assume
  distinct emails, which only the database's constraint could guarantee.
  Without that assumption, `Auth.LoginDecidedByFirstRow` states both
  properties about the first row with that email.
- `Users.DeleteUser` and `App.DeleteUser` assume the delete commits, and that
  each of the caller's to-dos is either removed or kept unchanged. A foreign
  key in `fast_zero/models.py` that nulls the owner of those to-dos, or makes
  the commit fail, is not modelled.
- Concurrency: the model runs one request at a time. `create_user` checks for
  a clash and then inserts, in separate round trips, so two concurrent
  registrations can both pass the check. `Users.RegistrationError`'s "fails
  iff taken" holds only for requests that run one at a time.
- Result order: no query has an `ORDER BY`. The model keeps table order and
  claims no other ordering.
- `ToDos.ListToDos` requires the title and description filters to contain no
  `%`, `_` or `\`, because `LIKE` treats those characters as pattern syntax
  and the model does plain substring search. Case folding covers ASCII
  letters only.
- `ToDos.ListToDos`: `offset` and `limit` are natural numbers. A negative
  value is a database error, which is not modelled.
- `Users.ListUsers`: `skip` and `limit` are natural numbers, for the same
  reason.
- The to-do get, patch and delete endpoints are exercised by
  `tests/test_todo.py` but have no handler in `fast_zero/routers/todo.py`, so
  they are not modelled.
- Request validation by `fast_zero/schemas.py`, such as email syntax. The
  schemas serve only as field lists for the records.
- The HTTP layer: routing, status codes, `root_api` and `root_html`.
