# User authentication service: the `Auth` / `DB` core in Dafny

This project models the user-authentication service in
`0x03-user_authentication_service`: the `DB` user store and the `Auth` class
built on it. Together they form a small state machine over one table of user
rows. Each row has an `id`, an `email`, a `hashed_password`, a nullable
`session_id` and a nullable `reset_token`.

- `users.dfy`, module `Users`: the row, its columns and the values a caller
  passes as keyword arguments. It also gives the column-by-column `getattr` and
  `setattr`, the `filter_by(...).first()` search, and the check-then-assign
  steps of `update_user`. The table definition (user.py) is not part of this
  model: the columns are the five attributes the service reads and writes.
- `db.dfy`, module `Database`: class `DB` holds the table as `users: seq<User>`
  in store order. `AddUser` and `UpdateUser` change it in place, and
  `FindUserBy` reads it. The store assigns ids 1, 2, 3, ... in insertion order
  and never deletes a row, so row `i` has id `i + 1`. This is `DB.Valid()`.
- `auth.dfy`, module `Authentication`: class `Auth` wraps one `DB`.
  - `RegisterUser`, `CreateSession`, `DestroySession` and `GetResetPasswordToken`
    are methods that change the table.
  - `ValidLogin` and `GetUserFromSessionId` are functions of the table.
  - `Auth.Valid()` adds that no two rows share an email. Every `Auth`
    operation keeps this.
  - The file also holds the lemmas about the session and login lifecycles. It
    has three caller methods that state them over all inputs: `RegisterTwice`,
    `CreateThenLookup` and `DestroyThenLookup`. A client method,
    `NoCookieScenario`, registers and logs in, then sends a request with no
    session cookie.

Exceptions are values: `Result<T> = Ok(value) | Err(error)`, where `error` is
`NoResultFound`, `InvalidRequestError` or `ValueError`. Python's `None` is
`Option.None`.

bcrypt is an oracle, the datatype `Bcrypt(hashpw, checkpw)`. The only fact
assumed about it is `Sound`: a password checks against any hash computed from
it. This fact appears as a hypothesis wherever it is used.

The random inputs are parameters: `salt` for `bcrypt.gensalt()` and `uuid` for
the string of a version 4 UUID (section 4.4 of RFC 4122).

Two places where the lookups behave differently than their callers expect:
- The docstring of `get_user_from_session_id` (auth.py:61) and its callers in
  app.py (app.py:52-55, app.py:64-66) expect a lookup that yields `None` for an
  unknown session, so that the request is answered 403. The code compares the
  token like any other value, and that includes a missing token. SQLAlchemy
  turns `session_id == None` into `IS NULL`, so a missing token finds the
  first user who has no session. See "## Findings".
- `find_user_by` returns the first matching row in store order, even when
  several rows match.

## Model

| member | source | states |
|---|---|---|
| `Users.Get` | 0x03-user_authentication_service/db.py:53 | reading a column yields a value of that column's type |
| `Users.Set` | 0x03-user_authentication_service/db.py:55 | after `setattr`, the assigned column reads back as the new value and every other column reads as before |
| `Users.FirstMatch` | 0x03-user_authentication_service/db.py:42 | with `Users.Matches` as the `filter_by` condition, `filter_by(...).first()` yields the first row in store order that matches every key/value pair, and nothing only when no row matches |
| `Users.SingleColumnQueries` | 0x03-user_authentication_service/auth.py:63 | `email=`, `id=` and `session_id=` queries match exactly the rows holding that value; a `None` session id matches a row with no session. Besides the `session_id=` lookup cited, this covers the `email=` lookups at auth.py:29, 39, 53 and 80 and the `id=` lookups at auth.py:71 and db.py:51 |
| `Users.AssignGet` | 0x03-user_authentication_service/db.py:52-55 | after the assignment loop, as modelled by `Users.Assign`, each column named by a keyword holds that keyword's value and every unnamed column is unchanged |
| `Users.FirstRejected` | 0x03-user_authentication_service/db.py:52-54 | the position of the first keyword that `Users.Rejects`, the check `getattr(user, key, 'None') == 'None'`, rejects (a key naming no column, or a column holding the string "None"); every keyword before it is accepted |
| `Database.Lookup` | 0x03-user_authentication_service/db.py:39-47 | `find_user_by` raises `InvalidRequestError` exactly when a key is not a column, raises `NoResultFound` exactly when no row matches, and otherwise finds the first matching row |
| `Database.LookupById` | 0x03-user_authentication_service/db.py:51 | looking a user up by id finds row `id - 1`, and raises `NoResultFound` exactly when no row has that id |
| `Database.Update` | 0x03-user_authentication_service/db.py:49-56 | `update_user` changes at most the row with that id and no other row. It keeps every id. For an unknown id it raises `NoResultFound` and changes nothing |
| `Database.UpdateAssignsPrefix` | 0x03-user_authentication_service/db.py:52-56 | on an existing id, `update_user` raises `ValueError` exactly when some key is rejected. The keys before the first rejected one are already assigned. Every column they name holds its new value, and every other column is unchanged |
| `Database.UpdateOneColumn` | 0x03-user_authentication_service/db.py:51-56 | a one-keyword update raises `NoResultFound` for an unknown id. It raises `ValueError` and changes nothing when the column holds the string "None". Otherwise it sets exactly that column of that row |
| `Database.DB.constructor` | 0x03-user_authentication_service/db.py:16-21 | a new store starts from an empty table |
| `Database.DB.AddUser` | 0x03-user_authentication_service/db.py:31-37 | appends exactly one row with the given email and hashed password, the next id, and no session or reset token. It returns that row and leaves existing rows unchanged |
| `Database.DB.FindUserBy` | 0x03-user_authentication_service/db.py:39-47 | returns the first row in store order matching every pair. It raises `InvalidRequestError` exactly for a non-column key and `NoResultFound` exactly when nothing matches |
| `Database.DB.UpdateUser` | 0x03-user_authentication_service/db.py:49-56 | the loop checks and assigns the keys to the fetched user one by one, and the user goes back into the table on either exit. The outcome and the new table are those of `Update`, so ids stay positions |
| `Authentication.HashPassword` | 0x03-user_authentication_service/auth.py:12-16 | the salted hash of a password checks against that password, given the bcrypt property `Sound` |
| `Authentication.Auth.constructor` | 0x03-user_authentication_service/auth.py:22-24 | a new service owns a fresh, empty store |
| `Authentication.Auth.RegisterUser` | 0x03-user_authentication_service/auth.py:26-34 | a known email raises `ValueError` and adds nothing. A new email adds exactly one row holding `_hash_password(password)` and returns it. Emails stay unique |
| `Authentication.Auth.ValidLogin` | 0x03-user_authentication_service/auth.py:36-44 | false when no row has the email. True only if some row with that email has a hash the password checks against. With unique emails, true exactly then |
| `Authentication.Auth.CreateSession` | 0x03-user_authentication_service/auth.py:50-58 | an unknown email returns `None` and changes nothing. A known email gets its `session_id` set to the fresh token, which is returned, and nothing else changes. A `session_id` holding the string "None" makes the update fail, and `None` is returned |
| `Authentication.Auth.GetUserFromSessionId` | 0x03-user_authentication_service/auth.py:60-66 | the first row whose session id equals the given one, or `None` exactly when no row has it. The comparison includes a missing token |
| `Authentication.Auth.GetUserFromSessionIdGuarded` | 0x03-user_authentication_service/auth.py:60-66 | corrected lookup: a missing token finds nobody. A user found is a stored row, the first in store order that holds exactly the token asked for, and nobody is found only when no row holds it |
| `Authentication.Auth.DestroySession` | 0x03-user_authentication_service/auth.py:68-75 | never fails. An existing id gets `session_id = None` and nothing else changes. An unknown id, or a session id holding the string "None", changes nothing |
| `Authentication.Auth.GetResetPasswordToken` | 0x03-user_authentication_service/auth.py:77-85 | an unknown email raises `ValueError` and changes nothing. A known email gets its `reset_token` set to the fresh token, which is returned, and its session id and all other rows are untouched. A `reset_token` holding the string "None" raises `ValueError` |
| `Authentication.LoginAfterRegister` | 0x03-user_authentication_service/auth.py:31-42 | a row holding an email and a hash of a password makes `valid_login` accept that password |
| `Authentication.SessionFindsItsHolder` | 0x03-user_authentication_service/auth.py:53-66 | a token held by exactly one row leads `get_user_from_session_id` back to that row |
| `Authentication.MissingTokenFindsSessionless` | 0x03-user_authentication_service/auth.py:60-66 | when some row has no session, a lookup with a missing token finds a row with no session |
| `Authentication.FreshSessionIsUnique` | 0x03-user_authentication_service/auth.py:54-55 | giving a row a token that no row holds keeps session ids unique |
| `Authentication.RegisterTwice` | 0x03-user_authentication_service/auth.py:26-34 | for any service state and any new email, registering it twice adds it once and then raises `ValueError`. Exactly one row then holds that email |
| `Authentication.CreateThenLookup` | 0x03-user_authentication_service/auth.py:50-66 | for any state and a token no row holds, `create_session` returns a token exactly when the email is known and its session id is not the string "None". `get_user_from_session_id` on that token then finds the user with that email. Unique session ids stay unique. An unknown email changes nothing |
| `Authentication.DestroyThenLookup` | 0x03-user_authentication_service/auth.py:60-75 | for any state with unique session ids, `destroy_session` on the holder of a token clears that user's session and changes nothing else. The token then finds nobody |
| `Authentication.DestroyedSessionIsGone` | 0x03-user_authentication_service/auth.py:72 | clearing the session of the token's holder keeps session ids unique, and no row holds the token any more |

## Findings

| source | as written | input that shows it | evidently intended | confidence | as-written member | corrected member |
|---|---|---|---|---|---|---|
| 0x03-user_authentication_service/auth.py:60-66 | `find_user_by(session_id=session_id)` with `session_id = None` becomes `session_id IS NULL`. It returns the first user who has no session | a request to `/profile` or `DELETE /sessions` with no `session_id` cookie, while some registered user is logged out: the lookup finds that user. `NoCookieScenario` shows this for a user who has logged in but holds no session | a missing token finds nobody, so the caller answers 403 | medium, not executed (relies on SQLAlchemy's `== None` to `IS NULL` rule) | `Authentication.MissingTokenFindsSessionless` | `Authentication.Auth.GetUserFromSessionIdGuarded` |

## Left out

- The SQLAlchemy engine, the memoized session, commits and the sqlite file
  (db.py:16-29) are left out: the table is the session's in-memory view.
  Rows are values, so a `User` returned earlier does not see later updates.
  The operations that re-read a stored attribute after an update do so from
  the table.
- bcrypt's hashing and `password.encode()` are left out: `hashpw` and `checkpw`
  are oracle functions. The salt's randomness is a `salt` parameter, so two
  hashes of one password need not differ in the model.
- `_generate_uuid` / `uuid4()` is left out: randomness is a `uuid` parameter.
  Freshness is a hypothesis of the session lemmas, not a guarantee.
- `Database.DB.UpdateUser`: requires distinct keys (Python keyword arguments
  cannot repeat). It also requires no `id` key, because changing a primary key
  re-keys the row, which the model does not capture. Each value must have its
  column's type. The service's own calls meet all three.
- `Users.FirstRejected`: the mapped instance also has attributes that are not
  columns, such as `metadata`, `__tablename__` and `registry`, which come from
  the declarative base. `update_user` (db.py:53-55) finds such a key with
  `getattr`, assigns it and returns normally. In the model such a key is
  rejected like any key naming no column. So `Database.Update` and
  `Database.DB.UpdateUser` raise `ValueError` where the source does not.
- `Database.DB.FindUserBy`: non-column attributes of the mapped class (methods,
  `metadata`) are treated as unknown keys. Value types are not coerced the way
  SQLite does (`id="1"` does not match id 1).
- The catch-all `except Exception` branches are left out except for the
  outcomes modelled here (`NoResultFound`, `InvalidRequestError`, `ValueError`).
  Arbitrary store failures do not exist in the model.
- `Authentication.Auth.ValidLogin`: email and password are strings. A `None`
  password from a missing form field, which would raise `AttributeError` in
  `password.encode()`, is not modelled.
- app.py (HTTP routing, cookies, status codes) and
  0x02-Session_authentication/api/v1/views/users.py (Flask routes whose
  handlers are mostly stubs) are HTTP glue and are left out.
- Concurrent requests are left out: the service has no locking.
