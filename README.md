# Login and registration for a small Flask application, in Dafny

This project models how the application decides a login attempt and how it
registers an account. It also models the account store those two flows read
and write.

- **Account record** (`UserModel`). A `User` object is what the application
  builds. It is a class, because `set_password` and the insert fill in its
  fields in place. The `users` table (`UserTable`) holds one `UserRow` value
  per committed account and the next primary key to assign. Its invariant is
  the schema's integrity: ids, usernames and emails are pairwise distinct.
  `FindBy` is `filter_by(...).first()` on the username or email column.
  `LoadUser` is the session layer's `load_user` lookup by primary key.
  `UserTable.Commit` is `add` + `commit`. It applies the column defaults and
  enforces the NOT NULL and UNIQUE constraints. It may also fail for reasons
  outside the model, and then it rolls back.
  `check_password` appears twice: `User.CheckPassword` on an object the
  application holds, and `UserRow.CheckPassword` on a stored row that login
  looks up. Both call `CheckPasswordHash`.
- **Password hashing** (`Passwords`). `generate_password_hash` and
  `check_password_hash` are a pair over a `PasswordHash(salt, key)` value.
  The salt is a parameter, because it stands for the library's randomness.
  The key comes from a fixed stand-in derivation, `DeriveKey`. The model
  relies only on the round trip: a hash verifies the password it was made
  from.
- **Identifier classification** (`EmailPattern`). `FullMatch` is the meaning
  of the login pattern `^[a-zA-Z0-9._%+-]+@[a-zA-Z0-9.-]+\.[a-zA-Z]{2,}$`. It
  says there is a split into local part, `@`, domain prefix, `.` and a
  top-level label of two or more letters. `IsEmailAddress` decides this
  from the last `.` and the first `@`. `MatchesEmailRegex` adds the behaviour
  of Python's `$`: a match may also end just before one trailing newline.
- **Routes** (`Auth`). `Login` is the POST branch of `login`. It is a pure
  function of the committed rows. Its outcome is one of `InvalidInput`,
  `InvalidCredentials`, `AccountDisabled` or `Authenticated(user)`; a
  database error during the lookup is left out (see below).
  `Register` is the POST branch of `register`, a method that changes the
  table. `SessionAfterLogin` and `Logout` model the session that `login_user`
  starts and `logout_user` ends.

Some behaviour follows from the code as written. An identifier that matches
the email pattern is looked up only by email. So an account whose username
looks like an email address cannot sign in with its username, unless its
email is that same string (`EmailShapedUsernameUnusable`). Registration does not check the email
against the pattern, so the model does not check it either.

## Model

| member | source | states |
|---|---|---|
| `Passwords.GeneratePasswordHash` | app/models/user.py:59 | the hash embeds the salt it was made with |
| `Passwords.HashRoundTrip` | app/models/user.py:59 | a hash verifies the password it was made from (the round trip set_password relies on) |
| `Passwords.SaltedHashesDiffer` | app/models/user.py:56-59 | hashes of one password under two different salts are different values, and both verify the password |
| `Passwords.CheckPasswordHash` | app/models/user.py:71 | a hash verifies a password exactly when it is that password's hash under the salt the hash embeds |
| `UserModel.UserRow.CheckPassword` | app/routes/auth.py:49 | check_password on a stored account: true exactly when the stored hash is the password's hash under its embedded salt |
| `UserModel.User.CheckPassword` | app/models/user.py:61-71 | check_password on an object whose hash is set: true exactly when that hash is the password's hash under its embedded salt; it only reads the object |
| `EmailPattern.IsEmailAddressCorrect` | app/routes/auth.py:40 | the decision from the last `.` and first `@` accepts exactly the strings with a split into non-empty `[A-Za-z0-9._%+-]` local part, `@`, non-empty `[A-Za-z0-9.-]` domain prefix, `.`, and 2+ ASCII letters |
| `EmailPattern.MatchesEmailRegex` | app/routes/auth.py:40-43 | `re.match` accepts the identifier iff the whole string matches the pattern, or the string ends in one newline and the rest matches |
| `EmailPattern.MatchHasOneAt` | app/routes/auth.py:40 | every string the pattern accepts holds exactly one `@`, not at the start |
| `EmailPattern.NoAtIsNotEmail` | app/routes/auth.py:43-46 | an identifier without `@` is never classified as an email, so it is looked up by username |
| `EmailPattern.TaggedAddressIsEmail` | app/routes/auth.py:40-44 | `a.b+tag@sub.example.co` is classified as an email |
| `EmailPattern.TagWithoutDomainIsNotEmail` | app/routes/auth.py:43-46 | `a.b+tag` is not classified as an email |
| `UserModel.FindBy` | app/routes/auth.py:44-46 | `filter_by(column=value).first()` returns a stored row holding that value in that column, and returns none only when no row holds it |
| `UserModel.LoadUser` | app/models/user.py:82-97 | load_user returns a stored row with that id, and none only when no row has that id |
| `UserModel.FindByUniqueKey` | app/models/user.py:35-38 | under the unique constraints, looking up a row's own username or email finds exactly that row |
| `UserModel.LoadUserFindsRow` | app/models/user.py:31 | under the primary-key constraint, load_user of a row's id returns that row |
| `UserModel.AppendKeepsWellFormed` | app/models/user.py:31-38 | inserting a row with a free username, a free email and the next id keeps ids, usernames and emails unique |
| `UserModel.User.constructor` | app/models/user.py:44-47 | a new object has the given username and email; its id, hash, creation time and active flag are unset until set_password and the insert |
| `UserModel.User.SetPassword` | app/models/user.py:49-59 | set_password changes only the hash, to the hash of the password, and afterwards check_password of that password is true |
| `UserModel.UserTable.Commit` | app/routes/auth.py:131-140 | the insert succeeds iff the commit does not fail, the hash is set, and username and email are free; on success exactly one row is appended, with the next id, `created_at` = now and `is_active` defaulting to true; on failure table and object are unchanged; the invariant is kept |
| `Auth.Login` | app/routes/auth.py:28-64 | a missing field gives InvalidInput whatever the table holds; Authenticated only for a stored, active account that the identifier names (by email iff it matches the pattern) and whose password checks; AccountDisabled only when such an account is inactive and its password checks |
| `Auth.NoAccountOrWrongPassword` | app/routes/auth.py:49-64 | an unknown identifier and a known one with a wrong password give the same InvalidCredentials outcome |
| `Auth.InvalidCredentialsExactly` | app/routes/auth.py:43-64 | under the unique constraints, InvalidCredentials iff both fields are filled and no account the identifier names accepts the password |
| `Auth.DisabledOnlyAfterPassword` | app/routes/auth.py:49-62 | under the unique constraints, AccountDisabled iff the named account accepts the password and is inactive: disabled state is disclosed only after a correct password |
| `Auth.AuthenticatesExactly` | app/routes/auth.py:43-54 | under the unique constraints, login authenticates an account iff both fields are filled, the identifier names it, its password checks and it is active |
| `Auth.EmailShapedUsernameUnusable` | app/routes/auth.py:43-46 | an account whose username matches the email pattern (and differs from its email) never signs in with that username |
| `Auth.StoredAccountSignsIn` | app/routes/auth.py:43-54 | an active stored account signs in with its correct password by username (when that is not email-shaped) and by email (when that is) |
| `Auth.SessionAfterLogin` | app/routes/auth.py:51-54 | only a successful login changes the session |
| `Auth.SignedInSessionLoadsAccount` | app/routes/auth.py:54 | after a successful login the session is signed in with the remember flag passed through, and load_user of its id returns the account that signed in |
| `Auth.Logout` | app/routes/auth.py:69-82 | after logout no account is signed in; the table is not touched |
| `Auth.Register` | app/routes/auth.py:98-141 | rejections in order: missing field, password mismatch, username taken, email taken, then commit failure; each leaves the table unchanged; success appends exactly one active row with the given username and email, the next id (and advances the next id by one), and a hash that verifies the password; the table invariant is kept |
| `Auth.AliceIdentifiersClassified` | app/routes/auth.py:40-46 | `alice@example.com` is classified as an email and `alice` as a username |
| `Auth.AliceSignsIn` | app/routes/auth.py:84-144 | registering alice succeeds; registering her username again gives UsernameTaken; she then signs in by username and by email |

## Left out

- Flask plumbing: templates, flash messages, redirects, the `next` parameter, blueprint routing and the GET branches. These are presentation only.
- Flask-Login internals (`login_user`, `logout_user`, `login_required`, `UserMixin`). They appear only as the values of `Session`.
- The PBKDF2-SHA256 derivation, its iteration count, the encoded hash string and constant-time comparison. `DeriveKey` is a stand-in.
- Passwords.CheckPasswordHash: the model does not state that a different password fails to verify. That holds only with overwhelming probability for the real derivation. It cannot be proved of a bounded-key stand-in such as `DeriveKey`; an injective stand-in would prove it but would claim more than a fixed-width PBKDF2 digest guarantees. Every login property therefore holds relative to `CheckPassword`. For the same reason `Auth.AliceSignsIn` does not show that a wrong password is refused; `Auth.NoAccountOrWrongPassword` covers that case for any password that does not check.
- Randomness of the salt. The salt is a parameter of `SetPassword` and `Register`.
- Why a commit raises (database errors). This is the `failure`/`commitFails` parameter.
- A database error in the lookups of login and register (app/routes/auth.py:44-46, 116-121) is not caught by the application and ends the request. The model's lookups cannot fail, so `Login` always returns one of its four outcomes.
- The check-then-insert race between the lookups and the commit. The model is sequential. `Commit` still enforces the unique constraints itself.
- `datetime.utcnow` is the `now` parameter. The `String(80)`/`String(120)`/`String(255)` lengths are not checked by the application; a database that enforces them makes the commit raise, which is the `commitFails` case.
- `int(user_id)` raising on non-numeric text. `LoadUser` takes an integer id.
- Machine-width limits on the integer primary key.
- The row that `first()` picks when several match. Without ORDER BY the database picks; the model takes the first in insertion order. Under the unique constraints at most one row matches.
- `run.py` only starts the development server, so it is not part of this model.
- Error outcomes: the code reports every commit exception through one message. So there is a single `CommitFailed` outcome, not separate "store unavailable" and "registration conflict" outcomes.
