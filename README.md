# User-data authentication exercises, modelled in Dafny

This project models the core of a set of back-end exercises on handling
user data, in four parts:

- **User authentication service** (`0x03`). `DB` is the users table
  behind an ORM session: `add_user`, `find_user_by` and `update_user`.
  `Auth` sits on top of it: registration, the login check, sessions held
  in the table, and single-use password-reset tokens.
  Files: `user_db.dfy`, `user_auth.dfy`, `passwords.dfy`.
- **Session authentication** (`0x02`). `SessionAuth` keeps one in-memory
  map, `user_id_by_session_id`, shared by every instance.
  `create_session` writes it keyed by user id, while the lookup
  (`user_id_for_session_id`) and `destroy_session` read it by session id.
  File: `session_auth.dfy`.
- **Basic authentication** (`0x01`). The base `Auth` class decides which
  request paths need authentication (`require_auth`) and reads the
  Authorization header.
  File: `basic_auth.dfy`.
- **PII redaction** (`0x00`). `filter_datum` hides the values of
  sensitive fields in a `key=value;` log line, using one `re.sub` per
  field. `RedactingFormatter` applies it to every record of the
  `user_data` logger.
  File: `filtered_logger.dfy`.

`wrappers.dfy` holds the `Option` and `Result` types that model Python's
None and raised exceptions. `strings.dfy` holds the prefix and suffix tests
shared by the path rules of `0x01` and the field matching of `0x00`.

How the state is modelled:

- The users table is a `DB` object. Its `users` field maps a row key to
  the row's record, and `nextRow` is the key the next row gets.
- A new row's `id` is chosen as SQLite chooses it: one more than the
  largest integer id in the table, even a negative one, or 1 if no row has
  an integer id. It is not
  a counter, so rewriting an id with `update_user` changes what the next
  row gets.
- The row key stands for the identity of the ORM object `find_user_by`
  returns. Column values are dynamically typed (`Value`), as keyword
  arguments are in Python.
- `Auth` keeps an invariant, `WellFormed`, on that table:
  - every row is well typed;
  - its `id` equals its key;
  - an email, a session id or a reset token identifies at most one user.
- The shared session map of `0x02` is a `SessionTable` object that the
  `SessionAuth` objects hold.
- `filter_datum` is specified by a function that scans the message the
  way Python's regular-expression engine does for `field=.*?separator`:
  leftmost match first, shortest run of non-newline characters.
  It is proved to hide exactly the values whose key ends with a listed
  field, on any line of `key=value;` pairs, under two conditions. Keys,
  values, fields and the redaction must hold no separator, `=` or newline.
  Without them a later field can match inside an earlier field's
  redaction.

Where the code does something its names or docstrings do not suggest,
the model follows the code:

- `Auth.destroy_session` with an id no user has lets `update_user`'s
  NoResultFound propagate; it is not a silent no-op.
- The `0x02` `create_session` files the new session id under the user
  id. `CreateSession` keeps that. The consequence, and the intended
  keying, are under "## Findings".
- `update_user` sets the attributes one by one and raises ValueError at
  the first name `User` does not have. The attributes set before it stay
  set, because nothing rolls them back.
- `update_password(None, ...)` filters on `reset_token IS NULL`. With
  exactly one user without a pending reset token, it changes that user's
  password.

## Model

| member | source | states |
|---|---|---|
| `Passwords.HashPassword` | 0x03-user_authentication_service/auth.py:15-24 | a fresh hash records the salt it was made with, and checks against the password it hashes |
| `Passwords.CheckPassword` | 0x03-user_authentication_service/auth.py:76 | `bcrypt.checkpw`: the password checks against a hash exactly when the hash is an image of that password |
| `Passwords.CheckRejectsOtherPassword` | 0x03-user_authentication_service/auth.py:74-76 | `checkpw` with any other password fails against a hash (an idealised, collision-free hash) |
| `UserDb.ColumnNamed` | 0x03-user_authentication_service/db.py:76 | `hasattr(user, key)`: a name denotes a column exactly when it is that column's name, and no column otherwise |
| `UserDb.ColumnNameRoundTrip` | 0x03-user_authentication_service/db.py:76-77 | every column's name denotes that column |
| `UserDb.Set` | 0x03-user_authentication_service/db.py:77 | `setattr` changes the one named column to the value, and no other |
| `UserDb.FindSpec` | 0x03-user_authentication_service/db.py:56-62 | `filter_by(**kws).one()`: InvalidRequestError exactly when a name is not a column; NoResultFound exactly when no row matches; MultipleResultsFound only when two rows match; otherwise the one matching row |
| `UserDb.ApplyChangesSetsNamedColumns` | 0x03-user_authentication_service/db.py:75-77 | with valid names, `update_user` raises nothing; each named column takes the value of the last keyword naming it, and every column no keyword names keeps its value |
| `UserDb.ApplyChangesStopsAtUnknownName` | 0x03-user_authentication_service/db.py:75-79 | the first unknown name raises ValueError, after the keywords before it were applied |
| `UserDb.DB.constructor` | 0x03-user_authentication_service/db.py:17-21 | the tables are dropped and recreated: the table starts empty |
| `UserDb.DB.NextId` | 0x03-user_authentication_service/db.py:40-42 | the id SQLite assigns on insert: above every integer id in the table, and one more than an id some row has, or 1 when no row has an integer id |
| `UserDb.NextIdUnique` | 0x03-user_authentication_service/db.py:40-42 | that id is determined by the table |
| `UserDb.OneRowNextId` | 0x03-user_authentication_service/db.py:40-42 | after a single row with integer id `i`, negative or not, the next id is `i + 1` |
| `UserDb.DB.AddUser` | 0x03-user_authentication_service/db.py:40-43 | inserts one row with the id SQLite assigns, the email, the hash and NULL tokens, keeps every other row, and returns the row |
| `UserDb.RenumberedIdScenario` | 0x03-user_authentication_service/db.py:40-43 | after the first user's id is rewritten to 2, the next user gets id 3, not a second 2 |
| `UserDb.Matches` | 0x03-user_authentication_service/db.py:58 | `filter_by(**kws)` keeps a record exactly when every keyword's column holds the keyword's value |
| `UserDb.ApplyChanges` | 0x03-user_authentication_service/db.py:75-79 | the `setattr` loop over the keywords in order, stopping with ValueError at the first name that is not a column; its properties are the two lemmas below |
| `UserDb.DB.FindUserBy` | 0x03-user_authentication_service/db.py:56-62 | returns exactly what `FindSpec` describes, exceptions included |
| `UserDb.DB.UpdateUser` | 0x03-user_authentication_service/db.py:74-80 | the lookup by id and its exceptions; then only the found row changes, as the ordered `setattr` loop leaves it, and ValueError is raised at an unknown name |
| `UserAuth.FindByUniqueColumn` | 0x03-user_authentication_service/db.py:56-62 | a lookup on a column with unique non-NULL values finds the holder of the value, raises NoResultFound exactly when no row holds it, and raises nothing else |
| `UserAuth.NextIdIsNextRow` | 0x03-user_authentication_service/db.py:40-43 | in a table the service keeps, the id SQLite assigns equals the next row key |
| `UserAuth.FindById` | 0x03-user_authentication_service/auth.py:91 | in a well-formed table, `find_user_by(id=user.id)` finds that user's own row |
| `UserAuth.FindByMissingId` | 0x03-user_authentication_service/auth.py:117-119 | an id no row has makes the lookup raise NoResultFound |
| `UserAuth.AddKeepsWellFormed` | 0x03-user_authentication_service/auth.py:53-58 | registering a new email keeps emails unique and every row well typed |
| `UserAuth.NewSessionReplacesOld` | 0x03-user_authentication_service/auth.py:85-92 | a new session id keeps the table well formed and finds the user, and the user's previous session id finds no one |
| `UserAuth.ClearedSessionIsGone` | 0x03-user_authentication_service/auth.py:117-119 | clearing a session keeps the table well formed, and the cleared session id finds no one |
| `UserAuth.NewResetTokenFindsUser` | 0x03-user_authentication_service/auth.py:130-139 | a new reset token keeps the table well formed and finds the user it was issued to |
| `UserAuth.ConsumeKeepsWellFormed` | 0x03-user_authentication_service/auth.py:158-162 | one update that sets the new hash and clears the reset token keeps the table well formed |
| `UserAuth.ConsumedTokenIsGone` | 0x03-user_authentication_service/auth.py:151-162 | once consumed, a reset token finds no one, so using it again raises ValueError |
| `UserAuth.NewPasswordLogsIn` | 0x03-user_authentication_service/auth.py:158-162 | after a password change, the new password logs the user in and every other password is refused |
| `UserAuth.LoginValid` | 0x03-user_authentication_service/auth.py:69-76 | what `valid_login` decides: some user has the email and the password checks against that user's stored hash |
| `UserAuth.LoginChecksStoredHash` | 0x03-user_authentication_service/auth.py:69-76 | for a registered email, the login is decided by the stored hash alone |
| `UserAuth.Auth.constructor` | 0x03-user_authentication_service/auth.py:39-41 | a new service owns a fresh, empty, well-formed table |
| `UserAuth.Auth.RegisterUser` | 0x03-user_authentication_service/auth.py:53-59 | a taken email raises ValueError("User <email> already exists") and changes nothing; otherwise it adds exactly one user, with the email, a hash of the password and no tokens, and returns it; the table stays well formed |
| `UserAuth.Auth.ValidLogin` | 0x03-user_authentication_service/auth.py:69-76 | true exactly when some user has the email and the password checks against that user's hash; false for an unknown email |
| `UserAuth.Auth.CreateSession` | 0x03-user_authentication_service/auth.py:85-92 | None and no change for an unknown email; otherwise the user's session id becomes the new token and is returned, and no other row or column changes |
| `UserAuth.Auth.GetUserFromSessionId` | 0x03-user_authentication_service/auth.py:101-108 | None for None or for an id no user holds; otherwise the user holding it |
| `UserAuth.Auth.DestroySession` | 0x03-user_authentication_service/auth.py:117-119 | nothing for None; NoResultFound and no change for an unknown id; otherwise that user's session id becomes NULL and nothing else changes |
| `UserAuth.Auth.GetResetPasswordToken` | 0x03-user_authentication_service/auth.py:130-139 | ValueError("User not found") and no change for an unknown email; otherwise the token becomes that user's reset token and is returned |
| `UserAuth.Auth.Consume` | 0x03-user_authentication_service/auth.py:158-162 | the found row is looked up by its id, and one update sets its hash and NULLs its reset token; nothing is raised, no other row changes, and the table stays well formed |
| `UserAuth.Auth.UpdatePassword` | 0x03-user_authentication_service/auth.py:151-162 | an unknown token raises ValueError("Invalid reset token") and changes nothing; otherwise one update sets the holder's hash to a hash of the new password and its token to NULL; a None token filters on NULL |
| `UserAuth.LoginScenario` | 0x03-user_authentication_service/main.py:79-85 | register; a duplicate is refused; a wrong password fails and the right one succeeds; no profile without a session; the session finds the user until logout |
| `UserAuth.ResetScenario` | 0x03-user_authentication_service/main.py:86-88 | after a reset, the new password logs in, the old one does not, and reusing the token raises ValueError |
| `SessionAuthentication.SessionTable.constructor` | 0x02-Session_authentication/api/v1/auth/session_auth.py:14 | the class-level map starts empty |
| `SessionAuthentication.SessionAuth.constructor` | 0x02-Session_authentication/api/v1/auth/session_auth.py:14 | every instance works on the one shared map |
| `SessionAuthentication.SessionAuth.CreateSession` | 0x02-Session_authentication/api/v1/auth/session_auth.py:24-28 | None and no change unless the user id is a string; otherwise the map gains the session id under the user id, no other entry changes, and the session id is returned |
| `SessionAuthentication.SessionAuth.UserIdForSessionId` | 0x02-Session_authentication/api/v1/auth/session_auth.py:38-40 | None for None, an empty string or a non-string; otherwise the value stored under that key, or None |
| `SessionAuthentication.SessionAuth.DestroySession` | 0x02-Session_authentication/api/v1/auth/session_auth.py:65-74 | True exactly when there is a request with a non-empty cookie whose key holds a non-empty value; then that one entry is deleted; otherwise nothing changes |
| `SessionAuthentication.SessionAuth.CreateSessionBySessionId` | 0x02-Session_authentication/api/v1/auth/session_auth.py:24-28 | the intended keying: the user id is stored under the new session id, and nothing else changes |
| `SessionAuthentication.LoginLogoutScenario` | 0x02-Session_authentication/api/v1/views/session_auth.py:30-32 | as written, the returned session id finds no user, the user id finds the session id, and logout with the cookie fails |
| `SessionAuthentication.SessionRoundTrip` | 0x02-Session_authentication/api/v1/views/session_auth.py:42-45 | with the intended keying, on any table: the cookie finds the user, logout succeeds and removes only that session, then the cookie finds no one |
| `SessionAuthentication.SharedTableScenario` | 0x02-Session_authentication/api/v1/auth/session_auth.py:14 | a session created through one instance is seen and destroyed through another; a second destroy fails |
| `BasicAuth.EntryExcludes` | 0x01-Basic_authentication/api/v1/auth/auth.py:25-32 | one pass of the loop: the entry starts with the path, the path starts with the entry, or the entry ends in `*` and the path starts with the rest |
| `BasicAuth.AnyExcludes` | 0x01-Basic_authentication/api/v1/auth/auth.py:25-32 | the loop: the entries tried in order until one excludes the path |
| `BasicAuth.RequireAuth` | 0x01-Basic_authentication/api/v1/auth/auth.py:18-33 | `require_auth`: True for a None path or a None or empty list; False for a path in the list; otherwise False exactly when the loop finds an excluding entry |
| `BasicAuth.AnyExcludesIff` | 0x01-Basic_authentication/api/v1/auth/auth.py:25-33 | the loop returns False exactly when some entry excludes the path |
| `BasicAuth.RequireAuthIff` | 0x01-Basic_authentication/api/v1/auth/auth.py:18-33 | with a path and a non-empty list, authentication is required exactly when no entry excludes the path by any of the three rules |
| `BasicAuth.RequireAuthByDefault` | 0x01-Basic_authentication/api/v1/auth/auth.py:18-21 | a None path, a None list or an empty list requires authentication |
| `BasicAuth.SlashTolerant` | 0x01-Basic_authentication/api/v1/auth/auth.py:22-29 | an entry `p/` excludes both `p` and `p/` |
| `BasicAuth.WildcardExcludes` | 0x01-Basic_authentication/api/v1/auth/auth.py:30-32 | an entry ending in `*` excludes every path that starts with the entry minus the star |
| `BasicAuth.PrefixOfEntryExcluded` | 0x01-Basic_authentication/api/v1/auth/auth.py:26-27 | any prefix of an excluded entry, however short, needs no authentication |
| `BasicAuth.AuthorizationHeader` | 0x01-Basic_authentication/api/v1/auth/auth.py:35-41 | None exactly when there is no request or no non-empty Authorization header; otherwise the header's value |
| `BasicAuth.CurrentUser` | 0x01-Basic_authentication/api/v1/auth/auth.py:43-45 | the base class knows no user |
| `FilteredLogger.LazyRun` | 0x00-personal_data/filtered_logger.py:49 | `.*?` then the separator: the first separator with no newline before it, and none when a newline comes first |
| `FilteredLogger.MatchAt` | 0x00-personal_data/filtered_logger.py:48-51 | an attempt of the pattern at one position: `field=` then the lazy run to the separator; a match starts with `field=` and lies inside the message |
| `FilteredLogger.RedactField` | 0x00-personal_data/filtered_logger.py:49-50 | one `re.sub`: scan left to right, replace each match with `field=`, the redaction and the separator, resume after it, otherwise keep one character |
| `FilteredLogger.FilterSpec` | 0x00-personal_data/filtered_logger.py:48-51 | `filter_datum`: the fields' substitutions, each applied to the result of the previous one, in list order |
| `FilteredLogger.FilterDatum` | 0x00-personal_data/filtered_logger.py:48-51 | the loop's result is the fields' substitutions applied in list order; no fields, no change |
| `FilteredLogger.FilterSpecAppend` | 0x00-personal_data/filtered_logger.py:48-50 | fields are applied one after another, each to the previous result |
| `FilteredLogger.KeepsUnmatchedPrefix` | 0x00-personal_data/filtered_logger.py:49-50 | text before the first match is copied unchanged |
| `FilteredLogger.NoSeparatorUnchanged` | 0x00-personal_data/filtered_logger.py:49-50 | a message without the separator is left unchanged |
| `FilteredLogger.NoFieldUnchanged` | 0x00-personal_data/filtered_logger.py:49-50 | a message without `field=` is left unchanged |
| `FilteredLogger.RedactFieldOnPairs` | 0x00-personal_data/filtered_logger.py:49-50 | on plain `key=value;` pairs, with a field free of the separator, `=` and newline, one field's substitution replaces exactly the values whose key ends with the field, and keeps keys, separators and other values |
| `FilteredLogger.RedactPairsCompose` | 0x00-personal_data/filtered_logger.py:48 | redacting for one field, then for the rest, is redacting for all of them |
| `FilteredLogger.FilterOnPairs` | 0x00-personal_data/filtered_logger.py:48-51 | on plain `key=value;` pairs, with every field and the redaction free of the separator, `=` and newline, the whole filter hides exactly the values whose key ends with a listed field |
| `FilteredLogger.PiiKeys` | 0x00-personal_data/filtered_logger.py:13 | the logger's fields catch exactly the keys ending in name, email, phone, ssn or password |
| `FilteredLogger.RedactingFormatter.Format` | 0x00-personal_data/filtered_logger.py:27-32 | the formatted record filtered with `***` and `;`; on a line of plain pairs, with fields free of `;`, `=` and newline, exactly the caught values are hidden |
| `FilteredLogger.PasswordExample` | 0x00-personal_data/filtered_logger.py:48-51 | with field `password`, `name=X;password=Y;` becomes `name=X;password=***;` for any plain X and Y |
| `FilteredLogger.LongerKeyExample` | 0x00-personal_data/filtered_logger.py:49-50 | field `name` also hides the value of key `username` |

## Findings

| source | as written | input that shows it | evidently intended | confidence | as-written member | corrected member |
|---|---|---|---|---|---|---|
| 0x02-Session_authentication/api/v1/auth/session_auth.py:27 | `create_session` stores the session id under the user id, but `user_id_for_session_id` and `destroy_session` look up the session id | user id `u`, session id `s` (different, `u` non-empty): the lookup of `s` gives None, and logout with cookie `s` returns False | store the user id under the session id, as the map's name `user_id_by_session_id` says | high; not executed | `SessionAuthentication.LoginLogoutScenario` | `SessionAuthentication.SessionRoundTrip` |

## Left out

- bcrypt is an idealised oracle: a hash is the salt plus an image of the password, with no collisions. The salt from `bcrypt.gensalt()` is a parameter. Real bcrypt uses only the first 72 bytes of the encoded password, so two passwords that agree on those bytes check alike.
- Passwords.CheckRejectsOtherPassword: holds for the idealised hash only. With bcrypt it fails for a password that shares the first 72 bytes.
- UserAuth.NewPasswordLogsIn: the half "every other password is refused" holds for the idealised hash only, for the same reason.
- UserAuth.ResetScenario: that the old password is refused after the reset holds for the idealised hash only, for the same reason.
- UserDb.DB.AddUser: ids that are not integers are ignored when choosing the next id; SQLite would refuse to store them in the INTEGER PRIMARY KEY, and `update_user` does not check them. The largest-id case, where SQLite picks a random unused id, is not modelled, because integers here are unbounded.
- `_generate_uuid` is not modelled. The uuid is a parameter, and where uniqueness matters it is required to be unused.
- UserAuth.Auth.CreateSession: the new session id must not be held by any user, standing in for the uniqueness of a random uuid4.
- UserAuth.Auth.GetResetPasswordToken: the new reset token must not be held by any user, for the same reason.
- SQLAlchemy, the engine, the session and SQLite are not modelled:
  - the table is a map;
  - commit, autoflush and the `IntegrityError` a commit could raise are not modelled;
  - the session's identity map becomes the row key.
- The `User` class in user.py is not part of this model. Its mapped columns are taken to be `id`, `email`, `hashed_password`, `session_id` and `reset_token`. Any other name counts as unknown, including Python attributes that are not columns.
- `Auth` methods are modelled only on a well-formed table (`Auth.Valid`). A table with duplicate emails or tokens would make them raise MultipleResultsFound, and that is not modelled.
- The Flask application, the routes, the HTTP status codes, the CORS set-up and `before_request` are not modelled.
- `SessionAuth.current_user` is not modelled: it needs the `User` model of the `0x02` API, which is not part of this model.
- `SessionAuth.current_user` is annotated `-> TypeVar('User')`, but session_auth.py never imports `TypeVar` (0x02-Session_authentication/api/v1/auth/session_auth.py:42). Before Python 3.14, annotations are evaluated when the method is defined. Defining `SessionAuth` therefore raises NameError, and the import of `SessionAuth` in app.py fails. The model describes the class as if that import succeeded.
- `session_cookie` (the base class of `0x02`) is not modelled: a request is reduced to the value of its session cookie.
- Request headers are a map with the canonical spelling of `Authorization`; case-insensitive header lookup is not modelled.
- FilteredLogger.FilterDatum: field names and the separator are taken literally. Regular-expression metacharacters in them, and backslash escapes in the replacement, are not modelled.
- `logging.Formatter.format` (building the line from the record and `FORMAT`) is not modelled. `Format` takes the line it produced as its input.
- `get_logger`, `get_db` and `main` do only I/O and configuration (logger handlers, environment variables, MySQL) and are not modelled.
- Concurrency is not modelled. Every operation runs to completion before the next one starts.
