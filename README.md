# User backend core, modelled in Dafny

A model of the core of a small user-management backend (FastAPI +
SQLAlchemy, Python). It covers these parts:

- **User use-cases** (`UserService`). Create, update and delete run against a user
  repository. The look-ups pass through unchanged.
- **User repository** (`UserRepositoryInterface` and its SQL implementation).
  Here it is a class holding a map from id to the stored row. Every read builds a
  fresh `User` entity from the stored row.
- **The `User` entity.** Seven fields, an optional `auth_id`, and the domain rule
  `change_email`, which stores `new_email.strip().lower()`.
- **Credential predicates** (`SecurityUtils`). These are the password-strength rule,
  `secure_compare`, and the shape of a recovery code.
- **Table names** (`ORMBase.__tablename__`). The regex substitution
  `(?<!^)(?=[A-Z])` → `_` is followed by `.lower()`.
- **Settings** (`Settings`). These are the field defaults and the two database URLs,
  built by plain concatenation.
- **The engine URL** (`app/db/base.py`). The URL is rewritten to the asyncpg scheme
  unless it already uses it.

Layout, one module per file:

| file | module | models |
|---|---|---|
| `wrappers.dfy` | `Wrappers` | `Option`, and `Result` with the exception kind raised (`ValueError`, `TypeError`) |
| `text.dfy` | `Text` | the Python `str` operations the core relies on: `isspace`, `strip`, ASCII `lower`, `startswith`, `in`, `replace` |
| `domain_user.dfy` | `Domain` | `User` (a class: the service changes its fields in place), `UserRow` (its value), `NormalizeEmail` |
| `user_repository.dfy` | `Repository` | `UserRepository`, a class over `map<Uuid, UserRow>` |
| `user_service.dfy` | `Service` | pure step functions for each use-case, lemmas about them, and `UserService`, whose methods are proved to follow the steps |
| `security.dfy` | `Security` | `is_password_strong`, `hmac.compare_digest` / `secure_compare`, `generate_recovery_code` |
| `model_base.dfy` | `ModelBase` | `__tablename__` |
| `settings.dfy` | `Config` | `Settings`, `database_url`, `database_url_sync`, `str(int)` for the port |
| `db_base.dfy` | `DbBase` | the scheme rewrite of `app/db/base.py` |

Each state-changing use-case of the service has a ghost step function. The step
maps the stored rows and the request to the new rows and the result. The result
is either the value returned or the `ValueError` raised, with its message.
Examples are `CreateUserStep`, `UpdateUserStep` and `DeleteUserStep`. The method
of `UserService` is proved to produce exactly that step. The lemmas next to the
steps state what the use-case promises: rejections leave the store unchanged,
the field rules hold, and email uniqueness is kept or broken.

Inputs the code draws from outside are parameters of the model:

- The `uuid4()` of `create_user` is `newId`, with the precondition that no
  stored user has it.
- The ten `secrets.choice` picks of `generate_recovery_code` are `draws`, the
  indices of the picked symbols in the alphabet.

## Model

| member | source | states |
|---|---|---|
| Domain.User.constructor | app/modules/users/domain/user.py:7-15 | the entity holds exactly the seven given fields; `auth_id` is absent when omitted |
| Domain.NewUserWithoutAuthId | app/modules/users/domain/user.py:15 | a `User` built without `auth_id` has none |
| Domain.NormalizeEmail | app/modules/users/domain/user.py:20 | `strip().lower()`: the result has no upper-case letter and no whitespace at either end, and it is the lowered interior of the input between two whitespace runs |
| Domain.NormalizeEmailIdempotent | app/modules/users/domain/user.py:20 | normalising twice equals normalising once: `change_email` with an address that is already normalised, such as the stored one, leaves the email as it is |
| Domain.User.ChangeEmail | app/modules/users/domain/user.py:18-20 | only `email` changes, and it becomes the normalised new address; the other six fields stay |
| Text.Strip | app/modules/users/domain/user.py:20 | `str.strip()`: the result is the input with maximal whitespace runs removed from both ends, with no whitespace left at either end |
| Text.Lower | app/modules/users/domain/user.py:20 | `str.lower()` on ASCII letters: same length, each `A`-`Z` becomes the letter 32 code points later, every other character is kept, and no upper-case letter is left |
| Text.ReplaceAll | app/db/base.py:12 | definition: `str.replace`, a left-to-right scan replacing non-overlapping occurrences; a text that starts with the pattern ends up starting with the replacement |
| Text.ReplaceAllAbsent | app/db/base.py:12 | `str.replace` leaves a string without the pattern unchanged |
| Repository.UserRepository.constructor | app/modules/users/infrastructure/repository.py:37-38 | the repository starts as an empty store whose rows are keyed by their ids |
| Repository.UserRepository.GetById | app/modules/users/interfaces/user_repository.py:15-18 | none exactly when no row has the id; otherwise a fresh entity equal to the stored row (the SQL implementation at infrastructure/repository.py:41-46) |
| Repository.UserRepository.GetByEmail | app/modules/users/interfaces/user_repository.py:20-23 | none exactly when no stored email equals the argument; otherwise a fresh entity for a stored row with exactly that email (infrastructure/repository.py:48-53) |
| Repository.UserRepository.GetByAuthId | app/modules/users/interfaces/user_repository.py:25-28 | none exactly when no row has that `auth_id`; otherwise a fresh entity for a row that has it (infrastructure/repository.py:55-60) |
| Repository.UserRepository.Create | app/modules/users/interfaces/user_repository.py:30-33 | the row is stored under the user's id, no other row changes, and the returned entity has all seven fields of the input (infrastructure/repository.py:63-68) |
| Repository.UserRepository.Update | app/modules/users/interfaces/user_repository.py:35-38 | the row with the user's id is overwritten and read back; other rows stay; with no such row nothing is written and none is returned (infrastructure/repository.py:70-77) |
| Repository.UserRepository.Delete | app/modules/users/interfaces/user_repository.py:40-43 | the row with that id is removed, nothing else changes, and the result is true exactly when a row was removed (infrastructure/repository.py:79-84) |
| Repository.UserRepository.FindAll | app/modules/users/infrastructure/repository.py:87-97 | the filtered listing: one fresh entity per stored row that passes the filter, no row twice, no other row, each equal to its stored row |
| Repository.UserRepository.GetUsersByRole | app/modules/users/interfaces/user_repository.py:45-48 | exactly the stored users with that role, each once |
| Repository.UserRepository.GetUsersByArea | app/modules/users/interfaces/user_repository.py:50-53 | exactly the stored users in that area, each once |
| Service.CreateUserStep | app/modules/users/application/user_service.py:35-55 | definition of `create_user` on the stored rows: a `ValueError` leaves the rows unchanged; success adds exactly the returned row, under the fresh id |
| Service.UpdateUserStep | app/modules/users/application/user_service.py:57-83 | definition of `update_user` as written: a `ValueError` leaves the rows unchanged; success replaces exactly that user's row by the returned one, keeping its id and auth id |
| Service.UpdateUserStepChecked | app/modules/users/application/user_service.py:66-71 | the corrected `update_user`, checking the normalised address; same transaction shape as `UpdateUserStep` |
| Service.DeleteUserStep | app/modules/users/application/user_service.py:85-92 | definition of `delete_user`: a `ValueError` leaves the rows unchanged; success removes exactly that user |
| Service.CreateUserRejectsDuplicate | app/modules/users/application/user_service.py:39-42 | if some stored user has exactly the email, the result is `ValueError("Ya existe un usuario con este email")` and the store is unchanged |
| Service.CreateUserStoresRequest | app/modules/users/application/user_service.py:36-55 | otherwise exactly one user is added, under the fresh id, with the request's names, lastnames, email (not normalised), role, area and auth id; that user is returned and no other user changes |
| Service.CreateUserKeepsEmailsUnique | app/modules/users/application/user_service.py:39-55 | create checks the same address it stores, so a store with unique emails keeps them unique |
| Service.UpdateUserRejectsMissing | app/modules/users/application/user_service.py:60-63 | an unknown id gives `ValueError("El usuario no existe")` and the store is unchanged |
| Service.UpdateUserRejectsEmailInUse | app/modules/users/application/user_service.py:66-70 | a non-empty new email, different from the current one and held exactly by another user, gives `ValueError("El email ya está en uso por otro usuario")` and the store is unchanged |
| Service.UpdateUserFieldRules | app/modules/users/application/user_service.py:71-83 | when the update goes through, a changed email is stored normalised; names and lastnames are replaced only by non-empty values; role and area are always replaced; id and auth id stay; no other user changes; the updated user is returned |
| Service.UpdateUserBreaksEmailsUnique | app/modules/users/application/user_service.py:66-71 | a store with unique emails where update produces two users with the same email (see Findings) |
| Service.UpdateUserCheckedKeepsEmailsUnique | app/modules/users/application/user_service.py:66-71 | with the duplicate check done on the normalised address, update keeps emails unique |
| Service.DeleteUserRemovesExactlyOne | app/modules/users/application/user_service.py:85-92 | an unknown id gives `ValueError("El usuario no existe")` and the store is unchanged; otherwise exactly that user is removed and the result is true |
| Service.DeleteUserKeepsEmailsUnique | app/modules/users/application/user_service.py:85-92 | delete keeps emails unique |
| Service.UserService.constructor | app/modules/users/application/user_service.py:18-19 | the service uses the repository it is given |
| Service.UserService.GetUserById | app/modules/users/application/user_service.py:22-24 | the repository's answer by id |
| Service.UserService.GetUserByEmail | app/modules/users/application/user_service.py:26-28 | the repository's answer by exact email |
| Service.UserService.GetUserByAuthId | app/modules/users/application/user_service.py:30-32 | the repository's answer by auth id |
| Service.UserService.CreateUser | app/modules/users/application/user_service.py:35-55 | the new store and the result are those of `CreateUserStep`; a created user is a fresh entity |
| Service.UserService.UpdateUser | app/modules/users/application/user_service.py:57-83 | the new store and the result are those of `UpdateUserStep`, the code as written |
| Service.UserService.DeleteUser | app/modules/users/application/user_service.py:85-92 | the new store and the result are those of `DeleteUserStep`; the `true` is the repository's own answer |
| Service.UserService.GetUsersByRole | app/modules/users/application/user_service.py:95-97 | exactly the stored users with that role |
| Service.UserService.GetUsersByArea | app/modules/users/application/user_service.py:99-101 | exactly the stored users in that area |
| Security.Search | app/core/security.py:39-42 | `re.search` for a one-class pattern finds a match exactly when some character of the password is in the class |
| Security.IsPasswordStrong | app/core/security.py:33-44 | strong exactly when the length is at least 8 and there is an upper-case letter, a lower-case letter, a digit and one of the twenty special characters |
| Security.ShortPasswordIsWeak | app/core/security.py:35-36 | fewer than 8 characters is never strong, whatever the content |
| Security.SpecialClassExactly | app/core/security.py:42 | the special class is exactly ``! @ # $ % ^ & * ( ) , . ? " : { } \| < >`` |
| Security.StrengthMonotone | app/core/security.py:35-44 | inserting any characters at any position keeps a strong password strong |
| Security.StrongExample | app/core/security.py:35-44 | `Abcdef1!` (eight characters, all four classes) is strong |
| Security.WeakExamples | app/core/security.py:35-44 | `short1!` (seven characters) is not strong, and neither is `Abcdefg1_`, because `_` is in no class |
| Security.MismatchFold | app/core/security.py:95 | the full scan of `hmac.compare_digest` reports a difference exactly when one was already recorded or the two strings differ |
| Security.CompareDigest | app/core/security.py:95 | on ASCII strings, `hmac.compare_digest` is true exactly when the strings are equal |
| Security.SecureCompare | app/core/security.py:91-95 | false when either side is `None`; otherwise the equality of the strings, or `TypeError` when either holds a non-ASCII character |
| Security.SecureCompareSymmetric | app/core/security.py:93-95 | the comparison does not depend on the order of its arguments |
| Security.RecoveryAlphabetIsAlnum | app/core/security.py:87 | `ascii_letters + digits` has 62 distinct symbols, each an ASCII letter or digit |
| Security.Spell | app/core/security.py:89 | the joined picks: one symbol per pick, each the picked symbol of the alphabet |
| Security.GenerateRecoveryCode | app/core/security.py:84-89 | the code has exactly 10 characters, each an ASCII letter or digit |
| Security.RecoveryCodeBijective | app/core/security.py:87-89 | different picks give different codes, and every 10-character alphanumeric string is the code of some picks |
| ModelBase.InsertUnderscores | app/shared/model_base.py:18 | the `re.sub`: longer than the name by the upper-case letters after position 0, same first character, and removing every `_` gives back the name without its `_` |
| ModelBase.TableName | app/shared/model_base.py:16-18 | the table name has no upper-case letter; its first character is the lowered first character of the class name (never an inserted `_`); it is longer than the name by the number of upper-case letters after position 0 |
| ModelBase.TableNamePosition | app/shared/model_base.py:18 | character `k >= 1` of the name lands at `k` plus the number of upper-case letters in positions 1..k, lowered, with `_` just before it when it is upper-case |
| ModelBase.TableNameWithoutUnderscores | app/shared/model_base.py:18 | removing every `_` from the table name gives the lowered name without its `_`; for a name with no `_`, that is `name.lower()` |
| ModelBase.TableNameCamelCase | app/shared/model_base.py:18 | `UserRole` becomes `user_role` |
| ModelBase.TableNameConsecutiveCapitals | app/shared/model_base.py:18 | each of several consecutive capitals gets its own `_`: `HTTPServer` becomes `h_t_t_p_server` |
| Config.SettingsDefaults | app/core/settings.py:4-14 | the `Settings` fields (datatype `Config.Settings`) and their defaults: when only the four connection fields are given, the port is 5432, debug is off and the log level is `info` |
| Config.IntToDecimal | app/core/settings.py:21 | `str(port)`: a `-` exactly for a negative port, then decimal digits denoting its magnitude, with no leading zero |
| Config.DatabaseUrl | app/core/settings.py:16-22 | `database_url`: the asyncpg scheme followed by `user:password@host:port/db` |
| Config.DatabaseUrlSync | app/core/settings.py:24-30 | `database_url_sync`: the plain scheme followed by the same `user:password@host:port/db` |
| Config.NatToDecimal | app/core/settings.py:21 | `str(n)` for `n >= 0`: decimal digits, no leading zero, denoting `n` |
| Config.UrlsShareLocation | app/core/settings.py:16-30 | `database_url` starts with `postgresql+asyncpg://` and `database_url_sync` starts with `postgresql://`; after those schemes the two URLs are identical |
| Config.SyncUrlFromAsyncUrl | app/core/settings.py:16-30 | replacing `postgresql+asyncpg://` by `postgresql://` in `database_url` gives `database_url_sync`, when the pattern does not occur again after the scheme |
| Config.DatabaseUrlAmbiguous | app/core/settings.py:19-21 | fields are not escaped: different settings can give the same URL, so the URL does not determine the settings |
| DbBase.NormalizeDriverUrl | app/db/base.py:10-12 | the rewrite: a URL with the asyncpg prefix is returned as is; otherwise every `postgresql://` is replaced and none is left |
| DbBase.EngineUrl | app/db/base.py:10-12 | the engine is created with `database_url` itself: the rewrite changes nothing there |
| DbBase.AsyncUrlUnchanged | app/db/base.py:10-11 | a URL that starts with `postgresql+asyncpg://` is left unchanged |
| DbBase.SyncUrlUpgraded | app/db/base.py:11-12 | a URL that starts with `postgresql://` ends up starting with `postgresql+asyncpg://` |
| DbBase.UnrelatedUrlUnchanged | app/db/base.py:12 | a URL without the async prefix and without `postgresql://` anywhere is left unchanged |
| DbBase.NoPatternLeft | app/db/base.py:12 | when no occurrence of the pattern can start inside the replacement, and the replacement's first character occurs in the pattern only at its start, `replace` leaves no occurrence of the pattern |
| DbBase.SchemesSeparated | app/db/base.py:12 | `postgresql://` and `postgresql+asyncpg://` satisfy those two conditions |
| DbBase.NoSyncSchemeLeft | app/db/base.py:12 | after the replacement no `postgresql://` is left anywhere in the URL |
| DbBase.SyncSettingsUrlNormalized | app/db/base.py:10-12 | the rewrite turns `database_url_sync` into `database_url`, when `postgresql://` does not occur again after the scheme |
| DbBase.NormalizeDriverUrlIdempotent | app/db/base.py:10-12 | rewriting twice equals rewriting once |

## Notes on the code

- `secure_compare` is not total over strings: it hands two `str` to
  `hmac.compare_digest`, which raises `TypeError` when either holds a
  non-ASCII character. `Security.SecureCompare` returns that error.
- `hmac.compare_digest` walks `b` in full and, when the lengths differ,
  compares `b` with itself; it does not scan the longer input.
  `Security.CompareDigest` follows that walk.
- The minimum password length is the constant 8 in `is_password_strong`; it
  is not read from the settings.

## Left out

- `hash_password` and `verify_password` (app/core/security.py:25-31) wrap
  passlib's bcrypt, a foreign library.
- `create_access_token` (app/core/security.py:46-64) depends on the clock, on
  `secrets.token_hex` and on SHA-256.
- `verify_token` (app/core/security.py:66-82) is a PyJWT decode with a
  hard-coded key. Both it and `create_access_token` depend on foreign libraries.
  So the model does not show that their tokens are incompatible.
- Security.CompareDigest: the model gives only the boolean result. The
  constant-time behaviour of `hmac.compare_digest` is about timing, which the
  model cannot express.
- Security.GenerateRecoveryCode: the `secrets.choice` picks are a parameter.
  Their uniform distribution is not modelled.
- Service.UserService.CreateUser: the `uuid4()` id is a parameter, and the
  method requires that no stored user has it.
- Repository.UserRepository.Create: requires that no stored row has the user's
  id. The primary-key `IntegrityError` that the commit at
  app/modules/users/infrastructure/repository.py:63-68 raises on a duplicate id
  is not modelled.
- Domain.NormalizeEmail: `.lower()` is modelled on ASCII letters only. Python
  also lowers non-ASCII letters. `strip()` uses Python's full `str.isspace`
  set.
- ModelBase.TableName: `.lower()` is modelled on ASCII letters only. The `[A-Z]`
  of the pattern is ASCII anyway.
- Config.SyncUrlFromAsyncUrl and DbBase.SyncSettingsUrlNormalized: both require
  that the pattern does not occur again after the scheme. A per-field condition
  would not be enough, because an occurrence can straddle two fields (a user
  ending in `postgresql` and a password starting with `//`).
- The SQLAlchemy session, commit, refresh and `rowcount` mechanics
  (app/modules/users/infrastructure/repository.py) are replaced by the map
  held in `UserRepository`.
- The database's unique constraint on `email`
  (app/modules/users/infrastructure/models.py:33) is not modelled. The
  in-memory store accepts the duplicate that the database would reject with an
  integrity error.
- Repository.UserRepository.GetByEmail and GetByAuthId: SQL `first()` without
  an ordering is unspecified. When several rows match, the model returns any
  one of them.
- The use-cases are `async`, but each `await` runs in sequence. They are modelled
  as ordinary sequential methods, and concurrent requests are not modelled.
- The logging calls are not modelled.
- Pydantic validation of the request schemas is not modelled. This includes
  `EmailStr` (app/modules/users/interfaces/schemas.py). Only the field shapes
  are kept.
- A UUID is always truthy, so `if user_data.role_id:` and
  `if user_data.area_id:` always hold. The model always overwrites role and
  area. UUIDs are naturals compared only for equality.
- Loading settings from the environment and the `.env` file, and the cached
  `get_settings`, are not modelled. `Settings` is a value given in full or with
  its defaults.
- Engine and session creation (app/db/base.py:14-36), the HTTP routers, the
  middleware, the migrations and `app/main.py` are plumbing with no logic to
  model.

## Findings

| source | as written | input that shows it | evidently intended | confidence | as-written member | corrected member |
|---|---|---|---|---|---|---|
| app/modules/users/application/user_service.py:66-71 | `update_user` looks for a duplicate of `user_data.email` as given, but stores `user_data.email.strip().lower()` | user 1 stored with `b@x.com`, user 2 with `a@x.com`; updating user 2 with email `B@x.com` passes the check and stores `b@x.com` a second time | the duplicate check looks up the address that will be stored, so stored emails stay unique | medium, not executed; the database's unique constraint on `email` would reject the write at commit | Service.UpdateUserBreaksEmailsUnique | Service.UpdateUserCheckedKeepsEmailsUnique |

`Service.UserService.UpdateUser` models the code as written: it follows
`UpdateUserStep`. The corrected step `UpdateUserStepChecked` differs only in the
address it checks. `Service.UpdateUserCheckedKeepsEmailsUnique` proves that the
corrected step keeps stored emails unique.
