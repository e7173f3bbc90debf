# Mergington High School activity registry, modelled in Dafny

This project models the in-memory core of a small school activity-signup service
(`src/app.py`). The service has two process-wide tables:

- `sessions`: a map from session token to role;
- `activities`: a map from activity name to a record of description, schedule,
  `max_participants` and an ordered participant list.

Six pieces of logic act on them:

- the Authorization-header token extraction;
- the teacher-session check;
- login, which scans a credential list and stores a new session;
- logout;
- signup, a guarded append to one activity's participants;
- unregister, a guarded removal from them.

Files and modules:

- `tokens.dfy` (`Tokens`): Python's `str.startswith` (a prefix comparison) and
  `str.replace(pat, "")` (a recursive string function), and `ExtractToken`. The lemmas pin `RemoveAll` down as
  "delete every non-overlapping occurrence, leftmost first". So `"Bearer "` is removed
  everywhere in the header, not only at its start.
- `roster.dfy` (`Roster`): Python's `list.remove` (`RemoveFirst`) and the
  no-duplicates property of a participant list.
- `handlers.dfy` (`Handlers`): the data model and one function per handler. Each
  function maps the tables before a request to the status and the tables after it.
  The contracts of the handler functions state the error order 403/404/400 and
  "nothing else changes". The lemmas cover preservation of the no-duplicates
  invariant, the signup/unregister round trip, idempotent logout, login-then-verify,
  and that login and logout leave every other token's session check alone.
- `registry.dfy` (`Server`): the class `Registry`. Its fields `sessions` and
  `activities` are updated in place by one method per handler. `Login` keeps the
  source's linear scan as a `while` loop. Each method's `ensures` ties the new
  tables and the status to the `Handlers` function of the old tables, so every
  lemma of `Handlers` holds of the methods. The object invariant `Valid()` ("no
  participant list has duplicates") holds after the constructor and is kept by
  every method.
- `scenarios.dfy` (`Scenarios`): concrete request sequences on a fresh service.

The credential list, which the source reads from `teachers.json` on every login, is a
`seq<Teacher>` parameter of `Login`. The token, which the source draws from
`secrets.token_hex(16)`, is a parameter too. Nothing requires it to be fresh: as in the
source, an existing entry under that key is overwritten. The lemma
`Handlers.LoginHexTokenThenVerify` covers tokens of the shape `token_hex(16)` returns.

Behaviour of the code that the model keeps as written:

- Once a header starts with "Bearer ", the code (`src/app.py:50`, `:139`) removes every
  occurrence of "Bearer " from it, not only the leading one. For example,
  `"Bearer Bearer t"` authenticates as `t` (`Tokens.DoubledPrefixStripped`).
- Credential records carry a `role`, but the code never reads it: any record with a
  matching username and password yields a `"teacher"` session.
- Nothing checks that a new token was not issued before. The model does not assume it.
- Signup never compares the participant count with `max_participants`.

## Model

| member | source | states |
|---|---|---|
| `Tokens.StartsWith` | src/app.py:50 | true iff the string is the prefix followed by some rest |
| `Tokens.RemoveAll` | src/app.py:50 | `str.replace("Bearer ", "")` never lengthens the string, and leaves a string shorter than the pattern as it is |
| `Tokens.RemoveAllNoOccurrence` | src/app.py:50 | a string in which the pattern does not occur comes back unchanged |
| `Tokens.RemoveAllLeftmost` | src/app.py:50 | the leftmost occurrence is deleted and the scan resumes right after it, so every non-overlapping occurrence goes, not only a prefix |
| `Tokens.RemoveAllPrefix` | src/app.py:50 | a leading occurrence is always one of those removed |
| `Tokens.ExtractToken` | src/app.py:50 | a header not starting with "Bearer " is the token unchanged; otherwise the token is the rest after the prefix with every further "Bearer " removed, at least 7 characters shorter |
| `Tokens.ExtractBearerToken` | src/app.py:50 | "Bearer " + t yields t when t contains no "Bearer " |
| `Tokens.ExtractRawToken` | src/app.py:50 | a raw token containing no "Bearer " is used unchanged |
| `Tokens.HexTokenBearerFree` | src/app.py:128 | a 32-digit lower-case hex token never contains "Bearer " |
| `Tokens.ExtractBearerPrefix` | src/app.py:50 | "Bearer " + rest yields rest with every "Bearer " removed |
| `Tokens.InnerOccurrenceRemoved` | src/app.py:50 | "Bearer " + a + "Bearer " + b yields a + b (a without 'B', b without "Bearer "): an occurrence inside the header is removed too |
| `Tokens.DoubledPrefixStripped` | src/app.py:139 | "Bearer Bearer " + t yields t |
| `Tokens.RemoveAllNotIdempotent` | src/app.py:50 | removal can create a new occurrence: "BBearer earer " becomes "Bearer " |
| `Roster.RemoveFirst` | src/app.py:205 | `list.remove` shortens the list by one and removes exactly one copy of the email from its multiset |
| `Roster.RemoveFirstAt` | src/app.py:205 | the removed element is the one at the first index holding the email; all others keep their order |
| `Roster.RemoveAppended` | src/app.py:179-205 | removing an email just appended to a list without it gives back that list |
| `Roster.AppendNoDuplicates` | src/app.py:172-179 | appending an email that is not listed keeps the list free of duplicates |
| `Roster.RemoveNoDuplicates` | src/app.py:198-205 | on a list without duplicates, removal leaves no copy of the email and no duplicates |
| `Handlers.Present` | src/app.py:46 | false exactly for an absent header and for the empty string, as Python's truthiness test |
| `Handlers.IsTeacherSession` | src/app.py:44-52 | an absent or empty header is never a teacher session; a true answer means the token extracted from the header is a session key mapped to "teacher" |
| `Handlers.IsTeacherSessionLocal` | src/app.py:52 | the answer depends only on the session entry of the extracted token |
| `Handlers.Matches` | src/app.py:125 | true iff the record has exactly this username and password, whatever its role |
| `Handlers.HasCredential` | src/app.py:124-125 | true iff some record of the list matches; never for an empty list |
| `Handlers.Login` | src/app.py:119-132 | success iff some record has exactly this username and password; on success the sessions gain token -> "teacher", other entries and activities unchanged; otherwise 401 with nothing changed |
| `Handlers.Logout` | src/app.py:136-142 | always succeeds; a present header's extracted token is no longer a key, all other entries unchanged; an absent or empty header changes nothing |
| `Handlers.Signup` | src/app.py:158-180 | 403 iff no teacher session, then 404 iff the activity is unknown, then 400 iff the email is listed; any failure changes nothing; success appends the email to that activity only, all other fields, activities and sessions unchanged |
| `Handlers.Unregister` | src/app.py:184-206 | the same 403 then 404 order, then 400 iff the email is not listed; any failure changes nothing; success removes one copy of the email from that activity only, with its other fields, every other activity and sessions unchanged |
| `Handlers.UnregisterRemovesFirst` | src/app.py:204-205 | a successful unregister deletes exactly the first occurrence of the email |
| `Handlers.SignupPreservesRoster` | src/app.py:171-179 | signup preserves "no participant list has duplicates" |
| `Handlers.UnregisterPreservesRoster` | src/app.py:197-205 | unregister preserves the same invariant, and on success the email is no longer listed |
| `Handlers.LoginPreservesRoster` | src/app.py:119-132 | login preserves the same invariant |
| `Handlers.LogoutPreservesRoster` | src/app.py:136-142 | logout preserves the same invariant |
| `Handlers.LoginKeepsOtherSessions` | src/app.py:127-130 | a login under one token leaves the session check of every header carrying another token as it was |
| `Handlers.LogoutKeepsOtherSessions` | src/app.py:138-141 | a logout leaves the session check of every header carrying another token as it was |
| `Handlers.SignupIgnoresCapacity` | src/app.py:158-180 | an activity already at or over `max_participants` still accepts a new student, ending over capacity |
| `Handlers.SignupTwice` | src/app.py:171-179 | repeating a successful signup answers 400, changes nothing, and the list holds exactly one more entry than before |
| `Handlers.SignupUnregisterRoundTrip` | src/app.py:171-205 | unregister after a successful signup restores the tables exactly; unregister on the tables from before the signup answers 400 |
| `Handlers.LoginThenVerify` | src/app.py:125-130 | after a successful login with a non-empty token containing no "Bearer ", both the raw token and "Bearer " + token pass the session check |
| `Handlers.LoginHexTokenThenVerify` | src/app.py:127-129 | the same for any token shaped like `secrets.token_hex(16)` |
| `Handlers.LogoutRevokes` | src/app.py:136-142 | after logout the same header fails the session check |
| `Handlers.LogoutIdempotent` | src/app.py:136-142 | a second logout with the same header leaves the tables as the first did |
| `Server.ChessClub` | src/app.py:56-61 | the seed Chess Club roster lists nobody twice and is within its `max_participants` |
| `Server.ArtClub` | src/app.py:86-91 | the seed Art Club roster lists nobody twice and is within its `max_participants` |
| `Server.Seed` | src/app.py:55-110 | the initial table holds Chess Club and Art Club, no roster lists anybody twice, and every roster is within its capacity |
| `Server.Registry.constructor` | src/app.py:42-110 | start with no sessions and the seed activities, establishing the no-duplicates invariant `Valid()` |
| `Server.Registry.VerifySession` | src/app.py:145-149 | answers exactly the teacher-session check of the header, false for an absent or empty one, and changes nothing |
| `Server.Registry.Login` | src/app.py:118-132 | the loop over the credential list leaves the status and the sessions that `Handlers.Login` gives; returns the token on success only; keeps `Valid()` |
| `Server.Registry.Logout` | src/app.py:135-142 | leaves the sessions `Handlers.Logout` gives, always answers success, keeps `Valid()` |
| `Server.Registry.Signup` | src/app.py:157-180 | leaves the status and activities `Handlers.Signup` gives, with sessions untouched, and keeps `Valid()` |
| `Server.Registry.Unregister` | src/app.py:183-206 | leaves the status and activities `Handlers.Unregister` gives, with sessions untouched, and keeps `Valid()` |
| `Scenarios.ArtClubSignup` | src/app.py:118-180 | a fresh service: the art teacher logs in, signs new@mergington.edu up for Art Club (appended at the end), and the repeat answers 400 |
| `Scenarios.AnonymousSignupForbidden` | src/app.py:161-162 | signup without an Authorization header answers 403 and changes nothing |
| `Scenarios.UnknownActivityNotFound` | src/app.py:187-192 | with a valid teacher token, unregister from an unknown activity answers 404 and changes nothing |
| `Scenarios.WrongPasswordUnauthorized` | src/app.py:124-132 | a wrong password answers 401 and creates no session |
| `Scenarios.ArtClubSession` | src/app.py:118-180 | the Art Club scenario run on a `Registry` object answers 200, 200, then 400 |

## Left out

- FastAPI app construction, the CORS middleware and the static-files mount (`src/app.py:17-32`): framework configuration with no logic.
- The root redirect (`src/app.py:113-115`): a fixed HTTP redirect.
- `get_activities` (`src/app.py:152-154`): it returns the activity table as it is; the table is the `activities` field.
- `load_teachers` (`src/app.py:35-39`): file I/O and JSON parsing. The credential list is a parameter of `Login`, with every record complete (a record missing a key would raise `KeyError` in the source).
- `secrets.token_hex(16)` (`src/app.py:127-128`): randomness. The token is a parameter, with no freshness assumed.
- Response message strings and the `{"token": …}` / `{"authenticated": …}` bodies: the model answers with a status and, for login, the issued token.
- Seven of the nine seed activities (`src/app.py:55-110`): `Seed` holds Chess Club and Art Club only, as an example initial state.
- Concurrency: the source has no locking. The model is sequential, one request at a time.
- How FastAPI turns the `Authorization` header into an optional string: the header is given directly as `Option<string>`.
- `Roster.RemoveFirst`: requires the email to be listed. Python's `list.remove` raises `ValueError` otherwise; the guard at `src/app.py:198-202` answers 400 before that can happen.
- `Tokens.RemoveAll`: requires a non-empty pattern. Python's `replace` with an empty pattern behaves differently, but the source only ever uses `"Bearer "`.
