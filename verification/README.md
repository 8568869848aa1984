# Speckle server user service, modelled in Dafny

This project models the account and role logic of Speckle's server-side user
service (`packages/server/modules/core/services/users.js`). It is a
sequential state machine over an abstract database, not over SQL. Every
operation is a pure transition that either throws one of the service's
errors or yields a new database.

The database (`Db.State`) has five parts:

- `users`: the `users` table as a sequence in storage order. Each record has
  an id, an email, a name, a company, a bio, an optional password digest, a
  verified flag and an integer creation time. The plaintext password is not
  a column.
- `acl`: the `server_acl` table, a map from user id to one server role
  (Admin, User, Guest, ArchivedUser).
- `streams` and `streamAcl`: the stream ids and the `stream_acl` grants
  (stream, user, stream role).
- `invites`: the pending server invites, each tied to one user.

Modules follow the source's structure:

- `AdminGuard`: `countAdminUsers`, `_ensureAtleastOneAdminRemains` and
  `_changeUserRole`.
- `Users`: `userByEmailQuery`, `createUser`, `findOrCreateUser`, the
  single-user lookups, `updateUserPassword`, `changeUserRole` and
  `deleteUser`, including its sole-owner computation.
- `Search`: `searchUsers`, `getUsersBaseQuery`, `getUsers` and `countUsers`.
- `Invariants`: the database invariant `Valid` and proofs that every
  operation preserves it. `Valid` covers the primary key, unique
  case-insensitive emails, one `server_acl` row per user, grants that
  reference existing streams and users, and at least one Admin whenever a
  user exists.
- `Scenarios`: concrete runs, such as bootstrap, handing over the
  administrator role and deleting a sole owner.
- `Findings`: the filter-grouping slip in `searchUsers` (see Findings below).
- `Results`, `Text`, `Roles`, `SetFacts`: Option/Result, ASCII case folding
  and substring search, the role vocabularies, and one cardinality lemma.

Values the service obtains from outside become parameters:

- `newId` is the random user id. It must not already be in `users`.
- `generatedPassword` is the random 20-character password of
  `findOrCreateUser`.
- `now` is the row's creation time.
- `hash` stands for bcrypt.
- `guestModeEnabled` is the server-info flag.

Behaviour of the code that the model keeps:

- `createUser` tests `if (user.password)`, so an empty password is treated
  as no password: it is neither checked for length nor hashed.
  `updateUserPassword` checks the length of every password and so rejects an
  empty one.
- `searchUsers` computes its page size as `limit || 25`: the default of 25
  applies when the limit is missing or zero, and no maximum is imposed.
- For a newly created user, `findOrCreateUser` returns the email as the
  caller wrote it; only the copy that `createUser` stores is lower-cased.
  For an existing user it returns the stored email.
- A requested role in `createUser` that names no server role, or names Guest
  while guest mode is off, is dropped in favour of User, not rejected.

## Model

| member | source | states |
|---|---|---|
| `Roles.ParseServerRole` | packages/server/modules/core/services/users.js:286-287 | A name is accepted exactly when it is the wire name of one of the four server roles, and the result is the role it names |
| `AdminGuard.CountAdminUsers` | packages/server/modules/core/services/users.js:35-38 | The Admin count is zero exactly when no `server_acl` row holds Admin |
| `AdminGuard.EnsureAtLeastOneAdminRemains` | packages/server/modules/core/services/users.js:39-46 | The guard fails, with the last-admin error, if and only if the set of Admins is exactly {userId} |
| `AdminGuard.GuardKeepsAnAdmin` | packages/server/modules/core/services/users.js:39-46 | When the guard passes and an Admin exists, removing the user's `server_acl` row still leaves an Admin |
| `AdminGuard.RoleChangeKeepsAnAdmin` | packages/server/modules/core/services/users.js:285-292 | A role update that grants Admin, or that passed the guard, still leaves an Admin when one existed |
| `AdminGuard.SetUserRole` | packages/server/modules/core/services/users.js:32-33 | The update changes only the target's row, if it has one; it adds no row and leaves every other row alone |
| `Users.FirstIndex` | packages/server/modules/core/services/users.js:101 | `.first()` yields the earliest selected row in storage order, and nothing only when no row is selected |
| `Users.UserByEmailQuery` | packages/server/modules/core/services/users.js:48 | The email lookup finds a row exactly when some stored email equals the query after lower-casing both |
| `Users.CreateUser` | packages/server/modules/core/services/users.js:73-117 | A supplied password that is too short fails first. Otherwise the call fails exactly when the email is taken, ignoring case, and then with the email-taken error. On success exactly one row is appended, with the email lower-cased and only a hash of the password. One grant is added and no other grant changes. The grant is Admin when no Admin exists; otherwise it is the requested role if that names a server role that is not Guest while guest mode is off, and User in every other case |
| `Users.FindOrCreateUser` | packages/server/modules/core/services/users.js:126-139 | Never fails. An existing email (ignoring case) returns the first matching user's id and stored email with no change. Otherwise one verified user with a password digest is appended, with `isNewUser` set and the caller's email returned. Its grant is the only grant added: every other grant, the streams, the stream grants and the invites are unchanged. The new grant follows `createUser`'s rule: Admin when no Admin exists, else the requested role when it is valid and allowed, else User |
| `Users.FindOrCreateUserIdempotent` | packages/server/modules/core/services/users.js:126-139 | A second call with the same email (in any case) returns the same id and changes nothing |
| `Users.GetUserById` | packages/server/modules/core/services/users.js:145-149 | A record is returned exactly when the id exists; it is that user's row with the digest removed |
| `Users.GetUserByEmail` | packages/server/modules/core/services/users.js:158-163 | A record is returned exactly when the email matches ignoring case; it is a stored row with the digest removed |
| `Users.GetUserRole` | packages/server/modules/core/services/users.js:165-170 | The role is present exactly when the user has a `server_acl` row, and it is that row's role |
| `Users.UpdateUserPassword` | packages/server/modules/core/services/users.js:182-187 | Fails exactly when the new password is shorter than the minimum. On success, only the digest of the rows with that id changes, and it becomes the hash of the new password |
| `Users.ChangeUserRole` | packages/server/modules/core/services/users.js:285-292 | An unknown role name and Guest with guest mode off are rejected. The call succeeds exactly when the role is valid and allowed and either is Admin or does not demote the sole Admin; a valid, allowed demotion of the sole Admin fails with the last-admin error. On success only the target's grant changes, and an existing Admin is never lost |
| `Users.SoleOwnedStreams` | packages/server/modules/core/services/users.js:230-250 | A stream is selected exactly when its set of Owner grantees is {userId} |
| `Users.SoleOwnedStreamsIsOwnerCountOne` | packages/server/modules/core/services/users.js:230-250 | The set formulation agrees with the SQL aggregate: the user holds Owner and the stream's Owner-row count is 1 |
| `Users.DeleteUser` | packages/server/modules/core/services/users.js:226-259 | Fails exactly when the user is the sole Admin. On success: the user's rows, `server_acl` row and grants are gone; exactly the solely owned streams and their grants are deleted; co-owned streams stay; the user's invites are purged; the count is the number of rows removed; and an existing Admin is never lost |
| `Db.WithoutUser` | packages/server/modules/core/services/users.js:258 | The rows left are exactly those whose id differs |
| `Db.SubMultisetKeepsDistinctIds` | packages/server/modules/core/services/users.js:193-194 | Rows drawn, as a multiset, from a table with a primary key have pairwise distinct ids |
| `Db.WithoutUserRemovesAtMostOne` | packages/server/modules/core/services/users.js:258 | With distinct ids, the delete removes one row when the id exists and none otherwise |
| `Search.SearchCandidates` | packages/server/modules/core/services/users.js:193-202 | The candidates are exactly the users that join a `server_acl` row, pass the filter and are strictly older than the cursor |
| `Search.InsertByCreatedAt` | packages/server/modules/core/services/users.js:205 | Inserting into a newest-first sequence keeps it newest first and adds exactly the one row |
| `Search.SortNewestFirst` | packages/server/modules/core/services/users.js:205 | `ORDER BY createdAt DESC` yields a newest-first permutation of its input |
| `Search.SearchLimit` | packages/server/modules/core/services/users.js:204-205 | The page size `limit \|\| 25` is always positive |
| `Search.PageIsSound` | packages/server/modules/core/services/users.js:205-211 | A page cut from newest-first eligible rows has at most `limit` rows. They are newest first, older than the cursor, and projections of eligible users, with no archived user unless requested. The next cursor is the last row's creation time |
| `Search.PageIsComplete` | packages/server/modules/core/services/users.js:205 | A row that `LIMIT` cuts from a newest-first sequence is no newer than the last row of the page, and is cut only when the page is full |
| `Search.SearchResultIsSound` | packages/server/modules/core/services/users.js:192-211 | The page built from the eligible rows has the soundness properties of `Search.SearchUsers` |
| `Search.SearchCandidatesSubMultiset` | packages/server/modules/core/services/users.js:193-202 | The filter and join only drop rows: each candidate occurs no more often than in the users table |
| `Search.PageKeepsDistinctIds` | packages/server/modules/core/services/users.js:205-210 | Cutting a page from rows with distinct ids repeats no id |
| `Search.SearchResultIsDistinct` | packages/server/modules/core/services/users.js:193-210 | With `users.id` a primary key, the join on `server_acl.userId` yields each user at most once, so no id repeats on the page |
| `Search.SearchResultIsComplete` | packages/server/modules/core/services/users.js:192-211 | Every eligible user is on the page, or the page is full and the user is no newer than its last row |
| `Search.SearchUsers` | packages/server/modules/core/services/users.js:192-212 | At most `limit` rows (25 by default), newest first and strictly older than the cursor. Each row is an eligible user's limited projection. Archived users appear only when `archived` is set. No eligible user is skipped unless the page is full and the user is no newer than the last row. The cursor is the last row's creation time, or absent on an empty page. Under the primary key no user appears twice |
| `Search.GetUsersBaseQuery` | packages/server/modules/core/services/users.js:50-61 | With no query or an empty one, every user is selected. Otherwise a user is selected exactly when its email, name or company contains the query, ignoring case |
| `Search.BaseQuerySubMultiset` | packages/server/modules/core/services/users.js:50-61 | The base query only drops rows: each selected row occurs no more often than in the users table |
| `Search.CountMatchingIsBaseQuerySize` | packages/server/modules/core/services/users.js:279-283 | `count(*)` over the filter equals the number of rows the filter selects |
| `Search.CountUsers` | packages/server/modules/core/services/users.js:279-283 | The count equals the number of users matched by the same filter `getUsers` uses, and never exceeds the table size |
| `Search.ListLimit` | packages/server/modules/core/services/users.js:266-269 | The limit defaults to 10, is kept when at most 200, and is clamped to 200 otherwise |
| `Search.Window` | packages/server/modules/core/services/users.js:271-272 | `OFFSET off LIMIT lim` keeps rows `off` onwards, at most `lim` of them, in order, and none when the offset is past the end |
| `Search.WindowRowsMatch` | packages/server/modules/core/services/users.js:271-276 | Every row of a window over the base query is a matching user once its digest is removed |
| `Search.ListedWindowIsDistinct` | packages/server/modules/core/services/users.js:266-276 | With `users.id` a primary key, an `OFFSET`/`LIMIT` window of the base query lists each user at most once |
| `Search.GetUsers` | packages/server/modules/core/services/users.js:266-277 | At most 200 rows and at most the limit. Every row is a matching user with its digest removed. The page holds as many rows as the count leaves after the offset, up to the limit. Under the primary key no user is listed twice |
| `Invariants.CreateUserPreservesValid` | packages/server/modules/core/services/users.js:101-112 | A successful creation keeps ids and case-insensitive emails unique, one grant per user and at least one Admin |
| `Invariants.FindOrCreateUserPreservesValid` | packages/server/modules/core/services/users.js:126-139 | `findOrCreateUser` keeps the invariant |
| `Invariants.ChangeUserRolePreservesValid` | packages/server/modules/core/services/users.js:285-292 | A successful role change keeps the invariant, including the Admin quorum |
| `Invariants.DeleteUserPreservesValid` | packages/server/modules/core/services/users.js:226-259 | A successful deletion keeps the invariant: no dangling grants and the Admin quorum intact |
| `Invariants.UpdateUserPasswordPreservesValid` | packages/server/modules/core/services/users.js:182-187 | A password change keeps the invariant |
| `Invariants.DeleteUserRowCount` | packages/server/modules/core/services/users.js:258 | With the primary key in place, `deleteUser` returns 1 when the user existed and 0 otherwise |
| `Invariants.ApplyPreservesValid` | packages/server/modules/core/services/users.js:73-292 | Every mutating operation, whether it succeeds or throws, leaves a valid database valid |
| `Invariants.RunPreservesValid` | packages/server/modules/core/services/users.js:73-292 | Any sequence of operations from a valid database leaves it valid. In particular, there is at least one Admin whenever a user exists |
| `Invariants.FirstUserIsAdmin` | packages/server/modules/core/services/users.js:107-110 | The first user created in an empty database is an Admin, whatever role it requested |
| `Scenarios.SignUpTwoUsers` | packages/server/modules/core/services/users.js:107-112 | The first sign-up becomes Admin and the second, requesting no role, becomes User |
| `Scenarios.HandOverAdministration` | packages/server/modules/core/services/users.js:285-292 | The sole Admin cannot step down until another user is promoted, and then can |
| `Scenarios.EmailComparedIgnoringCase` | packages/server/modules/core/services/users.js:101-102 | Signing up `A@x.com` after `a@x.com` fails with the email-taken error |
| `Scenarios.DeleteSoleOwner` | packages/server/modules/core/services/users.js:230-258 | Deleting a user removes the stream it solely owns, keeps the co-owned one with the other owner's grant, purges its invites and reports one row |
| `Findings.ArchivedUserMatchedByExactEmail` | packages/server/modules/core/services/users.js:196-200 | As written, the filter matches an archived user found by exact email even when archived users are excluded; the corrected filter does not |
| `Findings.AsWrittenDiffersOnlyOnArchivedExactEmail` | packages/server/modules/core/services/users.js:196-200 | The two filters disagree exactly on archived users matched by exact email when neither flag is set |
| `Findings.CorrectedFilterExcludesArchived` | packages/server/modules/core/services/users.js:196-200 | The corrected filter never admits an archived user unless asked to |
| `Text.LowerIdempotent` | packages/server/modules/core/services/users.js:48 | Lower-casing twice is the same as lower-casing once, so a stored lower-cased email matches its own query |

## Findings

| source | as written | input that shows it | evidently intended | confidence | as-written member | corrected member |
|---|---|---|---|---|---|---|
| packages/server/modules/core/services/users.js:196-200 | knex renders the chain as `email = q OR (name ILIKE '%q%' AND role != archived)`, because SQL binds AND tighter than OR | `searchUsers("bob@x.com", …, archived = false, emailOnly = false)` on a database with an ArchivedUser whose email is `bob@x.com` returns that user | `(email = q OR name ILIKE '%q%') AND role != archived`, which excludes archived users unless `archived` is set | medium; not executed | `Search.SearchMatchesAsWritten`, exhibited by `Findings.ArchivedUserMatchedByExactEmail` | `Search.SearchMatches`, proved by `Findings.CorrectedFilterExcludesArchived`; `Search.SearchUsers` uses it |

## Left out

- `deleteUser` runs its steps (the admin guard, the sole-owner stream
  deletions, the invite purge and the row delete) as separate awaits with no
  enclosing transaction. A throw from `deleteStream` or
  `deleteAllUserInvites` would leave the earlier deletions in place and the
  user row present. The model treats the whole call as one atomic
  transition, so such partial failures are not modelled.
- Concurrency: every call is one atomic step. The races between the email
  check and the insert, and between the admin count and the update, are not
  modelled.
- bcrypt is the `hash` parameter. Its salt and the digest format are not
  modelled.
- `crypto-random-string` ids and passwords are parameters. The precondition
  that `newId` is fresh stands in for the negligible collision chance.
- `getServerInfo` is the `guestModeEnabled` parameter. The code reads it only
  when Guest is requested, and the result is the same.
- `UsersEmitter` events and `dbLogger` are side channels.
- `skipPropertyValidation`: the field allow-list is built into `NewUser`, so
  the unsafe test-only pass-through of extra fields is not modelled.
- The "Couldn't create user" error is not modelled. It is thrown only if the
  database insert returns no row, which is a storage fault.
- `getUser`: a deprecated copy of `getUserById`.
- `updateUser` and `validatePasssword`: deprecated wrappers around functions
  in modules that are not part of this model.
- `deleteStream` and `deleteAllUserInvites` are reduced to removing the stream
  with its grants and removing the user's invites. Their repositories are not
  part of this model.
- The removal of a deleted user's `server_acl` row and stream grants comes
  from the database schema's cascading foreign keys, not from this file.
- ILIKE treats `%` and `_` in the query as wildcards. The model matches the
  query as a plain case-insensitive substring.
- Case folding covers ASCII letters only. JavaScript's `toLowerCase` and
  SQL's `lower` fold all of Unicode.
- Password length counts characters. JavaScript's `.length` counts UTF-16
  code units.
- `createdAt` and the search cursor are integers. `Date.toISOString`
  formatting is not modelled.
- `MINIMUM_PASSWORD_LENGTH` is taken as 8. The role wire names are taken as
  `server:admin`, `server:user`, `server:guest` and `server:archived-user`.
  Both are defined in modules that are not part of this model.
- `LIMITED_USER_FIELDS` lives in a helper that is not part of this model.
  `Search.LimitedUser` keeps id, name, bio, company, verified and createdAt,
  and omits the avatar.
- Error messages are reduced to the constructors of `Db.ServiceError`.
- Limits and offsets are natural numbers. A negative limit, which the
  database would reject, is not modelled.
- Search.SearchUsers: rows with equal `createdAt` come out in one fixed
  order. SQL leaves that order unspecified, so the contract states only
  newest-first order.
- Search.GetUsers: the contract states the page's size, that each row is a
  sanitised matching user and that no user is listed twice. It does not
  state which slice of storage order the page is, because SQL without
  `ORDER BY` promises no order.
