# IAM token lifecycle in Dafny

This project models the authentication core of the IAM service, a Spring
application that registers users, logs them in with a lockout after repeated
failures, issues JWT access and refresh tokens, rotates refresh tokens under a
ceiling of five active ones per user, revokes access tokens through a
blacklist, and sweeps stale rows in the background.

Its layers:

- **Entities** (`entities.dfy`): User with its UserDetails view, Role, the
  refresh-token ledger row and the blacklist row. Time is an integer count of
  seconds.
- **JwtUtil** (`jwt_util.dfy`, `wire.dfy`): tokens are real strings. Their
  claims are serialised injectively, and the signature tag is a stand-in
  function of the secret and the payload. `Verify` accepts a token only when
  its tag matches, its issuer is "iam-api" and its `exp` is not before now.
- **Repositories** (`refresh_token_repository.dfy`,
  `blacklisted_token_repository.dfy`): each derived query is a function on the
  ledger (a `seq` of rows, where a row is identified by its index) or on the
  blacklist (a `map` keyed by the unique token string).
- **Persistence** (`persistence.dfy`): `Store` is the mutable database shared
  by the services. Each `save` is a method that reassigns one of its fields.
- **AuthSpec** (`auth_spec.dfy`): each operation of `AuthService` as a
  function from a database value to a `Step`, which holds the new database
  and the result. A thrown `CustomException` is an `Err`, and the saves made
  before the throw stay in the new database.
- **Services.AuthService**, **TokenCleanup.TokenCleanupService** and
  **JwtFilter.JwtCustomFilter** (`auth_service.dfy`,
  `token_cleanup_service.dfy`, `jwt_filter.dfy`): the Java classes as
  classes. Their methods run statement by statement against the `Store` and
  are proved to produce exactly the state and result of the matching
  specification function.
- **Controller** (`auth_controller.dfy`): the bearer-header check of the
  logout endpoint.
- **Lemma modules** (`lockout.dfy`, `registration.dfy`, `rotation.dfy`,
  `logout_flow.dfy`, `sweep.dfy`, `invariants.dfy`, `revocation.dfy`,
  `register_request.dfy`): the properties. `AuthSpec.Inv` is the database
  invariant that every operation preserves:
  - users are stored under their own email;
  - ledger tokens are distinct;
  - every ledger row carries the subject and the expiry written in its own
    token.

Constants follow the code:

| constant | value |
|---|---|
| failed logins before lock | 5 |
| lock time | 30 minutes (1800 s) |
| active refresh tokens kept by the ceiling and by the sweeps | 5 |
| access-token lifetime | 900 s |
| refresh-token lifetime | 604800 s |

### Behaviour of the code worth knowing

- **Logout input.** `logout` validates the refresh token it is given, then
  looks up its user and its ledger row. Every one of those checks raises an
  error; the access token is only read for its expiry.
- **Blacklist insert on logout.** `logout` saves the access token to the
  blacklist without first asking whether a row already holds it. An access
  token that is already blacklisted therefore fails on the unique column,
  after the refresh row was consumed (`LogoutFlow.LogoutFailsAfterRevoking`).
- **Expired row in `refreshToken`.** The row is marked revoked in memory only
  and is never saved. Under `Inv` the branch cannot be reached on a server
  whose time zone is UTC or behind it (`Rotation.RefreshNeverReportsExpiredRow`).
  Ahead of UTC it is reached in the token's last hours, because the stored
  expiry is the token's `exp` as a UTC `LocalDateTime` while the check
  compares it with `LocalDateTime.now()` in the server's zone.
- **Disabled user in `refreshToken`.** A disabled user is refused with
  ACCOUNT_LOCKED; login refuses the same user with ACCOUNT_NOT_ENABLED.
- **Token kind.** Tokens carry no type claim, so the filter authenticates a
  refresh token like an access token (`JwtFilter.RefreshTokenAuthenticates`).
  The filter does not look at the enabled flag or the lock.
- **Ceiling at rotation.** The ceiling is applied after the presented row is
  consumed and before the new row is added. A rotation therefore never raises
  the active count, while login adds a row with no ceiling and can raise it
  above five (`Lockout.LoginSuccess`, `Rotation.RefreshCeiling`).
- **Lapsed locks.** A successful login resets the counter but keeps the old
  `accountLockedUntil`; login only refuses while that instant lies after now.

## Model

| member | source | states |
|---|---|---|
| Services.AuthService.CreateUser | src/main/java/com/matt/iam/services/AuthService.java:47-66 | The new store and the result are those of `AuthSpec.CreateUser`, whose outcomes `Registration.CreateUserOutcomes` spells out |
| Services.AuthService.Login | src/main/java/com/matt/iam/services/AuthService.java:68-112 | The new store and the result are those of `AuthSpec.Login`: the guard, the reset and save on success, the new ledger row, and the increment with a lock from the fifth failure |
| Services.AuthService.RefreshToken | src/main/java/com/matt/iam/services/AuthService.java:114-179 | The new store and the result are those of `AuthSpec.Refresh`: checks, blacklisting, consumption, ceiling, new pair |
| Services.AuthService.CheckRefreshRequest | src/main/java/com/matt/iam/services/AuthService.java:115-143 | Changes nothing. Returns `AuthSpec.RefreshGuard`: an unrevoked row holding the presented token, a non-empty old access token, and the stored user of the token's subject |
| Services.AuthService.RevokeOldAccessToken | src/main/java/com/matt/iam/services/AuthService.java:145-152 | The blacklist gains the old access token with its own expiry unless a row already holds it. An unverifiable token fails with FAILED_TO_GET_EXPIRATION_TIME and nothing is saved |
| Services.AuthService.RotateTokens | src/main/java/com/matt/iam/services/AuthService.java:154-178 | The saves after the checks: the row is consumed, the oldest active row is revoked when five or more remain, and the new refresh row is appended. Equals `AuthSpec.Rotate` |
| Services.AuthService.Logout | src/main/java/com/matt/iam/services/AuthService.java:181-219 | The new store and the result are those of `AuthSpec.Logout`, including the expired-row save and the saves left behind by a later failure |
| Services.AuthService.CleanupOldTokens | src/main/java/com/matt/iam/services/AuthService.java:221-235 | The ledger becomes `SweepUser(old ledger).ledger`, and nothing else changes |
| AuthSpec.RefreshGuard | src/main/java/com/matt/iam/services/AuthService.java:115-143 | When the checks pass: the refresh token validates, its row holds the token and is unrevoked, the access token is present and non-empty, and the user is the one stored under the subject |
| AuthSpec.RotateIssues | src/main/java/com/matt/iam/services/AuthService.java:154-178 | Rotation always succeeds, with the consumed and trimmed ledger plus one row expiring 604800 s after now, and returns the new pair |
| Registration.CreateUserOutcomes | src/main/java/com/matt/iam/services/AuthService.java:47-66 | Every outcome of `createUser`. Each error leaves the database unchanged. Success adds exactly one user and leaves every other user and table alone |
| Registration.RegisteredUserStarts | src/main/java/com/matt/iam/services/AuthService.java:52-63 | The new user is enabled, has no failed attempts, no lock and no login, holds the encoded password, the single USER role and that role's authorities |
| Registration.CreateUserKeepsNicknamesUnique | src/main/java/com/matt/iam/entities/User.java:42-43 | Registration keeps nicknames unique (the unique column) |
| Registration.RegisteredUserPassesLoginChecks | src/main/java/com/matt/iam/services/AuthService.java:69-78 | A newly registered user passes every login check that precedes the password check |
| Registration.RegisterTwiceRejected | src/main/java/com/matt/iam/services/AuthService.java:48-50 | Registering the same email again fails with USER_ALREADY_EXISTS and saves nothing |
| Lockout.LoginRejectsBeforePasswordCheck | src/main/java/com/matt/iam/services/AuthService.java:69-78 | An unknown, disabled or locked account is refused with USER_NOT_FOUND, ACCOUNT_NOT_ENABLED or ACCOUNT_LOCKED, and nothing is saved |
| Lockout.LoginSuccess | src/main/java/com/matt/iam/services/AuthService.java:82-99 | On success the counter is reset and the login time set. One active row is appended with the token's 7-day expiry, the access token validates to the email, and the active count rises by one |
| Lockout.LoginFailure | src/main/java/com/matt/iam/services/AuthService.java:100-110 | On a wrong password only the user changes: the counter rises by one. From 5 on, the lock is set to now + 30 min and the error is TOO_MANY_ATTEMPTS; below 5 it is INVALID_CREDENTIALS |
| Lockout.CounterResetOnlyBySuccess | src/main/java/com/matt/iam/services/AuthService.java:85-101 | Login succeeds iff the guard passes and the password matches, and then the counter is 0. A failed login never lowers the counter |
| Lockout.ConsecutiveFailuresLock | src/main/java/com/matt/iam/services/AuthService.java:100-107 | Starting from a counter n < 5 with no lock in force (none, or a lapsed one), 5 − n consecutive failures answer INVALID_CREDENTIALS at every attempt before the last one (each shorter run ends with that error), and the last one locks the account until its instant + 30 min with TOO_MANY_ATTEMPTS. The counter ends at 5, and the ledger and blacklist are untouched |
| Lockout.LockedOutForThirtyMinutes | src/main/java/com/matt/iam/services/AuthService.java:76-78 | After the locking failure, any login in the next 30 minutes is refused with ACCOUNT_LOCKED and saves nothing, whatever the password |
| Lockout.LockBoundary | src/main/java/com/matt/iam/entities/User.java:111-114 | The login guard (`isAfter`) and `isAccountNonLocked` (`isBefore`) disagree at exactly the lock instant: both call it locked one second before, only the guard calls it unlocked at the instant itself |
| Lockout.IsAccountNonLockedMeaning | src/main/java/com/matt/iam/entities/User.java:111-114 | The account is non-locked iff there is no lock or the lock lies strictly before now. Non-locked implies the login guard does not lock |
| Lockout.RelockAfterLapse | src/main/java/com/matt/iam/services/AuthService.java:101-106 | The counter is not reset when a lock lapses, so the next wrong password locks again at once |
| Entities.User.GetAuthorities | src/main/java/com/matt/iam/entities/User.java:81-94 | An authority is in the set iff it is the upper-cased name of one of the user's roles or of one of their permissions |
| Entities.AuthoritySetMembers | src/main/java/com/matt/iam/entities/User.java:81-94 | The authority set is the union, over roles, of the upper-cased role name and permission names |
| Entities.NewUser | src/main/java/com/matt/iam/entities/User.java:58-79 | Field defaults: disabled, no failed attempts, no lock, no login, no deactivation, no roles, created now |
| Entities.UserDetailsView | src/main/java/com/matt/iam/entities/User.java:96-124 | Username is the email, password is the hash, accounts and credentials never expire, enabled is the stored flag |
| Entities.Upper | src/main/java/com/matt/iam/entities/User.java:86-89 | Upper-casing keeps the length and maps each character (ASCII letters only) |
| JwtUtil.Verify | src/main/java/com/matt/iam/utils/JwtUtil.java:61-73 | Verification returns the token's own claims, only with issuer "iam-api" and `exp` not before now |
| JwtUtil.PeekSign | src/main/java/com/matt/iam/utils/JwtUtil.java:32-38 | The claims written into a signed token are read back unchanged |
| JwtUtil.ParseEncodeClaims | src/main/java/com/matt/iam/utils/JwtUtil.java:32-38 | Claims encoding round-trips: parsing the encoding yields the claims and the rest of the input |
| JwtUtil.VerifySign | src/main/java/com/matt/iam/utils/JwtUtil.java:61-73 | A token signed with the secret verifies iff its issuer is "iam-api" and it has not expired |
| JwtUtil.VerifyOtherSecret | src/main/java/com/matt/iam/utils/JwtUtil.java:61-73 | A token signed under another secret never verifies |
| JwtUtil.VerifyMalformed | src/main/java/com/matt/iam/utils/JwtUtil.java:70-72 | The empty string does not verify |
| JwtUtil.CollectRoles | src/main/java/com/matt/iam/utils/JwtUtil.java:100-105 | The roles claim is the role names, one per role and in order |
| JwtUtil.CollectPermissions | src/main/java/com/matt/iam/utils/JwtUtil.java:107-114 | The permissions claim has no duplicates and holds exactly the permissions some role grants |
| JwtUtil.ValidateToken | src/main/java/com/matt/iam/utils/JwtUtil.java:61-73 | Returns the subject iff a token is given and verifies, and null otherwise |
| JwtUtil.GetExpirationDateFromToken | src/main/java/com/matt/iam/utils/JwtUtil.java:83-98 | Returns the verified token's `exp`, not before now. Otherwise fails with FAILED_TO_GET_EXPIRATION_TIME |
| JwtUtil.AccessTokenClaims | src/main/java/com/matt/iam/utils/JwtUtil.java:28-42 | An access token carries issuer, subject email, no jti, roles, permissions and exp = now + 900 |
| JwtUtil.RefreshTokenClaims | src/main/java/com/matt/iam/utils/JwtUtil.java:44-59 | A refresh token carries the same claims plus its jti, with exp = now + 604800 |
| JwtUtil.AccessTokenValidates | src/main/java/com/matt/iam/utils/JwtUtil.java:75-77 | An access token validates to its user's email for exactly 900 s after issue |
| JwtUtil.RefreshTokenValidates | src/main/java/com/matt/iam/utils/JwtUtil.java:79-81 | A refresh token validates for exactly 604800 s, and its read expiry is issue + 604800 |
| JwtUtil.ValidateTokenFailures | src/main/java/com/matt/iam/utils/JwtUtil.java:83-98 | A wrong issuer or an expired token validates to null and makes the expiry read fail |
| JwtUtil.GeneratedTokensDiffer | src/main/java/com/matt/iam/utils/JwtUtil.java:44-59 | Refresh tokens with different jti differ, and no access token equals a refresh token |
| RefreshTokenRepository.FindByToken | src/main/java/com/matt/iam/repositories/RefreshTokenRepository.java:14 | Finds a row holding the token, and is empty iff no row holds it |
| RefreshTokenRepository.FindByTokenAndIsRevokedFalse | src/main/java/com/matt/iam/repositories/RefreshTokenRepository.java:16 | Finds an unrevoked row holding the token, and is empty iff every row holding it is revoked |
| RefreshTokenRepository.FindRow | src/main/java/com/matt/iam/repositories/RefreshTokenRepository.java:14-16 | With distinct tokens, both lookups find a row by its own token |
| RefreshTokenRepository.CountByUserAndIsRevokedFalse | src/main/java/com/matt/iam/repositories/RefreshTokenRepository.java:18 | The count is the number of the user's active rows |
| RefreshTokenRepository.CountAppend | src/main/java/com/matt/iam/repositories/RefreshTokenRepository.java:18 | Appending a row raises the count by one iff the row is an active row of the user |
| RefreshTokenRepository.CountUpdate | src/main/java/com/matt/iam/repositories/RefreshTokenRepository.java:18 | Replacing one row changes the count by the change in that row's activity |
| RefreshTokenRepository.FindTopByUserAndIsRevokedFalseOrderByCreatedAtAsc | src/main/java/com/matt/iam/repositories/RefreshTokenRepository.java:20 | Returns an active row of the user created no later than any other such row, and is empty iff there is none |
| RefreshTokenRepository.FindByUserAndExpiresAtBeforeAndIsRevokedFalse | src/main/java/com/matt/iam/repositories/RefreshTokenRepository.java:22 | Returns each of the user's active rows that expire before the instant, once each |
| RefreshTokenRepository.FindByUserAndIsRevokedFalseOrderByCreatedAtDesc | src/main/java/com/matt/iam/repositories/RefreshTokenRepository.java:24 | Returns every active row of the user once, newest first, and as many as the count |
| BlacklistedTokenRepository.Insert | src/main/java/com/matt/iam/entities/BlacklistedToken.java:30-31 | Saving fails with a unique-key violation iff the token is already held. Otherwise it adds exactly that row |
| BlacklistedTokenRepository.DeleteExpiredTokens | src/main/java/com/matt/iam/repositories/BlacklistedTokenRepository.java:17-20 | Removes exactly the rows that expire strictly before now and keeps the others unchanged |
| BlacklistedTokenRepository.DeleteExpiredTokensIdempotent | src/main/java/com/matt/iam/repositories/BlacklistedTokenRepository.java:17-20 | Purging twice at one instant is purging once |
| BlacklistedTokenRepository.DeleteExpiredTokensMonotone | src/main/java/com/matt/iam/repositories/BlacklistedTokenRepository.java:17-20 | A purge followed by a later purge is the later purge alone |
| Persistence.Store.InsertUser | src/main/java/com/matt/iam/entities/User.java:42-47 | Inserting a user succeeds iff the email and the nickname are both new. Otherwise nothing changes |
| Persistence.Store.SaveBlacklisted | src/main/java/com/matt/iam/entities/BlacklistedToken.java:30-37 | The store's blacklist becomes `Insert`'s result, or stays unchanged with its error |
| Persistence.Store.RevokeEach | src/main/java/com/matt/iam/services/AuthService.java:222-226 | Saving each loaded row revoked: the ledger becomes `RevokeAll` of those rows |
| Sweep.SweepOnlyRevokes | src/main/java/com/matt/iam/services/AuthService.java:221-235 | The sweep only turns active rows of the user into revoked ones |
| Sweep.SweepLeavesNoExpired | src/main/java/com/matt/iam/services/AuthService.java:222-226 | After the sweep no active row of the user has expired |
| Sweep.SweepKeepsAtMostFive | src/main/java/com/matt/iam/services/AuthService.java:228-234 | After the sweep the user has at most five active rows |
| Sweep.SweepKeepsNewest | src/main/java/com/matt/iam/services/AuthService.java:228-234 | Every row the second pass revokes is no newer than any row it keeps |
| Sweep.SweepCounts | src/main/java/com/matt/iam/services/AuthService.java:221-235 | Each pass lowers the active count by exactly the number of rows it revokes |
| Sweep.SweepIdempotent | src/main/java/com/matt/iam/services/AuthService.java:221-235 | Sweeping again at the same instant revokes nothing |
| Sweep.SweepOtherOwners | src/main/java/com/matt/iam/services/AuthService.java:221-235 | Other users' rows are untouched |
| Sweep.SweepGuarantees | src/main/java/com/matt/iam/services/AuthService.java:221-235 | Same length, revoked and foreign rows unchanged, at most five active rows, none of them expired |
| Sweep.RevokeAllCount | src/main/java/com/matt/iam/services/AuthService.java:223-226 | Revoking k distinct active rows lowers the count by k |
| Invariants.CreateUserInv | src/main/java/com/matt/iam/services/AuthService.java:47-66 | `createUser` preserves `Inv` |
| Invariants.LoginInv | src/main/java/com/matt/iam/services/AuthService.java:68-112 | `login` with a fresh jti preserves `Inv` |
| Invariants.AppendFreshInv | src/main/java/com/matt/iam/services/AuthService.java:92-97 | A new refresh row with a fresh jti and its token's expiry keeps `Inv` |
| Invariants.RefreshInv | src/main/java/com/matt/iam/services/AuthService.java:114-179 | `refreshToken` with a fresh jti preserves `Inv` |
| Invariants.CleanupOldTokensInv | src/main/java/com/matt/iam/services/AuthService.java:221-235 | `cleanupOldTokens` preserves `Inv` |
| Invariants.LogoutInv | src/main/java/com/matt/iam/services/AuthService.java:181-219 | `logout` preserves `Inv` |
| Invariants.DeleteExpiredTokensInv | src/main/java/com/matt/iam/repositories/BlacklistedTokenRepository.java:17-20 | The blacklist purge preserves `Inv` |
| Invariants.FreshTokenDiffers | src/main/java/com/matt/iam/utils/JwtUtil.java:51 | A refresh token with a fresh jti differs from every stored token |
| Rotation.RefreshOkShape | src/main/java/com/matt/iam/services/AuthService.java:145-178 | Once the checks and the blacklisting pass, the exact database and response of a refresh |
| Rotation.RefreshGuardOwner | src/main/java/com/matt/iam/services/AuthService.java:126-139 | Under `Inv` the consumed row is an active row of the token's subject, and the user is the stored one |
| Rotation.RefreshChecks | src/main/java/com/matt/iam/services/AuthService.java:116-143 | Each check in order: INVALID_TOKEN, INVALID_TOKEN, TOKEN_WAS_REVOKED, USER_NOT_FOUND, then ACCOUNT_LOCKED for a disabled or locked user. None of them saves anything |
| Rotation.RefreshErrorsSaveNothing | src/main/java/com/matt/iam/services/AuthService.java:114-179 | Every error of `refreshToken` leaves the database unchanged |
| Rotation.RefreshNeverReportsExpiredRow | src/main/java/com/matt/iam/services/AuthService.java:129-132 | Under `Inv`, TOKEN_EXPIRED is never reported: a validating token's row has not expired. Holds with one clock, that is on a server at or behind UTC (see "Clock" under "## Left out") |
| Rotation.RefreshAbortsOnUnverifiableAccess | src/main/java/com/matt/iam/services/AuthService.java:145-152 | An unverifiable old access token that is not yet blacklisted aborts with FAILED_TO_GET_EXPIRATION_TIME, before the row is consumed |
| Rotation.RefreshSuccess | src/main/java/com/matt/iam/services/AuthService.java:145-178 | Success: the row is consumed, the old access token is blacklisted with its own expiry unless already there, and one 7-day active row is added. Every other row is unchanged or is an active row of the user that gets revoked |
| Rotation.BlacklistOldAccessEffect | src/main/java/com/matt/iam/services/AuthService.java:145-152 | The blacklisting step, in each of its three cases |
| Rotation.TrimOldestRevokesOnlyActive | src/main/java/com/matt/iam/services/AuthService.java:160-166 | The ceiling changes at most an active row of the user, and only revokes it |
| Rotation.OldestExistsWhenCounted | src/main/java/com/matt/iam/services/AuthService.java:158-166 | If the oldest-row query finds nothing, the count is zero, so `ifPresent` skips only when nothing is active |
| Rotation.TrimOldestCount | src/main/java/com/matt/iam/services/AuthService.java:158-166 | The ceiling lowers the count by one exactly when five or more rows are active |
| Rotation.RefreshCeiling | src/main/java/com/matt/iam/services/AuthService.java:154-176 | A rotation never raises the active count, and keeps a count of at most five at most five |
| Rotation.RefreshTrimsOldest | src/main/java/com/matt/iam/services/AuthService.java:158-166 | A row the ceiling revokes is the oldest active one, and only when five or more remained |
| Rotation.TrimOldestPicksOldest | src/main/java/com/matt/iam/services/AuthService.java:160-165 | The row changed by the ceiling is the oldest active row, and the count was at least five |
| Rotation.RefreshReplayRejected | src/main/java/com/matt/iam/services/AuthService.java:126-127 | A consumed refresh token replayed later fails with INVALID_TOKEN or TOKEN_WAS_REVOKED and saves nothing |
| Rotation.RevokedRowRejected | src/main/java/com/matt/iam/services/AuthService.java:126-127 | The token of any revoked row is refused without saving |
| LogoutFlow.LogoutReachesEndSession | src/main/java/com/matt/iam/services/AuthService.java:182-210 | Once the checks pass, `logout` performs the session-ending saves for the token's user |
| LogoutFlow.EndSessionEffects | src/main/java/com/matt/iam/services/AuthService.java:208-218 | The saves in order: the row is consumed first. Then an unverifiable access token fails, a blacklisted one fails on the unique key, and otherwise the token is blacklisted and the user swept |
| LogoutFlow.LogoutChecks | src/main/java/com/matt/iam/services/AuthService.java:182-206 | Each refusal of `logout`. Only the expired-row refusal saves anything: it marks the row revoked |
| LogoutFlow.LogoutFailsAfterRevoking | src/main/java/com/matt/iam/services/AuthService.java:208-216 | A failure after the first save leaves the refresh row consumed |
| LogoutFlow.LogoutErrorEffects | src/main/java/com/matt/iam/services/AuthService.java:181-219 | A failed `logout` changes at most the presented row, from active to revoked, and only with one of three errors |
| LogoutFlow.LogoutOwnerAndExpiryChecksUnreachable | src/main/java/com/matt/iam/services/AuthService.java:194-206 | Under `Inv`, TOKEN_NOT_BELONG_TO_USER and TOKEN_EXPIRED are never reported. The TOKEN_EXPIRED half holds with one clock, that is on a server at or behind UTC (see "Clock" under "## Left out") |
| LogoutFlow.LogoutSucceedsExactlyWhen | src/main/java/com/matt/iam/services/AuthService.java:181-219 | Under `Inv`, `logout` succeeds iff all of these hold: the refresh token validates, the user exists, the row is active, the access token verifies, and it is not yet blacklisted |
| LogoutFlow.LogoutSuccess | src/main/java/com/matt/iam/services/AuthService.java:208-218 | On success: the row is consumed and the access token blacklisted until its `exp`. The user keeps at most five unexpired active rows, and other users' rows and all users are untouched |
| LogoutFlow.LogoutOkPassesChecks | src/main/java/com/matt/iam/services/AuthService.java:182-206 | Success implies every check passed |
| LogoutFlow.EndSessionSuccess | src/main/java/com/matt/iam/services/AuthService.java:208-218 | What a successful session end leaves, as in `LogoutSuccess` |
| LogoutFlow.LogoutEndsRefresh | src/main/java/com/matt/iam/services/AuthService.java:208-210 | After a logout the same refresh token can never be rotated |
| TokenCleanup.TokenCleanupService.CleanupUserTokensAsync | src/main/java/com/matt/iam/services/TokenCleanupService.java:25-51 | The corrected sweep: the ledger becomes `SweepUser`, and the two counts are the rows each pass revoked |
| TokenCleanup.TokenCleanupService.CleanupExpiredBlacklistedTokensAsync | src/main/java/com/matt/iam/services/TokenCleanupService.java:55-63 | The blacklist becomes `DeleteExpiredTokens(now)`, and nothing else changes |
| TokenCleanup.CountOnlySweepLeavesExpired | src/main/java/com/matt/iam/services/TokenCleanupService.java:29-35 | Under the count-only reading the ledger is unchanged while the reported expired count equals the intended sweep's; that count is positive iff an expired active row of the user remains |
| TokenCleanup.CountOnlySweepCounterexample | src/main/java/com/matt/iam/services/TokenCleanupService.java:29-35 | One expired active row: the count-only reading reports 1 and leaves it active, and the intended sweep revokes it |
| JwtFilter.JwtCustomFilter.DoFilterInternal | src/main/java/com/matt/iam/infra/JwtCustomFilter.java:33-81 | Changes nothing. The outcome is `Decide` on the store's users and blacklist |
| JwtFilter.FilterDecisions | src/main/java/com/matt/iam/infra/JwtCustomFilter.java:36-80 | Each outcome iff its condition: no bearer prefix passes through, then revoked, then failed validation, then no user; otherwise the subject's user is authenticated with the filter's authorities |
| JwtFilter.RefreshTokenAuthenticates | src/main/java/com/matt/iam/infra/JwtCustomFilter.java:51-80 | An unexpired, unblacklisted refresh token authenticates its user, even one that is disabled or locked |
| JwtFilter.RemoveBearerNoSpace | src/main/java/com/matt/iam/infra/JwtCustomFilter.java:43 | Removing the prefix from a string without spaces leaves it unchanged |
| JwtFilter.BearerTokenExtracted | src/main/java/com/matt/iam/infra/JwtCustomFilter.java:38-43 | "Bearer " + t passes the prefix check and yields t, for t without spaces |
| JwtFilter.RemoveBearerInside | src/main/java/com/matt/iam/infra/JwtCustomFilter.java:43 | `replace` removes every occurrence: "Bearer aBearer b" becomes "ab" |
| JwtFilter.BuildAuthorities | src/main/java/com/matt/iam/infra/JwtCustomFilter.java:68-75 | The two loops build the "ROLE_" authorities and then every permission, in order, duplicates kept |
| JwtFilter.FilterAuthoritiesMembers | src/main/java/com/matt/iam/infra/JwtCustomFilter.java:68-75 | Position i holds "ROLE_" + the name of role i, and the rest holds exactly the permissions some role grants, not upper-cased |
| JwtFilter.PermissionAuthoritiesMembers | src/main/java/com/matt/iam/infra/JwtCustomFilter.java:73-75 | The permission part holds exactly the permissions some role grants |
| Controller.LogoutEndpoint | src/main/java/com/matt/iam/controllers/AuthController.java:47-64 | 400 iff the header is missing, lacks the prefix, or is at most 7 characters. Otherwise the access token is the non-empty rest after the prefix, and the refresh token is the body's or null |
| Controller.EmptyBearerRejected | src/main/java/com/matt/iam/controllers/AuthController.java:52-54 | A bare "Bearer ", another scheme or no header gives 400 |
| Controller.EndpointAgreesWithFilter | src/main/java/com/matt/iam/controllers/AuthController.java:56 | For a token without spaces the endpoint's `substring(7)` and the filter's `replace` agree |
| Controller.EndpointAndFilterDiffer | src/main/java/com/matt/iam/controllers/AuthController.java:56 | With a second "Bearer " inside, they extract different tokens |
| Revocation.RefreshRevokesOldAccess | src/main/java/com/matt/iam/services/AuthService.java:145-152 | After a successful refresh the old access token is blacklisted and earlier rows are kept |
| Revocation.LogoutRevokesAccess | src/main/java/com/matt/iam/services/AuthService.java:212-216 | After a successful logout the access token is blacklisted and earlier rows are kept |
| Revocation.RefreshKeepsBlacklistExpiry | src/main/java/com/matt/iam/services/AuthService.java:148 | Refresh keeps every blacklist row's expiry equal to its token's own |
| Revocation.LogoutKeepsBlacklistExpiry | src/main/java/com/matt/iam/services/AuthService.java:214 | Logout keeps every blacklist row's expiry equal to its token's own |
| Revocation.InsertVerifiedKeepsExpiry | src/main/java/com/matt/iam/services/AuthService.java:148 | A row whose expiry was read by verifying its token keeps the property |
| Revocation.BlacklistedTokenRefused | src/main/java/com/matt/iam/infra/JwtCustomFilter.java:45-49 | The filter refuses a blacklisted token as revoked |
| Revocation.RevokedStaysRejected | src/main/java/com/matt/iam/services/TokenCleanupService.java:58 | After any purge up to now, a token that was blacklisted is still refused: a purged row's token has expired. Holds with one clock, that is on a server at or behind UTC (see "Clock" under "## Left out") |
| Revocation.LoggedOutAccessTokenRefused | src/main/java/com/matt/iam/infra/JwtCustomFilter.java:45-49 | After logout the filter refuses the logged-out access token at any later time |
| Revocation.RotatedAccessTokenRefused | src/main/java/com/matt/iam/infra/JwtCustomFilter.java:45-49 | After refresh the filter refuses the old access token at any later time |
| Requests.ValidPasswordShape | src/main/java/com/matt/iam/dtos/request/RegisterRequest.java:18-22 | A valid password has at least 8 characters from the alphabet, with one lower-case, one upper-case, one digit and one special character |
| Requests.ValidPasswordIff | src/main/java/com/matt/iam/dtos/request/RegisterRequest.java:18-22 | For every string, both directions: the password passes its three constraints exactly when it has at least 8 characters, all from the alphabet, with one of each class, so `@NotBlank` is subsumed |
| Requests.NotBlankIffTrimNonEmpty | src/main/java/com/matt/iam/dtos/request/RegisterRequest.java:9-18 | For every string, `@NotBlank` (a character above ' ') holds exactly when `trim()` leaves a non-empty string |
| Requests.NicknameIff | src/main/java/com/matt/iam/dtos/request/RegisterRequest.java:9-10 | For every string, the nickname passes `@NotBlank` and `@Size` exactly when it has 5 to 20 characters and does not trim to empty |
| Requests.PatternImpliesNotBlank | src/main/java/com/matt/iam/dtos/request/RegisterRequest.java:18-20 | The pattern alone already excludes blank passwords |
| Requests.ForeignCharacterRejects | src/main/java/com/matt/iam/dtos/request/RegisterRequest.java:20 | Any character outside the alphabet makes the password invalid |
| Requests.SpaceAndHashAreForeign | src/main/java/com/matt/iam/dtos/request/RegisterRequest.java:20 | Space and '#' are outside the alphabet |
| Requests.SevenCharactersRejected | src/main/java/com/matt/iam/dtos/request/RegisterRequest.java:19-20 | A 7-character password matches the pattern but fails the size rule |
| Requests.SamplePasswordAccepted | src/main/java/com/matt/iam/dtos/request/RegisterRequest.java:18-22 | "Passw0rd!" is valid |
| Requests.NicknameBounds | src/main/java/com/matt/iam/dtos/request/RegisterRequest.java:9-10 | The nickname length lies between 5 and 20, although the message says 2 to 20 |
| Requests.BlankNicknameRejected | src/main/java/com/matt/iam/dtos/request/RegisterRequest.java:9 | A nickname of spaces only is rejected |

## Left out

- **Signature.** HMAC-SHA256 is replaced by a stand-in tag: the secret concatenated with the payload. Forgery resistance is not modelled. Only "another secret never verifies" is proved.
- **Password encoding.** Encoding and `authenticationManager.authenticate` are an opaque encoder parameter: `encode`, and `matches` on the password and the stored hash.
- **Clock, UUIDs and jti.** The clock is a single integer of seconds passed in as `now`, with no time zones and no `LocalDateTime`/`Instant` conversion. The model therefore assumes the server runs in UTC (or behind it). `getExpirationDateFromToken` (src/main/java/com/matt/iam/utils/JwtUtil.java:91-94) stores expiries as UTC `LocalDateTime`s, and `refreshToken`, `logout`, `cleanupOldTokens` and both sweeps compare them with `LocalDateTime.now()` in the server's zone, while `validateToken` checks the true instant. On a server ahead of UTC by h hours, a refresh token in its last h hours validates and is then refused with TOKEN_EXPIRED (logout also saves its row revoked first), the user sweeps revoke rows h hours early, and the blacklist purge deletes a row up to h hours before its access token expires, after which the filter accepts that revoked token again. `Rotation.RefreshNeverReportsExpiredRow`, `LogoutFlow.LogoutOwnerAndExpiryChecksUnreachable` and `Revocation.RevokedStaysRejected` hold only under this assumption. The database-generated user id and the random jti are parameters. Freshness of the jti is a precondition (`FreshJti`) only where it is needed.
- **Concurrency.** `@Async`, `@Transactional`, thread pools and interleavings are not modelled. Each operation runs alone, with no rollback: the saves before a thrown exception stay.
- **Token creation failure.** A `JWTCreationException` (FAILED_TO_CREATE_TOKEN) cannot happen in the model, because signing is total.
- **Row identity.** The ledger row owner is the user's email, not the user id. This is the same thing under `Inv`, since users are keyed by their unique email.
- **Iteration order.** A role set and a permission set are modelled as sequences in their iteration order. The tie-breaking of the ordered queries among equal `createdAt` values is left unspecified.
- **`transient` roles.** `User.roles` is a `transient` field, but the model keeps the roles as stored.
- **Validation details.** The nickname's Unicode pattern and `@Email` are not modelled. `toUpperCase` is modelled for ASCII letters only.
- **HTTP plumbing.** Writing the response, the `SecurityContext`, the exception handler's mapping to HTTP statuses, the login, refresh and register endpoints, and `CustomUserDetailsService` are not modelled. Neither is logging.
- **Sweep exceptions.** The sweeps' `catch` blocks are not modelled, because no step of the sweep can fail in the model.
- **Unused constant.** `MAX_REFRESH_ATTEMPTS` is declared but never used.
- **Call signatures.** `refreshToken` and `logout` take their two tokens as explicit parameters, because the `RefreshTokenRequest` record and the controller's call to `logout` do not match in the source. The `RefreshToken` and `Role` entity files are not part of this model: their fields are read off their uses.
- **Role loading.** Eager versus lazy loading of roles has no effect on behaviour and is not modelled.
- TokenCleanup.TokenCleanupService.CleanupUserTokensAsync: models the intended sweep (each loaded row revoked and saved), not the `peek`/`count` pipeline as written. The as-written reading is `CountOnlySweep`, below.

## Findings

| source | as written | input that shows it | evidently intended | confidence | as-written member | corrected member |
|---|---|---|---|---|---|---|
| src/main/java/com/matt/iam/services/TokenCleanupService.java:29-44 | Each pass revokes and saves inside `peek` and ends in `count()`. On a sized stream (a loaded `List`, and after `skip(5)` on one) the JDK may compute the count without running the pipeline, so no row is revoked while the logged counts claim they were | ledger `[("t", "ana@iam.dev", created 0, expires 10, active)]`, sweep at 20: the count reports 1 expired token and the row stays active | revoke and save every loaded row, as `AuthService.cleanupOldTokens` does with `forEach` | medium; not executed | TokenCleanup.CountOnlySweepCounterexample | TokenCleanup.TokenCleanupService.CleanupUserTokensAsync |
