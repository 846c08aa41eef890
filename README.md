# DataVion Authentication: account and session state machine

This project models, in Dafny, the account and session core of the DataVion
authentication service (Spring, Java). It covers the two tables the service
changes and every operation that changes or reads them:

- **users table.** User records (`User.java`) keyed by id. It has unique
  `username` and `email` columns and a soft-delete marker. The queries of
  `UserRepository.java` all filter on `deletedAt IS NULL`.
- **refresh-token table.** Each row holds a digest, an owner, an expiry and a
  revoked flag. It has the finders and the two bulk JPQL statements of
  `RefreshTokenRepository.java`.
- **lockout policy.** A failed login adds one to the counter (a Java `int`,
  wrap-around written out). At five or more the account is locked and stamped.
  A successful login resets the counter. An administrator's unlock clears all
  three lockout columns.
- **session operations of `AuthService.java`.** These are `register`, `login`
  (success, bad credentials and other failures), `refreshToken`, `logout`,
  `saveRefreshToken` and `handleFailedLogin`.
- **`UserService.java`.** These are `getAllUsers`, `getUserById` and
  `unlockUser`.
- **Spring Security view of a user (`UserPrincipal.java`).** Its authorities
  (`resource:action` strings) and its status flags.

Layout. Six modules follow one source file each (`Entities` gathers the entity classes). `LockoutPolicy` gathers the lockout column updates scattered over `AuthService.java` and `UserService.java`. `Transactions` models Spring's transaction boundary around `login`. `TokenDigests` models how a refresh token's digest is found again:

| file | module | models |
|---|---|---|
| `Entities.dfy` | `Entities` | `User.java` records and defaults, `isDeleted`, `softDelete`, the refresh-token row, the exceptions, Java `int`/`long` arithmetic |
| `UserRepository.dfy` | `UserRepository` | the derived queries and counts as functions, and the table as class `UserTable` |
| `RefreshTokenRepository.dfy` | `RefreshTokenRepository` | finders and the bulk statements as functions, and class `TokenTable` whose methods run them in place |
| `UserPrincipal.dfy` | `UserPrincipal` | authorities and flags |
| `LockoutPolicy.dfy` | `LockoutPolicy` | the three lockout transitions on a record |
| `UserService.dfy` | `UserService` | the read operations as functions, and `unlockUser` as a method |
| `AuthService.dfy` | `AuthService` | class `AuthService` with one method per operation, and lemmas on their effects |
| `Transactions.dfy` | `Transactions` | the `@Transactional` rollback around `login` (Finding 1) |
| `TokenDigests.dfy` | `TokenDigests` | token lookup by digest (Finding 2), and the sessions `register` and `refreshToken` leave |

How the parts that cannot be seen are modelled:

- **Time.** `LocalDateTime.now()` is an integer `now`, in seconds.
- **`AuthenticationManager.authenticate`.** It is the `AuthOutcome` argument of `Login`. It has three outcomes: `Authenticated(id)`, `BadCredentials`, or `OtherFailure`.
- **`JwtUtil`.** It supplies the access and refresh strings as arguments. `FreshToken` is an assumption about the generator and `encode` together: the digest of a newly generated refresh token is not yet in the table.
- **`PasswordEncoder.encode`.** It is a function `encode` fixed when the service is built. The model therefore assumes it is deterministic; see Finding 2.
- **`roleRepository.findByName("USER")`.** It is the `userRole: Option<Role>` argument.
- **Persistence.** A Spring Data `Optional` result is an `Option`. A single-result query that matches two rows is the `ManyRows` lookup, and it throws `IncorrectResultSize`.

### Where the code differs from the intended behaviour (the model follows the code)

- **Refresh revocation.** The intended behaviour is that a refresh revokes all of the user's sessions. The code revokes only the presented row (`AuthService.java:151-153`), and `RotatedTokenIsSpent` shows that the user's other rows stay as they were. This still leaves a single live session. Every operation keeps each user to at most one unrevoked row (`AtMostOneLive`, part of `AuthService.Valid`). The presented row must be valid, so it was the owner's only unrevoked row. Revoking it therefore leaves the owner with none (`RevokingValidRowEndsSession`), and the row saved next is the owner's only live session.
- **Locked users.** A locked account is meant to be rejected before its credentials are checked. The code leaves that check to Spring's `AuthenticationManager` (through `isAccountNonLocked`), which is outside the model. Refresh checks neither the lock nor deletion, so a locked or soft-deleted user can still refresh.
- **Soft-deleted users.**
  - `unlockUser` applies to soft-deleted users too (`UserService.java:41-48`).
  - `register` checks uniqueness only among live users (`AuthService.java:49-55`), but the table's unique columns (`User.java:29-33`) also cover soft-deleted rows. Registering a name held only by a deleted user therefore fails with `UniqueViolation`.
- **Lock timestamp.** `lockedAt` is re-stamped on every failure at or above the threshold, not only on the failure that locks.
- **Refresh errors.** An expired token and a revoked token fail with one message, "Refresh token is expired or revoked", not two.
- **Login lookup.** The login lookup matches username OR email. Two different users can match the same string (one's username is the other's email), and the query then throws.
- **Lockout never happens.** As written, failed attempts never lock an account at all (Finding 1).

## Model

| member | source | states |
|---|---|---|
| Entities.NewUser | src/main/java/com/datavion/authentication/entity/User.java:38-75 | a built user is unverified, unlocked, with counter 0, source LOCAL, no roles, no lock/login/deletion timestamps |
| Entities.IsDeleted | src/main/java/com/datavion/authentication/entity/User.java:88-90 | a user is deleted exactly when it carries a deletion timestamp |
| Entities.SoftDeleted | src/main/java/com/datavion/authentication/entity/User.java:88-94 | after `softDelete` the user is deleted (`deletedAt` set to now) and no other field changes |
| UserRepository.FindById | src/main/java/com/datavion/authentication/service/UserService.java:29-30 | `findById` finds a row exactly when the key is present, deleted or not, and returns that row |
| UserRepository.FindByUsernameAndDeletedAtIsNull | src/main/java/com/datavion/authentication/repository/UserRepository.java:16 | returns a live row with that username, or none when every row with it is deleted |
| UserRepository.FindByEmailAndDeletedAtIsNull | src/main/java/com/datavion/authentication/repository/UserRepository.java:18 | returns a live row with that email, or none when every row with it is deleted |
| UserRepository.FindByUsernameOrEmailAndDeletedAtIsNull | src/main/java/com/datavion/authentication/repository/UserRepository.java:20-21 | no row iff no live user has the string as username or email; one row iff exactly one does; a multi-row failure iff two distinct live users do |
| UserRepository.FindByDeletedAtIsNull | src/main/java/com/datavion/authentication/repository/UserRepository.java:27 | the listing holds exactly the live rows, unchanged |
| UserRepository.ExistsByUsernameAndDeletedAtIsNull | src/main/java/com/datavion/authentication/repository/UserRepository.java:23 | holds iff some row of the live listing carries the username |
| UserRepository.ExistsByEmailAndDeletedAtIsNull | src/main/java/com/datavion/authentication/repository/UserRepository.java:25 | holds iff some row of the live listing carries the email |
| UserRepository.ExistsIffFound | src/main/java/com/datavion/authentication/repository/UserRepository.java:23-25 | each exists-check holds iff the matching find returns a live row |
| UserRepository.CountActiveUsers | src/main/java/com/datavion/authentication/repository/UserRepository.java:29-30 | `countActiveUsers` equals the number of live rows, the size of the unpaged listing |
| UserRepository.CountLockedUsers | src/main/java/com/datavion/authentication/repository/UserRepository.java:32-33 | `countLockedUsers` is the number of locked rows in the live listing, and never exceeds `countActiveUsers` |
| UserRepository.LiveRowsUnique | src/main/java/com/datavion/authentication/entity/User.java:29-33 | the live rows alone keep username and email unique |
| UserRepository.FindsSeeOnlyLiveRows | src/main/java/com/datavion/authentication/repository/UserRepository.java:16-25 | the username and email finds and exists-checks answer on the whole table exactly as on its live rows, so none observes a soft-deleted user |
| UserRepository.LoginLookupSeesOnlyLiveRows | src/main/java/com/datavion/authentication/repository/UserRepository.java:20-21 | the username-or-email lookup answers on the whole table exactly as on its live rows |
| UserRepository.CountsSeeOnlyLiveRows | src/main/java/com/datavion/authentication/repository/UserRepository.java:29-33 | both counts answer on the whole table exactly as on its live rows |
| UserRepository.UserTable.Insert | src/main/java/com/datavion/authentication/service/AuthService.java:70 | saving a new user assigns the next key, adds exactly that row and keeps the unique columns unique |
| UserRepository.UserTable.Save | src/main/java/com/datavion/authentication/service/AuthService.java:106 | saving a managed user replaces exactly its row |
| UserRepository.UserTable.RefuseInsert | src/main/java/com/datavion/authentication/entity/User.java:25-27 | an insert refused by the unique constraints uses up the next IDENTITY key and changes no row |
| UserRepository.UserTable.Rollback | src/main/java/com/datavion/authentication/service/AuthService.java:90 | a rollback restores the rows of a snapshot and keeps the next key, so an IDENTITY value once handed out is not reused |
| UserRepository.UserTable.SoftDelete | src/main/java/com/datavion/authentication/entity/User.java:92-94 | soft-deleting replaces the row by its soft-deleted version and keeps it in the table |
| RefreshTokenRepository.FindByTokenHash | src/main/java/com/datavion/authentication/repository/RefreshTokenRepository.java:18 | a found row carries the digest; none is found iff no row carries it |
| RefreshTokenRepository.FindByTokenHashUnique | src/main/java/com/datavion/authentication/repository/RefreshTokenRepository.java:18 | with distinct digests the lookup of a row's digest finds that very row |
| RefreshTokenRepository.FindByUser | src/main/java/com/datavion/authentication/repository/RefreshTokenRepository.java:20 | a row is returned iff it is in the table and owned by the user; each owned row as often as the table holds it, and no other row |
| RefreshTokenRepository.FindByUserNone | src/main/java/com/datavion/authentication/repository/RefreshTokenRepository.java:20 | a user owning no row finds the empty list |
| RefreshTokenRepository.RevokedAllByUser | src/main/java/com/datavion/authentication/repository/RefreshTokenRepository.java:22-24 | after the bulk update every row of the user is revoked, no row is added or removed, digests/owners/expiries stay, and other users' rows are untouched |
| RefreshTokenRepository.RevokedAllByUserIdempotent | src/main/java/com/datavion/authentication/repository/RefreshTokenRepository.java:23 | running the bulk update twice equals running it once |
| RefreshTokenRepository.WithoutExpired | src/main/java/com/datavion/authentication/repository/RefreshTokenRepository.java:26-28 | the sweep never grows the table, and every row it keeps was in the table and has not expired |
| RefreshTokenRepository.WithoutExpiredExact | src/main/java/com/datavion/authentication/repository/RefreshTokenRepository.java:26-28 | a row survives the sweep iff it was in the table and `expiresAt >= now` (a row expiring at exactly now survives, unmodified) |
| RefreshTokenRepository.WithoutExpiredIdempotent | src/main/java/com/datavion/authentication/repository/RefreshTokenRepository.java:26-28 | sweeping twice with the same `now` equals sweeping once |
| RefreshTokenRepository.WithoutExpiredDistinct | src/main/java/com/datavion/authentication/repository/RefreshTokenRepository.java:26-28 | the sweep keeps digests distinct |
| RefreshTokenRepository.WithoutExpiredKeepsOneLive | src/main/java/com/datavion/authentication/repository/RefreshTokenRepository.java:26-28 | the sweep keeps every user to at most one unrevoked row |
| RefreshTokenRepository.TokenTable.Save | src/main/java/com/datavion/authentication/service/AuthService.java:184 | saving a new row appends exactly it and keeps digests distinct |
| RefreshTokenRepository.TokenTable.SaveRevoked | src/main/java/com/datavion/authentication/service/AuthService.java:151-152 | `setRevoked(true)` then `save` flips only that row's revoked flag |
| RefreshTokenRepository.TokenTable.RevokeAllByUser | src/main/java/com/datavion/authentication/repository/RefreshTokenRepository.java:22-24 | the in-place update leaves the table equal to the bulk-revoked table |
| RefreshTokenRepository.TokenTable.Rollback | src/main/java/com/datavion/authentication/service/AuthService.java:90 | a rollback restores the rows of a snapshot |
| RefreshTokenRepository.TokenTable.DeleteExpiredTokens | src/main/java/com/datavion/authentication/repository/RefreshTokenRepository.java:26-28 | the in-place delete leaves the table equal to the swept table, digests still distinct, and at most one unrevoked row per user if that held before |
| UserPrincipal.GetAuthorities | src/main/java/com/datavion/authentication/security/UserPrincipal.java:20-25 | a string is an authority iff some role of the user holds a permission rendering to `resource + ":" + action` |
| UserPrincipal.AuthoritiesEmpty | src/main/java/com/datavion/authentication/security/UserPrincipal.java:21-24 | no roles, or roles without permissions, give no authority |
| UserPrincipal.AuthorityInjective | src/main/java/com/datavion/authentication/security/UserPrincipal.java:23 | with colon-free resources, equal authority strings come from equal permissions |
| UserPrincipal.IsAccountNonLocked | src/main/java/com/datavion/authentication/security/UserPrincipal.java:43-45 | the principal is non-locked iff the record's lock flag is clear |
| UserPrincipal.IsEnabled | src/main/java/com/datavion/authentication/security/UserPrincipal.java:53-55 | the principal is enabled iff the email is verified and the user is not soft-deleted |
| UserPrincipal.PrincipalFlags | src/main/java/com/datavion/authentication/security/UserPrincipal.java:28-50 | password and username are the record's; the two non-expired flags are always true |
| UserPrincipal.NewUserPrincipal | src/main/java/com/datavion/authentication/security/UserPrincipal.java:43-55 | a freshly built user is non-locked, not enabled, and has no authority |
| LockoutPolicy.RecordFailedLogin | src/main/java/com/datavion/authentication/service/AuthService.java:190-196 | the counter rises by exactly one (below `int` max); locked iff it was or the counter reached 5; `lockedAt` is now from 5 on, unchanged below; no other field changes |
| LockoutPolicy.LoggedIn | src/main/java/com/datavion/authentication/service/AuthService.java:104-105 | counter 0, last login now, lock untouched, nothing else changes |
| LockoutPolicy.Unlocked | src/main/java/com/datavion/authentication/service/UserService.java:44-46 | unlocked, no lock time, counter 0, nothing outside the lockout columns changes |
| LockoutPolicy.LockIsSticky | src/main/java/com/datavion/authentication/service/AuthService.java:190-196 | a failed login never clears a lock; unlocking is idempotent |
| LockoutPolicy.FailedLoginsCount | src/main/java/com/datavion/authentication/service/AuthService.java:190-196 | k failures from counter c leave counter c+k and lock exactly when locked before or c+k reached 5 |
| LockoutPolicy.FifthFailureLocks | src/main/java/com/datavion/authentication/service/AuthService.java:192-196 | from a clean record four failures leave the account usable and the fifth locks it, stamped now |
| LockoutPolicy.LoginRestartsLockoutCount | src/main/java/com/datavion/authentication/service/AuthService.java:104-105 | a successful login after fewer than five failures makes the next lock take five fresh failures |
| LockoutPolicy.UnlockRestartsLockoutCount | src/main/java/com/datavion/authentication/service/UserService.java:44-46 | unlocking gives a usable account (enabled as before) that the fifth next failure locks again |
| UserService.GetAllUsers | src/main/java/com/datavion/authentication/service/UserService.java:21-25 | the listing holds exactly the live users |
| UserService.GetUserById | src/main/java/com/datavion/authentication/service/UserService.java:27-37 | succeeds iff the id exists and is not deleted, returning that row; otherwise "User not found" for both cases |
| UserService.SoftDeletedUserIsHidden | src/main/java/com/datavion/authentication/service/UserService.java:28-34 | a soft-deleted user keeps its row but reads as not found and is not listed |
| UserService.UserService.UnlockUser | src/main/java/com/datavion/authentication/service/UserService.java:39-49 | unknown id fails with "User not found" and changes nothing; a known id, deleted or not, gets exactly the unlocked record and no other row changes |
| AuthService.FailedLoginEffect | src/main/java/com/datavion/authentication/service/AuthService.java:187-200 | a bad-credentials login records a failure on the single live user it matches and on no one else; an identifier only deleted users carry changes nothing |
| AuthService.LoginLeavesOneLiveSession | src/main/java/com/datavion/authentication/service/AuthService.java:113-114 | after revoke-then-save, the new row is the user's only unrevoked row; other users' rows are unchanged |
| AuthService.RotatedTokenIsSpent | src/main/java/com/datavion/authentication/service/AuthService.java:151-153 | after a rotation the old digest still finds its row, now invalid at any time; the user's other rows are unchanged; digests stay distinct |
| AuthService.LogoutEffect | src/main/java/com/datavion/authentication/service/AuthService.java:163-173 | logout revokes exactly the row with the digest (none if unmatched), keeping its digest, owner and expiry; keeps digests distinct, and is idempotent |
| AuthService.NewSessionKeepsOneLive | src/main/java/com/datavion/authentication/service/AuthService.java:175-185 | a new unrevoked row for a user without a live row keeps at most one live row per user and is its owner's only one |
| AuthService.RevokingKeepsOneLive | src/main/java/com/datavion/authentication/service/AuthService.java:168-171 | revoking one row never creates a second live row for anyone |
| AuthService.RevokingAllKeepsOneLive | src/main/java/com/datavion/authentication/service/AuthService.java:113 | after the bulk revoke the user has no live row and every other user still has at most one |
| AuthService.RevokingValidRowEndsSession | src/main/java/com/datavion/authentication/service/AuthService.java:139-153 | a valid presented row is its owner's only live row, so revoking it leaves the owner with none |
| AuthService.NewOwnerHasNoSession | src/main/java/com/datavion/authentication/service/AuthService.java:70-78 | a user id not yet in the users table owns no token row |
| AuthService.AuthService.constructor | src/main/java/com/datavion/authentication/service/AuthService.java:29-44 | the service is wired to the two tables; tables that are valid, whose tokens all have owners and where no user has two live tokens give a valid service |
| AuthService.AuthService.SaveRefreshToken | src/main/java/com/datavion/authentication/service/AuthService.java:175-185 | appends one unrevoked row with the token's digest, expiring `refreshTokenExpiration / 1000` seconds (truncated) after now; each caller first leaves the owner without a live row, so every user keeps at most one |
| AuthService.AuthService.Register | src/main/java/com/datavion/authentication/service/AuthService.java:46-88 | username checked before email among live users, then role, then unique columns; every failure stores no row, and a refused insert still uses up one IDENTITY key; success adds exactly one default user with the USER role and exactly one new token for it |
| AuthService.AuthService.HandleFailedLogin | src/main/java/com/datavion/authentication/service/AuthService.java:187-200 | records the failure on the one matched live user; a lookup matching two users fails |
| AuthService.AuthService.Login | src/main/java/com/datavion/authentication/service/AuthService.java:90-130 | success resets the counter, stamps the last login, revokes all the user's rows and appends one; bad credentials record the failure and fail "Invalid credentials"; other failures change nothing |
| AuthService.AuthService.Refresh | src/main/java/com/datavion/authentication/service/AuthService.java:132-161 | missing digest fails "Invalid refresh token", invalid row fails "expired or revoked", neither changes state; otherwise exactly the presented row is revoked and one row for its owner appended |
| AuthService.AuthService.Logout | src/main/java/com/datavion/authentication/service/AuthService.java:163-173 | no token changes nothing; a token revokes the row with its digest, if any |
| Transactions.LoginTransaction | src/main/java/com/datavion/authentication/service/AuthService.java:90-130 | `login` in its transaction: any failure leaves both tables as they were; a bad-credentials login leaves the users table as one as-written bad login; success commits `Login`'s writes |
| Transactions.BadLoginsRolledBack | src/main/java/com/datavion/authentication/service/AuthService.java:90-130 | as written, any number of bad-credentials logins leaves the users table unchanged (by definition; `LoginTransaction` shows one step is what a login commits) |
| Transactions.FiveBadLoginsDoNotLockAsWritten | src/main/java/com/datavion/authentication/service/AuthService.java:125-128 | as written, a clean account is still unlocked with counter 0 after five bad logins |
| Transactions.FailedLoginKeepsLookup | src/main/java/com/datavion/authentication/service/AuthService.java:188-198 | recording a failure keeps the login lookup finding the same single user |
| Transactions.BadLoginsKeepLookup | src/main/java/com/datavion/authentication/service/AuthService.java:188-198 | with failures committed, the identifier keeps finding the same single user through any number of bad logins |
| Transactions.BadLoginsEffect | src/main/java/com/datavion/authentication/service/AuthService.java:187-200 | with failures committed, k bad logins apply k failures to the matched user and leave every other user unchanged |
| Transactions.FiveBadLoginsLock | src/main/java/com/datavion/authentication/service/AuthService.java:192-196 | with failures committed, a clean account stays usable through four bad logins and is locked by the fifth |
| TokenDigests.SaltedDigestNeverFound | src/main/java/com/datavion/authentication/service/AuthService.java:134-137 | with a salted encoder, the digest of a presented token never finds a stored row, even the row made from that token |
| TokenDigests.IssuedTokenRefreshes | src/main/java/com/datavion/authentication/service/AuthService.java:176-181 | with the deterministic encoder, a just-saved token is found at its new row, owned by its user, and valid exactly until its expiry |
| TokenDigests.RegisterIssuesOneSession | src/main/java/com/datavion/authentication/service/AuthService.java:62-78 | a newly registered user owns exactly one refresh token, the unrevoked one `register` saved |

## Left out

- Controllers (`AuthController.java`, `UserController.java`): HTTP routing and authorization annotations.
- Response shaping (`AuthResponse`, `UserResponse`, `mapToUserResponse`, `expiresIn`): the model's `AuthResponse` carries only the two tokens and the user id. Paging (`Pageable`) is out, so `findByDeletedAtIsNull` and `getAllUsers` return every live row.
- JWT signing: `JwtUtil` is not part of this model. Tokens are arguments, and a new refresh token's digest is required to be new to the table.
- Password hashing: `PasswordEncoder` is not part of this model and is the function `encode`; what a salted encoder would do is Finding 2.
- `AuthenticationManager`: its lookup, password, locked and enabled checks are not part of this model, only the outcome `login` reacts to. `Login` therefore requires an authenticated id to exist.
- `RefreshToken.java` is not part of this model. `isValid()` is taken to be "not revoked and now before `expiresAt`", and `createdAt` is left out.
- `@Transactional` beyond `login`: concurrency, isolation and the lost update of the read-then-write counter are not modelled. Each service method runs alone, and a failing `register` or `refreshToken` changes nothing: no failure leaves a write behind. `register` detects a unique-constraint violation before inserting and then only advances the next key (`UserTable.RefuseInsert`), because the refused INSERT has already drawn an IDENTITY value and the rollback does not return it.
- Username and email comparisons: lookups, exists-checks, the login lookup and the unique constraints all compare strings exactly, case-sensitively and without normalisation. A database collation that folds case (MySQL's default, for example) would also treat "alice" and "Alice" as equal, so registering "alice" while a live "Alice" exists would fail there.
- Logging, `lastLoginIp`, `tenant`, `createdAt`/`updatedAt`: never read or written by the core.
- Role, Permission and Tenant entities: only `Role.permissions` and `Permission.resource`/`action` are kept.
- AuthService.AuthService.SaveRefreshToken: `plusSeconds` overflow of `LocalDateTime` is not modelled (time is an unbounded integer).
- AuthService.AuthService.Login: models the statements of `login`, including the recorded failure; the rollback that discards it is `Transactions.LoginTransaction`.

## Findings

| source | as written | input that shows it | evidently intended | confidence | as-written member | corrected member |
|---|---|---|---|---|---|---|
| src/main/java/com/datavion/authentication/service/AuthService.java:90-130 | `login` is `@Transactional` and ends every bad-credentials attempt by throwing `BadCredentialsException`, an unchecked exception, so Spring rolls back the counter and lock that `handleFailedLogin` saved | five logins with a wrong password for a live, unlocked user with counter 0 | the failure is committed despite the exception, and the fifth failure locks the account | high (Spring's default rollback rule; not executed) | Transactions.FiveBadLoginsDoNotLockAsWritten | Transactions.FiveBadLoginsLock |
| src/main/java/com/datavion/authentication/service/AuthService.java:134-137 | the refresh token's digest is stored as `passwordEncoder.encode(token)` and looked up by a second, independent `encode(token)` | any refresh with a salted encoder such as BCrypt: the stored row was made from this very token, but with a different salt | a deterministic digest (for example SHA-256), so the second digest equals the stored one | medium (the encoder bean is not part of this model; not executed) | TokenDigests.SaltedDigestNeverFound | TokenDigests.IssuedTokenRefreshes |
