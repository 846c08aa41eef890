/** The session service (AuthService.java): register, login, refresh and
    logout over the users table and the refresh-token table.

    What the service calls but this model cannot see is a parameter:
    - `AuthenticationManager.authenticate` is the `AuthOutcome` of the call;
    - `JwtUtil` hands out the access and refresh token strings; that the
      digest `encode` gives a newly generated refresh token is not yet in the
      table is an assumption about the generator and `encode` together;
    - `PasswordEncoder.encode` is the function `encode` fixed when the service
      is built, so equal inputs give equal digests (see README, Findings);
    - `LocalDateTime.now()` is `now`, a count of seconds;
    - `roleRepository.findByName("USER")` is the `userRole` argument. */
module AuthService {
  import opened Entities
  import opened UserRepository
  import opened RefreshTokenRepository
  import opened LockoutPolicy

  /** How `authenticationManager.authenticate` ends: with the principal of a
      user, with `BadCredentialsException`, or with any other exception. */
  datatype AuthOutcome = Authenticated(id: UserId) | BadCredentials | OtherFailure

  /** The tokens and the user an `AuthResponse` carries (the user summary
      itself is response shaping). */
  datatype AuthResponse = AuthResponse(accessToken: string, refreshToken: string, user: UserId)

  /** Every refresh token references a user of the users table. */
  ghost predicate OwnersExist(rows: Rows, users: Users) {
    forall i :: 0 <= i < |rows| ==> rows[i].owner in users
  }

  /** The users table after `handleFailedLogin`: the one live user matched by
      username or email has a failed attempt recorded; otherwise nothing changes. */
  function FailedLoginUsers(users: Users, usernameOrEmail: string, now: Timestamp): Users {
    match FindByUsernameOrEmailAndDeletedAtIsNull(users, usernameOrEmail)
    case OneRow(id) => users[id := RecordFailedLogin(users[id], now)]
    case _ => users
  }

  /** The exception `login` ends with on the BadCredentials path: "Invalid
      credentials", unless the lookup in `handleFailedLogin` threw first. */
  function BadCredentialsError(users: Users, usernameOrEmail: string): Error {
    if FindByUsernameOrEmailAndDeletedAtIsNull(users, usernameOrEmail).ManyRows? then IncorrectResultSize
    else InvalidCredentials
  }

  /** The token table after `logout` with a digest: the matching row, if any, is revoked. */
  function LoggedOut(rows: Rows, tokenHash: string): Rows {
    match FindByTokenHash(rows, tokenHash)
    case None => rows
    case Some(i) => rows[i := rows[i].(revoked := true)]
  }

  /** A bad-credentials login touches at most the one live user it matches:
      that user's counter goes up and the lock follows the threshold; an
      unknown identifier, or one that only a soft-deleted user carries,
      changes nothing. */
  lemma FailedLoginEffect(users: Users, usernameOrEmail: string, now: Timestamp)
    ensures FailedLoginUsers(users, usernameOrEmail, now).Keys == users.Keys
    ensures forall k :: k in users && !MatchesLogin(users[k], usernameOrEmail) ==>
      FailedLoginUsers(users, usernameOrEmail, now)[k] == users[k]
    ensures (forall k :: k in users && (users[k].username == usernameOrEmail || users[k].email == usernameOrEmail) ==> IsDeleted(users[k]))
      ==> FailedLoginUsers(users, usernameOrEmail, now) == users
    ensures forall id :: FindByUsernameOrEmailAndDeletedAtIsNull(users, usernameOrEmail) == OneRow(id) ==>
      && FailedLoginUsers(users, usernameOrEmail, now)[id] == RecordFailedLogin(users[id], now)
      && forall k :: k in users && k != id ==> FailedLoginUsers(users, usernameOrEmail, now)[k] == users[k]
  {
  }

  /** After login's revoke-then-save, the new row is the user's only unrevoked
      row, and every other user's rows are as they were. */
  lemma LoginLeavesOneLiveSession(rows: Rows, id: UserId, row: RefreshToken)
    requires row.owner == id && !row.revoked
    ensures var after := RevokedAllByUser(rows, id) + [row];
      && |after| == |rows| + 1
      && (forall i :: 0 <= i < |after| && after[i].owner == id && !after[i].revoked ==> i == |rows|)
      && (forall i :: 0 <= i < |rows| && rows[i].owner != id ==> after[i] == rows[i])
  {
  }

  /** After refresh's rotation, presenting the old token again finds its row
      revoked, so it fails with "expired or revoked" whatever the time; the
      owner's other rows are left as they were, unlike after a login. */
  lemma RotatedTokenIsSpent(rows: Rows, i: nat, row: RefreshToken, now: Timestamp)
    requires DistinctHashes(rows) && i < |rows|
    requires FindByTokenHash(rows, row.tokenHash).None?
    ensures var after := rows[i := rows[i].(revoked := true)] + [row];
      && DistinctHashes(after)
      && FindByTokenHash(after, rows[i].tokenHash) == Some(i)
      && !IsValid(after[i], now)
      && forall j :: 0 <= j < |rows| && j != i ==> after[j] == rows[j]
  {
    var after := rows[i := rows[i].(revoked := true)] + [row];
    forall a, b | 0 <= a < b < |after|
      ensures after[a].tokenHash != after[b].tokenHash
    {
      if b == |rows| {
        assert rows[a].tokenHash != row.tokenHash;
      } else {
        assert rows[a].tokenHash != rows[b].tokenHash;
      }
    }
    FindByTokenHashUnique(after, i);
  }

  /** Logout revokes exactly the row carrying the digest, and nothing when no
      row carries it; logging out twice is logging out once. */
  lemma LogoutEffect(rows: Rows, tokenHash: string)
    requires DistinctHashes(rows)
    ensures |LoggedOut(rows, tokenHash)| == |rows|
    ensures forall i :: 0 <= i < |rows| && rows[i].tokenHash == tokenHash ==> LoggedOut(rows, tokenHash)[i] == rows[i].(revoked := true)
    ensures forall i :: 0 <= i < |rows| && rows[i].tokenHash != tokenHash ==> LoggedOut(rows, tokenHash)[i] == rows[i]
    ensures DistinctHashes(LoggedOut(rows, tokenHash))
    ensures LoggedOut(LoggedOut(rows, tokenHash), tokenHash) == LoggedOut(rows, tokenHash)
  {
    match FindByTokenHash(rows, tokenHash)
    case None =>
    case Some(i) =>
      var after := rows[i := rows[i].(revoked := true)];
      assert forall a :: 0 <= a < |after| ==> after[a].tokenHash == rows[a].tokenHash;
      FindByTokenHashUnique(after, i);
  }

  /** A new unrevoked row for a user with no live row leaves every user with
      at most one live row, and it is its owner's only one. */
  lemma NewSessionKeepsOneLive(rows: Rows, row: RefreshToken)
    requires AtMostOneLive(rows) && NoLiveSession(rows, row.owner)
    ensures AtMostOneLive(rows + [row])
    ensures forall i :: 0 <= i < |rows| + 1 && (rows + [row])[i].owner == row.owner && !(rows + [row])[i].revoked ==> i == |rows|
  {
  }

  /** Revoking one row never makes a second live row. */
  lemma RevokingKeepsOneLive(rows: Rows, i: nat)
    requires AtMostOneLive(rows) && i < |rows|
    ensures AtMostOneLive(rows[i := rows[i].(revoked := true)])
  {
  }

  /** After login's bulk revoke the user holds no live row, and no other user
      gains one. */
  lemma RevokingAllKeepsOneLive(rows: Rows, id: UserId)
    requires AtMostOneLive(rows)
    ensures NoLiveSession(RevokedAllByUser(rows, id), id)
    ensures AtMostOneLive(RevokedAllByUser(rows, id))
  {
    var after := RevokedAllByUser(rows, id);
    forall a, b | 0 <= a < b < |after| && after[a].owner == after[b].owner
      ensures after[a].revoked || after[b].revoked
    {
      assert after[a].owner == rows[a].owner && after[b].owner == rows[b].owner;
    }
  }

  /** Refresh presents a valid row, which is therefore its owner's only live
      row: revoking it leaves the owner with no live row at all, so the row
      refresh then saves is again the owner's only live session. */
  lemma RevokingValidRowEndsSession(rows: Rows, i: nat, now: Timestamp)
    requires AtMostOneLive(rows) && i < |rows| && IsValid(rows[i], now)
    ensures NoLiveSession(rows[i := rows[i].(revoked := true)], rows[i].owner)
    ensures AtMostOneLive(rows[i := rows[i].(revoked := true)])
  {
    RevokingKeepsOneLive(rows, i);
  }

  /** A user id the users table does not hold owns no row, live or not. */
  lemma NewOwnerHasNoSession(rows: Rows, users: Users, id: UserId)
    requires OwnersExist(rows, users) && id !in users
    ensures NoLiveSession(rows, id)
  {
  }

  /** The session service, wired to the two tables it shares with the rest of the application. */
  class AuthService {
    const userRepository: UserTable
    const refreshTokenRepository: TokenTable
    /** `passwordEncoder.encode`. */
    const encode: string -> string
    /** `app.jwt.refresh-token-expiration`, in milliseconds. */
    const refreshTokenExpiration: int

    ghost predicate Valid()
      reads userRepository, refreshTokenRepository
    {
      && userRepository.Valid()
      && refreshTokenRepository.Valid()
      && OwnersExist(refreshTokenRepository.rows, userRepository.users)
      && AtMostOneLive(refreshTokenRepository.rows)
    }

    constructor (userRepository: UserTable, refreshTokenRepository: TokenTable,
                 encode: string -> string, refreshTokenExpiration: int)
      requires userRepository.Valid() && refreshTokenRepository.Valid()
      requires OwnersExist(refreshTokenRepository.rows, userRepository.users)
      requires AtMostOneLive(refreshTokenRepository.rows)
      ensures Valid()
      ensures this.userRepository == userRepository && this.refreshTokenRepository == refreshTokenRepository
      ensures this.encode == encode && this.refreshTokenExpiration == refreshTokenExpiration
    {
      this.userRepository := userRepository;
      this.refreshTokenRepository := refreshTokenRepository;
      this.encode := encode;
      this.refreshTokenExpiration := refreshTokenExpiration;
    }

    /** The row `saveRefreshToken` stores for a raw token issued at `now`. */
    function NewTokenRow(owner: UserId, refreshToken: string, now: Timestamp): RefreshToken {
      RefreshToken(encode(refreshToken), owner, now + LongDiv(refreshTokenExpiration, 1000), false)
    }

    /** Assumed of the generator and `encode` together: the digest of this
        newly generated raw token is not yet in the table. */
    ghost predicate FreshToken(refreshToken: string)
      reads refreshTokenRepository
    {
      FindByTokenHash(refreshTokenRepository.rows, encode(refreshToken)).None?
    }

    /** `saveRefreshToken`: one new unrevoked row expiring `refreshTokenExpiration / 1000` seconds from now.
        Every caller has first made sure the owner holds no unrevoked row
        (a new user, a login after the bulk revoke, a refresh after revoking
        the presented row), so the new row is the owner's one live session. */
    method SaveRefreshToken(owner: UserId, refreshToken: string, now: Timestamp)
      requires Valid() && owner in userRepository.users && FreshToken(refreshToken)
      requires NoLiveSession(refreshTokenRepository.rows, owner)
      modifies refreshTokenRepository
      ensures Valid()
      ensures refreshTokenRepository.rows == old(refreshTokenRepository.rows) + [NewTokenRow(owner, refreshToken, now)]
    {
      NewSessionKeepsOneLive(refreshTokenRepository.rows, NewTokenRow(owner, refreshToken, now));
      refreshTokenRepository.Save(NewTokenRow(owner, refreshToken, now));
    }

    /** `register`: the username is checked before the email, both among live
        users only; then the default role; then the table's unique constraints,
        which also count soft-deleted users. Any failure leaves the rows of both
        tables as they were; the refused insert has still drawn an IDENTITY
        value, which the rollback does not give back. Success adds one user (unverified, unlocked, with the role)
        and one unrevoked refresh token for it. */
    method Register(username: string, email: string, password: string, userRole: Option<Role>,
                    accessToken: string, refreshToken: string, now: Timestamp)
      returns (r: Result<AuthResponse>)
      requires Valid() && FreshToken(refreshToken)
      modifies userRepository, refreshTokenRepository
      ensures Valid()
      ensures ExistsByUsernameAndDeletedAtIsNull(old(userRepository.users), username) ==> r == Err(UsernameExists)
      ensures (!ExistsByUsernameAndDeletedAtIsNull(old(userRepository.users), username)
               && ExistsByEmailAndDeletedAtIsNull(old(userRepository.users), email))
        ==> r == Err(EmailExists)
      ensures (!ExistsByUsernameAndDeletedAtIsNull(old(userRepository.users), username)
               && !ExistsByEmailAndDeletedAtIsNull(old(userRepository.users), email)
               && userRole.None?)
        ==> r == Err(RoleNotFound)
      ensures (!ExistsByUsernameAndDeletedAtIsNull(old(userRepository.users), username)
               && !ExistsByEmailAndDeletedAtIsNull(old(userRepository.users), email)
               && userRole.Some? && ViolatesUniqueColumns(old(userRepository.users), username, email))
        ==> r == Err(UniqueViolation)
      ensures r.Ok? <==> userRole.Some? && !ViolatesUniqueColumns(old(userRepository.users), username, email)
      ensures r.Err? ==>
        && userRepository.users == old(userRepository.users)
        && userRepository.nextId == old(userRepository.nextId) + (if r == Err(UniqueViolation) then 1 else 0)
        && refreshTokenRepository.rows == old(refreshTokenRepository.rows)
      ensures r.Ok? ==>
        var id := old(userRepository.nextId);
        && id !in old(userRepository.users)
        && r.value == AuthResponse(accessToken, refreshToken, id)
        && userRepository.users == old(userRepository.users)[id := NewUser(id, username, email, encode(password)).(roles := {userRole.value})]
        && refreshTokenRepository.rows == old(refreshTokenRepository.rows) + [NewTokenRow(id, refreshToken, now)]
    {
      if ExistsByUsernameAndDeletedAtIsNull(userRepository.users, username) {
        return Err(UsernameExists);
      }
      if ExistsByEmailAndDeletedAtIsNull(userRepository.users, email) {
        return Err(EmailExists);
      }
      if userRole.None? {
        return Err(RoleNotFound);
      }
      if ViolatesUniqueColumns(userRepository.users, username, email) {
        userRepository.RefuseInsert();
        return Err(UniqueViolation);
      }
      var user := NewUser(0, username, email, encode(password)).(roles := {userRole.value});
      var id := userRepository.Insert(user);
      NewOwnerHasNoSession(refreshTokenRepository.rows, old(userRepository.users), id);
      SaveRefreshToken(id, refreshToken, now);
      r := Ok(AuthResponse(accessToken, refreshToken, id));
    }

    /** `handleFailedLogin`: record a failure on the live user matched by
        username or email; a lookup matching two users throws instead. */
    method HandleFailedLogin(usernameOrEmail: string, now: Timestamp) returns (r: Result<()>)
      requires Valid()
      modifies userRepository
      ensures Valid()
      ensures r.Err? <==> FindByUsernameOrEmailAndDeletedAtIsNull(old(userRepository.users), usernameOrEmail).ManyRows?
      ensures r.Err? ==> r.error == IncorrectResultSize
      ensures userRepository.users == FailedLoginUsers(old(userRepository.users), usernameOrEmail, now)
      ensures userRepository.nextId == old(userRepository.nextId)
    {
      match FindByUsernameOrEmailAndDeletedAtIsNull(userRepository.users, usernameOrEmail)
      case NoRow =>
        r := Ok(());
      case ManyRows =>
        r := Err(IncorrectResultSize);
      case OneRow(id) =>
        userRepository.Save(RecordFailedLogin(userRepository.users[id], now));
        r := Ok(());
    }

    /** `login`. Authenticated: the counter is reset, the last login stamped,
        every token of the user revoked and one new token saved. Bad
        credentials: a failure is recorded and "Invalid credentials" thrown.
        Any other authentication failure propagates and changes nothing. */
    method Login(usernameOrEmail: string, outcome: AuthOutcome,
                 accessToken: string, refreshToken: string, now: Timestamp)
      returns (r: Result<AuthResponse>)
      requires Valid() && FreshToken(refreshToken)
      requires outcome.Authenticated? ==> outcome.id in userRepository.users
      modifies userRepository, refreshTokenRepository
      ensures Valid()
      ensures userRepository.nextId == old(userRepository.nextId)
      ensures outcome.Authenticated? ==>
        var id := outcome.id;
        && r == Ok(AuthResponse(accessToken, refreshToken, id))
        && userRepository.users == old(userRepository.users)[id := LoggedIn(old(userRepository.users)[id], now)]
        && refreshTokenRepository.rows == RevokedAllByUser(old(refreshTokenRepository.rows), id) + [NewTokenRow(id, refreshToken, now)]
      ensures outcome.BadCredentials? ==>
        && r == Err(BadCredentialsError(old(userRepository.users), usernameOrEmail))
        && userRepository.users == FailedLoginUsers(old(userRepository.users), usernameOrEmail, now)
        && refreshTokenRepository.rows == old(refreshTokenRepository.rows)
      ensures outcome.OtherFailure? ==>
        && r == Err(AuthenticationFailed)
        && userRepository.users == old(userRepository.users)
        && refreshTokenRepository.rows == old(refreshTokenRepository.rows)
    {
      match outcome
      case OtherFailure =>
        r := Err(AuthenticationFailed);
      case BadCredentials =>
        var handled := HandleFailedLogin(usernameOrEmail, now);
        r := if handled.Err? then Err(handled.error) else Err(InvalidCredentials);
      case Authenticated(id) =>
        var user := userRepository.users[id];
        userRepository.Save(LoggedIn(user, now));
        RevokingAllKeepsOneLive(refreshTokenRepository.rows, id);
        refreshTokenRepository.RevokeAllByUser(id);
        SaveRefreshToken(id, refreshToken, now);
        r := Ok(AuthResponse(accessToken, refreshToken, id));
    }

    /** `refreshToken`: look the presented token up by digest; a missing row
        and an invalid row fail without changing anything; otherwise revoke
        exactly that row and save one new row for its owner. */
    method Refresh(refreshToken: string, accessToken: string, newRefreshToken: string, now: Timestamp)
      returns (r: Result<AuthResponse>)
      requires Valid() && FreshToken(newRefreshToken)
      modifies refreshTokenRepository
      ensures Valid()
      ensures
        var found := FindByTokenHash(old(refreshTokenRepository.rows), encode(refreshToken));
        && (found.None? ==> r == Err(InvalidRefreshToken) && refreshTokenRepository.rows == old(refreshTokenRepository.rows))
        && (found.Some? && !IsValid(old(refreshTokenRepository.rows)[found.value], now) ==>
              r == Err(RefreshTokenNotValid) && refreshTokenRepository.rows == old(refreshTokenRepository.rows))
        && (found.Some? && IsValid(old(refreshTokenRepository.rows)[found.value], now) ==>
              var i := found.value;
              var owner := old(refreshTokenRepository.rows)[i].owner;
              && r == Ok(AuthResponse(accessToken, newRefreshToken, owner))
              && refreshTokenRepository.rows ==
                   old(refreshTokenRepository.rows)[i := old(refreshTokenRepository.rows)[i].(revoked := true)]
                   + [NewTokenRow(owner, newRefreshToken, now)])
    {
      var found := FindByTokenHash(refreshTokenRepository.rows, encode(refreshToken));
      if found.None? {
        return Err(InvalidRefreshToken);
      }
      var i := found.value;
      var stored := refreshTokenRepository.rows[i];
      if !IsValid(stored, now) {
        return Err(RefreshTokenNotValid);
      }
      RevokingValidRowEndsSession(refreshTokenRepository.rows, i, now);
      refreshTokenRepository.SaveRevoked(i);
      SaveRefreshToken(stored.owner, newRefreshToken, now);
      r := Ok(AuthResponse(accessToken, newRefreshToken, stored.owner));
    }

    /** `logout`: without a token nothing happens; with one, the row carrying
        its digest (if any) is revoked. */
    method Logout(refreshToken: Option<string>)
      requires Valid()
      modifies refreshTokenRepository
      ensures Valid()
      ensures refreshToken.None? ==> refreshTokenRepository.rows == old(refreshTokenRepository.rows)
      ensures refreshToken.Some? ==>
        refreshTokenRepository.rows == LoggedOut(old(refreshTokenRepository.rows), encode(refreshToken.value))
    {
      if refreshToken.Some? {
        var tokenHash := encode(refreshToken.value);
        LogoutEffect(refreshTokenRepository.rows, tokenHash);
        var found := FindByTokenHash(refreshTokenRepository.rows, tokenHash);
        if found.Some? {
          RevokingKeepsOneLive(refreshTokenRepository.rows, found.value);
          refreshTokenRepository.SaveRevoked(found.value);
        }
      }
    }
  }
}
