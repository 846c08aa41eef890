/** The transaction boundary around `AuthService.login`. The method is
    `@Transactional` with Spring's default rollback rule: a method that ends in
    an unchecked exception is rolled back as a whole. Every exception of the
    core is unchecked, `BadCredentialsException` included, and the
    bad-credentials path of `login` always ends in one, so what
    `handleFailedLogin` saves there never reaches the table.

    `AuthService.Login` models the statements of `login`; this module models
    which of their effects survive, as written (`BadLoginsAsWritten`) and as
    the lockout policy evidently intends (`BadLogins`). */
module Transactions {
  import opened Entities
  import opened UserRepository
  import opened LockoutPolicy
  import opened UserPrincipal
  import opened RefreshTokenRepository
  import opened AuthService

  /** The state a `@Transactional` method leaves behind: the new state when it
      returns, the old state when it throws. */
  function Committed<S, T>(before: S, after: S, r: Result<T>): S {
    if r.Ok? then after else before
  }

  /** `login` as Spring runs it: the statements of `AuthService.Login` inside
      one transaction, whose writes are all undone when they end in an
      exception. A bad-credentials login therefore leaves the users table as
      `BadLoginsAsWritten` says for one attempt. */
  method LoginTransaction(svc: AuthService, usernameOrEmail: string, outcome: AuthOutcome,
                          accessToken: string, refreshToken: string, now: Timestamp)
    returns (r: Result<AuthResponse>)
    requires svc.Valid() && svc.FreshToken(refreshToken)
    requires outcome.Authenticated? ==> outcome.id in svc.userRepository.users
    modifies svc.userRepository, svc.refreshTokenRepository
    ensures svc.Valid()
    ensures svc.userRepository.nextId == old(svc.userRepository.nextId)
    ensures r.Err? ==>
      && svc.userRepository.users == old(svc.userRepository.users)
      && svc.refreshTokenRepository.rows == old(svc.refreshTokenRepository.rows)
    ensures outcome.BadCredentials? ==>
      && r == Err(BadCredentialsError(old(svc.userRepository.users), usernameOrEmail))
      && svc.userRepository.users == BadLoginsAsWritten(old(svc.userRepository.users), usernameOrEmail, 1, now)
    ensures outcome.Authenticated? ==>
      var id := outcome.id;
      && r == Ok(AuthResponse(accessToken, refreshToken, id))
      && svc.userRepository.users == old(svc.userRepository.users)[id := LoggedIn(old(svc.userRepository.users)[id], now)]
      && svc.refreshTokenRepository.rows == RevokedAllByUser(old(svc.refreshTokenRepository.rows), id) + [svc.NewTokenRow(id, refreshToken, now)]
  {
    var users := svc.userRepository.users;
    var rows := svc.refreshTokenRepository.rows;
    r := svc.Login(usernameOrEmail, outcome, accessToken, refreshToken, now);
    if r.Err? {
      svc.userRepository.Rollback(users);
      svc.refreshTokenRepository.Rollback(rows);
    }
  }

  /** `k` logins with bad credentials for the same identifier, each its own
      transaction, as written: each records the failure and then throws, so
      each step is what `LoginTransaction` commits for one such login. */
  function BadLoginsAsWritten(users: Users, usernameOrEmail: string, k: nat, now: Timestamp): Users
    decreases k
  {
    if k == 0 then users
    else
      var before := BadLoginsAsWritten(users, usernameOrEmail, k - 1, now);
      var r: Result<()> := Err(BadCredentialsError(before, usernameOrEmail));
      Committed(before, FailedLoginUsers(before, usernameOrEmail, now), r)
  }

  /** As written, no number of bad logins changes the users table. This
      follows from the definition (each step commits a thrown login, so it
      keeps its input); the evidence that a step is what one login commits is
      the postcondition of `LoginTransaction`. */
  lemma BadLoginsRolledBack(users: Users, usernameOrEmail: string, k: nat, now: Timestamp)
    ensures BadLoginsAsWritten(users, usernameOrEmail, k, now) == users
  {
  }

  /** The discrepancy on a concrete history: a live, unlocked user with a zero
      counter is still unlocked, with a zero counter, after five bad logins. */
  lemma FiveBadLoginsDoNotLockAsWritten(users: Users, usernameOrEmail: string, id: UserId, now: Timestamp)
    requires FindByUsernameOrEmailAndDeletedAtIsNull(users, usernameOrEmail) == OneRow(id)
    requires !users[id].accountLocked && users[id].failedLoginAttempts == 0
    ensures id in BadLoginsAsWritten(users, usernameOrEmail, 5, now)
    ensures IsAccountNonLocked(BadLoginsAsWritten(users, usernameOrEmail, 5, now)[id])
    ensures BadLoginsAsWritten(users, usernameOrEmail, 5, now)[id].failedLoginAttempts == 0
  {
    BadLoginsRolledBack(users, usernameOrEmail, 5, now);
  }

  /** `k` bad logins with each failure committed although `login` throws (the
      failure recorded outside the rolled-back transaction). */
  function BadLogins(users: Users, usernameOrEmail: string, k: nat, now: Timestamp): Users
    decreases k
  {
    if k == 0 then users
    else FailedLoginUsers(BadLogins(users, usernameOrEmail, k - 1, now), usernameOrEmail, now)
  }

  /** Recording a failure changes no username, email or deletion marker, so the
      same identifier finds the same single user afterwards. */
  lemma FailedLoginKeepsLookup(users: Users, usernameOrEmail: string, id: UserId, now: Timestamp)
    requires FindByUsernameOrEmailAndDeletedAtIsNull(users, usernameOrEmail) == OneRow(id)
    ensures FailedLoginUsers(users, usernameOrEmail, now) == users[id := RecordFailedLogin(users[id], now)]
    ensures FindByUsernameOrEmailAndDeletedAtIsNull(FailedLoginUsers(users, usernameOrEmail, now), usernameOrEmail) == OneRow(id)
  {
    var after := users[id := RecordFailedLogin(users[id], now)];
    assert forall k :: k in after ==> (MatchesLogin(after[k], usernameOrEmail) <==> MatchesLogin(users[k], usernameOrEmail));
    assert MatchesLogin(after[id], usernameOrEmail);
  }

  /** With failures committed, the identifier keeps finding the same single
      user through any number of bad logins. */
  lemma {:induction false} BadLoginsKeepLookup(users: Users, usernameOrEmail: string, id: UserId, k: nat, now: Timestamp)
    requires FindByUsernameOrEmailAndDeletedAtIsNull(users, usernameOrEmail) == OneRow(id)
    ensures FindByUsernameOrEmailAndDeletedAtIsNull(BadLogins(users, usernameOrEmail, k, now), usernameOrEmail) == OneRow(id)
    decreases k
  {
    if k > 0 {
      BadLoginsKeepLookup(users, usernameOrEmail, id, k - 1, now);
      FailedLoginKeepsLookup(BadLogins(users, usernameOrEmail, k - 1, now), usernameOrEmail, id, now);
    }
  }

  /** `k` failures recorded on the user with key `id`, and on no one else. */
  function FailuresAt(users: Users, id: UserId, k: nat, now: Timestamp): Users
    requires id in users
    decreases k
  {
    if k == 0 then users
    else
      var before := FailuresAt(users, id, k - 1, now);
      if id in before then before[id := RecordFailedLogin(before[id], now)] else before
  }

  /** Recording `k` failures on one user changes that user as `k` failures do
      and leaves every other row as it was. */
  lemma {:induction false} FailuresAtEffect(users: Users, id: UserId, k: nat, now: Timestamp)
    requires id in users
    ensures FailuresAt(users, id, k, now).Keys == users.Keys
    ensures FailuresAt(users, id, k, now)[id] == FailedLogins(users[id], k, now)
    ensures forall j :: j in users && j != id ==> FailuresAt(users, id, k, now)[j] == users[j]
    decreases k
  {
    if k > 0 {
      FailuresAtEffect(users, id, k - 1, now);
    }
  }

  /** With failures committed, the bad logins for an identifier that finds one
      user record their failures on that user alone. */
  lemma {:induction false} BadLoginsAreFailuresAt(users: Users, usernameOrEmail: string, id: UserId, k: nat, now: Timestamp)
    requires FindByUsernameOrEmailAndDeletedAtIsNull(users, usernameOrEmail) == OneRow(id)
    ensures BadLogins(users, usernameOrEmail, k, now) == FailuresAt(users, id, k, now)
    decreases k
  {
    if k > 0 {
      var before := BadLogins(users, usernameOrEmail, k - 1, now);
      BadLoginsAreFailuresAt(users, usernameOrEmail, id, k - 1, now);
      BadLoginsKeepLookup(users, usernameOrEmail, id, k - 1, now);
      assert id in before;
      assert FailedLoginUsers(before, usernameOrEmail, now) == before[id := RecordFailedLogin(before[id], now)];
    }
  }

  /** With failures committed, `k` bad logins apply `k` recorded failures to the
      matched user and to no one else. */
  lemma BadLoginsEffect(users: Users, usernameOrEmail: string, id: UserId, k: nat, now: Timestamp)
    requires FindByUsernameOrEmailAndDeletedAtIsNull(users, usernameOrEmail) == OneRow(id)
    ensures BadLogins(users, usernameOrEmail, k, now).Keys == users.Keys
    ensures BadLogins(users, usernameOrEmail, k, now)[id] == FailedLogins(users[id], k, now)
    ensures forall j :: j in users && j != id ==> BadLogins(users, usernameOrEmail, k, now)[j] == users[j]
  {
    BadLoginsAreFailuresAt(users, usernameOrEmail, id, k, now);
    FailuresAtEffect(users, id, k, now);
  }

  /** With failures committed, a live, unlocked user with a zero counter stays
      usable through four bad logins and is locked by the fifth. */
  lemma FiveBadLoginsLock(users: Users, usernameOrEmail: string, id: UserId, now: Timestamp)
    requires FindByUsernameOrEmailAndDeletedAtIsNull(users, usernameOrEmail) == OneRow(id)
    requires !users[id].accountLocked && users[id].failedLoginAttempts == 0
    ensures forall k: nat :: k < LOCKOUT_THRESHOLD ==>
      id in BadLogins(users, usernameOrEmail, k, now) && IsAccountNonLocked(BadLogins(users, usernameOrEmail, k, now)[id])
    ensures id in BadLogins(users, usernameOrEmail, 5, now) && !IsAccountNonLocked(BadLogins(users, usernameOrEmail, 5, now)[id])
  {
    forall k: nat | k < LOCKOUT_THRESHOLD
      ensures id in BadLogins(users, usernameOrEmail, k, now) && IsAccountNonLocked(BadLogins(users, usernameOrEmail, k, now)[id])
    {
      BadLoginsEffect(users, usernameOrEmail, id, k, now);
      FailedLoginsCount(users[id], k, now);
    }
    BadLoginsEffect(users, usernameOrEmail, id, 5, now);
    FailedLoginsCount(users[id], 5, now);
  }
}
