/** The lockout state machine on one user record, as the services drive it:
    a failed login counts up and locks at the threshold (AuthService.java
    `handleFailedLogin`), a successful login resets the counter (AuthService.java
    `login`), an administrator's unlock clears everything (UserService.java
    `unlockUser`). Each transition is a function on the record; the service
    methods save its result. */
module LockoutPolicy {
  import opened Entities
  import opened UserPrincipal

  /** The number of failed attempts at which an account is locked. */
  const LOCKOUT_THRESHOLD: int := 5

  /** The user record changed at most in its lockout columns. */
  predicate SameOutsideLockout(u: User, v: User) {
    v.(failedLoginAttempts := u.failedLoginAttempts, accountLocked := u.accountLocked, lockedAt := u.lockedAt) == u
  }

  /** `handleFailedLogin` on a found user: the counter goes up by one (a Java
      `int`) and, from the threshold on, the account is locked and `lockedAt`
      stamped with `now` (again on every further failure). */
  function RecordFailedLogin(u: User, now: Timestamp): (v: User)
    ensures u.failedLoginAttempts < INT_MAX ==> v.failedLoginAttempts == u.failedLoginAttempts + 1
    ensures v.accountLocked <==> u.accountLocked || v.failedLoginAttempts >= LOCKOUT_THRESHOLD
    ensures v.failedLoginAttempts >= LOCKOUT_THRESHOLD ==> v.lockedAt == Some(now)
    ensures v.failedLoginAttempts < LOCKOUT_THRESHOLD ==> v.lockedAt == u.lockedAt
    ensures SameOutsideLockout(u, v)
  {
    var attempts := IntInc(u.failedLoginAttempts);
    if attempts >= LOCKOUT_THRESHOLD then
      u.(failedLoginAttempts := attempts, accountLocked := true, lockedAt := Some(now))
    else
      u.(failedLoginAttempts := attempts)
  }

  /** The record after a successful login: last login stamped, counter reset. */
  function LoggedIn(u: User, now: Timestamp): (v: User)
    ensures v.failedLoginAttempts == 0 && v.lastLoginAt == Some(now)
    ensures v.accountLocked == u.accountLocked && v.lockedAt == u.lockedAt
    ensures v.(lastLoginAt := u.lastLoginAt, failedLoginAttempts := u.failedLoginAttempts) == u
  {
    u.(lastLoginAt := Some(now), failedLoginAttempts := 0)
  }

  /** `unlockUser` on a found user: unlocked, no lock time, counter reset. */
  function Unlocked(u: User): (v: User)
    ensures !v.accountLocked && v.lockedAt == None && v.failedLoginAttempts == 0
    ensures SameOutsideLockout(u, v)
  {
    u.(accountLocked := false, lockedAt := None, failedLoginAttempts := 0)
  }

  /** `k` failed logins in a row at time `now`. */
  function FailedLogins(u: User, k: nat, now: Timestamp): User
    decreases k
  {
    if k == 0 then u else RecordFailedLogin(FailedLogins(u, k - 1, now), now)
  }

  /** A failed login never clears a lock, and unlocking twice is unlocking once. */
  lemma LockIsSticky(u: User, now: Timestamp)
    ensures u.accountLocked ==> RecordFailedLogin(u, now).accountLocked
    ensures Unlocked(Unlocked(u)) == Unlocked(u)
  {
  }

  /** From a counter `c` that does not overflow, `k` failures leave the counter
      at `c + k` and lock the account exactly when it was locked already or
      `c + k` reached the threshold; nothing outside the lockout columns moves. */
  lemma {:induction false} FailedLoginsCount(u: User, k: nat, now: Timestamp)
    requires 0 <= u.failedLoginAttempts && u.failedLoginAttempts + k <= INT_MAX
    ensures FailedLogins(u, k, now).failedLoginAttempts == u.failedLoginAttempts + k
    ensures FailedLogins(u, k, now).accountLocked <==>
      u.accountLocked || (k > 0 && u.failedLoginAttempts + k >= LOCKOUT_THRESHOLD)
    ensures SameOutsideLockout(u, FailedLogins(u, k, now))
    decreases k
  {
    if k > 0 {
      FailedLoginsCount(u, k - 1, now);
    }
  }

  /** From an unlocked record with a zero counter, four failures leave the
      account usable and the fifth locks it, stamped with the time of the fifth. */
  lemma {:induction false} FifthFailureLocks(u: User, now: Timestamp)
    requires !u.accountLocked && u.failedLoginAttempts == 0
    ensures forall k: nat :: k < LOCKOUT_THRESHOLD ==> IsAccountNonLocked(FailedLogins(u, k, now))
    ensures !IsAccountNonLocked(FailedLogins(u, 5, now))
    ensures FailedLogins(u, 5, now).lockedAt == Some(now)
  {
    forall k: nat | k < LOCKOUT_THRESHOLD
      ensures IsAccountNonLocked(FailedLogins(u, k, now))
    {
      FailedLoginsCount(u, k, now);
    }
    FailedLoginsCount(u, 5, now);
  }

  /** A successful login after fewer than five failures resets the budget: it
      takes five fresh failures, not the remainder, to lock the account. */
  lemma LoginRestartsLockoutCount(u: User, n: nat, now: Timestamp, later: Timestamp)
    requires !u.accountLocked && u.failedLoginAttempts == 0 && n < LOCKOUT_THRESHOLD
    ensures IsAccountNonLocked(LoggedIn(FailedLogins(u, n, now), now))
    ensures forall k: nat :: k < LOCKOUT_THRESHOLD ==>
      IsAccountNonLocked(FailedLogins(LoggedIn(FailedLogins(u, n, now), now), k, later))
    ensures !IsAccountNonLocked(FailedLogins(LoggedIn(FailedLogins(u, n, now), now), 5, later))
  {
    FailedLoginsCount(u, n, now);
    FifthFailureLocks(LoggedIn(FailedLogins(u, n, now), now), later);
  }

  /** Unlocking restores a usable account whose next lock again takes five failures. */
  lemma UnlockRestartsLockoutCount(u: User, now: Timestamp)
    ensures IsAccountNonLocked(Unlocked(u))
    ensures IsEnabled(Unlocked(u)) == IsEnabled(u)
    ensures forall k: nat :: k < LOCKOUT_THRESHOLD ==> IsAccountNonLocked(FailedLogins(Unlocked(u), k, now))
    ensures !IsAccountNonLocked(FailedLogins(Unlocked(u), 5, now))
  {
    FifthFailureLocks(Unlocked(u), now);
  }
}
