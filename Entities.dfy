/** The records of the authentication schema: users with their roles and
    permissions, and the rows of the refresh-token table. The user record is
    the `users` table of User.java; timestamps (`LocalDateTime`) are integers. */
module Entities {

  datatype Option<+T> = None | Some(value: T)

  /** An operation either returns a value or throws one of the exceptions below. */
  datatype Result<+T> = Ok(value: T) | Err(error: Error)

  /** The exceptions the core throws, one constructor per message or exception class. */
  datatype Error =
    | UsernameExists        // "Username already exists"
    | EmailExists           // "Email already exists"
    | RoleNotFound          // "Default USER role not found"
    | UniqueViolation       // the users table refuses a second row with the same username or email
    | InvalidCredentials    // BadCredentialsException("Invalid credentials")
    | AuthenticationFailed  // any other AuthenticationException, propagated unchanged
    | IncorrectResultSize   // a single-result query matched more than one row
    | InvalidRefreshToken   // "Invalid refresh token"
    | RefreshTokenNotValid  // "Refresh token is expired or revoked"
    | UserNotFound          // "User not found"

  type UserId = nat
  type Timestamp = int

  /** Java's `int`, the width of `Integer failedLoginAttempts`. */
  const INT_MIN: int := -0x8000_0000
  const INT_MAX: int := 0x7fff_ffff
  type Int32 = x: int | INT_MIN <= x <= INT_MAX

  /** Java's `x + 1` on an `int`: wraps from INT_MAX to INT_MIN. */
  function IntInc(x: Int32): Int32 {
    if x == INT_MAX then INT_MIN else x + 1
  }

  /** Java's `a / b` on `long`, which truncates toward zero. */
  function LongDiv(a: int, b: int): int
    requires b > 0
  {
    if a >= 0 then a / b else -((-a) / b)
  }

  datatype UserSource = LOCAL | LDAP

  datatype Permission = Permission(resource: string, action: string)

  datatype Role = Role(name: string, permissions: set<Permission>)

  /** A row of the users table. `lastLoginIp`, `tenant` and the audit columns
      `createdAt`/`updatedAt` are never read or written by the core and are left out. */
  datatype User = User(
    id: UserId,
    username: string,
    email: string,
    passwordHash: string,
    emailVerified: bool,
    accountLocked: bool,
    lockedAt: Option<Timestamp>,
    failedLoginAttempts: Int32,
    lastLoginAt: Option<Timestamp>,
    source: UserSource,
    roles: set<Role>,
    deletedAt: Option<Timestamp>)

  /** `isDeleted()`: the soft-delete marker is set. */
  function IsDeleted(u: User): (deleted: bool)
    ensures deleted <==> u.deletedAt != None
  {
    u.deletedAt.Some?
  }

  /** `softDelete()`: the soft-delete marker is stamped with `now`; nothing else changes. */
  function SoftDeleted(u: User, now: Timestamp): (v: User)
    ensures IsDeleted(v) && v.deletedAt == Some(now)
    ensures v.(deletedAt := u.deletedAt) == u
  {
    u.(deletedAt := Some(now))
  }

  /** `User.builder()...build()` with only the columns a caller must give; every
      other column takes its `@Builder.Default` or stays null. */
  function NewUser(id: UserId, username: string, email: string, passwordHash: string): (u: User)
    ensures u.id == id && u.username == username && u.email == email && u.passwordHash == passwordHash
    ensures !u.emailVerified && !u.accountLocked && u.failedLoginAttempts == 0
    ensures u.source == LOCAL && u.roles == {}
    ensures u.lockedAt == None && u.lastLoginAt == None && !IsDeleted(u)
  {
    User(id, username, email, passwordHash, false, false, None, 0, None, LOCAL, {}, None)
  }

  /** A row of the refresh-token table: the digest of the raw token, its owner,
      its expiry and the revoked flag. */
  datatype RefreshToken = RefreshToken(tokenHash: string, owner: UserId, expiresAt: Timestamp, revoked: bool)

  /** `RefreshToken.isValid()` at time `now`: not revoked and not yet expired. */
  predicate IsValid(t: RefreshToken, now: Timestamp) {
    !t.revoked && now < t.expiresAt
  }
}
