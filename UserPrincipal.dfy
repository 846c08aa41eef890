/** The Spring Security view of a user (UserPrincipal.java): its authorities,
    its credentials and its status flags, all read off the user record. */
module UserPrincipal {
  import opened Entities

  /** The authority string of one permission: `resource + ":" + action`. */
  function Authority(p: Permission): string {
    p.resource + ":" + p.action
  }

  /** `getAuthorities`: every permission of every role, flattened into a set.
      A string is granted exactly when some role of the user holds a permission
      that renders to it. */
  function GetAuthorities(u: User): (granted: set<string>)
    ensures forall r, p :: r in u.roles && p in r.permissions ==> Authority(p) in granted
    ensures forall a :: a in granted ==>
      exists r, p :: r in u.roles && p in r.permissions && a == p.resource + ":" + p.action
  {
    set r, p | r in u.roles && p in r.permissions :: Authority(p)
  }

  function GetPassword(u: User): string {
    u.passwordHash
  }

  function GetUsername(u: User): string {
    u.username
  }

  predicate IsAccountNonExpired(u: User) {
    true
  }

  /** The principal is locked exactly when the record's lock flag is set. */
  function IsAccountNonLocked(u: User): (nonLocked: bool)
    ensures nonLocked <==> !u.accountLocked
  {
    !u.accountLocked
  }

  predicate IsCredentialsNonExpired(u: User) {
    true
  }

  /** Enabled exactly when the email is verified and the user is not soft-deleted. */
  function IsEnabled(u: User): (enabled: bool)
    ensures enabled <==> u.emailVerified && u.deletedAt == None
  {
    u.emailVerified && !IsDeleted(u)
  }

  /** No roles, or roles without permissions, grant no authority. */
  lemma AuthoritiesEmpty(u: User)
    requires forall r :: r in u.roles ==> r.permissions == {}
    ensures GetAuthorities(u) == {}
  {
  }

  /** The rendering is unambiguous when resources contain no colon: one
      authority string names exactly one permission. */
  lemma AuthorityInjective(p: Permission, q: Permission)
    requires ':' !in p.resource && ':' !in q.resource
    requires Authority(p) == Authority(q)
    ensures p == q
  {
    var a := Authority(p);
    var m, n := |p.resource|, |q.resource|;
    assert a[m] == ':' && Authority(q)[n] == ':';
    if m != n {
      assert false;
    }
    assert p.resource == a[..m] == q.resource;
    assert p.action == a[m + 1..] == q.action;
  }

  /** The getters and flags of the principal, in terms of the user record. */
  lemma PrincipalFlags(u: User)
    ensures GetPassword(u) == u.passwordHash && GetUsername(u) == u.username
    ensures IsAccountNonExpired(u) && IsCredentialsNonExpired(u)
  {
  }

  /** A freshly built user is unlocked but not enabled (its email is not
      verified) and, without roles, has no authority. */
  lemma NewUserPrincipal(id: UserId, username: string, email: string, passwordHash: string)
    ensures IsAccountNonLocked(NewUser(id, username, email, passwordHash))
    ensures !IsEnabled(NewUser(id, username, email, passwordHash))
    ensures GetAuthorities(NewUser(id, username, email, passwordHash)) == {}
  {
  }
}
