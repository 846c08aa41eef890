/** The users table and the queries UserRepository.java declares over it. Every
    query filters on `deletedAt IS NULL`; the table itself keeps soft-deleted rows. */
module UserRepository {
  import opened Entities

  /** The users table, keyed by the generated id. */
  type Users = map<UserId, User>

  /** The unique constraints User.java puts on `username` and `email`. They hold
      over every row, soft-deleted or not. */
  ghost predicate UniqueColumns(users: Users) {
    && (forall a, b :: a in users && b in users && users[a].username == users[b].username ==> a == b)
    && (forall a, b :: a in users && b in users && users[a].email == users[b].email ==> a == b)
  }

  /** Inserting a row with this username or email would violate a unique constraint. */
  predicate ViolatesUniqueColumns(users: Users, username: string, email: string) {
    exists k :: k in users && (users[k].username == username || users[k].email == email)
  }

  /** `findById`: the row with that key, deleted or not. */
  function FindById(users: Users, id: UserId): (r: Option<User>)
    ensures r.Some? <==> id in users
    ensures r.Some? ==> r.value == users[id]
  {
    if id in users then Some(users[id]) else None
  }

  /** `findByUsernameAndDeletedAtIsNull`: the key of the live row with that username. */
  function FindByUsernameAndDeletedAtIsNull(users: Users, username: string): (r: Option<UserId>)
    requires UniqueColumns(users)
    ensures r.Some? ==> r.value in users && users[r.value].username == username && !IsDeleted(users[r.value])
    ensures r.None? ==> forall k :: k in users && users[k].username == username ==> IsDeleted(users[k])
  {
    if exists k :: k in users && users[k].username == username && !IsDeleted(users[k]) then
      var k :| k in users && users[k].username == username && !IsDeleted(users[k]);
      Some(k)
    else
      None
  }

  /** `findByEmailAndDeletedAtIsNull`: the key of the live row with that email. */
  function FindByEmailAndDeletedAtIsNull(users: Users, email: string): (r: Option<UserId>)
    requires UniqueColumns(users)
    ensures r.Some? ==> r.value in users && users[r.value].email == email && !IsDeleted(users[r.value])
    ensures r.None? ==> forall k :: k in users && users[k].email == email ==> IsDeleted(users[k])
  {
    if exists k :: k in users && users[k].email == email && !IsDeleted(users[k]) then
      var k :| k in users && users[k].email == email && !IsDeleted(users[k]);
      Some(k)
    else
      None
  }

  /** What a single-result query returns: nothing, one row, or (Spring throws) several. */
  datatype Lookup = NoRow | OneRow(id: UserId) | ManyRows

  predicate MatchesLogin(u: User, usernameOrEmail: string) {
    (u.username == usernameOrEmail || u.email == usernameOrEmail) && !IsDeleted(u)
  }

  /** `findByUsernameOrEmailAndDeletedAtIsNull`. The two columns are unique one by
      one, but one user's username can be another user's email: then the query
      matches two rows and Spring throws instead of returning an `Optional`. */
  function FindByUsernameOrEmailAndDeletedAtIsNull(users: Users, usernameOrEmail: string): (r: Lookup)
    ensures r.NoRow? <==> forall k :: k in users ==> !MatchesLogin(users[k], usernameOrEmail)
    ensures r.OneRow? ==>
      && r.id in users && MatchesLogin(users[r.id], usernameOrEmail)
      && forall k :: k in users && MatchesLogin(users[k], usernameOrEmail) ==> k == r.id
    ensures r.ManyRows? <==>
      exists a, b :: a in users && b in users && a != b && MatchesLogin(users[a], usernameOrEmail) && MatchesLogin(users[b], usernameOrEmail)
  {
    if forall k :: k in users ==> !MatchesLogin(users[k], usernameOrEmail) then
      NoRow
    else
      var k :| k in users && MatchesLogin(users[k], usernameOrEmail);
      if forall j :: j in users && MatchesLogin(users[j], usernameOrEmail) ==> j == k then
        OneRow(k)
      else
        ManyRows
  }

  /** `existsByUsernameAndDeletedAtIsNull`: some live user carries the username. */
  function ExistsByUsernameAndDeletedAtIsNull(users: Users, username: string): (found: bool)
    ensures found <==> exists k :: k in FindByDeletedAtIsNull(users) && FindByDeletedAtIsNull(users)[k].username == username
  {
    var live := FindByDeletedAtIsNull(users);
    assert forall k :: k in users && users[k].username == username && !IsDeleted(users[k]) ==> k in live && live[k].username == username;
    exists k :: k in users && users[k].username == username && !IsDeleted(users[k])
  }

  /** `existsByEmailAndDeletedAtIsNull`: some live user carries the email. */
  function ExistsByEmailAndDeletedAtIsNull(users: Users, email: string): (found: bool)
    ensures found <==> exists k :: k in FindByDeletedAtIsNull(users) && FindByDeletedAtIsNull(users)[k].email == email
  {
    var live := FindByDeletedAtIsNull(users);
    assert forall k :: k in users && users[k].email == email && !IsDeleted(users[k]) ==> k in live && live[k].email == email;
    exists k :: k in users && users[k].email == email && !IsDeleted(users[k])
  }

  /** `findByDeletedAtIsNull` without its paging: the live rows. */
  function FindByDeletedAtIsNull(users: Users): (r: Users)
    ensures r.Keys <= users.Keys
    ensures forall k :: k in r ==> r[k] == users[k] && !IsDeleted(r[k])
    ensures forall k :: k in users && !IsDeleted(users[k]) ==> k in r
  {
    map k | k in users && !IsDeleted(users[k]) :: users[k]
  }

  /** The keys of the live rows. */
  function ActiveIds(users: Users): set<UserId> {
    set k | k in users && !IsDeleted(users[k])
  }

  /** The keys of the live rows that are locked. */
  function LockedIds(users: Users): set<UserId> {
    set k | k in users && users[k].accountLocked && !IsDeleted(users[k])
  }

  /** `countActiveUsers`: the number of live rows, the size of the unpaged listing. */
  function CountActiveUsers(users: Users): (count: nat)
    ensures count == |FindByDeletedAtIsNull(users)|
  {
    assert FindByDeletedAtIsNull(users).Keys == ActiveIds(users);
    |ActiveIds(users)|
  }

  /** `countLockedUsers`: the number of live rows that are locked. Every locked
      user that is counted is also an active user. */
  function CountLockedUsers(users: Users): (count: nat)
    ensures count == |set k | k in FindByDeletedAtIsNull(users) && FindByDeletedAtIsNull(users)[k].accountLocked|
    ensures count <= CountActiveUsers(users)
  {
    assert LockedIds(users) == set k | k in FindByDeletedAtIsNull(users) && FindByDeletedAtIsNull(users)[k].accountLocked;
    SubsetCardinality(LockedIds(users), ActiveIds(users));
    |LockedIds(users)|
  }

  /** The exists-checks answer exactly when the corresponding find returns a row. */
  lemma ExistsIffFound(users: Users, s: string)
    requires UniqueColumns(users)
    ensures ExistsByUsernameAndDeletedAtIsNull(users, s) <==> FindByUsernameAndDeletedAtIsNull(users, s).Some?
    ensures ExistsByEmailAndDeletedAtIsNull(users, s) <==> FindByEmailAndDeletedAtIsNull(users, s).Some?
  {
  }

  lemma {:induction false} SubsetCardinality(a: set<UserId>, b: set<UserId>)
    requires a <= b
    ensures |a| <= |b|
    decreases b
  {
    if a != {} {
      var x :| x in a;
      SubsetCardinality(a - {x}, b - {x});
    }
  }

  /** The live rows alone keep the unique columns unique. */
  lemma LiveRowsUnique(users: Users)
    requires UniqueColumns(users)
    ensures UniqueColumns(FindByDeletedAtIsNull(users))
  {
  }

  /** The username and email finds and exists-checks answer on the whole table
      exactly as on its live rows alone, so none observes a soft-deleted row. */
  lemma FindsSeeOnlyLiveRows(users: Users, s: string)
    requires UniqueColumns(users)
    ensures UniqueColumns(FindByDeletedAtIsNull(users))
    ensures FindByUsernameAndDeletedAtIsNull(users, s) == FindByUsernameAndDeletedAtIsNull(FindByDeletedAtIsNull(users), s)
    ensures FindByEmailAndDeletedAtIsNull(users, s) == FindByEmailAndDeletedAtIsNull(FindByDeletedAtIsNull(users), s)
    ensures ExistsByUsernameAndDeletedAtIsNull(users, s) == ExistsByUsernameAndDeletedAtIsNull(FindByDeletedAtIsNull(users), s)
    ensures ExistsByEmailAndDeletedAtIsNull(users, s) == ExistsByEmailAndDeletedAtIsNull(FindByDeletedAtIsNull(users), s)
  {
    LiveRowsUnique(users);
  }

  /** The login lookup answers on the whole table exactly as on its live rows alone. */
  lemma LoginLookupSeesOnlyLiveRows(users: Users, s: string)
    ensures FindByUsernameOrEmailAndDeletedAtIsNull(users, s) == FindByUsernameOrEmailAndDeletedAtIsNull(FindByDeletedAtIsNull(users), s)
  {
    var a := FindByUsernameOrEmailAndDeletedAtIsNull(users, s);
    var b := FindByUsernameOrEmailAndDeletedAtIsNull(FindByDeletedAtIsNull(users), s);
    if a.OneRow? {
      assert b.OneRow?;
    }
  }

  /** Both counts answer on the whole table exactly as on its live rows alone. */
  lemma CountsSeeOnlyLiveRows(users: Users)
    ensures CountActiveUsers(users) == CountActiveUsers(FindByDeletedAtIsNull(users))
    ensures CountLockedUsers(users) == CountLockedUsers(FindByDeletedAtIsNull(users))
  {
    var live := FindByDeletedAtIsNull(users);
    assert ActiveIds(users) == ActiveIds(live);
    assert LockedIds(users) == LockedIds(live);
  }

  /** The users table: its rows and the next key the IDENTITY column hands out. */
  class UserTable {
    var users: Users
    var nextId: UserId

    ghost predicate Valid()
      reads this
    {
      && UniqueColumns(users)
      && forall k :: k in users ==> users[k].id == k && k < nextId
    }

    constructor ()
      ensures Valid() && users == map[] && nextId == 1
    {
      users := map[];
      nextId := 1;
    }

    /** `save` of a new entity: the table assigns the next key. The caller has
        checked the unique constraints (a violation rolls the transaction back). */
    method Insert(u: User) returns (id: UserId)
      requires Valid()
      requires !ViolatesUniqueColumns(users, u.username, u.email)
      modifies this
      ensures Valid()
      ensures id == old(nextId) && id !in old(users)
      ensures users == old(users)[id := u.(id := id)] && nextId == old(nextId) + 1
    {
      id := nextId;
      users := users[id := u.(id := id)];
      nextId := nextId + 1;
    }

    /** `save` of a managed entity whose key columns did not change. */
    method Save(u: User)
      requires Valid()
      requires u.id in users && u.username == users[u.id].username && u.email == users[u.id].email
      modifies this
      ensures Valid()
      ensures users == old(users)[u.id := u] && nextId == old(nextId)
    {
      users := users[u.id := u];
    }

    /** `softDelete()` on a managed user: only its soft-delete marker changes. */
    method SoftDelete(id: UserId, now: Timestamp)
      requires Valid() && id in users
      modifies this
      ensures Valid()
      ensures users == old(users)[id := SoftDeleted(old(users)[id], now)] && nextId == old(nextId)
    {
      users := users[id := SoftDeleted(users[id], now)];
    }

    /** An insert the unique constraints refuse: the IDENTITY column has
        already handed out the next key, and the rollback of the failed
        statement leaves it used. No row changes. */
    method RefuseInsert()
      requires Valid()
      modifies this
      ensures Valid()
      ensures users == old(users) && nextId == old(nextId) + 1
    {
      nextId := nextId + 1;
    }

    /** A rollback: the rows go back to a snapshot taken earlier in the
        transaction. Keys the IDENTITY column has handed out stay used. */
    method Rollback(snapshot: Users)
      requires UniqueColumns(snapshot)
      requires forall k :: k in snapshot ==> snapshot[k].id == k && k < nextId
      modifies this
      ensures Valid()
      ensures users == snapshot && nextId == old(nextId)
    {
      users := snapshot;
    }
  }
}
