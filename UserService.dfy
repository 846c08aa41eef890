/** The administrative user service (UserService.java): listing and reading
    users, which hides soft-deleted ones, and unlocking, which does not. */
module UserService {
  import opened Entities
  import opened UserRepository
  import opened LockoutPolicy

  /** `getAllUsers` without paging or response shaping: the live users. */
  function GetAllUsers(users: Users): (r: set<User>)
    ensures forall u :: u in r ==> !IsDeleted(u) && exists k :: k in users && users[k] == u
    ensures forall k :: k in users && !IsDeleted(users[k]) ==> users[k] in r
  {
    var live := FindByDeletedAtIsNull(users);
    set k | k in live :: live[k]
  }

  /** `getUserById`: a missing row and a soft-deleted row fail alike. */
  function GetUserById(users: Users, id: UserId): (r: Result<User>)
    ensures r.Ok? <==> id in users && !IsDeleted(users[id])
    ensures r.Ok? ==> r.value == users[id]
    ensures r.Err? ==> r.error == UserNotFound
  {
    match FindById(users, id)
    case None => Err(UserNotFound)
    case Some(u) => if IsDeleted(u) then Err(UserNotFound) else Ok(u)
  }

  /** A soft-deleted user is not listed and reads as not found, while its row stays. */
  lemma SoftDeletedUserIsHidden(users: Users, id: UserId, now: Timestamp)
    requires id in users
    ensures var after := users[id := SoftDeleted(users[id], now)];
      && id in after
      && GetUserById(after, id) == Err(UserNotFound)
      && after[id] !in GetAllUsers(after)
  {
  }

  class UserService {
    const userRepository: UserTable

    constructor (userRepository: UserTable)
      ensures this.userRepository == userRepository
    {
      this.userRepository := userRepository;
    }

    /** `unlockUser`: an unknown id fails and changes nothing; a known id, even a
        soft-deleted one, is unlocked and nothing else in the table changes. */
    method UnlockUser(id: UserId) returns (r: Result<()>)
      requires userRepository.Valid()
      modifies userRepository
      ensures userRepository.Valid()
      ensures r.Err? <==> id !in old(userRepository.users)
      ensures r.Err? ==> r.error == UserNotFound && userRepository.users == old(userRepository.users)
      ensures r.Ok? ==> userRepository.users == old(userRepository.users)[id := Unlocked(old(userRepository.users)[id])]
      ensures userRepository.nextId == old(userRepository.nextId)
    {
      var found := FindById(userRepository.users, id);
      if found.None? {
        return Err(UserNotFound);
      }
      var user := found.value;
      userRepository.Save(Unlocked(user));
      r := Ok(());
    }
  }
}
