/** The repository of the user/profile slice
    (internal/user/repository/user_repository.go). It reads and writes the
    same users and follows tables as the social-graph repositories, and hands
    out rows converted to the slice's API model, where a NULL column becomes
    the empty string.

    Every query may also fail inside the database driver; `outage` stands
    for that: `Some(msg)` makes the operation's first query fail with msg. */
module UserRepository {
  import opened Wrappers
  import opened Model
  import opened Repositories

  /** The errors of the slice's repository: `NoRows` is sql.ErrNoRows,
      `Duplicate` a unique-key violation, `DbFailure` any other driver
      error, `HashFailed` an error of bcrypt. */
  datatype RepoError = NoRows | Duplicate | DbFailure(msg: string) | HashFailed(msg: string)

  /** The slice's registration request has the same fields as the service's. */
  type RegisterRequest = CreateUserRequest

  datatype UpdateProfileRequest = UpdateProfileRequest(
    displayName: string,
    bio: Option<string>,
    profileImageURL: Option<string>)

  /** A profile view of the slice. */
  datatype UserProfile = UserProfile(user: User, followersCount: nat, followingCount: nat, isFollowing: bool)

  /** convertToModel: a users row as the API model. The five plain columns
      are copied; the nullable ones become present, NULL as "". */
  function ConvertToModel(row: User): (u: User)
    ensures u.id == row.id && u.username == row.username && u.displayName == row.displayName
    ensures u.email == row.email && u.passwordHash == row.passwordHash
    ensures u.bio.Some? && u.profileImageURL.Some?
    ensures row.bio.Some? ==> u.bio == row.bio
    ensures row.profileImageURL.Some? ==> u.profileImageURL == row.profileImageURL
    ensures row.bio.None? ==> u.bio == Some("")
    ensures row.profileImageURL.None? ==> u.profileImageURL == Some("")
  {
    row.(bio := Some(row.bio.GetOr("")), profileImageURL := Some(row.profileImageURL.GetOr("")))
  }

  /** Converting drops the difference between NULL and "": a row with no
      bio and a row with an empty bio look the same to the API. */
  lemma ConvertConflatesNull(row: User)
    ensures ConvertToModel(row.(bio := None)) == ConvertToModel(row.(bio := Some("")))
    ensures ConvertToModel(row.(profileImageURL := None)) == ConvertToModel(row.(profileImageURL := Some("")))
  {
  }

  /** Create: hash the password, insert the row, return it converted. A
      bcrypt error comes first, then a driver error, then a unique-key
      violation on the username or email. */
  method Create(store: Store, hash: PasswordHasher, req: RegisterRequest, outage: Option<string>)
    returns (r: Result<User, RepoError>)
    requires store.Valid()
    modifies store`users, store`nextUserID
    ensures store.Valid()
    ensures hash(req.password).Failure? ==>
      r == Failure(HashFailed(hash(req.password).error)) && store.users == old(store.users) && store.nextUserID == old(store.nextUserID)
    ensures hash(req.password).Success? && outage.Some? ==>
      r == Failure(DbFailure(outage.value)) && store.users == old(store.users) && store.nextUserID == old(store.nextUserID)
    ensures hash(req.password).Success? && outage.None? && old(store.UsernameTaken(req.username) || store.EmailTaken(req.email)) ==>
      r == Failure(Duplicate) && store.users == old(store.users) && store.nextUserID == old(store.nextUserID)
    ensures hash(req.password).Success? && outage.None? && !old(store.UsernameTaken(req.username) || store.EmailTaken(req.email)) ==>
      && old(store.nextUserID) !in old(store.users)
      && store.users == old(store.users)[old(store.nextUserID) := NewUser(req, hash(req.password).value).(id := old(store.nextUserID))]
      && r == Success(ConvertToModel(store.users[old(store.nextUserID)]))
  {
    var h := hash(req.password);
    if h.Failure? {
      return Failure(HashFailed(h.error));
    }
    if outage.Some? {
      return Failure(DbFailure(outage.value));
    }
    var c := store.CreateUser(NewUser(req, h.value));
    r := match c
      case Success(row) => Success(ConvertToModel(row))
      case Failure(ErrDuplicate) => Failure(Duplicate)
      case Failure(ErrNotFound) => Failure(NoRows);
  }

  function GetByID(store: Store, id: int, outage: Option<string>): (r: Result<User, RepoError>)
    reads store
    ensures outage.Some? ==> r == Failure(DbFailure(outage.value))
    ensures outage.None? && id !in store.users ==> r == Failure(NoRows)
    ensures outage.None? && id in store.users ==> r == Success(ConvertToModel(store.users[id]))
  {
    if outage.Some? then Failure(DbFailure(outage.value))
    else match store.GetUserByID(id)
      case Success(row) => Success(ConvertToModel(row))
      case Failure(_) => Failure(NoRows)
  }

  function GetByEmail(store: Store, email: string, outage: Option<string>): (r: Result<User, RepoError>)
    reads store
    requires store.Valid()
    ensures outage.Some? ==> r == Failure(DbFailure(outage.value))
    ensures outage.None? ==> (r == Failure(NoRows) <==> !store.EmailTaken(email))
    ensures outage.None? ==> (r.Success? <==> store.EmailTaken(email))
    ensures outage.None? && r.Success? ==>
      exists id :: id in store.users && store.users[id].email == email && r.value == ConvertToModel(store.users[id])
  {
    if outage.Some? then Failure(DbFailure(outage.value))
    else match store.GetUserByEmail(email)
      case Success(row) => Success(ConvertToModel(row))
      case Failure(_) => Failure(NoRows)
  }

  /** Update: set the display name, bio and profile image of an existing
      row (None writes NULL), keep its other columns, return it converted. */
  method Update(store: Store, id: int, req: UpdateProfileRequest, outage: Option<string>)
    returns (r: Result<User, RepoError>)
    requires store.Valid()
    modifies store`users
    ensures store.Valid()
    ensures outage.Some? ==> r == Failure(DbFailure(outage.value)) && store.users == old(store.users)
    ensures outage.None? && id !in old(store.users) ==> r == Failure(NoRows) && store.users == old(store.users)
    ensures outage.None? && id in old(store.users) ==>
      && store.users == old(store.users)[id := old(store.users)[id].(displayName := req.displayName, bio := req.bio,
                                                                     profileImageURL := req.profileImageURL)]
      && r == Success(ConvertToModel(store.users[id]))
  {
    if outage.Some? {
      return Failure(DbFailure(outage.value));
    }
    var found := store.GetUserByID(id);
    if found.Failure? {
      return Failure(NoRows);
    }
    var row := found.value.(displayName := req.displayName, bio := req.bio, profileImageURL := req.profileImageURL);
    var o := store.UpdateUser(row);
    r := match o
      case Pass => Success(ConvertToModel(row))
      case Fail(_) => Failure(Duplicate);
  }

  /** GetProfile: the converted row, its follower and followee counts, and
      whether the viewer follows it; viewer id 0 (anonymous) never does. */
  function GetProfile(store: Store, userID: int, currentUserID: int, outage: Option<string>): (r: Result<UserProfile, RepoError>)
    reads store
    requires store.Valid()
    ensures outage.Some? ==> r == Failure(DbFailure(outage.value))
    ensures outage.None? && userID !in store.users ==> r == Failure(NoRows)
    ensures outage.None? && userID in store.users ==>
      && r.Success?
      && r.value.user == ConvertToModel(store.users[userID])
      && r.value.followersCount == |set e | e in store.follows && e.dst == userID :: e.src|
      && r.value.followingCount == |set e | e in store.follows && e.src == userID :: e.dst|
    ensures r.Success? && currentUserID == 0 ==> !r.value.isFollowing
    ensures r.Success? && currentUserID != 0 ==>
      (r.value.isFollowing <==> exists e :: e in store.follows && e.src == currentUserID && e.dst == userID)
  {
    if outage.Some? then Failure(DbFailure(outage.value))
    else match store.GetUserByID(userID)
      case Failure(_) => Failure(NoRows)
      case Success(row) =>
        var isFollowing := if currentUserID != 0 then store.IsFollowing(currentUserID, userID) else false;
        Success(UserProfile(ConvertToModel(row), store.GetFollowersCount(userID), store.GetFollowingCount(userID), isFollowing))
  }
}
