/** The service of the user/profile slice (internal/user/usecase/user_usecase.go):
    registration checked on the email, login issuing a signed token, and the
    profile operations handed to the repository. */
module UserUsecase {
  import opened Wrappers
  import opened Model
  import opened Repositories
  import opened UserRepository

  /** The claims of a login token: the user's id and the expiry, in Unix seconds. */
  datatype Claims = Claims(userID: int, exp: int)

  /** HS256 signing with the service's secret, opaque: the token, or the
      message of the error the JWT library returned. */
  type Signer = Claims -> Result<string, string>

  /** A token is valid for one week. */
  const TokenLifetime: int := 7 * 24 * 60 * 60

  datatype LoginResponse = LoginResponse(token: string, user: User)

  /** The errors of the slice's service: a repository error passed through,
      the two `errors.New` values, and a signing error. */
  datatype UserError = Repo(err: RepoError) | EmailExists | InvalidEmailOrPassword | SignFailed(msg: string)
  {
    /** The text of the Go error value; a repository error carries the
        driver's or bcrypt's own text, which is not part of this model. */
    function Message(): string
      requires !Repo?
    {
      match this
      case EmailExists => "email already exists"
      case InvalidEmailOrPassword => "invalid email or password"
      case SignFailed(msg) => msg
    }
  }

  /** Register: a failing lookup (other than no rows) is passed through and a
      taken email refused, both before anything is written; otherwise the
      repository's Create runs on the same request, so a taken username is
      caught only by the database's unique key. */
  method Register(store: Store, hash: PasswordHasher, req: RegisterRequest,
                  lookupOutage: Option<string>, insertOutage: Option<string>)
    returns (r: Result<User, UserError>)
    requires store.Valid()
    modifies store`users, store`nextUserID
    ensures store.Valid()
    ensures lookupOutage.Some? ==>
      r == Failure(Repo(DbFailure(lookupOutage.value))) && store.users == old(store.users) && store.nextUserID == old(store.nextUserID)
    ensures lookupOutage.None? && old(store.EmailTaken(req.email)) ==>
      r == Failure(EmailExists) && store.users == old(store.users) && store.nextUserID == old(store.nextUserID)
    ensures lookupOutage.None? && !old(store.EmailTaken(req.email)) ==>
      if hash(req.password).Failure? then
        r == Failure(Repo(HashFailed(hash(req.password).error))) && store.users == old(store.users)
      else if insertOutage.Some? then
        r == Failure(Repo(DbFailure(insertOutage.value))) && store.users == old(store.users)
      else if old(store.UsernameTaken(req.username)) then
        r == Failure(Repo(Duplicate)) && store.users == old(store.users)
      else
        && store.users == old(store.users)[old(store.nextUserID) := NewUser(req, hash(req.password).value).(id := old(store.nextUserID))]
        && r == Success(ConvertToModel(store.users[old(store.nextUserID)]))
  {
    var existing := GetByEmail(store, req.email, lookupOutage);
    if existing.Failure? && existing.error != NoRows {
      return Failure(Repo(existing.error));
    }
    if existing.Success? {
      return Failure(EmailExists);
    }
    var c := Create(store, hash, req, insertOutage);
    r := match c
      case Success(u) => Success(u)
      case Failure(e) => Failure(Repo(e));
  }

  /** Login: an unknown email and a wrong password give the same error; a
      failing lookup is passed through. On success the token signs the user's
      id and an expiry one week after now. */
  function Login(store: Store, matches: PasswordChecker, sign: Signer, req: LoginRequest, now: int, outage: Option<string>)
    : (r: Result<LoginResponse, UserError>)
    reads store
    requires store.Valid()
    ensures outage.Some? ==> r == Failure(Repo(DbFailure(outage.value)))
    ensures outage.None? && !store.EmailTaken(req.email) ==> r == Failure(InvalidEmailOrPassword)
  {
    var found := GetByEmail(store, req.email, outage);
    match found
    case Failure(NoRows) => Failure(InvalidEmailOrPassword)
    case Failure(e) => Failure(Repo(e))
    case Success(user) =>
      if !matches(user.passwordHash, req.password) then Failure(InvalidEmailOrPassword)
      else
        match sign(Claims(user.id, now + TokenLifetime))
        case Failure(msg) => Failure(SignFailed(msg))
        case Success(token) => Success(LoginResponse(token, user))
  }

  /** Login for the account registered under req's email: a wrong password
      gives the same error as an unknown email; a right one gives the
      converted account and a token signing its id and an expiry one week
      after now. */
  lemma LoginAccount(store: Store, matches: PasswordChecker, sign: Signer, req: LoginRequest, now: int, id: int)
    requires store.Valid() && id in store.users && store.users[id].email == req.email
    ensures var r := Login(store, matches, sign, req, now, None);
      var claims := Claims(id, now + TokenLifetime);
      && (!matches(store.users[id].passwordHash, req.password) ==> r == Failure(InvalidEmailOrPassword))
      && (matches(store.users[id].passwordHash, req.password) && sign(claims).Failure? ==>
            r == Failure(SignFailed(sign(claims).error)))
      && (matches(store.users[id].passwordHash, req.password) && sign(claims).Success? ==>
            r == Success(LoginResponse(sign(claims).value, ConvertToModel(store.users[id]))))
  {
  }

  /** GetProfile: the repository's profile, passed through unchanged. */
  function GetProfile(store: Store, userID: int, currentUserID: int, outage: Option<string>)
    : (r: Result<UserProfile, UserError>)
    reads store
    requires store.Valid()
    ensures outage.Some? ==> r == Failure(Repo(DbFailure(outage.value)))
    ensures outage.None? && userID !in store.users ==> r == Failure(Repo(NoRows))
    ensures r.Success? <==> outage.None? && userID in store.users
    ensures r.Success? ==> r.value.user == ConvertToModel(store.users[userID])
    ensures r.Success? ==> r.value.followersCount == |set e | e in store.follows && e.dst == userID :: e.src|
    ensures r.Success? ==> r.value.followingCount == |set e | e in store.follows && e.src == userID :: e.dst|
    ensures r.Success? && currentUserID == 0 ==> !r.value.isFollowing
    ensures r.Success? && currentUserID != 0 ==>
      (r.value.isFollowing <==> exists e :: e in store.follows && e.src == currentUserID && e.dst == userID)
  {
    match UserRepository.GetProfile(store, userID, currentUserID, outage)
    case Success(p) => Success(p)
    case Failure(e) => Failure(Repo(e))
  }

  /** UpdateProfile: the repository's Update, passed through unchanged. */
  method UpdateProfile(store: Store, userID: int, req: UpdateProfileRequest, outage: Option<string>)
    returns (r: Result<User, UserError>)
    requires store.Valid()
    modifies store`users
    ensures store.Valid()
    ensures outage.Some? ==> r == Failure(Repo(DbFailure(outage.value))) && store.users == old(store.users)
    ensures outage.None? && userID !in old(store.users) ==> r == Failure(Repo(NoRows)) && store.users == old(store.users)
    ensures outage.None? && userID in old(store.users) ==>
      && store.users == old(store.users)[userID := old(store.users)[userID].(displayName := req.displayName, bio := req.bio,
                                                                             profileImageURL := req.profileImageURL)]
      && r == Success(ConvertToModel(store.users[userID]))
  {
    var u := Update(store, userID, req, outage);
    r := match u
      case Success(v) => Success(v)
      case Failure(e) => Failure(Repo(e));
  }
}
