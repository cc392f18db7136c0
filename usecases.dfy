/** The service layer of the social-graph API (internal/usecase/usecases.go):
    the user, tweet, follow and like services, each a short check-then-act
    sequence against the database. The Go services only hold repository
    handles, so each operation here takes the `Store` it works on. */
module Usecases {
  import opened Wrappers
  import opened Seqs
  import opened Model
  import opened Repositories

  /** The errors the services return. The service-level ones are the
      sentinels and `errors.New` values of usecases.go; `HashFailed` is the
      error bcrypt returned and `Repository` one the repository returned. */
  datatype ServiceError =
    | InvalidCredentials
    | UserNotFound
    | TweetNotFound
    | DuplicateUsername
    | DuplicateEmail
    | CannotFollowYourself
    | AlreadyFollowing
    | NotFollowing
    | AlreadyLiked
    | NotLiked
    | Unauthorized
    | HashFailed(msg: string)
    | Repository(err: StoreError)
  {
    /** The text of the Go error value; a repository error carries the
        driver's own text, which is not part of this model. */
    function Message(): string
      requires !Repository?
    {
      match this
      case InvalidCredentials => "invalid credentials"
      case UserNotFound => "user not found"
      case TweetNotFound => "tweet not found"
      case DuplicateUsername => "username already exists"
      case DuplicateEmail => "email already exists"
      case CannotFollowYourself => "cannot follow yourself"
      case AlreadyFollowing => "already following"
      case NotFollowing => "not following"
      case AlreadyLiked => "already liked"
      case NotLiked => "not liked"
      case Unauthorized => "unauthorized"
      case HashFailed(msg) => msg
    }
  }

  /** A repository error passed through unchanged. */
  function Lift(o: Outcome<StoreError>): (r: Outcome<ServiceError>)
    ensures r.Pass? <==> o.Pass?
    ensures o.Fail? ==> r.error == Repository(o.error)
  {
    match o
    case Pass => Pass
    case Fail(e) => Fail(Repository(e))
  }

  /** No follow row links a user to itself. */
  ghost predicate NoSelfFollows(follows: seq<Edge>)
  {
    forall e :: e in follows ==> e.src != e.dst
  }

  /** The distinct users following u, and the distinct users u follows. */
  ghost function FollowersOf(store: Store, u: int): set<int>
    reads store
  {
    set e | e in store.follows && e.dst == u :: e.src
  }

  ghost function FollowingOf(store: Store, u: int): set<int>
    reads store
  {
    set e | e in store.follows && e.src == u :: e.dst
  }

  // ----- UserUsecase -----

  /** Register: a taken username is reported first, then a taken email,
      then a bcrypt failure; otherwise exactly one user row is added, holding
      the hash of the password and never the password itself. */
  method Register(store: Store, hash: PasswordHasher, req: CreateUserRequest) returns (r: Result<User, ServiceError>)
    requires store.Valid()
    modifies store`users, store`nextUserID
    ensures store.Valid()
    ensures old(store.UsernameTaken(req.username)) ==>
      r == Failure(DuplicateUsername) && store.users == old(store.users) && store.nextUserID == old(store.nextUserID)
    ensures !old(store.UsernameTaken(req.username)) && old(store.EmailTaken(req.email)) ==>
      r == Failure(DuplicateEmail) && store.users == old(store.users) && store.nextUserID == old(store.nextUserID)
    ensures !old(store.UsernameTaken(req.username)) && !old(store.EmailTaken(req.email)) && hash(req.password).Failure? ==>
      r == Failure(HashFailed(hash(req.password).error)) && store.users == old(store.users) && store.nextUserID == old(store.nextUserID)
    ensures !old(store.UsernameTaken(req.username)) && !old(store.EmailTaken(req.email)) && hash(req.password).Success? ==>
      && r == Success(NewUser(req, hash(req.password).value).(id := old(store.nextUserID)))
      && old(store.nextUserID) !in old(store.users)
      && store.users == old(store.users)[old(store.nextUserID) := r.value]
      && store.nextUserID == old(store.nextUserID) + 1
  {
    if store.GetUserByUsername(req.username).Success? {
      return Failure(DuplicateUsername);
    }
    if store.GetUserByEmail(req.email).Success? {
      return Failure(DuplicateEmail);
    }
    var h := hash(req.password);
    if h.Failure? {
      return Failure(HashFailed(h.error));
    }
    var c := store.CreateUser(NewUser(req, h.value));
    r := match c
      case Success(u) => Success(u)
      case Failure(e) => Failure(Repository(e));
  }

  /** Login: an unknown email and a wrong password give the same error. */
  function Login(store: Store, matches: PasswordChecker, req: LoginRequest): (r: Result<User, ServiceError>)
    reads store
    requires store.Valid()
    ensures r.Failure? ==> r.error == InvalidCredentials
    ensures r.Success? <==> exists id :: id in store.users && store.users[id].email == req.email
                                         && matches(store.users[id].passwordHash, req.password)
    ensures r.Success? ==> r.value.id in store.users && store.users[r.value.id] == r.value && r.value.email == req.email
  {
    match store.GetUserByEmail(req.email)
    case Failure(_) => Failure(InvalidCredentials)
    case Success(u) => if matches(u.passwordHash, req.password) then Success(u) else Failure(InvalidCredentials)
  }

  /** A profile view: the user, the number of followers and of followees, and
      whether the viewer follows the user. */
  function GetUserProfile(store: Store, userID: int, currentUserID: int): (r: Result<UserResponse, ServiceError>)
    reads store
    requires store.Valid()
    ensures r.Failure? <==> userID !in store.users
    ensures r.Failure? ==> r.error == UserNotFound
    ensures r.Success? ==>
      && r.value.user == store.users[userID]
      && r.value.followersCount == |FollowersOf(store, userID)|
      && r.value.followingCount == |FollowingOf(store, userID)|
      && (r.value.isFollowing <==> exists e :: e in store.follows && e.src == currentUserID && e.dst == userID)
  {
    match store.GetUserByID(userID)
    case Failure(_) => Failure(UserNotFound)
    case Success(u) =>
      Success(UserResponse(u, store.GetFollowersCount(userID), store.GetFollowingCount(userID),
                           store.IsFollowing(currentUserID, userID)))
  }

  /** UpdateProfile: sets the display name and the bio (None clears it) of an
      existing user and changes nothing else. */
  method UpdateProfile(store: Store, userID: int, displayName: string, bio: Option<string>) returns (r: Outcome<ServiceError>)
    requires store.Valid()
    modifies store`users
    ensures store.Valid()
    ensures userID !in old(store.users) ==> r == Fail(UserNotFound) && store.users == old(store.users)
    ensures userID in old(store.users) ==>
      r == Pass && store.users == old(store.users)[userID := old(store.users)[userID].(displayName := displayName, bio := bio)]
  {
    match store.GetUserByID(userID)
    case Failure(_) =>
      r := Fail(UserNotFound);
    case Success(u) =>
      var o := store.UpdateUser(u.(displayName := displayName, bio := bio));
      r := Lift(o);
  }

  /** UpdateProfileImage: sets the profile image URL of an existing user and
      changes nothing else. */
  method UpdateProfileImage(store: Store, userID: int, imageURL: string) returns (r: Outcome<ServiceError>)
    requires store.Valid()
    modifies store`users
    ensures store.Valid()
    ensures userID !in old(store.users) ==> r == Fail(UserNotFound) && store.users == old(store.users)
    ensures userID in old(store.users) ==>
      r == Pass && store.users == old(store.users)[userID := old(store.users)[userID].(profileImageURL := Some(imageURL))]
  {
    match store.GetUserByID(userID)
    case Failure(_) =>
      r := Fail(UserNotFound);
    case Success(u) =>
      var o := store.UpdateUser(u.(profileImageURL := Some(imageURL)));
      r := Lift(o);
  }

  // ----- TweetUsecase -----

  /** CreateTweet stores the content as given (no length rule) under a fresh
      id, newer than every stored tweet. */
  method CreateTweet(store: Store, userID: int, req: CreateTweetRequest) returns (r: Result<Tweet, ServiceError>)
    requires store.Valid()
    modifies store`tweets, store`nextTweetID, store`clock
    ensures store.Valid()
    ensures r.Success?
    ensures r.value.userID == userID && r.value.content == req.content && r.value.imageURL == req.imageURL
    ensures forall t :: t in old(store.tweets) ==> t.id < r.value.id && t.createdAt < r.value.createdAt
    ensures store.tweets == old(store.tweets) + [r.value]
  {
    var t := store.CreateTweet(userID, req.content, req.imageURL);
    r := Success(t);
  }

  function GetTweet(store: Store, tweetID: int, currentUserID: int): (r: Result<TweetResponse, ServiceError>)
    reads store
    requires store.Valid()
    ensures r.Failure? <==> forall t :: t in store.tweets ==> t.id != tweetID
    ensures r.Failure? ==> r.error == TweetNotFound
    ensures r.Success? ==>
      && r.value.tweet in store.tweets && r.value.tweet.id == tweetID
      && (r.value.isLiked <==> exists e :: e in store.likes && e.src == currentUserID && e.dst == tweetID)
  {
    match store.GetTweetByID(tweetID)
    case Failure(_) => Failure(TweetNotFound)
    case Success(t) =>
      assert t in store.tweets by { assert FindTweet(store.tweets, tweetID).Some?; }
      Success(TweetResponse(t, store.IsLiked(currentUserID, tweetID)))
  }

  /** Wrap each tweet of ts, in order, with whether the viewer likes it. */
  method Annotate(store: Store, ts: seq<Tweet>, viewer: int) returns (r: seq<TweetResponse>)
    ensures |r| == |ts|
    ensures forall i :: 0 <= i < |ts| ==>
      r[i].tweet == ts[i] && (r[i].isLiked <==> exists e :: e in store.likes && e.src == viewer && e.dst == ts[i].id)
  {
    var responses := new TweetResponse[|ts|];
    for i := 0 to |ts|
      invariant forall k :: 0 <= k < i ==>
        responses[k].tweet == ts[k] && (responses[k].isLiked <==> store.IsLiked(viewer, ts[k].id))
    {
      responses[i] := TweetResponse(ts[i], store.IsLiked(viewer, ts[i].id));
    }
    r := responses[..];
  }

  /** A page of one author's tweets, newest first, each with the viewer's
      like flag. */
  method GetUserTweets(store: Store, userID: int, currentUserID: int, limit: nat, offset: nat) returns (r: seq<TweetResponse>)
    requires store.Valid()
    ensures |r| == |store.GetTweetsByUserID(userID, limit, offset)| <= limit
    ensures forall i :: 0 <= i < |r| ==>
      && r[i].tweet == store.GetTweetsByUserID(userID, limit, offset)[i]
      && r[i].tweet in store.tweets && r[i].tweet.userID == userID
      && (r[i].isLiked <==> exists e :: e in store.likes && e.src == currentUserID && e.dst == r[i].tweet.id)
    ensures forall i, j :: 0 <= i < j < |r| ==> r[i].tweet.createdAt > r[j].tweet.createdAt
  {
    var ts := store.GetTweetsByUserID(userID, limit, offset);
    assert forall i :: 0 <= i < |ts| ==> ts[i] in ts;
    r := Annotate(store, ts, currentUserID);
  }

  /** A page of the viewer's home timeline, newest first, each tweet with
      the viewer's like flag. */
  method GetTimeline(store: Store, userID: int, limit: nat, offset: nat) returns (r: seq<TweetResponse>)
    requires store.Valid()
    ensures |r| == |store.GetTimeline(userID, limit, offset)| <= limit
    ensures forall i :: 0 <= i < |r| ==>
      && r[i].tweet == store.GetTimeline(userID, limit, offset)[i]
      && r[i].tweet in store.tweets
      && (r[i].tweet.userID == userID || exists e :: e in store.follows && e.src == userID && e.dst == r[i].tweet.userID)
      && (r[i].isLiked <==> exists e :: e in store.likes && e.src == userID && e.dst == r[i].tweet.id)
    ensures forall i, j :: 0 <= i < j < |r| ==> r[i].tweet.createdAt > r[j].tweet.createdAt
  {
    var ts := store.GetTimeline(userID, limit, offset);
    assert forall i :: 0 <= i < |ts| ==> ts[i] in ts;
    r := Annotate(store, ts, userID);
  }

  /** DeleteTweet: a missing tweet and a tweet of another author are refused
      with the store unchanged; otherwise exactly that tweet is removed. */
  method DeleteTweet(store: Store, tweetID: int, userID: int) returns (r: Outcome<ServiceError>)
    requires store.Valid()
    modifies store`tweets
    ensures store.Valid()
    ensures (forall t :: t in old(store.tweets) ==> t.id != tweetID) ==>
      r == Fail(TweetNotFound) && store.tweets == old(store.tweets)
    ensures (exists t :: t in old(store.tweets) && t.id == tweetID && t.userID != userID) ==>
      r == Fail(Unauthorized) && store.tweets == old(store.tweets)
    ensures (exists t :: t in old(store.tweets) && t.id == tweetID && t.userID == userID) ==>
      && r == Pass
      && store.tweets == Filter(old(store.tweets), OtherThan(tweetID))
      && (forall t :: t in store.tweets <==> t in old(store.tweets) && t.id != tweetID)
  {
    match store.GetTweetByID(tweetID)
    case Failure(_) =>
      r := Fail(TweetNotFound);
    case Success(t) =>
      if t.userID != userID {
        r := Fail(Unauthorized);
      } else {
        var o := store.DeleteTweet(tweetID);
        r := Lift(o);
      }
  }

  // ----- FollowUsecase -----

  /** Follow: a self-follow and an existing follow are refused with the store
      unchanged; otherwise exactly the row (follower, following) is added.
      Follow never creates a self-follow. */
  method Follow(store: Store, followerID: int, followingID: int) returns (r: Outcome<ServiceError>)
    requires store.Valid()
    modifies store`follows, store`clock
    ensures store.Valid()
    ensures followerID == followingID ==>
      r == Fail(CannotFollowYourself) && store.follows == old(store.follows) && store.clock == old(store.clock)
    ensures followerID != followingID && old(store.IsFollowing(followerID, followingID)) ==>
      r == Fail(AlreadyFollowing) && store.follows == old(store.follows) && store.clock == old(store.clock)
    ensures followerID != followingID && !old(store.IsFollowing(followerID, followingID)) ==>
      r == Pass && store.follows == old(store.follows) + [Edge(followerID, followingID, old(store.clock))]
    ensures NoSelfFollows(old(store.follows)) ==> NoSelfFollows(store.follows)
  {
    if followerID == followingID {
      return Fail(CannotFollowYourself);
    }
    if store.IsFollowing(followerID, followingID) {
      return Fail(AlreadyFollowing);
    }
    var o := store.CreateFollow(followerID, followingID);
    r := Lift(o);
  }

  /** Unfollow: a missing follow is refused; otherwise that row is gone and
      every other row stays. */
  method Unfollow(store: Store, followerID: int, followingID: int) returns (r: Outcome<ServiceError>)
    requires store.Valid()
    modifies store`follows
    ensures store.Valid()
    ensures !old(store.IsFollowing(followerID, followingID)) ==>
      r == Fail(NotFollowing) && store.follows == old(store.follows)
    ensures old(store.IsFollowing(followerID, followingID)) ==>
      && r == Pass
      && !store.IsFollowing(followerID, followingID)
      && (forall e :: e in store.follows <==> e in old(store.follows) && !(e.src == followerID && e.dst == followingID))
    ensures NoSelfFollows(old(store.follows)) ==> NoSelfFollows(store.follows)
  {
    if !store.IsFollowing(followerID, followingID) {
      return Fail(NotFollowing);
    }
    store.DeleteFollow(followerID, followingID);
    r := Pass;
  }

  /** The follower page of the repository, unchanged. */
  function GetFollowers(store: Store, userID: int, limit: nat, offset: nat): (r: Result<seq<User>, ServiceError>)
    reads store
    requires store.Valid()
    ensures r == Success(store.GetFollowers(userID, limit, offset))
    ensures |r.value| <= limit
    ensures forall i :: 0 <= i < |r.value| ==>
      r.value[i].id in store.users && store.users[r.value[i].id] == r.value[i] && r.value[i].id in FollowersOf(store, userID)
  {
    var us := store.GetFollowers(userID, limit, offset);
    assert forall i :: 0 <= i < |us| ==> us[i].id in FollowersOf(store, userID) by {
      forall i | 0 <= i < |us| ensures us[i].id in FollowersOf(store, userID) {
        assert store.IsFollowing(us[i].id, userID);
        var e :| e in store.follows && e.src == us[i].id && e.dst == userID;
      }
    }
    Success(us)
  }

  /** The followee page of the repository, unchanged. */
  function GetFollowing(store: Store, userID: int, limit: nat, offset: nat): (r: Result<seq<User>, ServiceError>)
    reads store
    requires store.Valid()
    ensures r == Success(store.GetFollowing(userID, limit, offset))
    ensures |r.value| <= limit
    ensures forall i :: 0 <= i < |r.value| ==>
      r.value[i].id in store.users && store.users[r.value[i].id] == r.value[i] && r.value[i].id in FollowingOf(store, userID)
  {
    var us := store.GetFollowing(userID, limit, offset);
    assert forall i :: 0 <= i < |us| ==> us[i].id in FollowingOf(store, userID) by {
      forall i | 0 <= i < |us| ensures us[i].id in FollowingOf(store, userID) {
        assert store.IsFollowing(userID, us[i].id);
        var e :| e in store.follows && e.src == userID && e.dst == us[i].id;
      }
    }
    Success(us)
  }

  // ----- LikeUsecase -----

  /** LikeTweet: an existing like is refused with the store unchanged;
      otherwise exactly the row (user, tweet) is added. */
  method LikeTweet(store: Store, userID: int, tweetID: int) returns (r: Outcome<ServiceError>)
    requires store.Valid()
    modifies store`likes, store`clock
    ensures store.Valid()
    ensures old(store.IsLiked(userID, tweetID)) ==>
      r == Fail(AlreadyLiked) && store.likes == old(store.likes) && store.clock == old(store.clock)
    ensures !old(store.IsLiked(userID, tweetID)) ==>
      r == Pass && store.likes == old(store.likes) + [Edge(userID, tweetID, old(store.clock))]
  {
    if store.IsLiked(userID, tweetID) {
      return Fail(AlreadyLiked);
    }
    var o := store.CreateLike(userID, tweetID);
    r := Lift(o);
  }

  /** UnlikeTweet: a missing like is refused; otherwise that row is gone and
      every other row stays. */
  method UnlikeTweet(store: Store, userID: int, tweetID: int) returns (r: Outcome<ServiceError>)
    requires store.Valid()
    modifies store`likes
    ensures store.Valid()
    ensures !old(store.IsLiked(userID, tweetID)) ==> r == Fail(NotLiked) && store.likes == old(store.likes)
    ensures old(store.IsLiked(userID, tweetID)) ==>
      && r == Pass
      && !store.IsLiked(userID, tweetID)
      && (forall e :: e in store.likes <==> e in old(store.likes) && !(e.src == userID && e.dst == tweetID))
  {
    if !store.IsLiked(userID, tweetID) {
      return Fail(NotLiked);
    }
    store.DeleteLike(userID, tweetID);
    r := Pass;
  }

  /** The liked-tweets page of the repository, unchanged. */
  function GetLikedTweets(store: Store, userID: int, limit: nat, offset: nat): (r: Result<seq<Tweet>, ServiceError>)
    reads store
    requires store.Valid()
    ensures r == Success(store.GetLikedTweets(userID, limit, offset))
    ensures |r.value| <= limit
    ensures forall i :: 0 <= i < |r.value| ==>
      r.value[i] in store.tweets && exists e :: e in store.likes && e.src == userID && e.dst == r.value[i].id
  {
    Success(store.GetLikedTweets(userID, limit, offset))
  }
}
