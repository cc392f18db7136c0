/** The entities of the social-graph service (internal/model): rows of the
    users and tweets tables, follow and like rows, the request and response
    shapes of the services, and the opaque password primitives. */
module Model {
  import opened Wrappers

  /** A row of the users table. `bio` and `profileImageURL` are nullable. */
  datatype User = User(
    id: int,
    username: string,
    displayName: string,
    email: string,
    passwordHash: string,
    bio: Option<string>,
    profileImageURL: Option<string>)

  /** A row of the tweets table; `createdAt` is the database's insertion time. */
  datatype Tweet = Tweet(id: int, userID: int, content: string, imageURL: Option<string>, createdAt: int)

  /** A row of the follows table (user src follows user dst) or of the likes
      table (user src likes tweet dst). Either table has no other columns. */
  datatype Edge = Edge(src: int, dst: int, createdAt: int)

  function TweetTime(t: Tweet): int { t.createdAt }

  function EdgeTime(e: Edge): int { e.createdAt }

  /** An earlier tweet row has an earlier time and a smaller auto-increment id. */
  predicate TweetBefore(a: Tweet, b: Tweet)
  {
    a.createdAt < b.createdAt && a.id < b.id
  }

  /** An earlier edge row has an earlier time and a different (src, dst) key. */
  predicate EdgeBefore(a: Edge, b: Edge)
  {
    a.createdAt < b.createdAt && (a.src != b.src || a.dst != b.dst)
  }

  /** What a viewer sees of a tweet: the tweet and whether the viewer likes it. */
  datatype TweetResponse = TweetResponse(tweet: Tweet, isLiked: bool)

  /** A profile view: the user, the two edge counts and whether the viewer follows. */
  datatype UserResponse = UserResponse(user: User, followersCount: nat, followingCount: nat, isFollowing: bool)

  datatype CreateUserRequest = CreateUserRequest(
    username: string,
    displayName: string,
    email: string,
    password: string,
    bio: Option<string>)

  /** The users row written for a registration whose password hashed to h:
      the request's fields, the hash in place of the password, no profile
      image. The id is assigned by the database. */
  function NewUser(req: CreateUserRequest, h: string): (u: User)
    ensures u.username == req.username && u.displayName == req.displayName && u.email == req.email
    ensures u.id == 0 && u.passwordHash == h && u.bio == req.bio && u.profileImageURL.None?
  {
    User(0, req.username, req.displayName, req.email, h, req.bio, None)
  }

  datatype LoginRequest = LoginRequest(email: string, password: string)

  datatype CreateTweetRequest = CreateTweetRequest(content: string, imageURL: Option<string>)

  /** bcrypt's GenerateFromPassword, opaque: the hash of a password, or the
      message of the error bcrypt returned. */
  type PasswordHasher = string -> Result<string, string>

  /** bcrypt's CompareHashAndPassword, opaque: does the password match the hash? */
  type PasswordChecker = (string, string) -> bool
}
