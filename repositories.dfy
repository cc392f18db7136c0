/** The four repositories of internal/repository over one database. The
    database is the class `Store`: the users table is a map from id to row,
    the tweets, follows and likes tables are sequences in insertion order,
    and `clock` stamps each inserted row's created_at. Each query of the
    Go repositories is a function over this state, each insert, update and
    delete a method. */
module Repositories {
  import opened Wrappers
  import opened Seqs
  import opened Model

  /** ErrNotFound ("record not found") and ErrDuplicate ("duplicate record"). */
  datatype StoreError = ErrNotFound | ErrDuplicate

  /** `SELECT EXISTS(... WHERE src = ? AND dst = ?)` over an edge table. */
  function HasEdge(edges: seq<Edge>, src: int, dst: int): (r: bool)
    ensures r <==> exists i :: 0 <= i < |edges| && edges[i].src == src && edges[i].dst == dst
  {
    if edges == [] then false
    else (edges[|edges| - 1].src == src && edges[|edges| - 1].dst == dst) || HasEdge(edges[..|edges| - 1], src, dst)
  }

  /** The created_at of the edge (src, dst), or -1 when there is none. */
  function EdgeAt(edges: seq<Edge>, src: int, dst: int): int
  {
    if edges == [] then -1
    else if edges[|edges| - 1].src == src && edges[|edges| - 1].dst == dst then edges[|edges| - 1].createdAt
    else EdgeAt(edges[..|edges| - 1], src, dst)
  }

  /** `WHERE id = ?` over the tweets table. */
  function FindTweet(tweets: seq<Tweet>, id: int): (r: Option<Tweet>)
    ensures r.Some? ==> r.value in tweets && r.value.id == id
    ensures r.None? <==> forall t :: t in tweets ==> t.id != id
  {
    if tweets == [] then None
    else if tweets[|tweets| - 1].id == id then Some(tweets[|tweets| - 1])
    else FindTweet(tweets[..|tweets| - 1], id)
  }

  /** Edges whose dst is u. */
  function Into(u: int): Edge -> bool { (e: Edge) => e.dst == u }

  /** Edges whose src is u. */
  function OutOf(u: int): Edge -> bool { (e: Edge) => e.src == u }

  /** Every edge except (src, dst). */
  function Except(src: int, dst: int): Edge -> bool { (e: Edge) => !(e.src == src && e.dst == dst) }

  /** Tweets by author u. */
  function ByAuthor(u: int): Tweet -> bool { (t: Tweet) => t.userID == u }

  /** Every tweet except the one with this id. */
  function OtherThan(id: int): Tweet -> bool { (t: Tweet) => t.id != id }

  /** The timeline selection of viewer v:
      `user_id IN (SELECT following_id FROM follows WHERE follower_id = v) OR user_id = v`. */
  function OnTimelineOf(follows: seq<Edge>, v: int): Tweet -> bool
  {
    (t: Tweet) => t.userID == v || HasEdge(follows, v, t.userID)
  }

  /** Follow edges into u whose follower row exists (the inner join with users). */
  function FollowerOf(users: map<int, User>, u: int): Edge -> bool
  {
    (e: Edge) => e.dst == u && e.src in users
  }

  /** Follow edges out of u whose followed row exists (the inner join with users). */
  function FolloweeOf(users: map<int, User>, u: int): Edge -> bool
  {
    (e: Edge) => e.src == u && e.dst in users
  }

  /** Like edges of user u whose tweet row exists (the inner join with tweets). */
  function LikedBy(tweets: seq<Tweet>, u: int): Edge -> bool
  {
    (e: Edge) => e.src == u && FindTweet(tweets, e.dst).Some?
  }

  /** Every user row is stored under its own id. */
  ghost predicate KeyedByID(users: map<int, User>)
  {
    forall id :: id in users ==> users[id].id == id
  }

  lemma OrdersByTime()
    ensures OrdersBy(TweetBefore, TweetTime) && OrdersBy(EdgeBefore, EdgeTime)
  {
  }

  /** An edge table with distinct keys holds at most one row per (src, dst). */
  lemma EdgeUnique(edges: seq<Edge>, e1: Edge, e2: Edge)
    requires Pairwise(edges, EdgeBefore)
    requires e1 in edges && e2 in edges && e1.src == e2.src && e1.dst == e2.dst
    ensures e1 == e2
  {
  }

  /** A tweets table with increasing ids holds at most one row per id. */
  lemma TweetUnique(tweets: seq<Tweet>, t1: Tweet, t2: Tweet)
    requires Pairwise(tweets, TweetBefore)
    requires t1 in tweets && t2 in tweets && t1.id == t2.id
    ensures t1 == t2
  {
  }

  /** EdgeAt reads the created_at of the one stored edge with that key. */
  lemma {:induction false} EdgeAtStored(edges: seq<Edge>, e: Edge)
    requires Pairwise(edges, EdgeBefore) && e in edges
    ensures EdgeAt(edges, e.src, e.dst) == e.createdAt
  {
    var last := edges[|edges| - 1];
    if last.src == e.src && last.dst == e.dst {
      EdgeUnique(edges, last, e);
    } else {
      PairwisePrefix(edges, EdgeBefore, |edges| - 1);
      assert e in edges[..|edges| - 1];
      EdgeAtStored(edges[..|edges| - 1], e);
    }
  }

  // Counting the edges into (out of) u counts distinct followers (targets),
  // because an edge table holds one row per key.

  /** The src ends of the edges whose dst is u, computed row by row. */
  ghost function Sources(edges: seq<Edge>, u: int): set<int>
  {
    if edges == [] then {}
    else Sources(edges[..|edges| - 1], u) + (if edges[|edges| - 1].dst == u then {edges[|edges| - 1].src} else {})
  }

  lemma {:induction false} SourcesAre(edges: seq<Edge>, u: int)
    ensures Sources(edges, u) == set e | e in edges && e.dst == u :: e.src
  {
    if edges != [] {
      var s' := edges[..|edges| - 1];
      SourcesAre(s', u);
      assert edges == s' + [edges[|edges| - 1]];
    }
  }

  lemma {:induction false} CountInto(edges: seq<Edge>, u: int)
    requires Pairwise(edges, EdgeBefore)
    ensures |Filter(edges, Into(u))| == |set e | e in edges && e.dst == u :: e.src|
  {
    SourcesAre(edges, u);
    if edges != [] {
      var s', last := edges[..|edges| - 1], edges[|edges| - 1];
      PairwisePrefix(edges, EdgeBefore, |edges| - 1);
      CountInto(s', u);
      SourcesAre(s', u);
      forall e | e in s' && e.dst == u && last.dst == u ensures e.src != last.src {
        var k :| 0 <= k < |s'| && s'[k] == e;
        assert EdgeBefore(edges[k], edges[|edges| - 1]);
      }
    }
  }

  /** The dst ends of the edges whose src is u, computed row by row. */
  ghost function Targets(edges: seq<Edge>, u: int): set<int>
  {
    if edges == [] then {}
    else Targets(edges[..|edges| - 1], u) + (if edges[|edges| - 1].src == u then {edges[|edges| - 1].dst} else {})
  }

  lemma {:induction false} TargetsAre(edges: seq<Edge>, u: int)
    ensures Targets(edges, u) == set e | e in edges && e.src == u :: e.dst
  {
    if edges != [] {
      var s' := edges[..|edges| - 1];
      TargetsAre(s', u);
      assert edges == s' + [edges[|edges| - 1]];
    }
  }

  lemma {:induction false} CountOutOf(edges: seq<Edge>, u: int)
    requires Pairwise(edges, EdgeBefore)
    ensures |Filter(edges, OutOf(u))| == |set e | e in edges && e.src == u :: e.dst|
  {
    TargetsAre(edges, u);
    if edges != [] {
      var s', last := edges[..|edges| - 1], edges[|edges| - 1];
      PairwisePrefix(edges, EdgeBefore, |edges| - 1);
      CountOutOf(s', u);
      TargetsAre(s', u);
      forall e | e in s' && e.src == u && last.src == u ensures e.dst != last.dst {
        var k :| 0 <= k < |s'| && s'[k] == e;
        assert EdgeBefore(edges[k], edges[|edges| - 1]);
      }
    }
  }

  /** Deleting the (src, dst) rows undoes inserting one into a table that
      had none: unfollow after follow, unlike after like. */
  lemma RemoveUndoesInsert(edges: seq<Edge>, src: int, dst: int, at: int)
    requires !HasEdge(edges, src, dst)
    ensures Filter(edges + [Edge(src, dst, at)], Except(src, dst)) == edges
  {
  }

  /** The users at the src end of the follow edges w, and what a page of
      them says about the follows table. */
  lemma FollowersJoin(users: map<int, User>, follows: seq<Edge>, u: int, w: seq<Edge>, r: seq<User>)
    requires KeyedByID(users) && Pairwise(follows, EdgeBefore) && Descending(w, EdgeTime)
    requires forall e :: e in w ==> e in follows && e.dst == u && e.src in users
    requires |r| == |w| && forall i :: 0 <= i < |w| ==> w[i].src in users && r[i] == users[w[i].src]
    ensures forall i :: 0 <= i < |r| ==> r[i].id in users && users[r[i].id] == r[i] && HasEdge(follows, r[i].id, u)
    ensures forall i, j :: 0 <= i < j < |r| ==> EdgeAt(follows, r[i].id, u) > EdgeAt(follows, r[j].id, u)
    ensures forall e :: e in follows && e.dst == u && e.src in users ==> (users[e.src] in r <==> e in w)
  {
    forall i | 0 <= i < |r| ensures r[i].id == w[i].src && EdgeAt(follows, r[i].id, u) == w[i].createdAt {
      assert w[i] in w;
      EdgeAtStored(follows, w[i]);
    }
    forall e | e in follows && e.dst == u && e.src in users && users[e.src] in r ensures e in w {
      var i :| 0 <= i < |r| && r[i] == users[e.src];
      assert w[i] in w;
      EdgeUnique(follows, e, w[i]);
    }
  }

  /** The users at the dst end of the follow edges w, and what a page of
      them says about the follows table. */
  lemma FolloweesJoin(users: map<int, User>, follows: seq<Edge>, u: int, w: seq<Edge>, r: seq<User>)
    requires KeyedByID(users) && Pairwise(follows, EdgeBefore) && Descending(w, EdgeTime)
    requires forall e :: e in w ==> e in follows && e.src == u && e.dst in users
    requires |r| == |w| && forall i :: 0 <= i < |w| ==> w[i].dst in users && r[i] == users[w[i].dst]
    ensures forall i :: 0 <= i < |r| ==> r[i].id in users && users[r[i].id] == r[i] && HasEdge(follows, u, r[i].id)
    ensures forall i, j :: 0 <= i < j < |r| ==> EdgeAt(follows, u, r[i].id) > EdgeAt(follows, u, r[j].id)
    ensures forall e :: e in follows && e.src == u && e.dst in users ==> (users[e.dst] in r <==> e in w)
  {
    forall i | 0 <= i < |r| ensures r[i].id == w[i].dst && EdgeAt(follows, u, r[i].id) == w[i].createdAt {
      assert w[i] in w;
      EdgeAtStored(follows, w[i]);
    }
    forall e | e in follows && e.src == u && e.dst in users && users[e.dst] in r ensures e in w {
      var i :| 0 <= i < |r| && r[i] == users[e.dst];
      assert w[i] in w;
      EdgeUnique(follows, e, w[i]);
    }
  }

  /** The tweets at the dst end of the like edges w, and what a page of them
      says about the likes table. */
  lemma LikedJoin(tweets: seq<Tweet>, likes: seq<Edge>, u: int, w: seq<Edge>, r: seq<Tweet>)
    requires Pairwise(tweets, TweetBefore) && Pairwise(likes, EdgeBefore) && Descending(w, EdgeTime)
    requires forall e :: e in w ==> e in likes && e.src == u && FindTweet(tweets, e.dst).Some?
    requires |r| == |w| && forall i :: 0 <= i < |w| ==> FindTweet(tweets, w[i].dst).Some? && r[i] == FindTweet(tweets, w[i].dst).value
    ensures forall i :: 0 <= i < |r| ==> r[i] in tweets && HasEdge(likes, u, r[i].id)
    ensures forall i, j :: 0 <= i < j < |r| ==> EdgeAt(likes, u, r[i].id) > EdgeAt(likes, u, r[j].id)
    ensures forall e, t :: e in likes && e.src == u && t in tweets && t.id == e.dst ==> (t in r <==> e in w)
  {
    forall i | 0 <= i < |r| ensures r[i].id == w[i].dst && EdgeAt(likes, u, r[i].id) == w[i].createdAt {
      assert w[i] in w;
      EdgeAtStored(likes, w[i]);
    }
    forall e, t | e in likes && e.src == u && t in tweets && t.id == e.dst
      ensures t in r <==> e in w
    {
      TweetUnique(tweets, t, FindTweet(tweets, e.dst).value);
      if t in r {
        var i :| 0 <= i < |r| && r[i] == t;
        assert w[i] in w;
        EdgeUnique(likes, e, w[i]);
      }
      if e in w {
        var i :| 0 <= i < |w| && w[i] == e;
        assert r[i] == t;
      }
    }
  }

  /** The page of followers of u as user rows: `SELECT u.* FROM users u JOIN
      follows f ON u.id = f.follower_id WHERE f.following_id = ? ORDER BY
      f.created_at DESC LIMIT ? OFFSET ?`. */
  function FollowerRows(users: map<int, User>, follows: seq<Edge>, u: int, limit: nat, offset: nat): seq<User>
  {
    var nf := NewestFirst(follows, FollowerOf(users, u));
    var w := Page(nf, limit, offset);
    assert forall i :: 0 <= i < |w| ==> w[i].src in users by {
      forall i | 0 <= i < |w| ensures w[i].src in users { assert nf[offset + i] in nf; }
    }
    seq(|w|, i requires 0 <= i < |w| && w[i].src in users => users[w[i].src])
  }

  /** The page of users u follows, joined on following_id. */
  function FolloweeRows(users: map<int, User>, follows: seq<Edge>, u: int, limit: nat, offset: nat): seq<User>
  {
    var nf := NewestFirst(follows, FolloweeOf(users, u));
    var w := Page(nf, limit, offset);
    assert forall i :: 0 <= i < |w| ==> w[i].dst in users by {
      forall i | 0 <= i < |w| ensures w[i].dst in users { assert nf[offset + i] in nf; }
    }
    seq(|w|, i requires 0 <= i < |w| && w[i].dst in users => users[w[i].dst])
  }

  /** The page of tweets u likes, joined on tweet_id. */
  function LikedRows(tweets: seq<Tweet>, likes: seq<Edge>, u: int, limit: nat, offset: nat): seq<Tweet>
  {
    var nf := NewestFirst(likes, LikedBy(tweets, u));
    var w := Page(nf, limit, offset);
    assert forall i :: 0 <= i < |w| ==> FindTweet(tweets, w[i].dst).Some? by {
      forall i | 0 <= i < |w| ensures FindTweet(tweets, w[i].dst).Some? { assert nf[offset + i] in nf; }
    }
    seq(|w|, i requires 0 <= i < |w| && FindTweet(tweets, w[i].dst).Some? => FindTweet(tweets, w[i].dst).value)
  }

  lemma FollowersWindow(users: map<int, User>, follows: seq<Edge>, u: int, limit: nat, offset: nat)
    requires KeyedByID(users) && Pairwise(follows, EdgeBefore)
    ensures var r := FollowerRows(users, follows, u, limit, offset);
      && |r| <= limit
      && (forall i :: 0 <= i < |r| ==> r[i].id in users && users[r[i].id] == r[i] && HasEdge(follows, r[i].id, u))
      && (forall i, j :: 0 <= i < j < |r| ==> EdgeAt(follows, r[i].id, u) > EdgeAt(follows, r[j].id, u))
      && (forall e :: e in follows && e.dst == u && e.src in users ==>
            (users[e.src] in r <==> offset <= Newer(follows, FollowerOf(users, u), EdgeTime, e.createdAt) < offset + limit))
  {
    OrdersByTime();
    Window(follows, FollowerOf(users, u), EdgeTime, EdgeBefore, limit, offset);
    var w := Page(NewestFirst(follows, FollowerOf(users, u)), limit, offset);
    FollowersJoin(users, follows, u, w, FollowerRows(users, follows, u, limit, offset));
  }

  lemma FolloweesWindow(users: map<int, User>, follows: seq<Edge>, u: int, limit: nat, offset: nat)
    requires KeyedByID(users) && Pairwise(follows, EdgeBefore)
    ensures var r := FolloweeRows(users, follows, u, limit, offset);
      && |r| <= limit
      && (forall i :: 0 <= i < |r| ==> r[i].id in users && users[r[i].id] == r[i] && HasEdge(follows, u, r[i].id))
      && (forall i, j :: 0 <= i < j < |r| ==> EdgeAt(follows, u, r[i].id) > EdgeAt(follows, u, r[j].id))
      && (forall e :: e in follows && e.src == u && e.dst in users ==>
            (users[e.dst] in r <==> offset <= Newer(follows, FolloweeOf(users, u), EdgeTime, e.createdAt) < offset + limit))
  {
    OrdersByTime();
    Window(follows, FolloweeOf(users, u), EdgeTime, EdgeBefore, limit, offset);
    var w := Page(NewestFirst(follows, FolloweeOf(users, u)), limit, offset);
    FolloweesJoin(users, follows, u, w, FolloweeRows(users, follows, u, limit, offset));
  }

  lemma LikedWindow(tweets: seq<Tweet>, likes: seq<Edge>, u: int, limit: nat, offset: nat)
    requires Pairwise(tweets, TweetBefore) && Pairwise(likes, EdgeBefore)
    ensures var r := LikedRows(tweets, likes, u, limit, offset);
      && |r| <= limit
      && (forall i :: 0 <= i < |r| ==> r[i] in tweets && HasEdge(likes, u, r[i].id))
      && (forall i, j :: 0 <= i < j < |r| ==> EdgeAt(likes, u, r[i].id) > EdgeAt(likes, u, r[j].id))
      && (forall e, t :: e in likes && e.src == u && t in tweets && t.id == e.dst ==>
            (t in r <==> offset <= Newer(likes, LikedBy(tweets, u), EdgeTime, e.createdAt) < offset + limit))
  {
    OrdersByTime();
    Window(likes, LikedBy(tweets, u), EdgeTime, EdgeBefore, limit, offset);
    var w := Page(NewestFirst(likes, LikedBy(tweets, u)), limit, offset);
    LikedJoin(tweets, likes, u, w, LikedRows(tweets, likes, u, limit, offset));
  }

  /** The database: the users, tweets, follows and likes tables. */
  class Store {
    var users: map<int, User>
    var nextUserID: int
    var tweets: seq<Tweet>
    var nextTweetID: int
    var follows: seq<Edge>
    var likes: seq<Edge>
    var clock: nat

    /** The table invariants: rows keyed by their own id, ids below the next
        auto-increment value, unique usernames and emails, rows of the other
        tables in insertion order with increasing created_at and distinct keys. */
    ghost predicate Valid()
      reads this
    {
      && 1 <= nextUserID && 1 <= nextTweetID
      && KeyedByID(users)
      && (forall id :: id in users ==> id != 0 && id < nextUserID)
      && (forall a, b :: a in users && b in users && a != b ==>
            users[a].username != users[b].username && users[a].email != users[b].email)
      && Pairwise(tweets, TweetBefore)
      && (forall t :: t in tweets ==> 1 <= t.id < nextTweetID && t.createdAt < clock)
      && Pairwise(follows, EdgeBefore) && (forall e :: e in follows ==> e.createdAt < clock)
      && Pairwise(likes, EdgeBefore) && (forall e :: e in likes ==> e.createdAt < clock)
    }

    constructor ()
      ensures Valid()
      ensures users == map[] && tweets == [] && follows == [] && likes == []
      ensures nextUserID == 1 && nextTweetID == 1 && clock == 0
    {
      users, nextUserID := map[], 1;
      tweets, nextTweetID := [], 1;
      follows, likes := [], [];
      clock := 0;
    }

    predicate UsernameTaken(username: string)
      reads this
    {
      exists id :: id in users && users[id].username == username
    }

    predicate EmailTaken(email: string)
      reads this
    {
      exists id :: id in users && users[id].email == email
    }

    /** Would writing row u give a second row its username or email? */
    predicate Clashes(u: User)
      reads this
    {
      exists id :: id in users && id != u.id && (users[id].username == u.username || users[id].email == u.email)
    }

    // ----- UserRepository -----

    /** Insert a user row and reject a username or email that is already
        taken. An id of 0 leaves the key to the database, which assigns the
        next auto-increment id; any other id is written as given, is
        rejected when a row already has it, and moves the counter past it. */
    method CreateUser(u: User) returns (r: Result<User, StoreError>)
      requires Valid()
      modifies this`users, this`nextUserID
      ensures Valid()
      ensures old(UsernameTaken(u.username) || EmailTaken(u.email) || u.id in users) ==>
        r == Failure(ErrDuplicate) && users == old(users) && nextUserID == old(nextUserID)
      ensures !old(UsernameTaken(u.username) || EmailTaken(u.email) || u.id in users) && u.id == 0 ==>
        && r == Success(u.(id := old(nextUserID)))
        && old(nextUserID) !in old(users)
        && users == old(users)[old(nextUserID) := r.value]
        && nextUserID == old(nextUserID) + 1
      ensures !old(UsernameTaken(u.username) || EmailTaken(u.email) || u.id in users) && u.id != 0 ==>
        && r == Success(u)
        && users == old(users)[u.id := u]
        && nextUserID == if u.id < old(nextUserID) then old(nextUserID) else u.id + 1
    {
      if UsernameTaken(u.username) || EmailTaken(u.email) || u.id in users {
        r := Failure(ErrDuplicate);
      } else if u.id == 0 {
        var row := u.(id := nextUserID);
        users := users[nextUserID := row];
        nextUserID := nextUserID + 1;
        r := Success(row);
      } else {
        users := users[u.id := u];
        if nextUserID <= u.id {
          nextUserID := u.id + 1;
        }
        r := Success(u);
      }
    }

    function GetUserByID(id: int): (r: Result<User, StoreError>)
      reads this
      ensures r.Success? <==> id in users
      ensures r.Success? ==> r.value == users[id]
      ensures r.Failure? ==> r.error == ErrNotFound
    {
      if id in users then Success(users[id]) else Failure(ErrNotFound)
    }

    function GetUserByEmail(email: string): (r: Result<User, StoreError>)
      reads this
      requires Valid()
      ensures r.Success? <==> EmailTaken(email)
      ensures r.Success? ==> r.value.id in users && users[r.value.id] == r.value && r.value.email == email
      ensures r.Failure? ==> r.error == ErrNotFound
    {
      if exists id :: id in users && users[id].email == email then
        var id :| id in users && users[id].email == email;
        Success(users[id])
      else
        Failure(ErrNotFound)
    }

    function GetUserByUsername(username: string): (r: Result<User, StoreError>)
      reads this
      requires Valid()
      ensures r.Success? <==> UsernameTaken(username)
      ensures r.Success? ==> r.value.id in users && users[r.value.id] == r.value && r.value.username == username
      ensures r.Failure? ==> r.error == ErrNotFound
    {
      if exists id :: id in users && users[id].username == username then
        var id :| id in users && users[id].username == username;
        Success(users[id])
      else
        Failure(ErrNotFound)
    }

    /** Write row u over the row with the same id. No row with that id is
        not an error: the UPDATE matches nothing, so nothing is written and
        no unique key is checked. A clash with another row's username or
        email is refused. */
    method UpdateUser(u: User) returns (r: Outcome<StoreError>)
      requires Valid()
      modifies this`users
      ensures Valid()
      ensures u.id !in old(users) ==> r == Pass && users == old(users)
      ensures u.id in old(users) && old(Clashes(u)) ==> r == Fail(ErrDuplicate) && users == old(users)
      ensures u.id in old(users) && !old(Clashes(u)) ==> r == Pass && users == old(users)[u.id := u]
    {
      if u.id in users && Clashes(u) {
        r := Fail(ErrDuplicate);
      } else {
        if u.id in users {
          users := users[u.id := u];
        }
        r := Pass;
      }
    }

    method DeleteUser(id: int) returns (r: Outcome<StoreError>)
      requires Valid()
      modifies this`users
      ensures Valid()
      ensures id !in old(users) ==> r == Fail(ErrNotFound) && users == old(users)
      ensures id in old(users) ==> r == Pass && users == old(users) - {id}
    {
      if id !in users {
        r := Fail(ErrNotFound);
      } else {
        users := users - {id};
        r := Pass;
      }
    }

    // ----- TweetRepository -----

    /** Insert a tweet row with the next auto-increment id, stamped now. */
    method CreateTweet(userID: int, content: string, imageURL: Option<string>) returns (t: Tweet)
      requires Valid()
      modifies this`tweets, this`nextTweetID, this`clock
      ensures Valid()
      ensures t == Tweet(old(nextTweetID), userID, content, imageURL, old(clock))
      ensures FindTweet(old(tweets), t.id).None?
      ensures tweets == old(tweets) + [t]
      ensures nextTweetID == old(nextTweetID) + 1 && clock == old(clock) + 1
    {
      t := Tweet(nextTweetID, userID, content, imageURL, clock);
      tweets := tweets + [t];
      nextTweetID := nextTweetID + 1;
      clock := clock + 1;
    }

    function GetTweetByID(id: int): (r: Result<Tweet, StoreError>)
      reads this
      requires Valid()
      ensures r.Failure? <==> forall t :: t in tweets ==> t.id != id
      ensures r.Failure? ==> r.error == ErrNotFound
      ensures r.Success? ==> r.value.id == id && forall t :: t in tweets && t.id == id ==> t == r.value
    {
      match FindTweet(tweets, id)
      case None => Failure(ErrNotFound)
      case Some(t) =>
        assert forall t' :: t' in tweets && t'.id == id ==> t' == t by {
          forall t' | t' in tweets && t'.id == id ensures t' == t { TweetUnique(tweets, t', t); }
        }
        Success(t)
    }

    /** `WHERE user_id = ? ORDER BY created_at DESC LIMIT ? OFFSET ?`. */
    function GetTweetsByUserID(userID: int, limit: nat, offset: nat): (r: seq<Tweet>)
      reads this
      requires Valid()
      ensures |r| <= limit
      ensures Descending(r, TweetTime)
      ensures forall t :: t in r ==> t in tweets && t.userID == userID
      ensures forall t :: t in tweets && t.userID == userID ==>
        (t in r <==> offset <= Newer(tweets, ByAuthor(userID), TweetTime, t.createdAt) < offset + limit)
    {
      OrdersByTime();
      Window(tweets, ByAuthor(userID), TweetTime, TweetBefore, limit, offset);
      Page(NewestFirst(tweets, ByAuthor(userID)), limit, offset)
    }

    /** The home timeline: the viewer's tweets and the tweets of everyone the
        viewer follows, `ORDER BY created_at DESC LIMIT ? OFFSET ?`. */
    function GetTimeline(userID: int, limit: nat, offset: nat): (r: seq<Tweet>)
      reads this
      requires Valid()
      ensures |r| <= limit
      ensures Descending(r, TweetTime)
      ensures forall t :: t in r ==> t in tweets && (t.userID == userID || IsFollowing(userID, t.userID))
      ensures forall t :: t in tweets && (t.userID == userID || IsFollowing(userID, t.userID)) ==>
        (t in r <==> offset <= Newer(tweets, OnTimelineOf(follows, userID), TweetTime, t.createdAt) < offset + limit)
    {
      OrdersByTime();
      Window(tweets, OnTimelineOf(follows, userID), TweetTime, TweetBefore, limit, offset);
      Page(NewestFirst(tweets, OnTimelineOf(follows, userID)), limit, offset)
    }

    /** Write t's columns over the tweet row with t's id; its created_at is
        kept. No row with that id is not an error. */
    method UpdateTweet(t: Tweet)
      requires Valid()
      modifies this`tweets
      ensures Valid()
      ensures |tweets| == |old(tweets)|
      ensures forall i :: 0 <= i < |tweets| ==>
        tweets[i] == if old(tweets)[i].id == t.id then t.(createdAt := old(tweets)[i].createdAt) else old(tweets)[i]
    {
      tweets := seq(|tweets|, i requires 0 <= i < |tweets| reads this =>
        if tweets[i].id == t.id then t.(createdAt := tweets[i].createdAt) else tweets[i]);
    }

    method DeleteTweet(id: int) returns (r: Outcome<StoreError>)
      requires Valid()
      modifies this`tweets
      ensures Valid()
      ensures (forall t :: t in old(tweets) ==> t.id != id) ==> r == Fail(ErrNotFound) && tweets == old(tweets)
      ensures (exists t :: t in old(tweets) && t.id == id) ==> r == Pass && tweets == Filter(old(tweets), OtherThan(id))
      ensures forall t :: t in tweets <==> t in old(tweets) && t.id != id
    {
      if FindTweet(tweets, id).None? {
        r := Fail(ErrNotFound);
      } else {
        FilterPairwise(tweets, OtherThan(id), TweetBefore);
        tweets := Filter(tweets, OtherThan(id));
        r := Pass;
      }
    }

    // ----- FollowRepository -----

    /** Insert the follow row (follower, following); the key is the pair. */
    method CreateFollow(follower: int, following: int) returns (r: Outcome<StoreError>)
      requires Valid()
      modifies this`follows, this`clock
      ensures Valid()
      ensures old(IsFollowing(follower, following)) ==> r == Fail(ErrDuplicate) && follows == old(follows) && clock == old(clock)
      ensures !old(IsFollowing(follower, following)) ==>
        r == Pass && follows == old(follows) + [Edge(follower, following, old(clock))] && clock == old(clock) + 1
    {
      if HasEdge(follows, follower, following) {
        r := Fail(ErrDuplicate);
      } else {
        follows := follows + [Edge(follower, following, clock)];
        clock := clock + 1;
        r := Pass;
      }
    }

    /** `DELETE FROM follows WHERE follower_id = ? AND following_id = ?`. */
    method DeleteFollow(follower: int, following: int)
      requires Valid()
      modifies this`follows
      ensures Valid()
      ensures follows == Filter(old(follows), Except(follower, following))
      ensures forall e :: e in follows <==> e in old(follows) && !(e.src == follower && e.dst == following)
    {
      FilterPairwise(follows, Except(follower, following), EdgeBefore);
      follows := Filter(follows, Except(follower, following));
    }

    function IsFollowing(follower: int, following: int): (r: bool)
      reads this
      ensures r <==> exists e :: e in follows && e.src == follower && e.dst == following
    {
      HasEdge(follows, follower, following)
    }

    /** Users with an edge into userID, `ORDER BY f.created_at DESC LIMIT ? OFFSET ?`. */
    function GetFollowers(userID: int, limit: nat, offset: nat): (r: seq<User>)
      reads this
      requires Valid()
      ensures |r| <= limit
      ensures forall i :: 0 <= i < |r| ==> r[i].id in users && users[r[i].id] == r[i] && IsFollowing(r[i].id, userID)
      ensures forall i, j :: 0 <= i < j < |r| ==> EdgeAt(follows, r[i].id, userID) > EdgeAt(follows, r[j].id, userID)
      ensures forall e :: e in follows && e.dst == userID && e.src in users ==>
        (users[e.src] in r <==> offset <= Newer(follows, FollowerOf(users, userID), EdgeTime, e.createdAt) < offset + limit)
    {
      FollowersWindow(users, follows, userID, limit, offset);
      FollowerRows(users, follows, userID, limit, offset)
    }

    /** Users with an edge out of userID, `ORDER BY f.created_at DESC LIMIT ? OFFSET ?`. */
    function GetFollowing(userID: int, limit: nat, offset: nat): (r: seq<User>)
      reads this
      requires Valid()
      ensures |r| <= limit
      ensures forall i :: 0 <= i < |r| ==> r[i].id in users && users[r[i].id] == r[i] && IsFollowing(userID, r[i].id)
      ensures forall i, j :: 0 <= i < j < |r| ==> EdgeAt(follows, userID, r[i].id) > EdgeAt(follows, userID, r[j].id)
      ensures forall e :: e in follows && e.src == userID && e.dst in users ==>
        (users[e.dst] in r <==> offset <= Newer(follows, FolloweeOf(users, userID), EdgeTime, e.createdAt) < offset + limit)
    {
      FolloweesWindow(users, follows, userID, limit, offset);
      FolloweeRows(users, follows, userID, limit, offset)
    }

    /** `SELECT COUNT(*) FROM follows WHERE following_id = ?`: the number of
        distinct followers. */
    function GetFollowersCount(userID: int): (n: nat)
      reads this
      requires Valid()
      ensures n == |set e | e in follows && e.dst == userID :: e.src|
    {
      CountInto(follows, userID);
      |Filter(follows, Into(userID))|
    }

    /** `SELECT COUNT(*) FROM follows WHERE follower_id = ?`: the number of
        distinct users followed. */
    function GetFollowingCount(userID: int): (n: nat)
      reads this
      requires Valid()
      ensures n == |set e | e in follows && e.src == userID :: e.dst|
    {
      CountOutOf(follows, userID);
      |Filter(follows, OutOf(userID))|
    }

    // ----- LikeRepository -----

    /** Insert the like row (user, tweet); the key is the pair. */
    method CreateLike(userID: int, tweetID: int) returns (r: Outcome<StoreError>)
      requires Valid()
      modifies this`likes, this`clock
      ensures Valid()
      ensures old(IsLiked(userID, tweetID)) ==> r == Fail(ErrDuplicate) && likes == old(likes) && clock == old(clock)
      ensures !old(IsLiked(userID, tweetID)) ==>
        r == Pass && likes == old(likes) + [Edge(userID, tweetID, old(clock))] && clock == old(clock) + 1
    {
      if HasEdge(likes, userID, tweetID) {
        r := Fail(ErrDuplicate);
      } else {
        likes := likes + [Edge(userID, tweetID, clock)];
        clock := clock + 1;
        r := Pass;
      }
    }

    /** `DELETE FROM likes WHERE user_id = ? AND tweet_id = ?`. */
    method DeleteLike(userID: int, tweetID: int)
      requires Valid()
      modifies this`likes
      ensures Valid()
      ensures likes == Filter(old(likes), Except(userID, tweetID))
      ensures forall e :: e in likes <==> e in old(likes) && !(e.src == userID && e.dst == tweetID)
    {
      FilterPairwise(likes, Except(userID, tweetID), EdgeBefore);
      likes := Filter(likes, Except(userID, tweetID));
    }

    function IsLiked(userID: int, tweetID: int): (r: bool)
      reads this
      ensures r <==> exists e :: e in likes && e.src == userID && e.dst == tweetID
    {
      HasEdge(likes, userID, tweetID)
    }

    /** `SELECT COUNT(*) FROM likes WHERE tweet_id = ?`: the number of
        distinct users who like the tweet. */
    function GetLikeCount(tweetID: int): (n: nat)
      reads this
      requires Valid()
      ensures n == |set e | e in likes && e.dst == tweetID :: e.src|
    {
      CountInto(likes, tweetID);
      |Filter(likes, Into(tweetID))|
    }

    /** Tweets liked by userID, `ORDER BY l.created_at DESC LIMIT ? OFFSET ?`. */
    function GetLikedTweets(userID: int, limit: nat, offset: nat): (r: seq<Tweet>)
      reads this
      requires Valid()
      ensures |r| <= limit
      ensures forall i :: 0 <= i < |r| ==> r[i] in tweets && IsLiked(userID, r[i].id)
      ensures forall i, j :: 0 <= i < j < |r| ==> EdgeAt(likes, userID, r[i].id) > EdgeAt(likes, userID, r[j].id)
      ensures forall e, t :: e in likes && e.src == userID && t in tweets && t.id == e.dst ==>
        (t in r <==> offset <= Newer(likes, LikedBy(tweets, userID), EdgeTime, e.createdAt) < offset + limit)
    {
      LikedWindow(tweets, likes, userID, limit, offset);
      LikedRows(tweets, likes, userID, limit, offset)
    }
  }
}
