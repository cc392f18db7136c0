# Social-graph service and todo store, modelled in Dafny

This project models the core of a Go web service in the style of a small
Twitter: users register and log in, post tweets, follow each other and like
tweets, and read timelines and profile views. Beside it sit a small
in-memory todo store and a second "user/profile" slice of the service.
The model covers:

- the database as one `Store` class (module `Repositories`). It holds the
  users table as a map from id to row, and the tweets, follows and likes
  tables as sequences in insertion order. Each insert stamps the row with a
  strictly increasing clock. Every repository method of
  `internal/repository/repositories.go` is a method (inserts, updates,
  deletes) or a function (queries) of the class. The SQL becomes sequence
  operations (module `Seqs`):
  - `WHERE` is `Filter`;
  - `ORDER BY created_at DESC` over insertion-ordered rows is `NewestFirst`;
  - `LIMIT … OFFSET …` is `Page`.

  The `Window` lemma characterises every page exactly. An element is on the
  page iff it is selected and its rank (`Newer`: how many selected rows are
  newer) lies in `[offset, offset + limit)`. The page is strictly newest
  first.
- the four services of `internal/usecase/usecases.go` (module `Usecases`).
  Each is a check-then-act method or a read-only function over a `Store`.
  Each contract covers every error path and the exact new state.
- the todo store `todoRepository` (module `Todos`, class `TodoRepository`)
  and its service (module `TodoUsecases`).
- the user/profile slice's repository and service (modules `UserRepository`
  and `UserUsecase`). They work on the same users and follows tables. Each
  query of the slice may fail inside the database driver. An
  `outage: Option<string>` parameter stands for that failure, so the
  pass-through of such errors can be stated.

bcrypt hashing (`PasswordHasher`), bcrypt comparison (`PasswordChecker`) and
JWT signing (`Signer`) are function parameters whose results are not
interpreted. The wall clock of `Login` is the parameter `now`, in Unix
seconds.

Points where the code's behaviour is easy to mistake:

- `CreateTweet` stores any content; nothing truncates it to 280 characters.
- The social-graph `Register` checks the username first and then the email.
- The slice's `Register` checks only the email, so a taken username is
  caught by the database's unique key (`RepoError.Duplicate`).
- `repositories.go` declares `ErrDuplicate` (line 15) but never returns it.
  In the model `StoreError.ErrDuplicate` stands for the unique-key error the
  MySQL driver returns on such an insert.

## Model

| member | source | states |
|---|---|---|
| Seqs.Filter | internal/repository/repositories.go:184-189 | the result holds exactly the elements that satisfy the predicate, and is no longer than the input |
| Seqs.NewestFirst | internal/repository/repositories.go:148 | the result holds exactly the selected elements and is no longer than the input; their order is stated by `NewestFirstReversesFilter` |
| Seqs.Page | internal/repository/repositories.go:149-150 | `LIMIT`/`OFFSET`: the result is the min(limit, n - offset) elements from position offset, or empty when offset is past the end |
| Seqs.FilterPairwise | internal/repository/repositories.go:184-189 | deleting rows keeps the survivors in insertion order (any pairwise relation of the table survives) |
| Seqs.FilterKeepsAll | internal/repository/repositories.go:235-240 | a delete whose condition matches no row leaves the table as it was |
| Seqs.NewestFirstReversesFilter | internal/repository/repositories.go:148 | the newest-first selection is the `WHERE` selection reversed, position by position: last inserted first |
| Seqs.NewestFirstDescending | internal/repository/repositories.go:148 | over rows with increasing keys, the newest-first selection has strictly decreasing keys |
| Seqs.NewestFirstRank | internal/repository/repositories.go:148-150 | the element at position i of the newest-first selection has exactly i selected elements newer than it |
| Seqs.Window | internal/repository/repositories.go:145-163 | a page holds at most limit elements, newest first, and an element is on it exactly when it is selected and its rank is in [offset, offset + limit) |
| Repositories.CountInto | internal/repository/repositories.go:218-222 | the number of follow (or like) rows into u equals the number of distinct users with such a row |
| Repositories.CountOutOf | internal/repository/repositories.go:224-228 | the number of follow rows out of u equals the number of distinct users u follows |
| Repositories.RemoveUndoesInsert | internal/repository/repositories.go:180-189 | deleting the (src, dst) rows right after inserting the first such row restores the table: unfollow undoes follow, unlike undoes like |
| Repositories.FollowersWindow | internal/repository/repositories.go:198-206 | the joined follower page holds stored users who follow u, in strictly decreasing follow time, and a follower is on it exactly when its follow row's rank is in the window |
| Repositories.FolloweesWindow | internal/repository/repositories.go:208-216 | the same for the users u follows |
| Repositories.LikedWindow | internal/repository/repositories.go:255-264 | the joined liked-tweets page holds stored tweets u likes, in strictly decreasing like time, and a liked tweet is on it exactly when its like row's rank is in the window |
| Repositories.Store.constructor | internal/repository/repositories.go:70-84 | a new database is empty, with ids starting at 1, and satisfies the table invariants |
| Repositories.Store.CreateUser | internal/repository/repositories.go:87-89 | a taken username or email, or an id already in use, is refused with nothing written; otherwise exactly one row is added: under the next auto-increment id when the row's id is 0, under its own id otherwise, with the counter moved past it |
| Repositories.Store.GetUserByID | internal/repository/repositories.go:91-97 | `ErrNotFound` exactly when no row has the id, else that row |
| Repositories.Store.GetUserByEmail | internal/repository/repositories.go:99-105 | `ErrNotFound` exactly when no row has the email, else the stored row with that email |
| Repositories.Store.GetUserByUsername | internal/repository/repositories.go:107-113 | `ErrNotFound` exactly when no row has the username, else the stored row with that username |
| Repositories.Store.UpdateUser | internal/repository/repositories.go:115-118 | no row with the id: success with nothing written and no unique key checked; otherwise a username or email clash with another row is refused with nothing written, and without a clash the row is overwritten |
| Repositories.Store.DeleteUser | internal/repository/repositories.go:120-127 | `ErrNotFound` for a missing id with nothing changed; otherwise exactly that row is removed |
| Repositories.Store.CreateTweet | internal/repository/repositories.go:130-132 | the tweet is appended with a fresh id and a time later than every stored tweet |
| Repositories.Store.GetTweetByID | internal/repository/repositories.go:134-143 | `ErrNotFound` exactly when no tweet has the id, else the only tweet with it |
| Repositories.Store.GetTweetsByUserID | internal/repository/repositories.go:145-153 | at most limit tweets, all by the author, strictly newest first; an author's tweet is on the page exactly when its rank among the author's tweets is in [offset, offset + limit) |
| Repositories.Store.GetTimeline | internal/repository/repositories.go:155-163 | at most limit tweets, each by the viewer or by someone the viewer follows, strictly newest first; such a tweet is on the page exactly when its rank is in the window |
| Repositories.Store.UpdateTweet | internal/repository/repositories.go:165-168 | the tweet with the same id takes the new columns and keeps its time; every other tweet is unchanged |
| Repositories.Store.DeleteTweet | internal/repository/repositories.go:170-177 | `ErrNotFound` for a missing id with nothing changed; otherwise exactly the tweets with that id are gone, the rest stay in order |
| Repositories.Store.CreateFollow | internal/repository/repositories.go:180-182 | an existing (follower, following) row is refused; otherwise exactly that row is appended, stamped now |
| Repositories.Store.DeleteFollow | internal/repository/repositories.go:184-189 | every (follower, following) row is removed and every other row stays, in order |
| Repositories.Store.IsFollowing | internal/repository/repositories.go:191-196 | true exactly when a (follower, following) row exists |
| Repositories.Store.GetFollowers | internal/repository/repositories.go:198-206 | at most limit stored users, each following u, in strictly decreasing follow time; a follower is on the page exactly when its row's rank is in the window |
| Repositories.Store.GetFollowing | internal/repository/repositories.go:208-216 | at most limit stored users, each followed by u, in strictly decreasing follow time; a followee is on the page exactly when its row's rank is in the window |
| Repositories.Store.GetFollowersCount | internal/repository/repositories.go:218-222 | the number of distinct users following u |
| Repositories.Store.GetFollowingCount | internal/repository/repositories.go:224-228 | the number of distinct users u follows |
| Repositories.Store.CreateLike | internal/repository/repositories.go:231-233 | an existing (user, tweet) row is refused (the likes primary key); otherwise exactly that row is appended, stamped now |
| Repositories.Store.DeleteLike | internal/repository/repositories.go:235-240 | every (user, tweet) row is removed and every other row stays, in order |
| Repositories.Store.IsLiked | internal/repository/repositories.go:242-247 | true exactly when a (user, tweet) row exists |
| Repositories.Store.GetLikeCount | internal/repository/repositories.go:249-253 | the number of distinct users who like the tweet |
| Repositories.Store.GetLikedTweets | internal/repository/repositories.go:255-264 | at most limit stored tweets, each liked by u, in strictly decreasing like time; a liked tweet is on the page exactly when its like's rank is in the window |
| Model.NewUser | internal/usecase/usecases.go:114-120 | the new row copies the request, holds the password hash rather than the password, and has no profile image (the slice's repository writes the same row, internal/user/repository/user_repository.go:51-58) |
| Usecases.Register | internal/usecase/usecases.go:99-127 | a taken username wins over a taken email; then a bcrypt failure; all three leave the table unchanged; otherwise exactly one row is added, built from the request and the hash |
| Usecases.Login | internal/usecase/usecases.go:129-140 | every failure is `ErrInvalidCredentials`, whether the email is unknown or the password wrong; success exactly when a stored user has the email and the password matches its hash |
| Usecases.GetUserProfile | internal/usecase/usecases.go:142-158 | `ErrUserNotFound` exactly for a missing user; otherwise the row, the distinct follower and followee counts, and whether the viewer follows the user |
| Usecases.UpdateProfile | internal/usecase/usecases.go:160-170 | `ErrUserNotFound` with nothing changed, or exactly the display name and bio of that user replaced |
| Usecases.UpdateProfileImage | internal/usecase/usecases.go:172-181 | `ErrUserNotFound` with nothing changed, or exactly the profile image URL of that user set |
| Usecases.CreateTweet | internal/usecase/usecases.go:184-196 | always succeeds; the tweet keeps the content as given and is appended with an id and time above every stored tweet's |
| Usecases.GetTweet | internal/usecase/usecases.go:198-210 | `ErrTweetNotFound` exactly when no tweet has the id; otherwise that tweet and whether the viewer likes it |
| Usecases.Annotate | internal/usecase/usecases.go:218-225 | one response per tweet, in order, response i wrapping tweet i with whether the viewer likes it |
| Usecases.GetUserTweets | internal/usecase/usecases.go:212-228 | as many responses as the repository's page, in its order, each by the author, newest first, with the viewer's like flag |
| Usecases.GetTimeline | internal/usecase/usecases.go:230-246 | as many responses as the repository's timeline page, in its order, each by the viewer or a followee, newest first, with the viewer's like flag |
| Usecases.DeleteTweet | internal/usecase/usecases.go:248-259 | `ErrTweetNotFound`, then "unauthorized" for another author, both with nothing changed; otherwise exactly that tweet is gone |
| Usecases.Follow | internal/usecase/usecases.go:262-280 | "cannot follow yourself", then "already following", both with nothing changed; otherwise exactly the row (follower, following) is added; no self-follow is ever created |
| Usecases.Unfollow | internal/usecase/usecases.go:282-292 | "not following" with nothing changed; otherwise the row is gone and every other row stays |
| Usecases.GetFollowers | internal/usecase/usecases.go:294-296 | exactly the repository's follower page (strictly decreasing follow time, exact window); at most limit stored users, each a follower |
| Usecases.GetFollowing | internal/usecase/usecases.go:298-300 | exactly the repository's followee page (strictly decreasing follow time, exact window); at most limit stored users, each followed |
| Usecases.LikeTweet | internal/usecase/usecases.go:303-317 | "already liked" with nothing changed; otherwise exactly the row (user, tweet) is added |
| Usecases.UnlikeTweet | internal/usecase/usecases.go:319-329 | "not liked" with nothing changed; otherwise the row is gone and every other row stays |
| Usecases.GetLikedTweets | internal/usecase/usecases.go:331-333 | exactly the repository's liked-tweets page (strictly decreasing like time, exact window); at most limit stored tweets, each liked by the user |
| Todos.TodoRepository.constructor | internal/repository/todo_repository.go:23-28 | an empty map, next id 1 |
| Todos.TodoRepository.GetAll | internal/repository/todo_repository.go:30-38 | as many todos as the map holds, exactly the stored ones, no id twice |
| Todos.TodoRepository.GetByID | internal/repository/todo_repository.go:40-48 | the stored todo, or "todo not found" exactly when the id is absent |
| Todos.TodoRepository.Create | internal/repository/todo_repository.go:50-57 | the todo is stored under the next id, which was free, with its ID set to it; the counter moves on |
| Todos.TodoRepository.Update | internal/repository/todo_repository.go:59-67 | "todo not found" with nothing changed, or exactly that entry replaced |
| Todos.TodoRepository.Delete | internal/repository/todo_repository.go:69-77 | "todo not found" with nothing changed, or exactly that entry removed |
| TodoUsecases.ListTodos | internal/usecase/todo_usecase.go:26-28 | exactly the stored todos, one per entry, with the store unchanged |
| TodoUsecases.CreateTodo | internal/usecase/todo_usecase.go:30-33 | a new todo with the title and status "pending" under a fresh id |
| TodoUsecases.UpdateTodo | internal/usecase/todo_usecase.go:35-43 | "todo not found" with nothing changed, or the todo keeps its id and takes the new title and status |
| TodoUsecases.DeleteTodo | internal/usecase/todo_usecase.go:45-51 | "todo not found" with nothing changed, or the id removed and every other entry kept |
| UserRepository.ConvertToModel | internal/user/repository/user_repository.go:31-43 | the five plain columns are copied; bio and profile image are always present, NULL becoming "" |
| UserRepository.ConvertConflatesNull | internal/user/repository/user_repository.go:38-39 | a NULL column and an empty one convert to the same user |
| UserRepository.Create | internal/user/repository/user_repository.go:45-66 | a bcrypt error, then a driver error, then a unique-key violation, each with nothing written; otherwise exactly the new row is added and returned converted |
| UserRepository.GetByID | internal/user/repository/user_repository.go:68-75 | a driver error, no rows for a missing id, else the converted row |
| UserRepository.GetByEmail | internal/user/repository/user_repository.go:77-84 | a driver error, no rows exactly when no user has the email, else that user converted |
| UserRepository.Update | internal/user/repository/user_repository.go:86-102 | a driver error or no rows with nothing changed; otherwise display name, bio and image set from the request (nil writes NULL), the other columns kept, the row returned converted |
| UserRepository.GetProfile | internal/user/repository/user_repository.go:104-146 | a driver error or no rows; otherwise the converted row, the distinct follower and followee counts, and the follow flag, false for viewer 0 |
| UserUsecase.Register | internal/user/usecase/user_usecase.go:33-44 | a failing lookup is passed through and a taken email refused, both with nothing written; otherwise exactly what the repository's Create does with the same request |
| UserUsecase.Login | internal/user/usecase/user_usecase.go:46-76 | a driver error is passed through; an unknown email gives "invalid email or password" |
| UserUsecase.LoginAccount | internal/user/usecase/user_usecase.go:56-75 | for the account with the email, a wrong password gives the same error as an unknown email; a right one gives the converted user and a token signing its id and now + 604800 seconds |
| UserUsecase.GetProfile | internal/user/usecase/user_usecase.go:78-80 | the repository's profile passed through: the driver error, then no rows for a missing user, each wrapped as a repository error; otherwise the converted row, the distinct follower and followee counts, and the follow flag, false for viewer 0 |
| UserUsecase.UpdateProfile | internal/user/usecase/user_usecase.go:82-84 | the repository's Update passed through: the driver error, then no rows for a missing user, each wrapped and with nothing changed; otherwise the three profile columns set and the row returned converted |

## Left out

- Concurrency: the todo store's mutex and check-then-insert races between
  requests are not modelled; every operation runs alone.
- Database failures in the social-graph store: queries and inserts succeed
  except for the not-found and unique-key cases. So the services'
  `if err != nil { return err }` paths after `IsFollowing`, `IsLiked`,
  `GetByUserID` and `GetTimeline` are not modelled. Those queries return
  plain sequences and booleans.
- The social-graph `Register` takes any lookup error, not only "not found",
  as a free username or email. The store never fails, so that case does not
  arise in the model.
- Timestamps: the users' created_at/updated_at columns are not modelled.
  Tweet, follow and like times come from a counter that strictly increases
  with each insert. MySQL's second-granularity ties, whose order under
  `ORDER BY created_at DESC` is unspecified, are left out.
- Foreign keys and cascades are not modelled. A tweet, follow or like that
  names a missing user or tweet is accepted. Deleting a user or tweet
  leaves its follows and likes; the joins of `GetFollowers`, `GetFollowing`
  and `GetLikedTweets` only return rows that still exist.
- Unique keys: the users table's unique username and email, and a primary
  key (follower_id, following_id) on follows, are assumed. The schema is
  not part of this model except the likes primary key (user_id, tweet_id).
- `qm.Load("User")` eager loading, the tweet's `LikeCount` field and JSON
  shapes are not modelled.
- Type conversion between the API `model` types and the ORM `models` rows
  in `usecases.go`: both are the one `User`/`Tweet` datatype.
- Repositories.Store.UsernameTaken/EmailTaken/Clashes: usernames and
  emails are compared by exact string equality. The collation of the
  database, under which MySQL's default `_ci` collations compare them
  case-insensitively, is not modelled.
- Repositories.Store.CreateUser: an insert refused by a unique key leaves
  the auto-increment counter where it was. The gap InnoDB leaves in the ids
  after such an insert is not modelled.
- Repositories.Store.CreateTweet: takes no id and always assigns the next
  auto-increment id. A tweet passed with its own nonzero id, which the
  generated `Insert` would write as given, is not modelled: the only caller
  passes 0, and the tweets table's invariant keeps ids increasing in
  insertion order.
- Negative `limit`/`offset` are not modelled. The page parameters are
  natural numbers. Counts are `nat` rather than `int64`.
- UserUsecase.Login: its own contract covers the driver error and the
  unknown email. The outcomes for an existing account are stated by
  `UserUsecase.LoginAccount`.
- The driver error of the user slice is one per operation, at its first
  query (`outage`); `Register` has one for the lookup and one for the
  insert. A failure in a later query of `GetProfile` is not modelled
  separately.
- The text of errors produced by the driver, bcrypt or the JWT library is
  not modelled. `Message` is defined for the service's own errors only.
- HTTP handlers (including their default `limit` of 20), JWT parsing
  middleware, process start-up, the seeder and the generated ORM code are
  not part of this model.
