/**
 * The rows of the forum's tables, as values.  Every table of the database is
 * a map from the row's primary key to one of these records; the class
 * Store.Database holds the maps.
 *
 * Timestamps are Unix seconds.  A post's `editedAt` of 0 stands for the
 * empty (NULL) column that PHP's `empty()` rejects.  A thread's two stamps
 * are NULL until a post is written to it, hence the Option.
 */
module Entities {

  datatype Option<T> = None | Some(value: T)

  datatype Category = Category(name: string, slug: string, visible: bool, sort: int)

  datatype Forum = Forum(
    categoryId: int, name: string, slug: string, visible: bool, sort: int,
    threads: int,   // denormalised number of threads in the forum
    posts: int)     // denormalised number of posts in the forum

  datatype Thread = Thread(
    categoryId: int, forumId: int, name: string, slug: string, authorId: int,
    posts: int,     // denormalised number of posts in the thread
    views: int,
    locked: bool, pinned: bool,
    newPostAt: Option<int>, editedPostAt: Option<int>)

  datatype Post = Post(
    threadId: int, forumId: int, authorId: int, content: string,
    likes: int, dislikes: int,
    edited: bool, editedAt: int, createdAt: int, updatedAt: int)

  /** The per-(user, thread) read watermarks. */
  datatype ThreadView = ThreadView(newLastSeen: int, editedLastSeen: int)

  /** The key of a per-user row: (user id, thread or post id). */
  datatype UserKey = UserKey(user: int, target: int)

  /** Subscription::POST_NEW and Subscription::POST_SEEN. */
  datatype SubState = PostNew | PostSeen

  /** User::STATUS_*; the module knows registered (not yet activated), active and banned accounts. */
  datatype Status = Registered | Active | Banned

  /** User::ROLE_*. */
  datatype Role = Member | Moderator | Admin

  datatype User = User(status: Status, role: Role)

  /** A row of the word-to-post junction table. */
  datatype JunctionRow = JunctionRow(wordId: int, postId: int)

  /** A request parameter: absent or not numeric, or a number. */
  type Param = Option<int>

  /** `is_numeric($x) && $x > 0`, the id check every action starts with. */
  predicate IsId(x: Param)
  {
    x.Some? && x.value >= 1
  }
}
