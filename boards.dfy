/**
 * The part of the database that the denormalised counters describe:
 * categories, forums, threads and posts, with the auto-increment counters
 * that give new threads and posts their ids.
 *
 * `Consistent` is the state the counter rules of the controllers keep:
 * every forum's `threads` and `posts` and every thread's `posts` equal the
 * number of rows they stand for, every post's `forum_id` mirrors its
 * thread's, and no thread is left without posts.
 */
module Boards {
  import opened Entities

  datatype Board = Board(
    categories: map<int, Category>,
    forums: map<int, Forum>,
    threads: map<int, Thread>,
    posts: map<int, Post>,
    nextThreadId: int,
    nextPostId: int)

  /** Ids of the posts whose thread_id is t. */
  function PostsOfThread(posts: map<int, Post>, t: int): set<int>
  {
    set p | p in posts && posts[p].threadId == t
  }

  /** Ids of the posts whose forum_id is f. */
  function PostsOfForum(posts: map<int, Post>, f: int): set<int>
  {
    set p | p in posts && posts[p].forumId == f
  }

  /** Ids of the threads whose forum_id is f. */
  function ThreadsOfForum(threads: map<int, Thread>, f: int): set<int>
  {
    set t | t in threads && threads[t].forumId == f
  }

  /** The posts a query `WHERE thread_id = t AND forum_id = f` counts. */
  function PostsOfThreadIn(posts: map<int, Post>, t: int, f: int): set<int>
  {
    set p | p in posts && posts[p].threadId == t && posts[p].forumId == f
  }

  /** References resolve, denormalised ids agree with the owner, ids lie below the allocators. */
  ghost predicate Linked(b: Board)
  {
    && (forall t :: t in b.threads ==>
          && t < b.nextThreadId
          && b.threads[t].forumId in b.forums
          && b.threads[t].categoryId == b.forums[b.threads[t].forumId].categoryId)
    && (forall p :: p in b.posts ==>
          && p < b.nextPostId
          && b.posts[p].threadId in b.threads
          && b.posts[p].forumId == b.threads[b.posts[p].threadId].forumId)
  }

  ghost predicate ThreadsCounted(b: Board)
  {
    forall f :: f in b.forums ==> b.forums[f].threads == |ThreadsOfForum(b.threads, f)|
  }

  ghost predicate PostsCounted(b: Board)
  {
    && (forall f :: f in b.forums ==> b.forums[f].posts == |PostsOfForum(b.posts, f)|)
    && (forall t :: t in b.threads ==> b.threads[t].posts == |PostsOfThread(b.posts, t)|)
  }

  /** Every thread other than `except` has at least one post. */
  ghost predicate NoEmptyThreadBut(b: Board, except: int)
  {
    forall t :: t in b.threads && t != except ==> PostsOfThread(b.posts, t) != {}
  }

  ghost predicate NoEmptyThread(b: Board)
  {
    forall t :: t in b.threads ==> PostsOfThread(b.posts, t) != {}
  }

  ghost predicate Consistent(b: Board)
  {
    Linked(b) && ThreadsCounted(b) && PostsCounted(b) && NoEmptyThread(b)
  }

  /** In a linked board the posts of a thread are exactly those the `thread_id AND forum_id` query finds. */
  lemma ThreadQueryIsThreadPosts(b: Board, t: int)
    requires Linked(b) && t in b.threads
    ensures PostsOfThreadIn(b.posts, t, b.threads[t].forumId) == PostsOfThread(b.posts, t)
    ensures PostsOfThread(b.posts, t) <= PostsOfForum(b.posts, b.threads[t].forumId)
  {
    forall p | p in PostsOfThread(b.posts, t)
      ensures p in PostsOfThreadIn(b.posts, t, b.threads[t].forumId)
    {
    }
  }

  lemma {:induction false} MaxExists(s: set<int>)
    requires s != {}
    ensures exists m :: m in s && forall x :: x in s ==> x <= m
  {
    if forall y :: y !in s {
      assert false;
    }
    var y :| y in s;
    if s != {y} {
      MaxExists(s - {y});
      var m :| m in s - {y} && forall x :: x in s - {y} ==> x <= m;
      var top := if y > m then y else m;
      forall x | x in s ensures x <= top {
        if x != y {
          assert x in s - {y};
        }
      }
    } else {
      assert forall x :: x in s ==> x <= y;
    }
  }

  lemma MinExists(s: set<int>)
    requires s != {}
    ensures exists m :: m in s && forall x :: x in s ==> m <= x
  {
    var neg := set x | x in s :: -x;
    if forall y :: y !in s {
      assert false;
    }
    var y :| y in s;
    assert -y in neg;
    MaxExists(neg);
    var m :| m in neg && forall x :: x in neg ==> x <= m;
    assert -m in s;
    forall x | x in s ensures -m <= x {
      assert -x in neg;
    }
  }

  /** The largest id of a non-empty set. */
  function MaxOf(s: set<int>): (m: int)
    requires s != {}
    ensures m in s && forall x :: x in s ==> x <= m
  {
    MaxExists(s);
    var m :| m in s && forall x :: x in s ==> x <= m; m
  }

  /** The smallest id of a non-empty set. */
  function MinOf(s: set<int>): (m: int)
    requires s != {}
    ensures m in s && forall x :: x in s ==> m <= x
  {
    MinExists(s);
    var m :| m in s && forall x :: x in s ==> m <= x; m
  }

  /** `Post::find()->where(['thread_id' => t])->orderBy(['id' => SORT_DESC])->limit(1)`. */
  function LastPost(posts: map<int, Post>, t: int): (r: Option<int>)
    ensures r.None? <==> PostsOfThread(posts, t) == {}
    ensures r.Some? ==> r.value in posts && posts[r.value].threadId == t
    ensures r.Some? ==> forall p :: p in posts && posts[p].threadId == t ==> p <= r.value
  {
    var s := PostsOfThread(posts, t);
    assert forall p :: p in posts && posts[p].threadId == t ==> p in s;
    if s == {} then None else Some(MaxOf(s))
  }

  /** The thread's first post: the smallest id among the posts the `thread_id AND forum_id` query finds. */
  function FirstPost(posts: map<int, Post>, t: int, f: int): (r: Option<int>)
    ensures r.None? <==> PostsOfThreadIn(posts, t, f) == {}
    ensures r.Some? ==> r.value in posts && posts[r.value].threadId == t && posts[r.value].forumId == f
    ensures r.Some? ==> forall p :: p in PostsOfThreadIn(posts, t, f) ==> r.value <= p
  {
    var s := PostsOfThreadIn(posts, t, f);
    if s == {} then None else Some(MinOf(s))
  }
}
