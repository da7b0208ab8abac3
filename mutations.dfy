/**
 * The effect of each thread and post action of the default controller on
 * the board, as a function of the board before it, together with the proof
 * that each one keeps the board `Consistent`.
 *
 * The counter arithmetic is the controller's own (`updateCounters` with the
 * deltas it computes); consistency is what those deltas are for.
 */
module Mutations {
  import opened Entities
  import opened Boards

  /** `$forum->updateCounters(['threads' => dThreads, 'posts' => dPosts])`; nothing happens to a missing row. */
  function WithForumCounters(forums: map<int, Forum>, f: int, dThreads: int, dPosts: int): (r: map<int, Forum>)
    ensures r.Keys == forums.Keys
    ensures forall g :: g in r && g != f ==> r[g] == forums[g]
    ensures f in r ==> r[f] == forums[f].(threads := forums[f].threads + dThreads, posts := forums[f].posts + dPosts)
  {
    if f in forums then forums[f := forums[f].(threads := forums[f].threads + dThreads, posts := forums[f].posts + dPosts)]
    else forums
  }

  /** `$thread->updateCounters(['posts' => d])`. */
  function WithThreadPosts(threads: map<int, Thread>, t: int, d: int): (r: map<int, Thread>)
    ensures r.Keys == threads.Keys
    ensures forall u :: u in r && u != t ==> r[u] == threads[u]
    ensures t in r ==> r[t] == threads[t].(posts := threads[t].posts + d)
  {
    if t in threads then threads[t := threads[t].(posts := threads[t].posts + d)] else threads
  }

  /** The posts left once the storage layer cascades the deletion of thread t. */
  function Cascade(posts: map<int, Post>, t: int): (r: map<int, Post>)
    ensures r.Keys == posts.Keys - PostsOfThread(posts, t)
    ensures forall p :: p in r ==> r[p] == posts[p]
  {
    map p | p in posts && posts[p].threadId != t :: posts[p]
  }

  /** `$thread->delete()`: the row goes, and its posts with it. */
  function RemoveThread(b: Board, t: int): Board
  {
    b.(threads := b.threads - {t}, posts := Cascade(b.posts, t))
  }

  /** actionDelete: the thread and its posts go; its forum loses one thread and the thread's `posts`. */
  function DeleteThread(b: Board, t: int): Board
    requires t in b.threads
  {
    var th := b.threads[t];
    RemoveThread(b, t).(forums := WithForumCounters(b.forums, th.forumId, -1, -th.posts))
  }

  /**
   * The rule that follows removing or moving n posts out of thread t of forum f:
   * if the thread still has posts in f both counters drop by n, otherwise the
   * thread is deleted and the forum also loses a thread.
   */
  function SettleSource(b: Board, t: int, f: int, n: int): Board
  {
    if PostsOfThreadIn(b.posts, t, f) != {} then
      b.(threads := WithThreadPosts(b.threads, t, -n), forums := WithForumCounters(b.forums, f, 0, -n))
    else
      RemoveThread(b, t).(forums := WithForumCounters(b.forums, f, -1, -n))
  }

  /** actionDeleteposts once every selected id was found: the posts go, then the source is settled. */
  function DeletePosts(b: Board, t: int, selected: set<int>): Board
    requires t in b.threads
  {
    SettleSource(b.(posts := b.posts - selected), t, b.threads[t].forumId, |selected|)
  }

  /** actionDeletepost: the one-post case of the same rule. */
  function DeletePost(b: Board, t: int, p: int): Board
    requires t in b.threads
  {
    DeletePosts(b, t, {p})
  }

  // ---------------------------------------------------------------------
  // Counting lemmas
  // ---------------------------------------------------------------------

  /** Posts of thread t lie in its forum and in no other. */
  lemma ThreadPostsInOwnForum(b: Board, t: int, g: int)
    requires Linked(b) && t in b.threads
    ensures g == b.threads[t].forumId ==> PostsOfThread(b.posts, t) <= PostsOfForum(b.posts, g)
    ensures g != b.threads[t].forumId ==> PostsOfThread(b.posts, t) * PostsOfForum(b.posts, g) == {}
    ensures g != b.threads[t].forumId ==> forall p :: p in PostsOfThread(b.posts, t) ==> p !in PostsOfForum(b.posts, g)
  {
    ThreadQueryIsThreadPosts(b, t);
  }

  lemma CascadeCounts(b: Board, t: int)
    requires Linked(b) && t in b.threads
    ensures forall g :: PostsOfForum(Cascade(b.posts, t), g) == PostsOfForum(b.posts, g) - PostsOfThread(b.posts, t)
    ensures forall u :: u != t ==> PostsOfThread(Cascade(b.posts, t), u) == PostsOfThread(b.posts, u)
  {
  }

  /** Removing a subset takes away exactly its size. */
  lemma DifferenceCard(a: set<int>, sub: set<int>)
    requires sub <= a
    ensures |a - sub| == |a| - |sub|
  {
    assert a == (a - sub) + sub;
    assert (a - sub) * sub == {};
  }

  /** Taking away a disjoint set changes nothing. */
  lemma DisjointDifference(a: set<int>, c: set<int>)
    requires forall x :: x in c ==> x !in a
    ensures a - c == a
  {
    forall x ensures x in a - c <==> x in a {
    }
  }

  /** Adding a subset changes nothing. */
  lemma SubsetUnion(a: set<int>, c: set<int>)
    requires c <= a
    ensures a + c == a
  {
  }

  /** After deleting thread t, forum g's counters still count its threads and posts. */
  lemma DeleteThreadForumCounts(b: Board, t: int, g: int)
    requires Consistent(b) && t in b.threads && g in b.forums
    ensures var r := DeleteThread(b, t);
      && r.forums[g].threads == |ThreadsOfForum(r.threads, g)|
      && r.forums[g].posts == |PostsOfForum(r.posts, g)|
  {
    var r := DeleteThread(b, t);
    var f := b.threads[t].forumId;
    var pt := PostsOfThread(b.posts, t);
    CascadeCounts(b, t);
    ThreadPostsInOwnForum(b, t, g);
    assert r.posts == Cascade(b.posts, t);
    assert PostsOfForum(r.posts, g) == PostsOfForum(b.posts, g) - pt;
    if g == f {
      assert ThreadsOfForum(r.threads, g) == ThreadsOfForum(b.threads, g) - {t};
      DifferenceCard(ThreadsOfForum(b.threads, g), {t});
      DifferenceCard(PostsOfForum(b.posts, g), pt);
    } else {
      assert ThreadsOfForum(r.threads, g) == ThreadsOfForum(b.threads, g);
      DisjointDifference(PostsOfForum(b.posts, g), pt);
    }
  }

  lemma {:induction false} DeleteThreadConsistent(b: Board, t: int)
    requires Consistent(b) && t in b.threads
    ensures Consistent(DeleteThread(b, t))
    ensures DeleteThread(b, t).threads.Keys == b.threads.Keys - {t}
    ensures DeleteThread(b, t).posts.Keys == b.posts.Keys - PostsOfThread(b.posts, t)
  {
    var r := DeleteThread(b, t);
    CascadeCounts(b, t);
    forall g | g in r.forums
      ensures r.forums[g].threads == |ThreadsOfForum(r.threads, g)|
      ensures r.forums[g].posts == |PostsOfForum(r.posts, g)|
    {
      DeleteThreadForumCounts(b, t, g);
    }
  }

  /** Once no post of t is left in its forum, no post of t is left at all. */
  lemma ThreadQueryEmpty(b: Board, posts: map<int, Post>, t: int)
    requires Linked(b.(posts := posts)) && t in b.threads
    requires PostsOfThreadIn(posts, t, b.threads[t].forumId) == {}
    ensures PostsOfThread(posts, t) == {}
  {
    ThreadQueryIsThreadPosts(b.(posts := posts), t);
  }

  /** Deleting every post of a thread is deleting the thread. */
  lemma {:induction false} DeleteAllIsDeleteThread(b: Board, t: int, selected: set<int>)
    requires Consistent(b) && t in b.threads
    requires selected <= PostsOfThread(b.posts, t)
    requires PostsOfThreadIn(b.posts - selected, t, b.threads[t].forumId) == {}
    ensures selected == PostsOfThread(b.posts, t)
    ensures DeletePosts(b, t, selected) == DeleteThread(b, t)
  {
    var b1 := b.(posts := b.posts - selected);
    ThreadQueryEmpty(b, b1.posts, t);
    forall p | p in PostsOfThread(b.posts, t) ensures p in selected {
      assert p in selected || p in PostsOfThread(b1.posts, t);
    }
    assert Cascade(b1.posts, t) == Cascade(b.posts, t);
  }

  lemma {:induction false} DeletePostsConsistent(b: Board, t: int, selected: set<int>)
    requires Consistent(b) && t in b.threads
    requires selected <= PostsOfThread(b.posts, t)
    ensures Consistent(DeletePosts(b, t, selected))
  {
    var f := b.threads[t].forumId;
    if PostsOfThreadIn(b.posts - selected, t, f) == {} {
      DeleteAllIsDeleteThread(b, t, selected);
      DeleteThreadConsistent(b, t);
    } else {
      var r := DeletePosts(b, t, selected);
      forall g | g in r.forums
        ensures r.forums[g].posts == |PostsOfForum(r.posts, g)|
        ensures r.forums[g].threads == |ThreadsOfForum(r.threads, g)|
      {
        DeleteSomeForumCounts(b, t, selected, g);
      }
      forall u | u in r.threads
        ensures r.threads[u].posts == |PostsOfThread(r.posts, u)|
        ensures PostsOfThread(r.posts, u) != {}
      {
        DeleteSomeThreadCounts(b, t, selected, u);
      }
    }
  }

  /** When thread t keeps a post in its forum, forum g's counters still count after the deletion. */
  lemma DeleteSomeForumCounts(b: Board, t: int, selected: set<int>, g: int)
    requires Consistent(b) && t in b.threads && g in b.forums
    requires selected <= PostsOfThread(b.posts, t)
    requires PostsOfThreadIn(b.posts - selected, t, b.threads[t].forumId) != {}
    ensures var r := DeletePosts(b, t, selected);
      && r.forums[g].posts == |PostsOfForum(r.posts, g)|
      && r.forums[g].threads == |ThreadsOfForum(r.threads, g)|
  {
    var r := DeletePosts(b, t, selected);
    var f := b.threads[t].forumId;
    var pf := PostsOfForum(b.posts, g);
    assert r.posts == b.posts - selected;
    assert r.threads == WithThreadPosts(b.threads, t, -|selected|);
    assert r.forums == WithForumCounters(b.forums, f, 0, -|selected|);
    assert ThreadsOfForum(r.threads, g) == ThreadsOfForum(b.threads, g);
    ThreadPostsInOwnForum(b, t, g);
    assert PostsOfForum(r.posts, g) == pf - selected;
    if g == f {
      DifferenceCard(pf, selected);
    } else {
      DisjointDifference(pf, selected);
    }
  }

  /** When thread t keeps a post in its forum, thread u's counter still counts and u is not empty. */
  lemma DeleteSomeThreadCounts(b: Board, t: int, selected: set<int>, u: int)
    requires Consistent(b) && t in b.threads && u in b.threads
    requires selected <= PostsOfThread(b.posts, t)
    requires PostsOfThreadIn(b.posts - selected, t, b.threads[t].forumId) != {}
    ensures var r := DeletePosts(b, t, selected);
      && r.threads[u].posts == |PostsOfThread(r.posts, u)|
      && PostsOfThread(r.posts, u) != {}
  {
    var r := DeletePosts(b, t, selected);
    var pu := PostsOfThread(b.posts, u);
    assert r.posts == b.posts - selected;
    assert r.threads == WithThreadPosts(b.threads, t, -|selected|);
    assert PostsOfThread(r.posts, u) == pu - selected;
    if u == t {
      DifferenceCard(pu, selected);
      assert PostsOfThreadIn(r.posts, t, b.threads[t].forumId) <= PostsOfThread(r.posts, u);
    } else {
      assert forall p :: p in selected ==> p !in pu;
      DisjointDifference(pu, selected);
    }
  }

  /** A fresh post joins its own thread's and forum's post sets and no others. */
  lemma AddPostSets(posts: map<int, Post>, pid: int, x: Post)
    requires pid !in posts
    ensures forall u :: PostsOfThread(posts[pid := x], u) ==
                        (if u == x.threadId then PostsOfThread(posts, u) + {pid} else PostsOfThread(posts, u))
    ensures forall g :: PostsOfForum(posts[pid := x], g) ==
                        (if g == x.forumId then PostsOfForum(posts, g) + {pid} else PostsOfForum(posts, g))
  {
  }

  /** Rewriting a post in place without moving it changes no post set. */
  lemma SamePlacePostSets(posts: map<int, Post>, p: int, x: Post)
    requires p in posts && x.threadId == posts[p].threadId && x.forumId == posts[p].forumId
    ensures forall u :: PostsOfThread(posts[p := x], u) == PostsOfThread(posts, u)
    ensures forall g :: PostsOfForum(posts[p := x], g) == PostsOfForum(posts, g)
    ensures forall u, g :: PostsOfThreadIn(posts[p := x], u, g) == PostsOfThreadIn(posts, u, g)
  {
  }

  /** A fresh thread joins its own forum's thread set and no other. */
  lemma AddThreadSets(threads: map<int, Thread>, nid: int, th: Thread)
    requires nid !in threads
    ensures forall g :: ThreadsOfForum(threads[nid := th], g) ==
                        (if g == th.forumId then ThreadsOfForum(threads, g) + {nid} else ThreadsOfForum(threads, g))
  {
  }

  /** Rewriting a thread in place without moving it changes no thread set. */
  lemma SamePlaceThreadSets(threads: map<int, Thread>, t: int, th: Thread)
    requires t in threads && th.forumId == threads[t].forumId
    ensures forall g :: ThreadsOfForum(threads[t := th], g) == ThreadsOfForum(threads, g)
  {
  }

  // ---------------------------------------------------------------------
  // Moving a thread
  // ---------------------------------------------------------------------

  /** `Post::updateAll(['forum_id' => target], 'thread_id = t')`. */
  function Refile(posts: map<int, Post>, t: int, target: int): (r: map<int, Post>)
    ensures r.Keys == posts.Keys
  {
    map p | p in posts :: if posts[p].threadId == t then posts[p].(forumId := target) else posts[p]
  }

  /**
   * actionMove: the old forum loses one thread and the thread's `posts`, the
   * new one gains the same, and the thread and its posts are refiled.
   */
  function MoveThread(b: Board, t: int, target: int): Board
    requires t in b.threads && target in b.forums
  {
    var th := b.threads[t];
    var n := th.posts;
    b.(forums := WithForumCounters(WithForumCounters(b.forums, th.forumId, -1, -n), target, 1, n),
       threads := b.threads[t := th.(forumId := target, categoryId := b.forums[target].categoryId)],
       posts := Refile(b.posts, t, target))
  }

  /** The two forums' counters move by exactly the thread's size; nothing is created or lost. */
  lemma MoveThreadShiftsCounters(b: Board, t: int, target: int)
    requires t in b.threads && target in b.forums && b.threads[t].forumId in b.forums
    requires target != b.threads[t].forumId
    ensures var r := MoveThread(b, t, target); var f := b.threads[t].forumId; var n := b.threads[t].posts;
      && r.forums.Keys == b.forums.Keys && r.threads.Keys == b.threads.Keys && r.posts.Keys == b.posts.Keys
      && r.forums[f].threads == b.forums[f].threads - 1 && r.forums[f].posts == b.forums[f].posts - n
      && r.forums[target].threads == b.forums[target].threads + 1 && r.forums[target].posts == b.forums[target].posts + n
      && r.forums[f].posts + r.forums[target].posts == b.forums[f].posts + b.forums[target].posts
      && (forall g :: g in b.forums && g != f && g != target ==> r.forums[g] == b.forums[g])
      && (forall p :: p in r.posts ==> r.posts[p].forumId == (if b.posts[p].threadId == t then target else b.posts[p].forumId))
  {
  }

  /** Two disjoint sets together have the sum of their sizes. */
  lemma UnionCard(a: set<int>, c: set<int>)
    requires a * c == {}
    ensures |a + c| == |a| + |c|
  {
  }

  /** Refiling thread t's posts into `target` moves exactly the thread's posts between post sets of forums. */
  lemma RefileForumSets(posts: map<int, Post>, t: int, target: int, g: int)
    ensures PostsOfForum(Refile(posts, t, target), g) ==
            (if g == target then PostsOfForum(posts, g) + PostsOfThread(posts, t)
             else PostsOfForum(posts, g) - PostsOfThread(posts, t))
  {
    var r := Refile(posts, t, target);
    var pt := PostsOfThread(posts, t);
    forall p ensures p in PostsOfForum(r, g) <==>
      p in (if g == target then PostsOfForum(posts, g) + pt else PostsOfForum(posts, g) - pt)
    {
    }
  }

  /** Rewriting thread t into forum `x.forumId` moves t alone between thread sets. */
  lemma MovedThreadSets(threads: map<int, Thread>, t: int, x: Thread, g: int)
    requires t in threads
    ensures ThreadsOfForum(threads[t := x], g) ==
            (if g == x.forumId then ThreadsOfForum(threads, g) + {t} else ThreadsOfForum(threads, g) - {t})
  {
  }

  lemma MoveThreadForumCounts(b: Board, t: int, target: int, g: int)
    requires Consistent(b) && t in b.threads && target in b.forums && g in b.forums
    ensures var r := MoveThread(b, t, target);
      && r.forums[g].threads == |ThreadsOfForum(r.threads, g)|
      && r.forums[g].posts == |PostsOfForum(r.posts, g)|
  {
    var r := MoveThread(b, t, target);
    var f := b.threads[t].forumId;
    var pt := PostsOfThread(b.posts, t);
    var tf := ThreadsOfForum(b.threads, g);
    var pf := PostsOfForum(b.posts, g);
    ThreadPostsInOwnForum(b, t, g);
    RefileForumSets(b.posts, t, target, g);
    MovedThreadSets(b.threads, t, r.threads[t], g);
    assert r.threads == b.threads[t := r.threads[t]];
    assert r.posts == Refile(b.posts, t, target);
    assert t in tf <==> g == f;
    if g == f && g != target {
      DifferenceCard(tf, {t});
      DifferenceCard(pf, pt);
    } else if g == target && g != f {
      UnionCard(tf, {t});
      UnionCard(pf, pt);
    } else if g == f {
      assert tf + {t} == tf;
      SubsetUnion(pf, pt);
    } else {
      assert tf - {t} == tf;
      DisjointDifference(pf, pt);
    }
  }

  lemma {:induction false} MoveThreadConsistent(b: Board, t: int, target: int)
    requires Consistent(b) && t in b.threads && target in b.forums
    ensures Consistent(MoveThread(b, t, target))
  {
    var r := MoveThread(b, t, target);
    assert forall u :: PostsOfThread(r.posts, u) == PostsOfThread(b.posts, u);
    forall g | g in r.forums
      ensures r.forums[g].threads == |ThreadsOfForum(r.threads, g)|
      ensures r.forums[g].posts == |PostsOfForum(r.posts, g)|
    {
      MoveThreadForumCounts(b, t, target, g);
    }
  }

  // ---------------------------------------------------------------------
  // Moving posts
  // ---------------------------------------------------------------------

  /** Each selected post is saved with the destination's thread_id and forum_id, which touches its updated_at. */
  function Reassign(posts: map<int, Post>, selected: set<int>, d: int, df: int, now: int): (r: map<int, Post>)
    ensures r.Keys == posts.Keys
  {
    map p | p in posts :: if p in selected then posts[p].(threadId := d, forumId := df, updatedAt := now) else posts[p]
  }

  /** The destination thread and its forum each gain n posts. */
  function Arrive(b: Board, d: int, df: int, n: int): Board
  {
    b.(threads := WithThreadPosts(b.threads, d, n), forums := WithForumCounters(b.forums, df, 0, n))
  }

  /** actionMoveposts into the existing thread d once every selected id was found. */
  function MovePosts(b: Board, t: int, selected: set<int>, d: int, now: int): Board
    requires t in b.threads && d in b.threads
  {
    var f := b.threads[t].forumId;
    var df := b.threads[d].forumId;
    var moved := b.(posts := Reassign(b.posts, selected, d, df, now));
    Arrive(SettleSource(moved, t, f, |selected|), d, df, |selected|)
  }

  /** How far a forum's `threads` counter is from the number of its threads. */
  ghost function ThreadDrift(b: Board, g: int): int
    requires g in b.forums
  {
    b.forums[g].threads - |ThreadsOfForum(b.threads, g)|
  }

  lemma ReassignLinked(b: Board, selected: set<int>, d: int, now: int)
    requires Linked(b) && d in b.threads
    ensures Linked(b.(posts := Reassign(b.posts, selected, d, b.threads[d].forumId, now)))
  {
  }

  lemma ReassignThreadSets(b: Board, t: int, selected: set<int>, d: int, now: int)
    requires d in b.threads && t != d && selected <= PostsOfThread(b.posts, t)
    ensures var posts1 := Reassign(b.posts, selected, d, b.threads[d].forumId, now);
      && PostsOfThread(posts1, t) == PostsOfThread(b.posts, t) - selected
      && PostsOfThread(posts1, d) == PostsOfThread(b.posts, d) + selected
      && (forall u :: u != t && u != d ==> PostsOfThread(posts1, u) == PostsOfThread(b.posts, u))
  {
  }

  lemma ReassignForumSets(b: Board, selected: set<int>, d: int, now: int, g: int)
    requires d in b.threads && selected <= b.posts.Keys
    ensures var df := b.threads[d].forumId;
      PostsOfForum(Reassign(b.posts, selected, d, df, now), g) ==
        if g == df then PostsOfForum(b.posts, g) - selected + selected
        else PostsOfForum(b.posts, g) - selected
  {
  }

  /** The two cases of the settling rule, unfolded. */
  lemma SettleCases(b: Board, t: int, f: int, n: int)
    ensures PostsOfThreadIn(b.posts, t, f) != {} ==>
      SettleSource(b, t, f, n) == b.(threads := WithThreadPosts(b.threads, t, -n), forums := WithForumCounters(b.forums, f, 0, -n))
    ensures PostsOfThreadIn(b.posts, t, f) == {} && PostsOfThread(b.posts, t) == {} ==>
      SettleSource(b, t, f, n) == b.(threads := b.threads - {t}, forums := WithForumCounters(b.forums, f, -1, -n))
  {
    if PostsOfThreadIn(b.posts, t, f) == {} && PostsOfThread(b.posts, t) == {} {
      assert Cascade(b.posts, t) == b.posts;
    }
  }

  /** What a move does to each row, with the case split of the source made explicit. */
  lemma MovePostsShape(b: Board, t: int, selected: set<int>, d: int, now: int)
    requires Linked(b) && t in b.threads && d in b.threads && t != d
    requires selected <= PostsOfThread(b.posts, t)
    ensures var f := b.threads[t].forumId; var df := b.threads[d].forumId; var n := |selected|;
      var posts1 := Reassign(b.posts, selected, d, df, now);
      var emptied := PostsOfThreadIn(posts1, t, f) == {};
      var r := MovePosts(b, t, selected, d, now);
      && r.posts == posts1
      && (emptied <==> PostsOfThread(posts1, t) == {})
      && r.threads.Keys == (if emptied then b.threads.Keys - {t} else b.threads.Keys)
      && (forall u :: u in r.threads ==> r.threads[u].forumId == b.threads[u].forumId)
      && (forall u :: u in r.threads ==>
            r.threads[u].posts == b.threads[u].posts + (if u == t then -n else 0) + (if u == d then n else 0))
      && r.forums.Keys == b.forums.Keys
      && (forall g :: g in r.forums ==>
            r.forums[g].posts == b.forums[g].posts + (if g == f then -n else 0) + (if g == df then n else 0))
      && (forall g :: g in r.forums ==>
            r.forums[g].threads == b.forums[g].threads + (if emptied && g == f then -1 else 0))
  {
    var f := b.threads[t].forumId;
    var posts1 := Reassign(b.posts, selected, d, b.threads[d].forumId, now);
    ReassignLinked(b, selected, d, now);
    ThreadQueryIsThreadPosts(b.(posts := posts1), t);
    SettleCases(b.(posts := posts1), t, f, |selected|);
  }

  lemma MovedForumPosts(b: Board, t: int, selected: set<int>, d: int, now: int, g: int)
    requires Linked(b) && PostsCounted(b) && t in b.threads && d in b.threads && t != d
    requires selected <= PostsOfThread(b.posts, t) && g in b.forums
    ensures var r := MovePosts(b, t, selected, d, now);
      g in r.forums && r.forums[g].posts == |PostsOfForum(r.posts, g)|
  {
    MovePostsShape(b, t, selected, d, now);
    ThreadPostsInOwnForum(b, t, g);
    ThreadPostsInOwnForum(b, t, b.threads[d].forumId);
    ReassignForumSets(b, selected, d, now, g);
  }

  /** Threads that keep their forum keep their place in its thread count. */
  lemma ThreadsOfForumAfterRemoval(before: map<int, Thread>, after: map<int, Thread>, t: int, g: int)
    requires after.Keys == before.Keys || after.Keys == before.Keys - {t}
    requires forall u :: u in after ==> after[u].forumId == before[u].forumId
    ensures after.Keys == before.Keys ==> ThreadsOfForum(after, g) == ThreadsOfForum(before, g)
    ensures after.Keys != before.Keys ==> ThreadsOfForum(after, g) == ThreadsOfForum(before, g) - {t}
  {
    var removed := if after.Keys == before.Keys then {} else {t};
    forall u ensures u in ThreadsOfForum(after, g) <==> u in ThreadsOfForum(before, g) - removed {
      if u in before && u !in removed {
        assert u in after.Keys;
      }
    }
    assert ThreadsOfForum(after, g) == ThreadsOfForum(before, g) - removed;
  }

  lemma MovedThreadDrift(b: Board, t: int, selected: set<int>, d: int, now: int, g: int)
    requires Linked(b) && t in b.threads && d in b.threads && t != d
    requires selected <= PostsOfThread(b.posts, t) && g in b.forums
    ensures var r := MovePosts(b, t, selected, d, now);
      g in r.forums && ThreadDrift(r, g) == ThreadDrift(b, g)
  {
    var r := MovePosts(b, t, selected, d, now);
    MovePostsShape(b, t, selected, d, now);
    ThreadsOfForumAfterRemoval(b.threads, r.threads, t, g);
  }

  lemma MovedThreadPosts(b: Board, t: int, selected: set<int>, d: int, now: int, u: int)
    requires Linked(b) && PostsCounted(b) && NoEmptyThreadBut(b, d)
    requires t in b.threads && d in b.threads && t != d
    requires selected != {} && selected <= PostsOfThread(b.posts, t)
    requires u in MovePosts(b, t, selected, d, now).threads
    ensures var r := MovePosts(b, t, selected, d, now);
      r.threads[u].posts == |PostsOfThread(r.posts, u)| && PostsOfThread(r.posts, u) != {}
  {
    MovePostsShape(b, t, selected, d, now);
    ReassignThreadSets(b, t, selected, d, now);
    assert PostsOfThread(b.posts, d) * selected == {};
  }

  /**
   * Moving posts keeps every post and thread counter exact, leaves no thread
   * empty (the destination d may start out empty), and shifts no forum's
   * `threads` counter relative to its real thread count.
   */
  lemma {:induction false} MovePostsKeepsCounts(b: Board, t: int, selected: set<int>, d: int, now: int)
    requires Linked(b) && PostsCounted(b) && NoEmptyThreadBut(b, d)
    requires t in b.threads && d in b.threads && t != d
    requires selected != {} && selected <= PostsOfThread(b.posts, t)
    ensures var r := MovePosts(b, t, selected, d, now);
      && Linked(r) && PostsCounted(r) && NoEmptyThread(r)
      && r.forums.Keys == b.forums.Keys
      && (forall g :: g in b.forums ==> ThreadDrift(r, g) == ThreadDrift(b, g))
  {
    var r := MovePosts(b, t, selected, d, now);
    MovePostsShape(b, t, selected, d, now);
    ReassignLinked(b, selected, d, now);
    forall g | g in r.forums
      ensures r.forums[g].posts == |PostsOfForum(r.posts, g)|
      ensures ThreadDrift(r, g) == ThreadDrift(b, g)
    {
      MovedForumPosts(b, t, selected, d, now, g);
      MovedThreadDrift(b, t, selected, d, now, g);
    }
    forall u | u in r.threads
      ensures r.threads[u].posts == |PostsOfThread(r.posts, u)| && PostsOfThread(r.posts, u) != {}
    {
      MovedThreadPosts(b, t, selected, d, now, u);
    }
  }

  /** actionMoveposts into an existing thread keeps the board consistent. */
  lemma {:induction false} MovePostsConsistent(b: Board, t: int, selected: set<int>, d: int, now: int)
    requires Consistent(b) && t in b.threads && d in b.threads && t != d
    requires selected != {} && selected <= PostsOfThread(b.posts, t)
    ensures Consistent(MovePosts(b, t, selected, d, now))
  {
    MovePostsKeepsCounts(b, t, selected, d, now);
    var r := MovePosts(b, t, selected, d, now);
    forall g | g in r.forums ensures r.forums[g].threads == |ThreadsOfForum(r.threads, g)| {
      assert ThreadDrift(b, g) == 0;
    }
  }

  // ---------------------------------------------------------------------
  // Moving posts into a new thread
  // ---------------------------------------------------------------------

  /** The `new Thread` of actionMoveposts: no posts, no views, both post stamps NULL. */
  function NewEmptyThread(b: Board, parent: int, name: string, slug: string, author: int): (r: Board)
    requires parent in b.forums
    ensures r.threads.Keys == b.threads.Keys + {b.nextThreadId}
  {
    var th := Thread(b.forums[parent].categoryId, parent, name, slug, author, 0, 0, false, false, None, None);
    b.(threads := b.threads[b.nextThreadId := th], nextThreadId := b.nextThreadId + 1)
  }

  /** actionMoveposts into a new thread as the controller writes it: the parent forum's `threads` is never raised. */
  function MovePostsToNewAsWritten(b: Board, t: int, selected: set<int>, parent: int, name: string, slug: string,
                                   author: int, now: int): Board
    requires t in b.threads && parent in b.forums
  {
    MovePosts(NewEmptyThread(b, parent, name, slug, author), t, selected, b.nextThreadId, now)
  }

  /** actionMoveposts into a new thread, with the parent forum counting the thread it gains, as actionNewThread does. */
  function MovePostsToNew(b: Board, t: int, selected: set<int>, parent: int, name: string, slug: string,
                          author: int, now: int): Board
    requires t in b.threads && parent in b.forums
  {
    var b1 := NewEmptyThread(b, parent, name, slug, author);
    MovePosts(b1.(forums := WithForumCounters(b1.forums, parent, 1, 0)), t, selected, b.nextThreadId, now)
  }

  /** Ids at or above the allocator are unused, so the next thread id holds no posts. */
  lemma FreshThreadHasNoPosts(b: Board)
    requires Linked(b)
    ensures b.nextThreadId !in b.threads && PostsOfThread(b.posts, b.nextThreadId) == {}
    ensures b.nextPostId !in b.posts
  {
    forall p | p in b.posts ensures b.posts[p].threadId != b.nextThreadId {
      assert b.posts[p].threadId in b.threads;
    }
  }

  /** Adding the empty thread keeps every post count and no thread but it is empty. */
  lemma NewEmptyThreadCounts(b: Board, parent: int, name: string, slug: string, author: int)
    requires Consistent(b) && parent in b.forums
    ensures var b1 := NewEmptyThread(b, parent, name, slug, author);
      Linked(b1) && PostsCounted(b1) && NoEmptyThreadBut(b1, b.nextThreadId)
  {
    FreshThreadHasNoPosts(b);
    NewEmptyThreadLinked(b, parent, name, slug, author);
  }

  /** ... and leaves only its parent forum's `threads` counter one short. */
  lemma NewEmptyThreadDrift(b: Board, parent: int, name: string, slug: string, author: int)
    requires ThreadsCounted(b) && parent in b.forums && b.nextThreadId !in b.threads
    ensures var b1 := NewEmptyThread(b, parent, name, slug, author);
      forall g :: g in b1.forums ==> ThreadDrift(b1, g) == if g == parent then -1 else 0
  {
    var b1 := NewEmptyThread(b, parent, name, slug, author);
    AddThreadSets(b.threads, b.nextThreadId, b1.threads[b.nextThreadId]);
  }

  lemma NewEmptyThreadLinked(b: Board, parent: int, name: string, slug: string, author: int)
    requires Linked(b) && parent in b.forums
    ensures Linked(NewEmptyThread(b, parent, name, slug, author))
  {
  }

  /** With the parent forum counting the new thread, moving posts into a new thread keeps the board consistent. */
  lemma {:induction false} MovePostsToNewConsistent(b: Board, t: int, selected: set<int>, parent: int,
                                                     name: string, slug: string, author: int, now: int)
    requires Consistent(b) && t in b.threads && parent in b.forums
    requires selected != {} && selected <= PostsOfThread(b.posts, t)
    ensures Consistent(MovePostsToNew(b, t, selected, parent, name, slug, author, now))
  {
    var b1 := NewEmptyThread(b, parent, name, slug, author);
    var b2 := b1.(forums := WithForumCounters(b1.forums, parent, 1, 0));
    NewEmptyThreadCounts(b, parent, name, slug, author);
    FreshThreadHasNoPosts(b);
    NewEmptyThreadDrift(b, parent, name, slug, author);
    assert ThreadsOfForum(b2.threads, parent) == ThreadsOfForum(b1.threads, parent);
    assert forall g :: g in b2.forums ==> ThreadDrift(b2, g) == 0;
    MovePostsKeepsCounts(b2, t, selected, b.nextThreadId, now);
    var r := MovePosts(b2, t, selected, b.nextThreadId, now);
    forall g | g in r.forums ensures r.forums[g].threads == |ThreadsOfForum(r.threads, g)| {
      assert ThreadDrift(r, g) == ThreadDrift(b2, g);
    }
  }

  /** As written, the parent forum ends up counting one thread fewer than it holds. */
  lemma {:induction false} MovePostsToNewUndercounts(b: Board, t: int, selected: set<int>, parent: int,
                                                      name: string, slug: string, author: int, now: int)
    requires Consistent(b) && t in b.threads && parent in b.forums
    requires selected != {} && selected <= PostsOfThread(b.posts, t)
    ensures var r := MovePostsToNewAsWritten(b, t, selected, parent, name, slug, author, now);
      parent in r.forums && r.forums[parent].threads == |ThreadsOfForum(r.threads, parent)| - 1
    ensures !Consistent(MovePostsToNewAsWritten(b, t, selected, parent, name, slug, author, now))
  {
    var b1 := NewEmptyThread(b, parent, name, slug, author);
    NewEmptyThreadCounts(b, parent, name, slug, author);
    FreshThreadHasNoPosts(b);
    NewEmptyThreadDrift(b, parent, name, slug, author);
    MovePostsKeepsCounts(b1, t, selected, b.nextThreadId, now);
    var r := MovePosts(b1, t, selected, b.nextThreadId, now);
    assert ThreadDrift(r, parent) == -1;
  }

  // ---------------------------------------------------------------------
  // Creating a thread, replying, editing
  // ---------------------------------------------------------------------

  /**
   * actionNewThread: the thread takes the next thread id with one post and
   * both stamps at now; its first post takes the next post id; the forum
   * gains one thread and one post.
   */
  function NewThread(b: Board, f: int, name: string, slug: string, author: int, content: string, now: int): Board
    requires f in b.forums
  {
    var th := Thread(b.forums[f].categoryId, f, name, slug, author, 1, 0, false, false, Some(now), Some(now));
    var post := Post(b.nextThreadId, f, author, content, 0, 0, false, 0, now, now);
    b.(forums := WithForumCounters(b.forums, f, 1, 1),
       threads := b.threads[b.nextThreadId := th],
       posts := b.posts[b.nextPostId := post],
       nextThreadId := b.nextThreadId + 1,
       nextPostId := b.nextPostId + 1)
  }

  lemma {:induction false} NewThreadConsistent(b: Board, f: int, name: string, slug: string, author: int,
                                                content: string, now: int)
    requires Consistent(b) && f in b.forums
    ensures var r := NewThread(b, f, name, slug, author, content, now);
      && Consistent(r)
      && r.forums[f].threads == b.forums[f].threads + 1 && r.forums[f].posts == b.forums[f].posts + 1
      && PostsOfThread(r.posts, b.nextThreadId) == {b.nextPostId}
  {
    var r := NewThread(b, f, name, slug, author, content, now);
    var nid := b.nextThreadId;
    var pid := b.nextPostId;
    FreshThreadHasNoPosts(b);
    AddThreadSets(b.threads, nid, r.threads[nid]);
    AddPostSets(b.posts, pid, r.posts[pid]);
    NewThreadLinked(b, f, name, slug, author, content, now);
    forall u | u in r.threads
      ensures r.threads[u].posts == |PostsOfThread(r.posts, u)| && PostsOfThread(r.posts, u) != {}
    {
    }
  }

  lemma NewThreadLinked(b: Board, f: int, name: string, slug: string, author: int, content: string, now: int)
    requires Linked(b) && f in b.forums
    ensures Linked(NewThread(b, f, name, slug, author, content, now))
  {
  }

  /** Whether actionPost appends to the thread's latest post: it exists and the replying user wrote it. */
  predicate MergesReply(b: Board, t: int, user: int)
  {
    var last := LastPost(b.posts, t);
    last.Some? && b.posts[last.value].authorId == user
  }

  /**
   * actionPost. A reply by the author of the thread's latest post is appended
   * to it after `<hr>`, marks it edited at now and stamps the thread's
   * `edited_post_at`; any other reply becomes a new post with the next id,
   * both counters rise by one and both stamps move to now.
   */
  function Reply(b: Board, t: int, user: int, content: string, now: int): Board
    requires t in b.threads
  {
    var th := b.threads[t];
    if MergesReply(b, t, user) then
      var last := LastPost(b.posts, t).value;
      var lp := b.posts[last];
      b.(posts := b.posts[last := lp.(content := lp.content + "<hr>" + content, edited := true, editedAt := now, updatedAt := now)],
         threads := b.threads[t := th.(editedPostAt := Some(now))])
    else
      AppendReply(b, t, user, content, now)
  }

  /** A reply that is not merged: a new post with the next id, both counters up by one, both stamps at now. */
  function AppendReply(b: Board, t: int, user: int, content: string, now: int): Board
    requires t in b.threads
  {
    var th := b.threads[t];
    var post := Post(t, th.forumId, user, content, 0, 0, false, 0, now, now);
    b.(posts := b.posts[b.nextPostId := post],
       threads := b.threads[t := th.(posts := th.posts + 1, newPostAt := Some(now), editedPostAt := Some(now))],
       forums := WithForumCounters(b.forums, th.forumId, 0, 1),
       nextPostId := b.nextPostId + 1)
  }

  /** The id of the post a reply ends up in: the merged-into latest post, or the new one. */
  function ReplyPost(b: Board, t: int, user: int): (p: int)
    ensures MergesReply(b, t, user) ==> p in b.posts && b.posts[p].threadId == t
  {
    if MergesReply(b, t, user) then LastPost(b.posts, t).value else b.nextPostId
  }

  lemma {:induction false} ReplyConsistent(b: Board, t: int, user: int, content: string, now: int)
    requires Consistent(b) && t in b.threads
    ensures Consistent(Reply(b, t, user, content, now))
  {
    if MergesReply(b, t, user) {
      ReplyMergedConsistent(b, t, user, content, now);
    } else {
      ReplyNewConsistent(b, t, user, content, now);
    }
  }

  lemma ReplyMergedConsistent(b: Board, t: int, user: int, content: string, now: int)
    requires Consistent(b) && t in b.threads && MergesReply(b, t, user)
    ensures Consistent(Reply(b, t, user, content, now))
  {
    var r := Reply(b, t, user, content, now);
    var last := LastPost(b.posts, t).value;
    SamePlacePostSets(b.posts, last, r.posts[last]);
    SamePlaceThreadSets(b.threads, t, r.threads[t]);
    assert r.forums == b.forums;
  }

  lemma ReplyNewConsistent(b: Board, t: int, user: int, content: string, now: int)
    requires Consistent(b) && t in b.threads && !MergesReply(b, t, user)
    ensures Consistent(Reply(b, t, user, content, now))
  {
    AppendReplyConsistent(b, t, user, content, now);
  }

  lemma AppendReplyConsistent(b: Board, t: int, user: int, content: string, now: int)
    requires Consistent(b) && t in b.threads
    ensures Consistent(AppendReply(b, t, user, content, now))
  {
    var r := AppendReply(b, t, user, content, now);
    var pid := b.nextPostId;
    var f := b.threads[t].forumId;
    assert pid !in b.posts;
    AddPostSets(b.posts, pid, r.posts[pid]);
    SamePlaceThreadSets(b.threads, t, r.threads[t]);
    forall g | g in r.forums
      ensures r.forums[g].posts == |PostsOfForum(r.posts, g)|
      ensures r.forums[g].threads == |ThreadsOfForum(r.threads, g)|
    {
      assert pid !in PostsOfForum(b.posts, g);
    }
    forall u | u in r.threads
      ensures r.threads[u].posts == |PostsOfThread(r.posts, u)|
      ensures PostsOfThread(r.posts, u) != {}
    {
      assert pid !in PostsOfThread(b.posts, u);
      assert PostsOfThread(b.posts, u) <= PostsOfThread(r.posts, u);
    }
    assert Linked(r);
  }

  /** After any reply by `user`, the thread's latest post is theirs. */
  lemma ReplyLeavesUserLast(b: Board, t: int, user: int, content: string, now: int)
    requires Consistent(b) && t in b.threads
    ensures var r := Reply(b, t, user, content, now); MergesReply(r, t, user)
  {
    var r := Reply(b, t, user, content, now);
    if !MergesReply(b, t, user) {
      var pid := b.nextPostId;
      assert pid in PostsOfThread(r.posts, t);
      forall p | p in r.posts && r.posts[p].threadId == t ensures p <= pid {
        if p != pid {
          assert p in b.posts;
        }
      }
      assert LastPost(r.posts, t) == Some(pid);
    } else {
      assert PostsOfThread(r.posts, t) == PostsOfThread(b.posts, t);
      assert LastPost(r.posts, t) == LastPost(b.posts, t);
    }
  }

  /** A run of replies by one user adds at most one post: every reply after the first is merged. */
  lemma {:induction false} ReplyRunMerges(b: Board, t: int, user: int, c1: string, c2: string, now1: int, now2: int)
    requires Consistent(b) && t in b.threads
    ensures var b1 := Reply(b, t, user, c1, now1);
      && t in b1.threads
      && MergesReply(b1, t, user)
      && Reply(b1, t, user, c2, now2).threads[t].posts == b1.threads[t].posts
      && Reply(b1, t, user, c2, now2).forums == b1.forums
      && Reply(b1, t, user, c2, now2).posts.Keys == b1.posts.Keys
      && b1.threads[t].posts <= b.threads[t].posts + 1
  {
    ReplyLeavesUserLast(b, t, user, c1, now1);
  }

  /** A reply that makes a new post, followed by deleting that post, gives every counter back. */
  lemma {:induction false} ReplyThenDeleteRestoresCounters(b: Board, t: int, user: int, content: string, now: int)
    requires Consistent(b) && t in b.threads && !MergesReply(b, t, user)
    ensures var r := Reply(b, t, user, content, now);
      && t in r.threads
      && var back := DeletePost(r, t, b.nextPostId);
      && back.forums == b.forums
      && back.posts == b.posts
      && back.threads.Keys == b.threads.Keys
      && back.threads[t].posts == b.threads[t].posts
  {
    var r := Reply(b, t, user, content, now);
    var pid := b.nextPostId;
    var f := b.threads[t].forumId;
    assert pid !in b.posts;
    assert r.posts - {pid} == b.posts;
    ThreadQueryIsThreadPosts(b, t);
    assert PostsOfThreadIn(b.posts, t, f) != {};
    var back := DeletePost(r, t, pid);
    assert back.forums == b.forums;
  }

  /**
   * actionEdit: the post takes the new content and is marked edited at now;
   * the thread's `edited_post_at` moves to now, and its name becomes the
   * topic only when the post is the thread's first.
   */
  function Edit(b: Board, p: int, content: string, topic: string, now: int): Board
    requires p in b.posts && b.posts[p].threadId in b.threads
  {
    var post := b.posts[p];
    var t := post.threadId;
    var th := b.threads[t];
    var first := FirstPost(b.posts, t, th.forumId) == Some(p);
    b.(posts := b.posts[p := post.(content := content, edited := true, editedAt := now, updatedAt := now)],
       threads := b.threads[t := th.(name := if first then topic else th.name, editedPostAt := Some(now))])
  }

  /** Editing changes no counter and renames the thread only from its first post. */
  lemma {:induction false} EditConsistent(b: Board, p: int, content: string, topic: string, now: int)
    requires Consistent(b) && p in b.posts
    ensures b.posts[p].threadId in b.threads
    ensures var r := Edit(b, p, content, topic, now); var t := b.posts[p].threadId;
      && Consistent(r)
      && r.forums == b.forums
      && r.posts.Keys == b.posts.Keys
      && (r.threads[t].name != b.threads[t].name ==>
            forall q :: q in b.posts && b.posts[q].threadId == t ==> p <= q)
  {
    var r := Edit(b, p, content, topic, now);
    var t := b.posts[p].threadId;
    ThreadQueryIsThreadPosts(b, t);
    SamePlacePostSets(b.posts, p, r.posts[p]);
    SamePlaceThreadSets(b.threads, t, r.threads[t]);
    if r.threads[t].name != b.threads[t].name {
      forall q | q in b.posts && b.posts[q].threadId == t ensures p <= q {
        assert q in PostsOfThreadIn(b.posts, t, b.threads[t].forumId);
      }
    }
  }
}
