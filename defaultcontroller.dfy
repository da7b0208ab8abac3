/**
 * The actions of the default controller that change the forum: deleting,
 * moving, creating, replying to and editing threads and posts, locking and
 * pinning, voting, and marking everything seen; with the lookups they start
 * from and the page arithmetic of the direct links.
 *
 * Each action is a method on the Database.  The permission checks of
 * `User::can` are passed in as booleans (the role hierarchy is not part of
 * this model), the signed-in user and the clock as parameters, and a request
 * parameter as a `Param`.  Every action first validates and then writes, so
 * an action that does not report `Done` leaves the tables as they were: the
 * source writes inside a transaction that it never commits on those paths.
 */
module DefaultController {
  import opened Entities
  import opened Boards
  import opened Mutations
  import opened Store
  import opened PostModel
  import opened ReadTracking
  import opened WordIndex
  import opened Tokenizer
  import Votes

  /** How an action ends. */
  datatype Outcome =
    | Done           // the change was committed
    | Shown          // no form was posted, or only a preview: the page is rendered
    | NotFound       // an id or slug does not lead to a row
    | Denied         // the user lacks the permission
    | ThreadLocked   // the thread is locked and the user may not update it
    | Rejected       // the posted data failed a check

  /** PHP's `empty()` on a request string: the empty string and "0". */
  predicate Blank(s: string)
  {
    s == "" || s == "0"
  }

  // ---------------------------------------------------------------------
  // Lookups
  // ---------------------------------------------------------------------

  /**
   * _verifyThread: the three ids are numbers of at least 1 and the slug is
   * not empty; category cid exists, forum fid exists in it and thread id
   * exists in that forum with that slug.  A guest finds only visible
   * categories and forums.
   */
  predicate VerifyThread(b: Board, cid: Param, fid: Param, id: Param, slug: string, guest: bool)
  {
    && IsId(cid) && IsId(fid) && IsId(id) && !Blank(slug)
    && cid.value in b.categories && (guest ==> b.categories[cid.value].visible)
    && fid.value in b.forums && b.forums[fid.value].categoryId == cid.value && (guest ==> b.forums[fid.value].visible)
    && id.value in b.threads
    && b.threads[id.value].categoryId == cid.value
    && b.threads[id.value].forumId == fid.value
    && b.threads[id.value].slug == slug
  }

  /** A guest finds a thread only where a signed-in user finds it too, and both find the same threads of visible places. */
  lemma GuestFindsLess(b: Board, cid: Param, fid: Param, id: Param, slug: string)
    ensures VerifyThread(b, cid, fid, id, slug, true) ==> VerifyThread(b, cid, fid, id, slug, false)
    ensures VerifyThread(b, cid, fid, id, slug, false)
              && b.categories[cid.value].visible && b.forums[fid.value].visible
            ==> VerifyThread(b, cid, fid, id, slug, true)
  {
  }

  /**
   * Every thread of a linked board is found from its own category, forum,
   * id and slug, as long as the ids are positive, the slug is not empty
   * and its category row exists.
   */
  lemma ThreadIsReachable(b: Board, t: int)
    requires Linked(b) && t in b.threads && t >= 1
    requires var th := b.threads[t]; th.forumId >= 1 && th.categoryId >= 1 && !Blank(th.slug) && th.categoryId in b.categories
    ensures var th := b.threads[t]; VerifyThread(b, Some(th.categoryId), Some(th.forumId), Some(t), th.slug, false)
  {
  }

  /** The lookups of the actions addressed by category, forum and thread id, without a slug or a visibility filter. */
  predicate ThreadFound(b: Board, cid: Param, fid: Param, tid: Param)
  {
    && IsId(cid) && IsId(fid) && IsId(tid)
    && cid.value in b.categories
    && fid.value in b.forums && b.forums[fid.value].categoryId == cid.value
    && tid.value in b.threads
    && b.threads[tid.value].categoryId == cid.value
    && b.threads[tid.value].forumId == fid.value
  }

  /** The post lookup that follows: post pid of thread tid in forum fid. */
  predicate PostFound(b: Board, cid: Param, fid: Param, tid: Param, pid: Param)
  {
    && ThreadFound(b, cid, fid, tid) && IsId(pid)
    && pid.value in b.posts
    && b.posts[pid.value].threadId == tid.value
    && b.posts[pid.value].forumId == fid.value
  }

  /** `$thread->locked == 0 || User::can(PERM_UPDATE_THREAD)`. */
  predicate MayWrite(b: Board, tid: Param, canUpdateThread: bool)
    requires tid.Some? && tid.value in b.threads
  {
    !b.threads[tid.value].locked || canUpdateThread
  }

  // ---------------------------------------------------------------------
  // The posted selection of actionDeleteposts and actionMoveposts
  // ---------------------------------------------------------------------

  /** The ids a selection names. */
  function Chosen(req: seq<Param>): set<int>
  {
    set i | 0 <= i < |req| && req[i].Some? :: req[i].value
  }

  /**
   * Every posted id is a number of at least 1 naming a post of thread t in
   * forum f, and no id is posted twice (the loop deletes or moves each post
   * it finds, so a repeated id no longer finds its post).
   */
  predicate Selectable(posts: map<int, Post>, t: int, f: int, req: seq<Param>)
  {
    && (forall i :: 0 <= i < |req| ==> IsId(req[i]) && req[i].value in PostsOfThreadIn(posts, t, f))
    && (forall i, j :: 0 <= i < j < |req| ==> req[i] != req[j])
  }

  /**
   * The `foreach ($posts as $post)` loop with its `$error` flag: the posts
   * it handles are set aside one by one, and the first id that is not a
   * positive number or does not find a post of thread t in forum f among
   * the rest stops it.  On success the selected ids are returned; there are
   * exactly as many as were posted, so `count($posts)` counts the posts.
   */
  method CheckSelection(posts: map<int, Post>, t: int, f: int, req: seq<Param>) returns (r: Option<set<int>>)
    ensures r.Some? <==> Selectable(posts, t, f, req)
    ensures r.Some? ==> r.value == Chosen(req) && |r.value| == |req| && r.value <= PostsOfThreadIn(posts, t, f)
  {
    var handled: set<int> := {};
    var i := 0;
    while i < |req|
      invariant 0 <= i <= |req|
      invariant forall j :: 0 <= j < i ==> IsId(req[j]) && req[j].value in PostsOfThreadIn(posts, t, f)
      invariant forall j, k :: 0 <= j < k < i ==> req[j] != req[k]
      invariant handled == set j | 0 <= j < i && req[j].Some? :: req[j].value
      invariant |handled| == i
      invariant handled <= PostsOfThreadIn(posts, t, f)
    {
      var x := req[i];
      if !IsId(x) {
        return None;
      }
      if x.value !in PostsOfThreadIn(posts - handled, t, f) {
        if x.value in handled {
          var j :| 0 <= j < i && req[j].Some? && req[j].value == x.value;
          assert req[j] == req[i];
        } else {
          assert x.value !in PostsOfThreadIn(posts, t, f);
        }
        return None;
      }
      assert x.value !in handled;
      handled := handled + {x.value};
      i := i + 1;
    }
    return Some(handled);
  }

  // ---------------------------------------------------------------------
  // The empty-thread rule
  // ---------------------------------------------------------------------

  /**
   * After n posts left thread t of forum f: the `thread_id AND forum_id`
   * count decides whether both counters drop by n or the thread is deleted
   * and the forum also loses a thread.
   */
  method Settle(db: Database, t: int, f: int, n: int)
    modifies db`forums, db`threads, db`posts
    ensures db.Board() == SettleSource(old(db.Board()), t, f, n)
  {
    if PostsOfThreadIn(db.posts, t, f) != {} {
      db.threads := WithThreadPosts(db.threads, t, -n);
      db.forums := WithForumCounters(db.forums, f, 0, -n);
    } else {
      db.threads := db.threads - {t};
      db.posts := Cascade(db.posts, t);
      db.forums := WithForumCounters(db.forums, f, -1, -n);
    }
  }

  // ---------------------------------------------------------------------
  // Deleting
  // ---------------------------------------------------------------------

  /**
   * actionDelete.  `confirm` is the posted form (None when nothing was
   * posted) holding the `thread` field, which must repeat the thread's id.
   */
  method Delete(db: Database, cid: Param, fid: Param, id: Param, slug: string, guest: bool,
                canDelete: bool, confirm: Option<Param>) returns (o: Outcome)
    requires db.Valid()
    modifies db`forums, db`threads, db`posts
    ensures db.Valid()
    ensures !VerifyThread(old(db.Board()), cid, fid, id, slug, guest) ==> o == NotFound
    ensures o == Done <==> VerifyThread(old(db.Board()), cid, fid, id, slug, guest) && canDelete && confirm == Some(id)
    ensures o == Done ==> db.Board() == DeleteThread(old(db.Board()), id.value)
    ensures o != Done ==> db.Board() == old(db.Board())
  {
    if !VerifyThread(db.Board(), cid, fid, id, slug, guest) {
      return NotFound;
    }
    if !canDelete {
      return Denied;
    }
    if confirm.None? {
      return Shown;
    }
    if !(IsId(confirm.value) && confirm.value.value == id.value) {
      return Rejected;
    }
    var t := id.value;
    var th := db.threads[t];
    DeleteThreadConsistent(db.Board(), t);
    db.threads := db.threads - {t};
    db.posts := Cascade(db.posts, t);
    db.forums := WithForumCounters(db.forums, fid.value, -1, -th.posts);
    o := Done;
  }

  /**
   * actionDeletepost.  The thread lookup comes first, then the lock, then
   * the post; `canDelete` is `PERM_DELETE_OWN_POST` on the post or
   * `PERM_DELETE_POST`, and the posted `post` field must repeat its id.
   */
  method DeletePost(db: Database, cid: Param, fid: Param, tid: Param, pid: Param,
                    canUpdateThread: bool, canDelete: bool, confirm: Option<Param>) returns (o: Outcome)
    requires db.Valid()
    modifies db`forums, db`threads, db`posts
    ensures db.Valid()
    ensures !ThreadFound(old(db.Board()), cid, fid, tid) ==> o == NotFound
    ensures o == ThreadLocked <==>
      ThreadFound(old(db.Board()), cid, fid, tid) && IsId(pid) && !MayWrite(old(db.Board()), tid, canUpdateThread)
    ensures o == Done <==>
      && PostFound(old(db.Board()), cid, fid, tid, pid) && MayWrite(old(db.Board()), tid, canUpdateThread)
      && canDelete && confirm == Some(pid)
    ensures o == Done ==> db.Board() == Mutations.DeletePost(old(db.Board()), tid.value, pid.value)
    ensures o != Done ==> db.Board() == old(db.Board())
  {
    if !(IsId(cid) && IsId(fid) && IsId(tid) && IsId(pid)) || !ThreadFound(db.Board(), cid, fid, tid) {
      return NotFound;
    }
    if !MayWrite(db.Board(), tid, canUpdateThread) {
      return ThreadLocked;
    }
    if !PostFound(db.Board(), cid, fid, tid, pid) {
      return NotFound;
    }
    if !canDelete {
      return Denied;
    }
    if confirm.None? {
      return Shown;
    }
    if !(IsId(confirm.value) && confirm.value.value == pid.value) {
      return Rejected;
    }
    var t, f, p := tid.value, fid.value, pid.value;
    assert p in PostsOfThread(db.posts, t);
    DeletePostsConsistent(db.Board(), t, {p});
    assert |{p}| == 1;
    db.posts := db.posts - {p};
    Settle(db, t, f, 1);
    o := Done;
  }

  /**
   * actionDeleteposts.  `req` is the posted `post` array (None when nothing
   * was posted; an empty or non-array value is the empty sequence).
   */
  method DeletePosts(db: Database, cid: Param, fid: Param, id: Param, slug: string, guest: bool,
                     canDelete: bool, req: Option<seq<Param>>) returns (o: Outcome)
    requires db.Valid()
    modifies db`forums, db`threads, db`posts
    ensures db.Valid()
    ensures !VerifyThread(old(db.Board()), cid, fid, id, slug, guest) ==> o == NotFound
    ensures o == Done <==>
      && VerifyThread(old(db.Board()), cid, fid, id, slug, guest) && canDelete
      && req.Some? && req.value != [] && Selectable(old(db.posts), id.value, fid.value, req.value)
    ensures o == Done ==> db.Board() == Mutations.DeletePosts(old(db.Board()), id.value, Chosen(req.value))
    ensures o == Done ==> |Chosen(req.value)| == |req.value|
    ensures o != Done ==> db.Board() == old(db.Board())
  {
    if !VerifyThread(db.Board(), cid, fid, id, slug, guest) {
      return NotFound;
    }
    if !canDelete {
      return Denied;
    }
    if req.None? {
      return Shown;
    }
    if req.value == [] {
      return Rejected;
    }
    var t, f := id.value, fid.value;
    var selected := CheckSelection(db.posts, t, f, req.value);
    if selected.None? {
      return Rejected;
    }
    var sel := selected.value;
    ThreadQueryIsThreadPosts(db.Board(), t);
    DeletePostsConsistent(db.Board(), t, sel);
    db.posts := db.posts - sel;
    Settle(db, t, f, |req.value|);
    o := Done;
  }

  // ---------------------------------------------------------------------
  // Moving
  // ---------------------------------------------------------------------

  /**
   * actionMove.  `target` is the posted form (None when nothing was posted)
   * holding the `forum` field: a number of at least 1, not the thread's own
   * forum, naming an existing forum.  The old parent the source looks up is
   * forum fid, which the verification already found.
   */
  method Move(db: Database, cid: Param, fid: Param, id: Param, slug: string, guest: bool,
              canMove: bool, target: Option<Param>) returns (o: Outcome)
    requires db.Valid()
    modifies db`forums, db`threads, db`posts
    ensures db.Valid()
    ensures !VerifyThread(old(db.Board()), cid, fid, id, slug, guest) ==> o == NotFound
    ensures o == Done <==>
      && VerifyThread(old(db.Board()), cid, fid, id, slug, guest) && canMove
      && target.Some? && IsId(target.value) && target.value.value != fid.value && target.value.value in old(db.forums)
    ensures o == Done ==> db.Board() == MoveThread(old(db.Board()), id.value, target.value.value)
    ensures o != Done ==> db.Board() == old(db.Board())
  {
    if !VerifyThread(db.Board(), cid, fid, id, slug, guest) {
      return NotFound;
    }
    if !canMove {
      return Denied;
    }
    if target.None? {
      return Shown;
    }
    if !(IsId(target.value) && target.value.value != fid.value) {
      return Rejected;
    }
    var dest := target.value.value;
    if dest !in db.forums {
      return Rejected;
    }
    MoveThreadConsistent(db.Board(), id.value, dest);
    Relocate(db, id.value, dest);
    o := Done;
  }

  /** The writes of actionMove: both forums' counters, the thread's parent, and every post's forum_id. */
  method Relocate(db: Database, t: int, dest: int)
    requires t in db.threads && dest in db.forums
    modifies db`forums, db`threads, db`posts
    ensures db.Board() == MoveThread(old(db.Board()), t, dest)
  {
    var th := db.threads[t];
    var n := th.posts;
    var category := db.forums[dest].categoryId;
    db.forums := WithForumCounters(db.forums, th.forumId, -1, -n);
    db.forums := WithForumCounters(db.forums, dest, 1, n);
    db.threads := db.threads[t := th.(forumId := dest, categoryId := category)];
    db.posts := Refile(db.posts, t, dest);
  }

  /**
   * The destination checks of actionMoveposts: a number of at least 0 that is
   * not the thread itself; 0 asks for a new thread, which needs a name and a
   * parent forum id of at least 1 naming a forum; any other number must name
   * an existing thread, in any forum.
   */
  predicate MoveTargetOk(b: Board, t: int, newThread: Param, newName: string, newForum: Param)
  {
    && newThread.Some? && newThread.value >= 0
    && (newThread.value == 0 ==> !Blank(newName) && IsId(newForum) && newForum.value in b.forums)
    && newThread.value != t
    && (newThread.value != 0 ==> newThread.value in b.threads)
  }

  /** Each selected post is saved into thread d, the source is settled, and the destination and its forum gain n posts. */
  method Transfer(db: Database, t: int, f: int, sel: set<int>, d: int, n: int, now: int)
    requires t in db.threads && d in db.threads && f == db.threads[t].forumId && n == |sel|
    modifies db`forums, db`threads, db`posts
    ensures db.Board() == Mutations.MovePosts(old(db.Board()), t, sel, d, now)
  {
    var df := db.threads[d].forumId;
    db.posts := Reassign(db.posts, sel, d, df, now);
    Settle(db, t, f, n);
    db.threads := WithThreadPosts(db.threads, d, n);
    db.forums := WithForumCounters(db.forums, df, 0, n);
  }

  /** The new thread of actionMoveposts is saved empty, its forum counts it, and the posts move into it. */
  method TransferToNew(db: Database, t: int, f: int, sel: set<int>, parent: int, name: string, slug: string,
                       user: int, n: int, now: int)
    requires t in db.threads && t < db.nextThreadId && parent in db.forums && f == db.threads[t].forumId && n == |sel|
    modifies db`forums, db`threads, db`posts, db`nextThreadId
    ensures db.Board() == MovePostsToNew(old(db.Board()), t, sel, parent, name, slug, user, now)
  {
    var d := db.nextThreadId;
    db.threads := db.threads[d := Thread(db.forums[parent].categoryId, parent, name, slug, user, 0, 0, false, false, None, None)];
    db.nextThreadId := d + 1;
    db.forums := WithForumCounters(db.forums, parent, 1, 0);
    Transfer(db, t, f, sel, d, n, now);
  }

  /**
   * actionMoveposts.  `req` is the posted `post` array, `newThread`,
   * `newName` and `newForum` the posted destination; `newSlug` is the slug
   * the Thread model gives a new thread, and `user` the signed-in user who
   * becomes its author.  Into a new thread the posts move as in
   * Mutations.MovePostsToNew, with the parent forum counting the thread.
   */
  method MovePosts(db: Database, cid: Param, fid: Param, id: Param, slug: string, guest: bool, canMove: bool,
                   user: int, req: Option<seq<Param>>, newThread: Param, newName: string, newSlug: string,
                   newForum: Param, now: int) returns (o: Outcome)
    requires db.Valid()
    modifies db`forums, db`threads, db`posts, db`nextThreadId
    ensures db.Valid()
    ensures !VerifyThread(old(db.Board()), cid, fid, id, slug, guest) ==> o == NotFound
    ensures o == Done <==>
      && VerifyThread(old(db.Board()), cid, fid, id, slug, guest) && canMove
      && req.Some? && req.value != []
      && MoveTargetOk(old(db.Board()), id.value, newThread, newName, newForum)
      && Selectable(old(db.posts), id.value, fid.value, req.value)
    ensures o == Done && newThread.value != 0 ==>
      db.Board() == Mutations.MovePosts(old(db.Board()), id.value, Chosen(req.value), newThread.value, now)
    ensures o == Done && newThread.value == 0 ==>
      db.Board() == MovePostsToNew(old(db.Board()), id.value, Chosen(req.value), newForum.value, newName, newSlug, user, now)
    ensures o != Done ==> db.Board() == old(db.Board())
  {
    if !VerifyThread(db.Board(), cid, fid, id, slug, guest) {
      return NotFound;
    }
    if !canMove {
      return Denied;
    }
    if req.None? {
      return Shown;
    }
    if req.value == [] {
      return Rejected;
    }
    if !(newThread.Some? && newThread.value >= 0) {
      return Rejected;
    }
    if newThread.value == 0 && (Blank(newName) || !IsId(newForum)) {
      return Rejected;
    }
    var t, f := id.value, fid.value;
    if newThread.value == t {
      return Rejected;
    }
    if newThread.value == 0 {
      if newForum.value !in db.forums {
        return Rejected;
      }
    } else if newThread.value !in db.threads {
      return Rejected;
    }
    // The source creates the new thread before this loop; it holds no post,
    // so the loop finds the same posts either way.
    var selected := CheckSelection(db.posts, t, f, req.value);
    if selected.None? {
      return Rejected;
    }
    var sel := selected.value;
    ThreadQueryIsThreadPosts(db.Board(), t);
    if newThread.value == 0 {
      var parent := newForum.value;
      MovePostsToNewConsistent(db.Board(), t, sel, parent, newName, newSlug, user, now);
      assert t < db.nextThreadId;
      TransferToNew(db, t, f, sel, parent, newName, newSlug, user, |req.value|, now);
    } else {
      MovePostsConsistent(db.Board(), t, sel, newThread.value, now);
      Transfer(db, t, f, sel, newThread.value, |req.value|, now);
    }
    o := Done;
  }

  // ---------------------------------------------------------------------
  // Writing: new threads, replies, edits
  // ---------------------------------------------------------------------

  /** The view row of key k, if there is one. */
  function RowOf(views: map<UserKey, ThreadView>, k: UserKey): Option<ThreadView>
  {
    if k in views then Some(views[k]) else None
  }

  /** The board b after Post::markSeen of its post p for user, given the view rows before: p's thread gains a view when the row is saved. */
  function AfterMarkSeen(b: Board, views: map<UserKey, ThreadView>, user: int, p: int): Board
    requires p in b.posts
  {
    var post := b.posts[p];
    b.(threads := Viewed(b.threads, post.threadId, SeenSaves(RowOf(views, UserKey(user, post.threadId)), post)))
  }

  /** A post id at or above the allocator has no junction row in a valid database. */
  lemma UnusedPostUnlinked(db: Database)
    requires db.Valid()
    ensures LinkedIds(db.junction, db.nextPostId) == {}
  {
    forall r | r in db.junction ensures r.postId != db.nextPostId {
    }
  }

  /** The forum lookup of actionNewThread: both ids at least 1, the category exists and holds forum fid. */
  predicate ForumFound(b: Board, cid: Param, fid: Param)
  {
    && IsId(cid) && IsId(fid)
    && cid.value in b.categories
    && fid.value in b.forums && b.forums[fid.value].categoryId == cid.value
  }

  /** The subscription rows after markSeen of thread t by user, and, when asked, a subscription for a user who had none. */
  function Subscribed(subscriptions: map<UserKey, SubState>, k: UserKey, subscribe: bool): (r: map<UserKey, SubState>)
    ensures k in r <==> k in subscriptions || subscribe
    ensures k in r ==> r[k] == PostSeen
    ensures forall j :: j in r && j != k ==> j in subscriptions && r[j] == subscriptions[j]
  {
    if subscribe && k !in subscriptions then subscriptions[k := PostSeen] else Acknowledged(subscriptions, k)
  }

  /** The index after afterSave of post p keeps Indexed when p lies below the allocator. */
  lemma IndexedAfterSave(db: Database, before: seq<JunctionRow>, p: int)
    requires p < db.nextPostId
    requires forall r :: r in before ==> r.postId < db.nextPostId
    requires WordIndex.ValidVocabulary(db.vocabulary, db.nextWordId)
    requires forall id, q :: Links(db.junction, id, q) <= 1
    requires forall r :: r in db.junction ==> r.postId == p || r in before
    ensures db.Indexed()
  {
  }

  /** The first writes of actionNewThread: the thread with no posts, the forum counting it, and the first post. */
  method InsertThread(db: Database, f: int, name: string, slug: string, user: int, content: string, now: int)
    requires f in db.forums
    modifies db`forums, db`threads, db`posts, db`nextThreadId, db`nextPostId
    ensures db.forums == WithForumCounters(old(db.forums), f, 1, 0)
    ensures db.threads == old(db.threads)[old(db.nextThreadId) :=
      Thread(old(db.forums)[f].categoryId, f, name, slug, user, 0, 0, false, false, None, None)]
    ensures db.posts == old(db.posts)[old(db.nextPostId) := Post(old(db.nextThreadId), f, user, content, 0, 0, false, 0, now, now)]
    ensures db.nextThreadId == old(db.nextThreadId) + 1 && db.nextPostId == old(db.nextPostId) + 1
  {
    var nid := db.nextThreadId;
    db.threads := db.threads[nid := Thread(db.forums[f].categoryId, f, name, slug, user, 0, 0, false, false, None, None)];
    db.nextThreadId := nid + 1;
    db.forums := WithForumCounters(db.forums, f, 1, 0);
    var pid := db.nextPostId;
    db.posts := db.posts[pid := Post(nid, f, user, content, 0, 0, false, 0, now, now)];
    db.nextPostId := pid + 1;
  }

  /** After the first post is saved: the forum's and the thread's `posts` rise by one and both stamps move to now. */
  method CountNewPost(db: Database, f: int, t: int, touchNew: bool, now: int)
    requires t in db.threads
    modifies db`forums, db`threads
    ensures db.forums == WithForumCounters(old(db.forums), f, 0, 1)
    ensures db.threads == old(db.threads)[t := old(db.threads)[t].(
      posts := old(db.threads)[t].posts + 1, newPostAt := Some(now), editedPostAt := Some(now))]
  {
    db.forums := WithForumCounters(db.forums, f, 0, 1);
    db.threads := db.threads[t := db.threads[t].(posts := db.threads[t].posts + 1)];
    db.threads := db.threads[t := db.threads[t].(newPostAt := Some(now))];
    db.threads := db.threads[t := db.threads[t].(editedPostAt := Some(now))];
  }

  /**
   * The writes of actionNewThread, in the source's order: the thread, the
   * forum's `threads`, the first post and its words, markSeen, the `posts`
   * counters and stamps, and the subscription.
   */
  method WriteNewThread(db: Database, f: int, name: string, slug: string, user: int, content: string,
                        subscribe: bool, now: int)
    requires f in db.forums
    requires WordIndex.ValidVocabulary(db.vocabulary, db.nextWordId)
    requires forall id, q :: Links(db.junction, id, q) <= 1
    requires LinkedIds(db.junction, db.nextPostId) == {}
    modifies db`forums, db`threads, db`posts, db`nextThreadId, db`nextPostId, db`views, db`subscriptions,
             db`vocabulary, db`nextWordId, db`junction
    ensures var b := Mutations.NewThread(old(db.Board()), f, name, slug, user, content, now);
      var pid := old(db.nextPostId);
      var k := UserKey(user, old(db.nextThreadId));
      && pid in b.posts
      && db.Board() == AfterMarkSeen(b, old(db.views), user, pid)
      && db.views == old(db.views)[k := SeenRow(RowOf(old(db.views), k), b.posts[pid])]
      && db.subscriptions == Subscribed(old(db.subscriptions), k, subscribe)
    ensures WordIndex.ValidVocabulary(db.vocabulary, db.nextWordId)
    ensures forall id, q :: Links(db.junction, id, q) <= 1
    ensures LinkedIds(db.junction, old(db.nextPostId)) == IdsOf(db.vocabulary, PrepareWords(content))
    ensures forall r :: r in db.junction ==> r.postId == old(db.nextPostId) || r in old(db.junction)
  {
    ghost var b := Mutations.NewThread(db.Board(), f, name, slug, user, content, now);
    var nid, pid := db.nextThreadId, db.nextPostId;
    StartNewThread(db, f, name, slug, user, content, now);
    FinishNewPost(db, f, nid, pid, b, user, subscribe, now);
  }

  /** The thread, the forum's `threads`, and the first post with its words. */
  method StartNewThread(db: Database, f: int, name: string, slug: string, user: int, content: string, now: int)
    requires f in db.forums
    requires WordIndex.ValidVocabulary(db.vocabulary, db.nextWordId)
    requires forall id, q :: Links(db.junction, id, q) <= 1
    requires LinkedIds(db.junction, db.nextPostId) == {}
    modifies db`forums, db`threads, db`posts, db`nextThreadId, db`nextPostId, db`vocabulary, db`nextWordId, db`junction
    ensures db.forums == WithForumCounters(old(db.forums), f, 1, 0)
    ensures db.threads == old(db.threads)[old(db.nextThreadId) :=
      Thread(old(db.forums)[f].categoryId, f, name, slug, user, 0, 0, false, false, None, None)]
    ensures db.posts == old(db.posts)[old(db.nextPostId) := Post(old(db.nextThreadId), f, user, content, 0, 0, false, 0, now, now)]
    ensures db.nextThreadId == old(db.nextThreadId) + 1 && db.nextPostId == old(db.nextPostId) + 1
    ensures WordIndex.ValidVocabulary(db.vocabulary, db.nextWordId)
    ensures forall id, q :: Links(db.junction, id, q) <= 1
    ensures LinkedIds(db.junction, old(db.nextPostId)) == IdsOf(db.vocabulary, PrepareWords(content))
    ensures forall r :: r in db.junction ==> r.postId == old(db.nextPostId) || r in old(db.junction)
  {
    var pid := db.nextPostId;
    InsertThread(db, f, name, slug, user, content, now);
    AfterSave(db, pid, true);
  }

  /**
   * After a new post pid of thread nid is saved: markSeen, the forum's and
   * the thread's `posts` and both stamps, and the subscription.  Board b is
   * the intended board without the view.
   */
  method FinishNewPost(db: Database, f: int, nid: int, pid: int, ghost b: Board, user: int, subscribe: bool, now: int)
    requires pid in db.posts && nid in db.threads && db.posts[pid].threadId == nid
    requires f in db.forums && pid in b.posts && b.posts[pid] == db.posts[pid]
    requires b.forums == WithForumCounters(db.forums, f, 0, 1) && b.posts == db.posts
    requires b.threads == db.threads[nid := db.threads[nid].(posts := db.threads[nid].posts + 1, newPostAt := Some(now), editedPostAt := Some(now))]
    requires b.categories == db.categories && b.nextThreadId == db.nextThreadId && b.nextPostId == db.nextPostId
    modifies db`forums, db`threads, db`views, db`subscriptions
    ensures var k := UserKey(user, nid);
      && db.Board() == AfterMarkSeen(b, old(db.views), user, pid)
      && db.views == old(db.views)[k := SeenRow(RowOf(old(db.views), k), b.posts[pid])]
      && db.subscriptions == Subscribed(old(db.subscriptions), k, subscribe)
  {
    var k := UserKey(user, nid);
    ghost var saved := SeenSaves(RowOf(db.views, k), b.posts[pid]);
    MarkSeen(db, Some(user), pid);
    CountNewPost(db, f, nid, true, now);
    assert db.threads == Viewed(b.threads, nid, saved);
    if subscribe {
      db.subscriptions := db.subscriptions[k := PostSeen];
    }
  }

  /**
   * actionNewThread.  `posted` says whether the form was loaded and
   * `threadValid` stands for the Thread model's own rules, which are taken
   * to check the first post by the rules of Post as well; `slug` is the slug
   * the Thread model derives from the name.
   */
  method NewThread(db: Database, canCreate: bool, user: int, cid: Param, fid: Param, posted: bool,
                   threadValid: bool, preview: bool, name: string, slug: string, content: string,
                   subscribe: bool, now: int) returns (o: Outcome)
    requires db.Valid()
    modifies db`forums, db`threads, db`posts, db`nextThreadId, db`nextPostId, db`views, db`subscriptions,
             db`vocabulary, db`nextWordId, db`junction
    ensures db.Valid()
    ensures o == Done <==>
      && canCreate && ForumFound(old(db.Board()), cid, fid)
      && posted && threadValid && Errors(content, name, true) == {} && !preview
    ensures o == Done ==>
      var b := Mutations.NewThread(old(db.Board()), fid.value, name, slug, user, content, now);
      var pid := old(db.nextPostId);
      var k := UserKey(user, old(db.nextThreadId));
      && pid in b.posts
      && db.Board() == AfterMarkSeen(b, old(db.views), user, pid)
      && db.views == old(db.views)[k := SeenRow(RowOf(old(db.views), k), b.posts[pid])]
      && db.subscriptions == Subscribed(old(db.subscriptions), k, subscribe)
      && LinkedIds(db.junction, pid) == IdsOf(db.vocabulary, PrepareWords(content))
    ensures o != Done ==> unchanged(db)
  {
    if !canCreate {
      return Denied;
    }
    if !ForumFound(db.Board(), cid, fid) {
      return NotFound;
    }
    if !posted {
      return Shown;
    }
    if !threadValid || Errors(content, name, true) != {} {
      return Rejected;
    }
    if preview {
      return Shown;
    }
    var f := fid.value;
    ghost var b := Mutations.NewThread(db.Board(), f, name, slug, user, content, now);
    ghost var rows0 := db.junction;
    var nid, pid := db.nextThreadId, db.nextPostId;
    UnusedPostUnlinked(db);
    NewThreadConsistent(db.Board(), f, name, slug, user, content, now);
    WriteNewThread(db, f, name, slug, user, content, subscribe, now);
    ViewedKeepsConsistent(b, nid, SeenSaves(RowOf(old(db.views), UserKey(user, nid)), b.posts[pid]));
    IndexedAfterSave(db, rows0, pid);
    o := Done;
  }

  /**
   * The post of actionPost, with its words: appended to the thread's latest
   * post when the replying user wrote that one, a new post otherwise.
   */
  method SaveReply(db: Database, t: int, f: int, user: int, content: string, now: int) returns (p: int, merged: bool)
    requires t in db.threads && f == db.threads[t].forumId
    requires WordIndex.ValidVocabulary(db.vocabulary, db.nextWordId)
    requires forall id, q :: Links(db.junction, id, q) <= 1
    requires LinkedIds(db.junction, db.nextPostId) == {}
    modifies db`posts, db`nextPostId, db`vocabulary, db`nextWordId, db`junction
    ensures merged == MergesReply(old(db.Board()), t, user)
    ensures p == ReplyPost(old(db.Board()), t, user)
    ensures db.posts == Mutations.Reply(old(db.Board()), t, user, content, now).posts
    ensures db.nextPostId == Mutations.Reply(old(db.Board()), t, user, content, now).nextPostId
    ensures p in db.posts && db.posts[p].threadId == t
    ensures WordIndex.ValidVocabulary(db.vocabulary, db.nextWordId)
    ensures forall id, q :: Links(db.junction, id, q) <= 1
    ensures LinkedIds(db.junction, p) == IdsOf(db.vocabulary, PrepareWords(db.posts[p].content))
    ensures forall r :: r in db.junction ==> r.postId == p || r in old(db.junction)
  {
    var last := LastPost(db.posts, t);
    if last.Some? && db.posts[last.value].authorId == user {
      p, merged := last.value, true;
      var lp := db.posts[p];
      db.posts := db.posts[p := lp.(content := lp.content + "<hr>" + content, edited := true, editedAt := now, updatedAt := now)];
      AfterSave(db, p, false);
    } else {
      p, merged := db.nextPostId, false;
      db.posts := db.posts[p := Post(t, f, user, content, 0, 0, false, 0, now, now)];
      db.nextPostId := p + 1;
      AfterSave(db, p, true);
    }
  }

  /** After the reply is appended to post p of thread t: markSeen, the thread's `edited_post_at`, and the subscription. */
  method FinishMerge(db: Database, t: int, p: int, ghost b: Board, user: int, subscribe: bool, now: int)
    requires p in db.posts && t in db.threads && db.posts[p].threadId == t
    requires p in b.posts && b.posts == db.posts && b.forums == db.forums
    requires b.threads == db.threads[t := db.threads[t].(editedPostAt := Some(now))]
    requires b.categories == db.categories && b.nextThreadId == db.nextThreadId && b.nextPostId == db.nextPostId
    modifies db`threads, db`views, db`subscriptions
    ensures var k := UserKey(user, t);
      && db.Board() == AfterMarkSeen(b, old(db.views), user, p)
      && db.views == old(db.views)[k := SeenRow(RowOf(old(db.views), k), b.posts[p])]
      && db.subscriptions == Subscribed(old(db.subscriptions), k, subscribe)
  {
    var k := UserKey(user, t);
    ghost var saved := SeenSaves(RowOf(db.views, k), b.posts[p]);
    MarkSeen(db, Some(user), p);
    db.threads := db.threads[t := db.threads[t].(editedPostAt := Some(now))];
    assert db.threads == Viewed(b.threads, t, saved);
    if subscribe && k !in db.subscriptions {
      db.subscriptions := db.subscriptions[k := PostSeen];
    }
  }

  /** The writes of actionPost, in the source's order. */
  method WriteReply(db: Database, t: int, f: int, user: int, content: string, subscribe: bool, now: int) returns (p: int)
    requires t in db.threads && f == db.threads[t].forumId && f in db.forums
    requires WordIndex.ValidVocabulary(db.vocabulary, db.nextWordId)
    requires forall id, q :: Links(db.junction, id, q) <= 1
    requires LinkedIds(db.junction, db.nextPostId) == {}
    modifies db`forums, db`threads, db`posts, db`nextPostId, db`views, db`subscriptions,
             db`vocabulary, db`nextWordId, db`junction
    ensures var b := Mutations.Reply(old(db.Board()), t, user, content, now);
      var k := UserKey(user, t);
      && p == ReplyPost(old(db.Board()), t, user)
      && p in b.posts && b.posts[p].threadId == t
      && db.Board() == AfterMarkSeen(b, old(db.views), user, p)
      && db.views == old(db.views)[k := SeenRow(RowOf(old(db.views), k), b.posts[p])]
      && db.subscriptions == Subscribed(old(db.subscriptions), k, subscribe)
    ensures WordIndex.ValidVocabulary(db.vocabulary, db.nextWordId)
    ensures forall id, q :: Links(db.junction, id, q) <= 1
    ensures LinkedIds(db.junction, p) == IdsOf(db.vocabulary, PrepareWords(db.posts[p].content))
    ensures forall r :: r in db.junction ==> r.postId == p || r in old(db.junction)
  {
    ghost var b := Mutations.Reply(db.Board(), t, user, content, now);
    var merged;
    p, merged := SaveReply(db, t, f, user, content, now);
    if merged {
      FinishMerge(db, t, p, b, user, subscribe, now);
    } else {
      FinishNewPost(db, f, t, p, b, user, subscribe, now);
    }
  }

  /**
   * actionPost.  `canCreate` is `PERM_CREATE_POST`, `canUpdateThread`
   * `PERM_UPDATE_THREAD` on the thread, `posted` whether the form was
   * loaded and `preview` whether the preview button was pressed.  The reply
   * lands in post ReplyPost of the thread.
   */
  method Reply(db: Database, canCreate: bool, user: int, cid: Param, fid: Param, tid: Param, canUpdateThread: bool,
               posted: bool, preview: bool, content: string, subscribe: bool, now: int) returns (o: Outcome)
    requires db.Valid()
    modifies db`forums, db`threads, db`posts, db`nextPostId, db`views, db`subscriptions,
             db`vocabulary, db`nextWordId, db`junction
    ensures db.Valid()
    ensures canCreate && !ThreadFound(old(db.Board()), cid, fid, tid) ==> o == NotFound
    ensures o == ThreadLocked <==> canCreate && ThreadFound(old(db.Board()), cid, fid, tid) && !MayWrite(old(db.Board()), tid, canUpdateThread)
    ensures o == Done <==>
      && canCreate && ThreadFound(old(db.Board()), cid, fid, tid) && MayWrite(old(db.Board()), tid, canUpdateThread)
      && posted && Errors(content, "", false) == {} && !preview
    ensures o == Done ==>
      var b := Mutations.Reply(old(db.Board()), tid.value, user, content, now);
      var p := ReplyPost(old(db.Board()), tid.value, user);
      var k := UserKey(user, tid.value);
      && p in b.posts
      && db.Board() == AfterMarkSeen(b, old(db.views), user, p)
      && db.views == old(db.views)[k := SeenRow(RowOf(old(db.views), k), b.posts[p])]
      && db.subscriptions == Subscribed(old(db.subscriptions), k, subscribe)
      && LinkedIds(db.junction, p) == IdsOf(db.vocabulary, PrepareWords(b.posts[p].content))
    ensures o != Done ==> unchanged(db)
  {
    if !canCreate {
      return Denied;
    }
    if !ThreadFound(db.Board(), cid, fid, tid) {
      return NotFound;
    }
    if !MayWrite(db.Board(), tid, canUpdateThread) {
      return ThreadLocked;
    }
    if !posted {
      return Shown;
    }
    if Errors(content, "", false) != {} {
      return Rejected;
    }
    if preview {
      return Shown;
    }
    var t, f := tid.value, fid.value;
    ghost var b := Mutations.Reply(db.Board(), t, user, content, now);
    ghost var rows0 := db.junction;
    ghost var views0 := db.views;
    UnusedPostUnlinked(db);
    ReplyConsistent(db.Board(), t, user, content, now);
    var p := WriteReply(db, t, f, user, content, subscribe, now);
    ViewedKeepsConsistent(b, t, SeenSaves(RowOf(views0, UserKey(user, t)), b.posts[p]));
    IndexedAfterSave(db, rows0, p);
    o := Done;
  }

  /** The post of actionEdit takes the new content and is marked edited; its words are re-indexed. */
  method SaveEdit(db: Database, p: int, content: string, now: int)
    requires p in db.posts
    requires WordIndex.ValidVocabulary(db.vocabulary, db.nextWordId)
    requires forall id, q :: Links(db.junction, id, q) <= 1
    modifies db`posts, db`vocabulary, db`nextWordId, db`junction
    ensures db.posts == old(db.posts)[p := old(db.posts)[p].(content := content, edited := true, editedAt := now, updatedAt := now)]
    ensures WordIndex.ValidVocabulary(db.vocabulary, db.nextWordId)
    ensures forall id, q :: Links(db.junction, id, q) <= 1
    ensures LinkedIds(db.junction, p) == IdsOf(db.vocabulary, PrepareWords(content))
    ensures forall r :: r in db.junction ==> r.postId == p || r in old(db.junction)
  {
    db.posts := db.posts[p := db.posts[p].(content := content, edited := true, editedAt := now, updatedAt := now)];
    AfterSave(db, p, false);
  }

  /** After the edited post p of thread t is saved: the thread's name (the topic when p is its first post), markSeen, and `edited_post_at`. */
  method FinishEdit(db: Database, t: int, p: int, name: string, ghost b: Board, user: int, now: int)
    requires p in db.posts && t in db.threads && db.posts[p].threadId == t
    requires p in b.posts && b.posts == db.posts && b.forums == db.forums
    requires b.threads == db.threads[t := db.threads[t].(name := name, editedPostAt := Some(now))]
    requires b.categories == db.categories && b.nextThreadId == db.nextThreadId && b.nextPostId == db.nextPostId
    modifies db`threads, db`views, db`subscriptions
    ensures var k := UserKey(user, t);
      && db.Board() == AfterMarkSeen(b, old(db.views), user, p)
      && db.views == old(db.views)[k := SeenRow(RowOf(old(db.views), k), b.posts[p])]
      && db.subscriptions == Acknowledged(old(db.subscriptions), k)
  {
    var k := UserKey(user, t);
    ghost var saved := SeenSaves(RowOf(db.views, k), b.posts[p]);
    db.threads := db.threads[t := db.threads[t].(name := name)];
    MarkSeen(db, Some(user), p);
    db.threads := db.threads[t := db.threads[t].(editedPostAt := Some(now))];
    assert db.threads == Viewed(b.threads, t, saved);
  }

  /** The writes of actionEdit, in the source's order. */
  method WriteEdit(db: Database, t: int, p: int, first: bool, content: string, topic: string, user: int, now: int)
    requires p in db.posts && t in db.threads && db.posts[p].threadId == t
    requires first == (FirstPost(db.posts, t, db.threads[t].forumId) == Some(p))
    requires WordIndex.ValidVocabulary(db.vocabulary, db.nextWordId)
    requires forall id, q :: Links(db.junction, id, q) <= 1
    modifies db`threads, db`posts, db`views, db`subscriptions, db`vocabulary, db`nextWordId, db`junction
    ensures var b := Mutations.Edit(old(db.Board()), p, content, topic, now);
      var k := UserKey(user, t);
      && p in b.posts
      && db.Board() == AfterMarkSeen(b, old(db.views), user, p)
      && db.views == old(db.views)[k := SeenRow(RowOf(old(db.views), k), b.posts[p])]
      && db.subscriptions == Acknowledged(old(db.subscriptions), k)
    ensures WordIndex.ValidVocabulary(db.vocabulary, db.nextWordId)
    ensures forall id, q :: Links(db.junction, id, q) <= 1
    ensures LinkedIds(db.junction, p) == IdsOf(db.vocabulary, PrepareWords(content))
    ensures forall r :: r in db.junction ==> r.postId == p || r in old(db.junction)
  {
    ghost var b := Mutations.Edit(db.Board(), p, content, topic, now);
    var name := if first then topic else db.threads[t].name;
    SaveEdit(db, p, content, now);
    FinishEdit(db, t, p, name, b, user, now);
  }

  /**
   * actionEdit.  `canUpdatePost` is `PERM_UPDATE_OWN_POST` on the post or
   * `PERM_UPDATE_POST`; `topic` is the topic after the form is loaded (the
   * thread's name unless a new one was posted), which the rules check and
   * the thread takes only when the post is the thread's first.
   */
  method Edit(db: Database, user: int, cid: Param, fid: Param, tid: Param, pid: Param, canUpdateThread: bool,
              canUpdatePost: bool, posted: bool, preview: bool, content: string, topic: string, now: int)
    returns (o: Outcome)
    requires db.Valid()
    modifies db`threads, db`posts, db`views, db`subscriptions, db`vocabulary, db`nextWordId, db`junction
    ensures db.Valid()
    ensures !(ThreadFound(old(db.Board()), cid, fid, tid) && IsId(pid)) ==> o == NotFound
    ensures o == ThreadLocked <==>
      ThreadFound(old(db.Board()), cid, fid, tid) && IsId(pid) && !MayWrite(old(db.Board()), tid, canUpdateThread)
    ensures o == Done <==>
      && PostFound(old(db.Board()), cid, fid, tid, pid) && MayWrite(old(db.Board()), tid, canUpdateThread)
      && canUpdatePost && posted && !preview
      && Errors(content, topic, FirstPost(old(db.posts), tid.value, fid.value) == Some(pid.value)) == {}
    ensures o == Done ==>
      var b := Mutations.Edit(old(db.Board()), pid.value, content, topic, now);
      var k := UserKey(user, tid.value);
      && db.Board() == AfterMarkSeen(b, old(db.views), user, pid.value)
      && db.views == old(db.views)[k := SeenRow(RowOf(old(db.views), k), b.posts[pid.value])]
      && db.subscriptions == Acknowledged(old(db.subscriptions), k)
      && LinkedIds(db.junction, pid.value) == IdsOf(db.vocabulary, PrepareWords(content))
    ensures o != Done ==> unchanged(db)
  {
    if !(IsId(cid) && IsId(fid) && IsId(tid) && IsId(pid)) || !ThreadFound(db.Board(), cid, fid, tid) {
      return NotFound;
    }
    if !MayWrite(db.Board(), tid, canUpdateThread) {
      return ThreadLocked;
    }
    if !PostFound(db.Board(), cid, fid, tid, pid) {
      return NotFound;
    }
    if !canUpdatePost {
      return Denied;
    }
    var t, f, p := tid.value, fid.value, pid.value;
    var first := FirstPost(db.posts, t, f) == Some(p);
    if !posted {
      return Shown;
    }
    if Errors(content, topic, first) != {} {
      return Rejected;
    }
    if preview {
      return Shown;
    }
    ghost var b := Mutations.Edit(db.Board(), p, content, topic, now);
    ghost var rows0 := db.junction;
    ghost var views0 := db.views;
    EditConsistent(db.Board(), p, content, topic, now);
    WriteEdit(db, t, p, first, content, topic, user, now);
    ViewedKeepsConsistent(b, t, SeenSaves(RowOf(views0, UserKey(user, t)), b.posts[p]));
    IndexedAfterSave(db, rows0, p);
    o := Done;
  }

  // ---------------------------------------------------------------------
  // Locking and pinning
  // ---------------------------------------------------------------------

  /** The threads after `locked` of thread t is flipped. */
  function FlipLock(threads: map<int, Thread>, t: int): (r: map<int, Thread>)
    requires t in threads
    ensures r.Keys == threads.Keys
    ensures r[t].locked == !threads[t].locked && r[t].(locked := threads[t].locked) == threads[t]
    ensures forall u :: u in r && u != t ==> r[u] == threads[u]
  {
    threads[t := threads[t].(locked := !threads[t].locked)]
  }

  /** The threads after `pinned` of thread t is flipped. */
  function FlipPin(threads: map<int, Thread>, t: int): (r: map<int, Thread>)
    requires t in threads
    ensures r.Keys == threads.Keys
    ensures r[t].pinned == !threads[t].pinned && r[t].(pinned := threads[t].pinned) == threads[t]
    ensures forall u :: u in r && u != t ==> r[u] == threads[u]
  {
    threads[t := threads[t].(pinned := !threads[t].pinned)]
  }

  /** Flipping twice restores the threads. */
  lemma FlipTwice(threads: map<int, Thread>, t: int)
    requires t in threads
    ensures FlipLock(FlipLock(threads, t), t) == threads
    ensures FlipPin(FlipPin(threads, t), t) == threads
  {
    assert FlipLock(FlipLock(threads, t), t)[t] == threads[t];
    assert FlipPin(FlipPin(threads, t), t)[t] == threads[t];
  }

  /**
   * actionLock.  `canLock` is `PERM_LOCK_THREAD` on the thread.  The thread
   * stays where it is, so the same request finds it again.
   */
  method Lock(db: Database, cid: Param, fid: Param, id: Param, slug: string, guest: bool, canLock: bool)
    returns (o: Outcome)
    requires db.Valid()
    modifies db`threads
    ensures db.Valid()
    ensures !VerifyThread(old(db.Board()), cid, fid, id, slug, guest) ==> o == NotFound
    ensures o == Done <==> VerifyThread(old(db.Board()), cid, fid, id, slug, guest) && canLock
    ensures o == Done ==> db.threads == FlipLock(old(db.threads), id.value) && VerifyThread(db.Board(), cid, fid, id, slug, guest)
    ensures o != Done ==> db.threads == old(db.threads)
  {
    if !VerifyThread(db.Board(), cid, fid, id, slug, guest) {
      return NotFound;
    }
    if !canLock {
      return Denied;
    }
    var t := id.value;
    SamePlaceThreadSets(db.threads, t, FlipLock(db.threads, t)[t]);
    db.threads := db.threads[t := db.threads[t].(locked := !db.threads[t].locked)];
    o := Done;
  }

  /** actionPin.  `canPin` is `PERM_PIN_THREAD` on the thread. */
  method Pin(db: Database, cid: Param, fid: Param, id: Param, slug: string, guest: bool, canPin: bool)
    returns (o: Outcome)
    requires db.Valid()
    modifies db`threads
    ensures db.Valid()
    ensures !VerifyThread(old(db.Board()), cid, fid, id, slug, guest) ==> o == NotFound
    ensures o == Done <==> VerifyThread(old(db.Board()), cid, fid, id, slug, guest) && canPin
    ensures o == Done ==> db.threads == FlipPin(old(db.threads), id.value) && VerifyThread(db.Board(), cid, fid, id, slug, guest)
    ensures o != Done ==> db.threads == old(db.threads)
  {
    if !VerifyThread(db.Board(), cid, fid, id, slug, guest) {
      return NotFound;
    }
    if !canPin {
      return Denied;
    }
    var t := id.value;
    SamePlaceThreadSets(db.threads, t, FlipPin(db.threads, t)[t]);
    db.threads := db.threads[t := db.threads[t].(pinned := !db.threads[t].pinned)];
    o := Done;
  }

  // ---------------------------------------------------------------------
  // Voting
  // ---------------------------------------------------------------------

  /** How actionThumb answers. */
  datatype VoteOutcome =
    | NotAjax        // not an AJAX request: redirected to the index
    | SignInFirst    // a guest
    | VoteError      // the post id or the thumb is missing or wrong, or the post does not exist
    | LockedThread   // the post's thread is locked
    | OwnPost        // a vote on one's own post
    | LimitReached   // ten votes in the current hour
    | VoteSaved      // the vote was recorded

  /** The cached vote window of user u. */
  function WindowOf(votes: map<int, Votes.VoteWindow>, u: int): Option<Votes.VoteWindow>
  {
    if u in votes then Some(votes[u]) else None
  }

  /** The user's thumb on post p, if there is one. */
  function ThumbOf(thumbs: map<UserKey, int>, k: UserKey): Option<int>
  {
    if k in thumbs then Some(thumbs[k]) else None
  }

  /** Every thumb is +1 or -1 and every post's `likes` and `dislikes` count its thumbs. */
  ghost predicate VotesTallied(thumbs: map<UserKey, int>, posts: map<int, Post>)
  {
    && Votes.ThumbsValid(thumbs)
    && forall p :: p in posts ==> Votes.Tallied(thumbs, p, posts[p].likes, posts[p].dislikes)
  }

  /** The posts after post p's `likes` and `dislikes` move by the change c. */
  function Retallied(posts: map<int, Post>, p: int, c: Votes.ThumbChange): (r: map<int, Post>)
    requires p in posts
    ensures r.Keys == posts.Keys
    ensures r[p].likes == posts[p].likes + c.dLikes && r[p].dislikes == posts[p].dislikes + c.dDislikes
    ensures r[p].(likes := posts[p].likes, dislikes := posts[p].dislikes) == posts[p]
    ensures forall q :: q in r && q != p ==> r[q] == posts[q]
  {
    posts[p := posts[p].(likes := posts[p].likes + c.dLikes, dislikes := posts[p].dislikes + c.dDislikes)]
  }

  /** The thumb and tally writes of an accepted vote. */
  method SaveThumb(db: Database, u: int, p: int, v: Votes.Vote)
    requires p in db.posts
    modifies db`thumbs, db`posts
    ensures var k := UserKey(u, p);
      var c := Votes.ThumbStep(ThumbOf(old(db.thumbs), k), v);
      && db.thumbs == old(db.thumbs)[k := c.thumb]
      && db.posts == Retallied(old(db.posts), p, c)
  {
    var k := UserKey(u, p);
    var post := db.posts[p];
    if k in db.thumbs {
      var x := db.thumbs[k];
      if x == 1 && v == Votes.Down {
        db.thumbs := db.thumbs[k := -1];
        db.posts := db.posts[p := post.(likes := post.likes - 1, dislikes := post.dislikes + 1)];
      } else if x == -1 && v == Votes.Up {
        db.thumbs := db.thumbs[k := 1];
        db.posts := db.posts[p := post.(likes := post.likes + 1, dislikes := post.dislikes - 1)];
      } else {
        assert Votes.ThumbStep(Some(x), v) == Votes.ThumbChange(x, 0, 0);
        assert db.thumbs[k := x] == db.thumbs;
        assert Retallied(db.posts, p, Votes.ThumbChange(x, 0, 0)) == db.posts;
      }
    } else {
      db.thumbs := db.thumbs[k := if v == Votes.Up then 1 else -1];
      if v == Votes.Up {
        db.posts := db.posts[p := post.(likes := post.likes + 1)];
      } else {
        db.posts := db.posts[p := post.(dislikes := post.dislikes + 1)];
      }
    }
  }

  /** The writes of an accepted vote: the thumb, the post's tallies, and the window. */
  method RecordVote(db: Database, u: int, p: int, v: Votes.Vote, start: int, now: int)
    requires p in db.posts && (start != 0 ==> u in db.votes)
    modifies db`thumbs, db`posts, db`votes
    ensures var k := UserKey(u, p);
      var c := Votes.ThumbStep(ThumbOf(old(db.thumbs), k), v);
      && db.thumbs == old(db.thumbs)[k := c.thumb]
      && db.posts == Retallied(old(db.posts), p, c)
      && db.votes == old(db.votes)[u := Votes.NextWindow(WindowOf(old(db.votes), u), start, now)]
    ensures db.Board() == old(db.Board()).(posts := db.posts)
    ensures VotesTallied(old(db.thumbs), old(db.posts)) ==> VotesTallied(db.thumbs, db.posts)
  {
    if VotesTallied(db.thumbs, db.posts) {
      RecordVoteKeepsTally(db.thumbs, db.posts, u, p, v);
    }
    SaveThumb(db, u, p, v);
    if start == 0 {
      db.votes := db.votes[u := Votes.VoteWindow(1, now + Votes.WindowLength)];
    } else {
      db.votes := db.votes[u := db.votes[u].(count := start + 1)];
    }
  }

  /** A recorded vote keeps every post's tallies equal to its thumbs. */
  lemma RecordVoteKeepsTally(thumbs: map<UserKey, int>, posts: map<int, Post>, u: int, p: int, v: Votes.Vote)
    requires VotesTallied(thumbs, posts) && p in posts
    ensures var k := UserKey(u, p);
      var c := Votes.ThumbStep(ThumbOf(thumbs, k), v);
      VotesTallied(thumbs[k := c.thumb], Retallied(posts, p, c))
  {
    var k := UserKey(u, p);
    var c := Votes.ThumbStep(ThumbOf(thumbs, k), v);
    var after := thumbs[k := c.thumb];
    Votes.ThumbStepKeepsTally(thumbs, u, p, posts[p].likes, posts[p].dislikes, v);
    forall q, x | q != p ensures Votes.ThumbsOf(after, q, x) == Votes.ThumbsOf(thumbs, q, x) {
    }
  }

  /** Changing a post's tallies in place keeps the board consistent. */
  lemma RetalliedConsistent(b: Board, p: int, c: Votes.ThumbChange)
    requires Consistent(b) && p in b.posts
    ensures Consistent(b.(posts := Retallied(b.posts, p, c)))
  {
    SamePlacePostSets(b.posts, p, Retallied(b.posts, p, c)[p]);
  }

  /**
   * actionThumb.  `user` is the signed-in user (None for a guest), `postId`
   * the posted post id and `vote` the posted thumb (None unless it is 'up'
   * or 'down').  A repeated vote changes no thumb and no tally but still
   * counts against the hourly limit.
   */
  method Thumb(db: Database, ajax: bool, user: Option<int>, postId: Param, vote: Option<Votes.Vote>, now: int)
    returns (o: VoteOutcome)
    requires db.Valid()
    modifies db`thumbs, db`posts, db`votes
    ensures db.Valid()
    ensures o == VoteSaved <==>
      && ajax && user.Some? && IsId(postId) && vote.Some? && postId.value in old(db.posts)
      && !old(db.threads)[old(db.posts)[postId.value].threadId].locked
      && old(db.posts)[postId.value].authorId != user.value
      && Votes.StartCount(WindowOf(old(db.votes), user.value), now).Some?
    ensures o == LimitReached ==>
      user.Some? && var w := WindowOf(old(db.votes), user.value);
      w.Some? && w.value.expire >= now && w.value.count >= Votes.MaxVotes
    ensures o == VoteSaved ==>
      var u, p := user.value, postId.value;
      var k := UserKey(u, p);
      var c := Votes.ThumbStep(ThumbOf(old(db.thumbs), k), vote.value);
      var w := WindowOf(old(db.votes), u);
      && db.thumbs == old(db.thumbs)[k := c.thumb]
      && db.posts == Retallied(old(db.posts), p, c)
      && db.votes == old(db.votes)[u := Votes.NextWindow(w, Votes.StartCount(w, now).value, now)]
    ensures o != VoteSaved ==> unchanged(db)
    ensures VotesTallied(old(db.thumbs), old(db.posts)) ==> VotesTallied(db.thumbs, db.posts)
  {
    if !ajax {
      return NotAjax;
    }
    if user.None? {
      return SignInFirst;
    }
    if !(IsId(postId) && vote.Some?) {
      return VoteError;
    }
    var u, p := user.value, postId.value;
    if p !in db.posts {
      return VoteError;
    }
    var post := db.posts[p];
    if db.threads[post.threadId].locked {
      return LockedThread;
    }
    if post.authorId == u {
      return OwnPost;
    }
    var start := Votes.StartCount(WindowOf(db.votes, u), now);
    if start.None? {
      return LimitReached;
    }
    var c := Votes.ThumbStep(ThumbOf(db.thumbs, UserKey(u, p)), vote.value);
    RetalliedConsistent(db.Board(), p, c);
    RecordVote(db, u, p, vote.value, start.value, now);
    o := VoteSaved;
  }

  // ---------------------------------------------------------------------
  // Marking everything seen
  // ---------------------------------------------------------------------

  /** The user's view row of thread th exists and lags behind one of its stamps. */
  predicate Lags(views: map<UserKey, ThreadView>, user: int, t: int, th: Thread)
  {
    var k := UserKey(user, t);
    k in views && (Below(views[k].newLastSeen, th.newPostAt) || Below(views[k].editedLastSeen, th.editedPostAt))
  }

  /** The threads whose view row for the user lags behind one of the thread's stamps. */
  function Lagging(views: map<UserKey, ThreadView>, threads: map<int, Thread>, user: int): set<int>
  {
    set t | t in threads && Lags(views, user, t, threads[t])
  }

  /** The threads the user has no view row for. */
  function Unviewed(views: map<UserKey, ThreadView>, threads: map<int, Thread>, user: int): set<int>
  {
    set t | t in threads && UserKey(user, t) !in views
  }

  /** The two queries of actionMarkSeen together find the unread threads of ThreadView::search. */
  lemma QueriesFindUnread(views: map<UserKey, ThreadView>, threads: map<int, Thread>, user: int)
    ensures Lagging(views, threads, user) + Unviewed(views, threads, user) == UnreadThreads(views, threads, user)
    ensures Lagging(views, threads, user) * Unviewed(views, threads, user) == {}
  {
    forall t | t in UnreadThreads(views, threads, user)
      ensures t in Lagging(views, threads, user) + Unviewed(views, threads, user)
    {
      UnreadCases(views, threads, user, t);
    }
  }

  /**
   * The two `foreach` loops of actionMarkSeen: the first collects the threads
   * whose row lags, the second those without a row.
   */
  method CollectUnread(views: map<UserKey, ThreadView>, threads: map<int, Thread>, user: int)
    returns (lagging: set<int>, missing: set<int>)
    ensures lagging == Lagging(views, threads, user)
    ensures missing == Unviewed(views, threads, user)
  {
    lagging := {};
    var todo := threads.Keys;
    while todo != {}
      invariant todo <= threads.Keys
      invariant forall t :: t in lagging <==> t in threads && t !in todo && Lags(views, user, t, threads[t])
      decreases |todo|
    {
      if forall x :: x !in todo {
        assert false;
      }
      var t :| t in todo;
      var k := UserKey(user, t);
      if k in views && (Below(views[k].newLastSeen, threads[t].newPostAt) || Below(views[k].editedLastSeen, threads[t].editedPostAt)) {
        lagging := lagging + {t};
      }
      todo := todo - {t};
    }
    assert forall t :: t in lagging <==> t in Lagging(views, threads, user);
    missing := {};
    todo := threads.Keys;
    while todo != {}
      invariant todo <= threads.Keys
      invariant forall t :: t in missing <==> t in threads && t !in todo && UserKey(user, t) !in views
      decreases |todo|
    {
      if forall x :: x !in todo {
        assert false;
      }
      var t :| t in todo;
      if UserKey(user, t) !in views {
        missing := missing + {t};
      }
      todo := todo - {t};
    }
    assert forall t :: t in missing <==> t in Unviewed(views, threads, user);
  }

  /** The batch update: the user's rows of the given threads hold now in both watermarks. */
  function RaisedRows(views: map<UserKey, ThreadView>, user: int, batch: set<int>, now: int): (r: map<UserKey, ThreadView>)
    ensures r.Keys == views.Keys
  {
    map k | k in views :: if k.user == user && k.target in batch then ThreadView(now, now) else views[k]
  }

  /** The batch insert: a row at now for the user and each given thread. */
  function InsertedRows(views: map<UserKey, ThreadView>, user: int, batch: set<int>, now: int): (r: map<UserKey, ThreadView>)
    ensures r.Keys == views.Keys + set t | t in batch :: UserKey(user, t)
  {
    views + map t | t in batch :: UserKey(user, t) := ThreadView(now, now)
  }

  /** Updating the lagging rows and then inserting the missing ones marks every unread thread seen. */
  lemma MarkAllSeenSteps(views: map<UserKey, ThreadView>, threads: map<int, Thread>, user: int, now: int)
    ensures AllSeen(views, threads, user, now) ==
      InsertedRows(RaisedRows(views, user, Lagging(views, threads, user), now), user, Unviewed(views, threads, user), now)
  {
    QueriesFindUnread(views, threads, user);
    var lhs := AllSeen(views, threads, user, now);
    var rhs := InsertedRows(RaisedRows(views, user, Lagging(views, threads, user), now), user, Unviewed(views, threads, user), now);
    assert lhs.Keys == rhs.Keys;
    forall k | k in lhs ensures lhs[k] == rhs[k] {
      if k.user == user && k.target in Unviewed(views, threads, user) {
        assert k == UserKey(user, k.target);
      }
    }
  }

  /**
   * actionMarkSeen.  For a signed-in user every lagging row is set to now in
   * both watermarks and a row at now is inserted for every thread without
   * one, so the rows become AllSeen of the old ones.
   */
  method MarkAllSeen(db: Database, user: Option<int>, now: int) returns (o: Outcome)
    modifies db`views
    ensures o == Done <==> user.Some?
    ensures o == Done ==> db.views == AllSeen(old(db.views), db.threads, user.value, now)
    ensures o != Done ==> db.views == old(db.views)
  {
    if user.None? {
      return Denied;
    }
    var u := user.value;
    var lagging, missing := CollectUnread(db.views, db.threads, u);
    MarkAllSeenSteps(db.views, db.threads, u, now);
    if lagging != {} {
      db.views := RaisedRows(db.views, u, lagging, now);
    } else {
      assert RaisedRows(db.views, u, lagging, now) == db.views;
    }
    if missing != {} {
      db.views := InsertedRows(db.views, u, missing, now);
    } else {
      assert InsertedRows(db.views, u, missing, now) == db.views;
    }
    o := Done;
  }

  // ---------------------------------------------------------------------
  // Direct links: actionShow and actionLast
  // ---------------------------------------------------------------------

  /** Posts per page of a thread (Post::search). */
  const PageSize: int := 10

  /** Where a direct link redirects: the index, or a thread page with an optional page number and post anchor. */
  datatype Link =
    | ToIndex
    | ToThread(cid: int, fid: int, tid: int, slug: string, page: Option<int>, anchor: Option<int>)

  /** The `page` parameter is added only past the first page. */
  function PageParam(page: int): (r: Option<int>)
    ensures r.Some? <==> page > 1
    ensures r.Some? ==> r.value == page
  {
    if page > 1 then Some(page) else None
  }

  /** The posts of thread t listed before post p: those with a smaller id. */
  function Earlier(posts: map<int, Post>, t: int, p: int): set<int>
  {
    set q | q in posts && posts[q].threadId == t && q < p
  }

  /**
   * The page of its thread that shows post p.  The listing orders posts by
   * id, ten to a page, and p stands after |Earlier| posts, so it is on the
   * page whose ten positions hold that index.
   */
  function PageOf(posts: map<int, Post>, p: int): (page: int)
    requires p in posts
    ensures page >= 1
    ensures (page - 1) * PageSize <= |Earlier(posts, posts[p].threadId, p)| < page * PageSize
  {
    |Earlier(posts, posts[p].threadId, p)| / PageSize + 1
  }

  /** actionShow: the page of the post's thread that shows it, anchored at the post. */
  function Show(b: Board, id: Param): (r: Link)
    ensures r.ToThread? <==> IsId(id) && id.value in b.posts && b.posts[id.value].threadId in b.threads
    ensures r.ToThread? ==>
      var post := b.posts[id.value];
      && r.tid == post.threadId && r.fid == post.forumId
      && r.cid == b.threads[post.threadId].categoryId && r.slug == b.threads[post.threadId].slug
      && r.anchor == Some(id.value)
      && r.page == PageParam(PageOf(b.posts, id.value))
  {
    if !IsId(id) || id.value !in b.posts then ToIndex
    else
      var post := b.posts[id.value];
      if post.threadId !in b.threads then ToIndex
      else
        var th := b.threads[post.threadId];
        ToThread(th.categoryId, post.forumId, post.threadId, th.slug, PageParam(PageOf(b.posts, id.value)), Some(id.value))
  }

  /** actionLast as written: `floor(count / 10) + 1` over the thread's posts. */
  function LastAsWritten(b: Board, id: Param): (r: Link)
    ensures r.ToThread? <==> IsId(id) && id.value in b.threads
    ensures r.ToThread? ==> r.page == PageParam(|PostsOfThread(b.posts, id.value)| / PageSize + 1) && r.anchor.None?
  {
    if !IsId(id) || id.value !in b.threads then ToIndex
    else
      var th := b.threads[id.value];
      ToThread(th.categoryId, th.forumId, id.value, th.slug, PageParam(|PostsOfThread(b.posts, id.value)| / PageSize + 1), None)
  }

  /** The page that holds the last of n posts: the first page when there are none. */
  function LastPage(n: int): (page: int)
    ensures page >= 1
  {
    if n <= 0 then 1 else (n - 1) / PageSize + 1
  }

  /** actionLast as intended: the page that holds the thread's last post. */
  function Last(b: Board, id: Param): (r: Link)
    ensures r.ToThread? <==> IsId(id) && id.value in b.threads
  {
    if !IsId(id) || id.value !in b.threads then ToIndex
    else
      var th := b.threads[id.value];
      ToThread(th.categoryId, th.forumId, id.value, th.slug, PageParam(LastPage(|PostsOfThread(b.posts, id.value)|)), None)
  }

  /** The thread's latest post is preceded by all its other posts. */
  lemma EarlierThanLast(posts: map<int, Post>, t: int)
    requires LastPost(posts, t).Some?
    ensures var m := LastPost(posts, t).value;
      Earlier(posts, t, m) == PostsOfThread(posts, t) - {m} && |Earlier(posts, t, m)| == |PostsOfThread(posts, t)| - 1
  {
    var m := LastPost(posts, t).value;
    assert Earlier(posts, t, m) == PostsOfThread(posts, t) - {m};
  }

  /** Last links to the page that actionShow gives the thread's latest post. */
  lemma LastIsPageOfLastPost(b: Board, t: int)
    requires t >= 1 && t in b.threads && LastPost(b.posts, t).Some?
    ensures Last(b, Some(t)).page == PageParam(PageOf(b.posts, LastPost(b.posts, t).value))
  {
    EarlierThanLast(b.posts, t);
  }

  /**
   * The link as written agrees with Last except when the post count is a
   * positive multiple of ten: then it names the page after the last one.
   */
  lemma {:induction false} LastAsWrittenOvershoots(b: Board, t: int)
    requires t >= 1 && t in b.threads
    ensures var n := |PostsOfThread(b.posts, t)|;
      LastAsWritten(b, Some(t)).page ==
        PageParam(if n > 0 && n % PageSize == 0 then LastPage(n) + 1 else LastPage(n))
  {
    var n := |PostsOfThread(b.posts, t)|;
    var q, m := n / PageSize, n % PageSize;
    assert n == q * PageSize + m && 0 <= m < PageSize;
    if n > 0 && m == 0 {
      assert n - 1 == (q - 1) * PageSize + (PageSize - 1);
      assert (n - 1) / PageSize == q - 1;
    } else if n > 0 {
      assert n - 1 == q * PageSize + (m - 1);
      assert (n - 1) / PageSize == q;
    }
  }

  /** A thread of ten posts: actionLast as written links to page 2, which shows no post. */
  lemma LastAsWrittenTenPosts(b: Board, t: int)
    requires t >= 1 && t in b.threads && |PostsOfThread(b.posts, t)| == 10
    ensures LastAsWritten(b, Some(t)).page == Some(2)
    ensures Last(b, Some(t)).page == None
  {
  }

  // ---------------------------------------------------------------------
  // The query words of actionSearch
  // ---------------------------------------------------------------------

  /** The words longer than two characters, in order. */
  function LongWords(words: seq<string>): (r: seq<string>)
    ensures |r| <= |words|
    ensures forall w :: w in r <==> w in words && |w| > 2
  {
    if words == [] then []
    else
      assert forall w :: w in words <==> w == words[0] || w in words[1..];
      (if |words[0]| > 2 then [words[0]] else []) + LongWords(words[1..])
  }

  /** The `foreach ($words as $word)` loop that keeps the words longer than two characters. */
  method CheckWords(words: seq<string>) returns (checked: seq<string>)
    ensures checked == LongWords(words)
  {
    checked := [];
    var i := |words|;
    while i > 0
      invariant 0 <= i <= |words|
      invariant checked == LongWords(words[i..])
    {
      i := i - 1;
      assert words[i..][1..] == words[i + 1..];
      if |words[i]| > 2 {
        checked := [words[i]] + checked;
      }
    }
    assert words[0..] == words;
  }

  /** How the search form ends. */
  datatype SearchOutcome =
    | NoSearch                              // the form was not posted or did not validate
    | NeedsInput                            // neither words nor an author
    | WordsTooShort                         // no word of at least three characters
    | Run(query: string, author: string)    // SearchForm::searchAdvanced on this query

  /** The filtered query has at least three characters exactly when some word is long enough. */
  lemma {:induction false} JoinedLength(words: seq<string>)
    requires forall i :: 0 <= i < |words| ==> |words[i]| > 2
    ensures |Join(words)| < 3 <==> words == []
  {
    if |words| > 1 {
      assert |Join(words)| >= |words[0]|;
    }
  }

  /**
   * The query part of actionSearch.  `valid` says the form was loaded and
   * validated; an empty query is left as it is; otherwise runs of white space
   * become one space, the words of at most two characters are dropped, and
   * the query is refused when what is left is shorter than three characters.
   */
  method Search(valid: bool, query: string, author: string) returns (r: SearchOutcome)
    ensures r == NoSearch <==> !valid
    ensures r == NeedsInput <==> valid && Blank(query) && Blank(author)
    ensures r == WordsTooShort <==> valid && !Blank(query) && LongWords(Split(Collapse(query))) == []
    ensures r.Run? ==> r.author == author
    ensures r.Run? && Blank(query) ==> r.query == query
    ensures r.Run? && !Blank(query) ==>
      && Split(r.query) == LongWords(Split(Collapse(query)))
      && |r.query| >= 3
  {
    if !valid {
      return NoSearch;
    }
    if Blank(query) && Blank(author) {
      return NeedsInput;
    }
    if Blank(query) {
      return Run(query, author);
    }
    var words := Split(Collapse(query));
    var checked := CheckWords(words);
    var q := Join(checked);
    JoinedLength(checked);
    if |q| < 3 {
      return WordsTooShort;
    }
    assert forall i :: 0 <= i < |checked| ==> ' ' !in checked[i] by {
      forall i | 0 <= i < |checked| ensures ' ' !in checked[i] {
        assert checked[i] in checked;
        assert checked[i] in words;
      }
    }
    SplitJoin(checked);
    r := Run(q, author);
  }
}
