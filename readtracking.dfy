/**
 * Read tracking: the per-(user, thread) watermarks of the thread view table,
 * the rule by which viewing a post raises them (Post::markSeen), the unread
 * predicate and order of ThreadView::search, and the bulk "mark everything
 * seen" of the default controller.
 *
 * Comparisons with a NULL thread stamp are false, as in SQL; NULL sorts
 * before every stamp, as in MySQL.
 */
module ReadTracking {
  import opened Entities

  function Max(a: int, b: int): (m: int)
    ensures m >= a && m >= b && (m == a || m == b)
  {
    if a >= b then a else b
  }

  // ---------------------------------------------------------------------
  // Post::markSeen, one row
  // ---------------------------------------------------------------------

  /** What `edited_last_seen` starts at in a new row: `edited_at` unless it is empty, else `created_at`. */
  function FirstEditedSeen(p: Post): int
  {
    if p.editedAt != 0 then p.editedAt else p.createdAt
  }

  /** The row after markSeen of post p, given the row before (None when the user never viewed the thread). */
  function SeenRow(row: Option<ThreadView>, p: Post): ThreadView
  {
    match row
    case None => ThreadView(p.createdAt, FirstEditedSeen(p))
    case Some(v) =>
      if p.edited then
        (if v.editedLastSeen < p.editedAt then v.(editedLastSeen := p.editedAt) else v)
      else
        ThreadView(Max(v.newLastSeen, p.createdAt), Max(v.editedLastSeen, Max(p.createdAt, p.editedAt)))
  }

  /** Whether markSeen saves the row, and so adds one to the thread's `views`. */
  predicate SeenSaves(row: Option<ThreadView>, p: Post)
  {
    match row
    case None => true
    case Some(v) =>
      if p.edited then v.editedLastSeen < p.editedAt
      else v.newLastSeen < p.createdAt || v.editedLastSeen < Max(p.createdAt, p.editedAt)
  }

  /** An existing row is never lowered, and it is saved exactly when it changes. */
  lemma SeenRaisesOnly(v: ThreadView, p: Post)
    ensures SeenRow(Some(v), p).newLastSeen >= v.newLastSeen
    ensures SeenRow(Some(v), p).editedLastSeen >= v.editedLastSeen
    ensures p.edited ==> SeenRow(Some(v), p).newLastSeen == v.newLastSeen
    ensures SeenSaves(Some(v), p) <==> SeenRow(Some(v), p) != v
  {
  }

  /** After markSeen the row has caught up with the post it was called for. */
  lemma SeenCatchesUp(row: Option<ThreadView>, p: Post)
    ensures p.edited && p.editedAt != 0 ==> SeenRow(row, p).editedLastSeen >= p.editedAt
    ensures !p.edited || row.None? ==> SeenRow(row, p).newLastSeen >= p.createdAt
    ensures !p.edited && row.Some? ==> SeenRow(row, p).editedLastSeen >= Max(p.createdAt, p.editedAt)
  {
  }

  /** A post whose stamps are sane: created at a non-negative time, and edited, if at all, no earlier. */
  predicate WellStamped(p: Post)
  {
    p.createdAt >= 0 && (p.editedAt == 0 || p.editedAt >= p.createdAt)
  }

  /** An immediate second markSeen of the same post changes nothing. */
  lemma SeenTwiceIsSeenOnce(row: Option<ThreadView>, p: Post)
    requires WellStamped(p)
    ensures !SeenSaves(Some(SeenRow(row, p)), p)
    ensures SeenRow(Some(SeenRow(row, p)), p) == SeenRow(row, p)
  {
    if row.None? && !p.edited {
      assert Max(p.createdAt, p.editedAt) == FirstEditedSeen(p);
    }
  }

  // ---------------------------------------------------------------------
  // ThreadView::search
  // ---------------------------------------------------------------------

  /** SQL `watermark < stamp`: not true when the stamp is NULL. */
  predicate Below(watermark: int, stamp: Option<int>)
  {
    stamp.Some? && watermark < stamp.value
  }

  /** The where clause of ThreadView::search for thread t and the signed-in user. */
  predicate Unread(views: map<UserKey, ThreadView>, user: int, t: int, th: Thread)
  {
    var k := UserKey(user, t);
    || (k in views && Below(views[k].newLastSeen, th.newPostAt))
    || (k in views && Below(views[k].editedLastSeen, th.editedPostAt))
    || k !in views
  }

  /** The threads ThreadView::search lists. */
  function UnreadThreads(views: map<UserKey, ThreadView>, threads: map<int, Thread>, user: int): (r: set<int>)
    ensures r <= threads.Keys
  {
    set t | t in threads && Unread(views, user, t, threads[t])
  }

  /** A thread is listed exactly when the user never viewed it or a watermark lags behind a stamp. */
  lemma UnreadCases(views: map<UserKey, ThreadView>, threads: map<int, Thread>, user: int, t: int)
    requires t in threads
    ensures UserKey(user, t) !in views ==> t in UnreadThreads(views, threads, user)
    ensures UserKey(user, t) in views ==>
      var v := views[UserKey(user, t)];
      (t in UnreadThreads(views, threads, user) <==>
         Below(v.newLastSeen, threads[t].newPostAt) || Below(v.editedLastSeen, threads[t].editedPostAt))
  {
  }

  /** `later` holds every row of `earlier` for this user, none of them lower. */
  predicate Dominates(earlier: map<UserKey, ThreadView>, later: map<UserKey, ThreadView>, user: int)
  {
    forall k :: k in earlier && k.user == user ==>
      k in later && later[k].newLastSeen >= earlier[k].newLastSeen && later[k].editedLastSeen >= earlier[k].editedLastSeen
  }

  /** Raising watermarks, or adding rows, can only take threads off the unread list. */
  lemma RaisingOnlyRemoves(earlier: map<UserKey, ThreadView>, later: map<UserKey, ThreadView>,
                           threads: map<int, Thread>, user: int)
    requires Dominates(earlier, later, user)
    ensures UnreadThreads(later, threads, user) <= UnreadThreads(earlier, threads, user)
  {
    forall t | t in UnreadThreads(later, threads, user) ensures t in UnreadThreads(earlier, threads, user) {
      var k := UserKey(user, t);
      if k in earlier {
        assert k in later;
      }
    }
  }

  /**
   * The default order of ThreadView::search: `edited_post_at` ascending with
   * NULL first, then id ascending.
   */
  predicate ListedBefore(threads: map<int, Thread>, a: int, b: int)
    requires a in threads && b in threads
  {
    var ea := threads[a].editedPostAt;
    var eb := threads[b].editedPostAt;
    if ea == eb then a < b
    else ea.None? || (eb.Some? && ea.value < eb.value)
  }

  /** The order is strict and total on distinct threads, so it fixes one listing. */
  lemma ListedBeforeIsStrictTotal(threads: map<int, Thread>, a: int, b: int, c: int)
    requires a in threads && b in threads && c in threads
    ensures !ListedBefore(threads, a, a)
    ensures a != b ==> (ListedBefore(threads, a, b) <==> !ListedBefore(threads, b, a))
    ensures ListedBefore(threads, a, b) && ListedBefore(threads, b, c) ==> ListedBefore(threads, a, c)
  {
  }

  // ---------------------------------------------------------------------
  // actionMarkSeen
  // ---------------------------------------------------------------------

  /**
   * The rows after marking everything seen at now: each listed thread's row
   * (updated where it exists, inserted where it does not) holds now in both
   * watermarks; every other row is as it was.
   */
  function AllSeen(views: map<UserKey, ThreadView>, threads: map<int, Thread>, user: int, now: int): (r: map<UserKey, ThreadView>)
  {
    var listed := UnreadThreads(views, threads, user);
    map k | k in views.Keys + (set t | t in listed :: UserKey(user, t)) ::
      if k.user == user && k.target in listed then ThreadView(now, now) else views[k]
  }

  /** After marking everything seen, a thread is still listed only if a post came or was edited after now. */
  lemma AllSeenClears(views: map<UserKey, ThreadView>, threads: map<int, Thread>, user: int, now: int)
    ensures var r := AllSeen(views, threads, user, now);
      forall t :: t in UnreadThreads(r, threads, user) ==>
        Below(now, threads[t].newPostAt) || Below(now, threads[t].editedPostAt)
    ensures var r := AllSeen(views, threads, user, now);
      forall k :: k in views && k.user != user ==> k in r && r[k] == views[k]
  {
    var r := AllSeen(views, threads, user, now);
    var listed := UnreadThreads(views, threads, user);
    forall t | t in threads && t !in listed ensures t !in UnreadThreads(r, threads, user) {
      var k := UserKey(user, t);
      assert k in views;
      assert r[k] == views[k];
    }
    forall t | t in UnreadThreads(r, threads, user)
      ensures Below(now, threads[t].newPostAt) || Below(now, threads[t].editedPostAt)
    {
      var k := UserKey(user, t);
      assert t in listed;
      assert k in r && r[k] == ThreadView(now, now);
    }
  }
}
