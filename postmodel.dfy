/**
 * The Post model: its validation rules, Post::markSeen, and Post::afterSave,
 * which keeps the word index in step with the post's content.
 */
module PostModel {
  import opened Entities
  import opened Boards
  import opened Store
  import opened ReadTracking
  import opened Tokenizer
  import opened WordIndex

  // ---------------------------------------------------------------------
  // Validation rules
  // ---------------------------------------------------------------------

  /** The characters PHP's `trim` removes: space, tab, line feed, carriage return, NUL and vertical tab. */
  predicate TrimChar(c: char)
  {
    c == ' ' || c == '\t' || c == '\n' || c == '\r' || c as int == 0 || c as int == 11
  }

  /** PHP's `trim`. */
  function Trim(s: string): (r: string)
    ensures |r| <= |s|
    decreases |s|
  {
    if s == [] then s
    else if TrimChar(s[0]) then Trim(s[1..])
    else if TrimChar(s[|s| - 1]) then Trim(s[..|s| - 1])
    else s
  }

  /** A value the required validator rejects trims to nothing: it is made of trimmed characters only. */
  lemma {:induction false} TrimEmptyIffBlank(s: string)
    ensures Trim(s) == [] <==> forall i :: 0 <= i < |s| ==> TrimChar(s[i])
    decreases |s|
  {
    if s != [] {
      if TrimChar(s[0]) {
        TrimEmptyIffBlank(s[1..]);
        assert forall i :: 1 <= i < |s| ==> s[i] == s[1..][i - 1];
      } else if TrimChar(s[|s| - 1]) {
        TrimEmptyIffBlank(s[..|s| - 1]);
        assert forall i :: 0 <= i < |s| - 1 ==> s[i] == s[..|s| - 1][i];
      }
    }
  }

  datatype PostError = TopicBlank | ContentBlank | ContentTooShort

  /**
   * The rules of Post::rules, in order: the topic is required only in the
   * first-post scenario; the content is required, and a content that is
   * not blank must hold at least 10 characters.  The HTML filters are taken
   * as leaving the text unchanged.
   */
  function Errors(content: string, topic: string, firstPost: bool): (r: set<PostError>)
    ensures TopicBlank in r ==> firstPost
    ensures ContentTooShort in r ==> |content| < 10
    ensures ContentBlank in r <==> forall i :: 0 <= i < |content| ==> TrimChar(content[i])
  {
    TrimEmptyIffBlank(content);
    (if firstPost && Trim(topic) == [] then {TopicBlank} else {})
    + (if Trim(content) == [] then {ContentBlank} else {})
    + (if Trim(content) != [] && |content| < 10 then {ContentTooShort} else {})
  }

  /** A post that passes validation has ten characters, one of them not blank, and a first post has a topic. */
  lemma ValidPostHasText(content: string, topic: string, firstPost: bool)
    requires Errors(content, topic, firstPost) == {}
    ensures |content| >= 10
    ensures exists i :: 0 <= i < |content| && !TrimChar(content[i])
    ensures firstPost ==> exists i :: 0 <= i < |topic| && !TrimChar(topic[i])
  {
    TrimEmptyIffBlank(content);
    TrimEmptyIffBlank(topic);
    assert ContentBlank !in Errors(content, topic, firstPost);
  }

  // ---------------------------------------------------------------------
  // Post::markSeen
  // ---------------------------------------------------------------------

  /** `$thread->updateCounters(['views' => 1])` when the view row was saved. */
  function Viewed(threads: map<int, Thread>, t: int, saved: bool): (r: map<int, Thread>)
    ensures r.Keys == threads.Keys
    ensures forall u :: u in r ==> r[u] == threads[u].(views := r[u].views)
    ensures t in threads ==> r[t].views == threads[t].views + (if saved then 1 else 0)
    ensures forall u :: u in r && u != t ==> r[u].views == threads[u].views
  {
    if saved && t in threads then threads[t := threads[t].(views := threads[t].views + 1)] else threads
  }

  /** A subscription waiting on new posts is marked seen; any other is left alone. */
  function Acknowledged(subscriptions: map<UserKey, SubState>, k: UserKey): (r: map<UserKey, SubState>)
    ensures r.Keys == subscriptions.Keys
    ensures k in r ==> r[k] == PostSeen
    ensures forall j :: j in r && j != k ==> r[j] == subscriptions[j]
  {
    if k in subscriptions && subscriptions[k] == PostNew then subscriptions[k := PostSeen]
    else assert k in subscriptions ==> subscriptions[k].PostSeen?; subscriptions
  }

  /**
   * Post::markSeen of post p for the signed-in user (None for a guest, for
   * whom nothing happens): the user's view row of the thread becomes
   * SeenRow of the old one, the thread's views go up by one when the row was
   * saved, and a subscription waiting on new posts is marked seen.
   */
  method MarkSeen(db: Database, user: Option<int>, p: int)
    requires p in db.posts && db.posts[p].threadId in db.threads
    modifies db`views, db`threads, db`subscriptions
    ensures user.None? ==> db.views == old(db.views) && db.threads == old(db.threads) && db.subscriptions == old(db.subscriptions)
    ensures user.Some? ==>
      var post := db.posts[p];
      var k := UserKey(user.value, post.threadId);
      var row := if k in old(db.views) then Some(old(db.views)[k]) else None;
      && db.views == old(db.views)[k := SeenRow(row, post)]
      && db.threads == Viewed(old(db.threads), post.threadId, SeenSaves(row, post))
      && db.subscriptions == Acknowledged(old(db.subscriptions), k)
  {
    if user.None? {
      return;
    }
    var post := db.posts[p];
    var t := post.threadId;
    var k := UserKey(user.value, t);
    if k !in db.views {
      db.views := db.views[k := ThreadView(post.createdAt, if post.editedAt != 0 then post.editedAt else post.createdAt)];
      db.threads := db.threads[t := db.threads[t].(views := db.threads[t].views + 1)];
    } else {
      var v := db.views[k];
      if post.edited {
        if v.editedLastSeen < post.editedAt {
          db.views := db.views[k := v.(editedLastSeen := post.editedAt)];
          db.threads := db.threads[t := db.threads[t].(views := db.threads[t].views + 1)];
        }
      } else {
        var save := false;
        if v.newLastSeen < post.createdAt {
          v := v.(newLastSeen := post.createdAt);
          save := true;
        }
        var latest := if post.createdAt >= post.editedAt then post.createdAt else post.editedAt;
        if v.editedLastSeen < latest {
          v := v.(editedLastSeen := latest);
          save := true;
        }
        if save {
          db.views := db.views[k := v];
          db.threads := db.threads[t := db.threads[t].(views := db.threads[t].views + 1)];
        }
      }
    }
    if k in db.subscriptions && db.subscriptions[k] == PostNew {
      db.subscriptions := db.subscriptions[k := PostSeen];
    }
  }

  /** Counting views leaves every counter the board's consistency speaks of as it was. */
  lemma ViewedKeepsConsistent(b: Board, t: int, saved: bool)
    requires Consistent(b)
    ensures Consistent(b.(threads := Viewed(b.threads, t, saved)))
  {
    var r := b.(threads := Viewed(b.threads, t, saved));
    assert forall g :: ThreadsOfForum(r.threads, g) == ThreadsOfForum(b.threads, g);
  }

  // ---------------------------------------------------------------------
  // Post::afterSave
  // ---------------------------------------------------------------------

  /**
   * Post::afterSave: a new post's words are inserted, an updated post's are
   * re-indexed; afterwards the junction links post p to exactly the words
   * of its content, once each, and no other post's rows change.
   */
  method AfterSave(db: Database, p: int, insert: bool)
    requires p in db.posts
    requires ValidVocabulary(db.vocabulary, db.nextWordId)
    requires forall id, q :: Links(db.junction, id, q) <= 1
    requires insert ==> LinkedIds(db.junction, p) == {}
    modifies db`vocabulary, db`nextWordId, db`junction
    ensures ValidVocabulary(db.vocabulary, db.nextWordId)
    ensures forall id, q :: Links(db.junction, id, q) <= 1
    ensures LinkedIds(db.junction, p) == IdsOf(db.vocabulary, PrepareWords(db.posts[p].content))
    ensures forall w :: w in PrepareWords(db.posts[p].content) ==> w in db.vocabulary
    ensures forall r :: r in db.junction ==> r.postId == p || r in old(db.junction)
    ensures forall row: JunctionRow :: row.postId != p ==> multiset(db.junction)[row] == multiset(old(db.junction))[row]
  {
    var ix: WordIndex.Index;
    if insert {
      ix := InsertWords(db.Index(), p, db.posts[p].content);
    } else {
      ix := UpdateWords(db.Index(), p, db.posts[p].content);
      assert forall id :: Links(ix.junction, id, p) <= 1;
    }
    forall r | r in ix.junction && r.postId != p ensures r in db.junction {
      assert multiset(ix.junction)[r] == multiset(db.junction)[r];
    }
    forall id, q ensures Links(ix.junction, id, q) <= 1 {
      if q != p {
        assert multiset(ix.junction)[JunctionRow(id, q)] == multiset(db.junction)[JunctionRow(id, q)];
        assert Links(db.junction, id, q) <= 1;
      } else {
        assert Links(ix.junction, id, p) <= 1;
      }
    }
    db.vocabulary, db.nextWordId, db.junction := ix.vocabulary, ix.nextWordId, ix.junction;
  }
}
