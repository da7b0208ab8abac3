/**
 * The forum's database: one field per table the core reads or writes, each a
 * map from primary key to row (the junction table a sequence of rows, the
 * moderator table a set of (user, forum) pairs), plus the per-user vote
 * windows the cache holds.  Controller actions update these fields in place.
 */
module Store {
  import opened Entities
  import opened Boards
  import Votes
  import WordIndex

  class Database {
    var categories: map<int, Category>
    var forums: map<int, Forum>
    var threads: map<int, Thread>
    var posts: map<int, Post>
    var nextThreadId: int
    var nextPostId: int
    /** podium_thread_view, keyed by (user, thread). */
    var views: map<UserKey, ThreadView>
    /** podium_subscription, keyed by (user, thread). */
    var subscriptions: map<UserKey, SubState>
    /** podium_post_thumb, keyed by (user, post). */
    var thumbs: map<UserKey, int>
    /** The cache entries `user.votes.<id>`. */
    var votes: map<int, Votes.VoteWindow>
    /** podium_vocabulary: word to id. */
    var vocabulary: map<string, int>
    var nextWordId: int
    /** podium_vocabulary_junction. */
    var junction: seq<JunctionRow>
    var users: map<int, User>
    /** podium_moderator, as (user, forum) pairs. */
    var mods: set<UserKey>

    /** An empty database; auto-increment ids start at 1. */
    constructor()
      ensures categories == map[] && forums == map[] && threads == map[] && posts == map[]
      ensures nextThreadId == 1 && nextPostId == 1 && nextWordId == 1
      ensures views == map[] && subscriptions == map[] && thumbs == map[] && votes == map[]
      ensures vocabulary == map[] && junction == [] && users == map[] && mods == {}
      ensures Valid()
    {
      categories, forums, threads, posts := map[], map[], map[], map[];
      nextThreadId, nextPostId, nextWordId := 1, 1, 1;
      views, subscriptions, thumbs, votes := map[], map[], map[], map[];
      vocabulary, junction, users, mods := map[], [], map[], {};
    }

    /** The tables the counters describe, as one value. */
    function Board(): Board
      reads this`categories, this`forums, this`threads, this`posts, this`nextThreadId, this`nextPostId
    {
      Boards.Board.Board(categories, forums, threads, posts, nextThreadId, nextPostId)
    }

    /** The tables of the word index, as one value. */
    function Index(): WordIndex.Index
      reads this`vocabulary, this`nextWordId, this`junction
    {
      WordIndex.Index(vocabulary, nextWordId, junction)
    }

    /**
     * The state the controllers keep: consistent counters, a valid
     * vocabulary, each word linked to a post at most once, and no junction
     * row for a post id not yet handed out.
     */
    ghost predicate Valid()
      reads this
    {
      Consistent(Board()) && Indexed()
    }

    /** The word index part of Valid. */
    ghost predicate Indexed()
      reads this`vocabulary, this`nextWordId, this`junction, this`nextPostId
    {
      && WordIndex.ValidVocabulary(vocabulary, nextWordId)
      && (forall id, p :: WordIndex.Links(junction, id, p) <= 1)
      && (forall r :: r in junction ==> r.postId < nextPostId)
    }
  }
}
