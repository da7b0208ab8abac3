/**
 * The vote ledger of actionThumb: one thumb per (user, post) holding +1 or
 * -1, the post's `likes`/`dislikes` tallies, and the per-user hourly window
 * `{count, expire}` kept in the cache under `user.votes.<id>`.
 */
module Votes {
  import opened Entities

  datatype Vote = Up | Down

  /** The cached `{count, expire}` record. */
  datatype VoteWindow = VoteWindow(count: int, expire: int)

  /** Votes allowed per window. */
  const MaxVotes: int := 10
  /** Length of a window in seconds. */
  const WindowLength: int := 3600

  /**
   * The count a vote at now starts from, or None when the limit is reached:
   * a missing or expired window counts as 0.
   */
  function StartCount(w: Option<VoteWindow>, now: int): (c: Option<int>)
    ensures c.None? <==> w.Some? && w.value.expire >= now && w.value.count >= MaxVotes
    ensures c.Some? && w.Some? && w.value.expire >= now ==> c.value == w.value.count
  {
    match w
    case None => Some(0)
    case Some(v) =>
      if v.expire < now then Some(0)
      else if v.count >= MaxVotes then None
      else Some(v.count)
  }

  /** The window after an accepted vote: a fresh window from 0, otherwise the count goes up and the expiry stays. */
  function NextWindow(w: Option<VoteWindow>, count: int, now: int): (r: VoteWindow)
    requires count != 0 ==> w.Some?
  {
    if count == 0 then VoteWindow(1, now + WindowLength) else w.value.(count := count + 1)
  }

  /** The thumb after a vote, and how `likes` and `dislikes` move. */
  datatype ThumbChange = ThumbChange(thumb: int, dLikes: int, dDislikes: int)

  /**
   * A first vote records +1 or -1 and adds one like or dislike; turning +1
   * down or -1 up moves one count to the other side; repeating a vote changes
   * nothing.
   */
  function ThumbStep(thumb: Option<int>, v: Vote): ThumbChange
  {
    match thumb
    case None => if v == Up then ThumbChange(1, 1, 0) else ThumbChange(-1, 0, 1)
    case Some(x) =>
      if x == 1 && v == Down then ThumbChange(-1, -1, 1)
      else if x == -1 && v == Up then ThumbChange(1, 1, -1)
      else ThumbChange(x, 0, 0)
  }

  /** The thumbs on post p with value x. */
  function ThumbsOf(thumbs: map<UserKey, int>, p: int, x: int): set<UserKey>
  {
    set k | k in thumbs && k.target == p && thumbs[k] == x
  }

  /** The post's tallies count its thumbs. */
  predicate Tallied(thumbs: map<UserKey, int>, p: int, likes: int, dislikes: int)
  {
    likes == |ThumbsOf(thumbs, p, 1)| && dislikes == |ThumbsOf(thumbs, p, -1)|
  }

  /** Every stored thumb is +1 or -1. */
  predicate ThumbsValid(thumbs: map<UserKey, int>)
  {
    forall k :: k in thumbs ==> thumbs[k] == 1 || thumbs[k] == -1
  }

  /** Storing value y under k moves k in or out of the thumbs with value x on k's post, and no other key. */
  lemma StoreThumbSets(thumbs: map<UserKey, int>, k: UserKey, y: int, x: int)
    ensures ThumbsOf(thumbs[k := y], k.target, x) ==
      (ThumbsOf(thumbs, k.target, x) - {k}) + (if y == x then {k} else {})
  {
    var lhs := ThumbsOf(thumbs[k := y], k.target, x);
    var rhs := (ThumbsOf(thumbs, k.target, x) - {k}) + (if y == x then {k} else {});
    forall j ensures j in lhs <==> j in rhs {
      if j != k {
        assert j in lhs <==> j in ThumbsOf(thumbs, k.target, x);
      }
    }
  }

  /** How many thumbs of value x on k's post storing y under k adds (+1), removes (-1) or leaves. */
  lemma StoreThumbCount(thumbs: map<UserKey, int>, k: UserKey, y: int, x: int)
    ensures |ThumbsOf(thumbs[k := y], k.target, x)| ==
      |ThumbsOf(thumbs, k.target, x)| - (if k in thumbs && thumbs[k] == x then 1 else 0) + (if y == x then 1 else 0)
  {
    StoreThumbSets(thumbs, k, y, x);
    var s0 := ThumbsOf(thumbs, k.target, x);
    assert k in s0 <==> k in thumbs && thumbs[k] == x;
    if k in s0 {
      assert |s0 - {k}| == |s0| - 1;
    } else {
      assert s0 - {k} == s0;
    }
  }

  /** A vote keeps every thumb +1 or -1 and keeps the tallies equal to the thumbs. */
  lemma ThumbStepKeepsTally(thumbs: map<UserKey, int>, user: int, p: int, likes: int, dislikes: int, v: Vote)
    requires ThumbsValid(thumbs) && Tallied(thumbs, p, likes, dislikes)
    ensures var k := UserKey(user, p);
      var c := ThumbStep(if k in thumbs then Some(thumbs[k]) else None, v);
      var after := thumbs[k := c.thumb];
      && ThumbsValid(after)
      && Tallied(after, p, likes + c.dLikes, dislikes + c.dDislikes)
      && after[k] == (if v == Up then 1 else -1)
  {
    var k := UserKey(user, p);
    var c := ThumbStep(if k in thumbs then Some(thumbs[k]) else None, v);
    StoreThumbCount(thumbs, k, c.thumb, 1);
    StoreThumbCount(thumbs, k, c.thumb, -1);
  }

  // ---------------------------------------------------------------------
  // The hourly limit over a run of votes
  // ---------------------------------------------------------------------

  /** The window after a vote at now: unchanged when the vote is refused. */
  function AfterVote(w: Option<VoteWindow>, now: int): Option<VoteWindow>
  {
    match StartCount(w, now)
    case None => w
    case Some(c) => Some(NextWindow(w, c, now))
  }

  /** How many of the votes at the given times are accepted, starting from window w. */
  function Accepted(w: Option<VoteWindow>, times: seq<int>): (n: nat)
    ensures n <= |times|
    decreases |times|
  {
    if times == [] then 0
    else (if StartCount(w, times[0]).Some? then 1 else 0) + Accepted(AfterVote(w, times[0]), times[1..])
  }

  lemma {:induction false} AcceptedWithinWindow(c: int, e: int, times: seq<int>)
    requires 1 <= c <= MaxVotes
    requires forall i :: 0 <= i < |times| ==> times[i] <= e
    ensures Accepted(Some(VoteWindow(c, e)), times) <= MaxVotes - c
    decreases |times|
  {
    if times != [] {
      var w := Some(VoteWindow(c, e));
      if c < MaxVotes {
        assert AfterVote(w, times[0]) == Some(VoteWindow(c + 1, e));
        AcceptedWithinWindow(c + 1, e, times[1..]);
      } else {
        assert AfterVote(w, times[0]) == w;
        AcceptedWithinWindow(c, e, times[1..]);
      }
    }
  }

  /** No more than ten votes are accepted within an hour of a user's first vote. */
  lemma {:induction false} AtMostTenPerHour(times: seq<int>)
    requires times != []
    requires forall i :: 0 <= i < |times| ==> times[i] <= times[0] + WindowLength
    ensures Accepted(None, times) <= MaxVotes
  {
    AcceptedWithinWindow(1, times[0] + WindowLength, times[1..]);
  }
}
