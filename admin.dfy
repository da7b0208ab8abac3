/**
 * The administration actions of AdminController: banning, promoting and
 * demoting members, the moderator table (one pair toggled, or a whole
 * selection saved), the drag-and-drop reordering of categories and forums,
 * and the name check of the editable contents page.
 *
 * Permissions arrive as booleans (the outcome of `User::can`).  The ids the
 * actions cast with `(int)` arrive already cast.
 */
module AdminController {
  import opened Entities
  import opened Boards
  import opened Store

  datatype Outcome =
    | NotAjax          // a sort request not sent by XHR: redirected
    | Denied           // the permission is missing
    | WrongParams      // the ids fail `is_numeric(x) && x > 0`
    | NotFound         // no such user, moderator, category or forum
    | OwnAccount       // a ban of the signed-in admin's own account
    | WrongStatus      // a ban of an account neither active nor banned
    | WrongRole        // a promotion of a non-member, a demotion of a non-moderator
    | WrongModerator   // the posted moderator id is not the page's moderator
    | Saved

  // ---------------------------------------------------------------------
  // The moderator table's invariant
  // ---------------------------------------------------------------------

  /** Every moderator row names an existing moderator and an existing forum. */
  ghost predicate ModsWellFormed(users: map<int, User>, forums: map<int, Forum>, mods: set<UserKey>)
  {
    forall k :: k in mods ==> k.user in users && users[k.user].role == Moderator && k.target in forums
  }

  // ---------------------------------------------------------------------
  // actionBan
  // ---------------------------------------------------------------------

  /** The status a ban request moves an account to: active accounts are banned, banned ones unbanned. */
  function BanFlip(s: Status): (r: Option<Status>)
    ensures r.None? <==> s == Registered
    ensures r.Some? ==> r.value != s && r.value != Registered
  {
    match s
    case Active => Some(Banned)
    case Banned => Some(Active)
    case Registered => None
  }

  /** A second ban request undoes the first. */
  lemma BanFlipTwice(s: Status)
    requires BanFlip(s).Some?
    ensures BanFlip(BanFlip(s).value) == Some(s)
  {
  }

  /**
   * actionBan: with the ban permission, an account other than the signed-in
   * one that is active is banned and one that is banned is unbanned; any
   * other status is refused.  Nothing else about the account changes.
   */
  method Ban(db: Database, canBan: bool, me: int, id: int) returns (o: Outcome)
    modifies db`users
    ensures o == Saved <==> canBan && id in old(db.users) && id != me && old(db.users)[id].status != Registered
    ensures o == Denied <==> !canBan
    ensures o == NotFound <==> canBan && id !in old(db.users)
    ensures o == OwnAccount <==> canBan && id in old(db.users) && id == me
    ensures o == Saved ==> db.users == old(db.users)[id := old(db.users)[id].(status := BanFlip(old(db.users)[id].status).value)]
    ensures o != Saved ==> db.users == old(db.users)
    ensures forall u :: u in db.users ==> u in old(db.users) && db.users[u].role == old(db.users)[u].role
    ensures ModsWellFormed(old(db.users), db.forums, db.mods) ==> ModsWellFormed(db.users, db.forums, db.mods)
  {
    if !canBan {
      return Denied;
    }
    if id !in db.users {
      return NotFound;
    }
    if id == me {
      return OwnAccount;
    }
    var user := db.users[id];
    if user.status == Active {
      db.users := db.users[id := user.(status := Banned)];
      o := Saved;
    } else if user.status == Banned {
      db.users := db.users[id := user.(status := Active)];
      o := Saved;
    } else {
      o := WrongStatus;
    }
  }

  // ---------------------------------------------------------------------
  // actionPromote and actionDemote
  // ---------------------------------------------------------------------

  /** The role a promotion gives: only a member can be promoted, to moderator. */
  function Promotion(r: Role): (p: Option<Role>)
    ensures p.Some? <==> r == Member
    ensures p.Some? ==> p.value == Moderator
  {
    if r == Member then Some(Moderator) else None
  }

  /** The role a demotion gives: only a moderator can be demoted, to member. */
  function Demotion(r: Role): (d: Option<Role>)
    ensures d.Some? <==> r == Moderator
    ensures d.Some? ==> d.value == Member
  {
    if r == Moderator then Some(Member) else None
  }

  /** Promotion and demotion undo each other. */
  lemma PromotionDemotionInverse(r: Role)
    ensures Promotion(r).Some? ==> Demotion(Promotion(r).value) == Some(r)
    ensures Demotion(r).Some? ==> Promotion(Demotion(r).value) == Some(r)
  {
  }

  /** The moderator table without any row of user u: `DELETE ... WHERE user_id = u`. */
  function WithoutUser(mods: set<UserKey>, u: int): (r: set<UserKey>)
    ensures forall k :: k in r <==> k in mods && k.user != u
  {
    set k | k in mods && k.user != u
  }

  /**
   * actionPromote: with the promote permission, a member becomes a
   * moderator; anyone else is refused.  The moderator table is untouched:
   * the new moderator moderates nothing yet.
   */
  method Promote(db: Database, canPromote: bool, id: int) returns (o: Outcome)
    modifies db`users
    ensures o == Saved <==> canPromote && id in old(db.users) && old(db.users)[id].role == Member
    ensures o == WrongRole <==> canPromote && id in old(db.users) && old(db.users)[id].role != Member
    ensures o == Saved ==> db.users == old(db.users)[id := old(db.users)[id].(role := Promotion(old(db.users)[id].role).value)]
    ensures o != Saved ==> db.users == old(db.users)
    ensures ModsWellFormed(old(db.users), db.forums, db.mods) ==> ModsWellFormed(db.users, db.forums, db.mods)
  {
    if !canPromote {
      return Denied;
    }
    if id !in db.users {
      return NotFound;
    }
    if db.users[id].role != Member {
      return WrongRole;
    }
    db.users := db.users[id := db.users[id].(role := Moderator)];
    o := Saved;
  }

  /**
   * actionDemote: with the promote permission, a moderator becomes a member
   * and every moderator row of theirs is deleted; anyone else is refused.
   */
  method Demote(db: Database, canPromote: bool, id: int) returns (o: Outcome)
    modifies db`users, db`mods
    ensures o == Saved <==> canPromote && id in old(db.users) && old(db.users)[id].role == Moderator
    ensures o == WrongRole <==> canPromote && id in old(db.users) && old(db.users)[id].role != Moderator
    ensures o == Saved ==> db.users == old(db.users)[id := old(db.users)[id].(role := Demotion(old(db.users)[id].role).value)]
    ensures o == Saved ==> db.mods == WithoutUser(old(db.mods), id)
    ensures o == Saved ==> forall k :: k in db.mods ==> k.user != id
    ensures o != Saved ==> db.users == old(db.users) && db.mods == old(db.mods)
    ensures ModsWellFormed(old(db.users), db.forums, old(db.mods)) ==> ModsWellFormed(db.users, db.forums, db.mods)
  {
    if !canPromote {
      return Denied;
    }
    if id !in db.users {
      return NotFound;
    }
    if db.users[id].role != Moderator {
      return WrongRole;
    }
    db.users := db.users[id := db.users[id].(role := Member)];
    db.mods := WithoutUser(db.mods, id);
    o := Saved;
  }

  // ---------------------------------------------------------------------
  // actionMod
  // ---------------------------------------------------------------------

  /** The set with k's membership reversed. */
  function Toggle(mods: set<UserKey>, k: UserKey): (r: set<UserKey>)
    ensures k in r <==> k !in mods
    ensures forall j :: j != k ==> (j in r <==> j in mods)
  {
    if k in mods then mods - {k} else mods + {k}
  }

  /** Toggling the same row twice restores the table. */
  lemma ToggleTwice(mods: set<UserKey>, k: UserKey)
    ensures Toggle(Toggle(mods, k), k) == mods
  {
  }

  /**
   * actionMod: with the promote permission and two ids, where the first
   * names a moderator and the second a forum, the row (moderator, forum) is
   * deleted when it exists and inserted when it does not.
   */
  method Mod(db: Database, canPromote: bool, uid: Param, fid: Param) returns (o: Outcome)
    modifies db`mods
    ensures o == Saved <==>
      && canPromote && IsId(uid) && IsId(fid)
      && uid.value in db.users && db.users[uid.value].role == Moderator
      && fid.value in db.forums
    ensures o == WrongParams <==> canPromote && !(IsId(uid) && IsId(fid))
    ensures o == Saved ==> db.mods == Toggle(old(db.mods), UserKey(uid.value, fid.value))
    ensures o != Saved ==> db.mods == old(db.mods)
    ensures ModsWellFormed(db.users, db.forums, old(db.mods)) ==> ModsWellFormed(db.users, db.forums, db.mods)
  {
    if !canPromote {
      return Denied;
    }
    if !(IsId(uid) && IsId(fid)) {
      return WrongParams;
    }
    if !(uid.value in db.users && db.users[uid.value].role == Moderator) {
      return NotFound;
    }
    if fid.value !in db.forums {
      return NotFound;
    }
    var k := UserKey(uid.value, fid.value);
    if k in db.mods {
      db.mods := db.mods - {k};
    } else {
      db.mods := db.mods + {k};
    }
    o := Saved;
  }

  // ---------------------------------------------------------------------
  // actionMods
  // ---------------------------------------------------------------------

  /**
   * The moderator the page shows: for an id that passes the numeric check,
   * that moderator if there is one; without one, the first of the
   * moderators the query returns.
   */
  function PageModerator(id: Param, moderators: seq<int>): (r: Option<int>)
    ensures r.Some? ==> r.value in moderators
    ensures IsId(id) ==> (r.Some? <==> id.value in moderators) && (r.Some? ==> r.value == id.value)
    ensures !IsId(id) ==> (r.Some? <==> moderators != []) && (r.Some? ==> r.value == moderators[0])
  {
    if IsId(id) then (if id.value in moderators then Some(id.value) else None)
    else if moderators == [] then None
    else Some(moderators[0])
  }

  /**
   * The two loops of actionMods.  A selected forum not listed as previously
   * ticked is added when it exists and the moderator does not hold it yet;
   * a previously ticked forum no longer selected is removed when the
   * moderator holds it.  `forums` and `held` stand for the two existence
   * queries: the forum ids, and the forums the moderator holds.
   */
  method ModsDiff(selection: seq<int>, pre: seq<int>, forums: set<int>, held: set<int>)
    returns (add: seq<int>, remove: seq<int>)
    ensures forall f :: f in add <==> f in selection && f !in pre && f in forums && f !in held
    ensures forall f :: f in remove <==> f in pre && f !in selection && f in held
    ensures |add| <= |selection| && |remove| <= |pre|
  {
    add := [];
    var i := 0;
    while i < |selection|
      invariant 0 <= i <= |selection|
      invariant |add| <= i
      invariant forall f :: f in add <==> f in selection[..i] && f !in pre && f in forums && f !in held
    {
      var s := selection[i];
      if s !in pre && s in forums && s !in held {
        add := add + [s];
      }
      assert selection[..i + 1] == selection[..i] + [s];
      i := i + 1;
    }
    assert selection[..i] == selection;
    remove := [];
    var j := 0;
    while j < |pre|
      invariant 0 <= j <= |pre|
      invariant |remove| <= j
      invariant forall f :: f in remove <==> f in pre[..j] && f !in selection && f in held
    {
      var p := pre[j];
      if p !in selection && p in held {
        remove := remove + [p];
      }
      assert pre[..j + 1] == pre[..j] + [p];
      j := j + 1;
    }
    assert pre[..j] == pre;
  }

  /** The forums moderator m holds. */
  function Held(mods: set<UserKey>, m: int): (r: set<int>)
    ensures forall f :: f in r <==> UserKey(m, f) in mods
  {
    set k | k in mods && k.user == m :: k.target
  }

  /**
   * The table after the batch insert of (m, f) for f in add and the delete
   * of (m, f) for f in remove.
   */
  function Applied(mods: set<UserKey>, m: int, add: seq<int>, remove: seq<int>): (r: set<UserKey>)
    ensures forall k :: k in r <==> (k in mods || (k.user == m && k.target in add)) && !(k.user == m && k.target in remove)
  {
    (mods + set f | f in add :: UserKey(m, f)) - set f | f in remove :: UserKey(m, f)
  }

  /**
   * Saving the moderation list of actionMods for the page's moderator `mod`:
   * the posted moderator id must be that moderator's, then the rows of the
   * forums ticked anew are inserted and those of the forums unticked are
   * deleted; other moderators' rows stay.
   */
  method SaveMods(db: Database, canPromote: bool, mod: Option<int>, modId: int, selection: seq<int>, pre: seq<int>)
    returns (o: Outcome)
    requires mod.Some? ==> mod.value in db.users && db.users[mod.value].role == Moderator
    modifies db`mods
    ensures o == Saved <==> canPromote && mod.Some? && modId == mod.value
    ensures o == WrongModerator <==> canPromote && !(mod.Some? && modId == mod.value)
    ensures o != Saved ==> db.mods == old(db.mods)
    ensures o == Saved ==> forall k: UserKey :: k.user != mod.value ==> (k in db.mods <==> k in old(db.mods))
    ensures o == Saved ==> forall f ::
      UserKey(mod.value, f) in db.mods <==>
        if f in selection then UserKey(mod.value, f) in old(db.mods) || (f !in pre && f in db.forums)
        else f !in pre && UserKey(mod.value, f) in old(db.mods)
    ensures o == Saved && (forall f :: f in pre <==> UserKey(mod.value, f) in old(db.mods)) ==>
      forall f :: UserKey(mod.value, f) in db.mods <==> f in selection && (f in db.forums || f in pre)
    ensures ModsWellFormed(db.users, db.forums, old(db.mods)) ==> ModsWellFormed(db.users, db.forums, db.mods)
  {
    if !canPromote {
      return Denied;
    }
    if !(mod.Some? && modId == mod.value) {
      return WrongModerator;
    }
    var m := mod.value;
    var add, remove := ModsDiff(selection, pre, db.forums.Keys, Held(db.mods, m));
    db.mods := Applied(db.mods, m, add, remove);
    o := Saved;
  }

  // ---------------------------------------------------------------------
  // actionSortCategory and actionSortForum
  // ---------------------------------------------------------------------

  /** The order of the sort query: by sort, then by id. */
  predicate Before(sortA: int, a: int, sortB: int, b: int)
  {
    sortA < sortB || (sortA == sortB && a < b)
  }

  /**
   * `order` is what the query over the rows other than `moved` returns:
   * each such row once, by (sort, id).
   */
  ghost predicate QueryOrder(sorts: map<int, int>, moved: int, order: seq<int>)
  {
    && (forall i :: 0 <= i < |order| ==> order[i] in sorts && order[i] != moved)
    && (forall id :: id in sorts && id != moved ==> id in order)
    && (forall i, j :: 0 <= i < j < |order| ==> Before(sorts[order[i]], order[i], sorts[order[j]], order[j]))
  }

  /** The sort key of each category. */
  function CategorySorts(categories: map<int, Category>): (r: map<int, int>)
    ensures r.Keys == categories.Keys
    ensures forall id :: id in r ==> r[id] == categories[id].sort
  {
    map id | id in categories :: categories[id].sort
  }

  /** The sort key of each forum of category c. */
  function ForumSorts(forums: map<int, Forum>, c: int): (r: map<int, int>)
    ensures forall id :: id in r <==> id in forums && forums[id].categoryId == c
    ensures forall id :: id in r ==> r[id] == forums[id].sort
  {
    map id | id in forums && forums[id].categoryId == c :: forums[id].sort
  }

  /** The place the loop gives the i-th other row: `next` skips the value `new`. */
  function Slot(i: int, target: int): int
  {
    if i < target then i else i + 1
  }

  /** The place of the moved row among m others: `new`, or last when `new` is past the end. */
  function MovedSlot(m: int, target: int): int
  {
    if target < m then target else m
  }

  /** The keys after the reordering: the i-th row of `order` at Slot(i), the moved row at MovedSlot. */
  ghost predicate Renumbered(after: map<int, int>, moved: int, order: seq<int>, target: int)
  {
    && moved in after && after[moved] == MovedSlot(|order|, target)
    && (forall i :: 0 <= i < |order| ==> order[i] in after && after[order[i]] == Slot(i, target))
    && (forall id :: id in after ==> id == moved || id in order)
  }

  /** No two rows share a key, and the keys are exactly 0 .. n. */
  ghost predicate Contiguous(sorts: map<int, int>, n: int)
  {
    && (forall a, b :: a in sorts && b in sorts && a != b ==> sorts[a] != sorts[b])
    && (forall a :: a in sorts ==> 0 <= sorts[a] <= n)
    && (forall k :: 0 <= k <= n ==> k in sorts.Values)
  }

  /**
   * What reordering achieves: the keys become 0 .. m without gaps or
   * repeats, the moved row takes place min(new, m), and the other rows keep
   * their relative order.
   */
  lemma RenumberedIsContiguous(after: map<int, int>, moved: int, order: seq<int>, target: int)
    requires target >= 0
    requires moved !in order
    requires forall i, j :: 0 <= i < j < |order| ==> order[i] != order[j]
    requires Renumbered(after, moved, order, target)
    ensures Contiguous(after, |order|)
    ensures forall i, j :: 0 <= i < j < |order| ==> after[order[i]] < after[order[j]]
  {
    var m := |order|;
    forall a, b | a in after && b in after && a != b
      ensures after[a] != after[b]
    {
      if a != moved && b != moved {
        var i :| 0 <= i < m && order[i] == a;
        var j :| 0 <= j < m && order[j] == b;
        assert i != j;
      } else if a == moved {
        var j :| 0 <= j < m && order[j] == b;
        assert after[b] == Slot(j, target);
      } else {
        var i :| 0 <= i < m && order[i] == a;
        assert after[a] == Slot(i, target);
      }
    }
    forall a | a in after
      ensures 0 <= after[a] <= m
    {
      if a != moved {
        var i :| 0 <= i < m && order[i] == a;
      }
    }
    forall k | 0 <= k <= m
      ensures k in after.Values
    {
      if k == MovedSlot(m, target) {
        assert after[moved] == k;
      } else if k < target {
        assert after[order[k]] == k;
      } else {
        assert after[order[k - 1]] == k;
      }
    }
  }

  /** The others of a query are distinct rows, because its order is strict. */
  lemma QueryOrderDistinct(sorts: map<int, int>, moved: int, order: seq<int>)
    requires QueryOrder(sorts, moved, order)
    ensures moved !in order
    ensures forall i, j :: 0 <= i < j < |order| ==> order[i] != order[j]
  {
  }

  /**
   * actionSortCategory: an XHR request with the update-category permission
   * and ids that pass the numeric checks moves category `id` to place `new`:
   * the other categories, in query order, are renumbered 0, 1, ... skipping
   * `new`, and the moved one takes `new` (or the place after the last).
   */
  method SortCategory(db: Database, ajax: bool, canUpdate: bool, id: Param, target: Param, order: seq<int>)
    returns (o: Outcome)
    requires IsId(id) && id.value in db.categories ==> QueryOrder(CategorySorts(db.categories), id.value, order)
    modifies db`categories
    ensures o == Saved <==> ajax && canUpdate && IsId(id) && target.Some? && target.value >= 0 && id.value in old(db.categories)
    ensures o == WrongParams <==> ajax && canUpdate && !(IsId(id) && target.Some? && target.value >= 0)
    ensures o != Saved ==> db.categories == old(db.categories)
    ensures o == Saved ==> db.categories.Keys == old(db.categories).Keys
    ensures o == Saved ==> forall c :: c in db.categories ==> db.categories[c] == old(db.categories)[c].(sort := db.categories[c].sort)
    ensures o == Saved ==> Renumbered(CategorySorts(db.categories), id.value, order, target.value)
    ensures o == Saved ==> Contiguous(CategorySorts(db.categories), |order|)
    ensures o == Saved ==> forall i, j :: 0 <= i < j < |order| ==> db.categories[order[i]].sort < db.categories[order[j]].sort
  {
    if !ajax {
      return NotAjax;
    }
    if !canUpdate {
      return Denied;
    }
    if !(IsId(id) && target.Some? && target.value >= 0) {
      return WrongParams;
    }
    var moved := id.value;
    if moved !in db.categories {
      return NotFound;
    }
    QueryOrderDistinct(CategorySorts(db.categories), moved, order);
    var next := 0;
    var newSort := -1;
    var i := 0;
    while i < |order|
      invariant 0 <= i <= |order|
      invariant newSort == (if target.value < i then target.value else -1)
      invariant next == (if target.value < i then i + 1 else i)
      invariant db.categories.Keys == old(db.categories).Keys
      invariant forall j :: 0 <= j < i ==> db.categories[order[j]] == old(db.categories)[order[j]].(sort := Slot(j, target.value))
      invariant forall j :: i <= j < |order| ==> db.categories[order[j]] == old(db.categories)[order[j]]
      invariant db.categories[moved] == old(db.categories)[moved]
    {
      if next == target.value {
        newSort := next;
        next := next + 1;
      }
      db.categories := db.categories[order[i] := db.categories[order[i]].(sort := next)];
      next := next + 1;
      i := i + 1;
    }
    if newSort == -1 {
      newSort := next;
    }
    db.categories := db.categories[moved := db.categories[moved].(sort := newSort)];
    RenumberedIsContiguous(CategorySorts(db.categories), moved, order, target.value);
    o := Saved;
  }

  /** Forum rows that differ in their sort keys only. */
  ghost predicate SortsOnlyDiffer(after: map<int, Forum>, before: map<int, Forum>)
  {
    && after.Keys == before.Keys
    && forall f :: f in after ==> after[f] == before[f].(sort := after[f].sort)
  }

  /** Changing forums' sort keys leaves the board's counters and links as they were. */
  lemma ResortKeepsConsistent(b: Board, forums: map<int, Forum>)
    requires Consistent(b)
    requires SortsOnlyDiffer(forums, b.forums)
    ensures Consistent(b.(forums := forums))
  {
  }

  /**
   * The loop of actionSortForum: the forums of category c other than the
   * moved one, in query order, get the keys 0, 1, ... skipping `new`; then
   * the moved forum gets `new`, or the key after the last.
   */
  method RenumberForums(db: Database, c: int, moved: int, order: seq<int>, target: int)
    requires target >= 0
    requires moved in db.forums && moved !in order
    requires forall i :: 0 <= i < |order| ==> order[i] in db.forums && db.forums[order[i]].categoryId == c
    requires forall i, j :: 0 <= i < j < |order| ==> order[i] != order[j]
    modifies db`forums
    ensures SortsOnlyDiffer(db.forums, old(db.forums))
    ensures forall j :: 0 <= j < |order| ==> db.forums[order[j]] == old(db.forums)[order[j]].(sort := Slot(j, target))
    ensures db.forums[moved] == old(db.forums)[moved].(sort := MovedSlot(|order|, target))
    ensures forall f :: f in old(db.forums) && f != moved && f !in order ==> db.forums[f] == old(db.forums)[f]
  {
    var next := 0;
    var newSort := -1;
    var i := 0;
    while i < |order|
      invariant 0 <= i <= |order|
      invariant newSort == (if target < i then target else -1)
      invariant next == (if target < i then i + 1 else i)
      invariant SortsOnlyDiffer(db.forums, old(db.forums))
      invariant forall j :: 0 <= j < i ==> db.forums[order[j]] == old(db.forums)[order[j]].(sort := Slot(j, target))
      invariant forall j :: i <= j < |order| ==> db.forums[order[j]] == old(db.forums)[order[j]]
      invariant db.forums[moved] == old(db.forums)[moved]
      invariant forall f :: f in old(db.forums) && f != moved && f !in order ==> db.forums[f] == old(db.forums)[f]
    {
      if next == target {
        newSort := next;
        next := next + 1;
      }
      db.forums := db.forums[order[i] := db.forums[order[i]].(sort := next)];
      next := next + 1;
      i := i + 1;
    }
    if newSort == -1 {
      newSort := next;
    }
    db.forums := db.forums[moved := db.forums[moved].(sort := newSort)];
  }

  /**
   * actionSortForum: as SortCategory, among the forums of the given
   * category; the moved forum must belong to it.  Forums of other
   * categories keep their keys.
   */
  method SortForum(db: Database, ajax: bool, canUpdate: bool, id: Param, category: Param, target: Param, order: seq<int>)
    returns (o: Outcome)
    requires IsId(id) && IsId(category) && id.value in db.forums && db.forums[id.value].categoryId == category.value ==>
      QueryOrder(ForumSorts(db.forums, category.value), id.value, order)
    requires db.Valid()
    modifies db`forums
    ensures db.Valid()
    ensures o == Saved <==>
      && ajax && canUpdate && IsId(id) && IsId(category) && target.Some? && target.value >= 0
      && id.value in old(db.forums) && category.value in db.categories
      && old(db.forums)[id.value].categoryId == category.value
    ensures o == WrongParams <==> ajax && canUpdate && !(IsId(id) && IsId(category) && target.Some? && target.value >= 0)
    ensures o != Saved ==> db.forums == old(db.forums)
    ensures SortsOnlyDiffer(db.forums, old(db.forums))
    ensures o == Saved ==> forall f :: f in db.forums && db.forums[f].categoryId != category.value ==> db.forums[f] == old(db.forums)[f]
    ensures o == Saved ==> Renumbered(ForumSorts(db.forums, category.value), id.value, order, target.value)
    ensures o == Saved ==> Contiguous(ForumSorts(db.forums, category.value), |order|)
  {
    if !ajax {
      return NotAjax;
    }
    if !canUpdate {
      return Denied;
    }
    if !(IsId(id) && IsId(category) && target.Some? && target.value >= 0) {
      return WrongParams;
    }
    var moved := id.value;
    var c := category.value;
    if !(moved in db.forums && c in db.categories && db.forums[moved].categoryId == c) {
      return NotFound;
    }
    QueryOrderDistinct(ForumSorts(db.forums, c), moved, order);
    ghost var b := db.Board();
    RenumberForums(db, c, moved, order, target.value);
    RenumberedIsContiguous(ForumSorts(db.forums, c), moved, order, target.value);
    ResortKeepsConsistent(b, db.forums);
    o := Saved;
  }

  // ---------------------------------------------------------------------
  // actionContents
  // ---------------------------------------------------------------------

  /** The contents pages the admin may edit. */
  const ContentNames: seq<string> := ["terms", "email-reg", "email-new", "email-react", "email-pass", "email-sub"]

  /** The page actionContents edits: the one named, or the terms page for an unknown or missing name. */
  function ContentName(name: string): (r: string)
    ensures r in ContentNames
    ensures r == name <==> name in ContentNames
    ensures name !in ContentNames ==> r == "terms"
  {
    if name == "" || name !in ContentNames then "terms" else name
  }
}
