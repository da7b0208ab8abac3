# Podium forum core, modelled in Dafny

Podium is a forum module for Yii2: categories hold forums, forums hold
threads, threads hold posts.  Forums and threads carry denormalised
counters (`threads`, `posts`), read tracking keeps a pair of watermarks per
user and thread, posts can be voted up or down at most ten times an hour
per user, and every saved post is indexed word by word for search.

The model covers:

- the write actions of `DefaultController`: delete a thread, delete one or
  several posts, move a thread, move posts, start a thread, reply, edit,
  lock, pin, vote and mark everything seen;
- its read-only computations: the thread lookup, the page of `show` and
  `last`, and the word filter of `search`;
- the Post model: its validation rules, `markSeen`, and `afterSave` with the
  word index;
- the unread-thread query of `ThreadView::search`;
- the administration actions of `AdminController`: ban, promote and demote,
  the moderator table, the reordering of categories and forums, and the
  contents-page name;
- the `isPodiumAuthor` RBAC rule.

## Modules

| file | module | what |
|---|---|---|
| entities.dfy | Entities | table rows as datatypes, request parameters |
| boards.dfy | Boards | the board value and its consistency invariant |
| mutations.dfy | Mutations | one pure function per board write, with consistency lemmas |
| votes.dfy | Votes | the vote window and the thumb tallies |
| tokenizer.dfy | Tokenizer | `explode`/`implode`, the tag-word pipeline, white-space collapsing |
| wordindex.dfy | WordIndex | vocabulary and junction table |
| store.dfy | Store | `class Database`, one field per table |
| readtracking.dfy | ReadTracking | view watermarks and the unread query |
| postmodel.dfy | PostModel | Post rules, `markSeen`, `afterSave` |
| defaultcontroller.dfy | DefaultController | the forum actions |
| admin.dfy | AdminController | the administration actions |
| authorrule.dfy | AuthorRule | the author rule |

Each state-changing action is a method on `Store.Database` that ensures the
new board equals a pure function of the old one (module `Mutations`).
Separate lemmas prove that those functions keep the counters exact
(`Boards.Consistent`).  Every action that writes the board requires and
ensures `Database.Valid()`.

## Model

| member | source | states |
|---|---|---|
| Boards.ThreadQueryIsThreadPosts | controllers/DefaultController.php:286 | in a linked board the `thread_id AND forum_id` count finds exactly the thread's posts |
| Boards.LastPost | controllers/DefaultController.php:1296 | the latest post of a thread is its largest post id, and None only when the thread has no post |
| Boards.FirstPost | controllers/DefaultController.php:505 | the first post is the smallest id among the thread's posts in the forum |
| Mutations.WithForumCounters | controllers/DefaultController.php:188 | `updateCounters` on a forum adds the deltas to that row only |
| Mutations.WithThreadPosts | controllers/DefaultController.php:287 | `updateCounters` on a thread's posts changes that row only |
| Mutations.Cascade | controllers/DefaultController.php:187 | deleting a thread removes exactly its posts and leaves the others unchanged |
| Mutations.DeleteThreadConsistent | controllers/DefaultController.php:187-188 | deleting a thread and lowering its forum's counters by one thread and its `posts` keeps the board consistent |
| Mutations.DeleteAllIsDeleteThread | controllers/DefaultController.php:404-411 | deleting every post of a thread comes to the same as deleting the thread |
| Mutations.DeletePostsConsistent | controllers/DefaultController.php:401-411 | deleting any selection of a thread's posts, then settling the thread, keeps the board consistent |
| Mutations.SettleCases | controllers/DefaultController.php:404-411 | when the thread keeps posts, both counters drop by n; otherwise the thread goes and the forum loses a thread |
| Mutations.MoveThreadShiftsCounters | controllers/DefaultController.php:792-793 | moving a thread shifts one thread and its `posts` from the old forum to the new one |
| Mutations.MoveThreadConsistent | controllers/DefaultController.php:784-798 | moving a thread and refiling its posts keeps the board consistent |
| Mutations.Refile | controllers/DefaultController.php:798 | `Post::updateAll` changes `forum_id` on exactly the thread's posts |
| Mutations.Reassign | controllers/DefaultController.php:934-952 | each selected post takes the destination thread and forum |
| Mutations.MovePostsKeepsCounts | controllers/DefaultController.php:954-967 | moving posts keeps every post and thread counter exact, leaves no thread empty, and shifts no forum's `threads` counter |
| Mutations.MovePostsConsistent | controllers/DefaultController.php:932-967 | moving posts into an existing thread keeps the board consistent |
| Mutations.NewEmptyThread | controllers/DefaultController.php:916-923 | the new thread of a move takes the next id, with no posts |
| Mutations.MovePostsToNewUndercounts | controllers/DefaultController.php:916-923 | as written, moving posts to a new thread leaves the parent forum counting one thread fewer than it holds |
| Mutations.MovePostsToNewConsistent | controllers/DefaultController.php:910-967 | with the parent forum counting the new thread, the move keeps the board consistent |
| Mutations.NewThreadConsistent | controllers/DefaultController.php:1107-1124 | a new thread with its first post keeps the board consistent; the forum gains one thread and one post; the thread holds exactly the new post |
| Mutations.ReplyPost | controllers/DefaultController.php:1313-1330 | a merged reply lands in the thread's latest post, a new one in the next post id |
| Mutations.ReplyConsistent | controllers/DefaultController.php:1313-1330 | both reply paths keep the board consistent |
| Mutations.ReplyLeavesUserLast | controllers/DefaultController.php:1313-1330 | after any reply by a user, the thread's latest post is theirs |
| Mutations.ReplyRunMerges | controllers/DefaultController.php:1313-1317 | two replies in a row by one user add at most one post |
| Mutations.ReplyThenDeleteRestoresCounters | controllers/DefaultController.php:1323-1328 | a reply that makes a new post, then deleting that post, gives every counter back |
| Mutations.EditConsistent | controllers/DefaultController.php:522-532 | an edit changes no counter, and it renames the thread only from its first post |
| Votes.StartCount | controllers/DefaultController.php:1774-1789 | a missing or expired window starts from 0, and a window with 10 votes refuses the vote |
| Votes.ThumbStepKeepsTally | controllers/DefaultController.php:1791-1817 | a vote keeps every thumb at +1 or -1 and the likes/dislikes equal to the thumbs |
| Votes.Accepted | controllers/DefaultController.php:1774-1831 | counts the votes of a run of requests that the window rule accepts, never more than the votes cast; the ten-per-hour bound on it is Votes.AtMostTenPerHour |
| Votes.AtMostTenPerHour | controllers/DefaultController.php:1774-1831 | starting without a window, no more than ten of the votes cast within an hour of the first are accepted |
| Tokenizer.Split | models/Post.php:173 | `explode(' ')` gives at least one piece, and no piece holds a space |
| Tokenizer.JoinSplit | models/Post.php:173 | imploding the exploded pieces gives back the text |
| Tokenizer.SplitJoin | controllers/DefaultController.php:1613-1620 | exploding imploded space-free words gives back the words |
| Tokenizer.StripTags | models/Post.php:173 | `strip_tags` on plain tags never makes the text longer |
| Tokenizer.StripTagsLeavesNoTag | models/Post.php:173 | after `strip_tags`, every `<` left is followed by white space |
| Tokenizer.NoTagUnchanged | models/Post.php:173 | text without `<` passes `strip_tags` unchanged |
| Tokenizer.BreaksToSpaces | models/Post.php:173 | replacing line-break tags never makes the text longer |
| Tokenizer.BreakBecomesSpace | models/Post.php:173 | each tag the pattern `/\<br ?\/?\>/i` matches (`<br>`, `<br/>`, `<br >`, `<br />`, in either letter case) becomes one space, whatever follows it |
| Tokenizer.OtherCharKept | models/Post.php:173 | a character that does not start a line-break tag is kept |
| Tokenizer.NoBreakUnchanged | models/Post.php:173 | text without `<` comes back unchanged |
| Tokenizer.Unique | models/Post.php:173 | `array_unique` keeps the same values, each once |
| Tokenizer.PrepareWordsSpec | models/Post.php:171-182 | the tag words are exactly the distinct 3-to-255-character pieces of the flattened text, with no white space |
| Tokenizer.Collapse | controllers/DefaultController.php:1613 | `preg_replace('/\s+/', ' ')` never makes the text longer |
| Tokenizer.CollapseLeavesSingleSpaces | controllers/DefaultController.php:1613 | after collapsing, the only white space left is single spaces |
| Tokenizer.CollapseWord | controllers/DefaultController.php:1613 | collapsing changes nothing in text without white space |
| WordIndex.AddNewWords | models/Post.php:189-212 | the vocabulary afterwards holds exactly the old words and the listed ones; known words keep their ids; the k-th word of the list that the vocabulary lacks (WordIndex.NewWords, counting from 0) gets id nextWordId + k, and the allocator moves past all of them; the vocabulary stays valid |
| WordIndex.LinkRows | models/Post.php:226-231 | one junction row links post p to the id of each word |
| WordIndex.InsertWords | models/Post.php:218-238 | after insertion the post is linked to exactly the ids of its words, once each |
| WordIndex.RelinkAsWrittenDuplicates | models/Post.php:252-258 | as written, an edit that keeps a word links it twice |
| WordIndex.RelinkCounts | models/Post.php:244-271 | the intended re-indexing links the post to exactly its current words, once each, and leaves other posts alone |
| WordIndex.UpdateWords | models/Post.php:244-271 | after the update the post's rows stand for exactly the words of its new content |
| WordIndex.UpdateWordsAsWritten | models/Post.php:244-271 | the update as written: the same vocabulary, with the duplicating junction |
| ReadTracking.SeenRaisesOnly | models/Post.php:353-375 | markSeen never lowers an existing row, and saves it exactly when it changes |
| ReadTracking.SeenCatchesUp | models/Post.php:344-375 | after markSeen the row has caught up with the post |
| ReadTracking.SeenTwiceIsSeenOnce | models/Post.php:344-375 | a second markSeen of the same post changes nothing |
| ReadTracking.UnreadCases | models/ThreadView.php:44-58 | a thread is unread exactly when the user never viewed it or a watermark lags behind a stamp that is not NULL |
| ReadTracking.RaisingOnlyRemoves | models/ThreadView.php:44-58 | raising watermarks or adding rows can only take threads off the unread list |
| ReadTracking.ListedBeforeIsStrictTotal | models/ThreadView.php:68 | the default order (`edited_post_at` with NULL first, then id) is strict and total |
| ReadTracking.AllSeenClears | controllers/DefaultController.php:1906-1933 | after marking everything seen at now, a thread is unread only if a post came or was edited after now |
| PostModel.TrimEmptyIffBlank | models/Post.php:71 | `trim` empties a value exactly when it is made only of trimmed characters |
| PostModel.Errors | models/Post.php:68-80 | the topic is required only for a first post; blank content is refused; content under 10 characters is refused |
| PostModel.ValidPostHasText | models/Post.php:68-80 | a valid post has at least ten characters, one of them not blank, and a first post has a topic |
| PostModel.Viewed | models/Post.php:351 | the thread's `views` rises by one exactly when the row was saved |
| PostModel.Acknowledged | models/Post.php:378-383 | a subscription that waits on new posts is marked seen, and no other changes |
| PostModel.MarkSeen | models/Post.php:339-385 | a guest changes nothing; a user's row becomes SeenRow of the old one, views rise when it saves, the subscription is acknowledged |
| PostModel.ViewedKeepsConsistent | models/Post.php:351 | counting views keeps the board consistent |
| PostModel.AfterSave | models/Post.php:150-165 | after saving, the junction links the post to exactly the ids of its words, once each, and every other post's rows are kept with their counts; an update runs the corrected `_updateWords` (WordIndex.UpdateWords), not the code as written at Post.php:252-258 |
| DefaultController.GuestFindsLess | controllers/DefaultController.php:83-122 | a guest finds a thread only where a signed-in user does, and both find the same threads in visible places |
| DefaultController.ThreadIsReachable | controllers/DefaultController.php:83-122 | every thread is found from its own category, forum, id and slug |
| DefaultController.CheckSelection | controllers/DefaultController.php:382-401 | the loop succeeds exactly when every posted id names a post of the thread in its forum, once; the result is that set |
| DefaultController.Settle | controllers/DefaultController.php:404-411 | the writes after posts leave a thread equal the settling rule |
| DefaultController.Delete | controllers/DefaultController.php:167-236 | a thread is deleted exactly when it is found, allowed and confirmed by its id; the board stays consistent |
| DefaultController.DeletePost | controllers/DefaultController.php:238-357 | a post is deleted exactly when thread, lock, post, permission and confirmation all pass; the board stays consistent |
| DefaultController.DeletePosts | controllers/DefaultController.php:359-465 | the selected posts are deleted exactly when the thread is found, the action allowed and every id valid |
| DefaultController.Move | controllers/DefaultController.php:769-870 | a thread moves exactly when the target forum is another existing forum; the board stays consistent |
| DefaultController.Relocate | controllers/DefaultController.php:787-798 | the writes of a move equal Mutations.MoveThread |
| DefaultController.Transfer | controllers/DefaultController.php:932-967 | the writes of a move into an existing thread equal Mutations.MovePosts |
| DefaultController.TransferToNew | controllers/DefaultController.php:910-967 | the writes of a move into a new thread equal the corrected Mutations.MovePostsToNew |
| DefaultController.MovePosts | controllers/DefaultController.php:872-1051 | posts move exactly when the selection and destination checks pass; the board stays consistent, with the new-thread path corrected to count the new thread in its forum (the code as written at lines 916-923 does not) |
| DefaultController.Subscribed | controllers/DefaultController.php:1126-1131 | a subscription is added, already seen, only for a user who asked and had none |
| DefaultController.InsertThread | controllers/DefaultController.php:1107-1118 | the new thread and first post take the next ids, and the forum counts the thread |
| DefaultController.CountNewPost | controllers/DefaultController.php:1120-1124 | the forum's and thread's `posts` rise by one and both stamps move to now |
| DefaultController.WriteNewThread | controllers/DefaultController.php:1107-1132 | the writes of a new thread equal Mutations.NewThread followed by markSeen of its first post |
| DefaultController.NewThread | controllers/DefaultController.php:1053-1179 | a thread is created exactly when allowed, the forum is found, the form is posted and valid, and it is not a preview |
| DefaultController.SaveReply | controllers/DefaultController.php:1313-1330 | a reply merges into the user's own latest post or becomes the next post |
| DefaultController.WriteReply | controllers/DefaultController.php:1313-1343 | the writes of a reply equal Mutations.Reply followed by markSeen |
| DefaultController.Reply | controllers/DefaultController.php:1235-1397 | a reply is written exactly when allowed, the thread is found and writable, and the content valid; otherwise nothing changes |
| DefaultController.WriteEdit | controllers/DefaultController.php:522-532 | the writes of an edit equal Mutations.Edit followed by markSeen |
| DefaultController.Edit | controllers/DefaultController.php:467-586 | a post is edited exactly when thread, lock, post, permission and validation pass; otherwise nothing changes |
| DefaultController.FlipTwice | controllers/DefaultController.php:719-724 | locking or pinning twice gives the thread back |
| DefaultController.Lock | controllers/DefaultController.php:707-753 | the lock flag flips exactly when the thread is found and locking is allowed, and nothing else changes |
| DefaultController.Pin | controllers/DefaultController.php:1181-1233 | the pin flag flips exactly when the thread is found and pinning is allowed, and nothing else changes |
| DefaultController.Retallied | controllers/DefaultController.php:1795-1815 | a vote changes the likes and dislikes of its post only |
| DefaultController.RecordVoteKeepsTally | controllers/DefaultController.php:1791-1817 | storing a vote keeps every post's tallies equal to its thumbs |
| DefaultController.RetalliedConsistent | controllers/DefaultController.php:1795-1815 | changing tallies keeps the board consistent |
| DefaultController.Thumb | controllers/DefaultController.php:1743-1853 | a vote is saved exactly when it is an XHR from a user on another's post in an unlocked thread within the limit |
| DefaultController.QueriesFindUnread | controllers/DefaultController.php:1906-1928 | the two queries of markSeen split the unread threads between them |
| DefaultController.CollectUnread | controllers/DefaultController.php:1916-1930 | the two loops collect exactly the lagging and the never-viewed threads |
| DefaultController.MarkAllSeenSteps | controllers/DefaultController.php:1917-1933 | the update then the batch insert give the rows AllSeen describes |
| DefaultController.MarkAllSeen | controllers/DefaultController.php:1895-1943 | for a user, every unread thread's row holds now in both watermarks; a guest changes nothing |
| DefaultController.PageParam | controllers/DefaultController.php:687-689 | the page parameter appears only for pages after the first |
| DefaultController.PageOf | controllers/DefaultController.php:1676-1677 | the page of a post holds the posts before it: (page-1)*10 <= earlier < page*10 |
| DefaultController.Show | controllers/DefaultController.php:1652-1700 | a post found with its thread links to its page with an anchor; anything else goes to the index |
| DefaultController.LastAsWritten | controllers/DefaultController.php:684-689 | the page as written is the post count divided by 10, plus one |
| DefaultController.LastAsWrittenOvershoots | controllers/DefaultController.php:684-685 | as written, the page is one past the last page exactly when the count is a positive multiple of 10 |
| DefaultController.LastAsWrittenTenPosts | controllers/DefaultController.php:684-685 | a thread of ten posts links to page 2 as written and to page 1 as intended |
| DefaultController.LastIsPageOfLastPost | controllers/DefaultController.php:662-698 | the corrected link points to the page of the thread's latest post |
| DefaultController.LongWords | controllers/DefaultController.php:1615-1619 | the kept words are exactly those of more than two characters |
| DefaultController.CheckWords | controllers/DefaultController.php:1614-1619 | the loop keeps the words of more than two characters, in order |
| DefaultController.JoinedLength | controllers/DefaultController.php:1620-1621 | long words imploded are shorter than 3 only when there are none |
| DefaultController.Search | controllers/DefaultController.php:1606-1628 | the search runs exactly when a query or author is given and a query keeps a long word; the query run is the long words |
| AdminController.BanFlipTwice | controllers/AdminController.php:86-106 | a second ban request undoes the first |
| AdminController.Ban | controllers/AdminController.php:74-122 | an active account is banned and a banned one unbanned, except one's own; other statuses are refused; roles and moderator rows stay valid |
| AdminController.PromotionDemotionInverse | controllers/AdminController.php:309-312 | promotion and demotion undo each other |
| AdminController.Promote | controllers/AdminController.php:696-740 | only a member is promoted, to moderator, and the moderator table stays valid |
| AdminController.WithoutUser | controllers/AdminController.php:320 | the delete removes exactly the user's moderator rows |
| AdminController.Demote | controllers/AdminController.php:300-345 | only a moderator is demoted, to member, and loses every moderator row |
| AdminController.Toggle | controllers/AdminController.php:517-522 | the row is deleted when present and inserted when absent, and no other row changes |
| AdminController.ToggleTwice | controllers/AdminController.php:517-522 | toggling the same row twice gives the table back |
| AdminController.Mod | controllers/AdminController.php:498-545 | the row toggles exactly when both ids pass, the user is a moderator and the forum exists |
| AdminController.PageModerator | controllers/AdminController.php:549-560 | the page's moderator is the one asked for when it is a moderator, or the first moderator when none is asked for |
| AdminController.ModsDiff | controllers/AdminController.php:577-592 | add holds the newly ticked existing forums not yet held; remove holds the unticked forums still held |
| AdminController.Applied | controllers/AdminController.php:593-598 | the batch insert and the delete change only the moderator's rows in the listed forums |
| AdminController.SaveMods | controllers/AdminController.php:547-626 | with the right moderator id, the moderator then holds exactly the selected forums, when the form listed what they held |
| AdminController.RenumberedIsContiguous | controllers/AdminController.php:783-797 | after renumbering the sort keys are 0..m without gaps or repeats, and the others keep their order |
| AdminController.QueryOrderDistinct | controllers/AdminController.php:781-782 | a query ordered by (sort, id) lists each row once |
| AdminController.SortCategory | controllers/AdminController.php:771-830 | the moved category takes place `new` (or last) and the others are renumbered around it, keeping their order |
| AdminController.RenumberForums | controllers/AdminController.php:846-860 | the loop gives the i-th other forum its slot and the moved forum `new` or the last place |
| AdminController.ResortKeepsConsistent | controllers/AdminController.php:854 | changing sort keys keeps the board consistent |
| AdminController.SortForum | controllers/AdminController.php:832-894 | within the category the forums are renumbered as for categories; other categories' forums keep their keys |
| AdminController.ContentName | controllers/AdminController.php:152-156 | the page edited is always an allowed one: the one named if allowed, else the terms page |
| AuthorRule.Execute | rbac/AuthorRule.php:27-30 | the rule holds only when a post is passed |
| AuthorRule.OnlyTheAuthor | rbac/AuthorRule.php:27-30 | at most one user passes for a given post: its author |
| AuthorRule.OtherParamsIgnored | rbac/AuthorRule.php:27-30 | parameters other than the post do not change the answer |

## Left out

- HTTP handling is not modelled: redirects, flash messages, rendering, the cache, logging and the access filter. Each action returns an outcome instead.
- RBAC checks arrive as booleans. The role assignment that promote and demote do through `authManager` is left out, and so is `Activity::updateRole`.
- Persistence failures, exceptions and transaction rollbacks are left out. Every action checks first, then writes everything.
- `Subscription::notify` after a reply, which mails subscribers, is left out. So are reply quoting (`Helper::prepareQuote`) and the e-mail of reports.
- The HtmlPurifier filters of the Post rules are taken as leaving the text unchanged. `strip_tags` is modelled for plain tags only; comments, PHP tags and quoted `>` inside attributes are left out.
- Strings are sequences of characters. `mb_strlen` counts characters, and no multibyte encoding, collation or case folding is modelled.
- The model keeps the view, thumb, subscription and junction rows of deleted threads and posts. Only a thread's posts are taken to go with it (Mutations.Cascade). Ids are never reused, so no live row or query of the model reads the stale rows.
- The re-index when moving posts is left out. Each moved post is saved at controllers/DefaultController.php:948-950, and that save runs `afterSave` and so `_updateWords`. The model keeps the moved posts' junction rows as they are. That matches the corrected `_updateWords` (WordIndex.Relink), which again links exactly the post's words, once each (WordIndex.RelinkCounts). The code as written adds a second row for every word of every moved post.
- The Thread model's rules are not part of this model. Its validation is a boolean argument, and its slug for a new thread is a parameter.
- The `threadView` and `subscription` relations are taken as filtered by the signed-in user.
- Numeric request values that are not integers (such as "2.5") are not modelled. Parameters are absent or integers.
- The SearchForm rules and `searchAdvanced`, which runs the query, are left out. Only the word filter of `actionSearch` is modelled.
- Yii's pagination clamps a page past the end to the last page. The model stops at the URL that the actions build.
- AdminController.SaveMods: the moderator page picks `current($moderators)` in database order; the model takes that order as given. With no moderator and an empty posted id, PHP's loose `0 != null` would let the save run with a NULL moderator; the model refuses a save without a moderator.
- AdminController.SortForum: the source tests the raw category parameter and then reads `$movedCategory->id`. For a missing category that is a PHP notice, not a clean refusal; the model returns NotFound.
- AdminController.Ban: `ban()` and `unban()` live in the User model, which is not part of this model. They are taken to set the status to banned and active.
- The controller actions model two corrections from the Findings table. Every re-index runs the corrected `_updateWords`, and a move into a new thread raises the parent forum's `threads` counter. `Store.Database.Valid` holds for the model with both corrections. It does not hold for the source as written: the junction can link a word to a post twice, and the forum can undercount its threads.
- Duplicate ids in the moderator selection would insert duplicate rows; the moderator table is a set in the model.

## Findings

| source | as written | input that shows it | evidently intended | confidence | as-written member | corrected member |
|---|---|---|---|---|---|---|
| controllers/DefaultController.php:916-923 | moving posts to a new thread saves the thread but never raises the parent forum's `threads` counter (actionNewThread does at line 1108) | any move of posts to a new thread | the parent forum counts the new thread | high, not executed | Mutations.MovePostsToNewUndercounts | Mutations.MovePostsToNewConsistent |
| models/Post.php:252-258 | `_updateWords` inserts a junction row for every current word, whether or not one exists | editing a post without changing its words | only words not yet linked get a row | medium (depends on the junction having no unique key), not executed | WordIndex.RelinkAsWrittenDuplicates | WordIndex.RelinkCounts |
| controllers/DefaultController.php:684-685 | `floor(count / 10) + 1` is one past the last page when the count is a multiple of 10 | a thread of 10 posts links to page 2 | the page of the last post, `floor((count - 1) / 10) + 1` | medium (Yii clamps the page, so the visible effect is the URL), not executed | DefaultController.LastAsWrittenOvershoots | DefaultController.LastIsPageOfLastPost |

Two behaviours of the code that the model keeps as written:

- A new view row's `edited_last_seen` is the post's `edited_at` when that is not empty, and its `created_at` otherwise (models/Post.php:349).
- The tag-word pipeline keeps trailing punctuation, so "mat." and "mat" stay different words (models/Post.php:173).
