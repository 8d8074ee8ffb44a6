# Forum threads: comment-tree reconciler and forum store

This project models two parts of a forum with threaded discussions and
proves properties of them.

- **The client's comment-tree reconciler** (`frontend/src/functions/forumApi.ts`)
  is modelled in `comment_tree.dfy` (module `CommentTree`).
  - The comments under a post form an ordered forest of `Reply` nodes.
  - `updateNestedComments` walks the forest and replaces the node with the
    target id by `updateFn(node)`. It does not descend below that node.
  - Five operations are built on it: append one reply, append many replies,
    edit the text, toggle the like, and remove a child of a named parent.
  - Next to them are the updaters of the flat top-level lists: remove a post,
    remove a comment, prepend a new comment, and merge a fetched page.
  - All of these are pure functions. They are modelled as Dafny functions,
    with lemmas about them.
- **The server's forum store** (`backend/src/controllers/groupController.ts`).
  - The store has three tables: groups, posts and comments (`entities.dfy`).
  - The `search*` helpers filter a table with a case-insensitive substring
    match (`ILIKE '%q%'`). They order the rows and return one page, with
    `offset = (page - 1) * pageSize`, at most `pageSize` rows and
    `ceil(count / pageSize)` pages. They are pure functions in `search.dfy`.
  - The request handlers become the class `ForumStore.Store`
    (`forum_store.dfy`). Its three `seq` fields are the tables.
    - Read handlers are functions of the store.
    - Create, update, delete and reply handlers are methods that reassign
      the tables.
  - Every method keeps the tables well formed. Well formed means unique
    primary keys, and no comment replying to itself.
  - Every method except the as-written reply deletion keeps the denormalised
    counters equal to the rows they count. The counters are a group's
    `postCount`, a post's `replies` and a comment's `replies`.
  - `counters.dfy` proves, handler by handler, that each change keeps the
    counters consistent. Renaming or deleting a group touches no counter that
    any row is checked against, so those two lemmas need no proof steps.

The model uses these names for the handlers' outcomes and inputs:

- **Thrown**: an error passed to `next(error)`.
- **NotFound**: a 404.
- **Unauthorized**: a 401.
- **NoReply**: the handler sends nothing.
- **The caller**: the signed-in user, `req.user`. It is an `Option<string>`.
- **Ids and the clock**: the database generates ids and `createdAt`. The
  model takes them as parameters. A new id must satisfy `Fresh`: no row
  has it, and no row refers to it.

## Model

| member | source | states |
|---|---|---|
| CommentTree.UpdateNested | frontend/src/functions/forumApi.ts:715-732 | `updateNestedComments` keeps the length of the top-level list |
| CommentTree.UpdateNestedOnPath | frontend/src/functions/forumApi.ts:715-732 | at any depth the search reaches, a target node becomes exactly `updateFn(node)` and is not searched further; a non-target node keeps every field except `Replies`, and keeps as many children as before |
| CommentTree.UpdateNestedAbsent | frontend/src/functions/forumApi.ts:715-732 | when no node anywhere has the target id, the forest comes back equal to the input |
| CommentTree.UpdateNestedFixes | frontend/src/functions/forumApi.ts:715-732 | when the update leaves every reached target as it was, the whole forest is unchanged |
| CommentTree.UpdateNestedCompose | frontend/src/functions/forumApi.ts:715-732 | two updates of the same target, the first keeping ids, equal one update by the composed function |
| CommentTree.AddCommentReply | frontend/src/functions/forumApi.ts:644-655 | `addCommentReply` keeps the top-level length |
| CommentTree.AddCommentReplyOnPath | frontend/src/functions/forumApi.ts:644-655 | the target's `Replies` become the old `Replies` with `newReply` appended at the end; every other reached node keeps its own fields |
| CommentTree.AddCommentReplies | frontend/src/functions/forumApi.ts:657-668 | `addCommentReplies` keeps the top-level length |
| CommentTree.AddCommentRepliesOnPath | frontend/src/functions/forumApi.ts:657-668 | the target's `Replies` become the old `Replies` followed by all of `newReplies`, duplicates included, so the lengths add up; every field other than `Replies` is kept |
| CommentTree.EditComment | frontend/src/functions/forumApi.ts:670-681 | `editComment` keeps the top-level length |
| CommentTree.EditCommentOnPath | frontend/src/functions/forumApi.ts:670-681 | only the target's `comment` text changes, to `content`; its id, likes, like flag and children are kept |
| CommentTree.EditCommentIdempotent | frontend/src/functions/forumApi.ts:670-681 | editing a target twice with the same text equals editing it once |
| CommentTree.ToggleLike | frontend/src/functions/forumApi.ts:686-699 | the toggle flips `isLiked` and changes no field other than `likes`; liking adds one; unliking gives `max(likes - 1, 0)`, never negative |
| CommentTree.LikeAndUnlikeComment | frontend/src/functions/forumApi.ts:683-700 | `likeAndUnlikeComment` keeps the top-level length |
| CommentTree.LikeAndUnlikeOnPath | frontend/src/functions/forumApi.ts:683-700 | the reached target has its flag flipped and `likes` moved by one, floored at zero; other reached nodes keep their own fields |
| CommentTree.ToggleLikeTwice | frontend/src/functions/forumApi.ts:687-699 | toggling twice restores a node if and only if it is unliked with `likes >= 0` or liked with `likes >= 1`; a liked node at zero comes back with one like |
| CommentTree.LikeAndUnlikeTwice | frontend/src/functions/forumApi.ts:683-700 | toggling the same target twice gives back the forest when every reached target can be restored |
| CommentTree.DeleteCommentReply | frontend/src/functions/forumApi.ts:702-713 | `deleteCommentReply` keeps the top-level length |
| CommentTree.DeleteCommentReplyOnPath | frontend/src/functions/forumApi.ts:702-713 | the parent's children lose exactly those with id `targetId`, and the others are kept in order; all other fields are kept |
| CommentTree.DeleteCommentReplyKeepsTopLevel | frontend/src/functions/forumApi.ts:702-713 | removal works only through the parent: every top-level node keeps its id, even one whose id is `targetId` |
| CommentTree.DeleteCommentFromList | frontend/src/functions/forumApi.ts:324-326 | `deleteCommentFromList` drops every top-level entry with the id and keeps every other entry; the length falls by the number of occurrences of the id |
| CommentTree.FilterSplits | frontend/src/functions/forumApi.ts:324-326 | every entry is either kept by the filter or counted as an occurrence of the id |
| CommentTree.DeletePostFromList | frontend/src/functions/forumApi.ts:53-55 | `deletePostFromList` drops every post with the id and keeps every other post |
| CommentTree.AddCommentToList | frontend/src/functions/forumApi.ts:328-330 | `addCommentToList` puts the new reply at index 0 and keeps the old list after it |
| CommentTree.AddCommentToListKeepsDuplicates | frontend/src/functions/forumApi.ts:328-330 | the reference-based `Set` removes nothing, so an id that is already listed is listed once more |
| CommentTree.MergeFetchedPage | frontend/src/functions/forumApi.ts:309 | the page merge as written: the old list followed by the whole fetched page |
| CommentTree.MergeFetchedPageOccurrences | frontend/src/functions/forumApi.ts:309 | after the merge, each id is listed as often as in the two inputs together |
| CommentTree.MergeFetchedPageDuplicates | frontend/src/functions/forumApi.ts:309 | a concrete sequence of calls after which one comment is listed twice |
| CommentTree.MergeFetchedPageById | frontend/src/functions/forumApi.ts:309 | the corrected merge: the old list, then only the fetched entries with ids not yet listed, in order |
| CommentTree.MergeFetchedPageByIdUnique | frontend/src/functions/forumApi.ts:309 | the corrected merge keeps ids unique |
| CommentTree.MergeFetchedPageByIdListed | frontend/src/functions/forumApi.ts:309 | after the corrected merge, an id is listed if and only if it was listed before or was fetched |
| Search.Lower | backend/src/controllers/groupController.ts:44 | case folding keeps the length and folds each character on its own |
| Search.LowerIdempotent | backend/src/controllers/groupController.ts:44 | folding twice is folding once |
| Search.ContainsIff | backend/src/controllers/groupController.ts:44 | `%q%` matches exactly when `q` occurs at some index of the text |
| Search.ILikeEmpty | backend/src/controllers/groupController.ts:44 | the empty query matches every text |
| Search.ILikeIgnoresCase | backend/src/controllers/groupController.ts:44 | `ILIKE` gives the same answer whichever case the text or the query is in |
| Search.SortBy | backend/src/controllers/groupController.ts:42 | ordering the rows is a permutation of them |
| Search.SortBySorted | backend/src/controllers/groupController.ts:42 | under a total preorder, the ordered rows are sorted |
| Search.GroupNameAscIsTotal | backend/src/controllers/groupController.ts:42 | `groupName ASC` is a total preorder |
| Search.PostNewestFirstIsTotal | backend/src/controllers/groupController.ts:122 | `createdAt DESC` on posts is a total preorder; rows with equal timestamps are not ordered further |
| Search.CommentNewestFirstIsTotal | backend/src/controllers/groupController.ts:421 | `createdAt DESC` on comments is a total preorder |
| Search.CeilDiv | backend/src/controllers/groupController.ts:51 | `Math.ceil(count / pageSize)` is the smallest page count that holds every row |
| Search.Paginate | backend/src/controllers/groupController.ts:37-41 | the page is the window at `offset = (page - 1) * pageSize`, holds at most `pageSize` rows, and reports the number of rows and `ceil(count / pageSize)` pages |
| Search.PageEmptyIffPastLast | backend/src/controllers/groupController.ts:37-51 | a page is empty if and only if its number is past `totalPages` |
| Search.PagesUpToPrefix | backend/src/controllers/groupController.ts:37-41 | pages 1 to n, one after the other, are exactly the first `n * pageSize` rows |
| Search.AllPagesAreAllRows | backend/src/controllers/groupController.ts:37-51 | pages 1 to `totalPages` are all the rows, in order |
| Search.SearchPage | backend/src/controllers/groupController.ts:36-53 | every helper's `findAndCountAll`: the page is exactly the window at `(page - 1) * pageSize` of the matching rows in `ORDER BY` order, with their count and `ceil(count / pageSize)` pages; every row matches and is in the table; the rows are ordered |
| Search.SearchPagesCoverMatches | backend/src/controllers/groupController.ts:36-53 | the rows of page queries 1 to `totalPages` are all the matching rows in order, each once, provided every query orders tied rows alike |
| Search.SearchPagesArePages | backend/src/controllers/groupController.ts:37-41 | the rows of page queries 1 to n are the first n windows of the ordered matches |
| Search.SortedUnique | backend/src/controllers/groupController.ts:42 | when no two rows tie under the order, the rows have exactly one sorted order |
| Search.NoTiesPagesAgree | backend/src/controllers/groupController.ts:37-42 | when no two matching rows tie, any sorted order the database picks for a page query gives that query the modelled page |
| Search.TiedPostsSortEitherWay | backend/src/controllers/groupController.ts:122 | two distinct posts with the same `createdAt` tie, and both their orders are sorted newest first |
| Search.TiedPostsCanRepeatAcrossPages | backend/src/controllers/groupController.ts:118-122 | with one row per page, two tied posts ordered one way for page 1 and the other way for page 2 show one post twice and the other never |
| Search.SearchGroup | backend/src/controllers/groupController.ts:36-53 | `searchGroup`: exactly the window of groups whose name contains the search value ignoring case, ordered by name; each row matches; at most `pageSize` |
| Search.SearchMyGroups | backend/src/controllers/groupController.ts:595-619 | `searchMyGroups`: exactly the window of groups that match and have `ownerId == uid` and `ownerType == "User"`, by name |
| Search.SearchGroupPosts | backend/src/controllers/groupController.ts:101-138 | `searchGroupPosts`: exactly the window of the group's posts whose title contains the query ignoring case, newest first |
| Search.SearchAllPosts | backend/src/controllers/groupController.ts:185-220 | `searchAllPosts`: exactly the window of matching posts, newest first; a blank query applies no filter, so the page is that of all posts and the count is every post; otherwise each title contains the query ignoring case |
| Search.SearchMyPost | backend/src/controllers/groupController.ts:671-704 | `searchMyPost`: exactly the window of the user's posts (`uid`) whose title contains the query, newest first |
| Search.SearchPostComments | backend/src/controllers/groupController.ts:407-424 | `searchPostComments`: exactly the rows of the window of the post's direct replies, newest first |
| Search.SearchGroupIgnoresCase | backend/src/controllers/groupController.ts:36-53 | two search values equal up to case give the same page |
| Search.SearchGroupEmptyMatchesAll | backend/src/controllers/groupController.ts:36-53 | an empty search value counts every group |
| Search.SearchAllPostsIgnoresCase | backend/src/controllers/groupController.ts:185-220 | two queries equal up to case, and both blank or both not blank, give the same page |
| Search.BlankQueryOnlyWidensAllPosts | backend/src/controllers/groupController.ts:192-196 | a query of spaces lists every post in `searchAllPosts`, but `searchGroupPosts` still requires a space in the title |
| Counters.CreateGroupKeepsCounters | backend/src/controllers/groupController.ts:223-240 | a new group with no posts keeps every counter |
| Counters.CreatePostKeepsCounters | backend/src/controllers/groupController.ts:250-257 | a new post adds exactly one to its group's `postCount` and nothing else |
| Counters.UpdateGroupKeepsCounters | backend/src/controllers/groupController.ts:266-293 | renaming a group keeps every counter |
| Counters.UpdatePostKeepsCounters | backend/src/controllers/groupController.ts:295-323 | editing a post keeps every counter |
| Counters.DeleteGroupKeepsCounters | backend/src/controllers/groupController.ts:326-348 | removing a group row leaves the other counters in agreement |
| Counters.DeletePostKeepsCounters | backend/src/controllers/groupController.ts:366-369 | removing a post and taking one from its group's `postCount` keeps every counter |
| Counters.DeleteOrphanPostKeepsCounters | backend/src/controllers/groupController.ts:366-369 | removing a post whose group is gone keeps every counter |
| Counters.ReplyToPostKeepsCounters | backend/src/controllers/groupController.ts:492-499 | a reply to a post adds exactly one to that post's `replies` and nothing else |
| Counters.ReplyToCommentKeepsCounters | backend/src/controllers/groupController.ts:462-469 | a reply to a comment adds exactly one to that comment's `replies` only |
| Counters.UpdateReplyKeepsCounters | backend/src/controllers/groupController.ts:530-555 | editing a comment's text keeps every counter |
| ForumStore.QueryUsed | backend/src/controllers/groupController.ts:16-25 | the query is used only when the page is also given; otherwise the search text is empty |
| ForumStore.OwnedGroupIndex | backend/src/controllers/groupController.ts:274-283 | the ownership gate finds a row with that id owned by the caller as `"User"`; it finds none if and only if there is no caller or no such row |
| ForumStore.OwnedPostIndex | backend/src/controllers/groupController.ts:303-311 | the gate finds a post with that id written by the caller; it finds none if and only if there is no caller or no such post |
| ForumStore.OwnedCommentIndex | backend/src/controllers/groupController.ts:513-519 | the gate finds a comment with that id written by the caller; it finds none if and only if there is no caller or no such comment |
| ForumStore.DeleteReplyLeavesCounterStale | backend/src/controllers/groupController.ts:506-528 | a post with one reply: after that reply is deleted, the counters no longer agree with the rows |
| ForumStore.DeleteReplyUnderPostKeepsCounters | backend/src/controllers/groupController.ts:506-528 | the corrected deletion of a reply to a post, with one taken from the post's `replies`, keeps every counter |
| ForumStore.DeleteReplyUnderCommentKeepsCounters | backend/src/controllers/groupController.ts:506-528 | the corrected deletion of a reply to a comment, with one taken from the parent's `replies`, keeps every counter |
| ForumStore.DeleteOrphanReplyKeepsCounters | backend/src/controllers/groupController.ts:506-528 | deleting a reply whose parent row is gone keeps every counter |
| ForumStore.CreateGroupStep | backend/src/controllers/groupController.ts:223-240 | creating a group keeps the tables well formed and the counters consistent |
| ForumStore.CreatePostStep | backend/src/controllers/groupController.ts:242-263 | creating a post keeps the tables well formed and the counters consistent |
| ForumStore.UpdateGroupStep | backend/src/controllers/groupController.ts:266-293 | updating a group keeps the tables well formed and the counters consistent |
| ForumStore.UpdatePostStep | backend/src/controllers/groupController.ts:295-323 | updating a post keeps the tables well formed and the counters consistent |
| ForumStore.DeleteGroupStep | backend/src/controllers/groupController.ts:326-348 | deleting a group keeps the tables well formed and the counters consistent |
| ForumStore.DeletePostStep | backend/src/controllers/groupController.ts:350-374 | deleting a post keeps the tables well formed and the counters consistent |
| ForumStore.DeleteOrphanPostStep | backend/src/controllers/groupController.ts:350-374 | deleting a post whose group is gone keeps the tables well formed and the counters consistent |
| ForumStore.ReplyToPostStep | backend/src/controllers/groupController.ts:476-504 | a reply to a post keeps the tables well formed and the counters consistent |
| ForumStore.ReplyToCommentStep | backend/src/controllers/groupController.ts:446-474 | a reply to a comment keeps the tables well formed and the counters consistent |
| ForumStore.UpdateReplyStep | backend/src/controllers/groupController.ts:530-555 | editing a reply keeps the tables well formed and the counters consistent |
| ForumStore.CountedRemoval | backend/src/controllers/groupController.ts:506-528 | the corrected deletion keeps the number of posts and removes one comment |
| ForumStore.CountedRemovalStep | backend/src/controllers/groupController.ts:506-528 | the corrected deletion keeps the tables well formed and the counters consistent |
| ForumStore.Store.GetGroupList | backend/src/controllers/groupController.ts:8-34 | `handleGetGroupList`: the rows of `searchGroup` for the page, so at most ten groups, by name, each matching the query; the query counts only with a page; a page below 1 is passed to `next` |
| ForumStore.Store.GetGroup | backend/src/controllers/groupController.ts:55-70 | `handleGetGroup`: the group with the id; an error if and only if there is none |
| ForumStore.Store.GetGroupPostList | backend/src/controllers/groupController.ts:72-99 | `handleGetGroupPostList`: without `q` and `page` an error is passed on; an unknown group is a 404; with both, a page of at least 1 and a known group it succeeds with the group's name and the rows of `searchGroupPosts`: at most ten of its posts that match `q`, newest first |
| ForumStore.Store.Summarise | backend/src/controllers/groupController.ts:150-166 | each listed post is paired with a group name: the name of a group row whose id is the post's `groupId`, present if and only if such a row exists (the lookup is assumed, see below) |
| ForumStore.Store.GetAllPosts | backend/src/controllers/groupController.ts:140-183 | `handleGetAllPosts`: the rows of `searchAllPosts` for the page, formatted if and only if both `q` and `page` are given, else bare; at most ten; newest first in both forms; with a blank query they are the page of all posts |
| ForumStore.Store.GetMyGroupList | backend/src/controllers/groupController.ts:558-593 | `handleGetMyGroupList`: no caller is a 401; otherwise the rows of `searchMyGroups`: at most ten groups the caller owns, by name, matching the query |
| ForumStore.Store.GetMyPostList | backend/src/controllers/groupController.ts:621-669 | `handleGetMyPostList`: no caller is a 401; otherwise the rows of `searchMyPost`: at most ten of the caller's own posts, newest first in both forms; formatted if and only if `q` and `page` are both given |
| ForumStore.Store.GetPostComments | backend/src/controllers/groupController.ts:377-405 | `handleGetPostComments`: no page, no answer; an unknown post is a 404; a page of at least 1 and a known post succeed with the rows of `searchPostComments`: at most ten direct replies, newest first |
| ForumStore.Store.GetCommentComments | backend/src/controllers/groupController.ts:426-444 | `handleGetCommentComments`: 404 if and only if the comment is unknown; otherwise exactly its direct replies: every returned row replies to the comment, every reply is returned, and there are as many rows as replies, a number which is the comment's `replies` counter when the counters are consistent |
| ForumStore.Store.CreateGroup | backend/src/controllers/groupController.ts:223-240 | `handleCreateGroup`: with a caller, one new group owned by the caller as `"User"` with `postCount` 0 is appended; without one nothing changes; the invariants are kept |
| ForumStore.Store.CreatePost | backend/src/controllers/groupController.ts:242-263 | `handleCreateNewPost`: a missing group throws and changes nothing; otherwise the post is appended and its group's `postCount` goes up by exactly one |
| ForumStore.Store.UpdateGroup | backend/src/controllers/groupController.ts:266-293 | `handleUpdateGroup`: fails if and only if the caller does not own the group; otherwise only its name and description change |
| ForumStore.Store.UpdatePost | backend/src/controllers/groupController.ts:295-323 | `handleUpdatePost`: fails if and only if the caller does not own the post; otherwise only its title and details change |
| ForumStore.Store.DeleteGroup | backend/src/controllers/groupController.ts:326-348 | `handleDeleteGroup`: fails if and only if the caller does not own the group; otherwise the group row is removed |
| ForumStore.Store.DeletePost | backend/src/controllers/groupController.ts:350-374 | `handleDeletePost`: not owned throws with no change; otherwise the post is removed and its group's `postCount` falls by one; when the group is gone, the decrement throws after the removal |
| ForumStore.Store.ReplyToPost | backend/src/controllers/groupController.ts:476-504 | `handleReplyToPost`: an unknown post is a 404 (checked first), no caller a 401; it succeeds if and only if the post exists and there is a caller, and then a comment with parent `ParentPost(postId)` is appended and the post's `replies` goes up by one |
| ForumStore.Store.ReplyToComment | backend/src/controllers/groupController.ts:446-474 | `handleReplyToComment`: an unknown comment is a 404, no caller a 401; it succeeds if and only if the comment exists and there is a caller, and then a comment with parent `ParentComment(commentId)` is appended and only the parent's `replies` goes up |
| ForumStore.Store.UpdateReply | backend/src/controllers/groupController.ts:530-555 | `handleUpdateReply`: a 404 with no change if and only if the caller has no comment with that id; otherwise only its text changes |
| ForumStore.Store.DeleteReply | backend/src/controllers/groupController.ts:506-528 | `handleDeleteReply` as written: a 404 if and only if the caller has no such comment; otherwise only that row is removed, and the tables stay well formed |
| ForumStore.Store.DeleteReplyAndCount | backend/src/controllers/groupController.ts:506-528 | the corrected reply deletion: as `DeleteReply`, and the parent's `replies` falls by one, so the counters stay consistent |

## Left out

- React state and effects are not modelled: `useState`, `useEffect`, the axios
  requests, `AbortController` cancellation, loading and error flags. Only the
  updater functions passed to the state setters are modelled.
- The post-list hooks merge fetched pages with `new Set` (forumApi.ts:38). The
  same reference-based `Set` appears in the comment merge at line 309, which
  stands for both.
- The REST wrappers, tags, resources and the summary flow are left out. They
  are network calls with no logic of their own.
- Sequelize is not modelled. The model has no database, transactions,
  cascades or associations as stored objects. Deleting a group or a post
  removes only that row; what the database does with dependent rows is not
  part of this model.
- Concurrent requests and the atomicity of `increment`/`decrement` are left
  out. Every handler runs alone, as one step.
- `ILIKE` is modelled as substring search after ASCII lower-casing. The
  pattern characters `%` and `_` inside a query, and the database's
  collation, are not modelled.
- String order is code-point order. Rows that tie under `ORDER BY` keep their
  table order in `Search.SortBy`, and every page query uses that one order.
  The database may order ties differently for each query, and every sort key
  here can tie (`createdAt` at lines 122 and 421, `groupName` at line 42).
  Then paging can show a row twice and skip another
  (`Search.TiedPostsCanRepeatAcrossPages`). `Search.SearchPagesCoverMatches`
  holds for the database only when no two matching rows tie
  (`Search.NoTiesPagesAgree`).
- ForumStore.Store.Summarise: `getGroupName` is not part of this model. The
  formatted listing reads `post.groupName` after
  calling it (lines 152 and 156). The model takes it to yield the name of the
  group row whose id is the post's `groupId`, and none when there is no such
  row. The "present if and only if" is an assumption about that lookup.
- ForumStore.OwnedGroupIndex: `getOwnedGroups` (line 274) is a Sequelize
  association that `models/User.ts` does not declare. The model takes it
  to be the groups with `ownerId` equal to the caller's uid and `ownerType`
  "User", which is how `handleCreateGroup` (lines 230-235) records an owner
  and how `searchMyGroups` queries them.
- `parseInt` and `NaN` pages are not modelled. A page is an integer. A page
  below 1 gives a negative `offset`, which the database rejects, so it is
  modelled as an error passed to `next`.
- `Date` values are integers (`createdAt`). The database's id and timestamp
  defaults are parameters of the methods.
- Attribute projections (`attributes: [...]`) and the `include` of the owning
  user are not modelled. A listed row is the whole row.
- The bare listing path returns the results of `getGroupName()`. It is
  modelled as the rows of the page, without the extra lookup.
- The rows of `getReplies` in `handleGetCommentComments` come back in table
  order. No `order` clause is modelled for them.
- The handlers add `Replies: []` to each comment they send back. The
  server's `Comment` has no such field; the client's `Reply` has it.
- Handlers that only call `res.status(200)` never send a response. The model
  returns `Ok(())` for them.
- Entities, routes, authentication and the server wiring are not modelled.
  `req.user` is taken as given: the caller's uid, or none.

## Findings

| source | as written | input that shows it | evidently intended | confidence | as-written member | corrected member |
|---|---|---|---|---|---|---|
| frontend/src/functions/forumApi.ts:309 | `[...new Set([...prev, ...res.data])]` compares objects by reference. Fetched entries are fresh objects, so nothing is ever removed as a duplicate. | Page 1 held `[a, b]`. The user posts `n`, which `addCommentToList` puts first. The server's offsets shift by one, so page 2 is `[b, c]`. `b` is now listed twice. | Merge by `commentId`: append only the fetched entries whose id is not listed yet. | medium, not executed | CommentTree.MergeFetchedPage, CommentTree.MergeFetchedPageDuplicates | CommentTree.MergeFetchedPageById, CommentTree.MergeFetchedPageByIdUnique |
| backend/src/controllers/groupController.ts:522-524 | `handleDeleteReply` destroys the comment and changes no counter, while replying adds one to the parent's `replies`. | A post with `replies == 1` and its one reply. After the reply is deleted, the post still says 1 with no replies. | Take one from the parent post's or comment's `replies`, the counterpart of the increments at lines 469 and 499. | medium, not executed | ForumStore.Store.DeleteReply, ForumStore.DeleteReplyLeavesCounterStale | ForumStore.Store.DeleteReplyAndCount, ForumStore.CountedRemovalStep |
