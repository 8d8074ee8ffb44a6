/** The request handlers of backend/src/controllers/groupController.ts over
    an in-memory copy of the three tables. Reads are functions of the store;
    the create, update, delete and reply handlers are methods that change it.
    Every method keeps `Valid()` (unique keys, ids known) and, when the
    counters agreed with the rows before, still agree after it; the one
    handler that breaks them, `DeleteReply`, stands beside its corrected
    form `DeleteReplyAndCount`. */
module ForumStore {
  import opened Common
  import opened Entities
  import opened Search
  import opened Counters

  /** How a handler ends when it does not answer with its result:
      an error passed to `next` (Thrown), a 404, a 401, or no answer at all. */
  datatype Failure = Thrown | NotFound | Unauthorized | NoReply

  datatype Response<T> = Ok(value: T) | Err(failure: Failure)

  /** Every list handler asks for pages of ten rows. */
  const PageSize := 10

  /** The page a list handler asks for: the `page` query parameter, or 1. */
  function PageOr1(page: Option<int>): int
  {
    if page.Some? then page.value else 1
  }

  /** The search text a list handler uses: `q` only when `page` is also given. */
  function QueryUsed(q: Option<string>, page: Option<int>): (s: string)
    ensures q.None? || page.None? ==> s == ""
    ensures q.Some? && page.Some? ==> s == q.value
  {
    if q.Some? && page.Some? then q.value else ""
  }

  // ---------------------------------------------------------------------------
  // Lookups (`findByPk`) and ownership gates (`getOwnedGroups`, `getPosts`,
  // `getComments` of the signed-in user)

  function GroupIndex(groups: seq<Group>, groupId: string): Option<nat>
  {
    FirstWhere(groups, (g: Group) => g.groupId == groupId)
  }

  function PostIndex(posts: seq<Post>, postId: string): Option<nat>
  {
    FirstWhere(posts, (p: Post) => p.postId == postId)
  }

  function CommentIndex(comments: seq<Comment>, commentId: string): Option<nat>
  {
    FirstWhere(comments, (c: Comment) => c.commentId == commentId)
  }

  predicate OwnsGroup(g: Group, uid: string, groupId: string)
  {
    g.groupId == groupId && g.ownerId == uid && g.ownerType == UserOwner
  }

  predicate OwnsPost(p: Post, uid: string, postId: string)
  {
    p.postId == postId && p.uid == Some(uid)
  }

  predicate OwnsComment(c: Comment, uid: string, commentId: string)
  {
    c.commentId == commentId && c.uid == uid
  }

  /** The group `groupId` when the caller owns it as a user; nothing when
      there is no caller. */
  function OwnedGroupIndex(groups: seq<Group>, caller: Option<string>, groupId: string): (r: Option<nat>)
    ensures r.Some? ==> caller.Some? && r.value < |groups| && OwnsGroup(groups[r.value], caller.value, groupId)
    ensures r.None? <==> caller.None? || forall i :: 0 <= i < |groups| ==> !OwnsGroup(groups[i], caller.value, groupId)
  {
    if caller.None? then None
    else FirstWhere(groups, (g: Group) => OwnsGroup(g, caller.value, groupId))
  }

  /** The post `postId` when the caller wrote it. */
  function OwnedPostIndex(posts: seq<Post>, caller: Option<string>, postId: string): (r: Option<nat>)
    ensures r.Some? ==> caller.Some? && r.value < |posts| && OwnsPost(posts[r.value], caller.value, postId)
    ensures r.None? <==> caller.None? || forall i :: 0 <= i < |posts| ==> !OwnsPost(posts[i], caller.value, postId)
  {
    if caller.None? then None
    else FirstWhere(posts, (p: Post) => OwnsPost(p, caller.value, postId))
  }

  /** The comment `commentId` when the caller wrote it. */
  function OwnedCommentIndex(comments: seq<Comment>, caller: Option<string>, commentId: string): (r: Option<nat>)
    ensures r.Some? ==> caller.Some? && r.value < |comments| && OwnsComment(comments[r.value], caller.value, commentId)
    ensures r.None? <==> caller.None? || forall i :: 0 <= i < |comments| ==> !OwnsComment(comments[i], caller.value, commentId)
  {
    if caller.None? then None
    else FirstWhere(comments, (c: Comment) => OwnsComment(c, caller.value, commentId))
  }

  /** A listed post with the name of its group, as the formatted listings
      return it; the name is absent when the group row is gone. */
  datatype PostSummary = PostSummary(post: Post, groupName: Option<string>)

  /** The post listings answer with formatted rows when both `q` and `page`
      are given, and otherwise with the bare results of `getGroupName()`, one
      per row of the page. */
  datatype PostListing = Formatted(summaries: seq<PostSummary>) | GroupNameResults(rows: seq<Post>)

  /** A comment deleted under `DeleteReply` leaves its parent's counter one
      too high: one post with one reply, the reply deleted. */
  lemma DeleteReplyLeavesCounterStale()
    ensures var post := Post("p", "g", "t", "d", Some("u"), 0, 1, 0, 0);
            var reply := Comment("c", "hi", "u", ParentPost("p"), 0, 0);
            var group := Group("g", "n", "", 1, "u", UserOwner);
            CountersConsistent([group], [post], [reply]) &&
            !CountersConsistent([group], [post], RemoveAt([reply], 0))
  {
    var post := Post("p", "g", "t", "d", Some("u"), 0, 1, 0, 0);
    var reply := Comment("c", "hi", "u", ParentPost("p"), 0, 0);
    var group := Group("g", "n", "", 1, "u", UserOwner);
    assert CountersConsistent([group], [post], [reply]) by {
      PostsInAppend([], post, "g");
      PostsInNone([], "g");
      RepliesToAppend([], reply, ParentPost("p"));
      RepliesToAppend([], reply, ParentComment("c"));
      RepliesToNone([], ParentPost("p"));
      RepliesToNone([], ParentComment("c"));
      assert [] + [post] == [post] && [] + [reply] == [reply];
    }
    assert RemoveAt([reply], 0) == [];
    assert !CountersConsistent([group], [post], []) by {
      RepliesToNone([], ParentPost("p"));
      assert [post][0].replies != RepliesTo([], ParentPost([post][0].postId));
    }
  }

  /** Deleting comment `k` that replies to post `j`, and taking one from that
      post's `replies`, keeps every counter. */
  lemma DeleteReplyUnderPostKeepsCounters(groups: seq<Group>, posts: seq<Post>, comments: seq<Comment>, k: nat, j: nat)
    requires CountersConsistent(groups, posts, comments) && UniqueKeys(posts, PostKey)
    requires k < |comments| && j < |posts| && comments[k].parent == ParentPost(posts[j].postId)
    ensures CountersConsistent(groups, posts[j := posts[j].(replies := posts[j].replies - 1)], RemoveAt(comments, k))
  {
    var posts' := posts[j := posts[j].(replies := posts[j].replies - 1)];
    var comments' := RemoveAt(comments, k);
    forall i | 0 <= i < |groups|
      ensures groups[i].postCount == PostsIn(posts', groups[i].groupId)
    {
      PostsInUpdateAt(posts, j, posts'[j], groups[i].groupId);
    }
    forall i | 0 <= i < |posts'|
      ensures posts'[i].replies == RepliesTo(comments', ParentPost(posts'[i].postId))
    {
      RepliesToRemoveAt(comments, k, ParentPost(posts[i].postId));
      assert i != j ==> PostKey(posts[i]) != PostKey(posts[j]);
    }
    forall i | 0 <= i < |comments'|
      ensures comments'[i].replies == RepliesTo(comments', ParentComment(comments'[i].commentId))
    {
      RepliesToRemoveAt(comments, k, ParentComment(comments'[i].commentId));
    }
  }

  /** Deleting comment `k` that replies to comment `j`, and taking one from
      that comment's `replies`, keeps every counter. */
  lemma DeleteReplyUnderCommentKeepsCounters(groups: seq<Group>, posts: seq<Post>, comments: seq<Comment>, k: nat, j: nat)
    requires CountersConsistent(groups, posts, comments) && UniqueKeys(comments, CommentKey)
    requires k < |comments| && j < |comments| && j != k
    requires comments[k].parent == ParentComment(comments[j].commentId)
    ensures CountersConsistent(groups, posts,
              RemoveAt(comments[j := comments[j].(replies := comments[j].replies - 1)], k))
  {
    var lowered := comments[j := comments[j].(replies := comments[j].replies - 1)];
    var comments' := RemoveAt(lowered, k);
    forall i | 0 <= i < |posts|
      ensures posts[i].replies == RepliesTo(comments', ParentPost(posts[i].postId))
    {
      RepliesToUpdateAt(comments, j, lowered[j], ParentPost(posts[i].postId));
      RepliesToRemoveAt(lowered, k, ParentPost(posts[i].postId));
    }
    forall i | 0 <= i < |comments'|
      ensures comments'[i].replies == RepliesTo(comments', ParentComment(comments'[i].commentId))
    {
      var parent := ParentComment(comments'[i].commentId);
      RepliesToUpdateAt(comments, j, lowered[j], parent);
      RepliesToRemoveAt(lowered, k, parent);
      var src := if i < k then i else i + 1;
      assert comments'[i] == lowered[src];
      if src != j {
        assert CommentKey(comments[src]) != CommentKey(comments[j]);
      }
    }
  }

  /** Deleting a comment whose parent row is gone moves no counter that
      remains. */
  lemma DeleteOrphanReplyKeepsCounters(groups: seq<Group>, posts: seq<Post>, comments: seq<Comment>, k: nat)
    requires CountersConsistent(groups, posts, comments)
    requires k < |comments|
    requires forall i :: 0 <= i < |posts| ==> comments[k].parent != ParentPost(posts[i].postId)
    requires forall i :: 0 <= i < |comments| ==> comments[k].parent != ParentComment(comments[i].commentId)
    ensures CountersConsistent(groups, posts, RemoveAt(comments, k))
  {
    var comments' := RemoveAt(comments, k);
    forall i | 0 <= i < |posts|
      ensures posts[i].replies == RepliesTo(comments', ParentPost(posts[i].postId))
    {
      RepliesToRemoveAt(comments, k, ParentPost(posts[i].postId));
    }
    forall i | 0 <= i < |comments'|
      ensures comments'[i].replies == RepliesTo(comments', ParentComment(comments'[i].commentId))
    {
      RepliesToRemoveAt(comments, k, ParentComment(comments'[i].commentId));
      assert comments'[i] == comments[if i < k then i else i + 1];
    }
  }

  /** Primary keys are unique and no comment replies to itself. */
  ghost predicate WellFormed(groups: seq<Group>, posts: seq<Post>, comments: seq<Comment>)
  {
    && UniqueKeys(groups, GroupKey)
    && UniqueKeys(posts, PostKey)
    && UniqueKeys(comments, CommentKey)
    && (forall i :: 0 <= i < |comments| ==> comments[i].parent != ParentComment(comments[i].commentId))
  }

  /** An id the database may hand out: no row has it, and no row refers to
      it as its group or its parent. */
  ghost predicate FreshId(groups: seq<Group>, posts: seq<Post>, comments: seq<Comment>, id: string)
  {
    && (forall i :: 0 <= i < |groups| ==> groups[i].groupId != id)
    && (forall i :: 0 <= i < |posts| ==> posts[i].postId != id && posts[i].groupId != id)
    && (forall i :: 0 <= i < |comments| ==> comments[i].commentId != id && ParentId(comments[i].parent) != id)
  }

  // ---------------------------------------------------------------------------
  // Row-level steps keep the keys unique

  lemma AppendKeepsUnique<T>(s: seq<T>, x: T, key: T -> string)
    requires UniqueKeys(s, key) && forall i :: 0 <= i < |s| ==> key(s[i]) != key(x)
    ensures UniqueKeys(s + [x], key)
  {
    var s' := s + [x];
    forall i, j | 0 <= i < j < |s'| ensures key(s'[i]) != key(s'[j]) {
      if j == |s| {
        assert s'[i] == s[i];
      } else {
        assert s'[i] == s[i] && s'[j] == s[j];
      }
    }
  }

  lemma UpdateKeepsUnique<T>(s: seq<T>, k: nat, x: T, key: T -> string)
    requires UniqueKeys(s, key) && k < |s| && key(x) == key(s[k])
    ensures UniqueKeys(s[k := x], key)
  {
    var s' := s[k := x];
    forall i, j | 0 <= i < j < |s'| ensures key(s'[i]) != key(s'[j]) {
      assert key(s'[i]) == key(s[i]) && key(s'[j]) == key(s[j]);
    }
  }

  lemma RemoveKeepsUnique<T>(s: seq<T>, k: nat, key: T -> string)
    requires UniqueKeys(s, key) && k < |s|
    ensures UniqueKeys(RemoveAt(s, k), key)
  {
    var s' := RemoveAt(s, k);
    forall i, j | 0 <= i < j < |s'| ensures key(s'[i]) != key(s'[j]) {
      var i', j' := if i < k then i else i + 1, if j < k then j else j + 1;
      assert s'[i] == s[i'] && s'[j] == s[j'];
    }
  }

  lemma RemoveCommentWellFormed(groups: seq<Group>, posts: seq<Post>, comments: seq<Comment>, k: nat)
    requires WellFormed(groups, posts, comments) && k < |comments|
    ensures WellFormed(groups, posts, RemoveAt(comments, k))
  {
    RemoveKeepsUnique(comments, k, CommentKey);
    var comments' := RemoveAt(comments, k);
    forall i | 0 <= i < |comments'| ensures comments'[i].parent != ParentComment(comments'[i].commentId) {
      assert comments'[i] == comments[if i < k then i else i + 1];
    }
  }

  lemma SetCommentWellFormed(groups: seq<Group>, posts: seq<Post>, comments: seq<Comment>, k: nat, c: Comment)
    requires WellFormed(groups, posts, comments) && k < |comments|
    requires c.commentId == comments[k].commentId && c.parent == comments[k].parent
    ensures WellFormed(groups, posts, comments[k := c])
  {
    UpdateKeepsUnique(comments, k, c, CommentKey);
  }

  // ---------------------------------------------------------------------------
  // One lemma per handler: the tables it leaves behind are well formed, and
  // their counters agree when they agreed before

  lemma CreateGroupStep(groups: seq<Group>, posts: seq<Post>, comments: seq<Comment>, g: Group, groups': seq<Group>)
    requires WellFormed(groups, posts, comments) && FreshId(groups, posts, comments, g.groupId)
    requires g.postCount == 0 && groups' == groups + [g]
    ensures WellFormed(groups', posts, comments)
    ensures CountersConsistent(groups, posts, comments) ==> CountersConsistent(groups', posts, comments)
  {
    AppendKeepsUnique(groups, g, GroupKey);
    if CountersConsistent(groups, posts, comments) {
      CreateGroupKeepsCounters(groups, posts, comments, g);
    }
  }

  lemma CreatePostStep(groups: seq<Group>, posts: seq<Post>, comments: seq<Comment>, k: nat, p: Post,
                       groups': seq<Group>, posts': seq<Post>)
    requires WellFormed(groups, posts, comments) && FreshId(groups, posts, comments, p.postId)
    requires k < |groups| && groups[k].groupId == p.groupId && p.replies == 0
    requires groups' == groups[k := groups[k].(postCount := groups[k].postCount + 1)] && posts' == posts + [p]
    ensures WellFormed(groups', posts', comments)
    ensures CountersConsistent(groups, posts, comments) ==> CountersConsistent(groups', posts', comments)
  {
    UpdateKeepsUnique(groups, k, groups'[k], GroupKey);
    AppendKeepsUnique(posts, p, PostKey);
    if CountersConsistent(groups, posts, comments) {
      forall i | 0 <= i < |comments| ensures comments[i].parent != ParentPost(p.postId) {
        assert ParentId(comments[i].parent) != p.postId;
      }
      CreatePostKeepsCounters(groups, posts, comments, k, p);
    }
  }

  lemma UpdateGroupStep(groups: seq<Group>, posts: seq<Post>, comments: seq<Comment>, k: nat, g: Group,
                        groups': seq<Group>)
    requires WellFormed(groups, posts, comments)
    requires k < |groups| && g.groupId == groups[k].groupId && g.postCount == groups[k].postCount
    requires groups' == groups[k := g]
    ensures WellFormed(groups', posts, comments)
    ensures CountersConsistent(groups, posts, comments) ==> CountersConsistent(groups', posts, comments)
  {
    UpdateKeepsUnique(groups, k, g, GroupKey);
    if CountersConsistent(groups, posts, comments) {
      UpdateGroupKeepsCounters(groups, posts, comments, k, g);
    }
  }

  lemma UpdatePostStep(groups: seq<Group>, posts: seq<Post>, comments: seq<Comment>, k: nat, p: Post,
                       posts': seq<Post>)
    requires WellFormed(groups, posts, comments)
    requires k < |posts| && p.postId == posts[k].postId && p.groupId == posts[k].groupId
    requires p.replies == posts[k].replies && posts' == posts[k := p]
    ensures WellFormed(groups, posts', comments)
    ensures CountersConsistent(groups, posts, comments) ==> CountersConsistent(groups, posts', comments)
  {
    UpdateKeepsUnique(posts, k, p, PostKey);
    if CountersConsistent(groups, posts, comments) {
      UpdatePostKeepsCounters(groups, posts, comments, k, p);
    }
  }

  lemma DeleteGroupStep(groups: seq<Group>, posts: seq<Post>, comments: seq<Comment>, k: nat, groups': seq<Group>)
    requires WellFormed(groups, posts, comments) && k < |groups| && groups' == RemoveAt(groups, k)
    ensures WellFormed(groups', posts, comments)
    ensures CountersConsistent(groups, posts, comments) ==> CountersConsistent(groups', posts, comments)
  {
    RemoveKeepsUnique(groups, k, GroupKey);
    if CountersConsistent(groups, posts, comments) {
      DeleteGroupKeepsCounters(groups, posts, comments, k);
    }
  }

  lemma DeletePostStep(groups: seq<Group>, posts: seq<Post>, comments: seq<Comment>, k: nat, g: nat,
                       groups': seq<Group>, posts': seq<Post>)
    requires WellFormed(groups, posts, comments)
    requires k < |posts| && g < |groups| && groups[g].groupId == posts[k].groupId
    requires groups' == groups[g := groups[g].(postCount := groups[g].postCount - 1)] && posts' == RemoveAt(posts, k)
    ensures WellFormed(groups', posts', comments)
    ensures CountersConsistent(groups, posts, comments) ==> CountersConsistent(groups', posts', comments)
  {
    UpdateKeepsUnique(groups, g, groups[g].(postCount := groups[g].postCount - 1), GroupKey);
    RemoveKeepsUnique(posts, k, PostKey);
    if CountersConsistent(groups, posts, comments) {
      DeletePostKeepsCounters(groups, posts, comments, k, g);
    }
  }

  lemma DeleteOrphanPostStep(groups: seq<Group>, posts: seq<Post>, comments: seq<Comment>, k: nat, posts': seq<Post>)
    requires WellFormed(groups, posts, comments)
    requires k < |posts| && forall i :: 0 <= i < |groups| ==> groups[i].groupId != posts[k].groupId
    requires posts' == RemoveAt(posts, k)
    ensures WellFormed(groups, posts', comments)
    ensures CountersConsistent(groups, posts, comments) ==> CountersConsistent(groups, posts', comments)
  {
    RemoveKeepsUnique(posts, k, PostKey);
    if CountersConsistent(groups, posts, comments) {
      DeleteOrphanPostKeepsCounters(groups, posts, comments, k);
    }
  }

  lemma ReplyToPostStep(groups: seq<Group>, posts: seq<Post>, comments: seq<Comment>, k: nat, c: Comment,
                        posts': seq<Post>, comments': seq<Comment>)
    requires WellFormed(groups, posts, comments) && FreshId(groups, posts, comments, c.commentId)
    requires k < |posts| && c.parent == ParentPost(posts[k].postId) && c.replies == 0
    requires posts' == posts[k := posts[k].(replies := posts[k].replies + 1)] && comments' == comments + [c]
    ensures WellFormed(groups, posts', comments')
    ensures CountersConsistent(groups, posts, comments) ==> CountersConsistent(groups, posts', comments')
  {
    UpdateKeepsUnique(posts, k, posts[k].(replies := posts[k].replies + 1), PostKey);
    AppendKeepsUnique(comments, c, CommentKey);
    assert c.parent != ParentComment(c.commentId);
    if CountersConsistent(groups, posts, comments) {
      forall i | 0 <= i < |comments| ensures comments[i].parent != ParentComment(c.commentId) {
        assert ParentId(comments[i].parent) != c.commentId;
      }
      ReplyToPostKeepsCounters(groups, posts, comments, k, c);
    }
  }

  lemma ReplyToCommentStep(groups: seq<Group>, posts: seq<Post>, comments: seq<Comment>, k: nat, c: Comment,
                           comments': seq<Comment>)
    requires WellFormed(groups, posts, comments) && FreshId(groups, posts, comments, c.commentId)
    requires k < |comments| && c.parent == ParentComment(comments[k].commentId) && c.replies == 0
    requires comments' == comments[k := comments[k].(replies := comments[k].replies + 1)] + [c]
    ensures WellFormed(groups, posts, comments')
    ensures CountersConsistent(groups, posts, comments) ==> CountersConsistent(groups, posts, comments')
  {
    var bumped := comments[k := comments[k].(replies := comments[k].replies + 1)];
    SetCommentWellFormed(groups, posts, comments, k, bumped[k]);
    AppendKeepsUnique(bumped, c, CommentKey);
    assert c.parent != ParentComment(c.commentId);
    if CountersConsistent(groups, posts, comments) {
      forall i | 0 <= i < |comments| ensures comments[i].parent != ParentComment(c.commentId) {
        assert ParentId(comments[i].parent) != c.commentId;
      }
      ReplyToCommentKeepsCounters(groups, posts, comments, k, c);
    }
  }

  lemma UpdateReplyStep(groups: seq<Group>, posts: seq<Post>, comments: seq<Comment>, k: nat, c: Comment,
                        comments': seq<Comment>)
    requires WellFormed(groups, posts, comments) && k < |comments|
    requires c.commentId == comments[k].commentId && c.parent == comments[k].parent
    requires c.replies == comments[k].replies && comments' == comments[k := c]
    ensures WellFormed(groups, posts, comments')
    ensures CountersConsistent(groups, posts, comments) ==> CountersConsistent(groups, posts, comments')
  {
    SetCommentWellFormed(groups, posts, comments, k, c);
    if CountersConsistent(groups, posts, comments) {
      UpdateReplyKeepsCounters(groups, posts, comments, k, c);
    }
  }

  /** The posts and comments once comment `k` is removed and one is taken
      from the `replies` of the post or comment it answered, if that row is
      still there. */
  function CountedRemoval(posts: seq<Post>, comments: seq<Comment>, k: nat): (r: (seq<Post>, seq<Comment>))
    requires k < |comments|
    ensures |r.0| == |posts| && |r.1| == |comments| - 1
  {
    match comments[k].parent
    case ParentPost(pid) =>
      (match PostIndex(posts, pid)
       case None => posts
       case Some(j) => posts[j := posts[j].(replies := posts[j].replies - 1)],
       RemoveAt(comments, k))
    case ParentComment(cid) =>
      (posts,
       match CommentIndex(comments, cid)
       case None => RemoveAt(comments, k)
       case Some(j) => RemoveAt(comments[j := comments[j].(replies := comments[j].replies - 1)], k))
  }

  /** `CountedRemoval` keeps the tables well formed and every counter. */
  lemma CountedRemovalStep(groups: seq<Group>, posts: seq<Post>, comments: seq<Comment>, k: nat,
                           posts': seq<Post>, comments': seq<Comment>)
    requires WellFormed(groups, posts, comments) && k < |comments|
    requires (posts', comments') == CountedRemoval(posts, comments, k)
    ensures WellFormed(groups, posts', comments')
    ensures CountersConsistent(groups, posts, comments) ==> CountersConsistent(groups, posts', comments')
  {
    var consistent := CountersConsistent(groups, posts, comments);
    var r := (posts', comments');
    match comments[k].parent {
      case ParentPost(pid) =>
        match PostIndex(posts, pid) {
          case None =>
            assert r == (posts, RemoveAt(comments, k));
            RemoveCommentWellFormed(groups, posts, comments, k);
            if consistent {
              DeleteOrphanReplyKeepsCounters(groups, posts, comments, k);
            }
          case Some(j) =>
            var posts' := posts[j := posts[j].(replies := posts[j].replies - 1)];
            assert r == (posts', RemoveAt(comments, k));
            UpdateKeepsUnique(posts, j, posts'[j], PostKey);
            RemoveCommentWellFormed(groups, posts', comments, k);
            if consistent {
              DeleteReplyUnderPostKeepsCounters(groups, posts, comments, k, j);
            }
        }
      case ParentComment(cid) =>
        match CommentIndex(comments, cid) {
          case None =>
            assert r == (posts, RemoveAt(comments, k));
            RemoveCommentWellFormed(groups, posts, comments, k);
            if consistent {
              DeleteOrphanReplyKeepsCounters(groups, posts, comments, k);
            }
          case Some(j) =>
            var lowered := comments[j := comments[j].(replies := comments[j].replies - 1)];
            assert r == (posts, RemoveAt(lowered, k));
            SetCommentWellFormed(groups, posts, comments, j, lowered[j]);
            RemoveCommentWellFormed(groups, posts, lowered, k);
            if consistent {
              DeleteReplyUnderCommentKeepsCounters(groups, posts, comments, k, j);
            }
        }
    }
  }

  /** The three tables of the forum. */
  class Store {
    var groups: seq<Group>
    var posts: seq<Post>
    var comments: seq<Comment>

    ghost predicate Valid()
      reads this
    {
      WellFormed(groups, posts, comments)
    }

    /** Every counter agrees with the rows it counts. */
    ghost predicate Consistent()
      reads this
    {
      CountersConsistent(groups, posts, comments)
    }

    /** `id` is what the database's id generator may hand out next. */
    ghost predicate Fresh(id: string)
      reads this
    {
      FreshId(groups, posts, comments, id)
    }

    constructor ()
      ensures Valid() && Consistent()
      ensures groups == [] && posts == [] && comments == []
    {
      groups, posts, comments := [], [], [];
    }

    // -------------------------------------------------------------------------
    // Reads

    /** `handleGetGroupList`: a page of groups whose name contains the query,
        by name; the query counts only when a page is also given. */
    function GetGroupList(q: Option<string>, page: Option<int>): (r: Response<seq<Group>>)
      reads this
      ensures r.Err? <==> PageOr1(page) < 1
      ensures r.Err? ==> r.failure == Thrown
      ensures r.Ok? ==> |r.value| <= PageSize && SortedBy(r.value, GroupNameAsc)
      ensures r.Ok? ==> forall i :: 0 <= i < |r.value| ==>
                r.value[i] in groups && ILike(r.value[i].groupName, QueryUsed(q, page))
      ensures r.Ok? ==>
                && PageOr1(page) >= 1
                && r.value == SearchGroup(groups, QueryUsed(q, page), PageOr1(page), PageSize).rows
    {
      if PageOr1(page) < 1 then Err(Thrown)
      else Ok(SearchGroup(groups, QueryUsed(q, page), PageOr1(page), PageSize).rows)
    }

    /** `handleGetGroup`: the group with the id, or an error passed on. */
    function GetGroup(groupId: string): (r: Response<Group>)
      reads this
      ensures r.Ok? ==> r.value in groups && r.value.groupId == groupId
      ensures r.Err? <==> forall i :: 0 <= i < |groups| ==> groups[i].groupId != groupId
      ensures r.Err? ==> r.failure == Thrown
    {
      match GroupIndex(groups, groupId)
      case None => Err(Thrown)
      case Some(k) => Ok(groups[k])
    }

    /** `handleGetGroupPostList`: the group's name and a page of its posts
        whose title contains `q`, newest first. Both `q` and `page` are
        required; an unknown group is a 404. */
    function GetGroupPostList(groupId: string, q: Option<string>, page: Option<int>): (r: Response<(string, seq<Post>)>)
      reads this
      ensures (q.None? || page.None?) ==> r == Err(Thrown)
      ensures q.Some? && page.Some? && (forall i :: 0 <= i < |groups| ==> groups[i].groupId != groupId)
              ==> r == Err(NotFound)
      ensures r.Ok? ==> q.Some? && page.Some? && page.value >= 1
      ensures r.Ok? ==> exists i :: 0 <= i < |groups| && groups[i].groupId == groupId && groups[i].groupName == r.value.0
      ensures r.Ok? ==> |r.value.1| <= PageSize && SortedBy(r.value.1, PostNewestFirst)
      ensures r.Ok? ==> forall i :: 0 <= i < |r.value.1| ==>
                r.value.1[i] in posts && r.value.1[i].groupId == groupId && ILike(r.value.1[i].title, q.value)
      ensures r.Ok? ==>
                && q.Some? && page.Some? && page.value >= 1
                && r.value.1 == SearchGroupPosts(posts, groupId, q.value, page.value, PageSize).rows
      ensures q.Some? && page.Some? && page.value >= 1 && GroupIndex(groups, groupId).Some? ==> r.Ok?
    {
      if q.None? || page.None? then Err(Thrown)
      else match GroupIndex(groups, groupId)
        case None => Err(NotFound)
        case Some(k) =>
          if page.value < 1 then Err(Thrown)
          else Ok((groups[k].groupName, SearchGroupPosts(posts, groupId, q.value, page.value, PageSize).rows))
    }

    /** The group name a formatted listing shows next to a post. */
    function Summarise(rows: seq<Post>): (r: seq<PostSummary>)
      reads this
      ensures |r| == |rows|
      ensures forall i :: 0 <= i < |rows| ==> r[i].post == rows[i]
      ensures forall i :: 0 <= i < |rows| ==>
                (r[i].groupName.Some? <==> exists j :: 0 <= j < |groups| && groups[j].groupId == rows[i].groupId)
      ensures forall i :: 0 <= i < |rows| && r[i].groupName.Some? ==>
                exists j :: 0 <= j < |groups| && groups[j].groupId == rows[i].groupId
                                              && groups[j].groupName == r[i].groupName.value
    {
      seq(|rows|, i requires 0 <= i < |rows| reads this =>
        PostSummary(rows[i], match GroupIndex(groups, rows[i].groupId)
                             case None => None
                             case Some(k) => Some(groups[k].groupName)))
    }

    /** `handleGetAllPosts`: a page of all posts, newest first; a query that
        is only white space matches every post. */
    function GetAllPosts(q: Option<string>, page: Option<int>): (r: Response<PostListing>)
      reads this
      ensures r.Err? <==> PageOr1(page) < 1
      ensures r.Ok? ==> (r.value.Formatted? <==> q.Some? && page.Some?)
      ensures r.Ok? && r.value.Formatted? ==>
                |r.value.summaries| <= PageSize &&
                forall i :: 0 <= i < |r.value.summaries| ==>
                  r.value.summaries[i].post in posts &&
                  (!Blank(q.value) ==> ILike(r.value.summaries[i].post.title, q.value))
      ensures r.Ok? && r.value.GroupNameResults? ==>
                |r.value.rows| <= PageSize && SortedBy(r.value.rows, PostNewestFirst) &&
                forall i :: 0 <= i < |r.value.rows| ==> r.value.rows[i] in posts
      ensures r.Ok? && r.value.Formatted? ==>
                forall i, j :: 0 <= i < j < |r.value.summaries| ==>
                  PostNewestFirst(r.value.summaries[i].post, r.value.summaries[j].post)
      ensures r.Ok? ==>
                && PageOr1(page) >= 1
                && var rows := SearchAllPosts(posts, QueryUsed(q, page), PageOr1(page), PageSize).rows;
                   if r.value.Formatted? then r.value.summaries == Summarise(rows) else r.value.rows == rows
      ensures r.Ok? && Blank(QueryUsed(q, page)) ==>
                && PageOr1(page) >= 1
                && SearchAllPosts(posts, QueryUsed(q, page), PageOr1(page), PageSize).rows
                  == Paginate(SortBy(posts, PostNewestFirst), PageOr1(page), PageSize).rows
    {
      if PageOr1(page) < 1 then Err(Thrown)
      else
        var rows := SearchAllPosts(posts, QueryUsed(q, page), PageOr1(page), PageSize).rows;
        if q.Some? && page.Some? then Ok(Formatted(Summarise(rows))) else Ok(GroupNameResults(rows))
    }

    /** `handleGetMyGroupList`: a page of the caller's own groups. */
    function GetMyGroupList(caller: Option<string>, q: Option<string>, page: Option<int>): (r: Response<seq<Group>>)
      reads this
      ensures caller.None? ==> r == Err(Unauthorized)
      ensures caller.Some? ==> (r.Err? <==> PageOr1(page) < 1)
      ensures r.Ok? ==> caller.Some? && |r.value| <= PageSize && SortedBy(r.value, GroupNameAsc)
      ensures r.Ok? ==> forall i :: 0 <= i < |r.value| ==>
                r.value[i] in groups && r.value[i].ownerId == caller.value && r.value[i].ownerType == UserOwner &&
                ILike(r.value[i].groupName, QueryUsed(q, page))
      ensures r.Ok? ==>
                && caller.Some? && PageOr1(page) >= 1
                && r.value == SearchMyGroups(groups, caller.value, QueryUsed(q, page), PageOr1(page), PageSize).rows
    {
      if caller.None? then Err(Unauthorized)
      else if PageOr1(page) < 1 then Err(Thrown)
      else Ok(SearchMyGroups(groups, caller.value, QueryUsed(q, page), PageOr1(page), PageSize).rows)
    }

    /** `handleGetMyPostList`: a page of the caller's own posts. */
    function GetMyPostList(caller: Option<string>, q: Option<string>, page: Option<int>): (r: Response<PostListing>)
      reads this
      ensures caller.None? ==> r == Err(Unauthorized)
      ensures caller.Some? ==> (r.Err? <==> PageOr1(page) < 1)
      ensures r.Ok? ==> (r.value.Formatted? <==> q.Some? && page.Some?)
      ensures r.Ok? && r.value.Formatted? ==>
                |r.value.summaries| <= PageSize &&
                forall i :: 0 <= i < |r.value.summaries| ==>
                  r.value.summaries[i].post in posts && r.value.summaries[i].post.uid == caller &&
                  ILike(r.value.summaries[i].post.title, q.value)
      ensures r.Ok? && r.value.GroupNameResults? ==>
                |r.value.rows| <= PageSize && SortedBy(r.value.rows, PostNewestFirst) &&
                forall i :: 0 <= i < |r.value.rows| ==> r.value.rows[i] in posts && r.value.rows[i].uid == caller
      ensures r.Ok? && r.value.Formatted? ==>
                forall i, j :: 0 <= i < j < |r.value.summaries| ==>
                  PostNewestFirst(r.value.summaries[i].post, r.value.summaries[j].post)
      ensures r.Ok? ==>
                && caller.Some? && PageOr1(page) >= 1
                && var rows := SearchMyPost(posts, caller.value, QueryUsed(q, page), PageOr1(page), PageSize).rows;
                   if r.value.Formatted? then r.value.summaries == Summarise(rows) else r.value.rows == rows
    {
      if caller.None? then Err(Unauthorized)
      else if PageOr1(page) < 1 then Err(Thrown)
      else
        var rows := SearchMyPost(posts, caller.value, QueryUsed(q, page), PageOr1(page), PageSize).rows;
        if q.Some? && page.Some? then Ok(Formatted(Summarise(rows))) else Ok(GroupNameResults(rows))
    }

    /** `handleGetPostComments`: a page of the post's direct replies, newest
        first. Without a `page` the handler sends nothing. */
    function GetPostComments(postId: string, page: Option<int>): (r: Response<seq<Comment>>)
      reads this
      ensures page.None? ==> r == Err(NoReply)
      ensures page.Some? && (forall i :: 0 <= i < |posts| ==> posts[i].postId != postId) ==> r == Err(NotFound)
      ensures r.Ok? ==> page.Some? && page.value >= 1 && |r.value| <= PageSize && SortedBy(r.value, CommentNewestFirst)
      ensures r.Ok? ==> forall i :: 0 <= i < |r.value| ==> r.value[i] in comments && r.value[i].parent == ParentPost(postId)
      ensures r.Ok? ==> page.Some? && page.value >= 1 && r.value == SearchPostComments(comments, postId, page.value, PageSize)
      ensures page.Some? && page.value >= 1 && PostIndex(posts, postId).Some? ==> r.Ok?
    {
      if page.None? then Err(NoReply)
      else match PostIndex(posts, postId)
        case None => Err(NotFound)
        case Some(_) =>
          if page.value < 1 then Err(Thrown)
          else Ok(SearchPostComments(comments, postId, page.value, PageSize))
    }

    /** `handleGetCommentComments`: every direct reply of the comment, in
        table order; an unknown comment is a 404. */
    function GetCommentComments(commentId: string): (r: Response<seq<Comment>>)
      reads this
      ensures r.Err? <==> forall i :: 0 <= i < |comments| ==> comments[i].commentId != commentId
      ensures r.Err? ==> r.failure == NotFound
      ensures r.Ok? ==> forall i :: 0 <= i < |r.value| ==>
                r.value[i] in comments && r.value[i].parent == ParentComment(commentId)
      ensures r.Ok? ==> forall i :: 0 <= i < |comments| && comments[i].parent == ParentComment(commentId) ==>
                comments[i] in r.value
      ensures r.Ok? ==> |r.value| == RepliesTo(comments, ParentComment(commentId))
      ensures r.Ok? && Consistent() ==>
                CommentIndex(comments, commentId).Some? &&
                |r.value| == comments[CommentIndex(comments, commentId).value].replies
    {
      match CommentIndex(comments, commentId)
      case None => Err(NotFound)
      case Some(_) =>
        FilterCount(comments, (c: Comment) => c.parent == ParentComment(commentId));
        Ok(Filter(comments, (c: Comment) => c.parent == ParentComment(commentId)))
    }

    // -------------------------------------------------------------------------
    // Changes

    /** `handleCreateGroup`: a signed-in caller creates a group they own,
        with no posts yet; without a caller nothing is created. */
    method CreateGroup(caller: Option<string>, name: string, description: string, newId: string)
      returns (r: Option<Group>)
      requires Valid() && Fresh(newId)
      modifies this
      ensures Valid() && (old(Consistent()) ==> Consistent())
      ensures caller.None? ==> r.None? && groups == old(groups)
      ensures caller.Some? ==> r == Some(Group(newId, name, description, 0, caller.value, UserOwner))
      ensures caller.Some? ==> groups == old(groups) + [r.value]
      ensures posts == old(posts) && comments == old(comments)
    {
      if caller.None? {
        return None;
      }
      var g := Group(newId, name, description, 0, caller.value, UserOwner);
      groups := groups + [g];
      CreateGroupStep(old(groups), posts, comments, g, groups);
      r := Some(g);
    }

    /** `handleCreateNewPost`: a post in an existing group, written by the
        caller if any, and one more on the group's `postCount`. */
    method CreatePost(groupId: string, caller: Option<string>, title: string, details: string, newId: string, now: int)
      returns (r: Response<Post>)
      requires Valid() && Fresh(newId)
      modifies this
      ensures Valid() && (old(Consistent()) ==> Consistent())
      ensures r.Err? <==> forall i :: 0 <= i < |old(groups)| ==> old(groups)[i].groupId != groupId
      ensures r.Err? ==> r.failure == Thrown && groups == old(groups) && posts == old(posts)
      ensures r.Ok? ==> r.value == Post(newId, groupId, title, details, caller, 0, 0, 0, now)
      ensures r.Ok? ==> GroupIndex(old(groups), groupId).Some?
      ensures r.Ok? ==>
                var k := GroupIndex(old(groups), groupId).value;
                groups == old(groups)[k := old(groups)[k].(postCount := old(groups)[k].postCount + 1)]
      ensures r.Ok? ==> posts == old(posts) + [r.value]
      ensures comments == old(comments)
    {
      var found := GroupIndex(groups, groupId);
      if found.None? {
        return Err(Thrown);
      }
      var k := found.value;
      var p := Post(newId, groupId, title, details, caller, 0, 0, 0, now);
      groups, posts := groups[k := groups[k].(postCount := groups[k].postCount + 1)], posts + [p];
      CreatePostStep(old(groups), old(posts), comments, k, p, groups, posts);
      r := Ok(p);
    }

    /** `handleUpdateGroup`: the owner renames and re-describes the group;
        anyone else gets an error passed on. */
    method UpdateGroup(caller: Option<string>, groupId: string, name: string, description: string)
      returns (r: Response<Group>)
      requires Valid()
      modifies this
      ensures Valid() && (old(Consistent()) ==> Consistent())
      ensures r.Err? <==> OwnedGroupIndex(old(groups), caller, groupId).None?
      ensures r.Err? ==> r.failure == Thrown && groups == old(groups)
      ensures r.Ok? ==>
                var k := OwnedGroupIndex(old(groups), caller, groupId).value;
                r.value == old(groups)[k].(groupName := name, description := description) &&
                groups == old(groups)[k := r.value]
      ensures posts == old(posts) && comments == old(comments)
    {
      var found := OwnedGroupIndex(groups, caller, groupId);
      if found.None? {
        return Err(Thrown);
      }
      var k := found.value;
      var g := groups[k].(groupName := name, description := description);
      groups := groups[k := g];
      UpdateGroupStep(old(groups), posts, comments, k, g, groups);
      r := Ok(g);
    }

    /** `handleUpdatePost`: the author edits the title and details. */
    method UpdatePost(caller: Option<string>, postId: string, title: string, details: string)
      returns (r: Response<Post>)
      requires Valid()
      modifies this
      ensures Valid() && (old(Consistent()) ==> Consistent())
      ensures r.Err? <==> OwnedPostIndex(old(posts), caller, postId).None?
      ensures r.Err? ==> r.failure == Thrown && posts == old(posts)
      ensures r.Ok? ==>
                var k := OwnedPostIndex(old(posts), caller, postId).value;
                r.value == old(posts)[k].(details := details, title := title) &&
                posts == old(posts)[k := r.value]
      ensures groups == old(groups) && comments == old(comments)
    {
      var found := OwnedPostIndex(posts, caller, postId);
      if found.None? {
        return Err(Thrown);
      }
      var k := found.value;
      var p := posts[k].(details := details, title := title);
      posts := posts[k := p];
      UpdatePostStep(groups, old(posts), comments, k, p, posts);
      r := Ok(p);
    }

    /** `handleDeleteGroup`: the owner removes the group row. */
    method DeleteGroup(caller: Option<string>, groupId: string) returns (r: Response<()>)
      requires Valid()
      modifies this
      ensures Valid() && (old(Consistent()) ==> Consistent())
      ensures r.Err? <==> OwnedGroupIndex(old(groups), caller, groupId).None?
      ensures r.Err? ==> r.failure == Thrown && groups == old(groups)
      ensures r.Ok? ==> groups == RemoveAt(old(groups), OwnedGroupIndex(old(groups), caller, groupId).value)
      ensures posts == old(posts) && comments == old(comments)
    {
      var found := OwnedGroupIndex(groups, caller, groupId);
      if found.None? {
        return Err(Thrown);
      }
      groups := RemoveAt(groups, found.value);
      DeleteGroupStep(old(groups), posts, comments, found.value, groups);
      r := Ok(());
    }

    /** `handleDeletePost`: the author removes the post, then one is taken
        from its group's `postCount`; when the group row is gone the post is
        still removed and the decrement throws. */
    method DeletePost(caller: Option<string>, postId: string) returns (r: Response<()>)
      requires Valid()
      modifies this
      ensures Valid() && (old(Consistent()) ==> Consistent())
      ensures OwnedPostIndex(old(posts), caller, postId).None? ==>
                r == Err(Thrown) && groups == old(groups) && posts == old(posts)
      ensures OwnedPostIndex(old(posts), caller, postId).Some? ==>
                var k := OwnedPostIndex(old(posts), caller, postId).value;
                posts == RemoveAt(old(posts), k) &&
                match GroupIndex(old(groups), old(posts)[k].groupId)
                case None => r == Err(Thrown) && groups == old(groups)
                case Some(g) =>
                  r == Ok(()) &&
                  groups == old(groups)[g := old(groups)[g].(postCount := old(groups)[g].postCount - 1)]
      ensures comments == old(comments)
    {
      var found := OwnedPostIndex(posts, caller, postId);
      if found.None? {
        return Err(Thrown);
      }
      var k := found.value;
      var group := GroupIndex(groups, posts[k].groupId);
      if group.None? {
        posts := RemoveAt(posts, k);
        DeleteOrphanPostStep(groups, old(posts), comments, k, posts);
        return Err(Thrown);
      }
      var g := group.value;
      groups, posts := groups[g := groups[g].(postCount := groups[g].postCount - 1)], RemoveAt(posts, k);
      DeletePostStep(old(groups), old(posts), comments, k, g, groups, posts);
      r := Ok(());
    }

    /** `handleReplyToPost`: an unknown post is a 404 (checked first), a
        missing caller a 401; otherwise a reply with no replies of its own,
        and one more on the post's `replies`. */
    method ReplyToPost(caller: Option<string>, postId: string, content: string, newId: string, now: int)
      returns (r: Response<Comment>)
      requires Valid() && Fresh(newId)
      modifies this
      ensures Valid() && (old(Consistent()) ==> Consistent())
      ensures PostIndex(old(posts), postId).None? ==> r == Err(NotFound)
      ensures PostIndex(old(posts), postId).Some? && caller.None? ==> r == Err(Unauthorized)
      ensures r.Err? ==> posts == old(posts) && comments == old(comments)
      ensures r.Ok? <==> caller.Some? && PostIndex(old(posts), postId).Some?
      ensures r.Ok? ==> r.value == Comment(newId, content, caller.value, ParentPost(postId), 0, now)
      ensures r.Ok? ==> comments == old(comments) + [r.value]
      ensures r.Ok? ==>
                var k := PostIndex(old(posts), postId).value;
                posts == old(posts)[k := old(posts)[k].(replies := old(posts)[k].replies + 1)]
      ensures groups == old(groups)
    {
      var found := PostIndex(posts, postId);
      if found.None? {
        return Err(NotFound);
      }
      if caller.None? {
        return Err(Unauthorized);
      }
      var k := found.value;
      var c := Comment(newId, content, caller.value, ParentPost(postId), 0, now);
      posts, comments := posts[k := posts[k].(replies := posts[k].replies + 1)], comments + [c];
      ReplyToPostStep(groups, old(posts), old(comments), k, c, posts, comments);
      r := Ok(c);
    }

    /** `handleReplyToComment`: as `ReplyToPost`, one level down the thread. */
    method ReplyToComment(caller: Option<string>, commentId: string, content: string, newId: string, now: int)
      returns (r: Response<Comment>)
      requires Valid() && Fresh(newId)
      modifies this
      ensures Valid() && (old(Consistent()) ==> Consistent())
      ensures CommentIndex(old(comments), commentId).None? ==> r == Err(NotFound)
      ensures CommentIndex(old(comments), commentId).Some? && caller.None? ==> r == Err(Unauthorized)
      ensures r.Err? ==> comments == old(comments)
      ensures r.Ok? <==> caller.Some? && CommentIndex(old(comments), commentId).Some?
      ensures r.Ok? ==> r.value == Comment(newId, content, caller.value, ParentComment(commentId), 0, now)
      ensures r.Ok? ==>
                var k := CommentIndex(old(comments), commentId).value;
                comments == old(comments)[k := old(comments)[k].(replies := old(comments)[k].replies + 1)] + [r.value]
      ensures groups == old(groups) && posts == old(posts)
    {
      var found := CommentIndex(comments, commentId);
      if found.None? {
        return Err(NotFound);
      }
      if caller.None? {
        return Err(Unauthorized);
      }
      var k := found.value;
      var c := Comment(newId, content, caller.value, ParentComment(commentId), 0, now);
      comments := comments[k := comments[k].(replies := comments[k].replies + 1)] + [c];
      ReplyToCommentStep(groups, posts, old(comments), k, c, comments);
      r := Ok(c);
    }

    /** `handleUpdateReply`: the author edits the text; anyone else gets a 404. */
    method UpdateReply(caller: Option<string>, commentId: string, content: string) returns (r: Response<Comment>)
      requires Valid()
      modifies this
      ensures Valid() && (old(Consistent()) ==> Consistent())
      ensures r.Err? <==> OwnedCommentIndex(old(comments), caller, commentId).None?
      ensures r.Err? ==> r.failure == NotFound && comments == old(comments)
      ensures r.Ok? ==>
                var k := OwnedCommentIndex(old(comments), caller, commentId).value;
                r.value == old(comments)[k].(comment := content) && comments == old(comments)[k := r.value]
      ensures groups == old(groups) && posts == old(posts)
    {
      var found := OwnedCommentIndex(comments, caller, commentId);
      if found.None? {
        return Err(NotFound);
      }
      var k := found.value;
      var c := comments[k].(comment := content);
      comments := comments[k := c];
      UpdateReplyStep(groups, posts, old(comments), k, c, comments);
      r := Ok(c);
    }

    /** `handleDeleteReply` as written: the author's comment is removed and
        no counter moves, so the parent's `replies` stays one too high
        (`DeleteReplyLeavesCounterStale`). */
    method DeleteReply(caller: Option<string>, commentId: string) returns (r: Response<()>)
      requires Valid()
      modifies this
      ensures Valid()
      ensures r.Err? <==> OwnedCommentIndex(old(comments), caller, commentId).None?
      ensures r.Err? ==> r.failure == NotFound && comments == old(comments)
      ensures r.Ok? ==> comments == RemoveAt(old(comments), OwnedCommentIndex(old(comments), caller, commentId).value)
      ensures groups == old(groups) && posts == old(posts)
    {
      var found := OwnedCommentIndex(comments, caller, commentId);
      if found.None? {
        return Err(NotFound);
      }
      RemoveCommentWellFormed(groups, posts, comments, found.value);
      comments := RemoveAt(comments, found.value);
      r := Ok(());
    }

    /** Reply deletion that also takes one from the parent's `replies`, the
        counterpart of the increments in `ReplyToPost` and `ReplyToComment`;
        it keeps the counters. */
    method DeleteReplyAndCount(caller: Option<string>, commentId: string) returns (r: Response<()>)
      requires Valid()
      modifies this
      ensures Valid() && (old(Consistent()) ==> Consistent())
      ensures r.Err? <==> OwnedCommentIndex(old(comments), caller, commentId).None?
      ensures r.Err? ==> r.failure == NotFound && posts == old(posts) && comments == old(comments)
      ensures r.Ok? ==>
                (posts, comments) == CountedRemoval(old(posts), old(comments),
                                                    OwnedCommentIndex(old(comments), caller, commentId).value)
      ensures groups == old(groups)
    {
      var found := OwnedCommentIndex(comments, caller, commentId);
      if found.None? {
        return Err(NotFound);
      }
      var k := found.value;
      posts, comments := CountedRemoval(posts, comments, k).0, CountedRemoval(posts, comments, k).1;
      CountedRemovalStep(groups, old(posts), old(comments), k, posts, comments);
      r := Ok(());
    }
  }
}
