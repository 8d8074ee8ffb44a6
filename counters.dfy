/** The denormalised counters of the forum (`postCount` on a group, `replies`
    on a post and on a comment) and what each handler of
    backend/src/controllers/groupController.ts does to the rows they count.
    Each lemma takes the tables before a handler's change and states that the
    counters still agree with the rows after it. */
module Counters {
  import opened Common
  import opened Entities

  /** The number of posts of the group. */
  function PostsIn(posts: seq<Post>, groupId: string): nat
  {
    Count(posts, (p: Post) => p.groupId == groupId)
  }

  /** The number of comments that reply to `parent` directly. */
  function RepliesTo(comments: seq<Comment>, parent: Parent): nat
  {
    Count(comments, (c: Comment) => c.parent == parent)
  }

  /** Every counter equals the number of rows it counts. */
  predicate CountersConsistent(groups: seq<Group>, posts: seq<Post>, comments: seq<Comment>)
  {
    && (forall i :: 0 <= i < |groups| ==> groups[i].postCount == PostsIn(posts, groups[i].groupId))
    && (forall i :: 0 <= i < |posts| ==> posts[i].replies == RepliesTo(comments, ParentPost(posts[i].postId)))
    && (forall i :: 0 <= i < |comments| ==>
          comments[i].replies == RepliesTo(comments, ParentComment(comments[i].commentId)))
  }

  // ---------------------------------------------------------------------------
  // How the counts move

  lemma PostsInAppend(posts: seq<Post>, p: Post, groupId: string)
    ensures PostsIn(posts + [p], groupId) == PostsIn(posts, groupId) + (if p.groupId == groupId then 1 else 0)
  {
    CountAppendOne(posts, p, (p: Post) => p.groupId == groupId);
  }

  lemma PostsInRemoveAt(posts: seq<Post>, k: nat, groupId: string)
    requires k < |posts|
    ensures PostsIn(RemoveAt(posts, k), groupId)
         == PostsIn(posts, groupId) - (if posts[k].groupId == groupId then 1 else 0)
  {
    CountRemoveAt(posts, k, (p: Post) => p.groupId == groupId);
  }

  lemma PostsInUpdateAt(posts: seq<Post>, k: nat, p: Post, groupId: string)
    requires k < |posts| && p.groupId == posts[k].groupId
    ensures PostsIn(posts[k := p], groupId) == PostsIn(posts, groupId)
  {
    CountUpdateAt(posts, k, p, (p: Post) => p.groupId == groupId);
  }

  lemma PostsInNone(posts: seq<Post>, groupId: string)
    requires forall i :: 0 <= i < |posts| ==> posts[i].groupId != groupId
    ensures PostsIn(posts, groupId) == 0
  {
    CountNone(posts, (p: Post) => p.groupId == groupId);
  }

  lemma RepliesToAppend(comments: seq<Comment>, c: Comment, parent: Parent)
    ensures RepliesTo(comments + [c], parent) == RepliesTo(comments, parent) + (if c.parent == parent then 1 else 0)
  {
    CountAppendOne(comments, c, (c: Comment) => c.parent == parent);
  }

  lemma RepliesToRemoveAt(comments: seq<Comment>, k: nat, parent: Parent)
    requires k < |comments|
    ensures RepliesTo(RemoveAt(comments, k), parent)
         == RepliesTo(comments, parent) - (if comments[k].parent == parent then 1 else 0)
  {
    CountRemoveAt(comments, k, (c: Comment) => c.parent == parent);
  }

  lemma RepliesToUpdateAt(comments: seq<Comment>, k: nat, c: Comment, parent: Parent)
    requires k < |comments| && c.parent == comments[k].parent
    ensures RepliesTo(comments[k := c], parent) == RepliesTo(comments, parent)
  {
    CountUpdateAt(comments, k, c, (c: Comment) => c.parent == parent);
  }

  lemma RepliesToNone(comments: seq<Comment>, parent: Parent)
    requires forall i :: 0 <= i < |comments| ==> comments[i].parent != parent
    ensures RepliesTo(comments, parent) == 0
  {
    CountNone(comments, (c: Comment) => c.parent == parent);
  }

  // ---------------------------------------------------------------------------
  // The handlers keep the counters

  /** A new group starts at zero posts, and no post names its fresh id. */
  lemma CreateGroupKeepsCounters(groups: seq<Group>, posts: seq<Post>, comments: seq<Comment>, g: Group)
    requires CountersConsistent(groups, posts, comments)
    requires g.postCount == 0
    requires forall i :: 0 <= i < |posts| ==> posts[i].groupId != g.groupId
    ensures CountersConsistent(groups + [g], posts, comments)
  {
    PostsInNone(posts, g.groupId);
  }

  /** A new post under group `k` adds one to that group's count only. */
  lemma CreatePostKeepsCounters(groups: seq<Group>, posts: seq<Post>, comments: seq<Comment>, k: nat, p: Post)
    requires CountersConsistent(groups, posts, comments) && UniqueKeys(groups, GroupKey)
    requires k < |groups| && groups[k].groupId == p.groupId
    requires p.replies == 0
    requires forall i :: 0 <= i < |comments| ==> comments[i].parent != ParentPost(p.postId)
    ensures CountersConsistent(groups[k := groups[k].(postCount := groups[k].postCount + 1)], posts + [p], comments)
  {
    var groups' := groups[k := groups[k].(postCount := groups[k].postCount + 1)];
    forall i | 0 <= i < |groups'|
      ensures groups'[i].postCount == PostsIn(posts + [p], groups'[i].groupId)
    {
      PostsInAppend(posts, p, groups[i].groupId);
      assert i != k ==> GroupKey(groups[i]) != GroupKey(groups[k]);
    }
    RepliesToNone(comments, ParentPost(p.postId));
  }

  /** Renaming or re-describing a group leaves its id and count alone. */
  lemma UpdateGroupKeepsCounters(groups: seq<Group>, posts: seq<Post>, comments: seq<Comment>, k: nat, g: Group)
    requires CountersConsistent(groups, posts, comments)
    requires k < |groups| && g.groupId == groups[k].groupId && g.postCount == groups[k].postCount
    ensures CountersConsistent(groups[k := g], posts, comments)
  {
  }

  /** Deleting a group removes a counter; no other counter moves. */
  lemma DeleteGroupKeepsCounters(groups: seq<Group>, posts: seq<Post>, comments: seq<Comment>, k: nat)
    requires CountersConsistent(groups, posts, comments)
    requires k < |groups|
    ensures CountersConsistent(RemoveAt(groups, k), posts, comments)
  {
  }

  /** Editing a post keeps its id, group and reply count. */
  lemma UpdatePostKeepsCounters(groups: seq<Group>, posts: seq<Post>, comments: seq<Comment>, k: nat, p: Post)
    requires CountersConsistent(groups, posts, comments)
    requires k < |posts| && p.postId == posts[k].postId && p.groupId == posts[k].groupId
    requires p.replies == posts[k].replies
    ensures CountersConsistent(groups, posts[k := p], comments)
  {
    forall i | 0 <= i < |groups|
      ensures groups[i].postCount == PostsIn(posts[k := p], groups[i].groupId)
    {
      PostsInUpdateAt(posts, k, p, groups[i].groupId);
    }
  }

  /** Deleting post `k` and taking one from the count of its group `g` keeps
      every counter. */
  lemma DeletePostKeepsCounters(groups: seq<Group>, posts: seq<Post>, comments: seq<Comment>, k: nat, g: nat)
    requires CountersConsistent(groups, posts, comments) && UniqueKeys(groups, GroupKey)
    requires k < |posts| && g < |groups| && groups[g].groupId == posts[k].groupId
    ensures CountersConsistent(groups[g := groups[g].(postCount := groups[g].postCount - 1)], RemoveAt(posts, k), comments)
  {
    var groups' := groups[g := groups[g].(postCount := groups[g].postCount - 1)];
    forall i | 0 <= i < |groups'|
      ensures groups'[i].postCount == PostsIn(RemoveAt(posts, k), groups'[i].groupId)
    {
      PostsInRemoveAt(posts, k, groups[i].groupId);
      assert i != g ==> GroupKey(groups[i]) != GroupKey(groups[g]);
    }
  }

  /** Deleting a post whose group no longer exists moves no counter. */
  lemma DeleteOrphanPostKeepsCounters(groups: seq<Group>, posts: seq<Post>, comments: seq<Comment>, k: nat)
    requires CountersConsistent(groups, posts, comments)
    requires k < |posts| && forall i :: 0 <= i < |groups| ==> groups[i].groupId != posts[k].groupId
    ensures CountersConsistent(groups, RemoveAt(posts, k), comments)
  {
    forall i | 0 <= i < |groups|
      ensures groups[i].postCount == PostsIn(RemoveAt(posts, k), groups[i].groupId)
    {
      PostsInRemoveAt(posts, k, groups[i].groupId);
    }
  }

  /** A reply to post `k` adds one to that post's `replies` only. */
  lemma ReplyToPostKeepsCounters(groups: seq<Group>, posts: seq<Post>, comments: seq<Comment>, k: nat, c: Comment)
    requires CountersConsistent(groups, posts, comments) && UniqueKeys(posts, PostKey)
    requires k < |posts| && c.parent == ParentPost(posts[k].postId) && c.replies == 0
    requires forall i :: 0 <= i < |comments| ==> comments[i].parent != ParentComment(c.commentId)
    ensures CountersConsistent(groups, posts[k := posts[k].(replies := posts[k].replies + 1)], comments + [c])
  {
    var posts' := posts[k := posts[k].(replies := posts[k].replies + 1)];
    forall i | 0 <= i < |groups|
      ensures groups[i].postCount == PostsIn(posts', groups[i].groupId)
    {
      PostsInUpdateAt(posts, k, posts'[k], groups[i].groupId);
    }
    forall i | 0 <= i < |posts'|
      ensures posts'[i].replies == RepliesTo(comments + [c], ParentPost(posts'[i].postId))
    {
      RepliesToAppend(comments, c, ParentPost(posts[i].postId));
      assert i != k ==> PostKey(posts[i]) != PostKey(posts[k]);
    }
    forall i | 0 <= i < |comments + [c]|
      ensures (comments + [c])[i].replies == RepliesTo(comments + [c], ParentComment((comments + [c])[i].commentId))
    {
      RepliesToAppend(comments, c, ParentComment((comments + [c])[i].commentId));
      if i == |comments| {
        RepliesToNone(comments, ParentComment(c.commentId));
      }
    }
  }

  /** A reply to comment `k` adds one to that comment's `replies` only; the
      post the thread hangs from keeps its count. */
  lemma ReplyToCommentKeepsCounters(groups: seq<Group>, posts: seq<Post>, comments: seq<Comment>, k: nat, c: Comment)
    requires CountersConsistent(groups, posts, comments) && UniqueKeys(comments, CommentKey)
    requires k < |comments| && c.parent == ParentComment(comments[k].commentId) && c.replies == 0
    requires c.commentId != comments[k].commentId
    requires forall i :: 0 <= i < |comments| ==> comments[i].parent != ParentComment(c.commentId)
    ensures CountersConsistent(groups, posts, comments[k := comments[k].(replies := comments[k].replies + 1)] + [c])
  {
    var bumped := comments[k := comments[k].(replies := comments[k].replies + 1)];
    var comments' := bumped + [c];
    forall i | 0 <= i < |posts|
      ensures posts[i].replies == RepliesTo(comments', ParentPost(posts[i].postId))
    {
      RepliesToUpdateAt(comments, k, bumped[k], ParentPost(posts[i].postId));
      RepliesToAppend(bumped, c, ParentPost(posts[i].postId));
    }
    forall i | 0 <= i < |comments'|
      ensures comments'[i].replies == RepliesTo(comments', ParentComment(comments'[i].commentId))
    {
      var parent := ParentComment(comments'[i].commentId);
      RepliesToUpdateAt(comments, k, bumped[k], parent);
      RepliesToAppend(bumped, c, parent);
      if i == |comments| {
        RepliesToNone(comments, parent);
      } else if i != k {
        assert CommentKey(comments[i]) != CommentKey(comments[k]);
      }
    }
  }

  /** Editing a comment's text keeps its id, parent and count. */
  lemma UpdateReplyKeepsCounters(groups: seq<Group>, posts: seq<Post>, comments: seq<Comment>, k: nat, c: Comment)
    requires CountersConsistent(groups, posts, comments)
    requires k < |comments| && c.commentId == comments[k].commentId && c.parent == comments[k].parent
    requires c.replies == comments[k].replies
    ensures CountersConsistent(groups, posts, comments[k := c])
  {
    var comments' := comments[k := c];
    forall i | 0 <= i < |posts|
      ensures posts[i].replies == RepliesTo(comments', ParentPost(posts[i].postId))
    {
      RepliesToUpdateAt(comments, k, c, ParentPost(posts[i].postId));
    }
    forall i | 0 <= i < |comments'|
      ensures comments'[i].replies == RepliesTo(comments', ParentComment(comments'[i].commentId))
    {
      assert comments'[i].commentId == comments[i].commentId && comments'[i].replies == comments[i].replies;
      RepliesToUpdateAt(comments, k, c, ParentComment(comments[i].commentId));
    }
  }
}
