/** The client's comment-tree reconciler: pure functions over an ordered forest
    of `Reply` nodes (frontend/src/functions/forumApi.ts). `UpdateNested` is the
    primitive; adding one or many replies, editing the text, toggling a like and
    removing a child are built on it. The flat top-level lists of the post page
    and of the post lists are updated by the filter and prepend helpers at the
    end of the module. */
module CommentTree {
  import opened Common

  /** A comment as the client renders it: the server row plus the client-local
      `isLiked` flag and `Replies`, the children materialised so far. */
  datatype Reply = Reply(
    commentId: string,
    comment: string,
    uid: string,
    likes: int,
    isLiked: bool,
    Replies: seq<Reply>)

  /** A post as the client lists it. */
  datatype PostItem = PostItem(
    postId: string,
    title: string,
    details: string,
    groupId: string,
    uid: string,
    likes: int,
    views: int,
    replies: int,
    isLiked: bool,
    createdAt: int)

  // ---------------------------------------------------------------------------
  // The primitive

  /** `updateNestedComments`: maps over the list; a node whose id is `targetId`
      becomes `updateFn(node)` and is not descended into; any other node with
      children has its children updated recursively; a leaf is kept as is. */
  function UpdateNested(comments: seq<Reply>, targetId: string, updateFn: Reply -> Reply): (r: seq<Reply>)
    ensures |r| == |comments|
    decreases comments
  {
    seq(|comments|, i requires 0 <= i < |comments| =>
      var c := comments[i];
      if c.commentId == targetId then updateFn(c)
      else if |c.Replies| > 0 then c.(Replies := UpdateNested(c.Replies, targetId, updateFn))
      else c)
  }

  /** Some node of the forest, at any depth, has id `id`. */
  predicate InForest(comments: seq<Reply>, id: string)
    decreases comments
  {
    exists i :: 0 <= i < |comments| && (comments[i].commentId == id || InForest(comments[i].Replies, id))
  }

  /** Every node at which UpdateNested's search stops (its id is `targetId`)
      satisfies `p`. */
  predicate EveryTarget(comments: seq<Reply>, targetId: string, p: Reply -> bool)
    decreases comments
  {
    forall i :: 0 <= i < |comments| ==>
      if comments[i].commentId == targetId then p(comments[i])
      else EveryTarget(comments[i].Replies, targetId, p)
  }

  /** The node reached from the forest by following the child indices `path`
      (the first index picks a top-level node). */
  function NodeAt(comments: seq<Reply>, path: seq<nat>): Option<Reply>
    decreases path
  {
    if path == [] || path[0] >= |comments| then None
    else if |path| == 1 then Some(comments[path[0]])
    else NodeAt(comments[path[0]].Replies, path[1..])
  }

  /** No node strictly above the end of `path` has id `targetId`, so
      UpdateNested's search reaches the node at the end of `path`. */
  predicate Reached(comments: seq<Reply>, path: seq<nat>, targetId: string)
    decreases path
  {
    |path| <= 1 ||
    (path[0] < |comments| && comments[path[0]].commentId != targetId &&
     Reached(comments[path[0]].Replies, path[1..], targetId))
  }

  /** Whatever node the search reaches, at any depth: a target becomes exactly
      `updateFn(node)`; any other node keeps every field except `Replies`, and
      keeps as many children as before, so that the path still leads to the
      same place. */
  lemma {:induction false} UpdateNestedOnPath(comments: seq<Reply>, path: seq<nat>, targetId: string,
                                              updateFn: Reply -> Reply)
    requires NodeAt(comments, path).Some? && Reached(comments, path, targetId)
    ensures var n := NodeAt(comments, path).value;
            var m := NodeAt(UpdateNested(comments, targetId, updateFn), path);
            && m.Some?
            && (n.commentId == targetId ==> m.value == updateFn(n))
            && (n.commentId != targetId ==>
                  m.value.(Replies := n.Replies) == n && |m.value.Replies| == |n.Replies|)
    decreases path
  {
    if |path| > 1 {
      var c := comments[path[0]];
      UpdateNestedOnPath(c.Replies, path[1..], targetId, updateFn);
    }
  }

  /** No node has id `targetId`: the forest comes back unchanged. */
  lemma {:induction false} UpdateNestedAbsent(comments: seq<Reply>, targetId: string, updateFn: Reply -> Reply)
    requires !InForest(comments, targetId)
    ensures UpdateNested(comments, targetId, updateFn) == comments
    decreases comments
  {
    var r := UpdateNested(comments, targetId, updateFn);
    forall i | 0 <= i < |comments|
      ensures r[i] == comments[i]
    {
      var c := comments[i];
      if |c.Replies| > 0 {
        UpdateNestedAbsent(c.Replies, targetId, updateFn);
      }
    }
  }

  /** An update that leaves every target it reaches as it was leaves the whole
      forest as it was. */
  lemma {:induction false} UpdateNestedFixes(comments: seq<Reply>, targetId: string, updateFn: Reply -> Reply,
                                            p: Reply -> bool)
    requires EveryTarget(comments, targetId, p)
    requires forall x :: p(x) ==> updateFn(x) == x
    ensures UpdateNested(comments, targetId, updateFn) == comments
    decreases comments
  {
    var r := UpdateNested(comments, targetId, updateFn);
    forall i | 0 <= i < |comments|
      ensures r[i] == comments[i]
    {
      var c := comments[i];
      if c.commentId != targetId && |c.Replies| > 0 {
        UpdateNestedFixes(c.Replies, targetId, updateFn, p);
      }
    }
  }

  /** Two updates of the same target, the first keeping ids, are one update by
      the composed function. */
  lemma {:induction false} UpdateNestedCompose(comments: seq<Reply>, targetId: string,
                                              f: Reply -> Reply, g: Reply -> Reply, h: Reply -> Reply)
    requires forall x :: f(x).commentId == x.commentId
    requires forall x :: g(f(x)) == h(x)
    ensures UpdateNested(UpdateNested(comments, targetId, f), targetId, g) == UpdateNested(comments, targetId, h)
    decreases comments
  {
    var once := UpdateNested(comments, targetId, f);
    var twice := UpdateNested(once, targetId, g);
    var direct := UpdateNested(comments, targetId, h);
    forall i | 0 <= i < |comments|
      ensures twice[i] == direct[i]
    {
      var c := comments[i];
      if c.commentId != targetId && |c.Replies| > 0 {
        UpdateNestedCompose(c.Replies, targetId, f, g, h);
      }
    }
  }

  // ---------------------------------------------------------------------------
  // The five operations built on the primitive

  /** `addCommentReply`: appends `newReply` to the children of the target. */
  function AddCommentReply(comments: seq<Reply>, targetId: string, newReply: Reply): (r: seq<Reply>)
    ensures |r| == |comments|
  {
    UpdateNested(comments, targetId, (c: Reply) => c.(Replies := c.Replies + [newReply]))
  }

  /** `addCommentReplies`: appends the fetched children to the target's
      children; nothing is removed as a duplicate. */
  function AddCommentReplies(comments: seq<Reply>, targetId: string, newReplies: seq<Reply>): (r: seq<Reply>)
    ensures |r| == |comments|
  {
    UpdateNested(comments, targetId, (c: Reply) => c.(Replies := c.Replies + newReplies))
  }

  /** `editComment`: replaces the text of the target. */
  function EditComment(comments: seq<Reply>, targetId: string, content: string): (r: seq<Reply>)
    ensures |r| == |comments|
  {
    UpdateNested(comments, targetId, (c: Reply) => c.(comment := content))
  }

  /** The like toggle on one node: it flips `isLiked`; unliking takes one like
      away but never goes below zero; liking adds one. */
  function ToggleLike(c: Reply): (r: Reply)
    ensures r.(likes := c.likes, isLiked := c.isLiked) == c
    ensures r.isLiked == !c.isLiked
    ensures c.isLiked ==> r.likes == if c.likes > 0 then c.likes - 1 else 0
    ensures r.likes >= 0 || !c.isLiked
    ensures !c.isLiked ==> r.likes == c.likes + 1
  {
    if c.isLiked then c.(isLiked := false, likes := if c.likes > 0 then c.likes - 1 else 0)
    else c.(isLiked := true, likes := c.likes + 1)
  }

  /** `likeAndUnlikeComment`. */
  function LikeAndUnlikeComment(comments: seq<Reply>, targetId: string): (r: seq<Reply>)
    ensures |r| == |comments|
  {
    UpdateNested(comments, targetId, ToggleLike)
  }

  /** `deleteCommentReply`: removes from the children of `parentId` those with
      id `targetId`. */
  function DeleteCommentReply(comments: seq<Reply>, parentId: string, targetId: string): (r: seq<Reply>)
    ensures |r| == |comments|
  {
    UpdateNested(comments, parentId, (c: Reply) => c.(Replies := Filter(c.Replies, (x: Reply) => x.commentId != targetId)))
  }

  /** The target's children become the old children followed by `newReply`;
      every other reached node keeps its own fields. */
  lemma AddCommentReplyOnPath(comments: seq<Reply>, path: seq<nat>, targetId: string, newReply: Reply)
    requires NodeAt(comments, path).Some? && Reached(comments, path, targetId)
    ensures var n := NodeAt(comments, path).value;
            var m := NodeAt(AddCommentReply(comments, targetId, newReply), path);
            && m.Some?
            && (n.commentId == targetId ==> m.value == n.(Replies := n.Replies + [newReply]))
            && (n.commentId != targetId ==> m.value.(Replies := n.Replies) == n)
  {
    UpdateNestedOnPath(comments, path, targetId, (c: Reply) => c.(Replies := c.Replies + [newReply]));
  }

  /** The target's children become the old children followed by all of
      `newReplies`, duplicates included. */
  lemma AddCommentRepliesOnPath(comments: seq<Reply>, path: seq<nat>, targetId: string, newReplies: seq<Reply>)
    requires NodeAt(comments, path).Some? && Reached(comments, path, targetId)
    ensures var n := NodeAt(comments, path).value;
            var m := NodeAt(AddCommentReplies(comments, targetId, newReplies), path);
            && m.Some?
            && (n.commentId == targetId ==> m.value.Replies == n.Replies + newReplies)
            && (n.commentId == targetId ==> |m.value.Replies| == |n.Replies| + |newReplies|)
            && m.value.(Replies := n.Replies) == n
  {
    UpdateNestedOnPath(comments, path, targetId, (c: Reply) => c.(Replies := c.Replies + newReplies));
  }

  /** Editing changes the text of the target and nothing else: id, author,
      likes, like flag and children are kept; every other reached node is
      untouched in its own fields. */
  lemma EditCommentOnPath(comments: seq<Reply>, path: seq<nat>, targetId: string, content: string)
    requires NodeAt(comments, path).Some? && Reached(comments, path, targetId)
    ensures var n := NodeAt(comments, path).value;
            var m := NodeAt(EditComment(comments, targetId, content), path);
            && m.Some?
            && (n.commentId == targetId ==> m.value.comment == content && m.value.(comment := n.comment) == n)
            && (n.commentId != targetId ==> m.value.(Replies := n.Replies) == n)
  {
    UpdateNestedOnPath(comments, path, targetId, (c: Reply) => c.(comment := content));
  }

  /** Editing the same target twice with the same text is editing it once. */
  lemma EditCommentIdempotent(comments: seq<Reply>, targetId: string, content: string)
    ensures EditComment(EditComment(comments, targetId, content), targetId, content)
         == EditComment(comments, targetId, content)
  {
    var f := (c: Reply) => c.(comment := content);
    UpdateNestedCompose(comments, targetId, f, f, f);
  }

  /** The like toggle on a reached target flips `isLiked` and moves `likes` by
      one, floored at zero; other reached nodes keep their own fields. */
  lemma LikeAndUnlikeOnPath(comments: seq<Reply>, path: seq<nat>, targetId: string)
    requires NodeAt(comments, path).Some? && Reached(comments, path, targetId)
    ensures var n := NodeAt(comments, path).value;
            var m := NodeAt(LikeAndUnlikeComment(comments, targetId), path);
            && m.Some?
            && (n.commentId == targetId ==>
                  && m.value.isLiked == !n.isLiked
                  && (n.isLiked ==> m.value.likes == if n.likes > 0 then n.likes - 1 else 0)
                  && (!n.isLiked ==> m.value.likes == n.likes + 1)
                  && m.value.(likes := n.likes, isLiked := n.isLiked) == n)
            && (n.commentId != targetId ==> m.value.(Replies := n.Replies) == n)
  {
    UpdateNestedOnPath(comments, path, targetId, ToggleLike);
  }

  /** A node whose second toggle undoes the first: unliked with a
      non-negative count, or liked with at least one like. */
  predicate Restorable(c: Reply)
  {
    if c.isLiked then c.likes >= 1 else c.likes >= 0
  }

  /** Toggling a node twice restores it exactly when it is Restorable; in
      particular an unliked node with `likes >= 0` gets back its count and its
      flag, while a liked node at zero comes back with one like. */
  lemma ToggleLikeTwice(c: Reply)
    ensures ToggleLike(ToggleLike(c)) == c <==> Restorable(c)
    ensures c.isLiked && c.likes <= 0 ==> ToggleLike(ToggleLike(c)).likes == 1
  {
  }

  /** Toggling the same target twice gives back the forest when every target
      the search reaches is Restorable. */
  lemma LikeAndUnlikeTwice(comments: seq<Reply>, targetId: string)
    requires EveryTarget(comments, targetId, Restorable)
    ensures LikeAndUnlikeComment(LikeAndUnlikeComment(comments, targetId), targetId) == comments
  {
    var twice := (c: Reply) => ToggleLike(ToggleLike(c));
    UpdateNestedCompose(comments, targetId, ToggleLike, ToggleLike, twice);
    forall x | Restorable(x)
      ensures twice(x) == x
    {
      ToggleLikeTwice(x);
    }
    UpdateNestedFixes(comments, targetId, twice, Restorable);
  }

  /** The parent's children lose exactly those with id `targetId` and keep the
      others in order; reached nodes other than the parent keep their own
      fields. */
  lemma DeleteCommentReplyOnPath(comments: seq<Reply>, path: seq<nat>, parentId: string, targetId: string)
    requires NodeAt(comments, path).Some? && Reached(comments, path, parentId)
    ensures var n := NodeAt(comments, path).value;
            var m := NodeAt(DeleteCommentReply(comments, parentId, targetId), path);
            && m.Some?
            && m.value.(Replies := n.Replies) == n
            && (n.commentId == parentId ==>
                  && m.value.Replies == Filter(n.Replies, (x: Reply) => x.commentId != targetId)
                  && (forall i :: 0 <= i < |m.value.Replies| ==> m.value.Replies[i].commentId != targetId)
                  && (forall i :: 0 <= i < |n.Replies| && n.Replies[i].commentId != targetId
                        ==> n.Replies[i] in m.value.Replies))
  {
    UpdateNestedOnPath(comments, path, parentId,
      (c: Reply) => c.(Replies := Filter(c.Replies, (x: Reply) => x.commentId != targetId)));
  }

  /** Removal works only through the parent: every top-level node stays, even
      one whose id is `targetId`. */
  lemma DeleteCommentReplyKeepsTopLevel(comments: seq<Reply>, parentId: string, targetId: string)
    ensures var r := DeleteCommentReply(comments, parentId, targetId);
            forall i :: 0 <= i < |comments| ==> r[i].commentId == comments[i].commentId
  {
  }

  // ---------------------------------------------------------------------------
  // The flat-list updaters of the post page and the post lists

  /** The number of entries of a list with id `id`. */
  function Occurrences(list: seq<Reply>, id: string): nat
  {
    Count(list, (x: Reply) => x.commentId == id)
  }

  /** `deleteCommentFromList`: drops every top-level entry with id `replyId`
      and keeps all others in order. */
  function DeleteCommentFromList(list: seq<Reply>, replyId: string): (r: seq<Reply>)
    ensures forall i :: 0 <= i < |r| ==> r[i].commentId != replyId && r[i] in list
    ensures forall i :: 0 <= i < |list| && list[i].commentId != replyId ==> list[i] in r
    ensures |r| == |list| - Occurrences(list, replyId)
  {
    FilterSplits(list, replyId);
    Filter(list, (x: Reply) => x.commentId != replyId)
  }

  /** Every entry is either kept by the filter or counted as an occurrence. */
  lemma {:induction false} FilterSplits(list: seq<Reply>, id: string)
    ensures |Filter(list, (x: Reply) => x.commentId != id)| + Occurrences(list, id) == |list|
    decreases |list|
  {
    if list != [] {
      var front, x := list[..|list| - 1], list[|list| - 1];
      assert list == front + [x];
      FilterAppend(front, [x], (x: Reply) => x.commentId != id);
      FilterSplits(front, id);
    }
  }

  /** `deletePostFromList`: drops every post with id `postId` and keeps all
      others. */
  function DeletePostFromList(list: seq<PostItem>, postId: string): (r: seq<PostItem>)
    ensures forall i :: 0 <= i < |r| ==> r[i].postId != postId && r[i] in list
    ensures forall i :: 0 <= i < |list| && list[i].postId != postId ==> list[i] in r
  {
    Filter(list, (p: PostItem) => p.postId != postId)
  }

  /** `addCommentToList`: the new reply goes first, the old list follows. The
      `Set` there compares objects by reference and the new reply is a fresh
      object, so it removes nothing. */
  function AddCommentToList(list: seq<Reply>, newReply: Reply): (r: seq<Reply>)
    ensures |r| == |list| + 1 && r[0] == newReply && r[1..] == list
  {
    [newReply] + list
  }

  /** Adding a reply whose id is already listed lists that id once more. */
  lemma AddCommentToListKeepsDuplicates(list: seq<Reply>, newReply: Reply)
    ensures Occurrences(AddCommentToList(list, newReply), newReply.commentId)
         == Occurrences(list, newReply.commentId) + 1
  {
    var isNew := (x: Reply) => x.commentId == newReply.commentId;
    CountConcat([newReply], list, isNew);
    assert Count([newReply], isNew) == 1 by {
      assert [newReply][..0] == [];
    }
  }

  // ---------------------------------------------------------------------------
  // Merging a fetched page of top-level comments

  /** The entries of a list have pairwise different ids. */
  predicate UniqueIds(list: seq<Reply>)
  {
    UniqueKeys(list, (x: Reply) => x.commentId)
  }

  /** Some entry of the list has id `id`. */
  predicate Listed(list: seq<Reply>, id: string)
  {
    exists i :: 0 <= i < |list| && list[i].commentId == id
  }

  /** The page-merge updater of `fetchCommentByPostId` as written,
      `[...new Set([...prev, ...fetched])]`. The Set compares objects by
      reference and every fetched entry is a fresh object parsed from the
      response, so the merge is a plain concatenation. */
  function MergeFetchedPage(prev: seq<Reply>, fetched: seq<Reply>): (r: seq<Reply>)
    ensures |r| == |prev| + |fetched| && r[..|prev|] == prev && r[|prev|..] == fetched
  {
    prev + fetched
  }

  /** Every id is listed after the merge as often as in the two inputs
      together: nothing is dropped as a duplicate. */
  lemma MergeFetchedPageOccurrences(prev: seq<Reply>, fetched: seq<Reply>, id: string)
    ensures Occurrences(MergeFetchedPage(prev, fetched), id) == Occurrences(prev, id) + Occurrences(fetched, id)
  {
    CountConcat(prev, fetched, (x: Reply) => x.commentId == id);
  }

  /** The input that shows it: page 1 held [a, b]; the user posted `n`, which
      `addCommentToList` put first; the server's offsets moved by one, so page 2
      starts with `b` again, and `b` is now listed twice. */
  lemma MergeFetchedPageDuplicates()
    ensures var n := Reply("n", "new", "u1", 0, false, []);
            var a := Reply("a", "older", "u2", 0, false, []);
            var b := Reply("b", "oldest", "u3", 0, false, []);
            var c := Reply("c", "oldest of all", "u3", 0, false, []);
            && UniqueIds([n, a, b])
            && !UniqueIds(MergeFetchedPage(AddCommentToList([a, b], n), [b, c]))
  {
    var n := Reply("n", "new", "u1", 0, false, []);
    var a := Reply("a", "older", "u2", 0, false, []);
    var b := Reply("b", "oldest", "u3", 0, false, []);
    var c := Reply("c", "oldest of all", "u3", 0, false, []);
    var merged := MergeFetchedPage(AddCommentToList([a, b], n), [b, c]);
    assert merged[2] == b && merged[3] == b;
  }

  /** The merge the Set was evidently meant to perform: `prev` followed by the
      fetched entries whose id is not listed yet, in the order fetched. */
  function MergeFetchedPageById(prev: seq<Reply>, fetched: seq<Reply>): (r: seq<Reply>)
    ensures |prev| <= |r| <= |prev| + |fetched| && r[..|prev|] == prev
    ensures forall i :: |prev| <= i < |r| ==> r[i] in fetched
    decreases |fetched|
  {
    if fetched == [] then prev
    else if Listed(prev, fetched[0].commentId) then MergeFetchedPageById(prev, fetched[1..])
    else MergeFetchedPageById(prev + [fetched[0]], fetched[1..])
  }

  /** The corrected merge lists every id at most once when the list it starts
      from does. */
  lemma {:induction false} MergeFetchedPageByIdUnique(prev: seq<Reply>, fetched: seq<Reply>)
    requires UniqueIds(prev)
    ensures UniqueIds(MergeFetchedPageById(prev, fetched))
    decreases |fetched|
  {
    if fetched != [] && !Listed(prev, fetched[0].commentId) {
      var next := prev + [fetched[0]];
      forall i, j | 0 <= i < j < |next|
        ensures next[i].commentId != next[j].commentId
      {
        if j == |prev| {
          assert next[i] == prev[i];
        }
      }
      MergeFetchedPageByIdUnique(next, fetched[1..]);
    } else if fetched != [] {
      MergeFetchedPageByIdUnique(prev, fetched[1..]);
    }
  }

  /** Nothing is lost: an id is listed after the corrected merge exactly when
      it was listed before or fetched. */
  lemma {:induction false} MergeFetchedPageByIdListed(prev: seq<Reply>, fetched: seq<Reply>, id: string)
    ensures Listed(MergeFetchedPageById(prev, fetched), id) <==> Listed(prev, id) || Listed(fetched, id)
    decreases |fetched|
  {
    if fetched != [] {
      ListedSplit(prev, fetched, id);
      if Listed(prev, fetched[0].commentId) {
        MergeFetchedPageByIdListed(prev, fetched[1..], id);
        if fetched[0].commentId == id {
          assert Listed(prev, id);
        }
      } else {
        MergeFetchedPageByIdListed(prev + [fetched[0]], fetched[1..], id);
      }
    }
  }

  lemma ListedSplit(prev: seq<Reply>, fetched: seq<Reply>, id: string)
    requires fetched != []
    ensures Listed(fetched, id) <==> fetched[0].commentId == id || Listed(fetched[1..], id)
    ensures Listed(prev + [fetched[0]], id) <==> Listed(prev, id) || fetched[0].commentId == id
  {
    if Listed(fetched, id) {
      var i :| 0 <= i < |fetched| && fetched[i].commentId == id;
      if i > 0 {
        assert fetched[1..][i - 1] == fetched[i];
      }
    }
    if Listed(fetched[1..], id) {
      var i :| 0 <= i < |fetched[1..]| && fetched[1..][i].commentId == id;
      assert fetched[i + 1] == fetched[1..][i];
    }
    if Listed(prev, id) {
      var i :| 0 <= i < |prev| && prev[i].commentId == id;
      assert (prev + [fetched[0]])[i] == prev[i];
    }
    assert (prev + [fetched[0]])[|prev|] == fetched[0];
  }
}
