/** The rows of the forum's three tables, as the handlers of
    backend/src/controllers/groupController.ts read and write them. */
module Entities {
  import opened Common

  /** What a comment replies to: `parentId` together with `parentType`, which
      says whether that id is a post's or a comment's. */
  datatype Parent = ParentPost(postId: string) | ParentComment(commentId: string)

  /** A forum group; `postCount` counts the group's posts. The owner is a
      polymorphic reference (`ownerId`, `ownerType`), always "User" today. */
  datatype Group = Group(
    groupId: string,
    groupName: string,
    description: string,
    postCount: int,
    ownerId: string,
    ownerType: string)

  /** A post of a group; `replies` counts the comments that reply to the post
      directly. `uid` is the author, absent when the request had no user. */
  datatype Post = Post(
    postId: string,
    groupId: string,
    title: string,
    details: string,
    uid: Option<string>,
    likes: int,
    replies: int,
    views: int,
    createdAt: int)

  /** A comment; `replies` counts the comments that reply to it directly. */
  datatype Comment = Comment(
    commentId: string,
    comment: string,
    uid: string,
    parent: Parent,
    replies: int,
    createdAt: int)

  /** The owner type every group is created with. */
  const UserOwner := "User"

  /** The id `parentId` holds, whichever table it indexes. */
  function ParentId(p: Parent): string
  {
    match p
    case ParentPost(id) => id
    case ParentComment(id) => id
  }

  function GroupKey(g: Group): string { g.groupId }
  function PostKey(p: Post): string { p.postId }
  function CommentKey(c: Comment): string { c.commentId }
}
