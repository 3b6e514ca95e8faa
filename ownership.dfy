/**
 * The ownership rules of the post routes: who may edit or delete a post,
 * and the `isAuthor` flag of the single-post page.
 */
module Ownership {
  import opened Opt
  import opened Collaborators
  import opened Records

  /** `post.authorid === req.user.userId`; an undefined `userId` equals no author id. */
  function IsAuthor(post: Post, user: Claims): (r: bool)
    ensures r <==> user.userId.Some? && user.userId.value == post.authorid
  {
    user.userId == Some(post.authorid)
  }

  /** The outcome of fetching post `id` for `user` on the edit and delete routes. */
  datatype Access = Allowed | NotFound | Forbidden

  /** Lines 243-251 (and 260-268, 288-296): a missing post, then a post of someone else, are turned away. */
  function PostAccess(posts: map<int, Post>, id: int, user: Claims): (access: Access)
    ensures access == Allowed <==> id in posts && IsAuthor(posts[id], user)
    ensures access == NotFound <==> id !in posts
    ensures access == Forbidden <==> id in posts && !IsAuthor(posts[id], user)
  {
    if id !in posts then NotFound
    else if Some(posts[id].authorid) != user.userId then Forbidden
    else Allowed
  }

  /** Access depends on nothing but the requested post: other posts may change freely. */
  lemma AccessIsLocal(posts: map<int, Post>, posts': map<int, Post>, id: int, user: Claims)
    requires id in posts <==> id in posts'
    requires id in posts ==> posts[id].authorid == posts'[id].authorid
    ensures PostAccess(posts, id, user) == PostAccess(posts', id, user)
  {
  }

  /**
   * Claims without a `userId`, such as the ones the register handler signs,
   * own nothing: every existing post is `Forbidden` to them.
   */
  lemma NoUserIdOwnsNothing(posts: map<int, Post>, id: int, user: Claims)
    requires user.userId.None?
    ensures PostAccess(posts, id, user) != Allowed
    ensures id in posts ==> PostAccess(posts, id, user) == Forbidden && !IsAuthor(posts[id], user)
  {
  }

  /** Two users with different ids are never both allowed on the same post. */
  lemma SingleOwner(posts: map<int, Post>, id: int, a: Claims, b: Claims)
    requires PostAccess(posts, id, a) == Allowed && PostAccess(posts, id, b) == Allowed
    ensures a.userId == b.userId
  {
  }
}
