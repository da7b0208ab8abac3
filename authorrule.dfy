/**
 * The RBAC rule `isPodiumAuthor`: a permission guarded by it (updating or
 * deleting one's own post) is granted only when the post passed to the
 * access check was written by the user asking.
 */
module AuthorRule {
  import opened Entities

  /** The key under which the access check receives the post. */
  const PostKey: string := "post"

  /**
   * AuthorRule::execute.  `params` holds the parameters of the access check
   * that carry a post; the role or permission the rule guards plays no part.
   */
  function Execute(user: int, params: map<string, Post>): (r: bool)
    ensures r ==> PostKey in params
    ensures PostKey in params ==> (r <==> params[PostKey].authorId == user)
  {
    PostKey in params && params[PostKey].authorId == user
  }

  /** At most one user passes the rule for a given post: its author. */
  lemma OnlyTheAuthor(u: int, v: int, params: map<string, Post>)
    requires Execute(u, params) && Execute(v, params)
    ensures u == v
  {
  }

  /** Parameters other than the post do not change the rule's answer. */
  lemma OtherParamsIgnored(user: int, params: map<string, Post>, key: string, p: Post)
    requires key != PostKey
    ensures Execute(user, params[key := p]) == Execute(user, params)
  {
  }
}
