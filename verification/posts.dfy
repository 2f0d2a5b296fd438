/** Posts: tag checks on creation, who may open a single post, and the
    query behind another user's post list. */
module Posts {
  import opened Wrappers
  import opened Users
  import Text
  import Sequences
  import QueryBuilder

  datatype Audience = Public | Private | FriendsOnly

  datatype PostStatus = PostActive | Removed

  datatype Post = Post(
    id: Id,
    userId: Id,
    content: string,
    location: string,
    tags: seq<Id>,
    audience: Audience,
    status: PostStatus)

  function AudienceName(a: Audience): string
  {
    match a
    case Public => "public"
    case Private => "private"
    case FriendsOnly => "friends"
  }

  function StatusName(s: PostStatus): string
  {
    match s
    case PostActive => "active"
    case Removed => "removed"
  }

  /** `Post.findById(id)`: the first post with that id. */
  function FindPost(posts: seq<Post>, id: Id): (r: Option<Post>)
    ensures r.Some? ==> r.value in posts && r.value.id == id
    ensures r.None? <==> forall k :: 0 <= k < |posts| ==> posts[k].id != id
  {
    var k := Sequences.FirstIndex(posts, (x: Post) => x.id == id);
    if k.Some? then Some(posts[k.value]) else None
  }

  /** A user a post may tag: present, verified and active. */
  predicate Taggable(users: seq<User>, id: Id)
  {
    exists j :: 0 <= j < |users| && users[j].id == id && users[j].isVerified && users[j].status == Active
  }

  /** The tags no taggable user answers to, in input order. */
  function MissingTags(users: seq<User>, tags: seq<Id>): (r: seq<Id>)
    ensures |r| <= |tags|
    ensures forall t :: t in r <==> t in tags && !Taggable(users, t)
  {
    Sequences.Filter(tags, t => !Taggable(users, t))
  }

  /** The missing tags keep the order of the input: the missing tags of two
      lists in a row are the two results in a row. */
  lemma MissingTagsKeepsOrder(users: seq<User>, a: seq<Id>, b: seq<Id>)
    ensures MissingTags(users, a + b) == MissingTags(users, a) + MissingTags(users, b)
  {
    Sequences.FilterAppend(a, b, t => !Taggable(users, t));
  }

  const DuplicateTagsMessage: string := "You can't tags user multiple times in a post"

  /** The ids joined by ", ", decimal here where the source prints object ids. */
  function IdList(ids: seq<Id>): string
  {
    Text.Join(seq(|ids|, k requires 0 <= k < |ids| => Text.NatToString(ids[k])), ", ")
  }

  function MissingTagsMessage(missing: seq<Id>): string
  {
    "The users you tags are not found. (" + IdList(missing) + ")"
  }

  /** `createPostIntoDB`: duplicate tags fail with 400; tags naming no
      verified active user fail with 404 and are listed; otherwise the post is
      stored. Friendship with the tagged users is not required. */
  function CreatePost(users: seq<User>, posts: seq<Post>, post: Post): (r: Result<seq<Post>>)
    ensures r.Ok? <==> Sequences.NoDup(post.tags) && forall t :: t in post.tags ==> Taggable(users, t)
    ensures r.Ok? ==> r.value == posts + [post]
    ensures r.Err? && !Sequences.NoDup(post.tags) ==> r.error == Error(BadRequest, DuplicateTagsMessage)
    ensures r.Err? && Sequences.NoDup(post.tags) ==>
              r.error == Error(NotFound, MissingTagsMessage(MissingTags(users, post.tags)))
  {
    if |post.tags| > 0 && !Sequences.NoDup(post.tags) then Err(Error(BadRequest, DuplicateTagsMessage))
    else
      var missing := MissingTags(users, post.tags);
      if |post.tags| > 0 && |missing| > 0 then
        assert missing[0] in missing;
        Err(Error(NotFound, MissingTagsMessage(missing)))
      else
        assert |missing| == 0 ==> forall t :: t in post.tags ==> t !in missing;
        Ok(posts + [post])
  }

  const PostMissingMessage: string := "The post is not found !"
  const PrivatePostMessage: string := "The post is private . You can't see the post !"
  const RemovedPostMessage: string := "The post is removed . You can't see the post !"

  /** Who may open a post: its owner always; anyone else when it is neither
      private nor removed. A friends-only audience is not checked. */
  predicate CanView(p: Post, me: Id)
  {
    p.userId == me || (p.audience != Private && p.status == PostActive)
  }

  /** `getPostByIdFromDB`: 404 when missing, then 403 for a private post and
      403 for a removed post, unless the caller owns it. */
  function GetPostById(posts: seq<Post>, postId: Id, me: Id): (r: Result<Post>)
    ensures FindPost(posts, postId).None? <==> r == Err(Error(NotFound, PostMissingMessage))
    ensures r.Ok? <==> FindPost(posts, postId).Some? && CanView(FindPost(posts, postId).value, me)
    ensures r.Ok? ==> r.value == FindPost(posts, postId).value
    ensures r.Err? && FindPost(posts, postId).Some? ==>
              r.error.status == Forbidden
              && (r.error.message == PrivatePostMessage <==> FindPost(posts, postId).value.audience == Private)
  {
    match FindPost(posts, postId)
    case None => Err(Error(NotFound, PostMissingMessage))
    case Some(p) =>
      if p.audience == Private && p.userId != me then Err(Error(Forbidden, PrivatePostMessage))
      else if p.status == Removed && p.userId != me then Err(Error(Forbidden, RemovedPostMessage))
      else Ok(p)
  }

  /** A post just stored under a fresh id opens for its owner, and for
      anyone else exactly as `CanView` says. */
  lemma CreatedPostOpens(users: seq<User>, posts: seq<Post>, post: Post, me: Id)
    requires forall k :: 0 <= k < |posts| ==> posts[k].id != post.id
    requires CreatePost(users, posts, post).Ok?
    ensures GetPostById(CreatePost(users, posts, post).value, post.id, post.userId) == Ok(post)
    ensures GetPostById(CreatePost(users, posts, post).value, post.id, me).Ok? <==> CanView(post, me)
  {
    var after := CreatePost(users, posts, post).value;
    assert after[|posts|] == post;
    var found := FindPost(after, post.id).value;
    var j :| 0 <= j < |after| && after[j] == found;
    assert j == |posts|;
  }

  const OwnPostsMessage: string := "You can not see your own post by yourself"
  const PostUserMissingMessage: string := "The user is not found"
  const PostUserInactiveMessage: string := "The user is not active"

  /** The guards of `getPostsByUserIdFromDB`: not oneself (400), the user
      exists (404) and is active (400). */
  function PostsByUserGuard(users: seq<User>, me: Id, owner: Id): (o: Outcome)
    ensures o.Pass? <==> me != owner && FoundActive(users, owner)
    ensures me == owner ==> o == Fail(Error(BadRequest, OwnPostsMessage))
    ensures me != owner && !Exists(users, ById(owner)) ==> o == Fail(Error(NotFound, PostUserMissingMessage))
    ensures me != owner && Exists(users, ById(owner)) && !FoundActive(users, owner) ==>
              o == Fail(Error(BadRequest, PostUserInactiveMessage))
  {
    if me == owner then Fail(Error(BadRequest, OwnPostsMessage))
    else match Lookup(users, ById(owner))
      case None => Fail(Error(NotFound, PostUserMissingMessage))
      case Some(u) => if u.status != Active then Fail(Error(BadRequest, PostUserInactiveMessage)) else Pass
  }

  /** A post as the query layer sees it. */
  function PostDoc(p: Post): QueryBuilder.Doc
  {
    map["_id" := QueryBuilder.QNum(p.id),
        "userId" := QueryBuilder.QNum(p.userId),
        "content" := QueryBuilder.QStr(p.content),
        "location" := QueryBuilder.QStr(p.location),
        "audience" := QueryBuilder.QStr(AudienceName(p.audience)),
        "status" := QueryBuilder.QStr(StatusName(p.status))]
  }

  const Searchable: seq<string> := ["content", "location"]

  /** The fixed filter of another user's post list: that user's active posts
      whose audience is not private. */
  function OwnerFilter(owner: Id): seq<QueryBuilder.Cond>
  {
    [QueryBuilder.FieldEq("userId", QueryBuilder.QNum(owner)),
     QueryBuilder.FieldEq("status", QueryBuilder.QStr("active")),
     QueryBuilder.FieldNe("audience", QueryBuilder.QStr("private"))]
  }

  /** The query `getPostsByUserIdFromDB` runs after its guards; None where the
      search term is not a pattern or the sort or fields value is not a
      string, and the builder throws. */
  function PostsByUserQuery(owner: Id, query: QueryBuilder.Query, keys: seq<string>, compiles: QueryBuilder.Compiles): (r: Option<QueryBuilder.ModelQuery>)
    requires forall k :: k in query <==> k in keys
    ensures r.Some? ==> |r.value.conds| > 3 && r.value.conds[..3] == OwnerFilter(owner)
  {
    QueryBuilder.Build(OwnerFilter(owner), query, keys, Searchable, compiles)
  }

  /** The fixed filter selects exactly the owner's posts a stranger may open
      one by one; friends-only posts are among them. */
  lemma OwnerFilterIsStrangerView(p: Post, owner: Id, me: Id, m: QueryBuilder.Matcher)
    requires me != owner
    ensures (forall i :: 0 <= i < 3 ==> QueryBuilder.Holds(PostDoc(p), OwnerFilter(owner)[i], m)) <==>
              p.userId == owner && CanView(p, me)
  {
    var d := PostDoc(p);
    assert QueryBuilder.Holds(d, OwnerFilter(owner)[0], m) <==> p.userId == owner;
    assert QueryBuilder.Holds(d, OwnerFilter(owner)[1], m) <==> p.status == PostActive;
    assert QueryBuilder.Holds(d, OwnerFilter(owner)[2], m) <==> p.audience != Private;
  }

  /** Every post the list query selects is one the caller could open. */
  lemma ListedPostsAreViewable(owner: Id, me: Id, query: QueryBuilder.Query, keys: seq<string>, p: Post,
                                m: QueryBuilder.Matcher, compiles: QueryBuilder.Compiles)
    requires me != owner
    requires forall k :: k in query <==> k in keys
    requires PostsByUserQuery(owner, query, keys, compiles).Some?
    requires QueryBuilder.Selects(PostsByUserQuery(owner, query, keys, compiles).value, PostDoc(p), m)
    ensures p.userId == owner && CanView(p, me)
  {
    var q := PostsByUserQuery(owner, query, keys, compiles).value;
    forall i | 0 <= i < 3 ensures QueryBuilder.Holds(PostDoc(p), OwnerFilter(owner)[i], m) {
      assert q.conds[i] == q.conds[..3][i];
    }
    OwnerFilterIsStrangerView(p, owner, me, m);
  }
}
