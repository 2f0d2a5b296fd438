/** Comments: the audience gate on commenting, one level of replies with the
    parent's reply counter, author-only edits, and deletion that takes a
    top-level comment's replies with it. */
module Comments {
  import opened Wrappers
  import opened Users
  import Sequences
  import Friends
  import Mentions
  import Posts

  datatype Comment = Comment(
    id: Id,
    postId: Id,
    authorId: Id,
    content: string,
    parentId: Option<Id>,
    mentions: seq<Id>,
    replyCount: nat,
    isEdited: bool,
    createdAt: int)

  /** The body of a create request; `parentId` is present for a reply. */
  datatype NewComment = NewComment(postId: Id, authorId: Id, content: string, parentId: Option<Id>)

  const PostMissingMessage: string := "The post is not found !"
  const PrivatePostMessage: string := "You can not comment on this post"
  const FriendsPostMessage: string := "The post audience is friends. You can not comment on this post"
  const ParentMissingMessage: string := "You can't reply non existing comment!"
  const NestedReplyMessage: string := "You can not reply on reply comment. You can reply only top level comment"
  const CommentMissingMessage: string := "The comment is not found !"
  const NoRepliesMessage: string := "This comment has no replies"
  const UpdateRefusedMessage: string := "You can not update other user comment !"
  const DeleteMissingMessage: string := "The comment you want to delete is not found !"
  const RemovedPostMessage: string := "You can not add or delete comment on removed post !"
  const DeleteRefusedMessage: string := "You can not delete other user comment !"

  /** `Post.findOne({ _id, status: active })`. */
  function ActivePost(posts: seq<Posts.Post>, id: Id): (r: Option<Posts.Post>)
    ensures r.Some? ==> r.value in posts && r.value.id == id && r.value.status == Posts.PostActive
    ensures r.None? <==> forall k :: 0 <= k < |posts| ==> !(posts[k].id == id && posts[k].status == Posts.PostActive)
  {
    if |posts| == 0 then None
    else if posts[0].id == id && posts[0].status == Posts.PostActive then Some(posts[0])
    else ActivePost(posts[1..], id)
  }

  /** `Comment.findById(id)`: the position of the comment with that id. */
  function FindComment(comments: seq<Comment>, id: Id): (k: Option<nat>)
    ensures k.Some? ==> k.value < |comments| && comments[k.value].id == id
    ensures k.Some? ==> forall j :: 0 <= j < k.value ==> comments[j].id != id
    ensures k.None? <==> forall j :: 0 <= j < |comments| ==> comments[j].id != id
  {
    Sequences.FirstIndex(comments, (x: Comment) => x.id == id)
  }

  /** Store assumption: `_id` is unique. */
  predicate UniqueCommentIds(comments: seq<Comment>)
  {
    forall i, j :: 0 <= i < j < |comments| ==> comments[i].id != comments[j].id
  }

  /** A fresh id: no comment has it, and no comment names it as its parent. */
  predicate FreshId(comments: seq<Comment>, id: Id)
  {
    forall k :: 0 <= k < |comments| ==> comments[k].id != id && comments[k].parentId != Some(id)
  }

  /** The number of stored replies to the comment `id`. */
  function RepliesTo(comments: seq<Comment>, id: Id): (n: nat)
    ensures n <= |comments|
  {
    if |comments| == 0 then 0
    else (if comments[0].parentId == Some(id) then 1 else 0) + RepliesTo(comments[1..], id)
  }

  /** No reply is counted exactly when no stored comment names `id` as its
      parent. */
  lemma {:induction false} RepliesToZero(comments: seq<Comment>, id: Id)
    ensures RepliesTo(comments, id) == 0 <==> forall k :: 0 <= k < |comments| ==> comments[k].parentId != Some(id)
  {
    if |comments| > 0 {
      RepliesToZero(comments[1..], id);
      assert forall k :: 0 < k < |comments| ==> comments[k] == comments[1..][k - 1];
    }
  }

  /** The counter never falls short of the replies it counts. Every
      operation keeps this, whatever order it writes in. */
  predicate CountsCover(comments: seq<Comment>)
  {
    forall k :: 0 <= k < |comments| ==> comments[k].replyCount >= RepliesTo(comments, comments[k].id)
  }

  /** Every counter equals the number of replies it counts. */
  predicate CountsExact(comments: seq<Comment>)
  {
    forall k :: 0 <= k < |comments| ==> comments[k].replyCount == RepliesTo(comments, comments[k].id)
  }

  // ---------------------------------------------------------------------------
  // Creating and replying

  /** The audience gate: a private post takes comments from its owner only,
      and a friends post from users with an accepted request either way with
      the owner, which the owner does not have with themself. */
  function Gate(friends: seq<Friends.FriendEdge>, post: Posts.Post, author: Id): (o: Outcome)
    ensures o.Pass? <==> match post.audience
                         case Public => true
                         case Private => author == post.userId
                         case FriendsOnly => Friends.AreFriends(friends, author, post.userId)
    ensures o.Fail? ==> o.error.status == Forbidden
  {
    if post.audience == Posts.Private && author != post.userId then Fail(Error(Forbidden, PrivatePostMessage))
    else if post.audience == Posts.FriendsOnly && !Friends.AreFriends(friends, author, post.userId) then
      Fail(Error(Forbidden, FriendsPostMessage))
    else Pass
  }

  /** The gate with the owner admitted to every audience of their own post. */
  function GateIntended(friends: seq<Friends.FriendEdge>, post: Posts.Post, author: Id): (o: Outcome)
    ensures o.Pass? <==> author == post.userId || Gate(friends, post, author).Pass?
    ensures o.Fail? ==> o == Gate(friends, post, author)
  {
    if author == post.userId then Pass else Gate(friends, post, author)
  }

  /** The comment a request stores: the mentioned users' ids, no replies, not
      edited. */
  function Fresh(users: seq<User>, req: NewComment, id: Id, now: int): (c: Comment)
    ensures c.id == id && c.postId == req.postId && c.authorId == req.authorId && c.content == req.content
    ensures c.parentId == req.parentId && c.replyCount == 0 && !c.isEdited && c.createdAt == now
    ensures forall m :: m in c.mentions ==> m in Mentions.MentionIds(users, req.content)
  {
    Comment(id, req.postId, req.authorId, req.content, req.parentId, Mentions.MentionIds(users, req.content), 0, false, now)
  }

  /** The counter bump `findByIdAndUpdate(parentId, { $inc: { replyCount: 1 } })`. */
  function Bump(comments: seq<Comment>, k: nat): (r: seq<Comment>)
    requires k < |comments|
    ensures |r| == |comments| && r[k].replyCount == comments[k].replyCount + 1
    ensures r[k] == comments[k].(replyCount := r[k].replyCount)
    ensures forall j :: 0 <= j < |comments| && j != k ==> r[j] == comments[j]
  {
    comments[k := comments[k].(replyCount := comments[k].replyCount + 1)]
  }

  /** `createOrReplyComment`, as written: the store after the call, which a
      failed reply may have changed, with the outcome. The post must be
      active (404) and pass the gate (403). A reply's parent is looked up
      and its counter bumped in one step (404 when missing), and only then
      is a parent that is itself a reply refused (400), so that refusal
      leaves the bump behind. No check ties the parent to the same post. */
  function CreateOrReply(users: seq<User>, friends: seq<Friends.FriendEdge>, posts: seq<Posts.Post>, comments: seq<Comment>,
                         req: NewComment, id: Id, now: int): (r: (seq<Comment>, Result<Comment>))
    ensures ActivePost(posts, req.postId).None? ==> r == (comments, Err(Error(NotFound, PostMissingMessage)))
    ensures ActivePost(posts, req.postId).Some? && Gate(friends, ActivePost(posts, req.postId).value, req.authorId).Fail? ==>
              r == (comments, Err(Gate(friends, ActivePost(posts, req.postId).value, req.authorId).error))
    ensures r.1.Ok? <==> && ActivePost(posts, req.postId).Some?
                         && Gate(friends, ActivePost(posts, req.postId).value, req.authorId).Pass?
                         && (req.parentId.Some? ==> && FindComment(comments, req.parentId.value).Some?
                                                    && comments[FindComment(comments, req.parentId.value).value].parentId.None?)
    ensures r.1.Ok? ==> r.1.value == Fresh(users, req, id, now)
    ensures r.1.Ok? && req.parentId.None? ==> r.0 == comments + [r.1.value]
    ensures r.1.Ok? && req.parentId.Some? ==> r.0 == Bump(comments, FindComment(comments, req.parentId.value).value) + [r.1.value]
    ensures r.1.Err? && req.parentId.Some? && FindComment(comments, req.parentId.value).Some? && r.0 != comments ==>
              && r.0 == Bump(comments, FindComment(comments, req.parentId.value).value)
              && r.1.error == Error(BadRequest, NestedReplyMessage)
    ensures r.1.Err? && r.0 == comments ==> r.1.error.status in {NotFound, Forbidden}
  {
    match ActivePost(posts, req.postId)
    case None => (comments, Err(Error(NotFound, PostMissingMessage)))
    case Some(post) =>
      match Gate(friends, post, req.authorId)
      case Fail(e) => (comments, Err(e))
      case Pass =>
        var c := Fresh(users, req, id, now);
        match req.parentId
        case None => (comments + [c], Ok(c))
        case Some(p) =>
          match FindComment(comments, p)
          case None => (comments, Err(Error(NotFound, ParentMissingMessage)))
          case Some(k) =>
            var bumped := Bump(comments, k);
            assert bumped != comments by { assert bumped[k] != comments[k]; }
            if comments[k].parentId.Some? then (bumped, Err(Error(BadRequest, NestedReplyMessage)))
            else (bumped + [c], Ok(c))
  }

  /** `createOrReplyComment` with the owner admitted by the gate and the
      nesting checked before the counter moves, so that every refusal leaves
      the store as it was. */
  function CreateOrReplyIntended(users: seq<User>, friends: seq<Friends.FriendEdge>, posts: seq<Posts.Post>, comments: seq<Comment>,
                                 req: NewComment, id: Id, now: int): (r: (seq<Comment>, Result<Comment>))
    ensures r.1.Err? ==> r.0 == comments
    ensures r.1.Ok? <==> && ActivePost(posts, req.postId).Some?
                         && GateIntended(friends, ActivePost(posts, req.postId).value, req.authorId).Pass?
                         && (req.parentId.Some? ==> && FindComment(comments, req.parentId.value).Some?
                                                    && comments[FindComment(comments, req.parentId.value).value].parentId.None?)
    ensures r.1.Ok? ==> r.1.value == Fresh(users, req, id, now)
    ensures r.1.Ok? && req.parentId.None? ==> r.0 == comments + [r.1.value]
    ensures r.1.Ok? && req.parentId.Some? ==> r.0 == Bump(comments, FindComment(comments, req.parentId.value).value) + [r.1.value]
    ensures r.1.Ok? ==> r == CreateOrReply(users, friends, posts, comments, req, id, now) || req.authorId == ActivePost(posts, req.postId).value.userId
  {
    match ActivePost(posts, req.postId)
    case None => (comments, Err(Error(NotFound, PostMissingMessage)))
    case Some(post) =>
      match GateIntended(friends, post, req.authorId)
      case Fail(e) => (comments, Err(e))
      case Pass =>
        var c := Fresh(users, req, id, now);
        match req.parentId
        case None => (comments + [c], Ok(c))
        case Some(p) =>
          match FindComment(comments, p)
          case None => (comments, Err(Error(NotFound, ParentMissingMessage)))
          case Some(k) =>
            if comments[k].parentId.Some? then (comments, Err(Error(BadRequest, NestedReplyMessage)))
            else (Bump(comments, k) + [c], Ok(c))
  }

  // ---------------------------------------------------------------------------
  // Reading

  function CreatedAt(c: Comment): int { c.createdAt }

  function Oldest(c: Comment): int { -c.createdAt }

  /** The order of a top-level listing: the client's `sort` read as a key
      to sort by, largest first, or `-createdAt` when the query has none. */
  function TopLevelKey(order: Option<Comment -> int>): (key: Comment -> int)
    ensures order.None? ==> forall c :: key(c) == c.createdAt
    ensures order.Some? ==> key == order.value
  {
    match order
    case None => CreatedAt
    case Some(k) => k
  }

  /** `getTopLevelComments`: 404 when no post has the id, whatever its
      status; otherwise the post's comments that are not replies, in the
      order the query asks for, newest first by default. */
  function TopLevel(posts: seq<Posts.Post>, comments: seq<Comment>, postId: Id, order: Option<Comment -> int>): (r: Result<seq<Comment>>)
    ensures r.Err? <==> Posts.FindPost(posts, postId).None?
    ensures r.Err? ==> r.error == Error(NotFound, PostMissingMessage)
    ensures r.Ok? && order.None? ==> Sequences.SortedDesc(r.value, CreatedAt)
    ensures r.Ok? && order.Some? ==> Sequences.SortedDesc(r.value, order.value)
    ensures r.Ok? ==> forall c :: c in r.value <==> c in comments && c.postId == postId && c.parentId.None?
  {
    if Posts.FindPost(posts, postId).None? then Err(Error(NotFound, PostMissingMessage))
    else Ok(Sequences.SortedFilter(comments, (c: Comment) => c.postId == postId && c.parentId.None?, TopLevelKey(order)))
  }

  /** `getReplyComments`: 404 for an unknown comment, 400 when its counter
      is zero; otherwise its replies, oldest first. The counter, not the
      stored replies, decides the 400. */
  function Replies(comments: seq<Comment>, commentId: Id): (r: Result<seq<Comment>>)
    ensures FindComment(comments, commentId).None? <==> r == Err(Error(NotFound, CommentMissingMessage))
    ensures r.Ok? <==> FindComment(comments, commentId).Some? && comments[FindComment(comments, commentId).value].replyCount != 0
    ensures r.Err? && FindComment(comments, commentId).Some? ==> r.error == Error(BadRequest, NoRepliesMessage)
    ensures r.Ok? ==> Sequences.SortedDesc(r.value, Oldest)
    ensures r.Ok? ==> forall c :: c in r.value <==> c in comments && c.parentId == Some(commentId)
  {
    match FindComment(comments, commentId)
    case None => Err(Error(NotFound, CommentMissingMessage))
    case Some(k) =>
      if comments[k].replyCount == 0 then Err(Error(BadRequest, NoRepliesMessage))
      else Ok(Sequences.SortedFilter(comments, (c: Comment) => c.parentId == Some(commentId), Oldest))
  }

  /** While the counters cover the replies, "no replies" is never said of a
      comment that has one. */
  lemma NoRepliesIsTrue(comments: seq<Comment>, commentId: Id)
    requires CountsCover(comments)
    requires Replies(comments, commentId) == Err(Error(BadRequest, NoRepliesMessage))
    ensures forall c :: c in comments ==> c.parentId != Some(commentId)
  {
    var k := FindComment(comments, commentId).value;
    assert RepliesTo(comments, comments[k].id) == 0;
    RepliesToZero(comments, commentId);
  }

  /** With exact counters, the 400 is said exactly of the comments without
      replies. */
  lemma NoRepliesIffNone(comments: seq<Comment>, commentId: Id)
    requires CountsExact(comments)
    requires FindComment(comments, commentId).Some?
    ensures Replies(comments, commentId).Err? <==> forall c :: c in comments ==> c.parentId != Some(commentId)
  {
    var k := FindComment(comments, commentId).value;
    assert comments[k].replyCount == RepliesTo(comments, commentId);
    RepliesToZero(comments, commentId);
    if exists c :: c in comments && c.parentId == Some(commentId) {
      var c :| c in comments && c.parentId == Some(commentId);
      var j :| 0 <= j < |comments| && comments[j] == c;
    }
  }

  /** Every reply names a stored comment as its parent. */
  predicate ParentsStored(comments: seq<Comment>)
  {
    forall k :: 0 <= k < |comments| && comments[k].parentId.Some? ==> FindComment(comments, comments[k].parentId.value).Some?
  }

  /** Whether `c` is listed among the replies of the comment `p`. */
  predicate InReplies(comments: seq<Comment>, p: Id, c: Comment)
  {
    Replies(comments, p).Ok? && c in Replies(comments, p).value
  }

  /** The two listings split a post's comments: while counters are exact
      and parents stored, each comment of the post is in the post's
      top-level listing or among the replies of its parent, and it is in
      no other comment's replies. */
  lemma ListingsPartition(posts: seq<Posts.Post>, comments: seq<Comment>, postId: Id, order: Option<Comment -> int>, c: Comment)
    requires Posts.FindPost(posts, postId).Some?
    requires CountsExact(comments) && ParentsStored(comments)
    requires c in comments && c.postId == postId
    ensures forall p: Id :: InReplies(comments, p, c) ==> c.parentId == Some(p)
    ensures c.parentId.Some? ==> InReplies(comments, c.parentId.value, c)
    ensures c in TopLevel(posts, comments, postId, order).value <==> c.parentId.None?
  {
    if c.parentId.Some? {
      var p := c.parentId.value;
      var j :| 0 <= j < |comments| && comments[j] == c;
      var k := FindComment(comments, p).value;
      assert comments[k].replyCount == RepliesTo(comments, comments[k].id);
      RepliesToZero(comments, p);
    }
  }

  // ---------------------------------------------------------------------------
  // Updating and deleting

  /** `updateComment`: 404 for an unknown comment and 403 for anyone but its
      author; otherwise the content and mentions are replaced and the
      comment is marked edited, nothing else changing. */
  function Update(users: seq<User>, comments: seq<Comment>, commentId: Id, me: Id, content: string): (r: Result<seq<Comment>>)
    ensures FindComment(comments, commentId).None? <==> r == Err(Error(NotFound, CommentMissingMessage))
    ensures r.Ok? <==> FindComment(comments, commentId).Some? && comments[FindComment(comments, commentId).value].authorId == me
    ensures r.Err? && FindComment(comments, commentId).Some? ==> r.error == Error(Forbidden, UpdateRefusedMessage)
    ensures r.Ok? ==> var k := FindComment(comments, commentId).value;
              && |r.value| == |comments|
              && r.value[k] == comments[k].(content := content, mentions := Mentions.MentionIds(users, content), isEdited := true)
              && forall j :: 0 <= j < |comments| && j != k ==> r.value[j] == comments[j]
  {
    match FindComment(comments, commentId)
    case None => Err(Error(NotFound, CommentMissingMessage))
    case Some(k) =>
      if comments[k].authorId != me then Err(Error(Forbidden, UpdateRefusedMessage))
      else Ok(comments[k := comments[k].(content := content, mentions := Mentions.MentionIds(users, content), isEdited := true)])
  }

  /** Whether a delete takes a comment away: the deleted comment itself and,
      when that one is top level, every reply to it. */
  predicate Doomed(c: Comment, target: Comment)
  {
    c.id == target.id || (target.parentId.None? && c.parentId == Some(target.id))
  }

  /** `deleteComment`: 404 for an unknown comment or post, 403 on a removed
      post, 403 unless the caller owns the post or wrote the comment;
      otherwise the comment goes, with its replies when it is top level.
      The counter of a deleted reply's parent stays as it was. */
  function Delete(posts: seq<Posts.Post>, comments: seq<Comment>, me: Id, commentId: Id): (r: Result<seq<Comment>>)
    ensures FindComment(comments, commentId).None? <==> r == Err(Error(NotFound, DeleteMissingMessage))
    ensures r.Ok? <==> && FindComment(comments, commentId).Some?
                       && var c := comments[FindComment(comments, commentId).value];
                          && Posts.FindPost(posts, c.postId).Some?
                          && Posts.FindPost(posts, c.postId).value.status != Posts.Removed
                          && (Posts.FindPost(posts, c.postId).value.userId == me || c.authorId == me)
    ensures r.Ok? ==> var target := comments[FindComment(comments, commentId).value];
              forall c :: c in r.value <==> c in comments && !Doomed(c, target)
    ensures r.Err? && FindComment(comments, commentId).Some? ==>
              var c := comments[FindComment(comments, commentId).value];
              r.error == if Posts.FindPost(posts, c.postId).None? then Error(NotFound, PostMissingMessage)
                         else if Posts.FindPost(posts, c.postId).value.status == Posts.Removed then Error(Forbidden, RemovedPostMessage)
                         else Error(Forbidden, DeleteRefusedMessage)
  {
    match FindComment(comments, commentId)
    case None => Err(Error(NotFound, DeleteMissingMessage))
    case Some(k) =>
      var target := comments[k];
      match Posts.FindPost(posts, target.postId)
      case None => Err(Error(NotFound, PostMissingMessage))
      case Some(post) =>
        if post.status == Posts.Removed then Err(Error(Forbidden, RemovedPostMessage))
        else if !(post.userId == me || target.authorId == me) then Err(Error(Forbidden, DeleteRefusedMessage))
        else Ok(Sequences.Filter(comments, (c: Comment) => !Doomed(c, target)))
  }

  // ---------------------------------------------------------------------------
  // The reply counters

  lemma {:induction false} RepliesToAppend(comments: seq<Comment>, c: Comment, id: Id)
    ensures RepliesTo(comments + [c], id) == RepliesTo(comments, id) + (if c.parentId == Some(id) then 1 else 0)
  {
    if |comments| == 0 {
      assert [] + [c] == [c];
    } else {
      assert (comments + [c])[1..] == comments[1..] + [c];
      RepliesToAppend(comments[1..], c, id);
    }
  }

  /** Rewriting a comment in place without moving it to another parent
      keeps every reply count. */
  lemma {:induction false} RepliesToSameParents(a: seq<Comment>, b: seq<Comment>, id: Id)
    requires |a| == |b|
    requires forall k :: 0 <= k < |a| ==> a[k].parentId == b[k].parentId
    ensures RepliesTo(a, id) == RepliesTo(b, id)
  {
    if |a| > 0 {
      RepliesToSameParents(a[1..], b[1..], id);
    }
  }

  /** Deleting comments never adds replies. */
  lemma {:induction false} RepliesToFilter(comments: seq<Comment>, p: Comment -> bool, id: Id)
    ensures RepliesTo(Sequences.Filter(comments, p), id) <= RepliesTo(comments, id)
  {
    if |comments| > 0 {
      var f := Sequences.Filter(comments, p);
      var t := Sequences.Filter(comments[1..], p);
      RepliesToFilter(comments[1..], p, id);
      if p(comments[0]) {
        assert f == [comments[0]] + t;
        assert f[0] == comments[0] && f[1..] == t;
      } else {
        assert f == t;
      }
    }
  }

  /** Bumping the counter at `k` keeps the counters covering, and the
      counts themselves. */
  lemma BumpKeepsCover(comments: seq<Comment>, k: nat)
    requires k < |comments| && CountsCover(comments)
    ensures CountsCover(Bump(comments, k))
    ensures forall id :: RepliesTo(Bump(comments, k), id) == RepliesTo(comments, id)
  {
    var b := Bump(comments, k);
    forall id ensures RepliesTo(b, id) == RepliesTo(comments, id) {
      RepliesToSameParents(b, comments, id);
    }
  }

  /** Adding a comment with a fresh id and no counter keeps the counters
      covering once its parent, if any, has been counted. */
  lemma AppendKeepsCover(before: seq<Comment>, after: seq<Comment>, c: Comment)
    requires FreshId(before, c.id) && c.replyCount == 0 && c.parentId != Some(c.id)
    requires |after| == |before|
    requires forall k :: 0 <= k < |before| ==> after[k].parentId == before[k].parentId && after[k].id == before[k].id
    requires forall k :: 0 <= k < |before| ==>
               after[k].replyCount >= RepliesTo(before, before[k].id) + (if c.parentId == Some(before[k].id) then 1 else 0)
    ensures CountsCover(after + [c])
  {
    var r := after + [c];
    forall k | 0 <= k < |r| ensures r[k].replyCount >= RepliesTo(r, r[k].id) {
      var id := r[k].id;
      RepliesToAppend(after, c, id);
      RepliesToSameParents(after, before, id);
      if k == |after| {
        assert id == c.id;
        RepliesToZero(before, c.id);
      } else {
        assert r[k] == after[k] && id == before[k].id;
      }
    }
  }

  /** As written, creating or replying keeps the counters covering the
      replies, whether it succeeds or not. */
  lemma CreateOrReplyKeepsCover(users: seq<User>, friends: seq<Friends.FriendEdge>, posts: seq<Posts.Post>, comments: seq<Comment>,
                                req: NewComment, id: Id, now: int)
    requires UniqueCommentIds(comments) && FreshId(comments, id) && CountsCover(comments)
    ensures CountsCover(CreateOrReply(users, friends, posts, comments, req, id, now).0)
  {
    var r := CreateOrReply(users, friends, posts, comments, req, id, now);
    if r.1.Ok? {
      var c := r.1.value;
      match req.parentId
      case None =>
        AppendKeepsCover(comments, comments, c);
      case Some(p) =>
        var k := FindComment(comments, p).value;
        var b := Bump(comments, k);
        assert c.parentId == Some(comments[k].id);
        AppendKeepsCover(comments, b, c);
    } else if r.0 != comments {
      BumpKeepsCover(comments, FindComment(comments, req.parentId.value).value);
    }
  }

  /** Corrected, creating or replying keeps the counters exact. */
  lemma CreateOrReplyIntendedKeepsExact(users: seq<User>, friends: seq<Friends.FriendEdge>, posts: seq<Posts.Post>, comments: seq<Comment>,
                                        req: NewComment, id: Id, now: int)
    requires UniqueCommentIds(comments) && FreshId(comments, id) && CountsExact(comments)
    ensures CountsExact(CreateOrReplyIntended(users, friends, posts, comments, req, id, now).0)
  {
    var r := CreateOrReplyIntended(users, friends, posts, comments, req, id, now);
    if r.1.Ok? {
      var c := r.1.value;
      var after := if req.parentId.None? then comments else Bump(comments, FindComment(comments, req.parentId.value).value);
      assert r.0 == after + [c];
      forall j | 0 <= j < |r.0| ensures r.0[j].replyCount == RepliesTo(r.0, r.0[j].id) {
        RepliesToAppend(after, c, r.0[j].id);
        RepliesToSameParents(after, comments, r.0[j].id);
        if j == |after| {
          RepliesToZero(comments, c.id);
        }
      }
    }
  }

  /** Deleting keeps the counters covering: replies only disappear. */
  lemma DeleteKeepsCover(posts: seq<Posts.Post>, comments: seq<Comment>, me: Id, commentId: Id)
    requires CountsCover(comments)
    requires Delete(posts, comments, me, commentId).Ok?
    ensures CountsCover(Delete(posts, comments, me, commentId).value)
  {
    var target := comments[FindComment(comments, commentId).value];
    var p := (c: Comment) => !Doomed(c, target);
    var r := Delete(posts, comments, me, commentId).value;
    assert r == Sequences.Filter(comments, p);
    forall k | 0 <= k < |r| ensures r[k].replyCount >= RepliesTo(r, r[k].id) {
      assert r[k] in comments;
      var j :| 0 <= j < |comments| && comments[j] == r[k];
      RepliesToFilter(comments, p, r[k].id);
    }
  }

  /** Updating a comment keeps every counter and every parent link, so exact
      counters stay exact. */
  lemma UpdateKeepsExact(users: seq<User>, comments: seq<Comment>, commentId: Id, me: Id, content: string)
    requires CountsExact(comments)
    requires Update(users, comments, commentId, me, content).Ok?
    ensures CountsExact(Update(users, comments, commentId, me, content).value)
  {
    var r := Update(users, comments, commentId, me, content).value;
    forall j | 0 <= j < |r| ensures r[j].replyCount == RepliesTo(r, r[j].id) {
      RepliesToSameParents(r, comments, r[j].id);
    }
  }

  /** Editing twice with the same text is editing once. */
  lemma UpdateIdempotent(users: seq<User>, comments: seq<Comment>, commentId: Id, me: Id, content: string)
    requires Update(users, comments, commentId, me, content).Ok?
    ensures var once := Update(users, comments, commentId, me, content).value;
      Update(users, once, commentId, me, content) == Ok(once)
  {
    var once := Update(users, comments, commentId, me, content).value;
    var k := FindComment(comments, commentId).value;
    assert FindComment(once, commentId) == Some(k);
    var c := once[k];
    assert c.(content := content, mentions := Mentions.MentionIds(users, content), isEdited := true) == c;
    assert once[k := c] == once;
  }

  /** Rewriting the comments in place with the same ids and parents, and
      then storing one whose parent, if any, is stored, keeps every parent
      stored. */
  lemma ExtendKeepsParents(before: seq<Comment>, after: seq<Comment>, c: Comment)
    requires ParentsStored(before)
    requires |after| == |before|
    requires forall k :: 0 <= k < |before| ==> after[k].parentId == before[k].parentId && after[k].id == before[k].id
    requires c.parentId.Some? ==> FindComment(before, c.parentId.value).Some?
    ensures ParentsStored(after + [c])
  {
    var r := after + [c];
    forall k | 0 <= k < |r| && r[k].parentId.Some? ensures FindComment(r, r[k].parentId.value).Some? {
      var p := r[k].parentId.value;
      var j := if k < |after| then FindComment(before, before[k].parentId.value).value else FindComment(before, p).value;
      assert r[j].id == p;
    }
  }

  /** Creating or replying, as written or corrected, keeps every parent
      stored: a reply is stored only once its parent has been found. */
  lemma CreateOrReplyKeepsParents(users: seq<User>, friends: seq<Friends.FriendEdge>, posts: seq<Posts.Post>, comments: seq<Comment>,
                                  req: NewComment, id: Id, now: int)
    requires ParentsStored(comments)
    ensures ParentsStored(CreateOrReply(users, friends, posts, comments, req, id, now).0)
    ensures ParentsStored(CreateOrReplyIntended(users, friends, posts, comments, req, id, now).0)
  {
    var c := Fresh(users, req, id, now);
    if req.parentId.Some? && FindComment(comments, req.parentId.value).Some? {
      var b := Bump(comments, FindComment(comments, req.parentId.value).value);
      ExtendKeepsParents(comments, b, c);
      assert ParentsStored(b) by {
        forall k | 0 <= k < |b| && b[k].parentId.Some? ensures FindComment(b, b[k].parentId.value).Some? {
          assert b[FindComment(comments, b[k].parentId.value).value].id == b[k].parentId.value;
        }
      }
    } else if req.parentId.None? {
      ExtendKeepsParents(comments, comments, c);
    }
  }

  /** An edit keeps every parent stored. */
  lemma UpdateKeepsParents(users: seq<User>, comments: seq<Comment>, commentId: Id, me: Id, content: string)
    requires ParentsStored(comments)
    requires Update(users, comments, commentId, me, content).Ok?
    ensures ParentsStored(Update(users, comments, commentId, me, content).value)
  {
    var r := Update(users, comments, commentId, me, content).value;
    forall k | 0 <= k < |r| && r[k].parentId.Some? ensures FindComment(r, r[k].parentId.value).Some? {
      assert r[FindComment(comments, comments[k].parentId.value).value].id == r[k].parentId.value;
    }
  }

  // ---------------------------------------------------------------------------
  // Discrepancies with the evident intent

  /** The owner of a friends-only post is refused on it: nobody holds an
      accepted request with themself. */
  lemma OwnerRefusedOnOwnFriendsPost()
    ensures var post := Posts.Post(1, 7, "hi", "", [], Posts.FriendsOnly, Posts.PostActive);
      && CreateOrReply([], [], [post], [], NewComment(1, 7, "mine", None), 2, 0).1 == Err(Error(Forbidden, FriendsPostMessage))
      && CreateOrReplyIntended([], [], [post], [], NewComment(1, 7, "mine", None), 2, 0).1.Ok?
  {
    var post := Posts.Post(1, 7, "hi", "", [], Posts.FriendsOnly, Posts.PostActive);
    assert ActivePost([post], 1) == Some(post);
    assert !Friends.AreFriends([], 7, 7);
  }

  /** Corrected, the owner may comment on any active post of their own. */
  lemma OwnerMayComment(users: seq<User>, friends: seq<Friends.FriendEdge>, posts: seq<Posts.Post>, comments: seq<Comment>,
                        req: NewComment, id: Id, now: int)
    requires ActivePost(posts, req.postId).Some? && ActivePost(posts, req.postId).value.userId == req.authorId
    requires req.parentId.None?
    ensures CreateOrReplyIntended(users, friends, posts, comments, req, id, now).1.Ok?
  {
  }

  /** Replying to a reply is refused, yet that reply's counter has gone up:
      it now claims a reply it does not have, and reading its replies
      answers with an empty list instead of the 400. */
  lemma NestedReplyLeavesBump()
    ensures var post := Posts.Post(1, 7, "hi", "", [], Posts.Public, Posts.PostActive);
      var top := Comment(2, 1, 7, "top", None, [], 1, false, 0);
      var reply := Comment(3, 1, 7, "reply", Some(2), [], 0, false, 0);
      var r := CreateOrReply([], [], [post], [top, reply], NewComment(1, 7, "again", Some(3)), 4, 0);
      && CountsExact([top, reply])
      && r.1 == Err(Error(BadRequest, NestedReplyMessage))
      && r.0 != [top, reply]
      && !CountsExact(r.0)
      && Replies(r.0, 3) == Ok([])
      && Replies([top, reply], 3) == Err(Error(BadRequest, NoRepliesMessage))
  {
    var post := Posts.Post(1, 7, "hi", "", [], Posts.Public, Posts.PostActive);
    var top := Comment(2, 1, 7, "top", None, [], 1, false, 0);
    var reply := Comment(3, 1, 7, "reply", Some(2), [], 0, false, 0);
    var store := [top, reply];
    assert ActivePost([post], 1) == Some(post);
    assert store[0].id != 3 && store[1].id == 3;
    assert FindComment(store, 3) == Some(1);
    assert RepliesTo(store, 2) == 1 && RepliesTo(store, 3) == 0;
    var r := CreateOrReply([], [], [post], store, NewComment(1, 7, "again", Some(3)), 4, 0);
    assert r.0 == [top, reply.(replyCount := 1)];
    assert RepliesTo(r.0, 3) == 0;
    assert r.0[1].replyCount != RepliesTo(r.0, r.0[1].id);
    assert r.0[0].id != 3 && r.0[1].id == 3;
    assert FindComment(r.0, 3) == Some(1);
    assert Sequences.Filter(r.0, (c: Comment) => c.parentId == Some(3)) == [];
  }

  /** Corrected, a refused reply leaves the store and so the counters as
      they were. */
  lemma NestedReplyIntendedLeavesStore(users: seq<User>, friends: seq<Friends.FriendEdge>, posts: seq<Posts.Post>, comments: seq<Comment>,
                                       req: NewComment, id: Id, now: int)
    requires req.parentId.Some? && FindComment(comments, req.parentId.value).Some?
    requires comments[FindComment(comments, req.parentId.value).value].parentId.Some?
    ensures CreateOrReplyIntended(users, friends, posts, comments, req, id, now).0 == comments
    ensures CreateOrReplyIntended(users, friends, posts, comments, req, id, now).1.Err?
  {
  }
}
