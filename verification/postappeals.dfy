/** Appeals against a removed post: only the owner of a post that is not
    active may appeal, and only while no earlier appeal of theirs for that
    post is still open (pending or rejected). */
module PostAppeals {
  import opened Wrappers
  import opened Users
  import Posts

  datatype AppealStatus = AppealPending | AppealApproved | AppealRejected

  datatype Appeal = Appeal(id: Id, postId: Id, userId: Id, message: string, status: AppealStatus)

  function AppealStatusName(s: AppealStatus): string
  {
    match s
    case AppealPending => "pending"
    case AppealApproved => "approved"
    case AppealRejected => "rejected"
  }

  /** An appeal by `me` for `postId` that has not been approved. */
  predicate Open(a: Appeal, me: Id, postId: Id)
  {
    a.userId == me && a.postId == postId && a.status != AppealApproved
  }

  /** `PostAppeal.findOne({ userId, postId, status: { $ne: approved } })`. */
  function FindOpen(appeals: seq<Appeal>, me: Id, postId: Id): (r: Option<Appeal>)
    ensures r.Some? ==> r.value in appeals && Open(r.value, me, postId)
    ensures r.None? <==> forall k :: 0 <= k < |appeals| ==> !Open(appeals[k], me, postId)
  {
    if |appeals| == 0 then None
    else if Open(appeals[0], me, postId) then Some(appeals[0])
    else FindOpen(appeals[1..], me, postId)
  }

  const OtherUserPostMessage: string := "You can not appeal for other user post !"
  const ActivePostMessage: string := "You can not appeal for active post !"

  function AlreadyAppealedMessage(s: AppealStatus): string
  {
    "You already appealed for this post! Your appeal status: '" + AppealStatusName(s) + "'"
  }

  /** `createPostAppealIntoDB`: the post exists (404), is the caller's (403)
      and is not active (400), and the caller has no open appeal for it
      (400, naming that appeal's status); then one pending appeal is added. */
  function CreateAppeal(posts: seq<Posts.Post>, appeals: seq<Appeal>, me: Id, postId: Id, id: Id, message: string)
    : (r: Result<seq<Appeal>>)
    ensures Posts.FindPost(posts, postId).None? ==> r == Err(Error(NotFound, Posts.PostMissingMessage))
    ensures Posts.FindPost(posts, postId).Some? && Posts.FindPost(posts, postId).value.userId != me ==>
              r == Err(Error(Forbidden, OtherUserPostMessage))
    ensures Posts.FindPost(posts, postId).Some? && Posts.FindPost(posts, postId).value.userId == me
            && Posts.FindPost(posts, postId).value.status == Posts.PostActive ==>
              r == Err(Error(BadRequest, ActivePostMessage))
    ensures r.Ok? <==> && Posts.FindPost(posts, postId).Some?
                       && Posts.FindPost(posts, postId).value.userId == me
                       && Posts.FindPost(posts, postId).value.status != Posts.PostActive
                       && forall k :: 0 <= k < |appeals| ==> !Open(appeals[k], me, postId)
    ensures r.Ok? ==> r.value == appeals + [Appeal(id, postId, me, message, AppealPending)]
    ensures r.Err? && FindOpen(appeals, me, postId).Some? && Posts.FindPost(posts, postId).Some?
            && Posts.FindPost(posts, postId).value.userId == me
            && Posts.FindPost(posts, postId).value.status != Posts.PostActive ==>
              r.error == Error(BadRequest, AlreadyAppealedMessage(FindOpen(appeals, me, postId).value.status))
  {
    match Posts.FindPost(posts, postId)
    case None => Err(Error(NotFound, Posts.PostMissingMessage))
    case Some(post) =>
      if post.userId != me then Err(Error(Forbidden, OtherUserPostMessage))
      else if post.status == Posts.PostActive then Err(Error(BadRequest, ActivePostMessage))
      else match FindOpen(appeals, me, postId)
        case Some(a) => Err(Error(BadRequest, AlreadyAppealedMessage(a.status)))
        case None => Ok(appeals + [Appeal(id, postId, me, message, AppealPending)])
  }

  /** Store property the guard maintains: each user has at most one open
      appeal per post. */
  predicate OneOpenPerPost(appeals: seq<Appeal>)
  {
    forall i, j :: 0 <= i < j < |appeals| && appeals[i].userId == appeals[j].userId && appeals[i].postId == appeals[j].postId ==>
      appeals[i].status == AppealApproved || appeals[j].status == AppealApproved
  }

  lemma CreateKeepsOneOpen(posts: seq<Posts.Post>, appeals: seq<Appeal>, me: Id, postId: Id, id: Id, message: string)
    requires OneOpenPerPost(appeals)
    requires CreateAppeal(posts, appeals, me, postId, id, message).Ok?
    ensures OneOpenPerPost(CreateAppeal(posts, appeals, me, postId, id, message).value)
  {
    var r := CreateAppeal(posts, appeals, me, postId, id, message).value;
    assert forall k :: 0 <= k < |appeals| ==> r[k] == appeals[k] && !Open(appeals[k], me, postId);
  }

  /** Appealing twice in a row: the second appeal meets the first, still
      pending, and is refused. */
  lemma SecondAppealRefused(posts: seq<Posts.Post>, appeals: seq<Appeal>, me: Id, postId: Id, id: Id, id2: Id, m: string, m2: string)
    requires CreateAppeal(posts, appeals, me, postId, id, m).Ok?
    ensures var after := CreateAppeal(posts, appeals, me, postId, id, m).value;
      CreateAppeal(posts, after, me, postId, id2, m2) == Err(Error(BadRequest, AlreadyAppealedMessage(AppealPending)))
  {
    var after := CreateAppeal(posts, appeals, me, postId, id, m).value;
    assert forall k :: 0 <= k < |appeals| ==> after[k] == appeals[k];
    assert Open(after[|appeals|], me, postId);
    var found := FindOpen(after, me, postId);
    assert found.Some?;
    assert found.value in appeals || found.value == after[|appeals|];
  }
}
