/** Friend requests: the edge store, the send / accept / reject / undo /
    unfriend guard ladders, the friend and following id lists, and the three
    paged lists. */
module Friends {
  import opened Wrappers
  import opened Users
  import Blocks
  import Sequences
  import Paging

  datatype FriendStatus = Pending | Accepted | Rejected

  /** A friend request from `senderId` to `receiverId`. */
  datatype FriendEdge = FriendEdge(
    id: Id,
    senderId: Id,
    receiverId: Id,
    status: FriendStatus,
    rejectedAt: Option<int>,
    requestedAt: int,
    updatedAt: int)

  /** Store assumption (unique index on `senderId, receiverId`): at most one
      edge per ordered pair. */
  predicate UniqueOrderedPairs(friends: seq<FriendEdge>)
  {
    forall i, j :: 0 <= i < j < |friends| ==>
      !(friends[i].senderId == friends[j].senderId && friends[i].receiverId == friends[j].receiverId)
  }

  /** Store assumption: edge ids are unique. */
  predicate UniqueEdgeIds(friends: seq<FriendEdge>)
  {
    forall i, j :: 0 <= i < j < |friends| ==> friends[i].id != friends[j].id
  }

  predicate HasEdge(friends: seq<FriendEdge>, s: Id, r: Id, st: FriendStatus)
  {
    exists k :: 0 <= k < |friends| && friends[k].senderId == s && friends[k].receiverId == r && friends[k].status == st
  }

  predicate HasForward(friends: seq<FriendEdge>, s: Id, r: Id)
  {
    exists k :: 0 <= k < |friends| && friends[k].senderId == s && friends[k].receiverId == r
  }

  /** `Friend.findOne({ senderId: s, receiverId: r })`. */
  function FindForward(friends: seq<FriendEdge>, s: Id, r: Id): (k: Option<nat>)
    ensures k.Some? ==> k.value < |friends| && friends[k.value].senderId == s && friends[k.value].receiverId == r
    ensures k.Some? ==> forall j :: 0 <= j < k.value ==> !(friends[j].senderId == s && friends[j].receiverId == r)
    ensures k.None? <==> !HasForward(friends, s, r)
  {
    if |friends| == 0 then None
    else if friends[0].senderId == s && friends[0].receiverId == r then Some(0)
    else
      var k := FindForward(friends[1..], s, r);
      assert forall j :: 0 < j < |friends| ==> friends[j] == friends[1..][j - 1];
      if k.Some? then Some(k.value + 1) else None
  }

  /** `Friend.findById(id)`. */
  function FindById(friends: seq<FriendEdge>, id: Id): (k: Option<nat>)
    ensures k.Some? ==> k.value < |friends| && friends[k.value].id == id
    ensures k.Some? ==> forall j :: 0 <= j < k.value ==> friends[j].id != id
    ensures k.None? <==> forall j :: 0 <= j < |friends| ==> friends[j].id != id
  {
    Sequences.FirstIndex(friends, (x: FriendEdge) => x.id == id)
  }

  predicate EitherBlocked(blocks: seq<Blocks.BlockEdge>, a: Id, b: Id)
  {
    Blocks.Blocked(blocks, a, b) || Blocks.Blocked(blocks, b, a)
  }

  function NewRequest(id: Id, sender: Id, receiver: Id, now: int): FriendEdge
  {
    FriendEdge(id, sender, receiver, Pending, None, now, now)
  }

  const SelfRequestMessage: string := "You can not send friend request to yourself"
  const ReceiverMissingMessage: string := "The user you sent request is not found!"
  const ReceiverInactiveMessage: string := "The user you sent friend request is not active"
  const ReversePendingMessage: string :=
    "The user has already sent you a friend request." + " You can accept or reject this friend request"
  const AlreadySentMessage: string := "You have already sent friend request to this user"
  const AlreadyFriendMessage: string := "The user is already your friend"
  const PreviouslyRejectedMessage: string :=
    "The previous friend request was rejected." + " Please wait for 7 days" + " to send again friend request to this user"

  /** The refusals the accept, reject and undo ladders share, for `verb`. */
  function SelfActionMessage(verb: string): string
  {
    "You can not " + verb + " friend request to yourself"
  }

  function RequestMissingMessage(verb: string): string
  {
    "The friend request you want to " + verb + " is not found"
  }

  function NotYoursMessage(verb: string): string
  {
    "You can't " + verb + " other users friend request"
  }

  const AlreadyFriendsMessage: string := "You are already friends"
  const AlreadyRejectedMessage: string := "You have already rejected the friend request"
  const RejectedByOtherMessage: string := "The friend request is already rejected by the user"
  const UnfriendSelfMessage: string := "You cannot delete yourself"
  const FriendMissingMessage: string := "The user you want to delete" + " from your friend list is not found"
  const NotFriendMessage: string := "The user you want to delete" + " from your friend list is not your friend"

  /** The status of the first `sender -> receiver` edge decides the last
      step of the send ladder; no forward edge lets the request through. */
  function ForwardCheck(friends: seq<FriendEdge>, sender: Id, receiver: Id): (o: Outcome)
    ensures o.Pass? <==> !HasForward(friends, sender, receiver)
    ensures o.Fail? ==> var k := FindForward(friends, sender, receiver).value;
      && (friends[k].status == Pending ==> o.error == Error(BadRequest, AlreadySentMessage))
      && (friends[k].status == Accepted ==> o.error == Error(Conflict, AlreadyFriendMessage))
      && (friends[k].status == Rejected ==> o.error == Error(BadRequest, PreviouslyRejectedMessage))
  {
    var k := FindForward(friends, sender, receiver);
    if k.None? then Pass
    else match friends[k.value].status
      case Pending => Fail(Error(BadRequest, AlreadySentMessage))
      case Accepted => Fail(Error(Conflict, AlreadyFriendMessage))
      case Rejected => Fail(Error(BadRequest, PreviouslyRejectedMessage))
  }

  /** `sendFriendRequest`, as written: self (400), either block edge (403),
      receiver missing (404) or not active (400), a pending request the other
      way (400), then the forward edge's status; an accepted edge the other
      way is not consulted. On success exactly one pending edge is added. */
  function SendRequest(users: seq<User>, blocks: seq<Blocks.BlockEdge>, friends: seq<FriendEdge>,
                       sender: Id, receiver: Id, newId: Id, now: int): (r: Result<seq<FriendEdge>>)
    ensures sender == receiver ==> r == Err(Error(BadRequest, SelfRequestMessage))
    ensures sender != receiver && EitherBlocked(blocks, sender, receiver) ==>
              r.Err? && r.error.status == Forbidden
    ensures sender != receiver && !EitherBlocked(blocks, sender, receiver) && !Exists(users, ById(receiver)) ==>
              r == Err(Error(NotFound, ReceiverMissingMessage))
    ensures sender != receiver && !EitherBlocked(blocks, sender, receiver) && Exists(users, ById(receiver))
            && !FoundActive(users, receiver) ==>
              r == Err(Error(BadRequest, ReceiverInactiveMessage))
    ensures sender != receiver && !EitherBlocked(blocks, sender, receiver) && FoundActive(users, receiver)
            && HasEdge(friends, receiver, sender, Pending) ==>
              r == Err(Error(BadRequest, ReversePendingMessage))
    ensures sender != receiver && !EitherBlocked(blocks, sender, receiver) && FoundActive(users, receiver)
            && !HasEdge(friends, receiver, sender, Pending) && HasForward(friends, sender, receiver) ==>
              r == Err(ForwardCheck(friends, sender, receiver).error)
    ensures r.Ok? <==> && sender != receiver && !EitherBlocked(blocks, sender, receiver)
                       && FoundActive(users, receiver)
                       && !HasEdge(friends, receiver, sender, Pending)
                       && !HasForward(friends, sender, receiver)
    ensures r.Ok? ==> r.value == friends + [NewRequest(newId, sender, receiver, now)]
  {
    if sender == receiver then Err(Error(BadRequest, SelfRequestMessage)) else
    :- Blocks.CheckMutualBlock(blocks, sender, receiver);
    var u := Lookup(users, ById(receiver));
    :- Need(u.Some?, NotFound, ReceiverMissingMessage);
    :- Need(u.value.status == Active, BadRequest, ReceiverInactiveMessage);
    :- Need(!HasEdge(friends, receiver, sender, Pending), BadRequest, ReversePendingMessage);
    :- ForwardCheck(friends, sender, receiver);
    Ok(friends + [NewRequest(newId, sender, receiver, now)])
  }

  /** The send ladder with the missing step added: an accepted edge the
      other way also fails, with the same 409 as an accepted forward edge. */
  function SendRequestChecked(users: seq<User>, blocks: seq<Blocks.BlockEdge>, friends: seq<FriendEdge>,
                              sender: Id, receiver: Id, newId: Id, now: int): (r: Result<seq<FriendEdge>>)
    ensures HasEdge(friends, receiver, sender, Accepted) ==> r.Err?
    ensures r.Ok? <==> SendRequest(users, blocks, friends, sender, receiver, newId, now).Ok?
                       && !HasEdge(friends, receiver, sender, Accepted)
    ensures r.Ok? ==> r == SendRequest(users, blocks, friends, sender, receiver, newId, now)
  {
    if sender == receiver then Err(Error(BadRequest, SelfRequestMessage)) else
    :- Blocks.CheckMutualBlock(blocks, sender, receiver);
    var u := Lookup(users, ById(receiver));
    :- Need(u.Some?, NotFound, ReceiverMissingMessage);
    :- Need(u.value.status == Active, BadRequest, ReceiverInactiveMessage);
    :- Need(!HasEdge(friends, receiver, sender, Pending), BadRequest, ReversePendingMessage);
    :- Need(!HasEdge(friends, receiver, sender, Accepted), Conflict, AlreadyFriendMessage);
    :- ForwardCheck(friends, sender, receiver);
    Ok(friends + [NewRequest(newId, sender, receiver, now)])
  }

  /** The edge at `k` with its status (and maybe its update time) replaced;
      every other edge is untouched. */
  predicate OnlyStatusChanged(before: seq<FriendEdge>, after: seq<FriendEdge>, k: nat, st: FriendStatus)
  {
    && |after| == |before| && k < |before|
    && (forall j :: 0 <= j < |before| && j != k ==> after[j] == before[j])
    && after[k].status == st
    && after[k].id == before[k].id
    && after[k].senderId == before[k].senderId && after[k].receiverId == before[k].receiverId
    && after[k].requestedAt == before[k].requestedAt
  }

  /** The request `requestId` is pending and addressed to `me`. */
  predicate PendingFor(friends: seq<FriendEdge>, requestId: Id, me: Id)
  {
    var k := FindById(friends, requestId);
    k.Some? && friends[k.value].receiverId == me && friends[k.value].status == Pending
  }

  /** `acceptFriendRequest`: request id equal to the caller's id (400),
      missing (404), not the receiver (403), already accepted (400), rejected
      (409); otherwise only that edge becomes accepted. */
  function Accept(friends: seq<FriendEdge>, requestId: Id, me: Id, now: int): (r: Result<seq<FriendEdge>>)
    ensures requestId == me ==> r == Err(Error(BadRequest, SelfActionMessage("accept")))
    ensures requestId != me && FindById(friends, requestId).None? ==>
              r == Err(Error(NotFound, RequestMissingMessage("accept")))
    ensures requestId != me && FindById(friends, requestId).Some? ==>
              var e := friends[FindById(friends, requestId).value];
              && (e.receiverId != me ==> r == Err(Error(Forbidden, NotYoursMessage("accept"))))
              && (e.receiverId == me && e.status == Accepted ==> r == Err(Error(BadRequest, AlreadyFriendsMessage)))
              && (e.receiverId == me && e.status == Rejected ==>
                    r == Err(Error(Conflict, AlreadyRejectedMessage)))
    ensures r.Ok? <==> requestId != me && PendingFor(friends, requestId, me)
    ensures r.Ok? ==> var k := FindById(friends, requestId).value;
      && OnlyStatusChanged(friends, r.value, k, Accepted)
      && r.value[k].rejectedAt == friends[k].rejectedAt
      && r.value[k].updatedAt == now
  {
    if requestId == me then Err(Error(BadRequest, SelfActionMessage("accept"))) else
    var k := FindById(friends, requestId);
    :- Need(k.Some?, NotFound, RequestMissingMessage("accept"));
    var e := friends[k.value];
    :- Need(e.receiverId == me, Forbidden, NotYoursMessage("accept"));
    :- Need(e.status != Accepted, BadRequest, AlreadyFriendsMessage);
    :- Need(e.status != Rejected, Conflict, AlreadyRejectedMessage);
    Ok(friends[k.value := e.(status := Accepted, updatedAt := now)])
  }

  /** `rejectFriendRequest`, as written: the same ladder as accept except that
      a rejected request also gives 400; only the status is written, so
      `rejectedAt` stays as it was and the update time is not touched. */
  function Reject(friends: seq<FriendEdge>, requestId: Id, me: Id): (r: Result<seq<FriendEdge>>)
    ensures requestId == me ==> r == Err(Error(BadRequest, SelfActionMessage("reject")))
    ensures requestId != me && FindById(friends, requestId).None? ==>
              r == Err(Error(NotFound, RequestMissingMessage("reject")))
    ensures requestId != me && FindById(friends, requestId).Some? ==>
              var e := friends[FindById(friends, requestId).value];
              && (e.receiverId != me ==> r == Err(Error(Forbidden, NotYoursMessage("reject"))))
              && (e.receiverId == me && e.status == Accepted ==> r == Err(Error(BadRequest, AlreadyFriendsMessage)))
              && (e.receiverId == me && e.status == Rejected ==>
                    r == Err(Error(BadRequest, AlreadyRejectedMessage)))
    ensures r.Ok? <==> requestId != me && PendingFor(friends, requestId, me)
    ensures r.Ok? ==> var k := FindById(friends, requestId).value;
      && OnlyStatusChanged(friends, r.value, k, Rejected)
      && r.value[k].rejectedAt == friends[k].rejectedAt
      && r.value[k].updatedAt == friends[k].updatedAt
  {
    var k :- RejectChecks(friends, requestId, me);
    Ok(friends[k := friends[k].(status := Rejected)])
  }

  /** The reject ladder; on success, the position of the request. */
  function RejectChecks(friends: seq<FriendEdge>, requestId: Id, me: Id): (r: Result<nat>)
    ensures r.Ok? <==> requestId != me && PendingFor(friends, requestId, me)
    ensures r.Ok? ==> FindById(friends, requestId) == Some(r.value)
  {
    if requestId == me then Err(Error(BadRequest, SelfActionMessage("reject"))) else
    var k := FindById(friends, requestId);
    :- Need(k.Some?, NotFound, RequestMissingMessage("reject"));
    var e := friends[k.value];
    :- Need(e.receiverId == me, Forbidden, NotYoursMessage("reject"));
    :- Need(e.status != Accepted, BadRequest, AlreadyFriendsMessage);
    :- Need(e.status != Rejected, BadRequest, AlreadyRejectedMessage);
    Ok(k.value)
  }

  /** Reject as the "wait for 7 days" message intends: the same ladder, and
      `rejectedAt` is stamped so the expiry index can remove the edge. */
  function RejectIntended(friends: seq<FriendEdge>, requestId: Id, me: Id, now: int): (r: Result<seq<FriendEdge>>)
    ensures r.Ok? <==> Reject(friends, requestId, me).Ok?
    ensures r.Err? ==> r == Reject(friends, requestId, me)
    ensures r.Ok? ==> var k := FindById(friends, requestId).value;
      && OnlyStatusChanged(friends, r.value, k, Rejected)
      && r.value[k].rejectedAt == Some(now)
  {
    var k :- RejectChecks(friends, requestId, me);
    Ok(friends[k := friends[k].(status := Rejected, rejectedAt := Some(now))])
  }

  /** Seven days, in milliseconds: the expiry of the `rejectedAt` index. */
  const RejectedTtlMs: int := 60 * 60 * 24 * 7 * 1000

  predicate Expired(e: FriendEdge, now: int)
  {
    e.rejectedAt.Some? && e.rejectedAt.value + RejectedTtlMs <= now
  }

  /** One sweep of the expiry index at time `now`: edges whose `rejectedAt`
      is at least seven days old are deleted; edges without one stay. */
  function ExpireRejected(friends: seq<FriendEdge>, now: int): (r: seq<FriendEdge>)
    ensures forall e :: e in r <==> e in friends && !Expired(e, now)
    ensures |r| <= |friends|
  {
    if |friends| == 0 then []
    else (if Expired(friends[0], now) then [] else [friends[0]]) + ExpireRejected(friends[1..], now)
  }

  /** As written, a rejected request never expires: whatever the time, the
      sweep keeps it, so the sender stays refused for good. */
  lemma RejectedNeverExpires(friends: seq<FriendEdge>, requestId: Id, me: Id, later: int)
    requires forall j :: 0 <= j < |friends| ==> friends[j].rejectedAt.None?
    requires Reject(friends, requestId, me).Ok?
    ensures var after := Reject(friends, requestId, me).value;
      var k := FindById(friends, requestId).value;
      && after[k].status == Rejected
      && after[k] in ExpireRejected(after, later)
  {
  }

  /** With the stamp, seven days after the rejection the sweep removes the
      edge, and no edge from that sender to `me` is left to refuse a new
      request. */
  lemma RejectedIntendedExpires(friends: seq<FriendEdge>, requestId: Id, me: Id, now: int)
    requires UniqueOrderedPairs(friends)
    requires RejectIntended(friends, requestId, me, now).Ok?
    ensures var after := RejectIntended(friends, requestId, me, now).value;
      var e := friends[FindById(friends, requestId).value];
      !HasForward(ExpireRejected(after, now + RejectedTtlMs), e.senderId, me)
  {
    var after := RejectIntended(friends, requestId, me, now).value;
    var k := FindById(friends, requestId).value;
    var e := friends[k];
    var swept := ExpireRejected(after, now + RejectedTtlMs);
    assert Expired(after[k], now + RejectedTtlMs);
    forall j | 0 <= j < |swept| ensures !(swept[j].senderId == e.senderId && swept[j].receiverId == me) {
      assert swept[j] in after && swept[j] != after[k];
      var i :| 0 <= i < |after| && after[i] == swept[j];
      assert i != k && after[i] == friends[i];
    }
  }


  /** `undoFriendRequest`: request id equal to the caller's id (400), missing
      (404), not the sender (403), accepted or rejected (400); otherwise that
      edge is deleted and nothing else changes. */
  function Undo(friends: seq<FriendEdge>, requestId: Id, me: Id): (r: Result<seq<FriendEdge>>)
    ensures requestId == me ==> r == Err(Error(BadRequest, SelfActionMessage("undo")))
    ensures requestId != me && FindById(friends, requestId).None? ==>
              r == Err(Error(NotFound, RequestMissingMessage("undo")))
    ensures requestId != me && FindById(friends, requestId).Some? ==>
              var e := friends[FindById(friends, requestId).value];
              && (e.senderId != me ==> r == Err(Error(Forbidden, NotYoursMessage("undo"))))
              && (e.senderId == me && e.status == Accepted ==> r == Err(Error(BadRequest, AlreadyFriendsMessage)))
              && (e.senderId == me && e.status == Rejected ==>
                    r == Err(Error(BadRequest, RejectedByOtherMessage)))
    ensures r.Ok? <==> && requestId != me && FindById(friends, requestId).Some?
                       && friends[FindById(friends, requestId).value].senderId == me
                       && friends[FindById(friends, requestId).value].status == Pending
    ensures r.Ok? ==> var k := FindById(friends, requestId).value;
      r.value == friends[..k] + friends[k + 1..]
  {
    if requestId == me then Err(Error(BadRequest, SelfActionMessage("undo"))) else
    var k := FindById(friends, requestId);
    :- Need(k.Some?, NotFound, RequestMissingMessage("undo"));
    var e := friends[k.value];
    :- Need(e.senderId == me, Forbidden, NotYoursMessage("undo"));
    :- Need(e.status != Accepted, BadRequest, AlreadyFriendsMessage);
    :- Need(e.status != Rejected, BadRequest, RejectedByOtherMessage);
    Ok(friends[..k.value] + friends[k.value + 1..])
  }

  predicate Between(e: FriendEdge, a: Id, b: Id)
  {
    (e.senderId == a && e.receiverId == b) || (e.senderId == b && e.receiverId == a)
  }

  /** `Friend.exists({ $or: [a -> b, b -> a], status: accepted })`. */
  predicate AreFriends(friends: seq<FriendEdge>, a: Id, b: Id)
  {
    exists k :: 0 <= k < |friends| && Between(friends[k], a, b) && friends[k].status == Accepted
  }

  /** `Friend.findOne({ $or: [a -> b, b -> a] })`: the first edge either way. */
  function FindBetween(friends: seq<FriendEdge>, a: Id, b: Id): (k: Option<nat>)
    ensures k.Some? ==> k.value < |friends| && Between(friends[k.value], a, b)
    ensures k.Some? ==> forall j :: 0 <= j < k.value ==> !Between(friends[j], a, b)
    ensures k.None? <==> forall j :: 0 <= j < |friends| ==> !Between(friends[j], a, b)
  {
    if |friends| == 0 then None
    else if Between(friends[0], a, b) then Some(0)
    else
      var k := FindBetween(friends[1..], a, b);
      assert forall j :: 0 < j < |friends| ==> friends[j] == friends[1..][j - 1];
      if k.Some? then Some(k.value + 1) else None
  }

  /** `deleteFriendByUserId`: self (400), no edge either way (404), the first
      edge found not accepted (400); otherwise that edge is deleted and the
      friend's profile name returned. The deletion is not undone when the
      friend has no profile: the reply is then the server error of reading
      the missing name, carried beside the new edge list. */
  function Unfriend(friends: seq<FriendEdge>, profiles: seq<Profile>, me: Id, other: Id)
    : (r: Result<(seq<FriendEdge>, Result<string>)>)
    ensures me == other ==> r == Err(Error(BadRequest, UnfriendSelfMessage))
    ensures me != other && FindBetween(friends, me, other).None? ==>
              r == Err(Error(NotFound, FriendMissingMessage))
    ensures me != other && FindBetween(friends, me, other).Some?
            && friends[FindBetween(friends, me, other).value].status != Accepted ==>
              r == Err(Error(BadRequest, NotFriendMessage))
    ensures r.Ok? <==> && me != other && FindBetween(friends, me, other).Some?
                       && friends[FindBetween(friends, me, other).value].status == Accepted
    ensures r.Ok? ==> var k := FindBetween(friends, me, other).value;
      && r.value.0 == friends[..k] + friends[k + 1..]
      && (r.value.1.Ok? <==> HasProfile(profiles, other))
      && (r.value.1.Ok? ==> Profile(other, r.value.1.value) in profiles)
      && (r.value.1.Err? ==> r.value.1.error == MissingProfileError)
  {
    if me == other then Err(Error(BadRequest, UnfriendSelfMessage)) else
    var k := FindBetween(friends, me, other);
    :- Need(k.Some?, NotFound, FriendMissingMessage);
    :- Need(friends[k.value].status == Accepted, BadRequest,
            NotFriendMessage);
    var p := FindProfile(profiles, other);
    Ok((friends[..k.value] + friends[k.value + 1..], if p.Some? then Ok(p.value.fullName) else Err(MissingProfileError)))
  }

  // ---------------------------------------------------------------------------
  // Friend and following ids

  /** The edge links `me` to `x` with status `st`, `me` being the sender when
      `asSender` and the receiver otherwise. */
  predicate Links(e: FriendEdge, me: Id, x: Id, asSender: bool, st: FriendStatus)
  {
    e.status == st && if asSender then e.senderId == me && e.receiverId == x else e.receiverId == me && e.senderId == x
  }

  predicate Linked(friends: seq<FriendEdge>, me: Id, x: Id, asSender: bool, st: FriendStatus)
  {
    exists k :: 0 <= k < |friends| && Links(friends[k], me, x, asSender, st)
  }

  /** The counterparts of `me`'s edges of one direction and status, in store order. */
  function Counterparts(friends: seq<FriendEdge>, me: Id, asSender: bool, st: FriendStatus): (r: seq<Id>)
    ensures forall x :: x in r <==> Linked(friends, me, x, asSender, st)
  {
    if |friends| == 0 then []
    else
      var e := friends[0];
      var rest := Counterparts(friends[1..], me, asSender, st);
      assert forall j :: 0 < j < |friends| ==> friends[j] == friends[1..][j - 1];
      assert forall x :: Linked(friends, me, x, asSender, st) <==>
        Links(e, me, x, asSender, st) || Linked(friends[1..], me, x, asSender, st) by {
        forall x ensures Linked(friends, me, x, asSender, st) ==>
          Links(e, me, x, asSender, st) || Linked(friends[1..], me, x, asSender, st)
        {
          if Linked(friends, me, x, asSender, st) {
            var k :| 0 <= k < |friends| && Links(friends[k], me, x, asSender, st);
            if k > 0 { assert Links(friends[1..][k - 1], me, x, asSender, st); }
          }
        }
        forall x | Linked(friends[1..], me, x, asSender, st) ensures Linked(friends, me, x, asSender, st) {
          var k :| 0 <= k < |friends[1..]| && Links(friends[1..][k], me, x, asSender, st);
          assert Links(friends[k + 1], me, x, asSender, st);
        }
      }
      if e.status == st && (if asSender then e.senderId == me else e.receiverId == me) then
        [if asSender then e.receiverId else e.senderId] + rest
      else rest
  }

  /** `getFriendsAndFollowingIds().friendIds`: the distinct receivers of
      `me`'s accepted sent requests, then the distinct senders of `me`'s
      accepted received requests. */
  function FriendIds(friends: seq<FriendEdge>, me: Id): (r: seq<Id>)
    ensures forall x :: x in r <==> Linked(friends, me, x, true, Accepted) || Linked(friends, me, x, false, Accepted)
  {
    Sequences.Dedup(Counterparts(friends, me, true, Accepted)) + Sequences.Dedup(Counterparts(friends, me, false, Accepted))
  }

  /** `getFriendsAndFollowingIds().followingIds`: the distinct receivers of
      `me`'s pending sent requests. */
  function FollowingIds(friends: seq<FriendEdge>, me: Id): (r: seq<Id>)
    ensures Sequences.NoDup(r)
    ensures forall x :: x in r <==> Linked(friends, me, x, true, Pending)
  {
    Sequences.Dedup(Counterparts(friends, me, true, Pending))
  }

  /** Requests `me` received and still pending, and rejected requests either
      way, put the counterpart in neither list. */
  lemma NeitherListForOtherEdges(friends: seq<FriendEdge>, me: Id, x: Id)
    requires forall k :: 0 <= k < |friends| && Between(friends[k], me, x) ==>
               friends[k].status == Rejected || (friends[k].status == Pending && friends[k].senderId == x && x != me)
    ensures x !in FriendIds(friends, me) && x !in FollowingIds(friends, me)
  {
  }

  /** The two sides of one unordered pair. */
  predicate SamePair(e: FriendEdge, f: FriendEdge)
  {
    Between(f, e.senderId, e.receiverId)
  }

  /** Relationship invariant: a pending request is the only live edge of its
      pair, every other edge of the pair having been rejected. */
  predicate PendingIsAlone(friends: seq<FriendEdge>)
  {
    forall i, j ::
      (0 <= i < |friends| && 0 <= j < |friends| && i != j
       && friends[i].status == Pending && SamePair(friends[i], friends[j])) ==> friends[j].status == Rejected
  }

  /** Under the invariant no one is both a friend and a following. */
  lemma {:induction false} FriendsAndFollowingDisjoint(friends: seq<FriendEdge>, me: Id)
    requires PendingIsAlone(friends)
    ensures forall x :: !(x in FriendIds(friends, me) && x in FollowingIds(friends, me))
  {
    forall x | x in FriendIds(friends, me) && x in FollowingIds(friends, me) ensures false {
      var i :| 0 <= i < |friends| && Links(friends[i], me, x, true, Pending);
      var j :| 0 <= j < |friends| && (Links(friends[j], me, x, true, Accepted) || Links(friends[j], me, x, false, Accepted));
      assert i != j && SamePair(friends[i], friends[j]);
    }
  }

  /** As written, the send ladder lets one user be both: user 1 accepted a
      request from user 2 and then sends user 2 a request, which nothing
      refuses; the store still has one edge per ordered pair. */
  lemma SendBreaksDisjointness()
    ensures var users := [User(2, "x", "x@a.b", "", true, RoleUser, Active, "", "", None, 0, 0)];
      var friends := [FriendEdge(10, 2, 1, Accepted, None, 0, 0)];
      var r := SendRequest(users, [], friends, 1, 2, 11, 5);
      && PendingIsAlone(friends)
      && r.Ok? && UniqueOrderedPairs(r.value)
      && 2 in FriendIds(r.value, 1) && 2 in FollowingIds(r.value, 1)
  {
    var users := [User(2, "x", "x@a.b", "", true, RoleUser, Active, "", "", None, 0, 0)];
    var friends := [FriendEdge(10, 2, 1, Accepted, None, 0, 0)];
    assert Lookup(users, ById(2)) == Some(users[0]);
    assert !HasEdge(friends, 2, 1, Pending);
    assert !HasForward(friends, 1, 2);
    var after := friends + [NewRequest(11, 1, 2, 5)];
    assert Links(after[0], 1, 2, false, Accepted);
    assert Links(after[1], 1, 2, true, Pending);
  }

  /** The checked send keeps the invariant and one edge per ordered pair. */
  lemma SendCheckedKeepsInvariant(users: seq<User>, blocks: seq<Blocks.BlockEdge>, friends: seq<FriendEdge>,
                                  sender: Id, receiver: Id, newId: Id, now: int)
    requires PendingIsAlone(friends) && UniqueOrderedPairs(friends)
    requires SendRequestChecked(users, blocks, friends, sender, receiver, newId, now).Ok?
    ensures var after := SendRequestChecked(users, blocks, friends, sender, receiver, newId, now).value;
      PendingIsAlone(after) && UniqueOrderedPairs(after)
  {
    var after := friends + [NewRequest(newId, sender, receiver, now)];
    var n := |friends|;
    // Every older edge of the pair runs receiver -> sender and was rejected.
    assert !HasForward(friends, sender, receiver);
    assert !HasEdge(friends, receiver, sender, Pending) && !HasEdge(friends, receiver, sender, Accepted);
    forall j | 0 <= j < n && Between(friends[j], sender, receiver) ensures friends[j].status == Rejected {
      assert friends[j].senderId == receiver && friends[j].receiverId == sender;
    }
    assert forall i :: 0 <= i < n ==> after[i] == friends[i];
    assert after[n] == NewRequest(newId, sender, receiver, now);
  }

  /** Accepting keeps the invariant: the accepted request was alone on its pair. */
  lemma AcceptKeepsInvariant(friends: seq<FriendEdge>, requestId: Id, me: Id, now: int)
    requires PendingIsAlone(friends) && UniqueOrderedPairs(friends)
    requires Accept(friends, requestId, me, now).Ok?
    ensures var after := Accept(friends, requestId, me, now).value;
      PendingIsAlone(after) && UniqueOrderedPairs(after)
  {
    var after := Accept(friends, requestId, me, now).value;
    var k := FindById(friends, requestId).value;
    assert friends[k].status == Pending;
    forall i | 0 <= i < |friends| && i != k && SamePair(friends[i], friends[k]) ensures friends[i].status != Pending {
      assert SamePair(friends[k], friends[i]);
    }
    assert forall i :: 0 <= i < |friends| && i != k ==> after[i] == friends[i];
    forall i, j | 0 <= i < j < |after|
      ensures !(after[i].senderId == after[j].senderId && after[i].receiverId == after[j].receiverId)
    {
      assert after[i].senderId == friends[i].senderId && after[i].receiverId == friends[i].receiverId;
      assert after[j].senderId == friends[j].senderId && after[j].receiverId == friends[j].receiverId;
    }
  }

  /** Rejecting only turns a pending edge into a rejected one. */
  lemma RejectKeepsInvariant(friends: seq<FriendEdge>, requestId: Id, me: Id)
    requires PendingIsAlone(friends) && UniqueOrderedPairs(friends)
    requires Reject(friends, requestId, me).Ok?
    ensures var after := Reject(friends, requestId, me).value;
      PendingIsAlone(after) && UniqueOrderedPairs(after)
  {
    var after := Reject(friends, requestId, me).value;
    var k := FindById(friends, requestId).value;
    forall i, j | 0 <= i < |after| && 0 <= j < |after| && i != j
      && after[i].status == Pending && SamePair(after[i], after[j])
      ensures after[j].status == Rejected
    {
      assert i != k && after[i] == friends[i];
      if j != k { assert after[j] == friends[j]; }
    }
    forall i, j | 0 <= i < j < |after|
      ensures !(after[i].senderId == after[j].senderId && after[i].receiverId == after[j].receiverId)
    {
      assert after[i].senderId == friends[i].senderId && after[i].receiverId == friends[i].receiverId;
      assert after[j].senderId == friends[j].senderId && after[j].receiverId == friends[j].receiverId;
    }
  }

  /** Deleting one edge keeps both invariants. */
  lemma RemoveKeepsInvariant(friends: seq<FriendEdge>, k: nat)
    requires PendingIsAlone(friends) && UniqueOrderedPairs(friends) && k < |friends|
    ensures PendingIsAlone(friends[..k] + friends[k + 1..]) && UniqueOrderedPairs(friends[..k] + friends[k + 1..])
  {
    var after := friends[..k] + friends[k + 1..];
    assert forall i :: 0 <= i < |after| ==> after[i] == friends[if i < k then i else i + 1];
    forall i, j | 0 <= i < |after| && 0 <= j < |after| && i != j
      && after[i].status == Pending && SamePair(after[i], after[j])
      ensures after[j].status == Rejected
    {
      var i' := if i < k then i else i + 1;
      var j' := if j < k then j else j + 1;
      assert after[i] == friends[i'] && after[j] == friends[j'] && i' != j';
    }
    forall i, j | 0 <= i < j < |after|
      ensures !(after[i].senderId == after[j].senderId && after[i].receiverId == after[j].receiverId)
    {
      var i' := if i < k then i else i + 1;
      var j' := if j < k then j else j + 1;
      assert after[i] == friends[i'] && after[j] == friends[j'] && i' < j';
    }
  }

  lemma UndoKeepsInvariant(friends: seq<FriendEdge>, requestId: Id, me: Id)
    requires PendingIsAlone(friends) && UniqueOrderedPairs(friends)
    requires Undo(friends, requestId, me).Ok?
    ensures PendingIsAlone(Undo(friends, requestId, me).value) && UniqueOrderedPairs(Undo(friends, requestId, me).value)
  {
    RemoveKeepsInvariant(friends, FindById(friends, requestId).value);
  }

  lemma UnfriendKeepsInvariant(friends: seq<FriendEdge>, profiles: seq<Profile>, me: Id, other: Id)
    requires PendingIsAlone(friends) && UniqueOrderedPairs(friends)
    requires Unfriend(friends, profiles, me, other).Ok?
    ensures PendingIsAlone(Unfriend(friends, profiles, me, other).value.0)
    ensures UniqueOrderedPairs(Unfriend(friends, profiles, me, other).value.0)
  {
    RemoveKeepsInvariant(friends, FindBetween(friends, me, other).value);
  }

  // ---------------------------------------------------------------------------
  // Paged lists

  datatype ListKind = Received | Sent | FriendList

  /** One row of a list: the edge, the other user and a profile name. */
  datatype Row = Row(edgeId: Id, userId: Id, fullName: string, at: int)

  function RowAt(r: Row): int { r.at }

  /** The edges a list starts from. */
  predicate Selected(e: FriendEdge, me: Id, kind: ListKind)
  {
    match kind
    case Received => e.receiverId == me && e.status == Pending
    case Sent => e.senderId == me && e.status == Pending
    case FriendList => e.status == Accepted && (e.senderId == me || e.receiverId == me)
  }

  /** The user shown for an edge. */
  function Other(e: FriendEdge, me: Id, kind: ListKind): Id
  {
    match kind
    case Received => e.senderId
    case Sent => e.receiverId
    case FriendList => if e.senderId == me then e.receiverId else e.senderId
  }

  /** Requests sort by request time, friends by last update. */
  function Stamp(e: FriendEdge, kind: ListKind): int
  {
    if kind == FriendList then e.updatedAt else e.requestedAt
  }

  /** The rows one edge contributes: one per profile of an active other user. */
  function EdgeRows(e: FriendEdge, other: Id, at: int, profiles: seq<Profile>): (r: seq<Row>)
    ensures forall row :: row in r <==> row.edgeId == e.id && row.userId == other && row.at == at
                                        && Profile(other, row.fullName) in profiles
  {
    if |profiles| == 0 then []
    else
      var rest := EdgeRows(e, other, at, profiles[1..]);
      assert forall p :: p in profiles <==> p == profiles[0] || p in profiles[1..];
      if profiles[0].userId == other then [Row(e.id, other, profiles[0].fullName, at)] + rest else rest
  }

  /** The row came from a selected edge whose other user is active and has
      that profile name. */
  predicate RowOf(friends: seq<FriendEdge>, users: seq<User>, profiles: seq<Profile>, me: Id, kind: ListKind, row: Row)
  {
    exists k :: 0 <= k < |friends| && Selected(friends[k], me, kind)
      && row.edgeId == friends[k].id && row.userId == Other(friends[k], me, kind)
      && row.at == Stamp(friends[k], kind)
      && JoinedActive(users, row.userId) && Profile(row.userId, row.fullName) in profiles
  }

  /** Every row a list counts, before ordering and paging. */
  function Rows(friends: seq<FriendEdge>, users: seq<User>, profiles: seq<Profile>, me: Id, kind: ListKind): (r: seq<Row>)
    ensures forall row :: row in r <==> RowOf(friends, users, profiles, me, kind, row)
  {
    if |friends| == 0 then []
    else
      var e := friends[0];
      var rest := Rows(friends[1..], users, profiles, me, kind);
      assert forall j :: 0 < j < |friends| ==> friends[j] == friends[1..][j - 1];
      assert forall row :: RowOf(friends[1..], users, profiles, me, kind, row) ==> RowOf(friends, users, profiles, me, kind, row) by {
        forall row | RowOf(friends[1..], users, profiles, me, kind, row) ensures RowOf(friends, users, profiles, me, kind, row) {
          var k :| 0 <= k < |friends[1..]| && Selected(friends[1..][k], me, kind)
            && row.edgeId == friends[1..][k].id && row.userId == Other(friends[1..][k], me, kind)
            && row.at == Stamp(friends[1..][k], kind)
            && JoinedActive(users, row.userId) && Profile(row.userId, row.fullName) in profiles;
          assert friends[k + 1] == friends[1..][k];
        }
      }
      var mine := if Selected(e, me, kind) && JoinedActive(users, Other(e, me, kind))
                  then EdgeRows(e, Other(e, me, kind), Stamp(e, kind), profiles) else [];
      forall row | RowOf(friends, users, profiles, me, kind, row) ensures row in mine + rest {
        var k :| 0 <= k < |friends| && Selected(friends[k], me, kind)
          && row.edgeId == friends[k].id && row.userId == Other(friends[k], me, kind)
          && row.at == Stamp(friends[k], kind)
          && JoinedActive(users, row.userId) && Profile(row.userId, row.fullName) in profiles;
        if k > 0 {
          assert RowOf(friends[1..], users, profiles, me, kind, row) by {
            assert friends[1..][k - 1] == friends[k];
          }
        }
      }
      mine + rest
  }

  /** `getMyReceivedFriendRequests`, `getMySentFriendRequests`,
      `getMyFriends`: every matching row is counted, ordered by its time in
      the query's direction, and windowed; the page-range guards apply. */
  function List(friends: seq<FriendEdge>, users: seq<User>, profiles: seq<Profile>, me: Id, kind: ListKind,
                q: Paging.PageQuery): (r: Result<(seq<Row>, Paging.PageMeta)>)
    requires Paging.WellFormed(q)
    ensures var total := |Rows(friends, users, profiles, me, kind)|;
      r.Ok? <==> q.page == 1 || (q.page - 1) * q.limit < total
    ensures r.Err? ==> r.error.status == NotFound
    ensures r.Ok? ==> && r.value.1.totalItems == |Rows(friends, users, profiles, me, kind)|
                      && |r.value.0| <= q.limit
                      && forall row :: row in r.value.0 ==> RowOf(friends, users, profiles, me, kind, row)
    ensures r.Ok? ==> var rows := Rows(friends, users, profiles, me, kind);
      && r.value.0 == Paging.Window(Paging.SortBy(rows, RowAt, q.sort), q.page, q.limit)
      && r.value.1.totalPages == Paging.CeilDiv(|rows|, q.limit)
  {
    Paging.ListPage(Rows(friends, users, profiles, me, kind), RowAt, q)
  }
}
