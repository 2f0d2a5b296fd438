/** Notifications: the inbox filter that hides blocked senders, marking one or
    all as read, deletion, the unread count and the system broadcast. */
module Notifications {
  import opened Wrappers
  import opened Users
  import Sequences
  import Blocks
  import QueryBuilder

  datatype Action =
    | Reacted | Commented | StoryExpired | Replied | Mentioned | FriendRequest | FriendRequestAccepted
    | MessageSent | Tagged | PostRemoved | PostAppealed | SystemAlert | SystemInfo

  datatype TargetKind = PostKind | StoryKind | CommentKind | ReplyKind | MessageKind | FriendKind | UserKind | SystemKind | SecurityKind

  datatype UrlMethod = Get | PostMethod | Put | Patch | Delete

  datatype Notification = Notification(
    id: Id,
    senderId: Option<Id>,
    receiverId: Id,
    action: Action,
    targetType: TargetKind,
    targetId: Option<Id>,
    message: string,
    isFromSystem: bool,
    isRead: bool,
    url: string,
    urlMethod: Option<UrlMethod>,
    createdAt: int)

  /** A notification `getNotifications` lists for `me`: addressed to `me`,
      and not sent by anyone `me` blocked or is blocked by. A notification
      with no sender is never hidden. */
  predicate InInbox(n: Notification, excluded: seq<Id>, me: Id)
  {
    n.receiverId == me && (n.senderId.None? || n.senderId.value !in excluded)
  }

  /** The base query of `getNotifications`, in store order. */
  function Inbox(notes: seq<Notification>, blocks: seq<Blocks.BlockEdge>, me: Id): (r: seq<Notification>)
    ensures |r| <= |notes|
    ensures forall n :: n in r <==> n in notes && InInbox(n, Blocks.ExcludedUserIds(blocks, me), me)
  {
    Keep(notes, Blocks.ExcludedUserIds(blocks, me), me)
  }

  function Keep(notes: seq<Notification>, excluded: seq<Id>, me: Id): (r: seq<Notification>)
    ensures |r| <= |notes|
    ensures forall n :: n in r <==> n in notes && InInbox(n, excluded, me)
  {
    if |notes| == 0 then []
    else (if InInbox(notes[0], excluded, me) then [notes[0]] else []) + Keep(notes[1..], excluded, me)
  }

  /** No listed notification comes from a user on either side of a block
      with `me`. */
  lemma InboxHidesBlockedSenders(notes: seq<Notification>, blocks: seq<Blocks.BlockEdge>, me: Id, n: Notification)
    requires n in Inbox(notes, blocks, me)
    ensures n.receiverId == me
    ensures n.senderId.Some? ==> !Blocks.Blocked(blocks, me, n.senderId.value) && !Blocks.Blocked(blocks, n.senderId.value, me)
  {
  }

  /** The listing with its page meta: the inbox is counted whole and the
      meta comes from the shared query builder. */
  function ListNotifications(notes: seq<Notification>, blocks: seq<Blocks.BlockEdge>, me: Id, query: QueryBuilder.Query)
    : (r: Result<(seq<Notification>, QueryBuilder.Meta)>)
    ensures r.Ok? <==> QueryBuilder.PaginateMeta(query, |Inbox(notes, blocks, me)|).Ok?
    ensures r.Ok? ==> r.value.1.totalItems == |Inbox(notes, blocks, me)|
    ensures r.Ok? ==> forall n :: n in r.value.0 ==> n in notes && InInbox(n, Blocks.ExcludedUserIds(blocks, me), me)
  {
    var inbox := Inbox(notes, blocks, me);
    var meta :- QueryBuilder.PaginateMeta(query, |inbox|);
    Ok((inbox, meta))
  }

  /** `Notification.findById`: the position of the first notification with
      that id. */
  function FindNote(notes: seq<Notification>, id: Id): (k: Option<nat>)
    ensures k.Some? ==> k.value < |notes| && notes[k.value].id == id
    ensures k.Some? ==> forall j :: 0 <= j < k.value ==> notes[j].id != id
    ensures k.None? <==> forall j :: 0 <= j < |notes| ==> notes[j].id != id
  {
    Sequences.FirstIndex(notes, (x: Notification) => x.id == id)
  }

  const NotFoundMessage: string := "The notification is not found!"
  const NotYoursToReadMessage: string := "You are not authorized to mark this notification as read."
  const NotYoursToDeleteMessage: string := "You are not authorized to delete this notification."

  /** The guard `markAsRead` and `deleteNotification` share: the
      notification exists (404) and is addressed to the caller (403). */
  function OwnNote(notes: seq<Notification>, id: Id, me: Id, refusal: string): (r: Result<nat>)
    ensures FindNote(notes, id).None? <==> r == Err(Error(NotFound, NotFoundMessage))
    ensures r.Ok? <==> FindNote(notes, id).Some? && notes[FindNote(notes, id).value].receiverId == me
    ensures r.Ok? ==> r.value == FindNote(notes, id).value
    ensures r.Err? && FindNote(notes, id).Some? ==> r.error == Error(Forbidden, refusal)
  {
    match FindNote(notes, id)
    case None => Err(Error(NotFound, NotFoundMessage))
    case Some(k) => if notes[k].receiverId != me then Err(Error(Forbidden, refusal)) else Ok(k)
  }

  /** `markAsRead`: only the found notification changes, and only its read
      flag, which becomes true. */
  function MarkAsRead(notes: seq<Notification>, id: Id, me: Id): (r: Result<seq<Notification>>)
    ensures r.Ok? <==> OwnNote(notes, id, me, NotYoursToReadMessage).Ok?
    ensures r.Err? ==> r.error == OwnNote(notes, id, me, NotYoursToReadMessage).error
    ensures r.Ok? ==> var k := OwnNote(notes, id, me, NotYoursToReadMessage).value;
      && |r.value| == |notes|
      && r.value[k] == notes[k].(isRead := true)
      && forall j :: 0 <= j < |notes| && j != k ==> r.value[j] == notes[j]
  {
    var k :- OwnNote(notes, id, me, NotYoursToReadMessage);
    Ok(notes[k := notes[k].(isRead := true)])
  }

  /** `deleteNotification`: exactly the found notification is removed. */
  function DeleteNotification(notes: seq<Notification>, id: Id, me: Id): (r: Result<seq<Notification>>)
    ensures r.Ok? <==> OwnNote(notes, id, me, NotYoursToDeleteMessage).Ok?
    ensures r.Err? ==> r.error == OwnNote(notes, id, me, NotYoursToDeleteMessage).error
    ensures r.Ok? ==> var k := OwnNote(notes, id, me, NotYoursToDeleteMessage).value;
      && |r.value| == |notes| - 1
      && (forall j :: 0 <= j < k ==> r.value[j] == notes[j])
      && (forall j :: k <= j < |r.value| ==> r.value[j] == notes[j + 1])
  {
    var k :- OwnNote(notes, id, me, NotYoursToDeleteMessage);
    Ok(notes[..k] + notes[k + 1..])
  }

  predicate UnreadFor(n: Notification, me: Id)
  {
    n.receiverId == me && !n.isRead
  }

  /** `unreadNotificationCount`: the caller's unread notifications. The
      count does not consult blocks. */
  function UnreadCount(notes: seq<Notification>, me: Id): (c: nat)
    ensures c <= |notes|
    ensures c == 0 <==> forall j :: 0 <= j < |notes| ==> !UnreadFor(notes[j], me)
  {
    if |notes| == 0 then 0
    else
      assert forall j :: 0 < j < |notes| ==> notes[j] == notes[1..][j - 1];
      (if UnreadFor(notes[0], me) then 1 else 0) + UnreadCount(notes[1..], me)
  }

  /** `markAllAsRead`: every unread notification of the caller becomes read,
      nothing else changes, and the result is how many changed. */
  function MarkAllAsRead(notes: seq<Notification>, me: Id): (r: (seq<Notification>, nat))
    ensures |r.0| == |notes|
    ensures forall j :: 0 <= j < |notes| ==>
              r.0[j] == if UnreadFor(notes[j], me) then notes[j].(isRead := true) else notes[j]
    ensures r.1 == UnreadCount(notes, me)
  {
    if |notes| == 0 then ([], 0)
    else
      var rest := MarkAllAsRead(notes[1..], me);
      var head := if UnreadFor(notes[0], me) then notes[0].(isRead := true) else notes[0];
      ([head] + rest.0, (if UnreadFor(notes[0], me) then 1 else 0) + rest.1)
  }

  /** After marking all as read, nothing of the caller is unread, and a
      second call changes nothing and reports 0. */
  lemma {:induction false} MarkAllAsReadClearsUnread(notes: seq<Notification>, me: Id)
    ensures UnreadCount(MarkAllAsRead(notes, me).0, me) == 0
    ensures MarkAllAsRead(MarkAllAsRead(notes, me).0, me) == (MarkAllAsRead(notes, me).0, 0)
  {
    var after := MarkAllAsRead(notes, me).0;
    assert forall j :: 0 <= j < |after| ==> !UnreadFor(after[j], me);
    assert UnreadCount(after, me) == 0;
    var again := MarkAllAsRead(after, me);
    assert forall j :: 0 <= j < |after| ==> again.0[j] == after[j];
    assert again.0 == after;
    assert again.1 == 0;
  }

  /** Marking one unread notification read lowers the unread count by one. */
  lemma MarkAsReadCountsDown(notes: seq<Notification>, id: Id, me: Id)
    requires MarkAsRead(notes, id, me).Ok?
    ensures var k := FindNote(notes, id).value;
      UnreadCount(MarkAsRead(notes, id, me).value, me) ==
        UnreadCount(notes, me) - (if notes[k].isRead then 0 else 1)
  {
    var k := FindNote(notes, id).value;
    UnreadCountUpdate(notes, k, notes[k].(isRead := true), me);
  }

  /** Replacing one notification changes the count by that one's part. */
  lemma {:induction false} UnreadCountUpdate(notes: seq<Notification>, k: nat, n: Notification, me: Id)
    requires k < |notes|
    ensures UnreadCount(notes[k := n], me) ==
              UnreadCount(notes, me) - (if UnreadFor(notes[k], me) then 1 else 0) + (if UnreadFor(n, me) then 1 else 0)
  {
    if k == 0 {
      assert notes[k := n][1..] == notes[1..];
    } else {
      UnreadCountUpdate(notes[1..], k - 1, n, me);
      assert notes[k := n][1..] == notes[1..][k - 1 := n];
    }
  }

  /** Store assumption: `_id` is unique. */
  predicate UniqueNoteIds(notes: seq<Notification>)
  {
    forall i, j :: 0 <= i < j < |notes| ==> notes[i].id != notes[j].id
  }

  /** Taking one notification out changes the count by that one's part. */
  lemma {:induction false} UnreadCountRemove(notes: seq<Notification>, k: nat, me: Id)
    requires k < |notes|
    ensures UnreadCount(notes[..k] + notes[k + 1..], me) == UnreadCount(notes, me) - (if UnreadFor(notes[k], me) then 1 else 0)
  {
    if k == 0 {
      assert notes[..k] + notes[k + 1..] == notes[1..];
    } else {
      var tail := notes[1..];
      UnreadCountRemove(tail, k - 1, me);
      assert notes[..k] + notes[k + 1..] == [notes[0]] + (tail[..k - 1] + tail[k..]);
      assert (notes[..k] + notes[k + 1..])[1..] == tail[..k - 1] + tail[k..];
    }
  }

  /** With unique ids, a deleted notification can no longer be found, and
      the unread count falls by one exactly when it was unread. */
  lemma DeleteNotificationRemoves(notes: seq<Notification>, id: Id, me: Id)
    requires UniqueNoteIds(notes)
    requires DeleteNotification(notes, id, me).Ok?
    ensures FindNote(DeleteNotification(notes, id, me).value, id).None?
    ensures var k := FindNote(notes, id).value;
      UnreadCount(DeleteNotification(notes, id, me).value, me) ==
        UnreadCount(notes, me) - (if notes[k].isRead then 0 else 1)
  {
    var k := FindNote(notes, id).value;
    var r := DeleteNotification(notes, id, me).value;
    assert r == notes[..k] + notes[k + 1..];
    forall j | 0 <= j < |r| ensures r[j].id != id {
      if j < k {
        assert r[j] == notes[j];
      } else {
        assert r[j] == notes[j + 1];
      }
    }
    UnreadCountRemove(notes, k, me);
  }

  /** What an administrator broadcasts. */
  datatype Broadcast = Broadcast(message: string, action: Action, targetType: TargetKind, url: string, urlMethod: Option<UrlMethod>)

  /** Some user record with this id is not permanently deleted. */
  predicate Listed(users: seq<User>, x: Id)
  {
    exists k :: 0 <= k < |users| && users[k].id == x && Findable(users[k])
  }

  /** The users `User.find({})` returns: every user not permanently deleted. */
  function Recipients(users: seq<User>): (r: seq<Id>)
    ensures |r| <= |users|
    ensures forall x :: x in r <==> Listed(users, x)
  {
    if |users| == 0 then []
    else
      var rest := Recipients(users[1..]);
      assert forall k :: 0 < k < |users| ==> users[k] == users[1..][k - 1];
      forall x | Listed(users, x)
        ensures x in (if Findable(users[0]) then [users[0].id] else []) + rest
      {
        var k :| 0 <= k < |users| && users[k].id == x && Findable(users[k]);
        if k > 0 {
          assert users[1..][k - 1] == users[k];
        }
      }
      (if Findable(users[0]) then [users[0].id] else []) + rest
  }

  /** `broadcastNotification`: one unread system notification from the
      caller to every listed user, the caller included, numbered from
      `firstId`. */
  function BroadcastNotes(users: seq<User>, notes: seq<Notification>, me: Id, b: Broadcast, firstId: Id, now: int)
    : (r: seq<Notification>)
    ensures var to := Recipients(users);
      && |r| == |notes| + |to|
      && r[..|notes|] == notes
      && forall k :: 0 <= k < |to| ==>
           r[|notes| + k] == Notification(firstId + k, Some(me), to[k], b.action, b.targetType, None, b.message, true, false, b.url, b.urlMethod, now)
  {
    var to := Recipients(users);
    notes + seq(|to|, k requires 0 <= k < |to| =>
      Notification(firstId + k, Some(me), to[k], b.action, b.targetType, None, b.message, true, false, b.url, b.urlMethod, now))
  }

  /** A broadcast reaches its sender too, when the sender is a listed user. */
  lemma BroadcastReachesSender(users: seq<User>, notes: seq<Notification>, me: Id, b: Broadcast, firstId: Id, now: int)
    requires Listed(users, me)
    ensures exists n :: n in BroadcastNotes(users, notes, me, b, firstId, now)[|notes|..] && n.receiverId == me && n.senderId == Some(me)
  {
    var to := Recipients(users);
    var r := BroadcastNotes(users, notes, me, b, firstId, now);
    assert me in to;
    var i :| 0 <= i < |to| && to[i] == me;
    assert r[|notes|..][i] == r[|notes| + i];
  }

  /** `NotificationUtils.createNotification`: the batch is stored as given. */
  function CreateNotifications(notes: seq<Notification>, batch: seq<Notification>): (r: seq<Notification>)
    ensures |r| == |notes| + |batch| && r[..|notes|] == notes && r[|notes|..] == batch
  {
    notes + batch
  }
}
