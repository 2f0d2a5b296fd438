/** Stories: who may see a story, expiry, view and reaction rows with the
    view counter they drive, owner-only listing and deletion, and the story
    feed built from the friend graph. */
module Stories {
  import opened Wrappers
  import opened Users
  import Text
  import Sequences
  import Friends
  import Mentions
  import Notifications
  import Reactions
  import QueryBuilder

  datatype Visibility = StoryPrivate | StoryFriends | StoryPublic

  datatype Story = Story(
    id: Id,
    userId: Id,
    content: string,
    mentions: seq<Id>,
    visibility: Visibility,
    viewCounts: nat,
    createdAt: int,
    expiresAt: int)

  /** One row per viewer of a story; a reaction is recorded on the row. */
  datatype StoryView = StoryView(storyId: Id, userId: Id, reactionType: Option<Reactions.ReactionType>)

  /** A story lives for a day unless told otherwise. */
  const LifetimeMs: int := 24 * 60 * 60 * 1000

  const UserMissingMessage: string := "The user is not found"
  const StoryMissingMessage: string := "The story is not found"
  const OwnStoryReactionMessage: string := "You can not react in your own story"
  const OthersViewsMessage: string := "You will not be able to view other user's story"
  const ExpiredMessage: string := "The story is expired!"
  const VisibilityMessage: string := "You can't view this story for the specified visibility"
  const DeleteRefusedMessage: string := "You are not authorized to delete this story."

  /** A story is live until its expiry instant, inclusive. */
  predicate Live(s: Story, now: int)
  {
    s.expiresAt >= now
  }

  /** The visibilities a viewer may see of an owner's stories. */
  function Audience(friends: seq<Friends.FriendEdge>, viewer: Id, owner: Id): (a: set<Visibility>)
    ensures StoryPublic in a
    ensures StoryPrivate in a <==> viewer == owner
    ensures StoryFriends in a <==> viewer == owner || Friends.AreFriends(friends, viewer, owner)
  {
    if viewer == owner then {StoryPrivate, StoryFriends, StoryPublic}
    else if Friends.AreFriends(friends, viewer, owner) then {StoryPublic, StoryFriends}
    else {StoryPublic}
  }

  /** Becoming friends only widens what one sees: a friend sees all a
      stranger sees, and the owner all a friend sees. */
  lemma AudienceWidens(friends: seq<Friends.FriendEdge>, viewer: Id, owner: Id, v: Visibility)
    ensures v in Audience(friends, viewer, owner) ==> v in Audience(friends, owner, owner)
    ensures v == StoryPublic ==> v in Audience(friends, viewer, owner)
  {
  }

  /** `Story.findOne({ _id })`: the position of the first story with that id. */
  function FindStory(stories: seq<Story>, id: Id): (k: Option<nat>)
    ensures k.Some? ==> k.value < |stories| && stories[k.value].id == id
    ensures k.Some? ==> forall j :: 0 <= j < k.value ==> stories[j].id != id
    ensures k.None? <==> forall j :: 0 <= j < |stories| ==> stories[j].id != id
  {
    Sequences.FirstIndex(stories, (x: Story) => x.id == id)
  }

  /** `Story.findOne({ _id, expiresAt: { $gte: now } })`. */
  function FindLive(stories: seq<Story>, id: Id, now: int): (r: Option<Story>)
    ensures r.Some? ==> r.value in stories && r.value.id == id && Live(r.value, now)
    ensures r.None? <==> forall j :: 0 <= j < |stories| ==> !(stories[j].id == id && Live(stories[j], now))
  {
    if |stories| == 0 then None
    else if stories[0].id == id && Live(stories[0], now) then Some(stories[0])
    else
      assert forall j :: 0 < j < |stories| ==> stories[j] == stories[1..][j - 1];
      FindLive(stories[1..], id, now)
  }

  predicate UniqueStoryIds(stories: seq<Story>)
  {
    forall i, j :: 0 <= i < j < |stories| ==> stories[i].id != stories[j].id
  }

  // ---------------------------------------------------------------------------
  // Creating and reading

  /** The text of the mention notification; a missing profile prints as
      "undefined". */
  function MentionMessage(profiles: seq<Profile>, me: Id): string
  {
    match FindProfile(profiles, me)
    case Some(p) => p.fullName + " mentioned you in a story"
    case None => "undefined mentioned you in a story"
  }

  /** `createStory`: the story is stored with the mentioned users' ids, no
      views and the given or default visibility and lifetime; each mention
      becomes a notification, numbered from `firstNoteId`. */
  function CreateStory(users: seq<User>, profiles: seq<Profile>, stories: seq<Story>, notes: seq<Notifications.Notification>,
                       me: Id, content: string, visibility: Option<Visibility>, id: Id, now: int, firstNoteId: Id)
    : (r: (seq<Story>, seq<Notifications.Notification>))
    ensures var mentions := Mentions.MentionIds(users, content);
      && r.0 == stories + [Story(id, me, content, mentions, if visibility.Some? then visibility.value else StoryPublic, 0, now, now + LifetimeMs)]
      && |r.1| == |notes| + |mentions| && r.1[..|notes|] == notes
      && forall k :: 0 <= k < |mentions| ==>
           && r.1[|notes| + k].receiverId == mentions[k]
           && r.1[|notes| + k].senderId == Some(me)
           && r.1[|notes| + k].targetId == Some(id)
           && r.1[|notes| + k].action == Notifications.Mentioned
           && r.1[|notes| + k].message == MentionMessage(profiles, me)
  {
    var mentions := Mentions.MentionIds(users, content);
    var story := Story(id, me, content, mentions, if visibility.Some? then visibility.value else StoryPublic, 0, now, now + LifetimeMs);
    var batch := seq(|mentions|, k requires 0 <= k < |mentions| =>
      Notifications.Notification(firstNoteId + k, Some(me), mentions[k], Notifications.Mentioned, Notifications.StoryKind,
        Some(id), MentionMessage(profiles, me), false, false, "/stories/" + Text.NatToString(id), Some(Notifications.Get), now));
    (stories + [story], Notifications.CreateNotifications(notes, batch))
  }

  predicate ActiveFor(s: Story, owner: Id, audience: set<Visibility>, now: int)
  {
    s.userId == owner && Live(s, now) && s.visibility in audience
  }

  /** `getActiveStoryByUserId`: 404 for an unknown user; otherwise that
      user's live stories whose visibility the caller may see, in store
      order. */
  function ActiveStoriesOf(users: seq<User>, friends: seq<Friends.FriendEdge>, stories: seq<Story>, me: Id, owner: Id, now: int)
    : (r: Result<seq<Story>>)
    ensures r.Err? <==> !Exists(users, ById(owner))
    ensures r.Err? ==> r.error == Error(NotFound, UserMissingMessage)
    ensures r.Ok? ==> forall s :: s in r.value <==> s in stories && ActiveFor(s, owner, Audience(friends, me, owner), now)
  {
    if !Exists(users, ById(owner)) then Err(Error(NotFound, UserMissingMessage))
    else
      var audience := Audience(friends, me, owner);
      Ok(Sequences.Filter(stories, (s: Story) => ActiveFor(s, owner, audience, now)))
  }

  /** `getStoryById`: 404 when there is no such story, 400 when it has
      expired, 403 when its visibility is outside the caller's audience. */
  function GetStoryById(friends: seq<Friends.FriendEdge>, stories: seq<Story>, me: Id, storyId: Id, now: int): (r: Result<Story>)
    ensures FindStory(stories, storyId).None? <==> r == Err(Error(NotFound, StoryMissingMessage))
    ensures FindStory(stories, storyId).Some? && FindLive(stories, storyId, now).None? ==> r == Err(Error(BadRequest, ExpiredMessage))
    ensures r.Ok? <==> && FindStory(stories, storyId).Some? && FindLive(stories, storyId, now).Some?
                       && FindLive(stories, storyId, now).value.visibility in
                            Audience(friends, me, stories[FindStory(stories, storyId).value].userId)
    ensures r.Ok? ==> r.value == FindLive(stories, storyId, now).value
    ensures r.Err? && FindLive(stories, storyId, now).Some? ==> r.error == Error(Forbidden, VisibilityMessage)
  {
    match FindStory(stories, storyId)
    case None => Err(Error(NotFound, StoryMissingMessage))
    case Some(k) =>
      var audience := Audience(friends, me, stories[k].userId);
      match FindLive(stories, storyId, now)
      case None => Err(Error(BadRequest, ExpiredMessage))
      case Some(s) => if s.visibility !in audience then Err(Error(Forbidden, VisibilityMessage)) else Ok(s)
  }

  /** With unique story ids, a story opened by id is one of its owner's
      active stories as the caller sees them, and every such story opens. */
  lemma GetStoryAgreesWithActiveList(users: seq<User>, friends: seq<Friends.FriendEdge>, stories: seq<Story>, me: Id, s: Story, now: int)
    requires UniqueStoryIds(stories)
    requires s in stories
    requires Exists(users, ById(s.userId))
    ensures GetStoryById(friends, stories, me, s.id, now) == Ok(s) <==>
              s in ActiveStoriesOf(users, friends, stories, me, s.userId, now).value
  {
    var i :| 0 <= i < |stories| && stories[i] == s;
    assert FindStory(stories, s.id) == Some(i);
    if Live(s, now) {
      assert FindLive(stories, s.id, now) == Some(s);
    } else {
      assert FindLive(stories, s.id, now).None?;
    }
  }

  /** A story just created opens by its id for exactly the audience its
      visibility admits, its owner always, and is among the owner's active
      stories. */
  lemma CreateStoryOpens(users: seq<User>, profiles: seq<Profile>, friends: seq<Friends.FriendEdge>, stories: seq<Story>,
                         notes: seq<Notifications.Notification>, me: Id, content: string, visibility: Option<Visibility>,
                         id: Id, now: int, firstNoteId: Id, viewer: Id)
    requires forall k :: 0 <= k < |stories| ==> stories[k].id != id
    requires Exists(users, ById(me))
    ensures var after := CreateStory(users, profiles, stories, notes, me, content, visibility, id, now, firstNoteId).0;
      && GetStoryById(friends, after, me, id, now) == Ok(after[|stories|])
      && (GetStoryById(friends, after, viewer, id, now).Ok? <==> after[|stories|].visibility in Audience(friends, viewer, me))
      && after[|stories|] in ActiveStoriesOf(users, friends, after, me, me, now).value
  {
    var after := CreateStory(users, profiles, stories, notes, me, content, visibility, id, now, firstNoteId).0;
    var s := after[|stories|];
    assert s.userId == me && Live(s, now);
    assert FindStory(after, id) == Some(|stories|);
    assert FindLive(after, id, now) == Some(s) by {
      assert forall j :: 0 <= j < |stories| ==> after[j] == stories[j];
    }
    assert s.visibility in Audience(friends, me, me) by {
      assert s.visibility.StoryPrivate? || s.visibility.StoryFriends? || s.visibility.StoryPublic?;
    }
  }

  /** `getArchiveStories`, before paging: the caller's stories whose expiry
      has come. */
  function Archive(stories: seq<Story>, me: Id, now: int): (r: seq<Story>)
    ensures forall s :: s in r <==> s in stories && s.userId == me && s.expiresAt <= now
  {
    Sequences.Filter(stories, (s: Story) => s.userId == me && s.expiresAt <= now)
  }

  /** The archive query and the live query both include the expiry instant,
      so at that instant a story is in both. */
  lemma ExpiryInstantIsInBoth(users: seq<User>, friends: seq<Friends.FriendEdge>, stories: seq<Story>, me: Id, s: Story)
    requires s in stories && s.userId == me && Exists(users, ById(me))
    ensures s in Archive(stories, me, s.expiresAt)
    ensures s in ActiveStoriesOf(users, friends, stories, me, me, s.expiresAt).value
  {
    assert s.visibility.StoryPrivate? || s.visibility.StoryFriends? || s.visibility.StoryPublic?;
    assert ActiveFor(s, me, Audience(friends, me, me), s.expiresAt);
  }

  /** The archive listing with its page meta from the shared query builder. */
  function ListArchive(stories: seq<Story>, me: Id, now: int, query: QueryBuilder.Query): (r: Result<(seq<Story>, QueryBuilder.Meta)>)
    ensures r.Ok? <==> QueryBuilder.PaginateMeta(query, |Archive(stories, me, now)|).Ok?
    ensures r.Ok? ==> r.value.1.totalItems == |Archive(stories, me, now)| && r.value.0 == Archive(stories, me, now)
  {
    var archive := Archive(stories, me, now);
    var meta :- QueryBuilder.PaginateMeta(query, |archive|);
    Ok((archive, meta))
  }

  // ---------------------------------------------------------------------------
  // Views and reactions

  /** The view rows of one story. */
  function ViewsOf(views: seq<StoryView>, storyId: Id): (n: nat)
    ensures n <= |views|
  {
    if |views| == 0 then 0 else (if views[0].storyId == storyId then 1 else 0) + ViewsOf(views[1..], storyId)
  }

  /** Store assumption (unique index on `storyId, userId`): one view row per
      viewer and story. */
  predicate OneViewPerViewer(views: seq<StoryView>)
  {
    forall i, j :: 0 <= i < j < |views| ==> !(views[i].storyId == views[j].storyId && views[i].userId == views[j].userId)
  }

  /** The counter invariant the upserts keep: every story's count is the
      number of its view rows. */
  predicate CountsMatch(stories: seq<Story>, views: seq<StoryView>)
  {
    forall k :: 0 <= k < |stories| ==> stories[k].viewCounts == ViewsOf(views, stories[k].id)
  }

  predicate Viewed(v: StoryView, storyId: Id, me: Id)
  {
    v.storyId == storyId && v.userId == me
  }

  /** `StoryView.updateOne({ storyId, userId }, …, { upsert: true })`: the
      first matching row. */
  function FindView(views: seq<StoryView>, storyId: Id, me: Id): (k: Option<nat>)
    ensures k.Some? ==> k.value < |views| && Viewed(views[k.value], storyId, me)
    ensures k.Some? ==> forall j :: 0 <= j < k.value ==> !Viewed(views[j], storyId, me)
    ensures k.None? <==> forall j :: 0 <= j < |views| ==> !Viewed(views[j], storyId, me)
  {
    if |views| == 0 then None
    else if Viewed(views[0], storyId, me) then Some(0)
    else
      var k := FindView(views[1..], storyId, me);
      assert forall j :: 0 < j < |views| ==> views[j] == views[1..][j - 1];
      if k.Some? then Some(k.value + 1) else None
  }

  /** `$inc: { viewCounts: 1 }` on the first story with that id. */
  function Bump(stories: seq<Story>, storyId: Id): (r: seq<Story>)
    ensures |r| == |stories|
    ensures forall j :: 0 <= j < |stories| ==>
              r[j] == if FindStory(stories, storyId) == Some(j) then stories[j].(viewCounts := stories[j].viewCounts + 1) else stories[j]
  {
    match FindStory(stories, storyId)
    case None => stories
    case Some(k) => stories[k := stories[k].(viewCounts := stories[k].viewCounts + 1)]
  }

  /** The upsert both view and reaction use: an existing row takes the new
      reaction, if one is given; otherwise a row is added and the story's
      counter goes up. */
  function Upsert(stories: seq<Story>, views: seq<StoryView>, storyId: Id, me: Id, reaction: Option<Reactions.ReactionType>)
    : (r: (seq<Story>, seq<StoryView>))
    ensures FindView(views, storyId, me).None? ==>
              r == (Bump(stories, storyId), views + [StoryView(storyId, me, reaction)])
    ensures FindView(views, storyId, me).Some? ==> r.0 == stories && |r.1| == |views|
    ensures FindView(views, storyId, me).Some? ==> var k := FindView(views, storyId, me).value;
              && r.1[k] == (if reaction.Some? then views[k].(reactionType := reaction) else views[k])
              && forall j :: 0 <= j < |views| && j != k ==> r.1[j] == views[j]
  {
    match FindView(views, storyId, me)
    case None => (Bump(stories, storyId), views + [StoryView(storyId, me, reaction)])
    case Some(k) => (stories, if reaction.Some? then views[k := views[k].(reactionType := reaction)] else views)
  }

  /** `createStoryView`: 404 for an unknown story; otherwise one view row
      for the caller, counted once. Neither expiry nor visibility is
      checked. */
  function CreateStoryView(stories: seq<Story>, views: seq<StoryView>, storyId: Id, me: Id)
    : (r: Result<(seq<Story>, seq<StoryView>)>)
    ensures r.Err? <==> FindStory(stories, storyId).None?
    ensures r.Err? ==> r.error == Error(NotFound, StoryMissingMessage)
    ensures r.Ok? && FindView(views, storyId, me).Some? ==> r.value == (stories, views)
    ensures r.Ok? && FindView(views, storyId, me).None? ==> r.value.1 == views + [StoryView(storyId, me, None)]
    ensures r.Ok? && FindView(views, storyId, me).None? ==> var k := FindStory(stories, storyId).value;
              && |r.value.0| == |stories|
              && r.value.0[k] == stories[k].(viewCounts := stories[k].viewCounts + 1)
              && forall j :: 0 <= j < |stories| && j != k ==> r.value.0[j] == stories[j]
  {
    if FindStory(stories, storyId).None? then Err(Error(NotFound, StoryMissingMessage))
    else Ok(Upsert(stories, views, storyId, me, None))
  }

  /** `reactingInStory`: 404 for an unknown story, 400 for the owner;
      otherwise the caller's row carries the reaction, added and counted if
      the caller had not viewed the story. */
  function ReactInStory(stories: seq<Story>, views: seq<StoryView>, storyId: Id, me: Id, t: Reactions.ReactionType)
    : (r: Result<(seq<Story>, seq<StoryView>)>)
    ensures FindStory(stories, storyId).None? <==> r == Err(Error(NotFound, StoryMissingMessage))
    ensures r.Ok? <==> FindStory(stories, storyId).Some? && stories[FindStory(stories, storyId).value].userId != me
    ensures r.Err? && FindStory(stories, storyId).Some? ==> r.error == Error(BadRequest, OwnStoryReactionMessage)
    ensures r.Ok? ==> var k := FindView(r.value.1, storyId, me);
              k.Some? && r.value.1[k.value].reactionType == Some(t)
  {
    match FindStory(stories, storyId)
    case None => Err(Error(NotFound, StoryMissingMessage))
    case Some(k) =>
      if stories[k].userId == me then Err(Error(BadRequest, OwnStoryReactionMessage))
      else
        var r := Upsert(stories, views, storyId, me, Some(t));
        UpsertFindsRow(stories, views, storyId, me, Some(t));
        Ok(r)
  }

  lemma UpsertFindsRow(stories: seq<Story>, views: seq<StoryView>, storyId: Id, me: Id, reaction: Option<Reactions.ReactionType>)
    ensures var after := Upsert(stories, views, storyId, me, reaction).1;
      && FindView(after, storyId, me).Some?
      && (reaction.Some? ==> after[FindView(after, storyId, me).value].reactionType == reaction)
  {
    var after := Upsert(stories, views, storyId, me, reaction).1;
    match FindView(views, storyId, me)
    case None =>
      assert forall j :: 0 <= j < |views| ==> after[j] == views[j] && !Viewed(after[j], storyId, me);
      assert Viewed(after[|views|], storyId, me);
    case Some(k) =>
      assert forall j :: 0 <= j < k ==> after[j] == views[j];
      assert Viewed(after[k], storyId, me);
      assert FindView(after, storyId, me) == Some(k);
  }

  /** Counting view rows after one more row. */
  lemma {:induction false} ViewsOfAppend(views: seq<StoryView>, v: StoryView, id: Id)
    ensures ViewsOf(views + [v], id) == ViewsOf(views, id) + (if v.storyId == id then 1 else 0)
  {
    if |views| == 0 {
      assert [] + [v] == [v];
    } else {
      assert (views + [v])[1..] == views[1..] + [v];
      ViewsOfAppend(views[1..], v, id);
    }
  }

  /** Counting view rows after a row changes in place, keeping its story. */
  lemma {:induction false} ViewsOfUpdate(views: seq<StoryView>, k: nat, v: StoryView, id: Id)
    requires k < |views| && v.storyId == views[k].storyId
    ensures ViewsOf(views[k := v], id) == ViewsOf(views, id)
  {
    if k > 0 {
      assert views[k := v][1..] == views[1..][k - 1 := v];
      ViewsOfUpdate(views[1..], k - 1, v, id);
    }
  }

  /** An upsert keeps every count equal to its story's rows, and keeps one
      row per viewer. */
  lemma UpsertKeepsCounts(stories: seq<Story>, views: seq<StoryView>, storyId: Id, me: Id, reaction: Option<Reactions.ReactionType>)
    requires UniqueStoryIds(stories) && CountsMatch(stories, views) && OneViewPerViewer(views)
    requires FindStory(stories, storyId).Some?
    ensures var r := Upsert(stories, views, storyId, me, reaction);
      CountsMatch(r.0, r.1) && OneViewPerViewer(r.1) && UniqueStoryIds(r.0)
  {
    var r := Upsert(stories, views, storyId, me, reaction);
    match FindView(views, storyId, me)
    case None =>
      var at := FindStory(stories, storyId).value;
      forall j | 0 <= j < |stories| ensures r.0[j].viewCounts == ViewsOf(r.1, r.0[j].id) {
        ViewsOfAppend(views, StoryView(storyId, me, reaction), stories[j].id);
      }
      assert forall j :: 0 <= j < |views| ==> r.1[j] == views[j] && !Viewed(views[j], storyId, me);
    case Some(k) =>
      if reaction.Some? {
        forall j | 0 <= j < |stories| ensures r.0[j].viewCounts == ViewsOf(r.1, r.0[j].id) {
          ViewsOfUpdate(views, k, views[k].(reactionType := reaction), stories[j].id);
        }
      }
  }

  /** Viewing a story twice counts once. */
  lemma ViewingTwiceCountsOnce(stories: seq<Story>, views: seq<StoryView>, storyId: Id, me: Id)
    requires CreateStoryView(stories, views, storyId, me).Ok?
    ensures var once := CreateStoryView(stories, views, storyId, me).value;
      CreateStoryView(once.0, once.1, storyId, me) == Ok(once)
  {
    var once := CreateStoryView(stories, views, storyId, me).value;
    if FindView(views, storyId, me).None? {
      UpsertFindsRow(stories, views, storyId, me, None);
      var k := FindStory(stories, storyId).value;
      assert once.0[k].id == storyId;
    }
  }

  /** The filter `{ storyId }` on view rows. */
  function OfStory(storyId: Id): StoryView -> bool
  {
    (v: StoryView) => v.storyId == storyId
  }

  /** The rows a `{ storyId }` query returns are as many as `ViewsOf` counts. */
  lemma {:induction false} ViewsOfIsFilter(views: seq<StoryView>, storyId: Id)
    ensures |Sequences.Filter(views, OfStory(storyId))| == ViewsOf(views, storyId)
  {
    if |views| > 0 {
      ViewsOfIsFilter(views[1..], storyId);
    }
  }

  /** `getStoryViews`: 404 for an unknown story, 400 for anyone but its
      owner; otherwise the story's view rows. */
  function GetStoryViews(stories: seq<Story>, views: seq<StoryView>, me: Id, storyId: Id): (r: Result<seq<StoryView>>)
    ensures FindStory(stories, storyId).None? <==> r == Err(Error(NotFound, StoryMissingMessage))
    ensures r.Ok? <==> FindStory(stories, storyId).Some? && stories[FindStory(stories, storyId).value].userId == me
    ensures r.Err? && FindStory(stories, storyId).Some? ==> r.error == Error(BadRequest, OthersViewsMessage)
    ensures r.Ok? ==> forall v :: v in r.value <==> v in views && v.storyId == storyId
  {
    match FindStory(stories, storyId)
    case None => Err(Error(NotFound, StoryMissingMessage))
    case Some(k) =>
      if stories[k].userId != me then Err(Error(BadRequest, OthersViewsMessage))
      else Ok(Sequences.Filter(views, OfStory(storyId)))
  }

  /** While the counters match the rows, the owner is shown exactly as many
      viewers as the story's counter says. */
  lemma StoryViewsMatchCounter(stories: seq<Story>, views: seq<StoryView>, me: Id, storyId: Id)
    requires CountsMatch(stories, views)
    requires GetStoryViews(stories, views, me, storyId).Ok?
    ensures |GetStoryViews(stories, views, me, storyId).value| == stories[FindStory(stories, storyId).value].viewCounts
  {
    ViewsOfIsFilter(views, storyId);
  }

  /** `deleteStoryById`: 404 for an unknown story, 403 for anyone but its
      owner; otherwise the story and all its view rows go. */
  function DeleteStory(stories: seq<Story>, views: seq<StoryView>, me: Id, storyId: Id)
    : (r: Result<(seq<Story>, seq<StoryView>)>)
    ensures FindStory(stories, storyId).None? <==> r == Err(Error(NotFound, StoryMissingMessage))
    ensures r.Ok? <==> FindStory(stories, storyId).Some? && stories[FindStory(stories, storyId).value].userId == me
    ensures r.Err? && FindStory(stories, storyId).Some? ==> r.error == Error(Forbidden, DeleteRefusedMessage)
    ensures r.Ok? ==> var k := FindStory(stories, storyId).value;
      && r.value.0 == stories[..k] + stories[k + 1..]
      && forall v :: v in r.value.1 <==> v in views && v.storyId != storyId
  {
    match FindStory(stories, storyId)
    case None => Err(Error(NotFound, StoryMissingMessage))
    case Some(k) =>
      if stories[k].userId != me then Err(Error(Forbidden, DeleteRefusedMessage))
      else Ok((stories[..k] + stories[k + 1..], Sequences.Filter(views, (v: StoryView) => v.storyId != storyId)))
  }

  /** Deleting a story keeps the counter invariant for the stories left. */
  lemma DeleteKeepsCounts(stories: seq<Story>, views: seq<StoryView>, me: Id, storyId: Id)
    requires UniqueStoryIds(stories) && CountsMatch(stories, views)
    requires DeleteStory(stories, views, me, storyId).Ok?
    ensures var r := DeleteStory(stories, views, me, storyId).value;
      CountsMatch(r.0, r.1) && UniqueStoryIds(r.0)
  {
    var r := DeleteStory(stories, views, me, storyId).value;
    var k := FindStory(stories, storyId).value;
    assert forall j :: 0 <= j < |r.0| ==> r.0[j] == if j < k then stories[j] else stories[j + 1];
    forall j | 0 <= j < |r.0| ensures r.0[j].viewCounts == ViewsOf(r.1, r.0[j].id) {
      var i := if j < k then j else j + 1;
      assert r.0[j] == stories[i] && i != k;
      ViewsOfFilter(views, storyId, stories[i].id);
    }
  }

  /** Dropping one story's rows leaves every other story's count. */
  lemma {:induction false} ViewsOfFilter(views: seq<StoryView>, gone: Id, id: Id)
    requires id != gone
    ensures ViewsOf(Sequences.Filter(views, (v: StoryView) => v.storyId != gone), id) == ViewsOf(views, id)
  {
    if |views| > 0 {
      ViewsOfFilter(views[1..], gone, id);
      var rest := Sequences.Filter(views[1..], (v: StoryView) => v.storyId != gone);
      if views[0].storyId != gone {
        assert ([views[0]] + rest)[1..] == rest;
      } else {
        assert [] + rest == rest;
      }
    }
  }

  // ---------------------------------------------------------------------------
  // Feed

  /** The two lists the loop of `getStoriesForFeed` builds from the
      caller's edges: an accepted edge adds the other side to the friends,
      a pending request the caller sent adds its receiver to the followings,
      and any other edge adds nothing. The lists only feed `$in` conditions,
      so the model fixes their members and not their order: the friends
      come from the edges the caller sent, then from those it received. */
  function FeedIds(friends: seq<Friends.FriendEdge>, me: Id): (r: (seq<Id>, seq<Id>))
    ensures forall x :: x in r.0 <==> Friends.Linked(friends, me, x, true, Friends.Accepted) || Friends.Linked(friends, me, x, false, Friends.Accepted)
    ensures forall x :: x in r.1 <==> Friends.Linked(friends, me, x, true, Friends.Pending)
  {
    (Friends.Counterparts(friends, me, true, Friends.Accepted) + Friends.Counterparts(friends, me, false, Friends.Accepted),
     Friends.Counterparts(friends, me, true, Friends.Pending))
  }

  /** The feed loop and the friend helper put the same people in each list. */
  lemma FeedIdsAgreeWithFriendHelper(friends: seq<Friends.FriendEdge>, me: Id, x: Id)
    ensures x in FeedIds(friends, me).0 <==> x in Friends.FriendIds(friends, me)
    ensures x in FeedIds(friends, me).1 <==> x in Friends.FollowingIds(friends, me)
  {
  }

  /** The feed condition: the caller's own live stories, friends' live
      stories for friends or everyone, and followings' live public stories. */
  predicate InFeed(s: Story, me: Id, friendIds: seq<Id>, followingIds: seq<Id>, now: int)
  {
    Live(s, now) &&
    (s.userId == me
     || (s.userId in friendIds && (s.visibility == StoryFriends || s.visibility == StoryPublic))
     || (s.userId in followingIds && s.visibility == StoryPublic))
  }

  function CreatedAt(s: Story): int { s.createdAt }

  /** One entry of the feed: an author, one of the author's profile names,
      and the author's feed stories, newest first. */
  datatype FeedGroup = FeedGroup(userId: Id, fullName: string, stories: seq<Story>)

  /** The distinct authors of `feed` other than `me`, in order of first
      appearance. */
  function OtherAuthors(feed: seq<Story>, me: Id): (r: seq<Id>)
    ensures Sequences.NoDup(r)
    ensures forall x :: x in r <==> x != me && exists k :: 0 <= k < |feed| && feed[k].userId == x
  {
    var ids: seq<Id> := seq(|feed|, k requires 0 <= k < |feed| => feed[k].userId);
    var others := Sequences.Filter(ids, (x: Id) => x != me);
    assert forall x :: x in ids <==> exists k :: 0 <= k < |feed| && feed[k].userId == x by {
      forall x ensures x in ids <==> exists k :: 0 <= k < |feed| && feed[k].userId == x {
        if exists k :: 0 <= k < |feed| && feed[k].userId == x {
          var k :| 0 <= k < |feed| && feed[k].userId == x;
          assert ids[k] == x;
        }
      }
    }
    Sequences.Dedup(others)
  }

  /** Groups for one author: one per profile of the author (the `$lookup`
      and `$unwind` on profiles), none without a profile. */
  function AuthorGroups(author: Id, stories: seq<Story>, profiles: seq<Profile>): (r: seq<FeedGroup>)
    ensures forall g :: g in r <==> g.userId == author && g.stories == stories && Profile(author, g.fullName) in profiles
  {
    if |profiles| == 0 then []
    else
      var rest := AuthorGroups(author, stories, profiles[1..]);
      assert forall p :: p in profiles <==> p == profiles[0] || p in profiles[1..];
      if profiles[0].userId == author then [FeedGroup(author, profiles[0].fullName, stories)] + rest else rest
  }

  /** An author's feed stories, newest first (the `$sort` and `$push`). */
  function StoriesBy(feed: seq<Story>, author: Id): (r: seq<Story>)
    ensures Sequences.SortedDesc(r, CreatedAt)
    ensures forall s :: s in r <==> s in feed && s.userId == author
  {
    Sequences.SortedFilter(feed, (s: Story) => s.userId == author, CreatedAt)
  }

  function GroupsFor(authors: seq<Id>, feed: seq<Story>, profiles: seq<Profile>): (r: seq<FeedGroup>)
    ensures forall g :: g in r <==>
              g.userId in authors && g.stories == StoriesBy(feed, g.userId) && Profile(g.userId, g.fullName) in profiles
  {
    if |authors| == 0 then []
    else
      var a := authors[0];
      var mine := AuthorGroups(a, StoriesBy(feed, a), profiles);
      var rest := GroupsFor(authors[1..], feed, profiles);
      assert forall x :: x in authors <==> x == a || x in authors[1..];
      mine + rest
  }

  predicate Authored(feed: seq<Story>, a: Id)
  {
    exists k :: 0 <= k < |feed| && feed[k].userId == a
  }

  /** A group built for an author of the feed holds that author's feed
      stories, newest first, and at least one. */
  lemma GroupFacts(authors: seq<Id>, feed: seq<Story>, profiles: seq<Profile>, g: FeedGroup)
    requires forall a :: a in authors ==> Authored(feed, a)
    requires g in GroupsFor(authors, feed, profiles)
    ensures Profile(g.userId, g.fullName) in profiles && Sequences.SortedDesc(g.stories, CreatedAt)
    ensures g.userId in authors && |g.stories| > 0
    ensures forall s :: s in g.stories <==> s in feed && s.userId == g.userId
  {
    var k :| 0 <= k < |feed| && feed[k].userId == g.userId;
    assert feed[k] in g.stories;
  }

  /** `getStoriesForFeed`: the feed grouped by author, each group naming the
      author by profile and holding the author's feed stories newest first,
      the caller's own group first. The store fixes no order among the
      other groups; the model takes their authors' order of first
      appearance. */
  function Feed(friends: seq<Friends.FriendEdge>, stories: seq<Story>, profiles: seq<Profile>, me: Id, now: int): (r: seq<FeedGroup>)
    ensures var ids := FeedIds(friends, me);
      forall g :: g in r ==>
        (&& Profile(g.userId, g.fullName) in profiles && Sequences.SortedDesc(g.stories, CreatedAt)
         && |g.stories| > 0
         && forall s :: s in g.stories <==> s in stories && s.userId == g.userId && InFeed(s, me, ids.0, ids.1, now))
    ensures var ids := FeedIds(friends, me);
      forall s :: s in stories && InFeed(s, me, ids.0, ids.1, now) && HasProfile(profiles, s.userId) ==>
        exists g :: g in r && s in g.stories
    ensures forall i, j :: 0 <= i < j < |r| && r[j].userId == me ==> r[i].userId == me
  {
    var ids := FeedIds(friends, me);
    var feed := Sequences.Filter(stories, (s: Story) => InFeed(s, me, ids.0, ids.1, now));
    var own := if Authored(feed, me) then [me] else [];
    var others := OtherAuthors(feed, me);
    var mine := GroupsFor(own, feed, profiles);
    var rest := GroupsFor(others, feed, profiles);
    FeedGroupsHold(ids, stories, feed, profiles, me, now, own, others, mine, rest);
    FeedCoversStories(ids, stories, feed, profiles, me, now, own, others, mine, rest);
    OwnGroupFirst(feed, profiles, me, own, others, mine, rest);
    mine + rest
  }

  /** Every group of the feed is an author's own feed stories, newest
      first, under the author's profile name. */
  lemma FeedGroupsHold(ids: (seq<Id>, seq<Id>), stories: seq<Story>, feed: seq<Story>, profiles: seq<Profile>, me: Id, now: int,
                       own: seq<Id>, others: seq<Id>, mine: seq<FeedGroup>, rest: seq<FeedGroup>)
    requires forall s :: s in feed <==> s in stories && InFeed(s, me, ids.0, ids.1, now)
    requires own == (if Authored(feed, me) then [me] else [])
    requires others == OtherAuthors(feed, me)
    requires mine == GroupsFor(own, feed, profiles) && rest == GroupsFor(others, feed, profiles)
    ensures forall g :: g in mine + rest ==>
              (&& Profile(g.userId, g.fullName) in profiles && Sequences.SortedDesc(g.stories, CreatedAt)
               && |g.stories| > 0
               && forall s :: s in g.stories <==> s in stories && s.userId == g.userId && InFeed(s, me, ids.0, ids.1, now))
  {
    assert forall a :: a in others ==> Authored(feed, a);
    forall g | g in mine + rest
      ensures && Profile(g.userId, g.fullName) in profiles && Sequences.SortedDesc(g.stories, CreatedAt) && |g.stories| > 0
              && forall s :: s in g.stories <==> s in stories && s.userId == g.userId && InFeed(s, me, ids.0, ids.1, now)
    {
      if g in mine { GroupFacts(own, feed, profiles, g); } else { GroupFacts(others, feed, profiles, g); }
    }
  }

  /** Every visible story whose author has a profile is in some group. */
  lemma FeedCoversStories(ids: (seq<Id>, seq<Id>), stories: seq<Story>, feed: seq<Story>, profiles: seq<Profile>, me: Id, now: int,
                          own: seq<Id>, others: seq<Id>, mine: seq<FeedGroup>, rest: seq<FeedGroup>)
    requires forall s :: s in feed <==> s in stories && InFeed(s, me, ids.0, ids.1, now)
    requires own == (if Authored(feed, me) then [me] else [])
    requires others == OtherAuthors(feed, me)
    requires mine == GroupsFor(own, feed, profiles) && rest == GroupsFor(others, feed, profiles)
    ensures forall s :: s in stories && InFeed(s, me, ids.0, ids.1, now) && HasProfile(profiles, s.userId) ==>
              exists g :: g in mine + rest && s in g.stories
  {
    forall s | s in stories && InFeed(s, me, ids.0, ids.1, now) && HasProfile(profiles, s.userId)
      ensures exists g :: g in mine + rest && s in g.stories
    {
      var k :| 0 <= k < |feed| && feed[k] == s;
      var p :| 0 <= p < |profiles| && profiles[p].userId == s.userId;
      var g := FeedGroup(s.userId, profiles[p].fullName, StoriesBy(feed, s.userId));
      assert profiles[p] == Profile(s.userId, g.fullName);
      if s.userId == me { assert g in mine; } else { assert g in rest; }
      assert g in mine + rest;
    }
  }

  /** The caller's own group comes before every other group. */
  lemma OwnGroupFirst(feed: seq<Story>, profiles: seq<Profile>, me: Id,
                      own: seq<Id>, others: seq<Id>, mine: seq<FeedGroup>, rest: seq<FeedGroup>)
    requires own == (if Authored(feed, me) then [me] else [])
    requires others == OtherAuthors(feed, me)
    requires mine == GroupsFor(own, feed, profiles) && rest == GroupsFor(others, feed, profiles)
    ensures var r := mine + rest; forall i, j :: 0 <= i < j < |r| && r[j].userId == me ==> r[i].userId == me
  {
    var r := mine + rest;
    forall i, j | 0 <= i < j < |r| && r[j].userId == me ensures r[i].userId == me {
      if j >= |mine| {
        assert false;
      }
      assert r[i] in mine;
    }
  }
}
