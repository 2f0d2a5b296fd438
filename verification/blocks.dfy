/** User blocking: the block store, the mutual-block gate every cross-user
    interaction passes, the excluded-ids list used to hide blocked users, and
    the block / unblock / list-blocked operations. */
module Blocks {
  import opened Wrappers
  import opened Users
  import Sequences

  /** `blockerId` has blocked `blockedId`. */
  datatype BlockEdge = BlockEdge(blockerId: Id, blockedId: Id, createdAt: int)

  predicate Blocked(blocks: seq<BlockEdge>, a: Id, b: Id)
  {
    exists k :: 0 <= k < |blocks| && blocks[k].blockerId == a && blocks[k].blockedId == b
  }

  predicate Between(e: BlockEdge, a: Id, b: Id)
  {
    (e.blockerId == a && e.blockedId == b) || (e.blockerId == b && e.blockedId == a)
  }

  /** Store invariant kept by `Block`: at most one edge per ordered pair. */
  predicate UniquePairs(blocks: seq<BlockEdge>)
  {
    forall i, j :: 0 <= i < j < |blocks| ==>
      !(blocks[i].blockerId == blocks[j].blockerId && blocks[i].blockedId == blocks[j].blockedId)
  }

  /** Store invariant kept by `Block`: nobody blocks themself. */
  predicate NoSelfBlock(blocks: seq<BlockEdge>)
  {
    forall k :: 0 <= k < |blocks| ==> blocks[k].blockerId != blocks[k].blockedId
  }

  /** The first edge between `a` and `b` in either direction. */
  function FindBetween(blocks: seq<BlockEdge>, a: Id, b: Id): (r: Option<nat>)
    ensures r.Some? ==>
              && r.value < |blocks| && Between(blocks[r.value], a, b)
              && forall k :: 0 <= k < r.value ==> !Between(blocks[k], a, b)
    ensures r.None? <==> forall k :: 0 <= k < |blocks| ==> !Between(blocks[k], a, b)
  {
    if |blocks| == 0 then None
    else if Between(blocks[0], a, b) then Some(0)
    else
      var r := FindBetween(blocks[1..], a, b);
      if r.Some? then Some(r.value + 1) else None
  }

  const YouBlockedMessage: string :=
    "You blocked the user. You will not be able to take any action with each other."
  const BlockedYouMessage: string :=
    "The user blocked you. You will not be able to take any action with each other."

  /** `checkMutualBlock`: 403 when either user has blocked the other, naming
      who blocked whom from the first edge found. */
  function CheckMutualBlock(blocks: seq<BlockEdge>, me: Id, other: Id): (o: Outcome)
    ensures o.Fail? <==> Blocked(blocks, me, other) || Blocked(blocks, other, me)
    ensures o.Fail? ==> o.error.status == Forbidden
    ensures o.Fail? ==> o.error.message in {YouBlockedMessage, BlockedYouMessage}
    ensures Blocked(blocks, me, other) && !Blocked(blocks, other, me) ==>
              o == Fail(Error(Forbidden, YouBlockedMessage))
    ensures !Blocked(blocks, me, other) && Blocked(blocks, other, me) && me != other ==>
              o == Fail(Error(Forbidden, BlockedYouMessage))
  {
    var found := FindBetween(blocks, me, other);
    if found.None? then
      assert !Blocked(blocks, me, other) && !Blocked(blocks, other, me);
      Pass
    else if blocks[found.value].blockerId == me then
      Fail(Error(Forbidden, YouBlockedMessage))
    else
      Fail(Error(Forbidden, BlockedYouMessage))
  }

  /** The gate fails for (a, b) exactly when it fails for (b, a). */
  lemma MutualBlockSymmetric(blocks: seq<BlockEdge>, a: Id, b: Id)
    ensures CheckMutualBlock(blocks, a, b).Fail? <==> CheckMutualBlock(blocks, b, a).Fail?
  {
  }

  /** Blocked ids of the edges `me` created, in store order. */
  function BlockedBy(blocks: seq<BlockEdge>, me: Id): (r: seq<Id>)
    ensures forall x :: x in r <==> Blocked(blocks, me, x)
  {
    if |blocks| == 0 then []
    else
      var rest := BlockedBy(blocks[1..], me);
      assert forall x :: Blocked(blocks, me, x) <==>
        (blocks[0].blockerId == me && blocks[0].blockedId == x) || Blocked(blocks[1..], me, x) by {
        forall x ensures Blocked(blocks, me, x) ==>
          (blocks[0].blockerId == me && blocks[0].blockedId == x) || Blocked(blocks[1..], me, x)
        {
          if Blocked(blocks, me, x) {
            var k :| 0 <= k < |blocks| && blocks[k].blockerId == me && blocks[k].blockedId == x;
            if k > 0 { assert blocks[1..][k - 1] == blocks[k]; }
          }
        }
        forall x | Blocked(blocks[1..], me, x) ensures Blocked(blocks, me, x) {
          var k :| 0 <= k < |blocks[1..]| && blocks[1..][k].blockerId == me && blocks[1..][k].blockedId == x;
          assert blocks[k + 1] == blocks[1..][k];
        }
      }
      if blocks[0].blockerId == me then [blocks[0].blockedId] + rest else rest
  }

  /** Blocker ids of the edges that block `me`, in store order. */
  function BlockersOf(blocks: seq<BlockEdge>, me: Id): (r: seq<Id>)
    ensures forall x :: x in r <==> Blocked(blocks, x, me)
  {
    if |blocks| == 0 then []
    else
      var rest := BlockersOf(blocks[1..], me);
      assert forall x :: Blocked(blocks, x, me) <==>
        (blocks[0].blockerId == x && blocks[0].blockedId == me) || Blocked(blocks[1..], x, me) by {
        forall x ensures Blocked(blocks, x, me) ==>
          (blocks[0].blockerId == x && blocks[0].blockedId == me) || Blocked(blocks[1..], x, me)
        {
          if Blocked(blocks, x, me) {
            var k :| 0 <= k < |blocks| && blocks[k].blockerId == x && blocks[k].blockedId == me;
            if k > 0 { assert blocks[1..][k - 1] == blocks[k]; }
          }
        }
        forall x | Blocked(blocks[1..], x, me) ensures Blocked(blocks, x, me) {
          var k :| 0 <= k < |blocks[1..]| && blocks[1..][k].blockerId == x && blocks[1..][k].blockedId == me;
          assert blocks[k + 1] == blocks[1..][k];
        }
      }
      if blocks[0].blockedId == me then [blocks[0].blockerId] + rest else rest
  }

  /** `getExcludedUserIds`: the distinct users `me` blocked, followed by the
      distinct users who blocked `me`. */
  function ExcludedUserIds(blocks: seq<BlockEdge>, me: Id): (r: seq<Id>)
    ensures forall x :: x in r <==> Blocked(blocks, me, x) || Blocked(blocks, x, me)
    ensures exists n :: 0 <= n <= |r| && Sequences.NoDup(r[..n]) && Sequences.NoDup(r[n..])
  {
    var mine := Sequences.Dedup(BlockedBy(blocks, me));
    var theirs := Sequences.Dedup(BlockersOf(blocks, me));
    var r := mine + theirs;
    assert r[..|mine|] == mine && r[|mine|..] == theirs;
    r
  }

  /** The two halves are not de-duplicated against each other: two users who
      blocked each other see each other twice. */
  lemma ExcludedIdsMayRepeat()
    ensures ExcludedUserIds([BlockEdge(1, 2, 0), BlockEdge(2, 1, 0)], 1) == [2, 2]
  {
    var blocks := [BlockEdge(1, 2, 0), BlockEdge(2, 1, 0)];
    assert BlockedBy(blocks[1..], 1) == [];
    assert BlockedBy(blocks, 1) == [2];
    assert BlockersOf(blocks[1..][1..], 1) == [];
    assert BlockersOf(blocks[1..], 1) == [2];
    assert BlockersOf(blocks, 1) == [2];
    assert Sequences.Dedup([2]) == [2] by {
      assert [2][..0] == [];
    }
  }

  /** `userBlockIntoDB`: self-block 400, unknown target 404, an existing
      `blocker -> blocked` edge 409; otherwise exactly that edge is appended.
      The reverse edge is not consulted. */
  function Block(users: seq<User>, blocks: seq<BlockEdge>, blocker: Id, blocked: Id, now: int)
    : (r: Result<seq<BlockEdge>>)
    ensures blocker == blocked ==> r == Err(Error(BadRequest, "You can't block yourself "))
    ensures blocker != blocked && !Exists(users, ById(blocked)) ==>
              r == Err(Error(NotFound, "The user is not found"))
    ensures blocker != blocked && Exists(users, ById(blocked)) && Blocked(blocks, blocker, blocked) ==>
              r == Err(Error(Conflict, "The user is already blocked"))
    ensures r.Ok? <==> blocker != blocked && Exists(users, ById(blocked)) && !Blocked(blocks, blocker, blocked)
    ensures r.Ok? ==> r.value == blocks + [BlockEdge(blocker, blocked, now)]
  {
    if blocker == blocked then Err(Error(BadRequest, "You can't block yourself ")) else
    :- Need(Find(users, ById(blocked)).Some?, NotFound, "The user is not found");
    :- Need(!Blocked(blocks, blocker, blocked), Conflict, "The user is already blocked");
    Ok(blocks + [BlockEdge(blocker, blocked, now)])
  }

  /** The first edge `blocker -> blocked`. */
  function FindEdge(blocks: seq<BlockEdge>, blocker: Id, blocked: Id): (r: Option<nat>)
    ensures r.Some? ==>
              && r.value < |blocks|
              && blocks[r.value].blockerId == blocker && blocks[r.value].blockedId == blocked
              && forall j :: 0 <= j < r.value ==> !(blocks[j].blockerId == blocker && blocks[j].blockedId == blocked)
    ensures r.None? <==> !Blocked(blocks, blocker, blocked)
  {
    if |blocks| == 0 then None
    else if blocks[0].blockerId == blocker && blocks[0].blockedId == blocked then Some(0)
    else
      var r := FindEdge(blocks[1..], blocker, blocked);
      assert forall k :: 0 < k < |blocks| ==> blocks[k] == blocks[1..][k - 1];
      if r.Some? then Some(r.value + 1) else None
  }

  /** `userUnblockIntoDB`: unknown target 404; no `blocker -> blocked` edge
      404; otherwise that one edge is deleted and every other edge is kept. */
  function Unblock(users: seq<User>, blocks: seq<BlockEdge>, blocker: Id, blocked: Id)
    : (r: Result<seq<BlockEdge>>)
    ensures !Exists(users, ById(blocked)) ==> r == Err(Error(NotFound, "The user is not found"))
    ensures Exists(users, ById(blocked)) && !Blocked(blocks, blocker, blocked) ==>
              r == Err(Error(NotFound, "The user is not exists in your block list"))
    ensures r.Ok? <==> Exists(users, ById(blocked)) && Blocked(blocks, blocker, blocked)
    ensures r.Ok? ==>
              exists k :: && 0 <= k < |blocks|
                          && blocks[k].blockerId == blocker && blocks[k].blockedId == blocked
                          && (forall j :: 0 <= j < k ==> !(blocks[j].blockerId == blocker && blocks[j].blockedId == blocked))
                          && r.value == blocks[..k] + blocks[k + 1..]
  {
    if Find(users, ById(blocked)).None? then Err(Error(NotFound, "The user is not found")) else
    var k := FindEdge(blocks, blocker, blocked);
    :- Need(k.Some?, NotFound, "The user is not exists in your block list");
    Ok(blocks[..k.value] + blocks[k.value + 1..])
  }

  /** A successful block keeps the store free of duplicate and self edges,
      and from then on the mutual-block gate fails in both directions. */
  lemma BlockKeepsInvariants(users: seq<User>, blocks: seq<BlockEdge>, blocker: Id, blocked: Id, now: int)
    requires UniquePairs(blocks) && NoSelfBlock(blocks)
    requires Block(users, blocks, blocker, blocked, now).Ok?
    ensures var b := Block(users, blocks, blocker, blocked, now).value;
      && UniquePairs(b) && NoSelfBlock(b)
      && CheckMutualBlock(b, blocker, blocked).Fail?
      && CheckMutualBlock(b, blocked, blocker).Fail?
  {
    var b := blocks + [BlockEdge(blocker, blocked, now)];
    assert b[|blocks|].blockerId == blocker && b[|blocks|].blockedId == blocked;
  }

  /** Unblocking right after a block gives back the store as it was. */
  lemma BlockUnblockRoundTrip(users: seq<User>, blocks: seq<BlockEdge>, blocker: Id, blocked: Id, now: int)
    requires Block(users, blocks, blocker, blocked, now).Ok?
    ensures Unblock(users, Block(users, blocks, blocker, blocked, now).value, blocker, blocked) == Ok(blocks)
  {
    var b := blocks + [BlockEdge(blocker, blocked, now)];
    assert b[|blocks|].blockerId == blocker && b[|blocks|].blockedId == blocked;
    var k := FindEdge(b, blocker, blocked);
    assert k.Some?;
    assert forall j :: 0 <= j < |blocks| ==> b[j] == blocks[j];
    assert k.value == |blocks|;
    assert b[..|blocks|] + b[|blocks| + 1..] == blocks;
    assert Block(users, blocks, blocker, blocked, now).value == b;
  }

  /** After an unblock under unique pairs, no `blocker -> blocked` edge is left. */
  lemma UnblockRemovesTheEdge(users: seq<User>, blocks: seq<BlockEdge>, blocker: Id, blocked: Id)
    requires UniquePairs(blocks)
    requires Unblock(users, blocks, blocker, blocked).Ok?
    ensures !Blocked(Unblock(users, blocks, blocker, blocked).value, blocker, blocked)
    ensures UniquePairs(Unblock(users, blocks, blocker, blocked).value)
  {
    var r := Unblock(users, blocks, blocker, blocked).value;
    var k :| 0 <= k < |blocks| && blocks[k].blockerId == blocker && blocks[k].blockedId == blocked
             && r == blocks[..k] + blocks[k + 1..];
    RemovedPairIsGone(blocks, k);
    RemovalKeepsPairsUnique(blocks, k);
  }

  /** Under unique pairs, removing an edge leaves no edge for its pair. */
  lemma RemovedPairIsGone(blocks: seq<BlockEdge>, k: nat)
    requires UniquePairs(blocks) && k < |blocks|
    ensures !Blocked(blocks[..k] + blocks[k + 1..], blocks[k].blockerId, blocks[k].blockedId)
  {
    var r := blocks[..k] + blocks[k + 1..];
    forall i | 0 <= i < |r| ensures !(r[i].blockerId == blocks[k].blockerId && r[i].blockedId == blocks[k].blockedId) {
      if i < k { assert r[i] == blocks[i]; } else { assert r[i] == blocks[i + 1]; }
    }
  }

  /** Removing an edge keeps the pairs unique. */
  lemma RemovalKeepsPairsUnique(blocks: seq<BlockEdge>, k: nat)
    requires UniquePairs(blocks) && k < |blocks|
    ensures UniquePairs(blocks[..k] + blocks[k + 1..])
  {
    var r := blocks[..k] + blocks[k + 1..];
    forall i, j | 0 <= i < j < |r|
      ensures !(r[i].blockerId == r[j].blockerId && r[i].blockedId == r[j].blockedId)
    {
      var i' := if i < k then i else i + 1;
      var j' := if j < k then j else j + 1;
      assert r[i] == blocks[i'] && r[j] == blocks[j'] && i' < j';
    }
  }

  /** One row of the blocked-users list: a profile and the time of the block. */
  datatype BlockedEntry = BlockedEntry(userId: Id, fullName: string, createdAt: int)

  function EdgeCreatedAt(e: BlockEdge): int { e.createdAt }
  function EntryCreatedAt(e: BlockedEntry): int { e.createdAt }

  /** The edges `me` created, in store order. */
  function EdgesOf(blocks: seq<BlockEdge>, me: Id): (r: seq<BlockEdge>)
    ensures forall e :: e in r <==> e in blocks && e.blockerId == me
  {
    if |blocks| == 0 then []
    else (if blocks[0].blockerId == me then [blocks[0]] else []) + EdgesOf(blocks[1..], me)
  }

  /** `blockLists.find(item => item.blockedId.equals(userId))`; on a list
      sorted newest first this is the newest block of `userId`. */
  function FirstFor(edges: seq<BlockEdge>, userId: Id): (r: Option<BlockEdge>)
    ensures r.Some? ==> r.value in edges && r.value.blockedId == userId
    ensures r.None? <==> forall k :: 0 <= k < |edges| ==> edges[k].blockedId != userId
    ensures r.Some? && Sequences.SortedDesc(edges, EdgeCreatedAt) ==>
              forall k :: 0 <= k < |edges| && edges[k].blockedId == userId ==>
                edges[k].createdAt <= r.value.createdAt
  {
    if |edges| == 0 then None
    else if edges[0].blockedId == userId then
      assert Sequences.SortedDesc(edges, EdgeCreatedAt) ==>
        forall k :: 0 < k < |edges| ==> EdgeCreatedAt(edges[0]) >= EdgeCreatedAt(edges[k]);
      Some(edges[0])
    else
      var r := FirstFor(edges[1..], userId);
      assert forall k :: 0 < k < |edges| ==> edges[k] == edges[1..][k - 1];
      r
  }

  /** The list rows an entry can be: a profile of a user with a block in
      `newestFirst`, stamped with the time of the first such block. */
  predicate IsEntry(e: BlockedEntry, profiles: seq<Profile>, newestFirst: seq<BlockEdge>)
  {
    && (exists k :: 0 <= k < |profiles| && profiles[k].userId == e.userId && profiles[k].fullName == e.fullName)
    && FirstFor(newestFirst, e.userId).Some?
    && FirstFor(newestFirst, e.userId).value.createdAt == e.createdAt
  }

  /** Profiles mapped to rows; profiles without a matching block are dropped. */
  function Entries(profiles: seq<Profile>, newestFirst: seq<BlockEdge>): (r: seq<BlockedEntry>)
    ensures forall e :: e in r ==> IsEntry(e, profiles, newestFirst)
    ensures forall k :: 0 <= k < |profiles| && FirstFor(newestFirst, profiles[k].userId).Some? ==>
              BlockedEntry(profiles[k].userId, profiles[k].fullName,
                           FirstFor(newestFirst, profiles[k].userId).value.createdAt) in r
  {
    if |profiles| == 0 then []
    else
      var p := profiles[0];
      var rest := Entries(profiles[1..], newestFirst);
      assert forall k :: 0 < k < |profiles| ==> profiles[k] == profiles[1..][k - 1];
      assert forall e :: IsEntry(e, profiles[1..], newestFirst) ==> IsEntry(e, profiles, newestFirst) by {
        forall e | IsEntry(e, profiles[1..], newestFirst) ensures IsEntry(e, profiles, newestFirst) {
          var k :| 0 <= k < |profiles[1..]| && profiles[1..][k].userId == e.userId && profiles[1..][k].fullName == e.fullName;
          assert profiles[k + 1] == profiles[1..][k];
        }
      }
      var m := FirstFor(newestFirst, p.userId);
      if m.Some? then [BlockedEntry(p.userId, p.fullName, m.value.createdAt)] + rest else rest
  }

  /** A row of the list built from `blocks` names a user `me` blocked, has a
      profile, and carries the time of `me`'s newest block of that user. */
  lemma EntryFacts(blocks: seq<BlockEdge>, profiles: seq<Profile>, me: Id, e: BlockedEntry)
    requires IsEntry(e, profiles, Sequences.SortDesc(EdgesOf(blocks, me), EdgeCreatedAt))
    ensures Blocked(blocks, me, e.userId) && HasProfile(profiles, e.userId)
    ensures exists k :: 0 <= k < |blocks| && blocks[k].blockerId == me && blocks[k].blockedId == e.userId
              && blocks[k].createdAt == e.createdAt
    ensures forall k :: 0 <= k < |blocks| && blocks[k].blockerId == me && blocks[k].blockedId == e.userId ==>
              blocks[k].createdAt <= e.createdAt
  {
    var newestFirst := Sequences.SortDesc(EdgesOf(blocks, me), EdgeCreatedAt);
    var m := FirstFor(newestFirst, e.userId).value;
    assert m in multiset(newestFirst);
    assert m in EdgesOf(blocks, me);
    var i :| 0 <= i < |blocks| && blocks[i] == m;
    forall k | 0 <= k < |blocks| && blocks[k].blockerId == me && blocks[k].blockedId == e.userId
      ensures blocks[k].createdAt <= e.createdAt
    {
      assert blocks[k] in EdgesOf(blocks, me);
      assert blocks[k] in multiset(newestFirst);
      var j :| 0 <= j < |newestFirst| && newestFirst[j] == blocks[k];
    }
  }

  /** `getMyAllBlockedUsersFromDB`: the profiles of the users `me` blocked,
      each stamped with `me`'s newest block of that user, newest first. */
  function BlockedList(blocks: seq<BlockEdge>, profiles: seq<Profile>, me: Id): (r: seq<BlockedEntry>)
    ensures Sequences.SortedDesc(r, EntryCreatedAt)
    ensures forall e :: e in r ==> IsEntry(e, profiles, Sequences.SortDesc(EdgesOf(blocks, me), EdgeCreatedAt))
    ensures forall k :: 0 <= k < |profiles| && Blocked(blocks, me, profiles[k].userId) ==>
              exists e :: e in r && e.userId == profiles[k].userId && e.fullName == profiles[k].fullName
  {
    var newestFirst := Sequences.SortDesc(EdgesOf(blocks, me), EdgeCreatedAt);
    var entries := Entries(profiles, newestFirst);
    var r := Sequences.SortDesc(entries, EntryCreatedAt);
    SameElements(entries, r);
    BlockedHasFirst(blocks, me);
    forall k | 0 <= k < |profiles| && Blocked(blocks, me, profiles[k].userId)
      ensures exists e :: e in r && e.userId == profiles[k].userId && e.fullName == profiles[k].fullName
    {
      var e := BlockedEntry(profiles[k].userId, profiles[k].fullName,
                            FirstFor(newestFirst, profiles[k].userId).value.createdAt);
      assert e in entries;
    }
    r
  }

  /** Two sequences with the same multiset have the same elements. */
  lemma SameElements<T>(a: seq<T>, b: seq<T>)
    requires multiset(a) == multiset(b)
    ensures forall x :: x in a <==> x in b
  {
    forall x ensures x in a <==> x in b {
      assert x in a <==> x in multiset(a);
      assert x in b <==> x in multiset(b);
    }
  }

  /** Every user `me` blocked has a block in the newest-first list. */
  lemma BlockedHasFirst(blocks: seq<BlockEdge>, me: Id)
    ensures forall u :: Blocked(blocks, me, u) ==>
              FirstFor(Sequences.SortDesc(EdgesOf(blocks, me), EdgeCreatedAt), u).Some?
  {
    var newestFirst := Sequences.SortDesc(EdgesOf(blocks, me), EdgeCreatedAt);
    SameElements(EdgesOf(blocks, me), newestFirst);
    forall u | Blocked(blocks, me, u) ensures FirstFor(newestFirst, u).Some? {
      var i :| 0 <= i < |blocks| && blocks[i].blockerId == me && blocks[i].blockedId == u;
      assert blocks[i] in newestFirst;
    }
  }

  /** Every row of the blocked list is a blocked user with a profile, dated by
      the newest block. */
  lemma BlockedListRows(blocks: seq<BlockEdge>, profiles: seq<Profile>, me: Id)
    ensures forall e :: e in BlockedList(blocks, profiles, me) ==>
              && Blocked(blocks, me, e.userId) && HasProfile(profiles, e.userId)
              && forall k :: 0 <= k < |blocks| && blocks[k].blockerId == me && blocks[k].blockedId == e.userId ==>
                   blocks[k].createdAt <= e.createdAt
  {
    forall e | e in BlockedList(blocks, profiles, me)
      ensures && Blocked(blocks, me, e.userId) && HasProfile(profiles, e.userId)
              && forall k :: 0 <= k < |blocks| && blocks[k].blockerId == me && blocks[k].blockedId == e.userId ==>
                   blocks[k].createdAt <= e.createdAt
    {
      EntryFacts(blocks, profiles, me, e);
    }
  }
}
