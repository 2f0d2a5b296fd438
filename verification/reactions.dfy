/** Reactions on posts, comments and stories: the toggle that adds, changes
    or removes a user's one reaction on a target, the paged list of
    reactions, the per-type totals, and the three request schemas. */
module Reactions {
  import opened Wrappers
  import opened Users
  import opened Zod
  import Text
  import Sequences
  import Paging
  import Posts

  datatype ReactionType = Love | Haha | Sad | Care | Dog | Faltu | Dong | Shoe

  function TypeName(t: ReactionType): string
  {
    match t
    case Love => "love"
    case Haha => "haha"
    case Sad => "sad"
    case Care => "care"
    case Dog => "dog"
    case Faltu => "faltu"
    case Dong => "dong"
    case Shoe => "shoe"
  }

  /** The reaction types in declaration order. */
  const AllTypes: seq<ReactionType> := [Love, Haha, Sad, Care, Dog, Faltu, Dong, Shoe]

  /** The type a name spells, if any. */
  function ParseType(s: string): (r: Option<ReactionType>)
    ensures r.Some? ==> TypeName(r.value) == s
    ensures r.None? ==> forall t: ReactionType :: TypeName(t) != s
  {
    if s == "love" then Some(Love) else if s == "haha" then Some(Haha)
    else if s == "sad" then Some(Sad) else if s == "care" then Some(Care)
    else if s == "dog" then Some(Dog) else if s == "faltu" then Some(Faltu)
    else if s == "dong" then Some(Dong) else if s == "shoe" then Some(Shoe)
    else None
  }

  lemma ParseTypeName(t: ReactionType)
    ensures ParseType(TypeName(t)) == Some(t)
  {
  }

  datatype TargetType = PostTarget | CommentTarget | StoryTarget

  function TargetName(t: TargetType): string
  {
    match t
    case PostTarget => "post"
    case CommentTarget => "comment"
    case StoryTarget => "story"
  }

  function ParseTarget(s: string): (r: Option<TargetType>)
    ensures r.Some? ==> TargetName(r.value) == s
    ensures r.None? ==> forall t: TargetType :: TargetName(t) != s
  {
    if s == "post" then Some(PostTarget) else if s == "comment" then Some(CommentTarget)
    else if s == "story" then Some(StoryTarget) else None
  }

  datatype Reaction = Reaction(id: Id, userId: Id, targetType: TargetType, targetId: Id, rtype: ReactionType, createdAt: int)

  predicate OnKey(r: Reaction, me: Id, tt: TargetType, tid: Id)
  {
    r.userId == me && r.targetType == tt && r.targetId == tid
  }

  /** `Reaction.findOne({ userId, targetType, targetId })`. */
  function FindReaction(reactions: seq<Reaction>, me: Id, tt: TargetType, tid: Id): (k: Option<nat>)
    ensures k.Some? ==> k.value < |reactions| && OnKey(reactions[k.value], me, tt, tid)
    ensures k.Some? ==> forall j :: 0 <= j < k.value ==> !OnKey(reactions[j], me, tt, tid)
    ensures k.None? <==> forall j :: 0 <= j < |reactions| ==> !OnKey(reactions[j], me, tt, tid)
  {
    if |reactions| == 0 then None
    else if OnKey(reactions[0], me, tt, tid) then Some(0)
    else
      var k := FindReaction(reactions[1..], me, tt, tid);
      assert forall j :: 0 < j < |reactions| ==> reactions[j] == reactions[1..][j - 1];
      if k.Some? then Some(k.value + 1) else None
  }

  function NotReactedMessage(tt: TargetType): string
  {
    "You haven't reacted to this " + TargetName(tt) + " yet. Please react first"
  }

  function AlreadyReactedMessage(t: ReactionType, tt: TargetType): string
  {
    "You have already reacted " + TypeName(t) + " to this " + TargetName(tt) + "."
  }

  function RemovedMessage(tt: TargetType): string
  {
    "Your reaction has been removed from this " + TargetName(tt) + "."
  }

  function ReactedMessage(t: ReactionType, tt: TargetType): string
  {
    "You have reacted " + TypeName(t) + " to this " + TargetName(tt) + "."
  }

  /** `toggleReaction`. Only a post target is checked for existence (404).
      With no reaction yet, a missing type is refused (400) and a type adds
      one reaction. With a reaction, the same type changes nothing, no type
      removes it, and another type replaces its type. */
  function Toggle(posts: seq<Posts.Post>, reactions: seq<Reaction>, me: Id, tt: TargetType, tid: Id,
                  t: Option<ReactionType>, id: Id, now: int): (r: Result<(seq<Reaction>, string)>)
    ensures tt == PostTarget && Posts.FindPost(posts, tid).None? ==> r == Err(Error(NotFound, Posts.PostMissingMessage))
    ensures r.Err? ==> (tt == PostTarget && Posts.FindPost(posts, tid).None?)
                       || (FindReaction(reactions, me, tt, tid).None? && t.None?)
    ensures !(tt == PostTarget && Posts.FindPost(posts, tid).None?) ==>
              var k := FindReaction(reactions, me, tt, tid);
              && (k.None? && t.None? ==> r == Err(Error(BadRequest, NotReactedMessage(tt))))
              && (k.None? && t.Some? ==>
                    r == Ok((reactions + [Reaction(id, me, tt, tid, t.value, now)], ReactedMessage(t.value, tt))))
              && (k.Some? && t.Some? && reactions[k.value].rtype == t.value ==>
                    r == Ok((reactions, AlreadyReactedMessage(t.value, tt))))
              && (k.Some? && t.None? ==>
                    r == Ok((reactions[..k.value] + reactions[k.value + 1..], RemovedMessage(tt))))
              && (k.Some? && t.Some? && reactions[k.value].rtype != t.value ==>
                    r == Ok((reactions[k.value := reactions[k.value].(rtype := t.value)], ReactedMessage(t.value, tt))))
  {
    if tt == PostTarget && Posts.FindPost(posts, tid).None? then Err(Error(NotFound, Posts.PostMissingMessage))
    else
      match FindReaction(reactions, me, tt, tid)
      case None =>
        if t.None? then Err(Error(BadRequest, NotReactedMessage(tt)))
        else Ok((reactions + [Reaction(id, me, tt, tid, t.value, now)], ReactedMessage(t.value, tt)))
      case Some(k) =>
        if t.Some? && reactions[k].rtype == t.value then Ok((reactions, AlreadyReactedMessage(t.value, tt)))
        else if t.None? then Ok((reactions[..k] + reactions[k + 1..], RemovedMessage(tt)))
        else Ok((reactions[k := reactions[k].(rtype := t.value)], ReactedMessage(t.value, tt)))
  }

  /** The store property the upsert keeps: one reaction per user and target. */
  predicate OnePerKey(reactions: seq<Reaction>)
  {
    forall i, j :: 0 <= i < j < |reactions| ==>
      !OnKey(reactions[j], reactions[i].userId, reactions[i].targetType, reactions[i].targetId)
  }

  lemma ToggleKeepsOnePerKey(posts: seq<Posts.Post>, reactions: seq<Reaction>, me: Id, tt: TargetType, tid: Id,
                             t: Option<ReactionType>, id: Id, now: int)
    requires OnePerKey(reactions)
    requires Toggle(posts, reactions, me, tt, tid, t, id, now).Ok?
    ensures OnePerKey(Toggle(posts, reactions, me, tt, tid, t, id, now).value.0)
  {
    var after := Toggle(posts, reactions, me, tt, tid, t, id, now).value.0;
    var k := FindReaction(reactions, me, tt, tid);
    if k.None? {
      if t.Some? {
        assert forall j :: 0 <= j < |reactions| ==> after[j] == reactions[j];
      }
    } else if t.None? {
      var n := k.value;
      assert forall j :: 0 <= j < |after| ==> after[j] == if j < n then reactions[j] else reactions[j + 1];
      forall i, j | 0 <= i < j < |after|
        ensures !OnKey(after[j], after[i].userId, after[i].targetType, after[i].targetId)
      {
        var i', j' := if i < n then i else i + 1, if j < n then j else j + 1;
        assert after[i] == reactions[i'] && after[j] == reactions[j'] && i' < j';
      }
    } else {
      forall i, j | 0 <= i < j < |after|
        ensures !OnKey(after[j], after[i].userId, after[i].targetType, after[i].targetId)
      {
        assert OnKey(after[j], after[i].userId, after[i].targetType, after[i].targetId)
          <==> OnKey(reactions[j], reactions[i].userId, reactions[i].targetType, reactions[i].targetId);
      }
    }
  }

  /** Reacting where there was no reaction and then toggling off restores
      the store. */
  lemma ReactThenRemoveRestores(posts: seq<Posts.Post>, reactions: seq<Reaction>, me: Id, tt: TargetType, tid: Id,
                                t: ReactionType, id: Id, now: int, id2: Id, later: int)
    requires FindReaction(reactions, me, tt, tid).None?
    requires Toggle(posts, reactions, me, tt, tid, Some(t), id, now).Ok?
    ensures var after := Toggle(posts, reactions, me, tt, tid, Some(t), id, now).value.0;
      Toggle(posts, after, me, tt, tid, None, id2, later) == Ok((reactions, RemovedMessage(tt)))
  {
    var after := Toggle(posts, reactions, me, tt, tid, Some(t), id, now).value.0;
    AppendedIsFound(reactions, after, me, tt, tid);
    assert after[..|reactions|] + after[|reactions| + 1..] == reactions;
  }

  lemma AppendedIsFound(reactions: seq<Reaction>, after: seq<Reaction>, me: Id, tt: TargetType, tid: Id)
    requires FindReaction(reactions, me, tt, tid).None?
    requires |after| == |reactions| + 1 && after[..|reactions|] == reactions && OnKey(after[|reactions|], me, tt, tid)
    ensures FindReaction(after, me, tt, tid) == Some(|reactions|)
  {
    assert forall j :: 0 <= j < |reactions| ==> after[j] == reactions[j] && !OnKey(after[j], me, tt, tid);
  }

  /** Reacting twice with the same type: the second call reports it and
      changes nothing. */
  lemma SameReactionTwiceIsStable(posts: seq<Posts.Post>, reactions: seq<Reaction>, me: Id, tt: TargetType, tid: Id,
                                  t: ReactionType, id: Id, now: int, id2: Id, later: int)
    requires Toggle(posts, reactions, me, tt, tid, Some(t), id, now).Ok?
    ensures var after := Toggle(posts, reactions, me, tt, tid, Some(t), id, now).value.0;
      Toggle(posts, after, me, tt, tid, Some(t), id2, later) == Ok((after, AlreadyReactedMessage(t, tt)))
  {
    var after := Toggle(posts, reactions, me, tt, tid, Some(t), id, now).value.0;
    var k := FindReaction(reactions, me, tt, tid);
    if k.None? {
      AppendedIsFound(reactions, after, me, tt, tid);
    } else {
      assert forall j :: 0 <= j < |reactions| ==> OnKey(after[j], me, tt, tid) == OnKey(reactions[j], me, tt, tid);
      assert FindReaction(after, me, tt, tid) == k;
    }
  }

  // ---------------------------------------------------------------------------
  // Totals

  /** One entry of the totals: a type name (or "total") and its count. */
  datatype TypeCount = TypeCount(name: string, count: nat)

  function CountOf(t: TypeCount): int { t.count }

  predicate OnTarget(r: Reaction, tt: TargetType, tid: Id)
  {
    r.targetType == tt && r.targetId == tid
  }

  /** The reactions on a target with the given type. */
  function CountType(reactions: seq<Reaction>, tt: TargetType, tid: Id, t: ReactionType): (n: nat)
    ensures n <= |reactions|
  {
    if |reactions| == 0 then 0
    else (if OnTarget(reactions[0], tt, tid) && reactions[0].rtype == t then 1 else 0)
         + CountType(reactions[1..], tt, tid, t)
  }

  /** The reactions on a target. */
  function CountTarget(reactions: seq<Reaction>, tt: TargetType, tid: Id): (n: nat)
    ensures n <= |reactions|
  {
    if |reactions| == 0 then 0
    else (if OnTarget(reactions[0], tt, tid) then 1 else 0) + CountTarget(reactions[1..], tt, tid)
  }

  /** The `$group` stage: one entry per type that occurs, in the order of
      `types`. */
  function Groups(reactions: seq<Reaction>, tt: TargetType, tid: Id, types: seq<ReactionType>): (r: seq<TypeCount>)
    ensures |r| <= |types|
    ensures forall g :: g in r ==> g.count > 0 && exists t :: t in types && g == TypeCount(TypeName(t), CountType(reactions, tt, tid, t))
    ensures forall t :: t in types && CountType(reactions, tt, tid, t) > 0 ==> TypeCount(TypeName(t), CountType(reactions, tt, tid, t)) in r
  {
    if |types| == 0 then []
    else
      var n := CountType(reactions, tt, tid, types[0]);
      (if n > 0 then [TypeCount(TypeName(types[0]), n)] else []) + Groups(reactions, tt, tid, types[1..])
  }

  function SumCounts(gs: seq<TypeCount>): int
  {
    if |gs| == 0 then 0 else gs[0].count + SumCounts(gs[1..])
  }

  /** The per-type counts add up to the target's count. */
  lemma {:induction false} TypeCountsAddUp(reactions: seq<Reaction>, tt: TargetType, tid: Id)
    ensures SumCounts(Groups(reactions, tt, tid, AllTypes)) == CountTarget(reactions, tt, tid)
  {
    SumGroups(reactions, tt, tid, AllTypes);
    SumOverAllTypes(reactions, tt, tid);
  }

  function SumTypes(reactions: seq<Reaction>, tt: TargetType, tid: Id, types: seq<ReactionType>): int
  {
    if |types| == 0 then 0 else CountType(reactions, tt, tid, types[0]) + SumTypes(reactions, tt, tid, types[1..])
  }

  lemma {:induction false} SumGroups(reactions: seq<Reaction>, tt: TargetType, tid: Id, types: seq<ReactionType>)
    ensures SumCounts(Groups(reactions, tt, tid, types)) == SumTypes(reactions, tt, tid, types)
  {
    if |types| > 0 {
      SumGroups(reactions, tt, tid, types[1..]);
      var n := CountType(reactions, tt, tid, types[0]);
      var rest := Groups(reactions, tt, tid, types[1..]);
      var g := Groups(reactions, tt, tid, types);
      if n > 0 {
        assert g == [TypeCount(TypeName(types[0]), n)] + rest;
        assert g[0].count == n && g[1..] == rest;
      } else {
        assert g == rest;
      }
    }
  }

  /** How often `t` occurs in `types`. */
  function Occurrences(types: seq<ReactionType>, t: ReactionType): nat
  {
    if |types| == 0 then 0 else (if types[0] == t then 1 else 0) + Occurrences(types[1..], t)
  }

  /** Peeling the first reaction off a sum over types. */
  lemma {:induction false} SumTypesStep(reactions: seq<Reaction>, tt: TargetType, tid: Id, types: seq<ReactionType>)
    requires |reactions| > 0
    ensures SumTypes(reactions, tt, tid, types) ==
              (if OnTarget(reactions[0], tt, tid) then Occurrences(types, reactions[0].rtype) else 0)
              + SumTypes(reactions[1..], tt, tid, types)
  {
    if |types| > 0 {
      SumTypesStep(reactions, tt, tid, types[1..]);
    }
  }

  lemma {:induction false} SumTypesOfNothing(tt: TargetType, tid: Id, types: seq<ReactionType>)
    ensures SumTypes([], tt, tid, types) == 0
  {
    if |types| > 0 {
      SumTypesOfNothing(tt, tid, types[1..]);
    }
  }

  /** Every reaction type is listed exactly once. */
  lemma EachTypeOnce(t: ReactionType)
    ensures Occurrences(AllTypes, t) == 1
  {
    assert Sequences.NoDup(AllTypes);
    assert t in AllTypes by {
      match t
      case Love => assert AllTypes[0] == t;
      case Haha => assert AllTypes[1] == t;
      case Sad => assert AllTypes[2] == t;
      case Care => assert AllTypes[3] == t;
      case Dog => assert AllTypes[4] == t;
      case Faltu => assert AllTypes[5] == t;
      case Dong => assert AllTypes[6] == t;
      case Shoe => assert AllTypes[7] == t;
    }
    OccursOnce(AllTypes, t);
  }

  /** A value listed once in a list without repeats occurs once. */
  lemma {:induction false} OccursOnce(types: seq<ReactionType>, t: ReactionType)
    requires Sequences.NoDup(types) && t in types
    ensures Occurrences(types, t) == 1
  {
    if types[0] == t {
      assert forall k :: 0 <= k < |types[1..]| ==> types[1..][k] == types[k + 1];
      OccursNever(types[1..], t);
    } else {
      assert Sequences.NoDup(types[1..]) by {
        forall i, j | 0 <= i < j < |types[1..]| ensures types[1..][i] != types[1..][j] {
          assert types[1..][i] == types[i + 1] && types[1..][j] == types[j + 1];
        }
      }
      OccursOnce(types[1..], t);
    }
  }

  lemma {:induction false} OccursNever(types: seq<ReactionType>, t: ReactionType)
    requires t !in types
    ensures Occurrences(types, t) == 0
  {
    if |types| > 0 {
      OccursNever(types[1..], t);
    }
  }

  lemma {:induction false} SumOverAllTypes(reactions: seq<Reaction>, tt: TargetType, tid: Id)
    ensures SumTypes(reactions, tt, tid, AllTypes) == CountTarget(reactions, tt, tid)
  {
    forall t ensures Occurrences(AllTypes, t) == 1 { EachTypeOnce(t); }
    SumOverTypes(reactions, tt, tid, AllTypes);
  }

  /** Summing over a list that names every type once counts each reaction
      on the target once. */
  lemma {:induction false} SumOverTypes(reactions: seq<Reaction>, tt: TargetType, tid: Id, types: seq<ReactionType>)
    requires forall t :: Occurrences(types, t) == 1
    ensures SumTypes(reactions, tt, tid, types) == CountTarget(reactions, tt, tid)
  {
    if |reactions| == 0 {
      SumTypesOfNothing(tt, tid, types);
    } else {
      SumOverTypes(reactions[1..], tt, tid, types);
      SumTypesStep(reactions, tt, tid, types);
    }
  }

  /** `Occurrences` is the multiset count. */
  lemma {:induction false} OccurrencesCount(types: seq<ReactionType>, t: ReactionType)
    ensures Occurrences(types, t) == multiset(types)[t]
  {
    if |types| > 0 {
      assert types == [types[0]] + types[1..];
      OccurrencesCount(types[1..], t);
    }
  }

  /** Distinct types have distinct names, none of them "total". */
  lemma TypeNameInjective(a: ReactionType, b: ReactionType)
    ensures TypeName(a) == TypeName(b) ==> a == b
    ensures TypeName(a) != "total"
  {
    ParseTypeName(a);
    ParseTypeName(b);
  }

  /** Over a list of types without repeats, no group appears twice. */
  lemma {:induction false} GroupsNoDup(reactions: seq<Reaction>, tt: TargetType, tid: Id, types: seq<ReactionType>)
    requires Sequences.NoDup(types)
    ensures Sequences.NoDup(Groups(reactions, tt, tid, types))
  {
    if |types| > 0 {
      var rest := types[1..];
      Sequences.NoDupTail(types);
      GroupsNoDup(reactions, tt, tid, rest);
      var n := CountType(reactions, tt, tid, types[0]);
      var gs := Groups(reactions, tt, tid, rest);
      if n > 0 {
        var head := TypeCount(TypeName(types[0]), n);
        assert head !in gs by {
          if head in gs {
            var t :| t in rest && head == TypeCount(TypeName(t), CountType(reactions, tt, tid, t));
            TypeNameInjective(t, types[0]);
          }
        }
        Sequences.NoDupCons(head, gs);
      } else {
        assert Groups(reactions, tt, tid, types) == gs;
      }
    }
  }

  /** With the groups in any order of all the types, the per-type counts
      add up to the target's count. */
  lemma TotalsGroupsAddUp(reactions: seq<Reaction>, tt: TargetType, tid: Id, groupOrder: seq<ReactionType>)
    requires multiset(groupOrder) == multiset(AllTypes)
    ensures SumCounts(Groups(reactions, tt, tid, groupOrder)) == CountTarget(reactions, tt, tid)
  {
    forall t ensures Occurrences(groupOrder, t) == 1 {
      OccurrencesCount(groupOrder, t);
      OccurrencesCount(AllTypes, t);
      EachTypeOnce(t);
    }
    SumGroups(reactions, tt, tid, groupOrder);
    SumOverTypes(reactions, tt, tid, groupOrder);
  }

  /** Some order of all the types names each of them. */
  lemma TypeListed(groupOrder: seq<ReactionType>, t: ReactionType)
    requires multiset(groupOrder) == multiset(AllTypes)
    ensures t in groupOrder
  {
    EachTypeOnce(t);
    OccurrencesCount(AllTypes, t);
  }

  /** No group is named "total". */
  lemma TotalIsNoGroup(reactions: seq<Reaction>, tt: TargetType, tid: Id, types: seq<ReactionType>, n: nat)
    ensures TypeCount("total", n) !in Groups(reactions, tt, tid, types)
  {
    if TypeCount("total", n) in Groups(reactions, tt, tid, types) {
      var t :| t in types && TypeCount("total", n) == TypeCount(TypeName(t), CountType(reactions, tt, tid, t));
      TypeNameInjective(t, t);
    }
  }

  /** A list without repeats stays so with a new last element. */
  lemma NoDupSnoc(gs: seq<TypeCount>, x: TypeCount)
    requires Sequences.NoDup(gs) && x !in gs
    ensures Sequences.NoDup(gs + [x])
  {
    var all := gs + [x];
    forall i, j | 0 <= i < j < |all| ensures all[i] != all[j] {
      assert all[i] == gs[i];
      if j < |all| - 1 { assert all[j] == gs[j]; }
    }
  }

  /** The groups over some order of all the types, and the "total" entry,
      are all distinct. */
  lemma TotalsAllNoDup(reactions: seq<Reaction>, tt: TargetType, tid: Id, groupOrder: seq<ReactionType>)
    requires multiset(groupOrder) == multiset(AllTypes)
    ensures Sequences.NoDup(Groups(reactions, tt, tid, groupOrder) + [TypeCount("total", CountTarget(reactions, tt, tid))])
  {
    assert Sequences.NoDup(groupOrder) by {
      assert Sequences.NoDup(AllTypes);
      Sequences.NoDupOfPermutation(groupOrder, AllTypes);
    }
    GroupsNoDup(reactions, tt, tid, groupOrder);
    TotalIsNoGroup(reactions, tt, tid, groupOrder, CountTarget(reactions, tt, tid));
    NoDupSnoc(Groups(reactions, tt, tid, groupOrder), TypeCount("total", CountTarget(reactions, tt, tid)));
  }

  /** An entry of `gs` is in every rearrangement of `gs` with one more
      entry at the end. */
  lemma InRearranged(gs: seq<TypeCount>, y: TypeCount, r: seq<TypeCount>, x: TypeCount)
    requires x in gs && multiset(r) == multiset(gs + [y])
    ensures x in r
  {
    assert x in multiset(gs + [y]);
  }

  /** A type that occurs on the target has its group. */
  lemma GroupOfType(reactions: seq<Reaction>, tt: TargetType, tid: Id, groupOrder: seq<ReactionType>, t: ReactionType)
    requires multiset(groupOrder) == multiset(AllTypes) && CountType(reactions, tt, tid, t) > 0
    ensures TypeCount(TypeName(t), CountType(reactions, tt, tid, t)) in Groups(reactions, tt, tid, groupOrder)
  {
    TypeListed(groupOrder, t);
  }

  /** Every type that occurs on the target has its entry in a rearrangement
      of `all`. */
  lemma TotalsHoldEveryType(reactions: seq<Reaction>, tt: TargetType, tid: Id, groupOrder: seq<ReactionType>,
                            all: seq<TypeCount>, r: seq<TypeCount>)
    requires multiset(groupOrder) == multiset(AllTypes)
    requires all == Groups(reactions, tt, tid, groupOrder) + [TypeCount("total", CountTarget(reactions, tt, tid))]
    requires multiset(r) == multiset(all)
    ensures forall t :: CountType(reactions, tt, tid, t) > 0 ==> TypeCount(TypeName(t), CountType(reactions, tt, tid, t)) in r
  {
    var gs := Groups(reactions, tt, tid, groupOrder);
    forall t | CountType(reactions, tt, tid, t) > 0
      ensures TypeCount(TypeName(t), CountType(reactions, tt, tid, t)) in r
    {
      GroupOfType(reactions, tt, tid, groupOrder, t);
      InRearranged(gs, TypeCount("total", CountTarget(reactions, tt, tid)), r,
                   TypeCount(TypeName(t), CountType(reactions, tt, tid, t)));
    }
  }

  /** A rearrangement of `all` holds only the "total" entry and genuine
      groups. */
  lemma TotalsHoldOnlyEntries(reactions: seq<Reaction>, tt: TargetType, tid: Id, groupOrder: seq<ReactionType>,
                              all: seq<TypeCount>, r: seq<TypeCount>)
    requires all == Groups(reactions, tt, tid, groupOrder) + [TypeCount("total", CountTarget(reactions, tt, tid))]
    requires multiset(r) == multiset(all)
    ensures forall g :: g in r ==> g == TypeCount("total", CountTarget(reactions, tt, tid))
                                   || (g.count > 0 && exists t :: g == TypeCount(TypeName(t), CountType(reactions, tt, tid, t)))
  {
    forall g | g in r
      ensures g == TypeCount("total", CountTarget(reactions, tt, tid))
              || (g.count > 0 && exists t :: g == TypeCount(TypeName(t), CountType(reactions, tt, tid, t)))
    {
      assert g in multiset(all);
    }
  }

  /** The `grouped` list of `getTotalReactions`: the per-type counts plus a
      "total" entry, stably sorted by count, largest first. `groupOrder` is
      the order the store emits the groups in, which it does not fix: some
      order of all the types. */
  function Totals(reactions: seq<Reaction>, tt: TargetType, tid: Id, groupOrder: seq<ReactionType>): (r: seq<TypeCount>)
    requires multiset(groupOrder) == multiset(AllTypes)
    ensures Sequences.SortedDesc(r, CountOf)
    ensures multiset(r) == multiset(Groups(reactions, tt, tid, groupOrder) + [TypeCount("total", CountTarget(reactions, tt, tid))])
    ensures TypeCount("total", CountTarget(reactions, tt, tid)) in r
    ensures Sequences.NoDup(r)
    ensures forall t :: CountType(reactions, tt, tid, t) > 0 ==> TypeCount(TypeName(t), CountType(reactions, tt, tid, t)) in r
    ensures forall g :: g in r ==> g == TypeCount("total", CountTarget(reactions, tt, tid))
                                   || (g.count > 0 && exists t :: g == TypeCount(TypeName(t), CountType(reactions, tt, tid, t)))
  {
    var all := Groups(reactions, tt, tid, groupOrder) + [TypeCount("total", CountTarget(reactions, tt, tid))];
    var r := Sequences.SortDesc(all, CountOf);
    assert all[|all| - 1] in multiset(all);
    TotalsAllNoDup(reactions, tt, tid, groupOrder);
    Sequences.NoDupOfPermutation(r, all);
    TotalsHoldEveryType(reactions, tt, tid, groupOrder, all, r);
    TotalsHoldOnlyEntries(reactions, tt, tid, groupOrder, all, r);
    r
  }

  /** Each type's count is at most the total, so the first entry always
      carries the total count. */
  lemma TotalsLeadWithTotal(reactions: seq<Reaction>, tt: TargetType, tid: Id, groupOrder: seq<ReactionType>)
    requires multiset(groupOrder) == multiset(AllTypes)
    ensures |Totals(reactions, tt, tid, groupOrder)| >= 1
    ensures Totals(reactions, tt, tid, groupOrder)[0].count == CountTarget(reactions, tt, tid)
  {
    var r := Totals(reactions, tt, tid, groupOrder);
    var total := TypeCount("total", CountTarget(reactions, tt, tid));
    var gs := Groups(reactions, tt, tid, groupOrder);
    forall t ensures CountType(reactions, tt, tid, t) <= CountTarget(reactions, tt, tid) {
      TypeWithinTarget(reactions, tt, tid, t);
    }
    assert r[0] in multiset(r);
    assert r[0] in gs + [total];
    var j :| 0 <= j < |r| && r[j] == total;
    assert CountOf(r[0]) >= CountOf(r[j]);
  }

  lemma {:induction false} TypeWithinTarget(reactions: seq<Reaction>, tt: TargetType, tid: Id, t: ReactionType)
    ensures CountType(reactions, tt, tid, t) <= CountTarget(reactions, tt, tid)
  {
    if |reactions| > 0 {
      TypeWithinTarget(reactions[1..], tt, tid, t);
    }
  }

  /** A stored profile document: its own `_id` beside the profile. */
  datatype ProfileDoc = ProfileDoc(id: Id, profile: Profile)

  /** The newest reaction on the target (`$sort: { createdAt: -1 }`,
      `$limit: 1`); among reactions made at the same time, the first in
      store order. */
  function Newest(reactions: seq<Reaction>, tt: TargetType, tid: Id): (r: Option<Reaction>)
    ensures r.Some? <==> exists k :: 0 <= k < |reactions| && OnTarget(reactions[k], tt, tid)
    ensures r.Some? ==> r.value in reactions && OnTarget(r.value, tt, tid)
    ensures r.Some? ==> forall k :: 0 <= k < |reactions| && OnTarget(reactions[k], tt, tid) ==>
                          reactions[k].createdAt <= r.value.createdAt
  {
    if |reactions| == 0 then None
    else
      var rest := Newest(reactions[1..], tt, tid);
      assert forall k :: 0 < k < |reactions| ==> reactions[k] == reactions[1..][k - 1];
      if OnTarget(reactions[0], tt, tid) && (rest.None? || rest.value.createdAt <= reactions[0].createdAt) then
        Some(reactions[0])
      else rest
  }

  /** The `fullName` of `getTotalReactions`, as written: the newest
      reaction's `userId` is joined against the profiles' own `_id`
      (`localField: 'userId'`, `foreignField: '_id'`); `$unwind` drops the
      reaction when nothing matches, and the first joined profile names it. */
  function LastNameAsWritten(reactions: seq<Reaction>, docs: seq<ProfileDoc>, tt: TargetType, tid: Id): (r: Option<string>)
    ensures r.Some? <==> Newest(reactions, tt, tid).Some?
                         && exists k :: 0 <= k < |docs| && docs[k].id == Newest(reactions, tt, tid).value.userId
    ensures r.Some? ==> exists k :: 0 <= k < |docs| && docs[k].id == Newest(reactions, tt, tid).value.userId
                                    && docs[k].profile.fullName == r.value
  {
    match Newest(reactions, tt, tid)
    case None => None
    case Some(x) =>
      var k := Sequences.FirstIndex(docs, (d: ProfileDoc) => d.id == x.userId);
      if k.Some? then Some(docs[k.value].profile.fullName) else None
  }

  /** The intended join, on the profile's `userId`: the name of the newest
      reactor's first profile. */
  function LastName(reactions: seq<Reaction>, docs: seq<ProfileDoc>, tt: TargetType, tid: Id): (r: Option<string>)
    ensures r.Some? <==> Newest(reactions, tt, tid).Some?
                         && exists k :: 0 <= k < |docs| && docs[k].profile.userId == Newest(reactions, tt, tid).value.userId
    ensures r.Some? ==> exists k :: 0 <= k < |docs| && docs[k].profile.userId == Newest(reactions, tt, tid).value.userId
                                    && docs[k].profile.fullName == r.value
  {
    match Newest(reactions, tt, tid)
    case None => None
    case Some(x) =>
      var k := Sequences.FirstIndex(docs, (d: ProfileDoc) => d.profile.userId == x.userId);
      if k.Some? then Some(docs[k.value].profile.fullName) else None
  }

  /** Object ids are unique across collections, so no profile document has
      a reacting user's id as its own. The written join then never finds a
      profile and `fullName` is always absent, while the intended join names
      the newest reactor whenever they have a profile. */
  lemma AsWrittenNameNeverFound(reactions: seq<Reaction>, docs: seq<ProfileDoc>, tt: TargetType, tid: Id)
    requires forall i, k :: 0 <= i < |docs| && 0 <= k < |reactions| ==> docs[i].id != reactions[k].userId
    ensures LastNameAsWritten(reactions, docs, tt, tid).None?
    ensures Newest(reactions, tt, tid).Some?
            && (exists k :: 0 <= k < |docs| && docs[k].profile.userId == Newest(reactions, tt, tid).value.userId)
            ==> LastName(reactions, docs, tt, tid).Some?
  {
    match Newest(reactions, tt, tid)
    case None =>
    case Some(x) =>
      var j :| 0 <= j < |reactions| && reactions[j] == x;
      assert forall i :: 0 <= i < |docs| ==> docs[i].id != reactions[j].userId;
  }

  /** What `getTotalReactions` answers. */
  datatype TotalsReply = TotalsReply(grouped: seq<TypeCount>, fullName: Option<string>, total: nat)

  /** `getTotalReactions`, as written. */
  function GetTotals(reactions: seq<Reaction>, docs: seq<ProfileDoc>, tt: TargetType, tid: Id,
                     groupOrder: seq<ReactionType>): (r: TotalsReply)
    requires multiset(groupOrder) == multiset(AllTypes)
    ensures |r.grouped| >= 1 && r.grouped[0].count == r.total
    ensures r.total == CountTarget(reactions, tt, tid)
    ensures r.grouped == Totals(reactions, tt, tid, groupOrder)
    ensures r.fullName == LastNameAsWritten(reactions, docs, tt, tid)
  {
    TotalsLeadWithTotal(reactions, tt, tid, groupOrder);
    TotalsReply(Totals(reactions, tt, tid, groupOrder), LastNameAsWritten(reactions, docs, tt, tid),
                CountTarget(reactions, tt, tid))
  }

  /** `getTotalReactions` with the intended profile join. */
  function GetTotalsIntended(reactions: seq<Reaction>, docs: seq<ProfileDoc>, tt: TargetType, tid: Id,
                             groupOrder: seq<ReactionType>): (r: TotalsReply)
    requires multiset(groupOrder) == multiset(AllTypes)
    ensures r.(fullName := None) == GetTotals(reactions, docs, tt, tid, groupOrder).(fullName := None)
    ensures r.fullName == LastName(reactions, docs, tt, tid)
  {
    GetTotals(reactions, docs, tt, tid, groupOrder).(fullName := LastName(reactions, docs, tt, tid))
  }

  // ---------------------------------------------------------------------------
  // Paged list

  /** One listed reaction with the reacting user's profile name. */
  datatype ReactionRow = ReactionRow(reactionId: Id, rtype: ReactionType, createdAt: int, userId: Id, fullName: string)

  function RowCreatedAt(r: ReactionRow): int { r.createdAt }

  /** A row `getReactions` counts: a reaction on the target, of the asked
      type if one is given, by an active user, with one of that user's
      profile names. */
  predicate ListedRow(reactions: seq<Reaction>, users: seq<User>, profiles: seq<Profile>, tt: TargetType, tid: Id,
                      t: Option<ReactionType>, row: ReactionRow)
  {
    exists k :: 0 <= k < |reactions| && OnTarget(reactions[k], tt, tid) && (t.None? || reactions[k].rtype == t.value)
      && row.reactionId == reactions[k].id && row.rtype == reactions[k].rtype && row.createdAt == reactions[k].createdAt
      && row.userId == reactions[k].userId
      && JoinedActive(users, row.userId) && Profile(row.userId, row.fullName) in profiles
  }

  function ProfileRows(x: Reaction, profiles: seq<Profile>): (r: seq<ReactionRow>)
    ensures forall row :: row in r <==> row.reactionId == x.id && row.rtype == x.rtype && row.createdAt == x.createdAt
                                        && row.userId == x.userId && Profile(x.userId, row.fullName) in profiles
  {
    if |profiles| == 0 then []
    else
      var rest := ProfileRows(x, profiles[1..]);
      assert forall p :: p in profiles <==> p == profiles[0] || p in profiles[1..];
      if profiles[0].userId == x.userId then [ReactionRow(x.id, x.rtype, x.createdAt, x.userId, profiles[0].fullName)] + rest
      else rest
  }

  /** The rows before ordering and paging. */
  function ListRows(reactions: seq<Reaction>, users: seq<User>, profiles: seq<Profile>, tt: TargetType, tid: Id,
                    t: Option<ReactionType>): (r: seq<ReactionRow>)
    ensures forall row :: row in r <==> ListedRow(reactions, users, profiles, tt, tid, t, row)
  {
    if |reactions| == 0 then []
    else
      var x := reactions[0];
      var rest := ListRows(reactions[1..], users, profiles, tt, tid, t);
      var mine := if OnTarget(x, tt, tid) && (t.None? || x.rtype == t.value) && JoinedActive(users, x.userId)
                  then ProfileRows(x, profiles) else [];
      forall row ensures ListedRow(reactions[1..], users, profiles, tt, tid, t, row) ==> ListedRow(reactions, users, profiles, tt, tid, t, row) {
        if ListedRow(reactions[1..], users, profiles, tt, tid, t, row) {
          var k :| 0 <= k < |reactions[1..]| && OnTarget(reactions[1..][k], tt, tid)
            && (t.None? || reactions[1..][k].rtype == t.value)
            && row.reactionId == reactions[1..][k].id && row.rtype == reactions[1..][k].rtype
            && row.createdAt == reactions[1..][k].createdAt && row.userId == reactions[1..][k].userId
            && JoinedActive(users, row.userId) && Profile(row.userId, row.fullName) in profiles;
          assert reactions[k + 1] == reactions[1..][k];
        }
      }
      forall row | ListedRow(reactions, users, profiles, tt, tid, t, row) ensures row in mine + rest {
        var k :| 0 <= k < |reactions| && OnTarget(reactions[k], tt, tid) && (t.None? || reactions[k].rtype == t.value)
          && row.reactionId == reactions[k].id && row.rtype == reactions[k].rtype && row.createdAt == reactions[k].createdAt
          && row.userId == reactions[k].userId
          && JoinedActive(users, row.userId) && Profile(row.userId, row.fullName) in profiles;
        if k > 0 {
          assert ListedRow(reactions[1..], users, profiles, tt, tid, t, row) by {
            assert reactions[1..][k - 1] == reactions[k];
          }
        }
      }
      mine + rest
  }

  /** `getReactions`: ordered by creation time in the query's direction,
      windowed, and guarded like the friend lists. */
  function GetReactions(reactions: seq<Reaction>, users: seq<User>, profiles: seq<Profile>, tt: TargetType, tid: Id,
                        t: Option<ReactionType>, q: Paging.PageQuery): (r: Result<(seq<ReactionRow>, Paging.PageMeta)>)
    requires Paging.WellFormed(q)
    ensures var total := |ListRows(reactions, users, profiles, tt, tid, t)|;
      r.Ok? <==> q.page == 1 || (q.page - 1) * q.limit < total
    ensures r.Err? ==> r.error.status == NotFound
    ensures r.Ok? ==> && r.value.1.totalItems == |ListRows(reactions, users, profiles, tt, tid, t)|
                      && |r.value.0| <= q.limit
                      && forall row :: row in r.value.0 ==> ListedRow(reactions, users, profiles, tt, tid, t, row)
    ensures r.Ok? ==> var rows := ListRows(reactions, users, profiles, tt, tid, t);
      && r.value.0 == Paging.Window(Paging.SortBy(rows, RowCreatedAt, q.sort), q.page, q.limit)
      && r.value.1.totalPages == Paging.CeilDiv(|rows|, q.limit)
  {
    Paging.ListPage(ListRows(reactions, users, profiles, tt, tid, t), RowCreatedAt, q)
  }

  // ---------------------------------------------------------------------------
  // Request schemas

  const TargetTypeMessage: string := "Target type must be one of: post, comment, story"
  const ReactionTypeMessage: string := "Reaction type must be one of: love, haha, sad, care, dog, faltu, dong, shoe"
  const TargetIdRequired: string := "Target ID is required"
  const InvalidIdMessage: string := "Invalid mongo object ID format"

  function TargetTypeIssues(raw: map<string, string>): (r: seq<Issue>)
    ensures r == [] <==> "targetType" in raw && ParseTarget(raw["targetType"]).Some?
    ensures |r| <= 1 && forall k :: 0 <= k < |r| ==> r[k].message == TargetTypeMessage && r[k].path == [Key("targetType")]
  {
    if "targetType" !in raw then [Issue(InvalidType, [Key("targetType")], TargetTypeMessage)]
    else if ParseTarget(raw["targetType"]).None? then [Issue(InvalidEnumValue, [Key("targetType")], TargetTypeMessage)]
    else []
  }

  function TargetIdIssues(raw: map<string, string>, validId: string -> bool): (r: seq<Issue>)
    ensures r == [] <==> "targetId" in raw && validId(raw["targetId"])
    ensures |r| <= 1 && forall k :: 0 <= k < |r| ==> r[k].path == [Key("targetId")]
    ensures "targetId" !in raw ==> r == [Issue(InvalidType, [Key("targetId")], TargetIdRequired)]
  {
    if "targetId" !in raw then [Issue(InvalidType, [Key("targetId")], TargetIdRequired)]
    else FieldIssue(validId(raw["targetId"]), "targetId", InvalidIdMessage)
  }

  function TypeIssues(raw: map<string, string>): (r: seq<Issue>)
    ensures r == [] <==> "type" !in raw || ParseType(raw["type"]).Some?
    ensures |r| <= 1 && forall k :: 0 <= k < |r| ==> r[k].message == ReactionTypeMessage && r[k].path == [Key("type")]
  {
    if "type" in raw && ParseType(raw["type"]).None? then [Issue(InvalidEnumValue, [Key("type")], ReactionTypeMessage)] else []
  }

  function OptionalType(raw: map<string, string>): (t: Option<ReactionType>)
    requires "type" !in raw || ParseType(raw["type"]).Some?
    ensures t.Some? <==> "type" in raw
    ensures t.Some? ==> TypeName(t.value) == raw["type"]
  {
    if "type" in raw then ParseType(raw["type"]) else None
  }

  /** A parsed toggle request; the target id stays the string given. */
  datatype ToggleRequest = ToggleRequest(targetType: TargetType, targetId: string, rtype: Option<ReactionType>)

  /** `createReactionSchema`. Object-id syntax is the parameter `validId`. */
  function ParseToggle(raw: map<string, string>, validId: string -> bool): (r: Parsed<ToggleRequest>)
    ensures r.Valid? <==> && "targetType" in raw && ParseTarget(raw["targetType"]).Some?
                          && "targetId" in raw && validId(raw["targetId"])
                          && ("type" !in raw || ParseType(raw["type"]).Some?)
    ensures r.Valid? ==> && TargetName(r.value.targetType) == raw["targetType"]
                         && r.value.targetId == raw["targetId"]
                         && (r.value.rtype.Some? <==> "type" in raw)
                         && (r.value.rtype.Some? ==> TypeName(r.value.rtype.value) == raw["type"])
    ensures r.Invalid? ==> 1 <= |r.issues| <= 3
  {
    var issues := TargetTypeIssues(raw) + TargetIdIssues(raw, validId) + TypeIssues(raw);
    if issues != [] then Invalid(issues)
    else Valid(ToggleRequest(ParseTarget(raw["targetType"]).value, raw["targetId"], OptionalType(raw)))
  }

  function Get(raw: map<string, string>, key: string): Option<string>
  {
    if key in raw then Some(raw[key]) else None
  }

  /** A parsed list request. */
  datatype ListRequest = ListRequest(targetType: TargetType, targetId: string, page: Paging.PageQuery, rtype: Option<ReactionType>)

  /** `getReactionQuerySchema`: the target fields, the friend-list paging
      fields with their defaults, and the optional type. */
  function ParseListQuery(raw: map<string, string>, validId: string -> bool): (r: Parsed<ListRequest>)
    ensures var paging := Paging.ParsePageQuery(Get(raw, "page"), Get(raw, "limit"), Get(raw, "sort"));
      r.Valid? <==> && "targetType" in raw && ParseTarget(raw["targetType"]).Some?
                    && "targetId" in raw && validId(raw["targetId"])
                    && paging.Valid?
                    && ("type" !in raw || ParseType(raw["type"]).Some?)
    ensures r.Valid? ==> Paging.ParsePageQuery(Get(raw, "page"), Get(raw, "limit"), Get(raw, "sort")) == Zod.Valid(r.value.page)
    ensures r.Valid? ==> Paging.WellFormed(r.value.page)
  {
    var paging := Paging.ParsePageQuery(Get(raw, "page"), Get(raw, "limit"), Get(raw, "sort"));
    var pagingIssues := if paging.Invalid? then paging.issues else [];
    var issues := TargetTypeIssues(raw) + TargetIdIssues(raw, validId) + pagingIssues + TypeIssues(raw);
    if issues != [] then
      assert paging.Invalid? ==> |paging.issues| >= 1;
      Invalid(issues)
    else Valid(ListRequest(ParseTarget(raw["targetType"]).value, raw["targetId"], paging.value, OptionalType(raw)))
  }

  /** `countsReactionsQuerySchema`: the list schema cut down to the target
      fields; every other key is dropped unread. */
  function ParseCountsQuery(raw: map<string, string>, validId: string -> bool): (r: Parsed<(TargetType, string)>)
    ensures r.Valid? <==> && "targetType" in raw && ParseTarget(raw["targetType"]).Some?
                          && "targetId" in raw && validId(raw["targetId"])
    ensures r.Valid? ==> TargetName(r.value.0) == raw["targetType"] && r.value.1 == raw["targetId"]
  {
    var issues := TargetTypeIssues(raw) + TargetIdIssues(raw, validId);
    if issues != [] then Invalid(issues)
    else Valid((ParseTarget(raw["targetType"]).value, raw["targetId"]))
  }

  /** Keys other than the two target fields do not affect the counts query. */
  lemma CountsQueryIgnoresOtherKeys(raw: map<string, string>, validId: string -> bool, key: string, value: string)
    requires key != "targetType" && key != "targetId"
    ensures ParseCountsQuery(raw[key := value], validId) == ParseCountsQuery(raw, validId)
  {
    var raw' := raw[key := value];
    assert TargetTypeIssues(raw') == TargetTypeIssues(raw);
    assert TargetIdIssues(raw', validId) == TargetIdIssues(raw, validId);
  }
}
