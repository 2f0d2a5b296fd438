/** The account lifecycle: the status transitions the user service performs
    (suspend, restore, deactivate, soft delete, reactivate) and the nightly
    purge that turns old soft deletions into permanent ones. Every update
    the services make goes through a `find*` query, so the query hook keeps
    permanently deleted users out of reach; the purge's `updateMany` is the
    one write that bypasses it. */
module Accounts {
  import opened Wrappers
  import opened Users

  const UserMissingMessage: string := "The user is not found"
  const AlreadySuspendedMessage: string := "The user is already suspended"
  const AdminSuspendMessage: string := "You can't suspend an admin"
  const NotSuspendedMessage: string := "The user is not suspended"
  const IdentifierMissingMessage: string := "Invalid username or email."
  const WrongPasswordMessage: string := "Password is incorrect!"

  /** Soft-deleted accounts are kept for thirty days. */
  const PurgeAfterMs: int := 30 * 24 * 60 * 60 * 1000

  /** `findOneAndUpdate(key, …)` and `findByIdAndUpdate`: `f` applied to the
      first user the key finds, everyone else untouched. */
  function UpdateFirst(users: seq<User>, key: Key, f: User -> User): (r: seq<User>)
    ensures |r| == |users|
    ensures Find(users, key).None? ==> r == users
    ensures Find(users, key).Some? ==> r == users[Find(users, key).value := f(users[Find(users, key).value])]
  {
    match Find(users, key)
    case None => users
    case Some(k) => users[k := f(users[k])]
  }

  /** `getUserByIdFromDB`. */
  function GetUser(users: seq<User>, id: Id): (r: Result<User>)
    ensures r.Err? <==> !Exists(users, ById(id))
    ensures r.Err? ==> r.error == Error(NotFound, UserMissingMessage)
    ensures r.Ok? ==> r.value in users && r.value.id == id && r.value.status != PermanentDeleted
  {
    match Lookup(users, ById(id))
    case None => Err(Error(NotFound, UserMissingMessage))
    case Some(u) => Ok(u)
  }

  /** `deactivateUserIntoDB`: the caller's account becomes deactivated; the
      updated record, or nothing when the caller cannot be found. */
  function Deactivate(users: seq<User>, me: Id): (r: (seq<User>, Option<User>))
    ensures r.1.None? <==> !Exists(users, ById(me))
    ensures r.1.None? ==> r.0 == users
    ensures r.1.Some? ==> var k := Find(users, ById(me)).value;
              && r.1.value == users[k].(status := Deactivated)
              && r.0 == users[k := r.1.value]
  {
    var after := UpdateFirst(users, ById(me), (u: User) => u.(status := Deactivated));
    match Find(users, ById(me))
    case None => (after, None)
    case Some(k) => (after, Some(after[k]))
  }

  /** `softDeleteUserIntoDB`: the caller's account becomes soft-deleted,
      stamped with the deletion time. */
  function SoftDelete(users: seq<User>, me: Id, now: int): (r: (seq<User>, Option<User>))
    ensures r.1.None? <==> !Exists(users, ById(me))
    ensures r.1.None? ==> r.0 == users
    ensures r.1.Some? ==> var k := Find(users, ById(me)).value;
              && r.1.value == users[k].(status := SoftDeleted, deletedAt := Some(now))
              && r.0 == users[k := r.1.value]
  {
    var after := UpdateFirst(users, ById(me), (u: User) => u.(status := SoftDeleted, deletedAt := Some(now)));
    match Find(users, ById(me))
    case None => (after, None)
    case Some(k) => (after, Some(after[k]))
  }

  /** `reactiveUserIntoDB`: the identifier must name a user by email or
      username (404) whose password matches (400); that user then becomes
      active with no deletion time, whatever its status was, suspended
      included. `passwordMatches` stands for the bcrypt comparison. */
  function Reactivate(users: seq<User>, identifier: string, password: string, passwordMatches: (string, string) -> bool)
    : (r: Result<seq<User>>)
    ensures r.Err? && !Exists(users, ByIdentifier(identifier)) ==> r.error == Error(NotFound, IdentifierMissingMessage)
    ensures r.Ok? <==> Exists(users, ByIdentifier(identifier))
                       && passwordMatches(password, Lookup(users, ByIdentifier(identifier)).value.passwordHash)
    ensures r.Err? && Exists(users, ByIdentifier(identifier)) ==> r.error == Error(BadRequest, WrongPasswordMessage)
    ensures r.Ok? ==> var k := Find(users, ByIdentifier(identifier)).value;
              r.value == users[k := users[k].(status := Active, deletedAt := None)]
  {
    match Lookup(users, ByIdentifier(identifier))
    case None => Err(Error(NotFound, IdentifierMissingMessage))
    case Some(u) =>
      if !passwordMatches(password, u.passwordHash) then Err(Error(BadRequest, WrongPasswordMessage))
      else Ok(UpdateFirst(users, ByIdentifier(identifier), (v: User) => v.(status := Active, deletedAt := None)))
  }

  /** `suspendUserIntoDB`: 404 for an unknown user, 400 when already
      suspended, 403 for an admin or the super admin; otherwise suspended
      with the reason recorded. */
  function Suspend(users: seq<User>, id: Id, reason: string): (r: Result<(seq<User>, User)>)
    ensures !Exists(users, ById(id)) <==> r == Err(Error(NotFound, UserMissingMessage))
    ensures r.Ok? <==> Exists(users, ById(id)) && Lookup(users, ById(id)).value.status != Suspended
                       && Lookup(users, ById(id)).value.role == RoleUser
    ensures r.Err? && Exists(users, ById(id)) ==>
              r.error == if Lookup(users, ById(id)).value.status == Suspended then Error(BadRequest, AlreadySuspendedMessage)
                         else Error(Forbidden, AdminSuspendMessage)
    ensures r.Ok? ==> var k := Find(users, ById(id)).value;
              && r.value.1 == users[k].(status := Suspended, suspensionReason := reason)
              && r.value.0 == users[k := r.value.1]
  {
    match Find(users, ById(id))
    case None => Err(Error(NotFound, UserMissingMessage))
    case Some(k) =>
      var u := users[k];
      if u.status == Suspended then Err(Error(BadRequest, AlreadySuspendedMessage))
      else if u.role == Admin || u.role == SuperAdmin then Err(Error(Forbidden, AdminSuspendMessage))
      else
        assert Lookup(users, ById(id)) == Some(u) && u.role == RoleUser;
        var v := u.(status := Suspended, suspensionReason := reason);
        Ok((users[k := v], v))
  }

  /** `restoreSuspendUserIntoDB`: 404 for an unknown user and 400 for an
      active one; any other status, not only suspended, becomes active with
      the reason cleared. */
  function Restore(users: seq<User>, id: Id): (r: Result<(seq<User>, User)>)
    ensures !Exists(users, ById(id)) <==> r == Err(Error(NotFound, UserMissingMessage))
    ensures r.Ok? <==> Exists(users, ById(id)) && Lookup(users, ById(id)).value.status != Active
    ensures r.Err? && Exists(users, ById(id)) ==> r.error == Error(BadRequest, NotSuspendedMessage)
    ensures r.Ok? ==> var k := Find(users, ById(id)).value;
              && r.value.1 == users[k].(status := Active, suspensionReason := "")
              && r.value.0 == users[k := r.value.1]
  {
    match Find(users, ById(id))
    case None => Err(Error(NotFound, UserMissingMessage))
    case Some(k) =>
      var u := users[k];
      if u.status == Active then Err(Error(BadRequest, NotSuspendedMessage))
      else
        var v := u.(status := Active, suspensionReason := "");
        Ok((users[k := v], v))
  }

  // ---------------------------------------------------------------------------
  // The purge

  /** Whether the purge run at `now` takes this user: soft-deleted, with a
      deletion time strictly before thirty days ago. */
  predicate Due(u: User, now: int)
  {
    u.status == SoftDeleted && u.deletedAt.Some? && u.deletedAt.value < now - PurgeAfterMs
  }

  /** One run of the purge job at `now`: every due user becomes permanently
      deleted and nothing else about anyone changes. */
  function Purge(users: seq<User>, now: int): (r: seq<User>)
    ensures |r| == |users|
    ensures forall k :: 0 <= k < |users| ==> r[k] == if Due(users[k], now) then users[k].(status := PermanentDeleted) else users[k]
  {
    if |users| == 0 then []
    else [if Due(users[0], now) then users[0].(status := PermanentDeleted) else users[0]] + Purge(users[1..], now)
  }

  /** A second run at the same instant changes nothing. */
  lemma PurgeIdempotent(users: seq<User>, now: int)
    ensures Purge(Purge(users, now), now) == Purge(users, now)
  {
  }

  /** A deletion exactly thirty days old is not yet purged; a millisecond
      older is. */
  lemma PurgeBoundary(u: User, now: int)
    requires u.status == SoftDeleted && u.deletedAt == Some(now - PurgeAfterMs)
    ensures Purge([u], now) == [u]
    ensures Purge([u], now + 1) == [u.(status := PermanentDeleted)]
  {
  }

  /** Whoever is purged now is purged by any later run too. */
  lemma PurgeMonotone(u: User, now: int, later: int)
    requires now <= later && Due(u, now)
    ensures Due(u, later)
  {
  }

  /** After the purge a due user is beyond every lookup. */
  lemma PurgedUserIsGone(users: seq<User>, now: int, k: nat, key: Key)
    requires k < |users| && Due(users[k], now)
    ensures !Hit(Purge(users, now)[k], key)
  {
  }

  // ---------------------------------------------------------------------------
  // Lifecycle properties

  /** A permanently deleted account is final: no service operation changes
      its record, because every one of them finds users through the hook,
      and the purge only takes soft-deleted users. */
  lemma PermanentDeletedIsFinal(users: seq<User>, j: nat, me: Id, id: Id, identifier: string, password: string,
                                passwordMatches: (string, string) -> bool, reason: string, now: int)
    requires j < |users| && users[j].status == PermanentDeleted
    ensures Deactivate(users, me).0[j] == users[j]
    ensures SoftDelete(users, me, now).0[j] == users[j]
    ensures Reactivate(users, identifier, password, passwordMatches).Ok? ==>
              Reactivate(users, identifier, password, passwordMatches).value[j] == users[j]
    ensures Suspend(users, id, reason).Ok? ==> Suspend(users, id, reason).value.0[j] == users[j]
    ensures Restore(users, id).Ok? ==> Restore(users, id).value.0[j] == users[j]
    ensures Purge(users, now)[j] == users[j]
  {
    assert !Hit(users[j], ById(me)) && !Hit(users[j], ById(id)) && !Hit(users[j], ByIdentifier(identifier));
  }

  /** Suspending and then restoring gives back an active account with no
      reason, the rest of the record as it was. */
  lemma SuspendThenRestore(users: seq<User>, id: Id, reason: string)
    requires Suspend(users, id, reason).Ok?
    ensures var s := Suspend(users, id, reason).value.0;
      var k := Find(users, ById(id)).value;
      && Restore(s, id).Ok?
      && Restore(s, id).value.0 == users[k := users[k].(status := Active, suspensionReason := "")]
  {
    var k := Find(users, ById(id)).value;
    var s := Suspend(users, id, reason).value.0;
    assert Find(s, ById(id)) == Some(k) by {
      assert forall j :: 0 <= j < k ==> s[j] == users[j];
      assert Hit(s[k], ById(id));
    }
  }

  /** A soft deletion is undone by reactivating under an identifier that
      finds the same account: an account that was active with no deletion
      time gets its record back exactly. */
  lemma SoftDeleteThenReactivate(users: seq<User>, me: Id, now: int, identifier: string, password: string,
                                 passwordMatches: (string, string) -> bool)
    requires Exists(users, ById(me))
    requires var k := Find(users, ById(me)).value;
      && users[k].status == Active && users[k].deletedAt.None?
      && Find(SoftDelete(users, me, now).0, ByIdentifier(identifier)) == Some(k)
      && passwordMatches(password, users[k].passwordHash)
    ensures Reactivate(SoftDelete(users, me, now).0, identifier, password, passwordMatches) == Ok(users)
  {
    var k := Find(users, ById(me)).value;
    var s := SoftDelete(users, me, now).0;
    assert Lookup(s, ByIdentifier(identifier)) == Some(s[k]);
    assert s[k := s[k].(status := Active, deletedAt := None)] == users;
  }

  /** Restore and reactivation both end in an active account, whatever the
      status they start from: neither is limited to the status its name
      suggests. */
  lemma RestoreAndReactivateLiftAnyStatus(users: seq<User>, id: Id, identifier: string, password: string,
                                          passwordMatches: (string, string) -> bool)
    ensures Restore(users, id).Ok? ==> Restore(users, id).value.1.status == Active
    ensures Reactivate(users, identifier, password, passwordMatches).Ok? ==>
              var k := Find(users, ByIdentifier(identifier)).value;
              Reactivate(users, identifier, password, passwordMatches).value[k].status == Active
  {
  }
}
