/** The user and profile records every service reads, and the lookups the user
    model allows. A query middleware adds `status != permanentDeleted` to every
    `find*` on users, and a `findOne` without a sort returns the first match in
    the store's natural order. */
module Users {
  import opened Wrappers
  import Sequences

  /** Object ids: users, posts, requests and every other record share one id space. */
  type Id = nat

  datatype Role = RoleUser | Admin | SuperAdmin

  /** The role's stored name. */
  function RoleName(r: Role): (name: string)
    ensures name == "user" <==> r == RoleUser
    ensures name == "admin" <==> r == Admin
    ensures name == "superAdmin" <==> r == SuperAdmin
  {
    match r
    case RoleUser => "user"
    case Admin => "admin"
    case SuperAdmin => "superAdmin"
  }

  /** Distinct roles are stored under distinct names. */
  lemma RoleNameInjective(a: Role, b: Role)
    ensures RoleName(a) == RoleName(b) ==> a == b
  {
    match a
    case RoleUser =>
    case Admin =>
    case SuperAdmin =>
  }

  datatype UserStatus = Active | Deactivated | SoftDeleted | Suspended | PermanentDeleted

  datatype User = User(
    id: Id,
    username: string,
    email: string,
    passwordHash: string,
    isVerified: bool,
    role: Role,
    status: UserStatus,
    suspensionReason: string,
    badge: string,
    deletedAt: Option<int>,
    passwordChangeAt: int,
    lastLoginAt: int)

  datatype Profile = Profile(userId: Id, fullName: string)

  /** What a user query filters on. */
  datatype Key =
    | ById(id: Id)
    | ByEmail(email: string)
    | ByUsername(username: string)
    | ByIdentifier(identifier: string)     // `$or: [{email}, {username}]`
    | ByEmailRole(email: string, role: Role)

  predicate Matches(u: User, key: Key)
  {
    match key
    case ById(id) => u.id == id
    case ByEmail(e) => u.email == e
    case ByUsername(n) => u.username == n
    case ByIdentifier(x) => u.email == x || u.username == x
    case ByEmailRole(e, r) => u.email == e && u.role == r
  }

  /** A user a `find*` query can return. */
  predicate Findable(u: User)
  {
    u.status != PermanentDeleted
  }

  predicate Hit(u: User, key: Key)
  {
    Findable(u) && Matches(u, key)
  }

  function FindFrom(users: seq<User>, key: Key, start: nat): (r: Option<nat>)
    requires start <= |users|
    ensures r.Some? ==>
              && start <= r.value < |users| && Hit(users[r.value], key)
              && forall j :: start <= j < r.value ==> !Hit(users[j], key)
    ensures r.None? ==> forall j :: start <= j < |users| ==> !Hit(users[j], key)
    decreases |users| - start
  {
    if start == |users| then None
    else if Hit(users[start], key) then Some(start)
    else FindFrom(users, key, start + 1)
  }

  /** `User.findOne(key)`: the position of the first findable user matching
      `key`, or None when there is none. */
  function Find(users: seq<User>, key: Key): (r: Option<nat>)
    ensures r.Some? ==>
              && r.value < |users| && Hit(users[r.value], key)
              && forall j :: 0 <= j < r.value ==> !Hit(users[j], key)
    ensures r.None? <==> forall j :: 0 <= j < |users| ==> !Hit(users[j], key)
  {
    FindFrom(users, key, 0)
  }

  /** The user `User.findOne(key)` returns. */
  function Lookup(users: seq<User>, key: Key): (r: Option<User>)
    ensures r.Some? <==> Exists(users, key)
    ensures r.Some? ==> r.value in users && Hit(r.value, key)
    ensures r.Some? ==> exists j :: 0 <= j < |users| && users[j] == r.value
                                   && forall i :: 0 <= i < j ==> !Hit(users[i], key)
  {
    var k := Find(users, key);
    if k.Some? then Some(users[k.value]) else None
  }

  /** The user `User.findById(id)` returns exists and is active. */
  predicate FoundActive(users: seq<User>, id: Id)
  {
    Lookup(users, ById(id)).Some? && Lookup(users, ById(id)).value.status == Active
  }

  /** A joined user record (`$lookup`, which bypasses the query hook) with
      this id is active. */
  predicate JoinedActive(users: seq<User>, id: Id)
  {
    exists k :: 0 <= k < |users| && users[k].id == id && users[k].status == Active
  }

  /** `User.exists(key)`. */
  predicate Exists(users: seq<User>, key: Key)
  {
    exists j :: 0 <= j < |users| && Hit(users[j], key)
  }

  /** The first profile of a user, as `Profile.findOne({ userId })` returns it. */
  function FindProfile(profiles: seq<Profile>, userId: Id): (r: Option<Profile>)
    ensures r.Some? ==> r.value in profiles && r.value.userId == userId
    ensures r.None? <==> forall k :: 0 <= k < |profiles| ==> profiles[k].userId != userId
  {
    var k := Sequences.FirstIndex(profiles, (x: Profile) => x.userId == userId);
    if k.Some? then Some(profiles[k.value]) else None
  }

  /** What the error handler answers when a service reads `fullName` off a
      profile that is not there: the runtime's TypeError, with status 500
      and the runtime's message. */
  const MissingProfileError: Error := Error(InternalServerError, "Cannot read properties of null (reading 'fullName')")

  predicate HasProfile(profiles: seq<Profile>, userId: Id)
  {
    exists k :: 0 <= k < |profiles| && profiles[k].userId == userId
  }

  /** Store assumption: `_id` is unique. */
  predicate UniqueIds(users: seq<User>)
  {
    forall i, j :: 0 <= i < j < |users| ==> users[i].id != users[j].id
  }

  /** Store assumption: the unique index on `email`. */
  predicate UniqueEmails(users: seq<User>)
  {
    forall i, j :: 0 <= i < j < |users| ==> users[i].email != users[j].email
  }

  /** Under unique ids, a user found by id is the only record with that id. */
  lemma FindByIdIsThatUser(users: seq<User>, i: nat)
    requires UniqueIds(users) && i < |users| && Findable(users[i])
    ensures Find(users, ById(users[i].id)) == Some(i)
  {
  }
}
