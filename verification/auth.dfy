/** The authentication service: registration, admin creation, login, token
    refresh, resending the verification mail and changing a user's role.
    Hashing, password comparison and mail delivery are parameters: `hash`
    stands for bcrypt's hash, `passwordMatches` for its comparison and a
    `mail` outcome for what the delivery threw, if anything. Each operation
    that runs in a transaction returns either the whole new state or an
    error, never a partial one. */
module Auth {
  import opened Wrappers
  import opened Users
  import Usernames
  import Accounts

  const EmailTakenMessage: string := "A user with this email already exists."
  const AdminEmailTakenMessage: string := "The admin email is already exists"
  const UnknownIdentifierMessage: string := "Invalid username or email. Please check your credentials or sign up."
  const DeactivatedMessage: string := "Your account is deactivated. Please reactivate your account to login."
  const DeletedMessage: string := "Your account has been deleted. Please reactivate your account to login."
  const WrongPasswordMessage: string := "Password is incorrect!"
  const BadRefreshMessage: string := "Invalid or unauthorized refresh token."
  const NoSuchEmailMessage: string := "User not found"
  const AlreadyVerifiedMessage: string := "Email is already verified"
  const UserMissingMessage: string := "The user is not found"
  const SuperAdminRoleMessage: string := "You can't change the super admin role"

  /** What every token carries: the user's email and role. */
  datatype Claims = Claims(email: string, role: Role)

  /** What login answers: only the full name for an unverified account, or
      both tokens and the updated user for a verified one. */
  datatype LoginReply =
    | NeedsVerification(fullName: string)
    | LoggedIn(access: Claims, refresh: Claims, user: User, fullName: string)

  /** The record `User.create` stores for a new account: schema defaults
      everywhere but the given fields. `stamp` is the value both date
      defaults were fixed to when the schema was loaded. */
  function NewUser(id: Id, username: string, email: string, passwordHash: string, stamp: int): (u: User)
    ensures u.status == Active && u.role == RoleUser && !u.isVerified && u.badge == "" && u.deletedAt.None?
  {
    User(id, username, email, passwordHash, false, RoleUser, Active, "", "", None, stamp, stamp)
  }

  /** Whether the unique indexes on `email` and `username` refuse a new
      record: some stored user, permanently deleted ones included, already
      holds the email or the name. */
  predicate IndexClash(users: seq<User>, email: string, username: string)
  {
    Usernames.Held(users, ByEmail(email)) || Usernames.Held(users, ByUsername(username))
  }

  /** The name `generateUniqueUsername` returns for a full name, as written. */
  function ChosenName(users: seq<User>, fullName: string, draws: seq<int>): string
    requires Usernames.Draws(draws) && Usernames.Pick(users, Usernames.Base(fullName), draws).Some?
  {
    Usernames.Pick(users, Usernames.Base(fullName), draws).value
  }

  /** `userRegistrationIntoDB`, as written: 409 when a findable user has the
      email; otherwise the username loop picks a name, and `User.create`
      fails with `duplicate` (what the error handler makes of a duplicate
      key) when a stored user of any status holds the email or that name;
      otherwise a new unverified user, its profile, and the verification
      mail, all in one transaction. `draws` are the suffixes the username
      loop draws until one looks free. */
  function Register(users: seq<User>, profiles: seq<Profile>, email: string, fullName: string, password: string,
                    hash: string -> string, draws: seq<int>, newId: Id, stamp: int, mail: Outcome, duplicate: Error)
    : (r: Result<(seq<User>, seq<Profile>, string)>)
    requires Usernames.Draws(draws) && Usernames.Pick(users, Usernames.Base(fullName), draws).Some?
    ensures Exists(users, ByEmail(email)) ==> r == Err(Error(Conflict, EmailTakenMessage))
    ensures !Exists(users, ByEmail(email)) && IndexClash(users, email, ChosenName(users, fullName, draws)) ==>
              r == Err(duplicate)
    ensures !Exists(users, ByEmail(email)) && !IndexClash(users, email, ChosenName(users, fullName, draws)) && mail.Fail? ==>
              r == Err(mail.error)
    ensures r.Ok? <==> !Exists(users, ByEmail(email)) && !IndexClash(users, email, ChosenName(users, fullName, draws))
                       && mail.Pass?
    ensures r.Ok? ==>
              && |r.value.0| == |users| + 1 && r.value.0[..|users|] == users
              && r.value.1 == profiles + [Profile(newId, fullName)]
              && r.value.2 == fullName
    ensures r.Ok? ==> var u := r.value.0[|users|];
              && u.id == newId && u.email == email && u.username == ChosenName(users, fullName, draws)
              && u.passwordHash == hash(password)
              && u.role == RoleUser && !u.isVerified && u.status == Active
              && forall j :: 0 <= j < |users| ==> users[j].username != u.username && users[j].email != u.email
  {
    if Exists(users, ByEmail(email)) then Err(Error(Conflict, EmailTakenMessage)) else
    var username := ChosenName(users, fullName, draws);
    if IndexClash(users, email, username) then Err(duplicate) else
    var u := NewUser(newId, username, email, hash(password), stamp);
    :- mail;
    Ok((users + [u], profiles + [Profile(newId, fullName)], fullName))
  }

  /** Registration as intended: the email check and the username loop see
      every stored user, so the unique indexes never refuse the record. */
  function RegisterIntended(users: seq<User>, profiles: seq<Profile>, email: string, fullName: string, password: string,
                            hash: string -> string, draws: seq<int>, newId: Id, stamp: int, mail: Outcome)
    : (r: Result<(seq<User>, seq<Profile>, string)>)
    requires Usernames.Draws(draws) && Usernames.Generate(users, fullName, draws).Some?
    ensures Usernames.Held(users, ByEmail(email)) ==> r == Err(Error(Conflict, EmailTakenMessage))
    ensures !Usernames.Held(users, ByEmail(email)) && mail.Fail? ==> r == Err(mail.error)
    ensures r.Ok? <==> !Usernames.Held(users, ByEmail(email)) && mail.Pass?
    ensures r.Ok? ==>
              && |r.value.0| == |users| + 1 && r.value.0[..|users|] == users
              && r.value.1 == profiles + [Profile(newId, fullName)]
              && r.value.2 == fullName
    ensures r.Ok? ==> var u := r.value.0[|users|];
              && u.id == newId && u.email == email && u.passwordHash == hash(password)
              && u.role == RoleUser && !u.isVerified && u.status == Active
              && !IndexClash(users, u.email, u.username)
  {
    if Usernames.Held(users, ByEmail(email)) then Err(Error(Conflict, EmailTakenMessage)) else
    var username := Usernames.Generate(users, fullName, draws).value;
    var u := NewUser(newId, username, email, hash(password), stamp);
    :- mail;
    Ok((users + [u], profiles + [Profile(newId, fullName)], fullName))
  }

  /** As written, a full name whose base only a permanently deleted user
      holds passes the username loop and is then refused by the unique
      index; the intended registration takes a drawn name instead. */
  lemma RegisterRefusedOverPurgedName(users: seq<User>, profiles: seq<Profile>, email: string, fullName: string,
                                      password: string, hash: string -> string, draws: seq<int>, newId: Id,
                                      stamp: int, duplicate: Error)
    requires Usernames.Draws(draws) && Usernames.Generate(users, fullName, draws).Some?
    requires !Exists(users, ByUsername(Usernames.Base(fullName)))
    requires Usernames.Held(users, ByUsername(Usernames.Base(fullName)))
    requires !Usernames.Held(users, ByEmail(email))
    ensures Usernames.Pick(users, Usernames.Base(fullName), draws) == Some(Usernames.Base(fullName))
    ensures Register(users, profiles, email, fullName, password, hash, draws, newId, stamp, Pass, duplicate)
            == Err(duplicate)
    ensures RegisterIntended(users, profiles, email, fullName, password, hash, draws, newId, stamp, Pass).Ok?
  {
    assert !Exists(users, ByEmail(email)) by {
      forall j | 0 <= j < |users| ensures !Hit(users[j], ByEmail(email)) {
        assert !Matches(users[j], ByEmail(email));
      }
    }
  }

  /** `createAdminByAdminIntoDB`, as written: like registration, but the
      account is an admin, already verified and wearing the admin badge,
      and no mail is sent. The badge's text is a parameter. */
  function CreateAdmin(users: seq<User>, profiles: seq<Profile>, email: string, fullName: string, password: string,
                       hash: string -> string, draws: seq<int>, newId: Id, stamp: int, adminBadge: string,
                       duplicate: Error)
    : (r: Result<(seq<User>, seq<Profile>, User)>)
    requires Usernames.Draws(draws) && Usernames.Pick(users, Usernames.Base(fullName), draws).Some?
    ensures Exists(users, ByEmail(email)) ==> r == Err(Error(Conflict, AdminEmailTakenMessage))
    ensures !Exists(users, ByEmail(email)) && IndexClash(users, email, ChosenName(users, fullName, draws)) ==>
              r == Err(duplicate)
    ensures r.Ok? <==> !Exists(users, ByEmail(email)) && !IndexClash(users, email, ChosenName(users, fullName, draws))
    ensures r.Ok? ==>
              && r.value.0 == users + [r.value.2]
              && r.value.1 == profiles + [Profile(newId, fullName)]
    ensures r.Ok? ==> var u := r.value.2;
              && u.id == newId && u.email == email && u.username == ChosenName(users, fullName, draws)
              && u.passwordHash == hash(password)
              && u.role == Admin && u.isVerified && u.badge == adminBadge && u.status == Active
              && forall j :: 0 <= j < |users| ==> users[j].username != u.username && users[j].email != u.email
  {
    if Exists(users, ByEmail(email)) then Err(Error(Conflict, AdminEmailTakenMessage)) else
    var username := ChosenName(users, fullName, draws);
    if IndexClash(users, email, username) then Err(duplicate) else
    var u := NewUser(newId, username, email, hash(password), stamp).(role := Admin, isVerified := true, badge := adminBadge);
    Ok((users + [u], profiles + [Profile(newId, fullName)], u))
  }

  /** Admin creation as intended: the checks see every stored user. */
  function CreateAdminIntended(users: seq<User>, profiles: seq<Profile>, email: string, fullName: string,
                               password: string, hash: string -> string, draws: seq<int>, newId: Id, stamp: int,
                               adminBadge: string)
    : (r: Result<(seq<User>, seq<Profile>, User)>)
    requires Usernames.Draws(draws) && Usernames.Generate(users, fullName, draws).Some?
    ensures r.Err? <==> Usernames.Held(users, ByEmail(email))
    ensures r.Err? ==> r.error == Error(Conflict, AdminEmailTakenMessage)
    ensures r.Ok? ==>
              && r.value.0 == users + [r.value.2]
              && r.value.1 == profiles + [Profile(newId, fullName)]
    ensures r.Ok? ==> var u := r.value.2;
              && u.id == newId && u.email == email && u.passwordHash == hash(password)
              && u.role == Admin && u.isVerified && u.badge == adminBadge && u.status == Active
              && !IndexClash(users, u.email, u.username)
  {
    if Usernames.Held(users, ByEmail(email)) then Err(Error(Conflict, AdminEmailTakenMessage)) else
    var username := Usernames.Generate(users, fullName, draws).value;
    var u := NewUser(newId, username, email, hash(password), stamp).(role := Admin, isVerified := true, badge := adminBadge);
    Ok((users + [u], profiles + [Profile(newId, fullName)], u))
  }

  /** No two stored users share an email or a username: what the unique
      indexes keep. */
  predicate UniqueLogins(users: seq<User>)
  {
    forall i, j :: 0 <= i < j < |users| ==> users[i].email != users[j].email && users[i].username != users[j].username
  }

  /** A successful registration or admin creation keeps logins unique. */
  lemma CreationKeepsLoginsUnique(users: seq<User>, u: User)
    requires UniqueLogins(users)
    requires forall j :: 0 <= j < |users| ==> users[j].username != u.username && users[j].email != u.email
    ensures UniqueLogins(users + [u])
  {
  }

  lemma RegisterKeepsLoginsUnique(users: seq<User>, profiles: seq<Profile>, email: string, fullName: string,
                                  password: string, hash: string -> string, draws: seq<int>, newId: Id,
                                  stamp: int, mail: Outcome, duplicate: Error)
    requires Usernames.Draws(draws) && Usernames.Pick(users, Usernames.Base(fullName), draws).Some?
    requires UniqueLogins(users)
    requires Register(users, profiles, email, fullName, password, hash, draws, newId, stamp, mail, duplicate).Ok?
    ensures UniqueLogins(Register(users, profiles, email, fullName, password, hash, draws, newId, stamp, mail, duplicate).value.0)
  {
    var after := Register(users, profiles, email, fullName, password, hash, draws, newId, stamp, mail, duplicate).value.0;
    assert after == users + [after[|users|]];
    CreationKeepsLoginsUnique(users, after[|users|]);
  }

  lemma CreateAdminKeepsLoginsUnique(users: seq<User>, profiles: seq<Profile>, email: string, fullName: string,
                                     password: string, hash: string -> string, draws: seq<int>, newId: Id,
                                     stamp: int, adminBadge: string, duplicate: Error)
    requires Usernames.Draws(draws) && Usernames.Pick(users, Usernames.Base(fullName), draws).Some?
    requires UniqueLogins(users)
    requires CreateAdmin(users, profiles, email, fullName, password, hash, draws, newId, stamp, adminBadge, duplicate).Ok?
    ensures UniqueLogins(CreateAdmin(users, profiles, email, fullName, password, hash, draws, newId, stamp, adminBadge,
                                     duplicate).value.0)
  {
    var r := CreateAdmin(users, profiles, email, fullName, password, hash, draws, newId, stamp, adminBadge, duplicate).value;
    CreationKeepsLoginsUnique(users, r.2);
  }

  /** `login`: the identifier (email or username) must find a user (404);
      deactivated and soft-deleted accounts are refused (403); an
      unverified account is sent a new verification mail and answered with
      its full name only, before the password is looked at; a wrong
      password is 400; otherwise the user's last login time is set to
      `now` and tokens for its email and role are issued. Reading the name
      of a user without a profile fails with a server error, before the
      mail for an unverified account and after the password check for a
      verified one. A suspended account passes every check. */
  function Login(users: seq<User>, profiles: seq<Profile>, identifier: string, password: string,
                 passwordMatches: (string, string) -> bool, mail: Outcome, now: int)
    : (r: Result<(seq<User>, LoginReply)>)
    ensures !Exists(users, ByIdentifier(identifier)) ==> r == Err(Error(NotFound, UnknownIdentifierMessage))
    ensures Exists(users, ByIdentifier(identifier)) ==> var u := Lookup(users, ByIdentifier(identifier)).value;
              && (u.status == Deactivated ==> r == Err(Error(Forbidden, DeactivatedMessage)))
              && (u.status == SoftDeleted ==> r == Err(Error(Forbidden, DeletedMessage)))
              && (u.status != Deactivated && u.status != SoftDeleted && !u.isVerified ==>
                    r == if !HasProfile(profiles, u.id) then Err(MissingProfileError)
                         else if mail.Pass? then Ok((users, NeedsVerification(FullName(profiles, u.id).value)))
                         else Err(mail.error))
              && (u.status != Deactivated && u.status != SoftDeleted && u.isVerified ==>
                    (r == Err(Error(BadRequest, WrongPasswordMessage)) <==> !passwordMatches(password, u.passwordHash)))
              && ((u.status != Deactivated && u.status != SoftDeleted && u.isVerified && passwordMatches(password, u.passwordHash)
                   && !HasProfile(profiles, u.id)) ==> r == Err(MissingProfileError))
    ensures r.Ok? && r.value.1.LoggedIn? ==>
              var k := Find(users, ByIdentifier(identifier)).value;
              var u := users[k];
              && u.isVerified && passwordMatches(password, u.passwordHash)
              && u.status != Deactivated && u.status != SoftDeleted && HasProfile(profiles, u.id)
              && r.value.0 == users[k := u.(lastLoginAt := now)]
              && r.value.1 == LoggedIn(Claims(u.email, u.role), Claims(u.email, u.role), u.(lastLoginAt := now),
                                       FullName(profiles, u.id).value)
    ensures r.Ok? && r.value.1.NeedsVerification? ==> r.value.0 == users
  {
    match Find(users, ByIdentifier(identifier))
    case None => Err(Error(NotFound, UnknownIdentifierMessage))
    case Some(k) =>
      var u := users[k];
      if u.status == Deactivated then Err(Error(Forbidden, DeactivatedMessage))
      else if u.status == SoftDeleted then Err(Error(Forbidden, DeletedMessage))
      else if !u.isVerified then
        match FullName(profiles, u.id)
        case None => Err(MissingProfileError)
        case Some(name) => if mail.Fail? then Err(mail.error) else Ok((users, NeedsVerification(name)))
      else if !passwordMatches(password, u.passwordHash) then Err(Error(BadRequest, WrongPasswordMessage))
      else if !HasProfile(profiles, u.id) then Err(MissingProfileError)
      else
        var after := Accounts.UpdateFirst(users, ByIdentifier(identifier), (v: User) => v.(lastLoginAt := now));
        var claims := Claims(u.email, u.role);
        Ok((after, LoggedIn(claims, claims, after[k], FullName(profiles, u.id).value)))
  }

  /** The full name of a user's first profile. */
  function FullName(profiles: seq<Profile>, id: Id): (r: Option<string>)
    ensures r.Some? <==> HasProfile(profiles, id)
    ensures r.Some? ==> Profile(id, r.value) in profiles
  {
    match FindProfile(profiles, id)
    case None => None
    case Some(p) => Some(p.fullName)
  }

  /** `refreshToken`, after the token was decoded to `c`: the user with that
      email and role must exist, be verified and be active (else 401); the
      new access token carries the same claims. */
  function Refresh(users: seq<User>, c: Claims): (r: Result<Claims>)
    ensures r.Ok? <==> Exists(users, ByEmailRole(c.email, c.role))
                       && Lookup(users, ByEmailRole(c.email, c.role)).value.isVerified
                       && Lookup(users, ByEmailRole(c.email, c.role)).value.status == Active
    ensures r.Ok? ==> r.value == c
    ensures r.Err? ==> r.error == Error(Unauthorized, BadRefreshMessage)
  {
    match Lookup(users, ByEmailRole(c.email, c.role))
    case None => Err(Error(Unauthorized, BadRefreshMessage))
    case Some(u) =>
      if !u.isVerified || u.status != Active then Err(Error(Unauthorized, BadRefreshMessage))
      else Ok(Claims(u.email, u.role))
  }

  /** `resendVerificationEmail`: 404 for an unknown email, 400 for a
      verified account; an account without a profile fails when its name is
      read for the mail; otherwise whatever the mail delivery gives. */
  function ResendVerification(users: seq<User>, profiles: seq<Profile>, email: string, mail: Outcome): (r: Outcome)
    ensures !Exists(users, ByEmail(email)) ==> r == Fail(Error(NotFound, NoSuchEmailMessage))
    ensures Exists(users, ByEmail(email)) && Lookup(users, ByEmail(email)).value.isVerified ==>
              r == Fail(Error(BadRequest, AlreadyVerifiedMessage))
    ensures (&& Exists(users, ByEmail(email)) && !Lookup(users, ByEmail(email)).value.isVerified
             && !HasProfile(profiles, Lookup(users, ByEmail(email)).value.id)) ==> r == Fail(MissingProfileError)
    ensures r.Pass? <==> && Exists(users, ByEmail(email)) && !Lookup(users, ByEmail(email)).value.isVerified
                         && HasProfile(profiles, Lookup(users, ByEmail(email)).value.id) && mail.Pass?
  {
    match Lookup(users, ByEmail(email))
    case None => Fail(Error(NotFound, NoSuchEmailMessage))
    case Some(u) =>
      if u.isVerified then Fail(Error(BadRequest, AlreadyVerifiedMessage))
      else if FindProfile(profiles, u.id).None? then Fail(MissingProfileError)
      else mail
  }

  /** The fields `changeUserRoleIntoDB` writes: the role, the admin badge
      exactly for admins, and verification switched on for admins only. */
  function WithRole(u: User, role: Role, adminBadge: string): (v: User)
    ensures v.role == role
    ensures v.badge == (if role == Admin then adminBadge else "")
    ensures v.isVerified == (role == Admin || u.isVerified)
    ensures v.(role := u.role, badge := u.badge, isVerified := u.isVerified) == u
  {
    u.(role := role, badge := if role == Admin then adminBadge else "", isVerified := role == Admin || u.isVerified)
  }

  /** `changeUserRoleIntoDB`: 404 for an unknown user, 403 for the super
      admin's email; otherwise the role fields are rewritten. The request
      schema admits only the roles user and admin. */
  function ChangeRole(users: seq<User>, userId: Id, role: Role, superAdminEmail: string, adminBadge: string)
    : (r: Result<(seq<User>, User)>)
    requires role == RoleUser || role == Admin
    ensures !Exists(users, ById(userId)) <==> r == Err(Error(NotFound, UserMissingMessage))
    ensures r.Ok? <==> Exists(users, ById(userId)) && Lookup(users, ById(userId)).value.email != superAdminEmail
    ensures r.Err? && Exists(users, ById(userId)) ==> r.error == Error(Forbidden, SuperAdminRoleMessage)
    ensures r.Ok? ==> var k := Find(users, ById(userId)).value;
              && r.value.1 == WithRole(users[k], role, adminBadge)
              && r.value.0 == users[k := r.value.1]
  {
    match Find(users, ById(userId))
    case None => Err(Error(NotFound, UserMissingMessage))
    case Some(k) =>
      if users[k].email == superAdminEmail then Err(Error(Forbidden, SuperAdminRoleMessage))
      else
        var v := WithRole(users[k], role, adminBadge);
        Ok((users[k := v], v))
  }

  /** Registering the same email twice: the second attempt is refused with
      409, whatever else differs. */
  lemma RegisterTwiceConflicts(users: seq<User>, profiles: seq<Profile>, email: string, fullName: string, password: string,
                               hash: string -> string, draws: seq<int>, newId: Id, stamp: int, duplicate: Error,
                               fullName2: string, password2: string, draws2: seq<int>, newId2: Id)
    requires Usernames.Draws(draws) && Usernames.Pick(users, Usernames.Base(fullName), draws).Some?
    requires Register(users, profiles, email, fullName, password, hash, draws, newId, stamp, Pass, duplicate).Ok?
    requires var after := Register(users, profiles, email, fullName, password, hash, draws, newId, stamp, Pass, duplicate).value;
             Usernames.Draws(draws2) && Usernames.Pick(after.0, Usernames.Base(fullName2), draws2).Some?
    ensures var after := Register(users, profiles, email, fullName, password, hash, draws, newId, stamp, Pass, duplicate).value;
            Register(after.0, after.1, email, fullName2, password2, hash, draws2, newId2, stamp, Pass, duplicate)
              == Err(Error(Conflict, EmailTakenMessage))
  {
    var after := Register(users, profiles, email, fullName, password, hash, draws, newId, stamp, Pass, duplicate).value;
    assert Hit(after.0[|users|], ByEmail(email));
  }

  /** Logging in by the email of a user just stored with its only profile:
      an unverified one gets its full name, a verified one with the right
      password its tokens. */
  lemma LoginAppended(users: seq<User>, profiles: seq<Profile>, u: User, fullName: string, password: string,
                      passwordMatches: (string, string) -> bool, mail: Outcome, now: int)
    requires !Exists(users, ByIdentifier(u.email)) && !HasProfile(profiles, u.id)
    requires u.status == Active
    ensures var r := Login(users + [u], profiles + [Profile(u.id, fullName)], u.email, password, passwordMatches, mail, now);
            !u.isVerified && mail.Pass? ==> r == Ok((users + [u], NeedsVerification(fullName)))
    ensures var r := Login(users + [u], profiles + [Profile(u.id, fullName)], u.email, password, passwordMatches, mail, now);
            var v := u.(lastLoginAt := now);
            u.isVerified && passwordMatches(password, u.passwordHash) ==>
              r == Ok(((users + [u])[|users| := v], LoggedIn(Claims(u.email, u.role), Claims(u.email, u.role), v, fullName)))
  {
    var us := users + [u];
    assert Find(us, ByIdentifier(u.email)) == Some(|users|) by {
      assert Hit(us[|users|], ByIdentifier(u.email));
      forall j | 0 <= j < |users| ensures !Hit(us[j], ByIdentifier(u.email)) {
        assert us[j] == users[j];
      }
    }
    FullNameOfNewProfile(profiles, u.id, fullName);
  }

  /** A fresh account cannot log in yet: logging in by its email answers
      with the registered full name and no tokens, whatever password is
      given, provided the email named no one before. */
  lemma RegisterThenLoginNeedsVerification(users: seq<User>, profiles: seq<Profile>, email: string, fullName: string,
                                           password: string, hash: string -> string, draws: seq<int>, newId: Id,
                                           stamp: int, duplicate: Error, attempt: string,
                                           passwordMatches: (string, string) -> bool, now: int)
    requires Usernames.Draws(draws) && Usernames.Pick(users, Usernames.Base(fullName), draws).Some?
    requires Register(users, profiles, email, fullName, password, hash, draws, newId, stamp, Pass, duplicate).Ok?
    requires !Exists(users, ByIdentifier(email)) && !HasProfile(profiles, newId)
    ensures var after := Register(users, profiles, email, fullName, password, hash, draws, newId, stamp, Pass, duplicate);
            Login(after.value.0, after.value.1, email, attempt, passwordMatches, Pass, now)
              == Ok((after.value.0, NeedsVerification(fullName)))
  {
    var after := Register(users, profiles, email, fullName, password, hash, draws, newId, stamp, Pass, duplicate).value;
    var u := after.0[|users|];
    assert after.0 == users + [u] by {
      assert after.0 == after.0[..|users|] + [u];
    }
    LoginAppended(users, profiles, u, fullName, attempt, passwordMatches, Pass, now);
  }

  /** A new admin is verified at once: logging in by its email with its
      password stamps the login time and issues tokens for the admin role,
      provided the email named no one before. */
  lemma CreateAdminThenLogin(users: seq<User>, profiles: seq<Profile>, email: string, fullName: string, password: string,
                             hash: string -> string, draws: seq<int>, newId: Id, stamp: int, adminBadge: string,
                             duplicate: Error, passwordMatches: (string, string) -> bool, mail: Outcome, now: int)
    requires Usernames.Draws(draws) && Usernames.Pick(users, Usernames.Base(fullName), draws).Some?
    requires CreateAdmin(users, profiles, email, fullName, password, hash, draws, newId, stamp, adminBadge, duplicate).Ok?
    requires !Exists(users, ByIdentifier(email)) && !HasProfile(profiles, newId)
    requires passwordMatches(password, hash(password))
    ensures var after := CreateAdmin(users, profiles, email, fullName, password, hash, draws, newId, stamp, adminBadge, duplicate).value;
            var u := after.2.(lastLoginAt := now);
            Login(after.0, after.1, email, password, passwordMatches, mail, now)
              == Ok((after.0[|users| := u], LoggedIn(Claims(email, Admin), Claims(email, Admin), u, fullName)))
  {
    var after := CreateAdmin(users, profiles, email, fullName, password, hash, draws, newId, stamp, adminBadge, duplicate).value;
    LoginAppended(users, profiles, after.2, fullName, password, passwordMatches, mail, now);
  }

  /** For an account that may log in but is unverified, resending the
      verification mail and logging in by email agree: both succeed with
      the same delivery, and both fail with the same error otherwise,
      provided no username equals the email. */
  lemma ResendAgreesWithLogin(users: seq<User>, profiles: seq<Profile>, email: string, password: string,
                              passwordMatches: (string, string) -> bool, mail: Outcome, now: int)
    requires forall j :: 0 <= j < |users| ==> users[j].username != email
    requires Exists(users, ByEmail(email))
    requires var u := Lookup(users, ByEmail(email)).value; !u.isVerified && u.status != Deactivated && u.status != SoftDeleted
    ensures ResendVerification(users, profiles, email, mail).Pass? <==> Login(users, profiles, email, password, passwordMatches, mail, now).Ok?
    ensures ResendVerification(users, profiles, email, mail).Fail? ==>
              Login(users, profiles, email, password, passwordMatches, mail, now) == Err(ResendVerification(users, profiles, email, mail).error)
  {
    assert Find(users, ByIdentifier(email)) == Find(users, ByEmail(email)) by {
      forall j | 0 <= j < |users| ensures Hit(users[j], ByIdentifier(email)) == Hit(users[j], ByEmail(email)) {
      }
    }
  }

  /** Appending the only profile of a user makes it that user's profile. */
  lemma {:induction false} FullNameOfNewProfile(profiles: seq<Profile>, id: Id, fullName: string)
    requires !HasProfile(profiles, id)
    ensures FindProfile(profiles + [Profile(id, fullName)], id) == Some(Profile(id, fullName))
  {
    if |profiles| > 0 {
      assert (profiles + [Profile(id, fullName)])[1..] == profiles[1..] + [Profile(id, fullName)];
      assert !HasProfile(profiles[1..], id);
      FullNameOfNewProfile(profiles[1..], id, fullName);
    }
  }

  /** For an unverified account the login answer does not depend on the
      password or on how passwords are compared. */
  lemma UnverifiedLoginIgnoresPassword(users: seq<User>, profiles: seq<Profile>, identifier: string,
                                       p1: string, p2: string, m1: (string, string) -> bool,
                                       m2: (string, string) -> bool, mail: Outcome, now: int)
    requires Exists(users, ByIdentifier(identifier)) && !Lookup(users, ByIdentifier(identifier)).value.isVerified
    ensures Login(users, profiles, identifier, p1, m1, mail, now) == Login(users, profiles, identifier, p2, m2, mail, now)
  {
  }

  /** A suspended, verified user still logs in and receives a refresh
      token, but that token can never be exchanged for an access token. */
  lemma SuspendedUserGetsUselessTokens(users: seq<User>, profiles: seq<Profile>, identifier: string, password: string,
                                       passwordMatches: (string, string) -> bool, now: int)
    requires Exists(users, ByIdentifier(identifier))
    requires var u := Lookup(users, ByIdentifier(identifier)).value;
             u.status == Suspended && u.isVerified && passwordMatches(password, u.passwordHash)
    requires UniqueEmails(users)
    ensures var r := Login(users, profiles, identifier, password, passwordMatches, Pass, now);
            r.Ok? <==> HasProfile(profiles, Lookup(users, ByIdentifier(identifier)).value.id)
    ensures var r := Login(users, profiles, identifier, password, passwordMatches, Pass, now);
            r.Ok? ==> r.value.1.LoggedIn? && Refresh(r.value.0, r.value.1.refresh) == Err(Error(Unauthorized, BadRefreshMessage))
  {
    var r := Login(users, profiles, identifier, password, passwordMatches, Pass, now);
    if r.Err? {
      return;
    }
    var k := Find(users, ByIdentifier(identifier)).value;
    var after := r.value.0;
    var c := r.value.1.refresh;
    assert Find(after, ByEmailRole(c.email, c.role)) == Some(k) by {
      assert Hit(after[k], ByEmailRole(c.email, c.role));
      forall j | 0 <= j < k ensures !Hit(after[j], ByEmailRole(c.email, c.role)) {
        assert after[j] == users[j];
      }
    }
  }

  /** Changing a role twice to the same role is the same as once. */
  lemma ChangeRoleIdempotent(users: seq<User>, userId: Id, role: Role, superAdminEmail: string, adminBadge: string)
    requires role == RoleUser || role == Admin
    requires ChangeRole(users, userId, role, superAdminEmail, adminBadge).Ok?
    ensures var once := ChangeRole(users, userId, role, superAdminEmail, adminBadge).value.0;
            ChangeRole(once, userId, role, superAdminEmail, adminBadge).Ok?
            && ChangeRole(once, userId, role, superAdminEmail, adminBadge).value.0 == once
  {
    var k := Find(users, ById(userId)).value;
    var once := ChangeRole(users, userId, role, superAdminEmail, adminBadge).value.0;
    assert Find(once, ById(userId)) == Some(k) by {
      assert Hit(once[k], ById(userId));
      forall j | 0 <= j < k ensures !Hit(once[j], ById(userId)) {
        assert once[j] == users[j];
      }
    }
    assert once[k := WithRole(once[k], role, adminBadge)] == once;
  }

  /** Demoting an admin back to user removes the badge but keeps the
      account verified: the round trip user -> admin -> user ends verified
      even for an account that never verified its email. */
  lemma DemotionKeepsVerification(u: User, adminBadge: string)
    requires u.role == RoleUser && !u.isVerified
    ensures var back := WithRole(WithRole(u, Admin, adminBadge), RoleUser, adminBadge);
            && back.role == RoleUser && back.badge == "" && back.isVerified
            && back.(isVerified := false, badge := u.badge) == u
  {
  }
}
