/** The access gate every protected route runs: the bearer header, the
    decoded access token's role against the route's roles, then the user
    the token names, its verification, its status, and whether its
    password changed after the token was issued. Token verification is a
    parameter: `decode` gives the claims or the error the JWT library's
    failure turns into. */
module AuthGate {
  import opened Wrappers
  import opened Users
  import Text
  import Auth

  const BearerPrefix: string := "Bearer "
  const MissingBearerMessage: string := "Access token is required start with Bearer token!"
  const NoAccessMessage: string := "You have no access to this route!"
  const NotVerifiedMessage: string := "Account is not verified. Please verify your email."
  const NotActiveMessage: string := "Account is not active."
  const TokenExpiredMessage: string := "Access token is expired! Please login again."

  /** A decoded access token: the claims it was signed with and its issue
      time in seconds. */
  datatype AccessClaims = AccessClaims(email: string, role: Role, iat: int)

  function UserNotFoundMessage(role: Role): string
  {
    "The " + RoleName(role) + " is not found."
  }

  predicate HasBearer(header: Option<string>)
  {
    header.Some? && BearerPrefix <= header.value
  }

  /** The second piece of the header split at spaces: everything after
      "Bearer " up to the next space. */
  function BearerToken(header: string): (t: string)
    requires BearerPrefix <= header
    ensures t <= header[|BearerPrefix|..] && ' ' !in t
    ensures |t| == |header| - |BearerPrefix| || header[|BearerPrefix| + |t|] == ' '
  {
    var rest := header[|BearerPrefix|..];
    assert header == "Bearer" + [' '] + rest;
    Text.SplitAfterWord("Bearer", rest, ' ');
    Text.SplitHead(rest, ' ');
    Text.Split(header, ' ')[1]
  }

  /** Whether a token issued at `iat` (seconds) predates the user's last
      password change (milliseconds). */
  predicate IssuedBeforePasswordChange(u: User, iat: int)
  {
    u.passwordChangeAt > iat * 1000
  }

  /** `authMiddleware(...requiredRole)`: the user attached to the request,
      or the error the first failing check throws. */
  function Gate(users: seq<User>, header: Option<string>, decode: string -> Result<AccessClaims>, required: seq<Role>)
    : (r: Result<User>)
    ensures !HasBearer(header) ==> r == Err(Error(Unauthorized, MissingBearerMessage))
    ensures HasBearer(header) && decode(BearerToken(header.value)).Err? ==>
              r == Err(decode(BearerToken(header.value)).error)
    ensures r.Ok? <==>
              && HasBearer(header) && decode(BearerToken(header.value)).Ok?
              && Admitted(users, decode(BearerToken(header.value)).value, required)
    ensures r.Ok? ==> var c := decode(BearerToken(header.value)).value;
              && r.value == Lookup(users, ByEmailRole(c.email, c.role)).value
              && r.value.email == c.email && r.value.role == c.role
  {
    if !HasBearer(header) then Err(Error(Unauthorized, MissingBearerMessage))
    else
      var c :- decode(BearerToken(header.value));
      Check(users, c, required)
  }

  /** Everything the gate asks of decoded claims. */
  predicate Admitted(users: seq<User>, c: AccessClaims, required: seq<Role>)
  {
    && c.role in required
    && Exists(users, ByEmailRole(c.email, c.role))
    && var u := Lookup(users, ByEmailRole(c.email, c.role)).value;
       u.isVerified && u.status == Active && !IssuedBeforePasswordChange(u, c.iat)
  }

  /** The checks after decoding, in the order the gate makes them. */
  function Check(users: seq<User>, c: AccessClaims, required: seq<Role>): (r: Result<User>)
    ensures c.role !in required ==> r == Err(Error(Forbidden, NoAccessMessage))
    ensures c.role in required && !Exists(users, ByEmailRole(c.email, c.role)) ==>
              r == Err(Error(Unauthorized, UserNotFoundMessage(c.role)))
    ensures c.role in required && Exists(users, ByEmailRole(c.email, c.role)) ==>
              var u := Lookup(users, ByEmailRole(c.email, c.role)).value;
              && (!u.isVerified ==> r == Err(Error(Forbidden, NotVerifiedMessage)))
              && (u.isVerified && u.status != Active ==> r == Err(Error(Forbidden, NotActiveMessage)))
              && (u.isVerified && u.status == Active && IssuedBeforePasswordChange(u, c.iat) ==>
                    r == Err(Error(Unauthorized, TokenExpiredMessage)))
    ensures r.Ok? <==> Admitted(users, c, required)
    ensures r.Ok? ==> r.value == Lookup(users, ByEmailRole(c.email, c.role)).value
  {
    if c.role !in required then Err(Error(Forbidden, NoAccessMessage)) else
    match Lookup(users, ByEmailRole(c.email, c.role))
    case None => Err(Error(Unauthorized, UserNotFoundMessage(c.role)))
    case Some(u) =>
      if !u.isVerified then Err(Error(Forbidden, NotVerifiedMessage))
      else if u.status != Active then Err(Error(Forbidden, NotActiveMessage))
      else if IssuedBeforePasswordChange(u, c.iat) then Err(Error(Unauthorized, TokenExpiredMessage))
      else Ok(u)
  }

  /** The role check comes before the store is read: a token whose role
      the route does not accept is refused the same way whatever the
      store holds. */
  lemma RoleRefusedBeforeLookup(users1: seq<User>, users2: seq<User>, header: Option<string>,
                                decode: string -> Result<AccessClaims>, required: seq<Role>)
    requires HasBearer(header) && decode(BearerToken(header.value)).Ok?
    requires decode(BearerToken(header.value)).value.role !in required
    ensures Gate(users1, header, decode, required) == Gate(users2, header, decode, required)
              == Err(Error(Forbidden, NoAccessMessage))
  {
  }

  /** Whoever passes the gate could also refresh: the refresh check is the
      gate's check without the role and password-change tests. */
  lemma GateImpliesRefresh(users: seq<User>, c: AccessClaims, required: seq<Role>)
    requires Check(users, c, required).Ok?
    ensures Auth.Refresh(users, Auth.Claims(c.email, c.role)) == Ok(Auth.Claims(c.email, c.role))
  {
  }

  /** The converse fails: a user who may refresh is still refused at a
      route that does not accept their role, or with a token older than
      their last password change. */
  lemma RefreshDoesNotImplyGate()
    ensures var u := User(1, "alice1", "a@x.io", "h", true, RoleUser, Active, "", "", None, 5000, 0);
            && Auth.Refresh([u], Auth.Claims("a@x.io", RoleUser)).Ok?
            && Check([u], AccessClaims("a@x.io", RoleUser, 4), [RoleUser]) == Err(Error(Unauthorized, TokenExpiredMessage))
            && Check([u], AccessClaims("a@x.io", RoleUser, 9), [Admin]) == Err(Error(Forbidden, NoAccessMessage))
  {
    var u := User(1, "alice1", "a@x.io", "h", true, RoleUser, Active, "", "", None, 5000, 0);
    assert Hit([u][0], ByEmailRole("a@x.io", RoleUser));
  }

  /** Changing a user's role retires the tokens issued for the old role:
      the gate no longer finds a user with the old (email, role) pair. */
  lemma RoleChangeRetiresTokens(users: seq<User>, userId: Id, role: Role, superAdminEmail: string, adminBadge: string,
                                c: AccessClaims, required: seq<Role>)
    requires role == RoleUser || role == Admin
    requires UniqueEmails(users)
    requires Auth.ChangeRole(users, userId, role, superAdminEmail, adminBadge).Ok?
    requires var u := Lookup(users, ById(userId)).value; c.email == u.email && c.role == u.role && c.role != role
    requires c.role in required
    ensures var after := Auth.ChangeRole(users, userId, role, superAdminEmail, adminBadge).value.0;
            Check(after, c, required) == Err(Error(Unauthorized, UserNotFoundMessage(c.role)))
  {
    var k := Find(users, ById(userId)).value;
    var after := Auth.ChangeRole(users, userId, role, superAdminEmail, adminBadge).value.0;
    forall j | 0 <= j < |after| ensures !Hit(after[j], ByEmailRole(c.email, c.role)) {
      if j != k {
        assert after[j] == users[j];
        assert users[j].email != users[k].email;
      }
    }
  }
}
