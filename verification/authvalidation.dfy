/** The request schemas of the authentication routes: the email, username,
    password, full-name and date grammars, the login identifier, and the
    change-role body. Each grammar is a predicate read the way its regular
    expression matches; where the expression leaves a choice (where the
    email's `@` and `.` fall), a scanning decision is proved equal to it.
    ASCII only: `\s` is `Text.IsSpace`. */
module AuthValidation {
  import opened Wrappers
  import opened Text
  import opened Zod
  import Users
  import Usernames
  import Sanitize

  /** `[^\s@]` */
  predicate Plain(c: char) { !IsSpace(c) && c != '@' }

  predicate AllPlain(s: string) { forall k :: 0 <= k < |s| ==> Plain(s[k]) }

  /** `^[^\s@]+@[^\s@]+\.[^\s@]+$`, with the `@` at `i` and the `.` at `j`. */
  predicate EmailSplitAt(s: string, i: int, j: int)
  {
    && 0 < i && i + 1 < j < |s| - 1 && s[i] == '@' && s[j] == '.'
    && AllPlain(s[..i]) && AllPlain(s[i + 1..j]) && AllPlain(s[j + 1..])
  }

  /** The email pattern as the regular expression reads it: some split. */
  ghost predicate EmailShape(s: string)
  {
    exists i, j :: EmailSplitAt(s, i, j)
  }

  /** Position of the first `@`, or the length when there is none. */
  function FirstAt(s: string): (i: nat)
    ensures i <= |s| && (i < |s| ==> s[i] == '@')
    ensures forall k :: 0 <= k < i ==> s[k] != '@'
  {
    if |s| == 0 || s[0] == '@' then 0 else 1 + FirstAt(s[1..])
  }

  /** A `.` with something on both sides. */
  predicate InnerDot(d: string)
  {
    exists j :: 0 < j < |d| - 1 && d[j] == '.'
  }

  /** The email test decided by a scan: the first `@` splits the string,
      both sides are free of spaces and `@`, and the domain has an inner dot. */
  predicate IsEmail(s: string)
  {
    var i := FirstAt(s);
    0 < i < |s| && AllPlain(s[..i]) && AllPlain(s[i + 1..]) && InnerDot(s[i + 1..])
  }

  /** The scan and the regular expression agree on every string. */
  lemma IsEmailIffShape(s: string)
    ensures IsEmail(s) <==> EmailShape(s)
  {
    if IsEmail(s) {
      var i := FirstAt(s);
      var d := s[i + 1..];
      var jj :| 0 < jj < |d| - 1 && d[jj] == '.';
      var j := i + 1 + jj;
      assert s[i + 1..j] == d[..jj];
      assert s[j + 1..] == d[jj + 1..];
      assert EmailSplitAt(s, i, j);
    }
    if EmailShape(s) {
      var i, j :| EmailSplitAt(s, i, j);
      assert forall k :: 0 <= k < i ==> s[k] == s[..i][k];
      assert FirstAt(s) == i;
      var d := s[i + 1..];
      assert d[j - i - 1] == '.';
      forall k | 0 <= k < |d| ensures Plain(d[k]) {
        if k < j - i - 1 {
          assert d[k] == s[i + 1..j][k];
        } else if k > j - i - 1 {
          assert d[k] == s[j + 1..][k - (j - i)];
        }
      }
    }
  }

  /** `^[a-zA-Z0-9_.]{3,20}$` */
  predicate UsernameChar(c: char) { IsAlnum(c) || c == '_' || c == '.' }

  predicate UsernamePattern(s: string)
  {
    3 <= |s| <= 20 && forall k :: 0 <= k < |s| ==> UsernameChar(s[k])
  }

  const IdentifierMessage: string := "Identifier must be a valid email or username"

  /** `identifierSchema`: one refinement issue unless the identifier is an
      email or a username. */
  function IdentifierIssues(identifier: string): (r: seq<Issue>)
    ensures r == [] <==> EmailShape(identifier) || UsernamePattern(identifier)
    ensures r != [] ==> r == [Issue(Custom, [Key("identifier")], IdentifierMessage)]
  {
    IsEmailIffShape(identifier);
    FieldIssue(IsEmail(identifier) || UsernamePattern(identifier), "identifier", IdentifierMessage)
  }

  /** The two readings of an identifier never overlap: an email holds an
      `@`, which no username may. */
  lemma EmailIsNeverUsername(s: string)
    requires EmailShape(s)
    ensures !UsernamePattern(s)
  {
    var i, j :| EmailSplitAt(s, i, j);
    assert !UsernameChar(s[i]);
  }

  /** Every generated username is an identifier one can log in with. */
  lemma GeneratedUsernameIsIdentifier(users: seq<Users.User>, fullName: string, draws: seq<int>)
    requires Usernames.Draws(draws) && Usernames.Generate(users, fullName, draws).Some?
    ensures UsernamePattern(Usernames.Generate(users, fullName, draws).value)
    ensures IdentifierIssues(Usernames.Generate(users, fullName, draws).value) == []
  {
    var name := Usernames.Generate(users, fullName, draws).value;
    var base := Usernames.Base(fullName);
    forall k | 0 <= k < |name| ensures UsernameChar(name[k]) {
      if k < |base| {
        assert name[k] == base[k];
      } else {
        assert name[k] == name[|base|..][k - |base|];
      }
    }
  }

  /** `[@$!%*?&]` */
  predicate Special(c: char)
  {
    c == '@' || c == '$' || c == '!' || c == '%' || c == '*' || c == '?' || c == '&'
  }

  predicate PasswordChar(c: char) { IsLetter(c) || IsDigit(c) || Special(c) }

  predicate HasLower(s: string) { exists k :: 0 <= k < |s| && IsLower(s[k]) }
  predicate HasUpper(s: string) { exists k :: 0 <= k < |s| && IsUpper(s[k]) }
  predicate HasDigit(s: string) { exists k :: 0 <= k < |s| && IsDigit(s[k]) }
  predicate HasSpecial(s: string) { exists k :: 0 <= k < |s| && Special(s[k]) }

  /** `^(?=.*[a-z])(?=.*[A-Z])(?=.*\d)(?=.*[@$!%*?&])[A-Za-z\d@$!%*?&]{8,}$`.
      A line break would stop a look-ahead's `.*`, but no line break passes
      the character class, so the look-aheads are plain membership tests. */
  predicate PasswordPattern(s: string)
  {
    && |s| >= 8 && (forall k :: 0 <= k < |s| ==> PasswordChar(s[k]))
    && HasLower(s) && HasUpper(s) && HasDigit(s) && HasSpecial(s)
  }

  function PasswordLongMessage(kind: string): string
  {
    kind + " can't be longer than 20 characters."
  }

  function PasswordRuleMessage(kind: string): string
  {
    kind + " must have at least 8 characters," + " one uppercase, one lowercase," + " one number, and one special character."
  }

  /** `passwordSchema(kind)` on the field `field`: the length cap, counted in
      UTF-16 code units, and the pattern are both checked, so an over-long
      password can get two issues. */
  function PasswordIssues(kind: string, field: string, s: string): (r: seq<Issue>)
    ensures r == [] <==> Utf16Length(s) <= 20 && PasswordPattern(s)
    ensures Utf16Length(s) > 20 ==> |r| >= 1 && r[0] == Issue(TooBig, [Key(field)], PasswordLongMessage(kind))
    ensures |r| <= 2 && forall k :: 0 <= k < |r| ==> r[k].path == [Key(field)]
  {
    var long := if Utf16Length(s) > 20 then [Issue(TooBig, [Key(field)], PasswordLongMessage(kind))] else [];
    var rule := if PasswordPattern(s) then [] else [Issue(InvalidString, [Key(field)], PasswordRuleMessage(kind))];
    long + rule
  }

  /** The reference partner of `PasswordIssues`: the password rule written
      as one pass over the characters with a flag per class instead of a
      regular expression with look-aheads. It accepts exactly what the
      schema accepts. */
  method CheckPassword(s: string) returns (ok: bool)
    ensures ok <==> PasswordIssues("Password", "password", s) == []
  {
    if |s| < 8 || |s| > 20 {
      return false;
    }
    var lower, upper, digit, special, allowed := false, false, false, false, true;
    var i := 0;
    while i < |s|
      invariant 0 <= i <= |s|
      invariant lower <==> HasLower(s[..i])
      invariant upper <==> HasUpper(s[..i])
      invariant digit <==> HasDigit(s[..i])
      invariant special <==> HasSpecial(s[..i])
      invariant allowed <==> forall k :: 0 <= k < i ==> PasswordChar(s[k])
    {
      var c := s[i];
      assert s[..i + 1] == s[..i] + [c];
      lower := lower || IsLower(c);
      upper := upper || IsUpper(c);
      digit := digit || IsDigit(c);
      special := special || Special(c);
      allowed := allowed && PasswordChar(c);
      i := i + 1;
    }
    assert s[..i] == s;
    ok := lower && upper && digit && special && allowed;
  }

  const FullNameShort: string := "Full name must be at least 3 characters"
  const FullNameLong: string := "Full name must be at most 40 characters"
  const FullNameChars: string := "Full name can only contain letters and spaces."

  /** `^[a-zA-Z\s]+$` */
  predicate NameChars(s: string)
  {
    |s| > 0 && forall k :: 0 <= k < |s| ==> IsLetter(s[k]) || IsSpace(s[k])
  }

  /** `fullNameSchema`: the length bounds, counted in UTF-16 code units, and
      the pattern, every failing check reported. */
  function FullNameIssues(s: string): (r: seq<Issue>)
    ensures r == [] <==> 3 <= Utf16Length(s) <= 40 && NameChars(s)
    ensures |r| <= 2
    ensures Utf16Length(s) < 3 ==> r[0] == Issue(TooSmall, [Key("fullName")], FullNameShort)
    ensures Utf16Length(s) > 40 ==> r[0] == Issue(TooBig, [Key("fullName")], FullNameLong)
    ensures !NameChars(s) ==> r[|r| - 1] == Issue(InvalidString, [Key("fullName")], FullNameChars)
  {
    (if Utf16Length(s) < 3 then [Issue(TooSmall, [Key("fullName")], FullNameShort)] else [])
    + (if Utf16Length(s) > 40 then [Issue(TooBig, [Key("fullName")], FullNameLong)] else [])
    + (if NameChars(s) then [] else [Issue(InvalidString, [Key("fullName")], FullNameChars)])
  }

  /** Astral characters count twice against the length caps: 15 of them are
      too long for a password and 21 too long for a full name. */
  lemma AstralTextCountsTwice(c: char)
    requires IsAstral(c)
    ensures PasswordIssues("Password", "password", seq(15, _ => c))[0] == Issue(TooBig, [Key("password")], PasswordLongMessage("Password"))
    ensures FullNameIssues(seq(21, _ => c))[0] == Issue(TooBig, [Key("fullName")], FullNameLong)
  {
    assert Utf16Length(seq(15, _ => c)) == 30;
    assert Utf16Length(seq(21, _ => c)) == 42;
  }

  /** The schema counts the name before the sanitiser trims it, so an
      accepted name can be stored shorter than three characters. */
  lemma AcceptedNameMayShrink()
    ensures FullNameIssues(" ab ") == []
    ensures Sanitize.SanitizeAsWritten(JStr(" ab ")) == JStr("ab")
    ensures Sanitize.Sanitize(JStr(" ab ")) == JStr("ab")
  {
    PaddedNameAccepted();
    EscapePadded();
    assert Sanitize.SanitizeAsWritten(JStr(" ab ")) == JStr(Sanitize.EscapeAsWritten(" ab "));
    assert Sanitize.Sanitize(JStr(" ab ")) == JStr(Sanitize.Escape(" ab "));
  }

  lemma EscapePadded()
    ensures Sanitize.EscapeAsWritten(" ab ") == "ab"
    ensures Sanitize.Escape(" ab ") == "ab"
  {
    var s := " ab ";
    assert forall k :: 0 <= k < |s| ==> Sanitize.Plain(s[k]);
    Sanitize.PlainOnlyTrimmed(s);
    TrimPadded();
  }

  /** Text that trims to letters and digits escapes to the trimmed text. */
  lemma TrimmedAlnumEscapes(s: string, t: string)
    requires Text.Trim(s) == t && forall k :: 0 <= k < |t| ==> IsAlnum(t[k])
    ensures Sanitize.Escape(s) == t
  {
    assert forall k :: 0 <= k < |t| ==> Sanitize.Plain(t[k]);
    Sanitize.EncodePlain(t);
  }

  lemma PaddedNameAccepted()
    ensures FullNameIssues(" ab ") == []
  {
    assert NameChars(" ab ");
  }

  lemma TrimPadded()
    ensures Text.Trim(" ab ") == "ab"
  {
    var s := " ab ";
    assert IsSpace(s[0]) && s[1..] == "ab ";
    var t := "ab ";
    assert !IsSpace(t[0]);
    assert Text.TrimStart(t) == t;
    assert Text.TrimStart(s) == t;
    assert IsSpace(t[2]) && t[..2] == "ab";
    var u := "ab";
    assert !IsSpace(u[1]);
    assert Text.TrimEnd(u) == u;
    assert Text.TrimEnd(t) == u;
  }

  const DateMessage: string := "Date must be in YYYY-MM-DD format"

  /** `^\d{4}-\d{2}-\d{2}$` */
  predicate DatePattern(s: string)
  {
    && |s| == 10 && s[4] == '-' && s[7] == '-'
    && AllDigits(s[..4]) && AllDigits(s[5..7]) && AllDigits(s[8..])
  }

  /** The first refinement of `birthDate`. */
  function DateIssues(s: string): (r: seq<Issue>)
    ensures r == [] <==> DatePattern(s)
    ensures r != [] ==> r == [Issue(Custom, [Key("birthDate")], DateMessage)]
  {
    FieldIssue(DatePattern(s), "birthDate", DateMessage)
  }

  /** Zero-padded decimal spelling in exactly `width` digits. */
  function Padded(n: nat, width: nat): (r: string)
    requires n < Pow10(width)
    ensures |r| == width && AllDigits(r) && DigitsValue(r) == n
  {
    if width == 0 then ""
    else
      var init := Padded(n / 10, width - 1);
      var r := init + [(48 + n % 10) as char];
      assert r[..|r| - 1] == init;
      r
  }

  /** `YYYY-MM-DD` for a year, month and day that fit their widths. */
  function IsoDate(year: nat, month: nat, day: nat): (r: string)
    requires year < 10000 && month < 100 && day < 100
  {
    Padded(year, 4) + "-" + Padded(month, 2) + "-" + Padded(day, 2)
  }

  /** Every printed date matches the pattern, and its three digit groups
      read back as the numbers printed. */
  lemma IsoDateRoundTrip(year: nat, month: nat, day: nat)
    requires year < 10000 && month < 100 && day < 100
    ensures var s := IsoDate(year, month, day);
            && DatePattern(s)
            && DigitsValue(s[..4]) == year && DigitsValue(s[5..7]) == month && DigitsValue(s[8..]) == day
  {
    var s := IsoDate(year, month, day);
    assert Pow10(4) == 10000 && Pow10(2) == 100;
    assert s[..4] == Padded(year, 4);
    assert s[5..7] == Padded(month, 2);
    assert s[8..] == Padded(day, 2);
  }

  const UserIdRequired: string := "User ID is required"
  const UserIdInvalid: string := "Invalid MongoDB ObjectId"
  const RoleRequired: string := "Role is required"
  const RoleWrongType: string := "Role must be 'user' or 'admin'"

  /** `^[0-9a-fA-F]{24}$` */
  predicate ObjectIdPattern(s: string)
  {
    |s| == 24 && forall k :: 0 <= k < |s| ==> IsHex(s[k])
  }

  function UserIdIssues(body: seq<Field>): (r: seq<Issue>)
    ensures r == [] <==> Get(body, "userId").Some? && Get(body, "userId").value.JStr?
                         && ObjectIdPattern(Get(body, "userId").value.s)
    ensures |r| <= 1 && forall k :: 0 <= k < |r| ==> r[k].path == [Key("userId")]
    ensures Get(body, "userId").None? ==> r == [Issue(InvalidType, [Key("userId")], UserIdRequired)]
  {
    match Get(body, "userId")
    case None => [Issue(InvalidType, [Key("userId")], UserIdRequired)]
    case Some(JStr(s)) => if ObjectIdPattern(s) then [] else [Issue(InvalidString, [Key("userId")], UserIdInvalid)]
    case Some(v) => [Issue(InvalidType, [Key("userId")], "Expected string, received " + TypeName(v))]
  }

  /** The role names the enum admits. */
  function ParseRole(name: string): (r: Option<Users.Role>)
    ensures r.Some? <==> name == "user" || name == "admin"
    ensures r.Some? ==> Users.RoleName(r.value) == name && r.value != Users.SuperAdmin
  {
    if name == "user" then Some(Users.RoleUser)
    else if name == "admin" then Some(Users.Admin)
    else None
  }

  function RoleIssues(body: seq<Field>): (r: seq<Issue>)
    ensures r == [] <==> Get(body, "role").Some? && Get(body, "role").value.JStr?
                         && ParseRole(Get(body, "role").value.s).Some?
    ensures |r| <= 1 && forall k :: 0 <= k < |r| ==> r[k].path == [Key("role")]
    ensures Get(body, "role").None? ==> r == [Issue(InvalidType, [Key("role")], RoleRequired)]
  {
    match Get(body, "role")
    case None => [Issue(InvalidType, [Key("role")], RoleRequired)]
    case Some(JStr(s)) =>
      if ParseRole(s).Some? then []
      else [Issue(InvalidEnumValue, [Key("role")], "Invalid enum value. Expected 'user' | 'admin', received '" + s + "'")]
    case Some(_) => [Issue(InvalidType, [Key("role")], RoleWrongType)]
  }

  const ChangeRoleKeys: seq<string> := ["userId", "role"]

  /** The change-role body through the strict, sanitising wrapper: the
      user id and the role, or every issue found. */
  function ParseChangeUserRole(body: seq<Field>): (r: Parsed<(string, Users.Role)>)
    ensures r.Valid? <==>
              && UserIdIssues(body) == [] && RoleIssues(body) == []
              && forall k :: 0 <= k < |body| ==> body[k].key in ChangeRoleKeys
    ensures r.Valid? ==> && JStr(r.value.0) == Get(body, "userId").value
                         && JStr(Users.RoleName(r.value.1)) == Get(body, "role").value
                         && r.value.1 != Users.SuperAdmin
                         && ObjectIdPattern(r.value.0)
    ensures r.Invalid? ==> r.issues == UserIdIssues(body) + RoleIssues(body) + StrictIssues(body, ChangeRoleKeys)
  {
    var fieldIssues := UserIdIssues(body) + RoleIssues(body);
    match Sanitize.ValidateBody(body, ChangeRoleKeys, fieldIssues)
    case Invalid(issues) => Invalid(issues)
    case Valid(_) =>
      var id := Get(body, "userId").value.s;
      var role := ParseRole(Get(body, "role").value.s).value;
      Valid((id, role))
  }

  /** The values the sanitiser hands on for an accepted change-role body
      are the ones that came in, under the escaping as written and as
      intended alike: hex digits and role names hold nothing to escape or
      trim. */
  lemma ChangeRoleSurvivesSanitising(body: seq<Field>)
    requires ParseChangeUserRole(body).Valid?
    ensures var r := ParseChangeUserRole(body).value;
      && Sanitize.EscapeAsWritten(r.0) == r.0 && Sanitize.Escape(r.0) == r.0
      && Sanitize.EscapeAsWritten(Users.RoleName(r.1)) == Users.RoleName(r.1)
      && Sanitize.Escape(Users.RoleName(r.1)) == Users.RoleName(r.1)
  {
    var r := ParseChangeUserRole(body).value;
    assert ObjectIdPattern(r.0);
    PlainEscapes(r.0);
    RoleNameEscapes(r.1);
  }

  lemma RoleNameEscapes(role: Users.Role)
    ensures Sanitize.EscapeAsWritten(Users.RoleName(role)) == Users.RoleName(role)
    ensures Sanitize.Escape(Users.RoleName(role)) == Users.RoleName(role)
  {
    var name := Users.RoleName(role);
    forall k | 0 <= k < |name| ensures IsAlnum(name[k]) {
      match role
      case RoleUser => assert name == "user";
      case Admin => assert name == "admin";
      case SuperAdmin => assert name == "superAdmin";
    }
    PlainEscapes(name);
  }

  /** A string of letters and digits escapes to itself. */
  lemma PlainEscapes(s: string)
    requires |s| > 0 && forall k :: 0 <= k < |s| ==> IsAlnum(s[k])
    ensures Sanitize.EscapeAsWritten(s) == s && Sanitize.Escape(s) == s
  {
    assert forall x :: x in s ==> IsAlnum(x);
    Sanitize.PlainTextKept(s);
  }
}
