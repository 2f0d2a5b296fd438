/** Username generation: the base derived from a full name, and the retry
    loop that appends a random three-digit suffix until the name is free.
    The random draws are an input: the sequence of suffixes the loop would
    draw, each in 100..999. */
module Usernames {
  import opened Wrappers
  import opened Users
  import Text
  import Sequences

  const MinBase: nat := 6
  const MaxBase: nat := 15
  const Padding: string := "xyz123"

  /** What a base is made of: lower-case letters and digits. */
  predicate BaseChars(s: string)
  {
    forall k :: 0 <= k < |s| ==> Text.IsLower(s[k]) || Text.IsDigit(s[k])
  }

  /** `.toLowerCase().replace(/[^a-zA-Z0-9]/g, '')`; the later removal of
      whitespace finds none left. */
  function Kept(fullName: string): (r: string)
    ensures BaseChars(r) && |r| <= |fullName|
  {
    var r := Sequences.Filter(Text.ToLower(fullName), Text.IsAlnum);
    assert forall k :: 0 <= k < |r| ==> r[k] in Text.ToLower(fullName) && Text.IsAlnum(r[k]);
    assert forall k :: 0 <= k < |r| ==> !Text.IsUpper(r[k]) by {
      forall k | 0 <= k < |r| ensures !Text.IsUpper(r[k]) {
        var lower := Text.ToLower(fullName);
        var j :| 0 <= j < |lower| && lower[j] == r[k];
      }
    }
    r
  }

  /** The base: the kept characters cut to 15, or, when fewer than 6 are
      kept, those characters padded from "xyz123" up to 6. */
  function Base(fullName: string): (r: string)
    ensures MinBase <= |r| <= MaxBase && BaseChars(r)
    ensures var kept := Kept(fullName);
      |kept| >= MinBase ==> |r| <= |kept| && r == kept[..|r|] && (|r| == MaxBase || r == kept)
    ensures var kept := Kept(fullName);
      |kept| < MinBase ==> |r| == MinBase && r[..|kept|] == kept && r[|kept|..] == Padding[..MinBase - |kept|]
  {
    var kept := Kept(fullName);
    var cut := if |kept| <= MaxBase then kept else kept[..MaxBase];
    if |cut| < MinBase then
      var padded := (cut + Padding)[..MinBase];
      assert padded[..|kept|] == kept;
      padded
    else cut
  }

  /** Lower-casing a string with no upper-case letters changes nothing. */
  lemma ToLowerKeepsBase(s: string)
    requires BaseChars(s)
    ensures Text.ToLower(s) == s
  {
  }

  /** Filtering with a test every element passes changes nothing. */
  lemma {:induction false} FilterKeepsAll(s: string)
    requires forall k :: 0 <= k < |s| ==> Text.IsAlnum(s[k])
    ensures Sequences.Filter(s, Text.IsAlnum) == s
  {
    if |s| > 0 {
      FilterKeepsAll(s[1..]);
      assert [s[0]] + s[1..] == s;
    }
  }

  /** A base is its own base: deriving again from a generated base gives it
      back, so the derivation is idempotent. */
  lemma BaseIsFixed(fullName: string)
    ensures Base(Base(fullName)) == Base(fullName)
  {
    var b := Base(fullName);
    ToLowerKeepsBase(b);
    FilterKeepsAll(b);
    assert Kept(b) == b;
  }

  /** The suffixed candidate for one draw. */
  function Candidate(base: string, draw: int): (r: string)
    requires 100 <= draw <= 999
    ensures |r| == |base| + 3 && r[..|base|] == base
    ensures Text.AllDigits(r[|base|..]) && Text.DigitsValue(r[|base|..]) == draw
  {
    var r := base + Text.ThreeDigits(draw);
    assert r[|base|..] == Text.ThreeDigits(draw);
    r
  }

  predicate Draws(draws: seq<int>)
  {
    forall k :: 0 <= k < |draws| ==> 100 <= draws[k] <= 999
  }

  /** The name `generateUniqueUsername` returns, as written: the base if no
      findable user has it, otherwise the first drawn candidate no findable
      user has; none while every draw collides. */
  function Pick(users: seq<User>, base: string, draws: seq<int>): (r: Option<string>)
    requires Draws(draws)
    ensures r.Some? ==> !Exists(users, ByUsername(r.value))
    ensures r.Some? ==> r.value == base || exists k :: 0 <= k < |draws| && r.value == Candidate(base, draws[k])
    ensures !Exists(users, ByUsername(base)) ==> r == Some(base)
    ensures r.None? ==> forall k :: 0 <= k < |draws| ==> Exists(users, ByUsername(Candidate(base, draws[k])))
  {
    if !Exists(users, ByUsername(base)) then Some(base) else Retry(users, base, draws, Exists)
  }

  /** The loop after the base was taken, with `taken` as its test. */
  function Retry(users: seq<User>, base: string, draws: seq<int>, taken: (seq<User>, Key) -> bool): (r: Option<string>)
    requires Draws(draws)
    ensures r.Some? ==> !taken(users, ByUsername(r.value))
    ensures r.Some? ==> exists k :: 0 <= k < |draws| && r.value == Candidate(base, draws[k])
    ensures r.None? <==> forall k :: 0 <= k < |draws| ==> taken(users, ByUsername(Candidate(base, draws[k])))
  {
    if |draws| == 0 then None
    else
      var c := Candidate(base, draws[0]);
      if !taken(users, ByUsername(c)) then Some(c)
      else
        var r := Retry(users, base, draws[1..], taken);
        assert forall k :: 0 < k < |draws| ==> draws[k] == draws[1..][k - 1];
        if r.Some? then
          var k :| 0 <= k < |draws[1..]| && r.value == Candidate(base, draws[1..][k]);
          assert r.value == Candidate(base, draws[k + 1]);
          r
        else r
  }

  /** Whether any stored user, permanently deleted ones included, holds the
      name: what the unique index on `username` refuses. */
  predicate Held(users: seq<User>, key: Key)
  {
    exists j :: 0 <= j < |users| && Matches(users[j], key)
  }

  /** The name the loop would return if its test saw every stored user. */
  function PickIntended(users: seq<User>, base: string, draws: seq<int>): (r: Option<string>)
    requires Draws(draws)
    ensures r.Some? ==> forall j :: 0 <= j < |users| ==> users[j].username != r.value
    ensures r.Some? ==> r.value == base || exists k :: 0 <= k < |draws| && r.value == Candidate(base, draws[k])
    ensures !Held(users, ByUsername(base)) ==> r == Some(base)
  {
    if !Held(users, ByUsername(base)) then Some(base)
    else
      var r := Retry(users, base, draws, Held);
      assert r.Some? ==> !Held(users, ByUsername(r.value));
      r
  }

  /** The loop's test goes through the query hook, so a name that only a
      permanently deleted user holds counts as free; the unique index still
      holds it. */
  lemma PickMayReturnHeldName()
    ensures var gone := User(1, "johnny", "j@x.io", "", true, RoleUser, PermanentDeleted, "", "", Some(0), 0, 0);
      && Pick([gone], "johnny", []) == Some("johnny")
      && Held([gone], ByUsername("johnny"))
      && PickIntended([gone], "johnny", []) == None
  {
    var gone := User(1, "johnny", "j@x.io", "", true, RoleUser, PermanentDeleted, "", "", Some(0), 0, 0);
    assert !Hit(gone, ByUsername("johnny"));
    assert Matches([gone][0], ByUsername("johnny"));
  }

  /** `generateUniqueUsername` on a full name, with the draws the loop makes. */
  function Generate(users: seq<User>, fullName: string, draws: seq<int>): (r: Option<string>)
    requires Draws(draws)
    ensures r.Some? ==> forall j :: 0 <= j < |users| ==> users[j].username != r.value
    ensures r.Some? ==> var base := Base(fullName);
      && base <= r.value && MinBase <= |base| <= MaxBase && BaseChars(base)
      && (r.value == base || (|r.value| == |base| + 3 && Text.AllDigits(r.value[|base|..])
                                && 100 <= Text.DigitsValue(r.value[|base|..]) <= 999))
  {
    var base := Base(fullName);
    var r := PickIntended(users, base, draws);
    if r.Some? && r.value != base then
      var k :| 0 <= k < |draws| && r.value == Candidate(base, draws[k]);
      assert base <= r.value by { assert r.value[..|base|] == base; }
      r
    else r
  }
}
