/** @-mentions: the names `/@([a-z0-9._]{3,20})/g` finds in a text, and the
    ids of the users those names belong to. Comments and stories share one
    extraction. */
module Mentions {
  import opened Wrappers
  import opened Users
  import Text

  /** The regex class `[a-z0-9._]`. */
  predicate IsNameChar(c: char)
  {
    Text.IsLower(c) || Text.IsDigit(c) || c == '.' || c == '_'
  }

  predicate AllNameChars(s: string)
  {
    forall k :: 0 <= k < |s| ==> IsNameChar(s[k])
  }

  const MinName: nat := 3
  const MaxName: nat := 20

  /** The longest prefix of `s` made of name characters. */
  function Run(s: string): (r: string)
    ensures |r| <= |s| && r == s[..|r|]
    ensures AllNameChars(r)
    ensures |r| < |s| ==> !IsNameChar(s[|r|])
  {
    if |s| > 0 && IsNameChar(s[0]) then
      var t := Run(s[1..]);
      assert [s[0]] + t == s[..|t| + 1];
      [s[0]] + t
    else []
  }

  /** What the pattern captures right after an "@": the run, cut to 20
      characters, when it has at least 3. */
  function Capture(s: string): (r: Option<string>)
    ensures r.Some? ==> MinName <= |r.value| <= MaxName && AllNameChars(r.value)
    ensures r.Some? ==> |r.value| <= |s| && r.value == s[..|r.value|]
    ensures r.Some? <==> |Run(s)| >= MinName
  {
    var run := Run(s);
    if |run| < MinName then None
    else if |run| <= MaxName then Some(run)
    else Some(run[..MaxName])
  }

  /** The `matchAll` scan: at an "@" that captures, emit the capture and
      resume after the match; otherwise move one character on. */
  function Extract(s: string): (r: seq<string>)
    ensures forall k :: 0 <= k < |r| ==> MinName <= |r[k]| <= MaxName && AllNameChars(r[k])
    ensures |r| <= AtCount(s)
    decreases |s|
  {
    if |s| == 0 then []
    else if s[0] == '@' && Capture(s[1..]).Some? then
      var m := Capture(s[1..]).value;
      NoAtInNames(s[1..], |m|);
      AtCountSplit(s, 1 + |m|);
      [m] + Extract(s[1 + |m|..])
    else
      AtCountSplit(s, 1);
      Extract(s[1..])
  }

  /** The number of "@" characters. */
  function AtCount(s: string): nat
  {
    if |s| == 0 then 0 else (if s[0] == '@' then 1 else 0) + AtCount(s[1..])
  }

  lemma {:induction false} AtCountSplit(s: string, n: nat)
    requires n <= |s|
    ensures AtCount(s) == AtCount(s[..n]) + AtCount(s[n..])
  {
    if n > 0 {
      AtCountSplit(s[1..], n - 1);
      assert s[1..][..n - 1] == s[..n][1..];
      assert s[1..][n - 1..] == s[n..];
    } else {
      assert s[..0] == [];
    }
  }

  /** A name-character prefix holds no "@". */
  lemma NoAtInNames(s: string, n: nat)
    requires n <= |Run(s)|
    ensures forall k :: 0 <= k < n ==> s[k] != '@'
  {
    forall k | 0 <= k < n ensures s[k] != '@' {
      assert s[k] == Run(s)[k];
    }
  }

  /** Reference reading: one capture per "@", in order, for every "@" whose
      following run has at least 3 name characters. */
  function PerAt(s: string): (r: seq<string>)
  {
    if |s| == 0 then []
    else (if s[0] == '@' && Capture(s[1..]).Some? then [Capture(s[1..]).value] else []) + PerAt(s[1..])
  }

  /** Skipping characters other than "@" skips no capture. */
  lemma {:induction false} PerAtSkipsNonAt(s: string, n: nat)
    requires n <= |s|
    requires forall k :: 0 <= k < n ==> s[k] != '@'
    ensures PerAt(s) == PerAt(s[n..])
  {
    if n > 0 {
      PerAtSkipsNonAt(s[1..], n - 1);
      assert s[1..][n - 1..] == s[n..];
    }
  }

  /** The scan finds exactly one name per capturing "@": resuming after a
      match loses nothing, as a match never contains an "@". */
  lemma {:induction false} ExtractIsPerAt(s: string)
    ensures Extract(s) == PerAt(s)
    decreases |s|
  {
    if |s| > 0 {
      if s[0] == '@' && Capture(s[1..]).Some? {
        var m := Capture(s[1..]).value;
        NoAtInNames(s[1..], |m|);
        PerAtSkipsNonAt(s[1..], |m|);
        assert s[1..][|m|..] == s[1 + |m|..];
        ExtractIsPerAt(s[1 + |m|..]);
      } else {
        ExtractIsPerAt(s[1..]);
      }
    }
  }

  /** The run ends where the name characters end. */
  lemma {:induction false} RunStops(s: string, n: nat)
    requires n <= |s| && AllNameChars(s[..n]) && (n == |s| || !IsNameChar(s[n]))
    ensures Run(s) == s[..n]
  {
    if n > 0 {
      assert s[1..][..n - 1] == s[..n][1..];
      RunStops(s[1..], n - 1);
      assert [s[0]] + s[1..][..n - 1] == s[..n];
    }
  }

  /** One mention, with or without a leading space. */
  lemma SingleMention()
    ensures Extract("@bob") == ["bob"] && Extract(" @bob") == ["bob"]
  {
    assert "@bob"[1..] == "bob" && "@bob"[4..] == "";
    RunStops("bob", 3);
    assert "bob"[..3] == "bob";
    assert Capture("bob") == Some("bob");
    assert Extract("@bob") == ["bob"] + Extract("");
    assert " @bob"[1..] == "@bob";
  }

  /** Mentioning a name twice yields it twice. */
  lemma RepeatedMentionsKept()
    ensures Extract("@bob @bob") == ["bob", "bob"]
  {
    var s := "@bob @bob";
    assert s[1..] == "bob @bob" && s[4..] == " @bob";
    RunStops("bob @bob", 3);
    assert "bob @bob"[..3] == "bob";
    assert Capture(s[1..]) == Some("bob");
    assert Extract(s) == ["bob"] + Extract(" @bob");
    SingleMention();
  }

  /** `name` is the username of the user with id `id`, as a lookup finds it. */
  predicate NameOf(users: seq<User>, name: string, id: Id)
  {
    Lookup(users, ByUsername(name)).Some? && Lookup(users, ByUsername(name)).value.id == id
  }

  /** The ids of the users the names belong to, one `findOne({ username })`
      per name in order, unknown names dropped. */
  function UserIds(users: seq<User>, names: seq<string>): (r: seq<Id>)
    ensures |r| <= |names|
    ensures forall id :: id in r <==> exists k :: 0 <= k < |names| && NameOf(users, names[k], id)
  {
    if |names| == 0 then []
    else
      var rest := UserIds(users, names[1..]);
      var head := match Lookup(users, ByUsername(names[0])) case Some(u) => [u.id] case None => [];
      forall id ensures id in head + rest <==> exists k :: 0 <= k < |names| && NameOf(users, names[k], id) {
        if id in rest {
          var k :| 0 <= k < |names[1..]| && NameOf(users, names[1..][k], id);
          assert names[k + 1] == names[1..][k];
        }
        if exists k :: 0 <= k < |names| && NameOf(users, names[k], id) {
          var k :| 0 <= k < |names| && NameOf(users, names[k], id);
          if k > 0 {
            assert names[1..][k - 1] == names[k];
          }
        }
      }
      head + rest
  }

  /** Looking names up commutes with concatenation, so the ids keep the
      order of the names. */
  lemma {:induction false} UserIdsKeepOrder(users: seq<User>, a: seq<string>, b: seq<string>)
    ensures UserIds(users, a + b) == UserIds(users, a) + UserIds(users, b)
  {
    if |a| == 0 {
      assert a + b == b;
    } else {
      assert (a + b)[0] == a[0];
      assert (a + b)[1..] == a[1..] + b;
      UserIdsKeepOrder(users, a[1..], b);
    }
  }

  /** `getMentionUserIdsFromContent` and `getMentionsUserIds` after
      `extractMentionsFromContent`. */
  function MentionIds(users: seq<User>, content: string): (r: seq<Id>)
    ensures |r| <= |Extract(content)| && |r| <= AtCount(content)
  {
    UserIds(users, Extract(content))
  }

  /** A mentioned id belongs to a user found by one of the extracted names. */
  lemma MentionedIdsAreUsers(users: seq<User>, content: string, id: Id)
    requires id in MentionIds(users, content)
    ensures exists k :: 0 <= k < |users| && users[k].id == id && Findable(users[k])
                        && users[k].username in Extract(content)
  {
    var names := Extract(content);
    var k :| 0 <= k < |names| && NameOf(users, names[k], id);
    var u := Lookup(users, ByUsername(names[k])).value;
    var j :| 0 <= j < |users| && users[j] == u;
  }
}
