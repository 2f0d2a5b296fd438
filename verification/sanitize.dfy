/** The input sanitiser every request body passes through after its schema
    accepted it: strings are HTML-escaped and trimmed, arrays and objects
    are walked, values under the password keys are left alone, and
    everything else is returned as it came. The body schema is made strict
    first, so an unknown key is a validation issue.

    As written, the escaping replaces `<`, then `>`, then `&`, so the `&`
    of the entities made by the first two passes is escaped again. The
    model keeps that version (`EscapeAsWritten`, used by `ValidateBody`)
    next to the order the escaping evidently intends (`Escape`, `&` first,
    used by `ValidateBodyIntended`). */
module Sanitize {
  import opened Wrappers
  import opened Text
  import opened Zod

  const IgnoredKeys: seq<string> := ["password", "oldPassword", "newPassword"]

  /** `s.replace(/c/g, rep)`. */
  function ReplaceAll(s: string, c: char, rep: string): (r: string)
    ensures forall x :: x in r ==> (x in s && x != c) || x in rep
  {
    if |s| == 0 then ""
    else (if s[0] == c then rep else [s[0]]) + ReplaceAll(s[1..], c, rep)
  }

  lemma {:induction false} ReplaceAllAppend(a: string, b: string, c: char, rep: string)
    ensures ReplaceAll(a + b, c, rep) == ReplaceAll(a, c, rep) + ReplaceAll(b, c, rep)
  {
    if |a| > 0 {
      assert (a + b)[1..] == a[1..] + b;
      ReplaceAllAppend(a[1..], b, c, rep);
    } else {
      assert a + b == b;
    }
  }

  /** The three passes as the source chains them. */
  function EscapeAsWritten(s: string): (r: string)
    ensures '<' !in r && '>' !in r
  {
    var lt := ReplaceAll(s, '<', "&lt;");
    var gt := ReplaceAll(lt, '>', "&gt;");
    var amp := ReplaceAll(gt, '&', "&amp;");
    assert '<' !in lt;
    assert '<' !in gt && '>' !in gt;
    assert '<' !in amp && '>' !in amp;
    var r := Trim(amp);
    SliceKeeps(amp, r, LeadingSpace(amp));
    r
  }

  /** Replacing a character the string does not hold changes nothing. */
  lemma {:induction false} ReplaceAbsent(s: string, c: char, rep: string)
    requires c !in s
    ensures ReplaceAll(s, c, rep) == s
  {
    if |s| > 0 {
      assert c !in s[1..];
      ReplaceAbsent(s[1..], c, rep);
    }
  }

  lemma ReplaceOne(x: char, c: char, rep: string)
    ensures ReplaceAll([x], c, rep) == if x == c then rep else [x]
  {
    assert [x][1..] == "";
  }

  /** Every character of a slice is a character of the whole. */
  lemma SliceKeeps(s: string, r: string, i: nat)
    requires i + |r| <= |s| && r == s[i..i + |r|]
    ensures forall x :: x in r ==> x in s
  {
    forall x | x in r ensures x in s {
      var k :| 0 <= k < |r| && r[k] == x;
      assert s[i + k] == x;
    }
  }

  /** The HTML entity for one character, or the character itself. */
  function EncodeChar(c: char): (r: string)
    ensures |r| > 0
    ensures (IsSpace(c) ==> r == [c]) && (!IsSpace(c) ==> !IsSpace(r[0]) && !IsSpace(r[|r| - 1]))
  {
    if c == '&' then "&amp;" else if c == '<' then "&lt;" else if c == '>' then "&gt;" else [c]
  }

  /** Each character encoded in place. */
  function Encode(s: string): (r: string)
    ensures '<' !in r && '>' !in r
  {
    if |s| == 0 then "" else EncodeChar(s[0]) + Encode(s[1..])
  }

  lemma {:induction false} EncodeAppend(a: string, b: string)
    ensures Encode(a + b) == Encode(a) + Encode(b)
  {
    if |a| > 0 {
      assert (a + b)[1..] == a[1..] + b;
      EncodeAppend(a[1..], b);
    } else {
      assert a + b == b;
    }
  }

  /** The escaping with `&` replaced first, then `<`, then `>`, and the
      result trimmed. */
  function Escape(s: string): (r: string)
    ensures '<' !in r && '>' !in r
    ensures r == Encode(Trim(s))
  {
    var amp := ReplaceAll(s, '&', "&amp;");
    var lt := ReplaceAll(amp, '<', "&lt;");
    var gt := ReplaceAll(lt, '>', "&gt;");
    ChainIsEncode(s);
    EncodeCommutesWithTrim(s);
    Trim(gt)
  }

  /** The three passes in the intended order replace each character by its
      entity. */
  lemma {:induction false} ChainIsEncode(s: string)
    ensures ReplaceAll(ReplaceAll(ReplaceAll(s, '&', "&amp;"), '<', "&lt;"), '>', "&gt;") == Encode(s)
  {
    if |s| > 0 {
      var head := [s[0]];
      assert s == head + s[1..];
      ReplaceAllAppend(head, s[1..], '&', "&amp;");
      var a1, a2 := ReplaceAll(head, '&', "&amp;"), ReplaceAll(s[1..], '&', "&amp;");
      ReplaceAllAppend(a1, a2, '<', "&lt;");
      var b1, b2 := ReplaceAll(a1, '<', "&lt;"), ReplaceAll(a2, '<', "&lt;");
      ReplaceAllAppend(b1, b2, '>', "&gt;");
      ChainIsEncode(s[1..]);
      ChainOfOne(s[0]);
    }
  }

  lemma ChainOfOne(c: char)
    ensures ReplaceAll(ReplaceAll(ReplaceAll([c], '&', "&amp;"), '<', "&lt;"), '>', "&gt;") == EncodeChar(c)
  {
    ReplaceOne(c, '&', "&amp;");
    var amp := ReplaceAll([c], '&', "&amp;");
    if c == '&' {
      ReplaceAbsent("&amp;", '<', "&lt;");
      ReplaceAbsent("&amp;", '>', "&gt;");
    } else {
      ReplaceOne(c, '<', "&lt;");
      if c == '<' {
        ReplaceAbsent("&lt;", '>', "&gt;");
      } else {
        ReplaceOne(c, '>', "&gt;");
      }
    }
  }

  /** Encoding leaves whitespace alone and turns every other character
      into something that starts and ends with a non-space, so trimming
      before or after encoding is the same. */
  lemma EncodeCommutesWithTrim(s: string)
    ensures Trim(Encode(s)) == Encode(Trim(s))
  {
    EncodeTrimStart(s);
    EncodeTrimEnd(TrimStart(s));
  }

  lemma {:induction false} EncodeTrimStart(s: string)
    ensures TrimStart(Encode(s)) == Encode(TrimStart(s))
  {
    if |s| > 0 {
      var e := Encode(s);
      if IsSpace(s[0]) {
        assert e == [s[0]] + Encode(s[1..]);
        assert e[1..] == Encode(s[1..]);
        EncodeTrimStart(s[1..]);
        TrimStartStep(s);
        TrimStartStep(e);
      } else {
        assert !IsSpace(e[0]);
        TrimStartStops(s);
        TrimStartStops(e);
      }
    }
  }

  lemma {:induction false} EncodeTrimEnd(s: string)
    ensures TrimEnd(Encode(s)) == Encode(TrimEnd(s))
    decreases |s|
  {
    if |s| > 0 {
      var init, last := s[..|s| - 1], s[|s| - 1];
      assert s == init + [last];
      EncodeAppend(init, [last]);
      var e := Encode(s);
      assert Encode([last]) == EncodeChar(last);
      if IsSpace(last) {
        assert e == Encode(init) + [last];
        assert e[..|e| - 1] == Encode(init);
        EncodeTrimEnd(init);
        TrimEndStep(s);
        TrimEndStep(e);
      } else {
        assert !IsSpace(e[|e| - 1]);
        TrimEndStops(s);
        TrimEndStops(e);
      }
    }
  }

  /** Reading entities back: `&amp;`, `&lt;` and `&gt;` become the
      character they stand for. */
  function Decode(s: string): (r: string)
    decreases |s|
  {
    if |s| == 0 then ""
    else if "&amp;" <= s then "&" + Decode(s[5..])
    else if "&lt;" <= s then "<" + Decode(s[4..])
    else if "&gt;" <= s then ">" + Decode(s[4..])
    else [s[0]] + Decode(s[1..])
  }

  /** Decoding undoes encoding. */
  lemma {:induction false} DecodeEncode(s: string)
    ensures Decode(Encode(s)) == s
  {
    if |s| > 0 {
      var c, t := s[0], Encode(s[1..]);
      var e := EncodeChar(c) + t;
      assert Encode(s) == e;
      DecodeEncode(s[1..]);
      assert e[|EncodeChar(c)|..] == t;
      if c == '&' {
        assert e[..5] == "&amp;";
        assert Decode(e) == "&" + Decode(t);
      } else if c == '<' {
        assert e[..4] == "&lt;";
        assert Decode(e) == "<" + Decode(t);
      } else if c == '>' {
        assert e[..4] == "&gt;" && e[1] == 'g';
        assert Decode(e) == ">" + Decode(t);
      } else {
        assert e[0] == c && e[1..] == t;
        assert Decode(e) == [c] + Decode(t);
      }
      assert s == [c] + s[1..];
    }
  }

  /** The intended escaping loses nothing but surrounding whitespace: the
      escaped string decodes to the trimmed input. */
  lemma EscapeRoundTrip(s: string)
    ensures Decode(Escape(s)) == Trim(s)
  {
    DecodeEncode(Trim(s));
  }

  /** As written, a `<` comes out the same as the literal text `&lt;`, so
      no reading of the output can tell the two inputs apart. */
  lemma AsWrittenCollides()
    ensures EscapeAsWritten("<") == EscapeAsWritten("&lt;") == "&amp;lt;"
  {
    AsWrittenOfLt();
    AsWrittenOfEntity();
  }

  /** As written, a `<` comes out double-escaped: decoding the output gives
      the text `&lt;`, not the `<` that was sent. */
  lemma AsWrittenDoubleEscapes()
    ensures Decode(EscapeAsWritten("<")) == "&lt;" != "<"
  {
    AsWrittenOfLt();
    DecodeDoubled();
  }

  /** With `&` escaped first the same two inputs stay apart, and `<`
      becomes its entity once. */
  lemma EscapeKeepsApart()
    ensures Escape("<") == "&lt;" != Escape("&lt;")
  {
    TrimKeeps("<");
    TrimKeeps("&lt;");
    assert Encode("<") == "&lt;";
    assert Encode("&lt;")[..5] == "&amp;";
  }

  lemma DecodeDoubled()
    ensures Decode("&amp;lt;") == "&lt;"
  {
    var s := "&amp;lt;";
    assert s[..5] == "&amp;" && s[5..] == "lt;";
    assert Decode(s) == "&" + Decode("lt;");
    var t := "lt;";
    assert t[1..] == "t;" && t[1..][1..] == ";" && t[1..][1..][1..] == "";
    assert Decode(";") == ";";
    assert Decode("t;") == "t;";
    assert Decode(t) == "lt;";
  }

  /** The as-written escaping, pass by pass. */
  lemma AsWrittenPasses(s: string)
    ensures EscapeAsWritten(s) == Trim(ReplaceAll(ReplaceAll(ReplaceAll(s, '<', "&lt;"), '>', "&gt;"), '&', "&amp;"))
  {
  }

  lemma AsWrittenOfLt()
    ensures EscapeAsWritten("<") == "&amp;lt;"
  {
    var lt := ReplaceAll("<", '<', "&lt;");
    assert lt == "&lt;" by {
      ReplaceOne('<', '<', "&lt;");
    }
    var gt := ReplaceAll(lt, '>', "&gt;");
    assert gt == "&lt;" by {
      ReplaceAbsent("&lt;", '>', "&gt;");
    }
    var amp := ReplaceAll(gt, '&', "&amp;");
    assert amp == "&amp;lt;" by {
      AmpOfEntity();
    }
    assert Trim(amp) == amp by {
      TrimKeeps("&amp;lt;");
    }
    AsWrittenPasses("<");
  }

  /** The first two passes leave a string without `<` and `>` alone. */
  lemma AngleFree(s: string)
    requires '<' !in s && '>' !in s
    ensures ReplaceAll(ReplaceAll(s, '<', "&lt;"), '>', "&gt;") == s
  {
    ReplaceAbsent(s, '<', "&lt;");
    ReplaceAbsent(s, '>', "&gt;");
  }

  lemma AsWrittenOfEntity()
    ensures EscapeAsWritten("&lt;") == "&amp;lt;"
  {
    AngleFree("&lt;");
    AmpOfEntity();
    TrimKeeps("&amp;lt;");
    AsWrittenPasses("&lt;");
  }

  lemma AmpOfEntity()
    ensures ReplaceAll("&lt;", '&', "&amp;") == "&amp;lt;"
  {
    assert "&lt;" == "&" + "lt;";
    ReplaceAllAppend("&", "lt;", '&', "&amp;");
    ReplaceOne('&', '&', "&amp;");
    ReplaceAbsent("lt;", '&', "&amp;");
  }

  /** `inputSanitize` with the string escaping as a parameter. */
  function SanitizeWith(j: Json, escape: string -> string): (r: Json)
    ensures j.JStr? ==> r == JStr(escape(j.s))
    ensures j.JNull? || j.JBool? || j.JNum? ==> r == j
    ensures j.JArr? ==> r.JArr? && |r.items| == |j.items|
    ensures j.JObj? ==> r.JObj? && Keys(r.fields) == Keys(j.fields)
    ensures j.JObj? ==> forall k :: 0 <= k < |j.fields| && j.fields[k].key in IgnoredKeys ==> r.fields[k] == j.fields[k]
    decreases j
  {
    match j
    case JStr(s) => JStr(escape(s))
    case JArr(items) => JArr(seq(|items|, k requires 0 <= k < |items| => SanitizeWith(items[k], escape)))
    case JObj(fields) =>
      JObj(seq(|fields|, k requires 0 <= k < |fields| =>
        if fields[k].key in IgnoredKeys then fields[k]
        else Field(fields[k].key, SanitizeWith(fields[k].value, escape))))
    case _ => j
  }

  /** The sanitiser the rest of the model uses. */
  function Sanitize(j: Json): Json
  {
    SanitizeWith(j, Escape)
  }

  /** The sanitiser as the source writes it. */
  function SanitizeAsWritten(j: Json): Json
  {
    SanitizeWith(j, EscapeAsWritten)
  }

  /** No string outside a password key holds `<` or `>`. */
  predicate Clean(j: Json)
    decreases j
  {
    match j
    case JStr(s) => '<' !in s && '>' !in s
    case JArr(items) => forall k :: 0 <= k < |items| ==> Clean(items[k])
    case JObj(fields) => forall k :: 0 <= k < |fields| ==> fields[k].key in IgnoredKeys || Clean(fields[k].value)
    case _ => true
  }

  /** Two values with the same structure: same kinds, same lengths, same
      keys in the same order, equal scalars, and equal values under the
      password keys; strings may differ. */
  predicate SameShape(a: Json, b: Json)
    decreases a
  {
    match a
    case JStr(_) => b.JStr?
    case JArr(xs) => b.JArr? && |b.items| == |xs| && forall k :: 0 <= k < |xs| ==> SameShape(xs[k], b.items[k])
    case JObj(fs) =>
      && b.JObj? && |b.fields| == |fs|
      && forall k :: 0 <= k < |fs| ==>
           && b.fields[k].key == fs[k].key
           && (if fs[k].key in IgnoredKeys then b.fields[k].value == fs[k].value else SameShape(fs[k].value, b.fields[k].value))
    case _ => b == a
  }

  /** Sanitising with an escaping that never outputs `<` or `>` leaves a
      clean value of the same shape. */
  lemma {:induction false} SanitizeIsCleanAndShaped(j: Json, escape: string -> string)
    requires forall s :: '<' !in escape(s) && '>' !in escape(s)
    ensures Clean(SanitizeWith(j, escape)) && SameShape(j, SanitizeWith(j, escape))
    decreases j
  {
    var r := SanitizeWith(j, escape);
    match j
    case JStr(s) =>
    case JArr(items) =>
      forall k | 0 <= k < |items| ensures Clean(r.items[k]) && SameShape(items[k], r.items[k]) {
        SanitizeIsCleanAndShaped(items[k], escape);
      }
    case JObj(fields) =>
      forall k | 0 <= k < |fields| && fields[k].key !in IgnoredKeys
        ensures Clean(r.fields[k].value) && SameShape(fields[k].value, r.fields[k].value)
      {
        assert fields[k] in fields;
        SanitizeIsCleanAndShaped(fields[k].value, escape);
      }
    case _ =>
  }

  /** Both escapings keep angle brackets out of every sanitised body. */
  lemma SanitizedBodiesAreClean(j: Json)
    ensures Clean(Sanitize(j)) && SameShape(j, Sanitize(j))
    ensures Clean(SanitizeAsWritten(j)) && SameShape(j, SanitizeAsWritten(j))
  {
    SanitizeIsCleanAndShaped(j, Escape);
    SanitizeIsCleanAndShaped(j, EscapeAsWritten);
  }

  /** The strict body check, then the sanitiser with the given escaping on
      the accepted value. */
  function ValidateBodyWith(fields: seq<Field>, known: seq<string>, fieldIssues: seq<Issue>, escape: string -> string): (r: Parsed<Json>)
    requires forall s :: '<' !in escape(s) && '>' !in escape(s)
    ensures r.Valid? <==> fieldIssues == [] && forall k :: 0 <= k < |fields| ==> fields[k].key in known
    ensures r.Valid? ==> r.value.JObj? && Keys(r.value.fields) == Keys(fields) && Clean(r.value)
    ensures r.Valid? ==> forall k :: 0 <= k < |fields| ==>
              if fields[k].key in IgnoredKeys then r.value.fields[k] == fields[k]
              else fields[k].value.JStr? ==> r.value.fields[k].value == JStr(escape(fields[k].value.s))
    ensures r.Invalid? ==> |r.issues| >= |fieldIssues| && r.issues[..|fieldIssues|] == fieldIssues
    ensures r.Invalid? && (exists k :: 0 <= k < |fields| && fields[k].key !in known) ==>
              |r.issues| == |fieldIssues| + 1 && r.issues[|fieldIssues|].code == UnrecognizedKeys(UnknownKeys(fields, known))
  {
    var issues := fieldIssues + StrictIssues(fields, known);
    if issues == [] then
      SanitizeIsCleanAndShaped(JObj(fields), escape);
      Valid(SanitizeWith(JObj(fields), escape))
    else Invalid(issues)
  }

  /** `zodWithInputSanitize(schema)` applied to a body object, as written:
      the strict form of the schema reports `fieldIssues` for the known
      keys and an issue for unknown ones; an accepted value then goes
      through `inputSanitize` with the source's pass order. A body with an
      issue is never sanitised. */
  function ValidateBody(fields: seq<Field>, known: seq<string>, fieldIssues: seq<Issue>): (r: Parsed<Json>)
    ensures r.Valid? <==> fieldIssues == [] && forall k :: 0 <= k < |fields| ==> fields[k].key in known
    ensures r.Valid? ==> r.value == SanitizeAsWritten(JObj(fields))
    ensures r.Valid? ==> r.value.JObj? && Keys(r.value.fields) == Keys(fields) && Clean(r.value)
    ensures r.Valid? ==> forall k :: 0 <= k < |fields| ==>
              if fields[k].key in IgnoredKeys then r.value.fields[k] == fields[k]
              else fields[k].value.JStr? ==> r.value.fields[k].value == JStr(EscapeAsWritten(fields[k].value.s))
    ensures r.Invalid? ==> |r.issues| >= |fieldIssues| && r.issues[..|fieldIssues|] == fieldIssues
    ensures r.Invalid? && (exists k :: 0 <= k < |fields| && fields[k].key !in known) ==>
              |r.issues| == |fieldIssues| + 1 && r.issues[|fieldIssues|].code == UnrecognizedKeys(UnknownKeys(fields, known))
  {
    ValidateBodyWith(fields, known, fieldIssues, EscapeAsWritten)
  }

  /** The same check with the escaping in its intended order. */
  function ValidateBodyIntended(fields: seq<Field>, known: seq<string>, fieldIssues: seq<Issue>): (r: Parsed<Json>)
    ensures r.Valid? <==> ValidateBody(fields, known, fieldIssues).Valid?
    ensures r.Valid? ==> r.value == Sanitize(JObj(fields))
    ensures r.Valid? ==> forall k :: 0 <= k < |fields| ==>
              if fields[k].key in IgnoredKeys then r.value.fields[k] == fields[k]
              else fields[k].value.JStr? ==> r.value.fields[k].value == JStr(Escape(fields[k].value.s))
    ensures r.Invalid? ==> r == ValidateBody(fields, known, fieldIssues)
  {
    ValidateBodyWith(fields, known, fieldIssues, Escape)
  }

  /** As written, an accepted body field holding "<" is handed on as
      "&amp;lt;". */
  lemma AsWrittenBodyDoubleEscapes(key: string, known: seq<string>)
    requires key in known && key !in IgnoredKeys
    ensures ValidateBody([Field(key, JStr("<"))], known, []).Valid?
    ensures ValidateBody([Field(key, JStr("<"))], known, []).value.fields[0].value == JStr("&amp;lt;")
  {
    AsWrittenOfLt();
  }

  /** With the intended order, every accepted string reads back as the
      trimmed text that was sent. */
  lemma IntendedBodyReadsBack(fields: seq<Field>, known: seq<string>, fieldIssues: seq<Issue>, k: nat)
    requires ValidateBodyIntended(fields, known, fieldIssues).Valid?
    requires k < |fields| && fields[k].key !in IgnoredKeys && fields[k].value.JStr?
    ensures ValidateBodyIntended(fields, known, fieldIssues).value.fields[k].value == JStr(Escape(fields[k].value.s))
    ensures Decode(Escape(fields[k].value.s)) == Trim(fields[k].value.s)
  {
    EscapeRoundTrip(fields[k].value.s);
  }

  /** A character with no entity. */
  predicate Plain(c: char) { c != '<' && c != '>' && c != '&' }

  lemma {:induction false} EncodePlain(s: string)
    requires forall k :: 0 <= k < |s| ==> Plain(s[k])
    ensures Encode(s) == s
  {
    if |s| > 0 {
      assert forall k :: 0 <= k < |s| - 1 ==> s[1..][k] == s[k + 1];
      EncodePlain(s[1..]);
      assert [s[0]] + s[1..] == s;
    }
  }

  /** As written, text with nothing to escape is only trimmed. */
  lemma AsWrittenPlain(s: string)
    requires forall k :: 0 <= k < |s| ==> Plain(s[k])
    ensures EscapeAsWritten(s) == Trim(s)
  {
    assert '<' !in s && '>' !in s && '&' !in s by {
      forall x | x in s ensures Plain(x) {
        var k :| 0 <= k < |s| && s[k] == x;
      }
    }
    AngleFree(s);
    ReplaceAbsent(s, '&', "&amp;");
  }

  /** Text with nothing to escape is only trimmed, by either escaping. */
  lemma PlainOnlyTrimmed(s: string)
    requires forall k :: 0 <= k < |s| ==> Plain(s[k])
    ensures EscapeAsWritten(s) == Trim(s) && Escape(s) == Trim(s)
  {
    AsWrittenPlain(s);
    var t := Trim(s);
    assert forall k :: 0 <= k < |t| ==> Plain(t[k]) by {
      var i := LeadingSpace(s);
      assert forall k :: 0 <= k < |t| ==> t[k] == s[i + k];
    }
    EncodePlain(t);
  }

  /** Text with nothing to escape and no surrounding whitespace passes
      both escapings unchanged. */
  lemma PlainTextKept(s: string)
    requires '<' !in s && '>' !in s && '&' !in s
    requires |s| > 0 && !IsSpace(s[0]) && !IsSpace(s[|s| - 1])
    ensures EscapeAsWritten(s) == s && Escape(s) == s
  {
    assert EscapeAsWritten(s) == s by {
      AngleFree(s);
      ReplaceAbsent(s, '&', "&amp;");
    }
    assert Escape(s) == s by {
      assert forall k :: 0 <= k < |s| ==> Plain(s[k]) by {
        assert forall k :: 0 <= k < |s| ==> s[k] in s;
      }
      TrimKeeps(s);
      EncodePlain(s);
    }
  }

  /** The password keys are skipped at any depth, so a password with `<`
      survives sanitising byte for byte. */
  lemma PasswordsSurvive(pw: string)
    ensures Sanitize(JObj([Field("user", JObj([Field("password", JStr(pw))]))]))
            == JObj([Field("user", JObj([Field("password", JStr(pw))]))])
  {
    var inner := JObj([Field("password", JStr(pw))]);
    assert "password" in IgnoredKeys && "user" !in IgnoredKeys;
    assert Sanitize(inner) == inner;
  }
}
