/** ASCII character classes and the string helpers the services use:
    `trim`, `split(',')`, `join(sep)` and lower-casing. Unicode case mapping
    and Unicode whitespace are outside the model. */
module Text {
  import opened Wrappers

  /** JavaScript's `trim` and regex `\s`, restricted to ASCII. */
  predicate IsSpace(c: char)
  {
    c == ' ' || c == '\t' || c == '\n' || c == '\r' || c == '\U{000B}' || c == '\U{000C}'
  }

  predicate IsDigit(c: char) { '0' <= c <= '9' }
  predicate IsLower(c: char) { 'a' <= c <= 'z' }
  predicate IsUpper(c: char) { 'A' <= c <= 'Z' }
  predicate IsLetter(c: char) { IsLower(c) || IsUpper(c) }
  predicate IsAlnum(c: char) { IsLetter(c) || IsDigit(c) }
  predicate IsHex(c: char) { IsDigit(c) || 'a' <= c <= 'f' || 'A' <= c <= 'F' }

  /** Regex `\w`. */
  predicate IsWordChar(c: char) { IsAlnum(c) || c == '_' }

  predicate AllWordChars(s: string)
  {
    forall k :: 0 <= k < |s| ==> IsWordChar(s[k])
  }

  predicate AllDigits(s: string)
  {
    forall k :: 0 <= k < |s| ==> IsDigit(s[k])
  }

  /** How many whitespace characters `s` starts with. */
  function LeadingSpace(s: string): (n: nat)
    ensures n <= |s|
    ensures forall k :: 0 <= k < n ==> IsSpace(s[k])
    ensures n < |s| ==> !IsSpace(s[n])
  {
    if |s| > 0 && IsSpace(s[0]) then
      var n := 1 + LeadingSpace(s[1..]);
      assert forall k :: 0 < k < n ==> s[k] == s[1..][k - 1];
      n
    else 0
  }

  /** The length of `s` without its trailing whitespace. */
  function ContentEnd(s: string): (n: nat)
    ensures n <= |s|
    ensures forall k :: n <= k < |s| ==> IsSpace(s[k])
    ensures n > 0 ==> !IsSpace(s[n - 1])
  {
    if |s| > 0 && IsSpace(s[|s| - 1]) then ContentEnd(s[..|s| - 1]) else |s|
  }

  /** Leading whitespace removed. */
  function TrimStart(s: string): string
  {
    s[LeadingSpace(s)..]
  }

  /** Trailing whitespace removed. */
  function TrimEnd(s: string): string
  {
    s[..ContentEnd(s)]
  }

  /** Trimming the start drops one leading space at a time ... */
  lemma TrimStartStep(s: string)
    requires |s| > 0 && IsSpace(s[0])
    ensures TrimStart(s) == TrimStart(s[1..])
  {
    assert s[LeadingSpace(s)..] == s[1..][LeadingSpace(s[1..])..];
  }

  /** ... and stops at the first other character. */
  lemma TrimStartStops(s: string)
    requires |s| == 0 || !IsSpace(s[0])
    ensures TrimStart(s) == s
  {
  }

  /** Trimming the end drops one trailing space at a time ... */
  lemma TrimEndStep(s: string)
    requires |s| > 0 && IsSpace(s[|s| - 1])
    ensures TrimEnd(s) == TrimEnd(s[..|s| - 1])
  {
    var n := ContentEnd(s[..|s| - 1]);
    assert s[..n] == s[..|s| - 1][..n];
  }

  /** ... and stops at the last other character. */
  lemma TrimEndStops(s: string)
    requires |s| == 0 || !IsSpace(s[|s| - 1])
    ensures TrimEnd(s) == s
  {
  }

  /** `r` is the slice of `s` starting at `i` with only whitespace around it
      and none at its own ends. */
  predicate TrimmedSlice(s: string, i: int, r: string)
  {
    && 0 <= i && i + |r| <= |s| && r == s[i..i + |r|]
    && (forall k :: 0 <= k < i ==> IsSpace(s[k]))
    && (forall k :: i + |r| <= k < |s| ==> IsSpace(s[k]))
    && (|r| > 0 ==> !IsSpace(r[0]) && !IsSpace(r[|r| - 1]))
  }

  /** JavaScript `String.prototype.trim` over ASCII whitespace: the result is
      the slice of `s` left after dropping whitespace at both ends. */
  function Trim(s: string): (r: string)
    ensures TrimmedSlice(s, LeadingSpace(s), r)
  {
    var i := LeadingSpace(s);
    TrimFacts(s, i, ContentEnd(s[i..]));
    TrimEnd(TrimStart(s))
  }

  /** The slice between the leading and the trailing whitespace, from what
      the two counts promise. */
  lemma TrimFacts(s: string, i: nat, j: nat)
    requires i <= |s| && (forall k :: 0 <= k < i ==> IsSpace(s[k])) && (i < |s| ==> !IsSpace(s[i]))
    requires j <= |s| - i && (forall k :: j <= k < |s| - i ==> IsSpace(s[i..][k]))
    requires j > 0 ==> !IsSpace(s[i..][j - 1])
    ensures TrimmedSlice(s, i, s[i..][..j])
  {
    var r := s[i..][..j];
    assert r == s[i..i + j];
    forall k | i + j <= k < |s| ensures IsSpace(s[k]) {
      assert s[k] == s[i..][k - i];
    }
    if j > 0 {
      assert r[0] == s[i];
    }
  }

  /** `s.split(sep)`: the maximal separator-free pieces, in order. */
  function Split(s: string, sep: char): (parts: seq<string>)
    ensures |parts| >= 1
    ensures forall k :: 0 <= k < |parts| ==> sep !in parts[k]
  {
    if |s| == 0 then [""]
    else if s[0] == sep then [""] + Split(s[1..], sep)
    else
      var rest := Split(s[1..], sep);
      [[s[0]] + rest[0]] + rest[1..]
  }

  /** `parts.join(sep)`. */
  function Join(parts: seq<string>, sep: string): string
  {
    if |parts| == 0 then ""
    else if |parts| == 1 then parts[0]
    else parts[0] + sep + Join(parts[1..], sep)
  }

  /** Every occurrence of `c` replaced by `d`, nothing else changed. */
  function ReplaceChar(s: string, c: char, d: char): (r: string)
    ensures |r| == |s|
    ensures forall k :: 0 <= k < |s| ==> r[k] == if s[k] == c then d else s[k]
  {
    if |s| == 0 then "" else [if s[0] == c then d else s[0]] + ReplaceChar(s[1..], c, d)
  }

  lemma JoinPrependHead(x: string, parts: seq<string>, sep: string)
    requires |parts| >= 1
    ensures Join([x + parts[0]] + parts[1..], sep) == x + Join(parts, sep)
  {
    if |parts| == 1 {
      assert [x + parts[0]] + parts[1..] == [x + parts[0]];
    } else {
      assert ([x + parts[0]] + parts[1..])[1..] == parts[1..];
    }
  }

  /** A separator-free word followed by the separator is the first piece. */
  lemma {:induction false} SplitAfterWord(w: string, t: string, sep: char)
    requires sep !in w
    ensures Split(w + [sep] + t, sep) == [w] + Split(t, sep)
  {
    var s := w + [sep] + t;
    if |w| == 0 {
      assert s[1..] == t;
    } else {
      assert s[1..] == w[1..] + [sep] + t;
      SplitAfterWord(w[1..], t, sep);
      assert [w[0]] + w[1..] == w;
    }
  }

  /** The first piece is the longest separator-free prefix. */
  lemma {:induction false} SplitHead(s: string, sep: char)
    ensures var h := Split(s, sep)[0];
            && h <= s && sep !in h && (|h| == |s| || s[|h|] == sep)
  {
    if |s| > 0 && s[0] != sep {
      SplitHead(s[1..], sep);
      var h := Split(s[1..], sep)[0];
      assert [s[0]] + h <= [s[0]] + s[1..];
      assert [s[0]] + s[1..] == s;
    }
  }

  /** Splitting on `sep` and joining with `sep` gives back the string. */
  lemma {:induction false} SplitJoinRoundTrip(s: string, sep: char)
    ensures Join(Split(s, sep), [sep]) == s
  {
    if |s| == 0 {
    } else if s[0] == sep {
      var rest := Split(s[1..], sep);
      SplitJoinRoundTrip(s[1..], sep);
      assert ([""] + rest)[1..] == rest;
      assert Join([""] + rest, [sep]) == "" + [sep] + Join(rest, [sep]);
      assert s == [s[0]] + s[1..];
    } else {
      var rest := Split(s[1..], sep);
      SplitJoinRoundTrip(s[1..], sep);
      JoinPrependHead([s[0]], rest, [sep]);
      assert s == [s[0]] + s[1..];
    }
  }

  /** `s.split(c).join(d)` replaces every `c` by `d`. */
  lemma {:induction false} SplitJoinIsReplace(s: string, c: char, d: char)
    ensures Join(Split(s, c), [d]) == ReplaceChar(s, c, d)
  {
    if |s| == 0 {
    } else if s[0] == c {
      var rest := Split(s[1..], c);
      SplitJoinIsReplace(s[1..], c, d);
      assert ([""] + rest)[1..] == rest;
    } else {
      var rest := Split(s[1..], c);
      SplitJoinIsReplace(s[1..], c, d);
      JoinPrependHead([s[0]], rest, [d]);
    }
  }

  /** ASCII `toLowerCase`. */
  function ToLower(s: string): (r: string)
    ensures |r| == |s|
    ensures forall k :: 0 <= k < |s| ==> !IsUpper(r[k])
    ensures forall k :: 0 <= k < |s| ==> (IsLetter(s[k]) <==> IsLetter(r[k]))
    ensures forall k :: 0 <= k < |s| ==> (IsDigit(s[k]) <==> IsDigit(r[k]))
    ensures forall k :: 0 <= k < |s| ==> !IsUpper(s[k]) ==> r[k] == s[k]
  {
    if |s| == 0 then ""
    else
      [if IsUpper(s[0]) then (s[0] as int + 32) as char else s[0]] + ToLower(s[1..])
  }

  /** A character outside the Basic Multilingual Plane, which UTF-16 stores
      as a surrogate pair. */
  predicate IsAstral(c: char) { c as int > 0xFFFF }

  /** JavaScript's `length`: the number of UTF-16 code units, two for an
      astral character and one for any other. */
  function Utf16Length(s: string): (n: nat)
    ensures |s| <= n <= 2 * |s|
    ensures n == |s| <==> forall k :: 0 <= k < |s| ==> !IsAstral(s[k])
    ensures n == 2 * |s| <==> forall k :: 0 <= k < |s| ==> IsAstral(s[k])
  {
    if |s| == 0 then 0
    else
      assert forall k :: 1 <= k < |s| ==> s[k] == s[1..][k - 1];
      (if IsAstral(s[0]) then 2 else 1) + Utf16Length(s[1..])
  }

  /** The code-unit count of a concatenation is the sum of the parts' counts. */
  lemma {:induction false} Utf16LengthAppend(a: string, b: string)
    ensures Utf16Length(a + b) == Utf16Length(a) + Utf16Length(b)
  {
    if |a| > 0 {
      assert (a + b)[1..] == a[1..] + b;
      Utf16LengthAppend(a[1..], b);
    } else {
      assert a + b == b;
    }
  }

  /** Decimal value of a digit string (`Number` on a string matching `^\d+$`). */
  function DigitsValue(s: string): (n: nat)
    requires AllDigits(s)
  {
    if |s| == 0 then 0 else DigitsValue(s[..|s| - 1]) * 10 + (s[|s| - 1] as int - '0' as int)
  }

  /** `10^e`. */
  function Pow10(e: nat): (p: nat)
    ensures p >= 1
  {
    if e == 0 then 1 else 10 * Pow10(e - 1)
  }

  lemma AllDigitsAppend(a: string, b: string)
    requires AllDigits(a) && AllDigits(b)
    ensures AllDigits(a + b)
  {
    var ab := a + b;
    forall k | 0 <= k < |ab| ensures IsDigit(ab[k]) {
      if k < |a| { assert ab[k] == a[k]; } else { assert ab[k] == b[k - |a|]; }
    }
  }

  /** The arithmetic of one more digit: `(x p + y) 10 + d = x (10 p) + (10 y + d)`. */
  lemma ShiftStep(whole: int, x: int, p: int, y: int, d: int, tail: int, scale: int)
    requires whole == (x * p + y) * 10 + d && tail == y * 10 + d && scale == p * 10
    ensures whole == x * scale + tail
  {
    assert x * (p * 10) == (x * p) * 10;
  }

  /** Appending digits shifts the value left by their count. */
  lemma {:induction false} DigitsValueAppend(a: string, b: string)
    requires AllDigits(a) && AllDigits(b)
    ensures AllDigits(a + b)
    ensures DigitsValue(a + b) == DigitsValue(a) * Pow10(|b|) + DigitsValue(b)
  {
    AllDigitsAppend(a, b);
    if |b| == 0 {
      assert a + b == a;
    } else {
      var init := b[..|b| - 1];
      assert (a + b)[..|a + b| - 1] == a + init;
      assert (a + b)[|a + b| - 1] == b[|b| - 1];
      DigitsValueAppend(a, init);
      ShiftStep(DigitsValue(a + b), DigitsValue(a), Pow10(|init|), DigitsValue(init),
                b[|b| - 1] as int - '0' as int, DigitsValue(b), Pow10(|b|));
    }
  }

  /** Decimal spelling of a natural number, without leading zeros. */
  function NatToString(n: nat): (r: string)
    ensures |r| >= 1 && AllDigits(r) && DigitsValue(r) == n
    ensures |r| > 1 ==> r[0] != '0'
  {
    if n < 10 then
      var r := [(48 + n) as char];
      assert r[..0] == [];
      r
    else
      var p := NatToString(n / 10);
      var r := p + [(48 + n % 10) as char];
      assert r[..|r| - 1] == p;
      r
  }

  /** Decimal spelling of an integer, as JavaScript prints one. */
  function IntToString(i: int): (r: string)
    ensures i >= 0 ==> r == NatToString(i)
    ensures i < 0 ==> r == "-" + NatToString(-i)
  {
    if i < 0 then "-" + NatToString(-i) else NatToString(i)
  }

  /** A string with no whitespace at either end is its own trim. */
  lemma TrimKeeps(s: string)
    requires |s| > 0 && !IsSpace(s[0]) && !IsSpace(s[|s| - 1])
    ensures Trim(s) == s
  {
    assert TrimStart(s) == s;
    assert TrimEnd(s) == s;
  }

  /** Text that starts with a non-space only loses trailing whitespace. */
  lemma TrimFromContent(s: string)
    requires |s| > 0 && !IsSpace(s[0])
    ensures Trim(s) == TrimEnd(s)
  {
    assert TrimStart(s) == s;
  }

  /** The three-digit decimal spelling of 100..999. */
  function ThreeDigits(n: int): (r: string)
    requires 100 <= n <= 999
    ensures |r| == 3 && AllDigits(r) && r[0] != '0'
    ensures DigitsValue(r) == n
  {
    var a, b, c := n / 100, (n / 10) % 10, n % 10;
    var r := [(48 + a) as char, (48 + b) as char, (48 + c) as char];
    assert r[..2][..1] == r[..1] && r[..1][..0] == [];
    assert DigitsValue(r[..1]) == a;
    assert DigitsValue(r[..2]) == a * 10 + b;
    assert n == a * 100 + b * 10 + c;
    r
  }
}
