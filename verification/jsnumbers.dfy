/** JavaScript's `Number(text)` (the StringToNumber conversion of section
    7.1.4.1.1 of ECMA-262), which the page validators, the `z.coerce`
    schemas and the query builder all rely on. Surrounding whitespace is
    ignored and blank text is 0. Otherwise the text must be an unsigned
    `0x`, `0o` or `0b` integer, or a decimal literal: an optional sign,
    then `Infinity` or digits with an optional point and an optional
    exponent. Anything else is NaN. Values are exact rationals; rounding to
    the nearest double is outside the model. */
module JsNumbers {
  import opened Wrappers
  import opened Text
  import Sequences

  datatype Num = NaN | Finite(value: real) | Infinity(negative: bool)

  /** Unary minus. */
  function Negate(n: Num): Num
  {
    match n
    case NaN => NaN
    case Finite(v) => Finite(-v)
    case Infinity(negative) => Infinity(!negative)
  }

  predicate IsWhole(x: real)
  {
    x.Floor as real == x
  }

  /** `Number.isInteger`. */
  predicate IsInteger(n: Num)
  {
    n.Finite? && IsWhole(n.value)
  }

  /** `n > x` for a finite bound `x`; NaN compares false. */
  predicate Greater(n: Num, x: real)
  {
    match n
    case NaN => false
    case Finite(v) => v > x
    case Infinity(negative) => !negative
  }

  /** `n < x`. */
  predicate Less(n: Num, x: real)
  {
    match n
    case NaN => false
    case Finite(v) => v < x
    case Infinity(negative) => negative
  }

  /** `n <= x`. */
  predicate AtMost(n: Num, x: real)
  {
    match n
    case NaN => false
    case Finite(v) => v <= x
    case Infinity(negative) => negative
  }

  /** The value of a binary, octal, decimal or hexadecimal digit; 16 for
      anything else. */
  function DigitValue(c: char): (d: nat)
    ensures d <= 16
    ensures d < 10 <==> IsDigit(c)
  {
    if IsDigit(c) then c as nat - '0' as nat
    else if 'a' <= c <= 'f' then c as nat - 'a' as nat + 10
    else if 'A' <= c <= 'F' then c as nat - 'A' as nat + 10
    else 16
  }

  predicate DigitsIn(s: string, radix: nat)
  {
    forall k :: 0 <= k < |s| ==> DigitValue(s[k]) < radix
  }

  /** The value of a digit string in base `radix`. */
  function RadixValue(s: string, radix: nat): nat
  {
    if |s| == 0 then 0 else RadixValue(s[..|s| - 1], radix) * radix + DigitValue(s[|s| - 1])
  }

  /** The base that the letter after a leading `0` names: `x` 16, `o` 8,
      `b` 2; 0 for any other character. */
  function RadixOf(c: char): nat
  {
    if c == 'x' || c == 'X' then 16
    else if c == 'o' || c == 'O' then 8
    else if c == 'b' || c == 'B' then 2
    else 0
  }

  predicate IsExponentMark(c: char) { c == 'e' || c == 'E' }
  predicate IsPoint(c: char) { c == '.' }

  /** `m * 10^e`, exactly. */
  function Scale(m: nat, e: int): (r: real)
    ensures r >= 0.0 && (m > 0 ==> r > 0.0)
  {
    if e >= 0 then (m * Pow10(e)) as real else m as real / Pow10(-e) as real
  }

  /** The digits after an exponent mark, with an optional sign. */
  function Exponent(x: string): Option<int>
  {
    var digits := if |x| > 0 && (x[0] == '+' || x[0] == '-') then x[1..] else x;
    if |digits| > 0 && AllDigits(digits) then
      Some(if x[0] == '-' then -(DigitsValue(digits) as int) else DigitsValue(digits))
    else None
  }

  /** The value of whole and fraction digits under an exponent: at least
      one digit in all, and nothing but digits. */
  function Digits(whole: string, fraction: string, exponent: int): (r: Option<real>)
    ensures r.Some? ==> r.value >= 0.0
  {
    if AllDigits(whole) && AllDigits(fraction) && |whole| + |fraction| > 0 then
      AllDigitsAppend(whole, fraction);
      Some(Scale(DigitsValue(whole + fraction), exponent - |fraction|))
    else None
  }

  /** Digits with an optional point. */
  function Mantissa(m: string, exponent: int): (r: Option<real>)
    ensures r.Some? ==> r.value >= 0.0
  {
    match Sequences.FirstIndex(m, IsPoint)
    case None => Digits(m, "", exponent)
    case Some(p) => Digits(m[..p], m[p + 1..], exponent)
  }

  /** An unsigned decimal literal: a mantissa, then optionally an exponent
      mark and a signed exponent. */
  function UnsignedDecimal(u: string): (r: Option<real>)
    ensures r.Some? ==> r.value >= 0.0
  {
    match Sequences.FirstIndex(u, IsExponentMark)
    case None => Mantissa(u, 0)
    case Some(e) =>
      match Exponent(u[e + 1..])
      case None => None
      case Some(x) => Mantissa(u[..e], x)
  }

  /** `0x`, `0o` or `0b` followed by digits of that base. */
  predicate RadixLiteral(t: string)
  {
    |t| > 2 && t[0] == '0' && RadixOf(t[1]) > 0 && DigitsIn(t[2..], RadixOf(t[1]))
  }

  /** A decimal literal: an optional sign, then `Infinity` or an unsigned
      decimal. */
  function DecimalLiteral(t: string): Num
    requires |t| > 0
  {
    var u := if t[0] == '+' || t[0] == '-' then t[1..] else t;
    if u == "Infinity" then Infinity(t[0] == '-')
    else match UnsignedDecimal(u)
      case None => NaN
      case Some(v) => Finite(if t[0] == '-' then -v else v)
  }

  /** `Number(s)` on a string. */
  function StringToNumber(s: string): (r: Num)
    ensures Trim(s) == "" ==> r == Finite(0.0)
  {
    var t := Trim(s);
    if t == "" then Finite(0.0)
    else if RadixLiteral(t) then Finite(RadixValue(t[2..], RadixOf(t[1])) as real)
    else DecimalLiteral(t)
  }

  /** Only the three spellings of infinity read as infinite, with the sign
      they carry; a negative finite value needs a leading minus. */
  lemma {:induction false} SignedReadings(s: string)
    ensures StringToNumber(s).Infinity? <==> Trim(s) in ["Infinity", "+Infinity", "-Infinity"]
    ensures StringToNumber(s).Infinity? ==> (StringToNumber(s).negative <==> Trim(s)[0] == '-')
    ensures StringToNumber(s).Finite? && StringToNumber(s).value < 0.0 ==> Trim(s)[0] == '-'
  {
    var t := Trim(s);
    if t != "" && !RadixLiteral(t) {
      DecimalSigns(t);
    }
  }

  /** The sign facts for a decimal literal. */
  lemma {:induction false} DecimalSigns(t: string)
    requires |t| > 0
    ensures DecimalLiteral(t).Infinity? <==> t in ["Infinity", "+Infinity", "-Infinity"]
    ensures DecimalLiteral(t).Infinity? ==> (DecimalLiteral(t).negative <==> t[0] == '-')
    ensures DecimalLiteral(t).Finite? && DecimalLiteral(t).value < 0.0 ==> t[0] == '-'
  {
    var u := if t[0] == '+' || t[0] == '-' then t[1..] else t;
    assert t == "+Infinity" || t == "-Infinity" ==> u == "Infinity";
    if u == "Infinity" && (t[0] == '+' || t[0] == '-') {
      assert t == [t[0]] + u;
    }
  }

  /** Text that starts with a digit, a point or a sign, ends in no
      whitespace and has no base letter second is read as a decimal
      literal. */
  lemma {:induction false} ReadsAsDecimal(t: string)
    requires |t| > 0 && (IsDigit(t[0]) || IsPoint(t[0]) || t[0] == '-' || t[0] == '+')
    requires !IsSpace(t[|t| - 1]) && (|t| > 1 ==> RadixOf(t[1]) == 0)
    ensures StringToNumber(t) == DecimalLiteral(t)
  {
    TrimKeeps(t);
  }

  /** Without a point, the mantissa is all whole digits. */
  lemma {:induction false} NoPoint(m: string, x: int)
    requires forall k :: 0 <= k < |m| ==> !IsPoint(m[k])
    ensures Mantissa(m, x) == Digits(m, "", x)
  {
  }

  /** Without an exponent mark, the literal is all mantissa. */
  lemma {:induction false} NoMark(u: string)
    requires forall k :: 0 <= k < |u| ==> !IsExponentMark(u[k])
    ensures UnsignedDecimal(u) == Mantissa(u, 0)
  {
  }

  /** A numeral is an unsigned decimal with its digits' value. */
  lemma {:induction false} NumeralDecimal(s: string)
    requires |s| > 0 && AllDigits(s)
    ensures UnsignedDecimal(s) == Some(DigitsValue(s) as real)
  {
    assert forall k :: 0 <= k < |s| ==> IsDigit(s[k]);
    NoMark(s);
    NoPoint(s, 0);
    assert s + "" == s;
  }

  /** Text that starts with a digit or a point, ends in no whitespace and
      has no base letter second. */
  predicate UnsignedText(t: string)
  {
    |t| > 0 && (IsDigit(t[0]) || IsPoint(t[0])) && !IsSpace(t[|t| - 1])
    && (|t| > 1 ==> RadixOf(t[1]) == 0)
  }

  lemma {:induction false} NumeralText(s: string)
    requires |s| > 0 && AllDigits(s)
    ensures UnsignedText(s)
  {
    assert IsDigit(s[0]) && IsDigit(s[|s| - 1]);
    if |s| > 1 { assert IsDigit(s[1]); }
  }

  /** Text that starts with a digit or a point and reads as an unsigned
      decimal is that value. */
  lemma {:induction false} UnsignedReading(t: string)
    requires UnsignedText(t) && UnsignedDecimal(t).Some?
    ensures StringToNumber(t) == Finite(UnsignedDecimal(t).value)
  {
    ReadsAsDecimal(t);
    assert t != "Infinity";
  }

  /** A numeral reads as its decimal value, as `transform(Number)` does
      after the `^\d+$` test. */
  lemma {:induction false} NumeralReadsAsValue(s: string)
    requires |s| > 0 && AllDigits(s)
    ensures StringToNumber(s) == Finite(DigitsValue(s) as real)
  {
    NumeralText(s);
    NumeralDecimal(s);
    UnsignedReading(s);
  }

  /** Division by a positive power splits a shifted sum. */
  lemma {:induction false} ShiftedQuotient(n: nat, a: nat, b: nat, q: nat)
    requires q > 0 && n == a * q + b
    ensures n as real / q as real == a as real + b as real / q as real
  {
  }

  lemma FractionNonNegative(n: nat, q: nat)
    requires q > 0
    ensures n as real / q as real >= 0.0
  {
  }

  /** The first point splits a mantissa into whole and fraction digits. */
  lemma {:induction false} MantissaAtPoint(a: string, b: string, x: int)
    requires AllDigits(a)
    ensures Mantissa(a + "." + b, x) == Digits(a, b, x)
  {
    var t := a + "." + b;
    assert Sequences.FirstIndex(t, IsPoint) == Some(|a|) by {
      assert IsPoint(t[|a|]);
      assert forall k :: 0 <= k < |a| ==> t[k] == a[k] && !IsPoint(t[k]);
    }
    assert t[..|a|] == a && t[|a| + 1..] == b;
  }

  /** The value of whole and fraction digits with no exponent. */
  lemma {:induction false} DigitsWithFraction(a: string, b: string)
    requires AllDigits(a) && AllDigits(b) && |a| + |b| > 0
    ensures Digits(a, b, 0) == Some(DigitsValue(a) as real + DigitsValue(b) as real / Pow10(|b|) as real)
  {
    DigitsValueAppend(a, b);
    var n, q := DigitsValue(a + b), Pow10(|b|);
    assert Digits(a, b, 0) == Some(Scale(n, -|b|));
    ScaleDown(n, -|b|);
    ShiftedQuotient(n, DigitsValue(a), DigitsValue(b), q);
  }

  lemma {:induction false} ScaleDown(m: nat, e: int)
    requires e <= 0
    ensures Scale(m, e) == m as real / Pow10(-e) as real
  {
  }

  /** The characters of `a + "." + b`: digits and one point, no mark. */
  lemma {:induction false} PointText(a: string, b: string)
    requires AllDigits(a) && AllDigits(b) && |a| + |b| > 0
    ensures UnsignedText(a + "." + b)
    ensures forall k :: 0 <= k < |a + "." + b| ==> !IsExponentMark((a + "." + b)[k])
  {
    var t := a + "." + b;
    assert forall k :: 0 <= k < |t| ==> IsDigit(t[k]) || IsPoint(t[k]) by {
      assert forall k :: 0 <= k < |a| ==> t[k] == a[k];
      assert forall k :: |a| < k < |t| ==> t[k] == b[k - |a| - 1];
    }
    assert IsDigit(t[1]) || IsPoint(t[1]);
  }

  /** Digits, a point and digits read as whole part plus fraction. */
  lemma {:induction false} DecimalPointReading(a: string, b: string)
    requires AllDigits(a) && AllDigits(b) && |a| + |b| > 0
    ensures StringToNumber(a + "." + b)
              == Finite(DigitsValue(a) as real + DigitsValue(b) as real / Pow10(|b|) as real)
  {
    var t := a + "." + b;
    assert UnsignedDecimal(t) == Some(DigitsValue(a) as real + DigitsValue(b) as real / Pow10(|b|) as real) by {
      PointText(a, b);
      PointDecimal(a, b);
    }
    assert StringToNumber(t) == Finite(UnsignedDecimal(t).value) by {
      PointText(a, b);
      UnsignedReading(t);
    }
  }

  lemma {:induction false} PointDecimal(a: string, b: string)
    requires AllDigits(a) && AllDigits(b) && |a| + |b| > 0
    requires forall k :: 0 <= k < |a + "." + b| ==> !IsExponentMark((a + "." + b)[k])
    ensures UnsignedDecimal(a + "." + b)
              == Some(DigitsValue(a) as real + DigitsValue(b) as real / Pow10(|b|) as real)
  {
    NoMark(a + "." + b);
    MantissaAtPoint(a, b, 0);
    DigitsWithFraction(a, b);
  }

  /** A zero fraction leaves the whole part: `3.0` reads as 3. */
  lemma {:induction false} ZeroFractionReading(a: string, b: string)
    requires AllDigits(a) && AllDigits(b) && |a| + |b| > 0 && DigitsValue(b) == 0
    ensures StringToNumber(a + "." + b) == Finite(DigitsValue(a) as real)
  {
    DecimalPointReading(a, b);
    ZeroQuotient(Pow10(|b|));
  }

  lemma ZeroQuotient(q: nat)
    requires q > 0
    ensures 0 as real / q as real == 0.0
  {
  }

  /** The first exponent mark splits a literal into mantissa and exponent. */
  lemma {:induction false} LiteralAtMark(d: string, x: string)
    requires forall j :: 0 <= j < |d| ==> !IsExponentMark(d[j])
    ensures UnsignedDecimal(d + "e" + x)
              == match Exponent(x) case None => None case Some(k) => Mantissa(d, k)
  {
    var t := d + "e" + x;
    assert Sequences.FirstIndex(t, IsExponentMark) == Some(|d|) by {
      assert IsExponentMark(t[|d|]);
      assert forall j :: 0 <= j < |d| ==> t[j] == d[j];
    }
    assert t[..|d|] == d && t[|d| + 1..] == x;
  }

  /** The characters of `d + "e" + x` for digits `d` and `x`. */
  lemma {:induction false} ExponentText(d: string, x: string)
    requires |d| > 0 && AllDigits(d) && |x| > 0 && AllDigits(x)
    ensures UnsignedText(d + "e" + x)
  {
    var t := d + "e" + x;
    assert t[0] == d[0] && t[|t| - 1] == x[|x| - 1];
    assert IsDigit(x[|x| - 1]);
    if |d| > 1 { assert t[1] == d[1]; } else { assert t[1] == 'e'; }
  }

  /** Digits scaled up by a power of ten. */
  lemma {:induction false} DigitsWithExponent(d: string, k: nat)
    requires |d| > 0 && AllDigits(d)
    ensures Mantissa(d, k) == Some((DigitsValue(d) * Pow10(k)) as real)
  {
    assert forall j :: 0 <= j < |d| ==> IsDigit(d[j]);
    NoPoint(d, k);
    assert d + "" == d;
  }

  /** Digits, `e` and a printed exponent read as the digits times that
      power of ten. */
  lemma {:induction false} ExponentReading(d: string, k: nat)
    requires |d| > 0 && AllDigits(d)
    ensures StringToNumber(d + "e" + NatToString(k)) == Finite((DigitsValue(d) * Pow10(k)) as real)
  {
    var x := NatToString(k);
    var t := d + "e" + x;
    assert forall j :: 0 <= j < |d| ==> IsDigit(d[j]);
    assert Exponent(x) == Some(k) by { assert IsDigit(x[0]); }
    LiteralAtMark(d, x);
    DigitsWithExponent(d, k);
    ExponentText(d, x);
    UnsignedReading(t);
  }

  /** A mantissa that starts with a letter has no value. */
  lemma {:induction false} LetterMantissa(m: string, x: int)
    requires |m| > 0 && IsLetter(m[0])
    ensures Mantissa(m, x).None?
  {
    assert !IsPoint(m[0]) && !IsDigit(m[0]);
    match Sequences.FirstIndex(m, IsPoint)
    case None =>
    case Some(p) => assert m[..p][0] == m[0];
  }

  /** Text that starts with a letter other than the `I` of `Infinity`
      and ends in no whitespace reads as NaN. */
  lemma {:induction false} WordIsNaN(t: string)
    requires |t| > 0 && IsLetter(t[0]) && t[0] != 'I' && !IsSpace(t[|t| - 1])
    ensures StringToNumber(t) == NaN
  {
    TrimKeeps(t);
    assert !IsSpace(t[0]) && t[0] != '0' && t[0] != '+' && t[0] != '-';
    assert t != "Infinity";
    match Sequences.FirstIndex(t, IsExponentMark)
    case None => LetterMantissa(t, 0);
    case Some(e) =>
      if e > 0 {
        assert t[..e][0] == t[0];
        match Exponent(t[e + 1..])
        case None =>
        case Some(x) => LetterMantissa(t[..e], x);
      }
  }

  /** Reading back a printed integer gives the integer. */
  lemma {:induction false} ReadsIntToString(i: int)
    ensures StringToNumber(IntToString(i)) == Finite(i as real)
  {
    if i >= 0 {
      NumeralReadsAsValue(NatToString(i));
    } else {
      var n := NatToString(-i);
      var s := "-" + n;
      assert s[1..] == n;
      assert IsDigit(n[0]) && IsDigit(n[|n| - 1]);
      assert s[1] == n[0] && s[|s| - 1] == n[|n| - 1];
      ReadsAsDecimal(s);
      assert n != "Infinity";
      NumeralDecimal(n);
    }
  }

  /** A leading minus mirrors a leading plus: the same text reads as the
      negated number. */
  lemma {:induction false} SignsMirror(s: string)
    ensures StringToNumber("-" + s) == Negate(StringToNumber("+" + s))
  {
    var w := s[..ContentEnd(s)];
    TrimOfSigned('-', s);
    TrimOfSigned('+', s);
    assert ("-" + w)[1..] == w;
    assert ("+" + w)[1..] == w;
  }

  /** A sign is never whitespace, so trimming `c + s` keeps the sign and
      trims only the end of `s`. */
  lemma {:induction false} TrimOfSigned(c: char, s: string)
    requires !IsSpace(c)
    ensures Trim([c] + s) == [c] + s[..ContentEnd(s)]
  {
    TrimFromContent([c] + s);
    ContentEndOfSigned(c, s);
    ConsPrefix(c, s, ContentEnd(s));
  }

  lemma {:induction false} ConsPrefix(c: char, s: string, n: nat)
    requires n <= |s|
    ensures ([c] + s)[..n + 1] == [c] + s[..n]
  {
  }

  lemma {:induction false} ContentEndOfSigned(c: char, s: string)
    requires !IsSpace(c)
    ensures ContentEnd([c] + s) == ContentEnd(s) + 1
  {
    var t := [c] + s;
    if |s| > 0 && IsSpace(s[|s| - 1]) {
      assert t[..|t| - 1] == [c] + s[..|s| - 1];
      ContentEndOfSigned(c, s[..|s| - 1]);
    }
  }
}
