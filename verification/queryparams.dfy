/** The shared list-query schema: `page` and `limit` coerced to integers,
    `searchTerm`, `fields` and `sort` trimmed and checked against their
    grammars, every other key passed through. The three regular expressions
    are recognised by one comma-list automaton, proved equal to a
    segment-by-segment reading of the same grammar. */
module QueryParams {
  import opened Wrappers
  import opened Text
  import opened Zod
  import opened JsNumbers
  import QueryBuilder

  /** Whether a comma-list segment takes a leading `-`. */
  datatype DashRule = OptionalDash | RequiredDash | NoDash

  /** `\w+` */
  predicate PlainName(t: string) { |t| > 0 && AllWordChars(t) }

  /** `-\w+` */
  predicate DashedName(t: string) { |t| > 1 && t[0] == '-' && AllWordChars(t[1..]) }

  predicate Segment(t: string, rule: DashRule)
  {
    match rule
    case OptionalDash => PlainName(t) || DashedName(t)
    case RequiredDash => DashedName(t)
    case NoDash => PlainName(t)
  }

  /** The grammar read piece by piece: every comma-separated piece is a
      segment. */
  predicate CommaList(s: string, rule: DashRule)
  {
    var parts := Split(s, ',');
    forall k :: 0 <= k < |parts| ==> Segment(parts[k], rule)
  }

  /** The regular expression as an automaton. State 0: a segment starts;
      state 1: after a leading `-`; state 2: inside a name, accepting. */
  predicate Recognise(s: string, state: int, rule: DashRule)
    decreases |s|
  {
    if |s| == 0 then state == 2
    else
      var c := s[0];
      if state == 0 then
        if c == '-' && rule != NoDash then Recognise(s[1..], 1, rule)
        else if IsWordChar(c) && rule != RequiredDash then Recognise(s[1..], 2, rule)
        else false
      else if state == 1 then
        IsWordChar(c) && Recognise(s[1..], 2, rule)
      else if state == 2 then
        if IsWordChar(c) then Recognise(s[1..], 2, rule)
        else if c == ',' then Recognise(s[1..], 0, rule)
        else false
      else false
  }

  /** What each automaton state demands of the first piece; the later pieces
      must all be segments. */
  predicate FirstPieceFits(t: string, state: int, rule: DashRule)
  {
    if state == 0 then Segment(t, rule)
    else if state == 1 then PlainName(t)
    else state == 2 && AllWordChars(t)
  }

  predicate RestAreSegments(parts: seq<string>, rule: DashRule)
  {
    forall k :: 1 <= k < |parts| ==> Segment(parts[k], rule)
  }

  /** What `RecogniseReadsPieces` states, for one string and state. */
  predicate ReadsPieces(s: string, state: int, rule: DashRule)
  {
    Recognise(s, state, rule) <==>
      FirstPieceFits(Split(s, ',')[0], state, rule) && RestAreSegments(Split(s, ','), rule)
  }

  lemma {:induction false} RecogniseReadsPieces(s: string, state: int, rule: DashRule)
    requires 0 <= state <= 2
    ensures ReadsPieces(s, state, rule)
    decreases |s|
  {
    if |s| == 0 {
      assert Split(s, ',') == [""];
    } else if s[0] == ',' {
      if state == 2 {
        RecogniseReadsPieces(s[1..], 0, rule);
      }
      ReadsPiecesAtComma(s, state, rule);
    } else {
      var c := s[0];
      if c == '-' && state == 0 && rule != NoDash {
        RecogniseReadsPieces(s[1..], 1, rule);
      } else if IsWordChar(c) && !(state == 0 && rule == RequiredDash) {
        RecogniseReadsPieces(s[1..], 2, rule);
      }
      ReadsPiecesInPiece(s, state, rule);
    }
  }

  /** A comma ends the first piece: only state 2 may read it, and then the
      rest is read from state 0. */
  lemma ReadsPiecesAtComma(s: string, state: int, rule: DashRule)
    requires 0 <= state <= 2 && |s| > 0 && s[0] == ','
    requires state == 2 ==> ReadsPieces(s[1..], 0, rule)
    ensures ReadsPieces(s, state, rule)
  {
    var parts := Split(s, ',');
    var rest := Split(s[1..], ',');
    assert parts == [""] + rest;
    assert !Segment("", rule) && !PlainName("");
    if state == 2 {
      assert forall k :: 1 <= k < |parts| ==> parts[k] == rest[k - 1];
      assert AllWordChars(parts[0]);
      if RestAreSegments(parts, rule) {
        forall k | 0 <= k < |rest| ensures Segment(rest[k], rule) {
          assert parts[k + 1] == rest[k];
        }
      }
    }
  }

  /** Any other character extends the first piece. */
  lemma ReadsPiecesInPiece(s: string, state: int, rule: DashRule)
    requires 0 <= state <= 2 && |s| > 0 && s[0] != ','
    requires s[0] == '-' && state == 0 && rule != NoDash ==> ReadsPieces(s[1..], 1, rule)
    requires IsWordChar(s[0]) && !(state == 0 && rule == RequiredDash) ==> ReadsPieces(s[1..], 2, rule)
    ensures ReadsPieces(s, state, rule)
  {
    var c := s[0];
    var parts := Split(s, ',');
    var rest := Split(s[1..], ',');
    var first := [c] + rest[0];
    assert parts == [first] + rest[1..];
    assert forall k :: 1 <= k < |parts| ==> parts[k] == rest[k];
    assert first[1..] == rest[0] && first[0] == c;
    if c == '-' {
      assert !PlainName(first) && !AllWordChars(first);
    } else if IsWordChar(c) {
      assert !DashedName(first);
      assert AllWordChars(first) <==> AllWordChars(rest[0]);
    } else {
      assert !PlainName(first) && !DashedName(first) && !AllWordChars(first);
    }
  }

  /** The automaton accepts exactly the comma lists of segments. */
  lemma RecogniseIsCommaList(s: string, rule: DashRule)
    ensures Recognise(s, 0, rule) <==> CommaList(s, rule)
  {
    RecogniseReadsPieces(s, 0, rule);
  }

  /** `sortRegex`: `^-?\w+(?:,-?\w+)*$`. */
  predicate SortPattern(s: string) { Recognise(s, 0, OptionalDash) }

  /** `allNegativeRegex` or `allPositiveRegex`: all pieces negated or none. */
  predicate FieldsPattern(s: string) { Recognise(s, 0, RequiredDash) || Recognise(s, 0, NoDash) }

  /** A projection list never mixes included and excluded fields, and every
      accepted sort or projection list is a non-empty list of names. */
  lemma FieldsNeverMix(s: string)
    requires FieldsPattern(s)
    ensures CommaList(s, RequiredDash) || CommaList(s, NoDash)
    ensures var parts := Split(s, ',');
      (forall k :: 0 <= k < |parts| ==> parts[k][0] == '-') || (forall k :: 0 <= k < |parts| ==> parts[k][0] != '-')
  {
    RecogniseIsCommaList(s, RequiredDash);
    RecogniseIsCommaList(s, NoDash);
    var parts := Split(s, ',');
    if !CommaList(s, RequiredDash) {
      forall k | 0 <= k < |parts| ensures parts[k][0] != '-' {
        assert PlainName(parts[k]);
      }
    }
  }

  /** A mixed list is rejected as a projection but accepted as a sort. */
  lemma MixedListIsSortOnly()
    ensures SortPattern("a,-b") && !FieldsPattern("a,-b")
  {
    assert Recognise("a,-b", 0, OptionalDash) by {
      assert "a,-b"[1..] == ",-b" && ",-b"[1..] == "-b" && "-b"[1..] == "b" && "b"[1..] == "";
    }
    assert !Recognise("a,-b", 0, RequiredDash);
    assert !Recognise("a,-b", 0, NoDash) by {
      assert "a,-b"[1..] == ",-b" && ",-b"[1..] == "-b";
    }
  }

  const PageNaN: string := "Page must be a valid integer."
  const PageMin: string := "Page must be greater than or equal to 1."
  const LimitNaN: string := "Limit must be a valid integer."
  const LimitMin: string := "Limit must be greater than or equal to 1."
  const LimitMax: string := "Limit must not exceed 1000."
  const SearchTooLong: string := "Search term should not exceed 200 characters."
  const FieldsMessage: string :=
    "Fields must be a comma-separated list of valid field names, e.g., \"-updatedDate,-image\" or \"updatedDate,image\". All values must either start with \"-\" or none should."
  const SortMessage: string :=
    "Sort must be a comma-separated list of field names with optional \"-\" prefix, e.g., \"updatedDate,createdAt\" or \"updatedDate,-createdAt\"."

  /** `page` passes when it reads as a whole number of at least 1. */
  predicate PageFits(n: Num)
  {
    IsInteger(n) && n.value >= 1.0
  }

  /** `limit` passes when it reads as a whole number in 1..1000. */
  predicate LimitFits(n: Num)
  {
    IsInteger(n) && 1.0 <= n.value <= 1000.0
  }

  /** `z.coerce.number().int().min(1)` on `page`: text reading as NaN draws
      the type issue alone; any other reading draws the integer issue when
      it is not whole and the minimum issue when it is below 1. The type
      option's message names both type issues. */
  function PageIssues(raw: map<string, string>): (r: seq<Issue>)
    ensures r == [] <==> "page" !in raw || PageFits(StringToNumber(raw["page"]))
    ensures "page" in raw && StringToNumber(raw["page"]).NaN? ==> r == [Issue(InvalidType, [Key("page")], PageNaN)]
    ensures |r| == 2 <==> "page" in raw && !StringToNumber(raw["page"]).NaN?
                          && !IsInteger(StringToNumber(raw["page"])) && Less(StringToNumber(raw["page"]), 1.0)
    ensures |r| <= 2 && forall k :: 0 <= k < |r| ==> r[k].path == [Key("page")]
    ensures forall k :: 0 <= k < |r| ==> r[k].message == (if r[k].code == InvalidType then PageNaN else PageMin)
  {
    if "page" !in raw then []
    else
      var n := StringToNumber(raw["page"]);
      if n.NaN? then [Issue(InvalidType, [Key("page")], PageNaN)]
      else
        (if IsInteger(n) then [] else [Issue(InvalidType, [Key("page")], PageNaN)])
        + (if Less(n, 1.0) then [Issue(TooSmall, [Key("page")], PageMin)] else [])
  }

  /** `z.coerce.number().int().min(1).max(1000)` on `limit`, with the same
      reading as `page` and a third, upper check. */
  function LimitIssues(raw: map<string, string>): (r: seq<Issue>)
    ensures r == [] <==> "limit" !in raw || LimitFits(StringToNumber(raw["limit"]))
    ensures "limit" in raw && StringToNumber(raw["limit"]).NaN? ==> r == [Issue(InvalidType, [Key("limit")], LimitNaN)]
    ensures |r| == 2 <==> "limit" in raw && !StringToNumber(raw["limit"]).NaN? && !IsInteger(StringToNumber(raw["limit"]))
                          && (Less(StringToNumber(raw["limit"]), 1.0) || Greater(StringToNumber(raw["limit"]), 1000.0))
    ensures |r| <= 2 && forall k :: 0 <= k < |r| ==> r[k].path == [Key("limit")]
    ensures forall k :: 0 <= k < |r| ==> r[k].message == (match r[k].code case InvalidType => LimitNaN case TooSmall => LimitMin case _ => LimitMax)
  {
    if "limit" !in raw then []
    else
      var n := StringToNumber(raw["limit"]);
      if n.NaN? then [Issue(InvalidType, [Key("limit")], LimitNaN)]
      else
        (if IsInteger(n) then [] else [Issue(InvalidType, [Key("limit")], LimitNaN)])
        + (if Less(n, 1.0) then [Issue(TooSmall, [Key("limit")], LimitMin)] else [])
        + (if Greater(n, 1000.0) then [Issue(TooBig, [Key("limit")], LimitMax)] else [])
  }

  /** A page written with a zero fraction (`3.0`, `12.000`) is a whole
      number and passes. */
  lemma {:induction false} ZeroFractionPageAccepted(raw: map<string, string>, a: string, b: string)
    requires AllDigits(a) && AllDigits(b) && DigitsValue(a) >= 1 && DigitsValue(b) == 0
    requires "page" in raw && raw["page"] == a + "." + b
    ensures PageIssues(raw) == []
  {
    assert |a| > 0;
    ZeroFractionReading(a, b);
  }

  /** A limit in exponent notation (`1e3`, `25e1`) passes when its value
      is within 1..1000. */
  lemma {:induction false} ExponentLimitAccepted(raw: map<string, string>, d: string, k: nat)
    requires |d| > 0 && AllDigits(d) && 1 <= DigitsValue(d) * Pow10(k) <= 1000
    requires "limit" in raw && raw["limit"] == d + "e" + NatToString(k)
    ensures LimitIssues(raw) == []
  {
    ExponentReading(d, k);
  }

  /** `-Infinity` is neither whole nor at least 1: two issues. */
  lemma {:induction false} NegativeInfinityPage(raw: map<string, string>)
    requires "page" in raw && raw["page"] == "-Infinity"
    ensures PageIssues(raw) == [Issue(InvalidType, [Key("page")], PageNaN), Issue(TooSmall, [Key("page")], PageMin)]
  {
    var s := raw["page"];
    assert Trim(s) == s by { TrimKeeps(s); }
    SignedReadings(s);
  }

  /** `Infinity` is not whole and exceeds 1000: the integer and the upper
      issue. */
  lemma {:induction false} InfinityLimit(raw: map<string, string>)
    requires "limit" in raw && raw["limit"] == "Infinity"
    ensures LimitIssues(raw) == [Issue(InvalidType, [Key("limit")], LimitNaN), Issue(TooBig, [Key("limit")], LimitMax)]
  {
    var s := raw["limit"];
    assert Trim(s) == s by { TrimKeeps(s); }
    SignedReadings(s);
  }

  /** A word draws the type issue alone. */
  lemma {:induction false} WordPage(raw: map<string, string>)
    requires "page" in raw && |raw["page"]| > 0 && IsLetter(raw["page"][0]) && raw["page"][0] != 'I'
    requires !IsSpace(raw["page"][|raw["page"]| - 1])
    ensures PageIssues(raw) == [Issue(InvalidType, [Key("page")], PageNaN)]
  {
    WordIsNaN(raw["page"]);
  }

  /** `max(200)` on the trimmed term, counted in UTF-16 code units. */
  function SearchIssues(raw: map<string, string>): (r: seq<Issue>)
    ensures r == [] <==> "searchTerm" !in raw || Utf16Length(Trim(raw["searchTerm"])) <= 200
    ensures |r| <= 1 && forall k :: 0 <= k < |r| ==> r[k].path == [Key("searchTerm")]
  {
    if "searchTerm" in raw && Utf16Length(Trim(raw["searchTerm"])) > 200 then [Issue(TooBig, [Key("searchTerm")], SearchTooLong)] else []
  }

  function FieldsIssues(raw: map<string, string>): (r: seq<Issue>)
    ensures r == [] <==> "fields" !in raw || FieldsPattern(Trim(raw["fields"]))
    ensures |r| <= 1 && forall k :: 0 <= k < |r| ==> r[k].path == [Key("fields")]
  {
    if "fields" in raw && !FieldsPattern(Trim(raw["fields"])) then [Issue(Custom, [Key("fields")], FieldsMessage)] else []
  }

  function SortIssues(raw: map<string, string>): (r: seq<Issue>)
    ensures r == [] <==> "sort" !in raw || SortPattern(Trim(raw["sort"]))
    ensures |r| <= 1 && forall k :: 0 <= k < |r| ==> r[k].path == [Key("sort")]
  {
    if "sort" in raw && !SortPattern(Trim(raw["sort"])) then [Issue(InvalidString, [Key("sort")], SortMessage)] else []
  }

  /** `page` and `limit`, when given, read as whole numbers. */
  predicate NumbersParse(raw: map<string, string>)
  {
    ("page" in raw ==> IsInteger(StringToNumber(raw["page"])))
    && ("limit" in raw ==> IsInteger(StringToNumber(raw["limit"])))
  }

  /** The value a key carries after a successful parse. */
  function Coerced(raw: map<string, string>, key: string): (v: QueryBuilder.QValue)
    requires key in raw && NumbersParse(raw)
  {
    if key == "page" || key == "limit" then QueryBuilder.QNum(StringToNumber(raw[key]).value.Floor)
    else if key == "searchTerm" || key == "fields" || key == "sort" then QueryBuilder.QStr(Trim(raw[key]))
    else QueryBuilder.QStr(raw[key])
  }

  predicate Acceptable(raw: map<string, string>)
  {
    && ("page" in raw ==> PageFits(StringToNumber(raw["page"])))
    && ("limit" in raw ==> LimitFits(StringToNumber(raw["limit"])))
    && ("searchTerm" in raw ==> Utf16Length(Trim(raw["searchTerm"])) <= 200)
    && ("fields" in raw ==> FieldsPattern(Trim(raw["fields"])))
    && ("sort" in raw ==> SortPattern(Trim(raw["sort"])))
  }

  /** Every issue of the schema, in field order. */
  function QueryIssues(raw: map<string, string>): (r: seq<Issue>)
    ensures r == [] <==> Acceptable(raw)
    ensures |r| <= 7
  {
    PageIssues(raw) + LimitIssues(raw) + SearchIssues(raw) + FieldsIssues(raw) + SortIssues(raw)
  }

  /** The parsed query: every key kept, `page` and `limit` as numbers, the
      three text fields trimmed, the rest as given. */
  function CoerceAll(raw: map<string, string>): (q: QueryBuilder.Query)
    requires NumbersParse(raw)
    ensures q.Keys == raw.Keys
    ensures forall k :: k in raw && k !in QueryBuilder.Reserved ==> q[k] == QueryBuilder.QStr(raw[k])
    ensures "page" in raw ==> q["page"].QNum? && q["page"].n as real == StringToNumber(raw["page"]).value
    ensures "limit" in raw ==> q["limit"].QNum? && q["limit"].n as real == StringToNumber(raw["limit"]).value
    ensures forall k :: k in raw && (k == "searchTerm" || k == "fields" || k == "sort") ==> q[k] == QueryBuilder.QStr(Trim(raw[k]))
  {
    map k | k in raw :: Coerced(raw, k)
  }

  /** `queryParamsSchema`: the issues of every failing field, or the parsed
      query. */
  function ValidateQuery(raw: map<string, string>): (r: Parsed<QueryBuilder.Query>)
    ensures r.Valid? <==> Acceptable(raw)
    ensures r.Valid? ==> r.value == CoerceAll(raw)
    ensures r.Invalid? ==> 1 <= |r.issues| <= 7
  {
    var issues := QueryIssues(raw);
    if issues != [] then Invalid(issues) else Valid(CoerceAll(raw))
  }

  /** The builder's reading of a parsed query: page at least 1, page size
      0 (unset) to 1000, and sort and projection given as text if at all. */
  lemma ParsedQueryNumbers(raw: map<string, string>)
    requires Acceptable(raw)
    ensures var query := CoerceAll(raw);
      && QueryBuilder.NumberOr(query, "page", 1) >= 1
      && 0 <= QueryBuilder.NumberOr(query, "limit", 0) <= 1000
      && !("sort" in query && query["sort"].QNum?)
      && !("fields" in query && query["fields"].QNum?)
  {
    var query := CoerceAll(raw);
  }

  /** A query that passed the schema builds exactly when its search term is a
      pattern: sort and fields are strings, so the split/join chain cannot
      throw, the page size is 1..1000 or unset, and the skip is never
      negative. The schema itself never looks at the pattern syntax. */
  lemma ValidatedQueryBuilds(raw: map<string, string>, keys: seq<string>, searchable: seq<string>, compiles: QueryBuilder.Compiles)
    requires ValidateQuery(raw).Valid?
    requires |searchable| > 0
    requires forall k :: k in raw <==> k in keys
    ensures var query := ValidateQuery(raw).value;
      var built := QueryBuilder.Build([], query, keys, searchable, compiles);
      && QueryBuilder.SearchTerm(query) == (if "searchTerm" in raw then Trim(raw["searchTerm"]) else "")
      && (built.Some? <==> compiles(QueryBuilder.SearchTerm(query)))
      && (built.Some? ==> 0 <= built.value.limit <= 1000 && QueryBuilder.Paginate(built.value, query).skip >= 0)
  {
    var query := CoerceAll(raw);
    assert ValidateQuery(raw).value == query;
    ParsedQueryNumbers(raw);
    var limit := QueryBuilder.NumberOr(query, "limit", 0);
    var page := QueryBuilder.NumberOr(query, "page", 1);
    var built := QueryBuilder.Build([], query, keys, searchable, compiles);
    assert (built.Some? <==> compiles(QueryBuilder.SearchTerm(query))) && (built.Some? ==> built.value.limit == limit) by {
      assert forall k :: k in query <==> k in keys;
    }
    if built.Some? {
      assert QueryBuilder.Paginate(built.value, query).skip >= 0 by {
        QueryBuilder.MulMono(0, page - 1, limit);
      }
    }
  }

  /** The schema lets through a short term that is no pattern, such as
      `c++` ("nothing to repeat"); the builder then throws. */
  lemma SchemaPassesUnparsableTerm(compiles: QueryBuilder.Compiles)
    requires !compiles("c++")
    ensures ValidateQuery(map["searchTerm" := "c++"]).Valid?
    ensures QueryBuilder.Build([], ValidateQuery(map["searchTerm" := "c++"]).value, ["searchTerm"], ["content"], compiles).None?
  {
    var raw := map["searchTerm" := "c++"];
    TrimKeeps("c++");
    assert Acceptable(raw);
    ValidatedQueryBuilds(raw, ["searchTerm"], ["content"], compiles);
  }

  /** A term of 101 astral characters, 202 code units, draws the length
      issue although it holds only 101 characters. */
  lemma AstralTermTooLong(c: char)
    requires IsAstral(c)
    ensures var raw := map["searchTerm" := seq(101, _ => c)];
      SearchIssues(raw) == [Issue(TooBig, [Key("searchTerm")], SearchTooLong)]
  {
    var t := seq(101, _ => c);
    assert !IsSpace(t[0]) && !IsSpace(t[100]);
    TrimKeeps(t);
    assert Utf16Length(t) == 202;
  }
}
