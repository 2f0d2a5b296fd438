/** Hand-written pagination shared by the friend and reaction lists: the
    page query schema (`page`, `limit`, `sort` with string defaults), the
    `Math.ceil` page count with its two page-range guards, and the
    skip/limit window. */
module Paging {
  import opened Wrappers
  import opened Text
  import opened Zod
  import opened JsNumbers
  import Sequences

  /** A validated page query: `sort` is 1 (ascending) or -1 (descending). */
  datatype PageQuery = PageQuery(page: int, limit: int, sort: int)

  predicate WellFormed(q: PageQuery)
  {
    q.page >= 1 && 1 <= q.limit <= 1000 && (q.sort == 1 || q.sort == -1)
  }

  /** `^\d+$` */
  predicate IsNumeral(s: string)
  {
    |s| > 0 && AllDigits(s)
  }

  function OrDefault(s: Option<string>, d: string): string
  {
    if s.Some? then s.value else d
  }

  /** Refinement issues, all on the top-level field `field`. */
  predicate AllCustomOn(issues: seq<Issue>, field: string)
  {
    forall k :: 0 <= k < |issues| ==> issues[k].code == Custom && issues[k].path == [Key(field)]
  }

  /** `page`: default "1", a numeral, above 0. The second check runs even
      when the first fails, on the string itself: `val > 0` then compares
      `Number(val)`, so a non-numeral that does not read as a positive
      number (a word, `-3`, blank text) draws both issues, and one that
      does (`1.5`, ` 2`) only the first. */
  function PageIssues(p: string): (r: seq<Issue>)
    ensures r == [] <==> IsNumeral(p) && DigitsValue(p) > 0
    ensures 1 <= |r| <= 2 ==> r[0].message == (if IsNumeral(p) then "Page must be greater than 0" else "Page must be a positive integer")
    ensures |r| == 2 <==> !IsNumeral(p) && !Greater(StringToNumber(p), 0.0)
    ensures |r| <= 2 && AllCustomOn(r, "page")
  {
    if !IsNumeral(p) then
      FieldIssue(false, "page", "Page must be a positive integer")
      + FieldIssue(Greater(StringToNumber(p), 0.0), "page", "Page must be greater than 0")
    else FieldIssue(DigitsValue(p) > 0, "page", "Page must be greater than 0")
  }

  /** `limit`: default "20", a numeral, in 1..1000; as with `page`, a
      non-numeral is also range-checked through `Number(val)`. */
  function LimitIssues(l: string): (r: seq<Issue>)
    ensures r == [] <==> IsNumeral(l) && 0 < DigitsValue(l) <= 1000
    ensures 1 <= |r| <= 2 ==> r[0].message == (if IsNumeral(l) then "Limit must be between 1 and 1000" else "Limit must be a positive integer")
    ensures |r| == 2 <==> !IsNumeral(l) && !(Greater(StringToNumber(l), 0.0) && AtMost(StringToNumber(l), 1000.0))
    ensures |r| <= 2 && AllCustomOn(r, "limit")
  {
    if !IsNumeral(l) then
      FieldIssue(false, "limit", "Limit must be a positive integer")
      + FieldIssue(Greater(StringToNumber(l), 0.0) && AtMost(StringToNumber(l), 1000.0), "limit", "Limit must be between 1 and 1000")
    else FieldIssue(0 < DigitsValue(l) <= 1000, "limit", "Limit must be between 1 and 1000")
  }

  /** A word draws both page issues. */
  lemma WordDrawsTwoPageIssues()
    ensures |PageIssues("abc")| == 2
  {
    var s := "abc";
    assert !IsNumeral(s) by { assert !IsDigit(s[0]); }
    WordIsNaN(s);
  }

  /** A decimal fraction with a whole part above 0 (`1.5`, `2.`) draws
      only the numeral issue: the range check reads it as a number above 0. */
  lemma {:induction false} FractionDrawsOnePageIssue(a: string, b: string)
    requires |a| > 0 && AllDigits(a) && DigitsValue(a) > 0 && AllDigits(b)
    ensures PageIssues(a + "." + b) == [Issue(Custom, [Key("page")], "Page must be a positive integer")]
  {
    assert !IsNumeral(a + "." + b) by { assert (a + "." + b)[|a|] == '.'; }
    assert Greater(StringToNumber(a + "." + b), 0.0) by {
      DecimalPointReading(a, b);
      FractionNonNegative(DigitsValue(b), Pow10(|b|));
    }
  }

  /** `sort`: default "-1", exactly "1" or "-1". */
  function SortIssues(s: string): (r: seq<Issue>)
    ensures r == [] <==> s == "1" || s == "-1"
    ensures |r| <= 1 && AllCustomOn(r, "sort")
  {
    FieldIssue(s == "1" || s == "-1", "sort", "Sort must be '1'(asc) or '-1'(desc)")
  }

  /** `paginationQuerySchema`: a missing field takes its default ("1", "20",
      "-1"); page must be a numeral above 0, limit a numeral in 1..1000,
      sort exactly "1" or "-1". The issues of the three fields come in
      field order. */
  function ParsePageQuery(page: Option<string>, limit: Option<string>, sort: Option<string>): (r: Parsed<PageQuery>)
    ensures var p, l, s := OrDefault(page, "1"), OrDefault(limit, "20"), OrDefault(sort, "-1");
      r.Valid? <==> && IsNumeral(p) && DigitsValue(p) > 0
                    && IsNumeral(l) && 0 < DigitsValue(l) <= 1000
                    && (s == "1" || s == "-1")
    ensures r.Valid? ==> WellFormed(r.value)
    ensures r.Valid? ==>
              && r.value.page == DigitsValue(OrDefault(page, "1"))
              && r.value.limit == DigitsValue(OrDefault(limit, "20"))
              && r.value.sort == (if OrDefault(sort, "-1") == "1" then 1 else -1)
    ensures r.Invalid? ==> 1 <= |r.issues| <= 5
    ensures r.Invalid? ==>
              exists i, j :: && 0 <= i <= j <= |r.issues|
                             && AllCustomOn(r.issues[..i], "page")
                             && AllCustomOn(r.issues[i..j], "limit")
                             && AllCustomOn(r.issues[j..], "sort")
  {
    var p, l, s := OrDefault(page, "1"), OrDefault(limit, "20"), OrDefault(sort, "-1");
    var a, b, c := PageIssues(p), LimitIssues(l), SortIssues(s);
    var issues := a + b + c;
    if issues != [] then
      InFieldOrder(a, b, c);
      Invalid(issues)
    else
      assert a == [] && b == [] && c == [];
      Valid(PageQuery(DigitsValue(p), DigitsValue(l), if s == "1" then 1 else -1))
  }

  lemma InFieldOrder(a: seq<Issue>, b: seq<Issue>, c: seq<Issue>)
    requires AllCustomOn(a, "page") && AllCustomOn(b, "limit") && AllCustomOn(c, "sort")
    ensures exists i, j :: && 0 <= i <= j <= |a + b + c|
                           && AllCustomOn((a + b + c)[..i], "page")
                           && AllCustomOn((a + b + c)[i..j], "limit")
                           && AllCustomOn((a + b + c)[j..], "sort")
  {
    var issues := a + b + c;
    assert issues[..|a|] == a && issues[|a|..|a| + |b|] == b && issues[|a| + |b|..] == c;
  }

  /** With nothing given, the defaults are page 1, 20 per page, newest first. */
  lemma PageQueryDefaults()
    ensures ParsePageQuery(None, None, None) == Valid(PageQuery(1, 20, -1))
  {
    DefaultPageValue();
    DefaultLimitValue();
    assert IsNumeral("1") && IsNumeral("20");
  }

  lemma DefaultPageValue()
    ensures DigitsValue("1") == 1
  {
    assert "1"[..0] == "";
  }

  lemma DefaultLimitValue()
    ensures DigitsValue("20") == 20
  {
    assert "20"[..1] == "2";
    assert "2"[..0] == "";
  }

  /** `Math.ceil(n / d)` for a positive divisor. */
  function CeilDiv(n: nat, d: int): (q: nat)
    requires d >= 1
    ensures q * d >= n
    ensures q == 0 || (q - 1) * d < n
    ensures q == 0 <==> n == 0
  {
    var q := (n + d - 1) / d;
    var rem := (n + d - 1) % d;
    assert n + d - 1 == q * d + rem && 0 <= rem < d;
    assert q * d == n + d - 1 - rem;
    assert (q - 1) * d == q * d - d;
    q
  }

  datatype PageMeta = PageMeta(currentPage: int, itemsPerPage: int, totalItems: nat, totalPages: nat)

  const PageMissingMessage: string :=
    "The requested page number does not exist." + " Please check the pagination parameters."
  const NoResultsMessage: string :=
    "No results found." + " The requested page number does not exist."

  /** The page-range guards of the list services: a page is served when its
      first item exists, and page 1 is always served, even with no results.
      The meta echoes the query's page and limit. */
  function CheckPage(total: nat, page: int, limit: int): (r: Result<PageMeta>)
    requires limit >= 1
    ensures r.Ok? <==> page <= 1 || (page - 1) * limit < total
    ensures r.Ok? ==> && r.value.currentPage == page && r.value.itemsPerPage == limit
                      && r.value.totalItems == total
                      && r.value.totalPages * limit >= total
                      && (r.value.totalPages == 0 || (r.value.totalPages - 1) * limit < total)
    ensures r.Err? ==> r.error.status == NotFound
    ensures r.Err? ==> (r.error.message == NoResultsMessage <==> total == 0)
  {
    var totalPages := CeilDiv(total, limit);
    if totalPages > 0 && page > totalPages then
      PastLastPage(total, limit, totalPages, page);
      MissingIsNotEmpty();
      Err(Error(NotFound, PageMissingMessage))
    else if totalPages == 0 && page > 1 then
      PastEmptyResult(limit, page);
      Err(Error(NotFound, NoResultsMessage))
    else
      WithinLastPage(total, limit, totalPages, page);
      Ok(PageMeta(page, limit, total, totalPages))
  }

  lemma PastLastPage(total: nat, limit: int, totalPages: nat, page: int)
    requires limit >= 1 && totalPages * limit >= total && page > totalPages
    ensures (page - 1) * limit >= total
  {
    MulDistributes(page - 1 - totalPages, totalPages, limit);
    MulNonNegative(page - 1 - totalPages, limit);
  }

  lemma MulDistributes(a: int, b: int, c: int)
    ensures (a + b) * c == a * c + b * c
  {
  }

  lemma MulNonNegative(a: int, b: int)
    requires a >= 0 && b >= 0
    ensures a * b >= 0
  {
  }

  lemma PastEmptyResult(limit: int, page: int)
    requires limit >= 1 && page > 1
    ensures (page - 1) * limit > 0
  {
  }

  lemma WithinLastPage(total: nat, limit: int, totalPages: nat, page: int)
    requires limit >= 1 && (totalPages == 0 || (totalPages - 1) * limit < total)
    requires !(totalPages > 0 && page > totalPages) && !(totalPages == 0 && page > 1)
    ensures page <= 1 || (page - 1) * limit < total
  {
    if page > 1 {
      MulDistributes(totalPages - page, page - 1, limit);
      MulNonNegative(totalPages - page, limit);
    }
  }

  lemma MissingIsNotEmpty()
    ensures PageMissingMessage != NoResultsMessage
  {
    assert PageMissingMessage[0] != NoResultsMessage[0];
  }

  function Min(a: int, b: int): int { if a <= b then a else b }

  /** The number of rows before page `page`. */
  function Skip(page: int, limit: int): nat
    requires page >= 1 && limit >= 1
  {
    (page - 1) * limit
  }

  /** `$skip: (page - 1) * limit` then `$limit: limit`. */
  function Window<T>(items: seq<T>, page: int, limit: int): (r: seq<T>)
    requires page >= 1 && limit >= 1
    ensures |r| <= limit
    ensures Skip(page, limit) >= |items| ==> r == []
    ensures Skip(page, limit) < |items| ==> |r| == Min(limit, |items| - Skip(page, limit))
    ensures forall k :: 0 <= k < |r| ==> Skip(page, limit) + k < |items| && r[k] == items[Skip(page, limit) + k]
  {
    var skip := Skip(page, limit);
    if skip >= |items| then [] else items[skip..Min(skip + limit, |items|)]
  }

  /** Every item is on exactly the page its index says: item `i` is entry
      `i % limit` of page `i / limit + 1`, and that page passes the range
      guards. */
  lemma {:induction false} EveryItemHasItsPage<T>(items: seq<T>, limit: int, i: int)
    requires limit >= 1 && 0 <= i < |items|
    ensures CheckPage(|items|, i / limit + 1, limit).Ok?
    ensures i % limit < |Window(items, i / limit + 1, limit)|
    ensures Window(items, i / limit + 1, limit)[i % limit] == items[i]
  {
    var page := i / limit + 1;
    assert i == (i / limit) * limit + i % limit;
    assert (page - 1) * limit == (i / limit) * limit;
    assert (page - 1) * limit <= i;
  }

  /** A page that passes the guards on a non-empty result is not empty. */
  lemma ServedPageIsNonEmpty<T>(items: seq<T>, page: int, limit: int)
    requires page >= 1 && limit >= 1 && |items| > 0
    requires CheckPage(|items|, page, limit).Ok?
    ensures |Window(items, page, limit)| >= 1
  {
  }

  /** Rows ordered by a timestamp in the query's direction. */
  function SortBy<T>(rows: seq<T>, key: T -> int, sort: int): (r: seq<T>)
    ensures multiset(r) == multiset(rows)
    ensures sort != 1 ==> Sequences.SortedDesc(r, key)
    ensures sort == 1 ==> Sequences.SortedDesc(r, x => -key(x))
  {
    if sort == 1 then Sequences.SortDesc(rows, x => -key(x)) else Sequences.SortDesc(rows, key)
  }

  /** A paged list: every matching row is counted, the rows are ordered,
      windowed, and the page-range guards decide whether the page exists. */
  function ListPage<T>(rows: seq<T>, key: T -> int, q: PageQuery): (r: Result<(seq<T>, PageMeta)>)
    requires WellFormed(q)
    ensures r.Ok? <==> q.page == 1 || Skip(q.page, q.limit) < |rows|
    ensures r.Err? ==> r.error.status == NotFound
    ensures r.Ok? ==> && r.value.1.totalItems == |rows|
                      && r.value.1.currentPage == q.page && r.value.1.itemsPerPage == q.limit
                      && |r.value.0| <= q.limit
                      && multiset(r.value.0) <= multiset(rows)
                      && forall x :: x in r.value.0 ==> x in rows
    ensures r.Ok? ==> r.value.0 == Window(SortBy(rows, key, q.sort), q.page, q.limit)
    ensures r.Ok? ==> r.value.1.totalPages == CeilDiv(|rows|, q.limit)
    ensures r.Ok? && Skip(q.page, q.limit) < |rows| ==> |r.value.0| == Min(q.limit, |rows| - Skip(q.page, q.limit))
    ensures r.Ok? && q.sort == -1 ==> Sequences.SortedDesc(r.value.0, key)
  {
    var meta :- CheckPage(|rows|, q.page, q.limit);
    var sorted := SortBy(rows, key, q.sort);
    var page := Window(sorted, q.page, q.limit);
    assert multiset(page) <= multiset(rows) by {
      WindowIsSubMultiset(sorted, q.page, q.limit);
    }
    assert forall x :: x in page ==> x in rows by {
      forall x | x in page ensures x in rows {
        assert x in multiset(page);
      }
    }
    assert q.sort == -1 ==> Sequences.SortedDesc(page, key) by {
      WindowKeepsOrder(sorted, key, q.page, q.limit);
    }
    Ok((page, meta))
  }

  lemma WindowIsSubMultiset<T>(items: seq<T>, page: int, limit: int)
    requires page >= 1 && limit >= 1
    ensures multiset(Window(items, page, limit)) <= multiset(items)
  {
    var skip := Skip(page, limit);
    if skip < |items| {
      var hi := Min(skip + limit, |items|);
      assert items == items[..skip] + items[skip..hi] + items[hi..];
      assert multiset(items) == multiset(items[..skip]) + multiset(items[skip..hi]) + multiset(items[hi..]);
      assert Window(items, page, limit) == items[skip..hi];
    }
  }

  /** A window of a descending list is descending. */
  lemma WindowKeepsOrder<T>(items: seq<T>, key: T -> int, page: int, limit: int)
    requires page >= 1 && limit >= 1
    ensures Sequences.SortedDesc(items, key) ==> Sequences.SortedDesc(Window(items, page, limit), key)
  {
  }

  /** Every row is served: entry `j` of page `page` is row
      `Skip(page, limit) + j` of the ordered list whenever that row exists,
      so the pages together list each row once, in order. */
  lemma {:induction false} ListPageServesEveryRow<T>(rows: seq<T>, key: T -> int, page: int, limit: int, sort: int, j: int)
    requires WellFormed(PageQuery(page, limit, sort)) && 0 <= j < limit && Skip(page, limit) + j < |rows|
    ensures ListPage(rows, key, PageQuery(page, limit, sort)).Ok?
    ensures j < |ListPage(rows, key, PageQuery(page, limit, sort)).value.0|
    ensures ListPage(rows, key, PageQuery(page, limit, sort)).value.0[j] == SortBy(rows, key, sort)[Skip(page, limit) + j]
  {
    var sorted := SortBy(rows, key, sort);
    assert |sorted| == |rows| by { assert |multiset(sorted)| == |multiset(rows)|; }
    assert (page - 1) * limit < |rows|;
  }
}
