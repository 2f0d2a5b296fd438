/** The chainable list query: free-text search over named fields, equality
    filters from the remaining query keys, sort and projection strings,
    skip/limit paging, and the page meta computed from a count of the
    filtered set. Documents and query values are flat field maps; the
    regular-expression engine behind search, both its pattern syntax and
    its matching, is a parameter. */
module QueryBuilder {
  import opened Wrappers
  import opened Text
  import JsNumbers
  import Paging

  /** A query-string or document value, after the query validator's coercion. */
  datatype QValue = QStr(s: string) | QNum(n: int)

  type Query = map<string, QValue>
  type Doc = map<string, QValue>

  /** `(pattern, value)` holds when the case-insensitive pattern built from
      the search term matches the value. */
  type Matcher = (string, QValue) -> bool

  /** `compiles(term)` holds when `new RegExp(term, 'i')` accepts the term as
      a pattern; on any other term (`c++`, `(`, `[`) the constructor throws a
      SyntaxError, which the global handler answers with a 500. */
  type Compiles = string -> bool

  datatype Cond =
    | FieldEq(field: string, value: QValue)
    | FieldNe(field: string, value: QValue)
    | AnyMatch(fields: seq<string>, term: string)   // `$or` of one `$regex` per field

  /** The query under construction. `sortBy` and `selectFields` are None
      while unset. */
  datatype ModelQuery = ModelQuery(
    conds: seq<Cond>,
    sortBy: Option<string>,
    skip: int,
    limit: int,
    selectFields: Option<string>)

  function Start(base: seq<Cond>): ModelQuery
  {
    ModelQuery(base, None, 0, 0, None)
  }

  predicate Holds(doc: Doc, c: Cond, m: Matcher)
  {
    match c
    case FieldEq(f, v) => f in doc && doc[f] == v
    case FieldNe(f, v) => f !in doc || doc[f] != v
    case AnyMatch(fields, term) => exists k :: 0 <= k < |fields| && fields[k] in doc && m(term, doc[fields[k]])
  }

  predicate Selects(q: ModelQuery, doc: Doc, m: Matcher)
  {
    forall i :: 0 <= i < |q.conds| ==> Holds(doc, q.conds[i], m)
  }

  /** `(query.searchTerm as string) || ''`. */
  function SearchTerm(query: Query): (t: string)
    ensures "searchTerm" in query && query["searchTerm"].QStr? ==> t == query["searchTerm"].s
    ensures !("searchTerm" in query && query["searchTerm"].QStr?) ==> t == ""
  {
    if "searchTerm" in query && query["searchTerm"].QStr? then query["searchTerm"].s else ""
  }

  /** `search(fields)`: compiles the search term, then adds one condition,
      the OR over `fields` of a match against it. None where the term is not
      a pattern and the constructor throws. */
  function Search(q: ModelQuery, query: Query, fields: seq<string>, compiles: Compiles): (r: Option<ModelQuery>)
    requires |fields| > 0
    ensures r.None? <==> !compiles(SearchTerm(query))
    ensures r.Some? ==> r.value.conds == q.conds + [AnyMatch(fields, SearchTerm(query))]
    ensures r.Some? ==> r.value.(conds := q.conds) == q
  {
    if !compiles(SearchTerm(query)) then None
    else Some(q.(conds := q.conds + [AnyMatch(fields, SearchTerm(query))]))
  }

  /** With no usable search term the pattern is empty; when the empty pattern
      matches every value, the search keeps exactly the documents that have
      one of the fields. */
  lemma EmptySearchKeepsDocsWithAField(query: Query, fields: seq<string>, doc: Doc, m: Matcher)
    requires SearchTerm(query) == ""
    requires forall v :: m("", v)
    ensures Holds(doc, AnyMatch(fields, SearchTerm(query)), m) <==> exists k :: 0 <= k < |fields| && fields[k] in doc
  {
  }

  const Reserved: set<string> := {"searchTerm", "sort", "limit", "page", "fields"}

  /** One equality condition per key, in the order of `keys`. */
  function EqConds(query: Query, keys: seq<string>): (r: seq<Cond>)
    requires forall k :: 0 <= k < |keys| ==> keys[k] in query
    ensures |r| == |keys|
    ensures forall k :: 0 <= k < |keys| ==> r[k] == FieldEq(keys[k], query[keys[k]])
  {
    if |keys| == 0 then [] else [FieldEq(keys[0], query[keys[0]])] + EqConds(query, keys[1..])
  }

  /** `filter()`: every query key other than the five reserved ones becomes
      an equality condition on that field; `keys` is the order in which the
      query object lists its keys. */
  function Filter(q: ModelQuery, query: Query, keys: seq<string>): (r: ModelQuery)
    requires forall k :: k in query <==> k in keys
    ensures |r.conds| >= |q.conds| && r.conds[..|q.conds|] == q.conds
    ensures forall f, v :: FieldEq(f, v) in r.conds[|q.conds|..] <==> f in query && f !in Reserved && query[f] == v
    ensures r.(conds := q.conds) == q
  {
    var kept := KeepUnreserved(keys);
    var added := EqConds(query, kept);
    var r := q.(conds := q.conds + added);
    assert r.conds[|q.conds|..] == added;
    assert r.conds[..|q.conds|] == q.conds;
    r
  }

  function KeepUnreserved(keys: seq<string>): (r: seq<string>)
    ensures forall k :: k in r <==> k in keys && k !in Reserved
  {
    if |keys| == 0 then []
    else (if keys[0] in Reserved then [] else [keys[0]]) + KeepUnreserved(keys[1..])
  }

  /** The filter's extra conditions select a document exactly when each
      unreserved query key is present in it with the same value. */
  lemma FilterSelects(q: ModelQuery, query: Query, keys: seq<string>, doc: Doc, m: Matcher)
    requires forall k :: k in query <==> k in keys
    ensures Selects(Filter(q, query, keys), doc, m) <==>
              Selects(q, doc, m) && forall f :: f in query && f !in Reserved ==> f in doc && doc[f] == query[f]
  {
    var r := Filter(q, query, keys);
    var n := |q.conds|;
    if Selects(r, doc, m) {
      forall i | 0 <= i < n ensures Holds(doc, q.conds[i], m) {
        assert r.conds[i] == q.conds[i];
      }
      forall f | f in query && f !in Reserved ensures f in doc && doc[f] == query[f] {
        assert FieldEq(f, query[f]) in r.conds[n..];
        var j :| 0 <= j < |r.conds[n..]| && r.conds[n..][j] == FieldEq(f, query[f]);
        assert r.conds[n + j] == FieldEq(f, query[f]);
      }
    }
    if Selects(q, doc, m) && forall f :: f in query && f !in Reserved ==> f in doc && doc[f] == query[f] {
      forall i | 0 <= i < |r.conds| ensures Holds(doc, r.conds[i], m) {
        if i < n {
          assert r.conds[i] == q.conds[i];
        } else {
          assert r.conds[i] == r.conds[n..][i - n];
          assert r.conds[i] in r.conds[n..];
        }
      }
    }
  }

  /** `value?.split(',')?.join(' ') || fallback`; None when the value is not
      a string, where the call throws. */
  function ListArg(query: Query, key: string, fallback: string): (r: Option<string>)
    ensures key !in query ==> r == Some(fallback)
    ensures key in query && query[key].QNum? ==> r.None?
    ensures key in query && query[key].QStr? ==>
              var s := query[key].s;
              r == Some(if s == "" then fallback else ReplaceChar(s, ',', ' '))
  {
    if key !in query then Some(fallback)
    else match query[key]
      case QNum(_) => None
      case QStr(s) =>
        var joined := Join(Split(s, ','), " ");
        SplitJoinIsReplace(s, ',', ' ');
        assert |joined| == |s|;
        Some(if joined == "" then fallback else joined)
  }

  /** `sort()`: commas become spaces; absent or empty means newest first. */
  function Sort(q: ModelQuery, query: Query): (r: Option<ModelQuery>)
    ensures r.None? <==> "sort" in query && query["sort"].QNum?
    ensures r.Some? ==> r.value == q.(sortBy := ListArg(query, "sort", "-createdAt"))
  {
    var arg := ListArg(query, "sort", "-createdAt");
    if arg.None? then None else Some(q.(sortBy := arg))
  }

  /** `fields()`: commas become spaces; absent or empty hides the version key. */
  function Fields(q: ModelQuery, query: Query): (r: Option<ModelQuery>)
    ensures r.None? <==> "fields" in query && query["fields"].QNum?
    ensures r.Some? ==> r.value == q.(selectFields := ListArg(query, "fields", "-__v"))
  {
    var arg := ListArg(query, "fields", "-__v");
    if arg.None? then None else Some(q.(selectFields := arg))
  }

  /** `Number(query[key]) || fallback`: a number other than 0 is kept,
      and so is text that reads as a whole number other than 0; 0, NaN and
      a missing key fall back. */
  function NumberOr(query: Query, key: string, fallback: int): (n: int)
    ensures n != 0 || fallback == 0
    ensures key !in query ==> n == fallback
    ensures key in query && query[key].QNum? ==> n == (if query[key].n != 0 then query[key].n else fallback)
    ensures key in query && query[key].QStr? ==>
              var m := JsNumbers.StringToNumber(query[key].s);
              if JsNumbers.IsInteger(m) && m.value != 0.0 then n as real == m.value else n == fallback
  {
    if key !in query then fallback
    else match query[key]
      case QNum(v) => if v != 0 then v else fallback
      case QStr(s) =>
        var m := JsNumbers.StringToNumber(s);
        if JsNumbers.IsInteger(m) && m.value != 0.0 then m.value.Floor else fallback
  }

  /** `paginate()`: limit defaults to 0 (no limit), page to 1, and
      skip = (page - 1) * limit. */
  function Paginate(q: ModelQuery, query: Query): (r: ModelQuery)
    ensures r.limit == NumberOr(query, "limit", 0) && r.skip == (NumberOr(query, "page", 1) - 1) * r.limit
    ensures !("limit" in query) ==> r.limit == 0 && r.skip == 0
    ensures r.(skip := q.skip, limit := q.limit) == q
  {
    var limit := NumberOr(query, "limit", 0);
    var page := NumberOr(query, "page", 1);
    q.(skip := (page - 1) * limit, limit := limit)
  }

  /** The usual chain: search, filter, sort, paginate, fields. None when the
      search term is not a pattern, or the sort or fields value is not a
      string. */
  function Build(base: seq<Cond>, query: Query, keys: seq<string>, searchable: seq<string>, compiles: Compiles): (r: Option<ModelQuery>)
    requires |searchable| > 0
    requires forall k :: k in query <==> k in keys
    ensures r.Some? <==> compiles(SearchTerm(query)) &&
                         !("sort" in query && query["sort"].QNum?) && !("fields" in query && query["fields"].QNum?)
    ensures r.Some? ==> |r.value.conds| > |base| && r.value.conds[..|base|] == base
    ensures r.Some? ==> r.value.conds[|base|] == AnyMatch(searchable, SearchTerm(query))
    ensures r.Some? ==> r.value.limit == NumberOr(query, "limit", 0)
  {
    var searchedOr := Search(Start(base), query, searchable, compiles);
    if searchedOr.None? then None
    else
      var searched := searchedOr.value;
      var filtered := Filter(searched, query, keys);
      var sorted := Sort(filtered, query);
      if sorted.None? then None
      else
        var paged := Paginate(sorted.value, query);
        var r := Fields(paged, query);
        if r.Some? then
          assert r.value.conds == filtered.conds;
          assert filtered.conds[..|searched.conds|] == searched.conds;
          assert searched.conds[..|base|] == base;
          r
        else r
  }

  /** The documents the filter selects, in store order. */
  function Matching(q: ModelQuery, docs: seq<Doc>, m: Matcher): (r: seq<Doc>)
    ensures |r| <= |docs|
    ensures forall d :: d in r <==> d in docs && Selects(q, d, m)
  {
    if |docs| == 0 then []
    else (if Selects(q, docs[0], m) then [docs[0]] else []) + Matching(q, docs[1..], m)
  }

  /** `countDocuments(getFilter())`: depends on the conditions only. */
  lemma CountIgnoresPaging(q: ModelQuery, docs: seq<Doc>, m: Matcher, skip: int, limit: int)
    ensures |Matching(q.(skip := skip, limit := limit), docs, m)| == |Matching(q, docs, m)|
  {
    assert forall d :: Selects(q.(skip := skip, limit := limit), d, m) == Selects(q, d, m);
  }

  /** The page returned: skip then limit, where limit 0 means no limit. */
  function Apply(q: ModelQuery, docs: seq<Doc>, m: Matcher): (r: seq<Doc>)
    requires q.skip >= 0 && q.limit >= 0
    ensures q.limit > 0 ==> |r| <= q.limit
    ensures forall k :: 0 <= k < |r| ==> q.skip + k < |Matching(q, docs, m)| && r[k] == Matching(q, docs, m)[q.skip + k]
    ensures q.limit == 0 && q.skip < |Matching(q, docs, m)| ==> |r| == |Matching(q, docs, m)| - q.skip
  {
    var all := Matching(q, docs, m);
    if q.skip >= |all| then []
    else if q.limit == 0 then all[q.skip..]
    else all[q.skip..Paging.Min(q.skip + q.limit, |all|)]
  }

  datatype Meta = Meta(totalItems: nat, totalPages: int, currentPage: int, itemsPerPage: int)

  /** `Math.ceil(n / d)` for a non-zero divisor of either sign. */
  function JsCeilDiv(n: nat, d: int): (q: int)
    requires d != 0
    ensures d > 0 ==> q == Paging.CeilDiv(n, d)
    ensures d < 0 ==> q <= 0
  {
    if d > 0 then Paging.CeilDiv(n, d) else -(n / -d)
  }

  function OutOfRangeMessage(currentPage: int, totalPages: int): string
  {
    "page number " + IntToString(currentPage) + " must be smaller than totalPage " + IntToString(totalPages) + " "
  }

  /** `paginateMeta()`, as written: itemsPerPage = limit or 20, currentPage =
      page or 1, and the guard compares the item count with the page number. */
  function PaginateMeta(query: Query, totalItems: nat): (r: Result<Meta>)
    ensures var page := NumberOr(query, "page", 1);
      r.Err? <==> totalItems < page
    ensures r.Err? ==> r.error.status == BadRequest
    ensures r.Ok? ==> && r.value.totalItems == totalItems
                      && r.value.itemsPerPage == NumberOr(query, "limit", 20)
                      && r.value.currentPage == NumberOr(query, "page", 1)
                      && r.value.totalPages == JsCeilDiv(totalItems, NumberOr(query, "limit", 20))
  {
    var itemsPerPage := NumberOr(query, "limit", 20);
    var currentPage := NumberOr(query, "page", 1);
    var totalPages := JsCeilDiv(totalItems, itemsPerPage);
    if totalItems < currentPage then Err(Error(BadRequest, OutOfRangeMessage(currentPage, totalPages)))
    else Ok(Meta(totalItems, totalPages, currentPage, itemsPerPage))
  }

  /** The guard as written rejects the first page of an empty result, and
      serves a page past the last one when there are at least as many items
      as the page number. */
  lemma PaginateMetaMisjudgesPages()
    ensures PaginateMeta(map[], 0).Err?
    ensures var query := map["page" := QNum(3)];
      && PaginateMeta(query, 5).Ok?
      && PaginateMeta(query, 5).value.totalPages == 1
      && PaginateMeta(query, 5).value.currentPage == 3
  {
    var query := map["page" := QNum(3)];
    assert NumberOr(query, "limit", 20) == 20;
    assert Paging.CeilDiv(5, 20) == 1;
  }

  /** `paginateMeta()` as its message and the empty-result design intend: an
      empty result gives a zeroed meta on any page; otherwise a page beyond
      the last one fails with 400. */
  function PaginateMetaIntended(query: Query, totalItems: nat): (r: Result<Meta>)
    requires NumberOr(query, "limit", 20) > 0
    ensures totalItems == 0 ==> r == Ok(Meta(0, 0, 1, NumberOr(query, "limit", 20)))
    ensures totalItems > 0 ==> (r.Err? <==> NumberOr(query, "page", 1) > Paging.CeilDiv(totalItems, NumberOr(query, "limit", 20)))
    ensures r.Err? ==> r.error.status == BadRequest
    ensures r.Ok? && totalItems > 0 ==> r.value.currentPage == NumberOr(query, "page", 1)
    ensures r.Ok? ==> r.value.itemsPerPage == NumberOr(query, "limit", 20)
                      && r.value.totalPages == Paging.CeilDiv(totalItems, NumberOr(query, "limit", 20))
  {
    var itemsPerPage := NumberOr(query, "limit", 20);
    var currentPage := NumberOr(query, "page", 1);
    var totalPages := Paging.CeilDiv(totalItems, itemsPerPage);
    if totalItems == 0 then Ok(Meta(0, 0, 1, itemsPerPage))
    else if currentPage > totalPages then Err(Error(BadRequest, OutOfRangeMessage(currentPage, totalPages)))
    else Ok(Meta(totalItems, totalPages, currentPage, itemsPerPage))
  }

  /** With the intended guard, a served page of a non-empty result starts at
      an existing item, and every page holding an item is served. */
  lemma {:induction false} PaginateMetaIntendedServesExactlyFilledPages(query: Query, totalItems: nat)
    requires NumberOr(query, "limit", 20) > 0 && NumberOr(query, "page", 1) >= 1 && totalItems > 0
    ensures var page, per := NumberOr(query, "page", 1), NumberOr(query, "limit", 20);
      PaginateMetaIntended(query, totalItems).Ok? <==> (page - 1) * per < totalItems
  {
    var page, per := NumberOr(query, "page", 1), NumberOr(query, "limit", 20);
    var tp := Paging.CeilDiv(totalItems, per);
    if page > tp {
      MulMono(tp, page - 1, per);
    } else {
      MulMono(page - 1, tp - 1, per);
    }
  }

  lemma MulMono(a: int, b: int, c: int)
    requires a <= b && c >= 0
    ensures a * c <= b * c
  {
  }
}
