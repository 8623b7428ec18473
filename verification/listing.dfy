/**
  GET /products: the query the controller builds from the request parameters
  (ProductController::index), its evaluation against the table under SQL's
  precedence rules, the ordering, and the page slice.
 */
module Listing {
  import opened Wrappers
  import opened Text
  import opened Request
  import opened Products
  import Tables

  /** The query-string parameters `index` reads. */
  datatype ListRequest = ListRequest(
    search: Input, minPrice: Input, maxPrice: Input,
    sortBy: Input, sortDir: Input, perPage: Input, page: Input)

  datatype Direction = Asc | Desc

  /** The columns of the products table that can be ordered by. */
  datatype Column = ById | ByName | ByDescription | ByPrice | ByBarcode

  /** The optional WHERE clauses: an absent clause is `None`. */
  datatype Filter = Filter(search: Option<string>, minPrice: Option<real>, maxPrice: Option<real>)

  /**
    The typed query. `sortBy` is the column name passed through unchecked
    (`None` when the parameter was sent empty).
   */
  datatype ListQuery = ListQuery(
    filter: Filter, sortBy: Option<string>, direction: Direction, perPage: nat, page: nat)

  /**
    Failures that surface as a server error: a sort direction other than asc/desc,
    a page size that is not a positive integer, and an ORDER BY on a column the
    table does not have.
   */
  datatype ListError = InvalidDirection | InvalidPageSize | UnknownColumn

  /** The model's default page size, used when `per_page` is missing or falsy. */
  const DefaultPerPage: nat := 15

  function NormalizeRequest(raw: ListRequest): ListRequest {
    ListRequest(
      Normalize(raw.search, true), Normalize(raw.minPrice, true), Normalize(raw.maxPrice, true),
      Normalize(raw.sortBy, true), Normalize(raw.sortDir, true), Normalize(raw.perPage, true),
      Normalize(raw.page, true))
  }

  /** `when(request('search'), ...)`: the term, only when the parameter is truthy. */
  function SearchTerm(v: Input): (r: Option<string>)
    ensures r.Some? <==> Truthy(v)
    ensures r.Some? ==> r.value == v.s
  {
    if Truthy(v) then Some(v.s) else None
  }

  /** A price bound, only when truthy; compared as the number its text denotes. */
  function Bound(v: Input): (r: Option<real>)
    ensures r.Some? <==> Truthy(v)
    ensures r.Some? ==> r.value == NumericValue(v.s)
  {
    if Truthy(v) then Some(NumericValue(v.s)) else None
  }

  /** `request('sort_by', 'id')`: the default applies only when the parameter is missing. */
  function SortColumnName(v: Input): (r: Option<string>)
    ensures v.Absent? ==> r == Some("id")
    ensures v.Str? ==> r == Some(v.s)
    ensures v.Null? ==> r.None?
  {
    match v
    case Absent => Some("id")
    case Null => None
    case Str(s) => Some(s)
  }

  /** `request('sort_dir', 'asc')`, accepted case-insensitively as asc or desc. */
  function SortDirection(v: Input): (r: Option<Direction>)
    ensures v.Absent? ==> r == Some(Asc)
    ensures v.Null? ==> r.None?
    ensures v.Str? ==> (r == Some(Asc) <==> Lower(v.s) == "asc")
    ensures v.Str? ==> (r == Some(Desc) <==> Lower(v.s) == "desc")
  {
    match v
    case Absent => Some(Asc)
    case Null => None
    case Str(s) =>
      var l := Lower(s);
      if l == "asc" then Some(Asc) else if l == "desc" then Some(Desc) else None
  }

  /** `paginate(request('per_page', 15))`: a falsy size falls back to the default. */
  function PageSize(v: Input): (r: Option<nat>)
    ensures !Truthy(v) ==> r == Some(DefaultPerPage)
    ensures r.Some? ==> r.value > 0
    ensures Truthy(v) && AllDigits(v.s) && DigitsValue(v.s) > 0 ==> r == Some(DigitsValue(v.s))
    ensures Truthy(v) && !AllDigits(v.s) ==> r.None?
  {
    if !Truthy(v) then Some(DefaultPerPage)
    else if AllDigits(v.s) && DigitsValue(v.s) > 0 then Some(DigitsValue(v.s))
    else None
  }

  /** The current page: a validated integer of at least 1, and page 1 otherwise. */
  function CurrentPage(v: Input): (p: nat)
    ensures p >= 1
    ensures v.Str? && ValidatedInt(v.s).Some? && ValidatedInt(v.s).value >= 1 ==> p == ValidatedInt(v.s).value
    ensures v.Str? && (ValidatedInt(v.s).None? || ValidatedInt(v.s).value < 1) ==> p == 1
    ensures !v.Str? ==> p == 1
  {
    if v.Str? then
      match ValidatedInt(v.s)
      case Some(n) => if n >= 1 then n else 1
      case None => 1
    else 1
  }

  /** The three `when` clauses of a (normalized) request. */
  function FilterOf(req: ListRequest): Filter {
    Filter(SearchTerm(req.search), Bound(req.minPrice), Bound(req.maxPrice))
  }

  /**
    The query `index` builds. The direction is checked first, when the ORDER BY is
    added; the page size when paginating.
   */
  function ParseRequest(raw: ListRequest): (r: Result<ListQuery, ListError>)
    ensures var req := NormalizeRequest(raw);
      r.Ok? <==> SortDirection(req.sortDir).Some? && PageSize(req.perPage).Some?
    ensures SortDirection(NormalizeRequest(raw).sortDir).None? ==> r == Err(InvalidDirection)
    ensures var req := NormalizeRequest(raw);
      SortDirection(req.sortDir).Some? && PageSize(req.perPage).None? ==> r == Err(InvalidPageSize)
    ensures r.Ok? ==> r.value.perPage > 0 && r.value.page >= 1
    ensures var req := NormalizeRequest(raw);
      r.Ok? ==>
        && r.value.filter == FilterOf(req)
        && r.value.sortBy == SortColumnName(req.sortBy)
        && Some(r.value.direction) == SortDirection(req.sortDir)
        && Some(r.value.perPage) == PageSize(req.perPage)
        && r.value.page == CurrentPage(req.page)
  {
    var req := NormalizeRequest(raw);
    match SortDirection(req.sortDir)
    case None => Err(InvalidDirection)
    case Some(dir) =>
      match PageSize(req.perPage)
      case None => Err(InvalidPageSize)
      case Some(size) =>
        Ok(ListQuery(FilterOf(req), SortColumnName(req.sortBy), dir, size, CurrentPage(req.page)))
  }

  // ---------------------------------------------------------------------------
  // The WHERE clause as the query builder accumulates it

  datatype Connective = And | Or

  datatype Condition =
    | NameLike(term: string)
    | DescriptionLike(term: string)
    | PriceAtLeast(bound: real)
    | PriceAtMost(bound: real)

  /** One `where` / `orWhere` call. */
  datatype Clause = Clause(connective: Connective, condition: Condition)

  /**
    The clauses in the order the builder appends them: the search pair (`where`
    then `orWhere`, not wrapped in a nested group), then each price bound.
   */
  function Clauses(f: Filter): seq<Clause> {
    (if f.search.Some? then [Clause(And, NameLike(f.search.value)), Clause(Or, DescriptionLike(f.search.value))] else [])
    + (if f.minPrice.Some? then [Clause(And, PriceAtLeast(f.minPrice.value))] else [])
    + (if f.maxPrice.Some? then [Clause(And, PriceAtMost(f.maxPrice.value))] else [])
  }

  predicate Holds(c: Condition, p: Product) {
    match c
    case NameLike(t) => Contains(p.name, t)
    case DescriptionLike(t) => Contains(p.description, t)
    case PriceAtLeast(b) => p.price >= b
    case PriceAtMost(b) => p.price <= b
  }

  /**
    Evaluates `c0 b1 c1 b2 c2 ...` as SQL does, AND binding tighter than OR:
    `done` is the disjunction of the finished AND-groups, `group` the one in progress.
    The first clause's connective is dropped, as the SQL grammar does.
   */
  function EvalFrom(cs: seq<Clause>, i: nat, done: bool, group: bool, p: Product): bool
    decreases |cs| - i
  {
    if i >= |cs| then done || group
    else if i > 0 && cs[i].connective == Or then EvalFrom(cs, i + 1, done || group, Holds(cs[i].condition, p), p)
    else EvalFrom(cs, i + 1, done, group && Holds(cs[i].condition, p), p)
  }

  /** The row passes the WHERE clause the builder produced. */
  predicate Admits(f: Filter, p: Product) {
    EvalFrom(Clauses(f), 0, false, true, p)
  }

  predicate WithinBounds(f: Filter, p: Product) {
    (f.minPrice.Some? ==> p.price >= f.minPrice.value) && (f.maxPrice.Some? ==> p.price <= f.maxPrice.value)
  }

  /**
    The filter stated directly: with a search term, a name match alone suffices,
    while a description match must also respect the price bounds.
   */
  predicate Effective(f: Filter, p: Product) {
    match f.search
    case Some(t) => Contains(p.name, t) || (Contains(p.description, t) && WithinBounds(f, p))
    case None => WithinBounds(f, p)
  }

  /** The builder's clause list, evaluated with SQL precedence, is exactly `Effective`. */
  lemma AdmitsIsEffective(f: Filter, p: Product)
    ensures Admits(f, p) <==> Effective(f, p)
  {
    var cs := Clauses(f);
    var lo := if f.minPrice.Some? then p.price >= f.minPrice.value else true;
    var hi := if f.maxPrice.Some? then p.price <= f.maxPrice.value else true;
    if f.search.Some? {
      var t := f.search.value;
      var name := Contains(p.name, t);
      var desc := Contains(p.description, t);
      assert EvalFrom(cs, 0, false, true, p) == EvalFrom(cs, 1, false, name, p);
      assert EvalFrom(cs, 1, false, name, p) == EvalFrom(cs, 2, name, desc, p);
      if f.minPrice.Some? && f.maxPrice.Some? {
        assert EvalFrom(cs, 2, name, desc, p) == EvalFrom(cs, 3, name, desc && lo, p);
        assert EvalFrom(cs, 3, name, desc && lo, p) == EvalFrom(cs, 4, name, desc && lo && hi, p);
      } else if f.minPrice.Some? {
        assert EvalFrom(cs, 2, name, desc, p) == EvalFrom(cs, 3, name, desc && lo, p);
      } else if f.maxPrice.Some? {
        assert EvalFrom(cs, 2, name, desc, p) == EvalFrom(cs, 3, name, desc && hi, p);
      }
    } else {
      if f.minPrice.Some? && f.maxPrice.Some? {
        assert EvalFrom(cs, 0, false, true, p) == EvalFrom(cs, 1, false, lo, p);
        assert EvalFrom(cs, 1, false, lo, p) == EvalFrom(cs, 2, false, lo && hi, p);
      } else if f.minPrice.Some? {
        assert EvalFrom(cs, 0, false, true, p) == EvalFrom(cs, 1, false, lo, p);
      } else if f.maxPrice.Some? {
        assert EvalFrom(cs, 0, false, true, p) == EvalFrom(cs, 1, false, hi, p);
      }
    }
  }

  /** The rows of `s` that pass the WHERE clause, in their original order. */
  function Matching(f: Filter, s: seq<Product>): (r: seq<Product>)
    ensures |r| <= |s|
    ensures forall p :: p in r <==> p in s && Admits(f, p)
    ensures Tables.Distinct(s) ==> Tables.Distinct(r)
  {
    if s == [] then []
    else
      var rest := Matching(f, s[1..]);
      assert forall p :: p in s <==> p == s[0] || p in s[1..];
      if Admits(f, s[0]) then [s[0]] + rest else rest
  }

  // ---------------------------------------------------------------------------
  // ORDER BY

  /** The column a `sort_by` value names, if the table has it. */
  function ColumnOf(name: Option<string>): (c: Option<Column>)
    ensures name == Some("id") ==> c == Some(ById)
    ensures name == Some("name") ==> c == Some(ByName)
    ensures name == Some("price") ==> c == Some(ByPrice)
    ensures name.None? ==> c.None?
  {
    match name
    case None => None
    case Some(n) =>
      if n == "id" then Some(ById)
      else if n == "name" then Some(ByName)
      else if n == "description" then Some(ByDescription)
      else if n == "price" then Some(ByPrice)
      else if n == "barcode" then Some(ByBarcode)
      else None
  }

  /** Ascending order on one column; a null barcode sorts before every barcode. */
  predicate KeyLe(c: Column, p: Product, q: Product) {
    match c
    case ById => p.id <= q.id
    case ByName => LexLe(p.name, q.name)
    case ByDescription => LexLe(p.description, q.description)
    case ByPrice => p.price <= q.price
    case ByBarcode => p.barcode.None? || (q.barcode.Some? && LexLe(p.barcode.value, q.barcode.value))
  }

  /** `p` may come before `q` under `ORDER BY c d`. */
  predicate Before(c: Column, d: Direction, p: Product, q: Product) {
    if d == Asc then KeyLe(c, p, q) else KeyLe(c, q, p)
  }

  lemma KeyLeTotal(c: Column, p: Product, q: Product)
    ensures KeyLe(c, p, q) || KeyLe(c, q, p)
  {
    match c
    case ByName => LexLeTotal(p.name, q.name);
    case ByDescription => LexLeTotal(p.description, q.description);
    case ByBarcode =>
      if p.barcode.Some? && q.barcode.Some? {
        LexLeTotal(p.barcode.value, q.barcode.value);
      }
    case _ =>
  }

  lemma KeyLeTransitive(c: Column, p: Product, q: Product, r: Product)
    requires KeyLe(c, p, q) && KeyLe(c, q, r)
    ensures KeyLe(c, p, r)
  {
    match c
    case ByName => LexLeTransitive(p.name, q.name, r.name);
    case ByDescription => LexLeTransitive(p.description, q.description, r.description);
    case ByBarcode =>
      if p.barcode.Some? {
        LexLeTransitive(p.barcode.value, q.barcode.value, r.barcode.value);
      }
    case _ =>
  }

  lemma BeforeTotal(c: Column, d: Direction, p: Product, q: Product)
    ensures Before(c, d, p, q) || Before(c, d, q, p)
  {
    KeyLeTotal(c, p, q);
  }

  lemma BeforeTransitive(c: Column, d: Direction, p: Product, q: Product, r: Product)
    requires Before(c, d, p, q) && Before(c, d, q, r)
    ensures Before(c, d, p, r)
  {
    if d == Asc {
      KeyLeTransitive(c, p, q, r);
    } else {
      KeyLeTransitive(c, r, q, p);
    }
  }

  predicate SortedBy(c: Column, d: Direction, s: seq<Product>) {
    forall i, j :: 0 <= i < j < |s| ==> Before(c, d, s[i], s[j])
  }

  /** Prepending an element that may precede every element keeps a sequence sorted. */
  lemma ConsSorted(c: Column, d: Direction, h: Product, s: seq<Product>)
    requires SortedBy(c, d, s)
    requires forall y :: y in s ==> Before(c, d, h, y)
    ensures SortedBy(c, d, [h] + s)
  {
    forall i, j | 0 <= i < j < |[h] + s|
      ensures Before(c, d, ([h] + s)[i], ([h] + s)[j])
    {
      if i > 0 {
        assert ([h] + s)[i] == s[i - 1] && ([h] + s)[j] == s[j - 1];
      } else {
        assert ([h] + s)[j] in s;
      }
    }
  }

  /** In a sorted sequence, whatever may precede the head may precede every element. */
  lemma PrecedesAll(c: Column, d: Direction, x: Product, s: seq<Product>)
    requires SortedBy(c, d, s) && s != [] && Before(c, d, x, s[0])
    ensures forall y :: y in s ==> Before(c, d, x, y)
  {
    forall y | y in s
      ensures Before(c, d, x, y)
    {
      var j :| 0 <= j < |s| && s[j] == y;
      if j > 0 {
        BeforeTransitive(c, d, x, s[0], y);
      }
    }
  }

  /** The head of a sorted sequence may precede anything built from its tail and `x`. */
  lemma HeadPrecedesRest(c: Column, d: Direction, x: Product, s: seq<Product>, rest: seq<Product>)
    requires SortedBy(c, d, s) && s != [] && Before(c, d, s[0], x)
    requires multiset(rest) == multiset(s[1..]) + multiset{x}
    ensures forall y :: y in rest ==> Before(c, d, s[0], y)
  {
    forall y | y in rest
      ensures Before(c, d, s[0], y)
    {
      assert y in multiset(rest);
      if y != x {
        assert y in multiset(s[1..]);
        var j :| 0 <= j < |s[1..]| && s[1..][j] == y;
        assert s[j + 1] == y;
      }
    }
  }

  lemma HeadNotInRest(x: Product, s: seq<Product>, rest: seq<Product>)
    requires s != [] && x !in s && Tables.Distinct(s)
    requires multiset(rest) == multiset(s[1..]) + multiset{x}
    ensures s[0] !in rest
  {
    assert s[0] !in s[1..];
    assert s[0] !in multiset(rest);
  }

  /** Places `x` before the first element it may precede: ties keep `x` first. */
  function Insert(c: Column, d: Direction, x: Product, s: seq<Product>): (r: seq<Product>)
    requires SortedBy(c, d, s)
    ensures SortedBy(c, d, r)
    ensures multiset(r) == multiset(s) + multiset{x}
    ensures x !in s && Tables.Distinct(s) ==> Tables.Distinct(r)
    decreases |s|
  {
    if s == [] then [x]
    else if Before(c, d, x, s[0]) then
      PrecedesAll(c, d, x, s);
      ConsSorted(c, d, x, s);
      [x] + s
    else
      BeforeTotal(c, d, x, s[0]);
      var rest := Insert(c, d, x, s[1..]);
      InsertBehindHead(c, d, x, s, rest);
      [s[0]] + rest
  }

  /** The step of `Insert` that keeps the head: `x` went into the sorted tail. */
  lemma InsertBehindHead(c: Column, d: Direction, x: Product, s: seq<Product>, rest: seq<Product>)
    requires SortedBy(c, d, s) && s != [] && Before(c, d, s[0], x)
    requires SortedBy(c, d, rest) && multiset(rest) == multiset(s[1..]) + multiset{x}
    requires x !in s[1..] && Tables.Distinct(s[1..]) ==> Tables.Distinct(rest)
    ensures SortedBy(c, d, [s[0]] + rest)
    ensures multiset([s[0]] + rest) == multiset(s) + multiset{x}
    ensures x !in s && Tables.Distinct(s) ==> Tables.Distinct([s[0]] + rest)
  {
    assert s == [s[0]] + s[1..];
    HeadPrecedesRest(c, d, x, s, rest);
    ConsSorted(c, d, s[0], rest);
    if x !in s && Tables.Distinct(s) {
      HeadNotInRest(x, s, rest);
    }
  }

  /** Insertion sort: a sorted permutation, ties in their input order. */
  function Sort(c: Column, d: Direction, s: seq<Product>): (r: seq<Product>)
    ensures SortedBy(c, d, r)
    ensures multiset(r) == multiset(s)
    ensures Tables.Distinct(s) ==> Tables.Distinct(r)
  {
    if s == [] then []
    else
      var rest := Sort(c, d, s[1..]);
      assert s == [s[0]] + s[1..];
      assert Tables.Distinct(s) ==> s[0] !in multiset(s[1..]);
      Insert(c, d, s[0], rest)
  }

  // ---------------------------------------------------------------------------
  // Pagination and the endpoint

  /** The position of the first row of `page`. */
  function Offset(perPage: nat, page: nat): nat
    requires page >= 1
  {
    (page - 1) * perPage
  }

  lemma MulMonotone(a: nat, b: nat, k: nat)
    requires a <= b
    ensures a * k <= b * k
  {
  }

  /** A later page starts at least one full page after an earlier one. */
  lemma OffsetGrows(perPage: nat, a: nat, b: nat)
    requires 1 <= a < b
    ensures Offset(perPage, a) + perPage <= Offset(perPage, b)
  {
    assert (b - 1) * perPage == (a - 1) * perPage + (b - a) * perPage;
    MulMonotone(1, b - a, perPage);
  }

  /** The `page`-th run of `perPage` elements; pages count from 1. */
  function PageOf(s: seq<Product>, perPage: nat, page: nat): (r: seq<Product>)
    requires perPage > 0 && page >= 1
    ensures |r| <= perPage
    ensures forall k :: 0 <= k < |r| ==> Offset(perPage, page) + k < |s| && r[k] == s[Offset(perPage, page) + k]
    ensures Offset(perPage, page) < |s| ==> |r| == if Offset(perPage, page) + perPage <= |s| then perPage else |s| - Offset(perPage, page)
    ensures Offset(perPage, page) >= |s| ==> r == []
  {
    var start := Offset(perPage, page);
    if start >= |s| then []
    else s[start..if start + perPage <= |s| then start + perPage else |s|]
  }

  /** The number of the last page: the page count rounded up, and at least 1. */
  function LastPage(total: nat, perPage: nat): (l: nat)
    requires perPage > 0
    ensures l >= 1
    ensures total == 0 ==> l == 1
    ensures total > 0 ==> (l - 1) * perPage < total <= l * perPage
  {
    if total == 0 then 1
    else
      var n := total + perPage - 1;
      var l := n / perPage;
      assert n == l * perPage + n % perPage;
      assert (l - 1) * perPage == l * perPage - perPage;
      l
  }

  /** The paginator's JSON: the page's rows and the counters the client reads. */
  datatype Page = Page(items: seq<Product>, total: nat, perPage: nat, currentPage: nat, lastPage: nat)

  /** The filtered rows, before ordering. */
  function Selection(t: ProductTable, q: ListQuery): seq<Product> {
    Matching(q.filter, Rows(t))
  }

  /** The filtered rows under `ORDER BY c`. */
  function Listed(t: ProductTable, q: ListQuery, c: Column): seq<Product> {
    Sort(c, q.direction, Selection(t, q))
  }

  /**
    Running the query. The count query runs first and ignores the ORDER BY; the rows
    are fetched, and an unknown sort column fails, only when the count is non-zero.
   */
  function Respond(t: ProductTable, q: ListQuery): (r: Result<Page, ListError>)
    requires q.perPage > 0 && q.page >= 1
    ensures r.Ok? ==>
      && r.value.perPage == q.perPage && r.value.currentPage == q.page
      && r.value.total == |Selection(t, q)| && r.value.lastPage == LastPage(r.value.total, q.perPage)
      && |r.value.items| <= q.perPage
      && (forall p :: p in r.value.items ==> p in t.rows.Values && Effective(q.filter, p))
    ensures r.Err? <==> |Selection(t, q)| > 0 && ColumnOf(q.sortBy).None?
    ensures r.Err? ==> r.error == UnknownColumn
  {
    var matching := Selection(t, q);
    if |matching| == 0 then Ok(Page([], 0, q.perPage, q.page, 1))
    else
      match ColumnOf(q.sortBy)
      case None => Err(UnknownColumn)
      case Some(c) =>
        var ordered := Sort(c, q.direction, matching);
        var items := PageOf(ordered, q.perPage, q.page);
        assert forall p :: p in items ==> p in t.rows.Values && Effective(q.filter, p) by {
          forall p | p in items
            ensures p in t.rows.Values && Effective(q.filter, p)
          {
            assert p in multiset(ordered);
            AdmitsIsEffective(q.filter, p);
          }
        }
        Ok(Page(items, |matching|, q.perPage, q.page, LastPage(|matching|, q.perPage)))
  }

  /**
    GET /products: build the query from the request, then run it. Stated in terms of
    the request: which rows come back, how they are counted, and when it fails.
   */
  function Index(t: ProductTable, raw: ListRequest): (r: Result<Page, ListError>)
    ensures var req := NormalizeRequest(raw);
      r.Ok? ==> forall p :: p in r.value.items ==> p in t.rows.Values && Effective(FilterOf(req), p)
    ensures var req := NormalizeRequest(raw);
      r.Ok? ==>
        && r.value.total == |Matching(FilterOf(req), Rows(t))|
        && r.value.currentPage == CurrentPage(req.page)
        && Some(r.value.perPage) == PageSize(req.perPage)
        && |r.value.items| <= r.value.perPage
    ensures r == Err(InvalidDirection) <==> SortDirection(NormalizeRequest(raw).sortDir).None?
    ensures var req := NormalizeRequest(raw);
      r == Err(InvalidPageSize) <==> SortDirection(req.sortDir).Some? && PageSize(req.perPage).None?
    ensures var req := NormalizeRequest(raw);
      r == Err(UnknownColumn) <==>
        && SortDirection(req.sortDir).Some? && PageSize(req.perPage).Some?
        && |Matching(FilterOf(req), Rows(t))| > 0
        && ColumnOf(SortColumnName(req.sortBy)).None?
  {
    var q :- ParseRequest(raw);
    Respond(t, q)
  }

  // ---------------------------------------------------------------------------
  // Properties of the listing

  /** Filter soundness and completeness: a row is listed iff it satisfies `Effective`. */
  lemma ListedExactly(t: ProductTable, q: ListQuery, c: Column, p: Product)
    requires WellKeyed(t)
    ensures p in Listed(t, q, c) <==> p in t.rows.Values && Effective(q.filter, p)
  {
    assert p in Listed(t, q, c) <==> p in multiset(Selection(t, q));
    AdmitsIsEffective(q.filter, p);
  }

  /** With a search term and no price bounds: listed iff the name or the description contains the term. */
  lemma SearchWithoutBounds(t: ProductTable, q: ListQuery, c: Column, p: Product)
    requires WellKeyed(t)
    requires q.filter.search.Some? && q.filter.minPrice.None? && q.filter.maxPrice.None?
    ensures p in Listed(t, q, c) <==>
      p in t.rows.Values && (Contains(p.name, q.filter.search.value) || Contains(p.description, q.filter.search.value))
  {
    ListedExactly(t, q, c, p);
  }

  /** Without a search term every listed row lies within whichever bounds are given. */
  lemma BoundsWithoutSearch(t: ProductTable, q: ListQuery, c: Column, p: Product)
    requires WellKeyed(t) && q.filter.search.None?
    requires p in Listed(t, q, c)
    ensures q.filter.minPrice.Some? ==> q.filter.minPrice.value <= p.price
    ensures q.filter.maxPrice.Some? ==> p.price <= q.filter.maxPrice.value
  {
    ListedExactly(t, q, c, p);
  }

  /** The ungrouped OR: a name match is listed even when its price is outside the bounds. */
  lemma NameMatchIgnoresBounds(t: ProductTable, q: ListQuery, c: Column, p: Product)
    requires WellKeyed(t) && p in t.rows.Values
    requires q.filter.search.Some? && Contains(p.name, q.filter.search.value)
    ensures p in Listed(t, q, c)
  {
    ListedExactly(t, q, c, p);
  }

  /** A description match, by contrast, must respect the bounds. */
  lemma DescriptionMatchRespectsBounds(t: ProductTable, q: ListQuery, c: Column, p: Product)
    requires WellKeyed(t) && q.filter.search.Some? && !Contains(p.name, q.filter.search.value)
    requires p in Listed(t, q, c)
    ensures Contains(p.description, q.filter.search.value) && WithinBounds(q.filter, p)
  {
    ListedExactly(t, q, c, p);
  }

  /** A parameter value that is missing, null, empty or "0" yields no clause. */
  lemma FalsyInputIgnored(v: Input)
    requires v == Absent || v == Null || v == Str("") || v == Str("0")
    ensures SearchTerm(Normalize(v, true)).None? && Bound(Normalize(v, true)).None?
  {
    if v == Str("0") {
      NormalizeKeeps("0", true);
    }
  }

  /** A search, min_price or max_price parameter that is PHP-falsy switches its clause off. */
  lemma FalsyParametersIgnored(raw: ListRequest)
    requires ParseRequest(raw).Ok?
    ensures raw.search in {Absent, Null, Str(""), Str("0")} ==> ParseRequest(raw).value.filter.search.None?
    ensures raw.minPrice in {Absent, Null, Str(""), Str("0")} ==> ParseRequest(raw).value.filter.minPrice.None?
    ensures raw.maxPrice in {Absent, Null, Str(""), Str("0")} ==> ParseRequest(raw).value.filter.maxPrice.None?
  {
    var req := NormalizeRequest(raw);
    assert ParseRequest(raw).value.filter == Filter(SearchTerm(req.search), Bound(req.minPrice), Bound(req.maxPrice));
    if raw.search in {Absent, Null, Str(""), Str("0")} {
      FalsyInputIgnored(raw.search);
    }
    if raw.minPrice in {Absent, Null, Str(""), Str("0")} {
      FalsyInputIgnored(raw.minPrice);
    }
    if raw.maxPrice in {Absent, Null, Str(""), Str("0")} {
      FalsyInputIgnored(raw.maxPrice);
    }
  }

  /** A `max_price` (or `min_price`) of "0" is falsy and bounds nothing. */
  lemma ZeroIsNoBound()
    ensures Bound(Normalize(Str("0"), true)).None?
  {
    NormalizeKeeps("0", true);
  }

  /** "0.0" is truthy in PHP, so unlike "0" it does bound the price. */
  lemma ZeroPointZeroBounds()
    ensures Bound(Normalize(Str("0.0"), true)) == Some(0.0)
  {
    NormalizeKeeps("0.0", true);
    ZeroPointZeroValue();
  }

  /** The endpoint returns the requested slice of the ordered, filtered rows, in order. */
  lemma RespondIsPageOfListing(t: ProductTable, q: ListQuery)
    requires q.perPage > 0 && q.page >= 1
    requires Respond(t, q).Ok?
    ensures Respond(t, q).value.total == |Selection(t, q)|
    ensures Respond(t, q).value.total > 0 ==>
      && ColumnOf(q.sortBy).Some?
      && Respond(t, q).value.items == PageOf(Listed(t, q, ColumnOf(q.sortBy).value), q.perPage, q.page)
      && SortedBy(ColumnOf(q.sortBy).value, q.direction, Respond(t, q).value.items)
  {
    if |Selection(t, q)| > 0 {
      var c := ColumnOf(q.sortBy).value;
      var s := Listed(t, q, c);
      var items := PageOf(s, q.perPage, q.page);
      assert Respond(t, q).value.items == items;
      forall i, j | 0 <= i < j < |items|
        ensures Before(c, q.direction, items[i], items[j])
      {
        assert items[i] == s[Offset(q.perPage, q.page) + i];
        assert items[j] == s[Offset(q.perPage, q.page) + j];
      }
    }
  }

  /** Two different pages of the same listing share no row. */
  lemma PagesDisjoint(s: seq<Product>, perPage: nat, a: nat, b: nat)
    requires Tables.Distinct(s) && perPage > 0 && a >= 1 && b >= 1 && a != b
    ensures forall p :: p in PageOf(s, perPage, a) ==> p !in PageOf(s, perPage, b)
  {
    var pa := PageOf(s, perPage, a);
    var pb := PageOf(s, perPage, b);
    forall p | p in pa
      ensures p !in pb
    {
      var i :| 0 <= i < |pa| && pa[i] == p;
      var x := Offset(perPage, a) + i;
      forall j | 0 <= j < |pb|
        ensures pb[j] != p
      {
        var y := Offset(perPage, b) + j;
        if a < b {
          OffsetGrows(perPage, a, b);
        } else {
          OffsetGrows(perPage, b, a);
        }
        assert s[x] != s[y];
      }
    }
  }

  /** The page parameter feeds the page number and nothing else. */
  lemma ParsePageOnly(raw: ListRequest, other: Input)
    requires ParseRequest(raw).Ok?
    ensures ParseRequest(raw.(page := other)) ==
      Ok(ParseRequest(raw).value.(page := CurrentPage(Normalize(other, true))))
  {
    assert NormalizeRequest(raw.(page := other)) == NormalizeRequest(raw).(page := Normalize(other, true));
  }

  // ---------------------------------------------------------------------------
  // Ties

  /**
    No two different rows of `s` share a sort key. The ORDER BY has no tie-break,
    so only then is the order of the rows determined by the query.
   */
  predicate TieFree(c: Column, s: seq<Product>) {
    forall p, q :: p in s && q in s && KeyLe(c, p, q) && KeyLe(c, q, p) ==> p == q
  }

  /** Two sorted arrangements of the same tie-free rows start with the same row. */
  lemma SortedHeadsAgree(c: Column, d: Direction, a: seq<Product>, b: seq<Product>)
    requires SortedBy(c, d, a) && SortedBy(c, d, b) && multiset(a) == multiset(b)
    requires TieFree(c, a) && a != []
    ensures b != [] && a[0] == b[0]
  {
    assert a[0] in multiset(b);
    assert b[0] in multiset(a);
    var i :| 0 <= i < |a| && a[i] == b[0];
    var j :| 0 <= j < |b| && b[j] == a[0];
    if i > 0 && j > 0 {
      assert Before(c, d, a[0], a[i]);
      assert Before(c, d, b[0], b[j]);
      assert KeyLe(c, a[0], b[0]) && KeyLe(c, b[0], a[0]);
    }
  }

  /** Removing equal heads from two permutations of each other leaves permutations. */
  lemma TailsPermuted(a: seq<Product>, b: seq<Product>)
    requires a != [] && b != [] && a[0] == b[0] && multiset(a) == multiset(b)
    ensures multiset(a[1..]) == multiset(b[1..])
  {
    assert a == [a[0]] + a[1..];
    assert b == [b[0]] + b[1..];
    assert multiset(a) == multiset{a[0]} + multiset(a[1..]);
    assert multiset(b) == multiset{a[0]} + multiset(b[1..]);
    assert multiset(a[1..]) == multiset(a) - multiset{a[0]};
  }

  /** Two sorted arrangements of the same tie-free rows are the same sequence. */
  lemma {:induction false} SortedUnique(c: Column, d: Direction, a: seq<Product>, b: seq<Product>)
    requires SortedBy(c, d, a) && SortedBy(c, d, b) && multiset(a) == multiset(b)
    requires TieFree(c, a)
    ensures a == b
    decreases |a|
  {
    if a == [] {
      assert |b| == |multiset(b)| == 0;
    } else {
      SortedHeadsAgree(c, d, a, b);
      TailsPermuted(a, b);
      assert forall p :: p in a[1..] ==> p in a;
      SortedUnique(c, d, a[1..], b[1..]);
      assert a == [a[0]] + a[1..] && b == [b[0]] + b[1..];
    }
  }

  /**
    With tie-free keys the model's ordering is the only one the ORDER BY permits:
    every sorted arrangement of the selection is `Listed`.
   */
  lemma ListedIsTheOrder(t: ProductTable, q: ListQuery, c: Column, s: seq<Product>)
    requires TieFree(c, Selection(t, q))
    requires SortedBy(c, q.direction, s) && multiset(s) == multiset(Selection(t, q))
    ensures s == Listed(t, q, c)
  {
    var l := Listed(t, q, c);
    assert forall p :: p in s <==> p in Selection(t, q) by {
      forall p
        ensures p in s <==> p in Selection(t, q)
      {
        assert p in s <==> p in multiset(s);
        assert p in Selection(t, q) <==> p in multiset(Selection(t, q));
      }
    }
    SortedUnique(c, q.direction, s, l);
  }

  /**
    Each request may receive any arrangement the ORDER BY permits; with tie-free
    keys two different pages still share no row.
   */
  lemma AnyOrderPagesDisjoint(t: ProductTable, q: ListQuery, c: Column, sa: seq<Product>, sb: seq<Product>,
                              perPage: nat, a: nat, b: nat)
    requires WellKeyed(t) && TieFree(c, Selection(t, q))
    requires SortedBy(c, q.direction, sa) && multiset(sa) == multiset(Selection(t, q))
    requires SortedBy(c, q.direction, sb) && multiset(sb) == multiset(Selection(t, q))
    requires perPage > 0 && a >= 1 && b >= 1 && a != b
    ensures forall p :: p in PageOf(sa, perPage, a) ==> p !in PageOf(sb, perPage, b)
  {
    ListedIsTheOrder(t, q, c, sa);
    ListedIsTheOrder(t, q, c, sb);
    PagesDisjoint(Listed(t, q, c), perPage, a, b);
  }

  /** Ordering by id never ties: ids are the table's keys. */
  lemma IdOrderTieFree(t: ProductTable, q: ListQuery)
    requires WellKeyed(t)
    ensures TieFree(ById, Selection(t, q))
  {
    forall p, p' | p in Selection(t, q) && p' in Selection(t, q) && KeyLe(ById, p, p') && KeyLe(ById, p', p)
      ensures p == p'
    {
      assert p in t.rows.Values && p' in t.rows.Values;
      var k :| k in t.rows && t.rows[k] == p;
      var k' :| k' in t.rows && t.rows[k'] == p';
    }
  }

  /** The sort column of a parsed request has no ties among the rows it selects. */
  predicate TieFreeQuery(t: ProductTable, q: ListQuery) {
    ColumnOf(q.sortBy).Some? ==> TieFree(ColumnOf(q.sortBy).value, Selection(t, q))
  }

  /**
    Requests that differ only in the page number never show the same product twice,
    as long as the sort key has no ties (for instance when sorting by id).
   */
  lemma IndexPagesDisjoint(t: ProductTable, raw: ListRequest, other: Input, pa: Page, pb: Page)
    requires WellKeyed(t)
    requires Index(t, raw) == Ok(pa) && Index(t, raw.(page := other)) == Ok(pb)
    requires ParseRequest(raw).Ok? && TieFreeQuery(t, ParseRequest(raw).value)
    requires pa.currentPage != pb.currentPage
    ensures forall p :: p in pa.items ==> p !in pb.items
  {
    var q := ParseRequest(raw).value;
    ParsePageOnly(raw, other);
    var q2 := q.(page := CurrentPage(Normalize(other, true)));
    assert Respond(t, q) == Ok(pa);
    assert Respond(t, q2) == Ok(pb);
    assert Selection(t, q2) == Selection(t, q);
    RespondIsPageOfListing(t, q);
    RespondIsPageOfListing(t, q2);
    if |Selection(t, q)| > 0 {
      var c := ColumnOf(q.sortBy).value;
      assert Listed(t, q2, c) == Listed(t, q, c);
      PagesDisjoint(Listed(t, q, c), q.perPage, q.page, q2.page);
    }
  }
}
