/**
  The product list page (ProductList.jsx): the filter state, how the controls
  change it, the query string it is sent as, and the pager buttons.
 */
module ProductList {
  import opened Text
  import opened Request
  import Listing

  /** A page number as the page holds it; `undefined - 1` and `undefined + 1` are NaN. */
  datatype PageNumber = Num(n: int) | NaN

  /** The `filters` state; every entry is sent as a query parameter. */
  datatype Filters = Filters(
    search: string, minPrice: string, maxPrice: string,
    sortBy: string, sortDir: string, perPage: nat, page: PageNumber)

  const Initial: Filters := Filters("", "", "", "id", "asc", 10, Num(1))

  /** The options of the two selects. */
  datatype SortOption = SortById | SortByName | SortByPrice
  datatype DirOption = Ascending | Descending

  function SortValue(o: SortOption): string {
    match o
    case SortById => "id"
    case SortByName => "name"
    case SortByPrice => "price"
  }

  function DirValue(o: DirOption): string {
    match o
    case Ascending => "asc"
    case Descending => "desc"
  }

  /** One change event: the three text inputs carry any text, the selects one of their options. */
  datatype Change =
    | Search(text: string)
    | MinPrice(text: string)
    | MaxPrice(text: string)
    | SortBy(sort: SortOption)
    | SortDir(dir: DirOption)

  /** `handleFilterChange`: set the changed entry and go back to page 1. */
  function ChangeFilter(f: Filters, c: Change): (r: Filters)
    ensures r.page == Num(1) && r.perPage == f.perPage
    ensures r.search == (if c.Search? then c.text else f.search)
    ensures r.minPrice == (if c.MinPrice? then c.text else f.minPrice)
    ensures r.maxPrice == (if c.MaxPrice? then c.text else f.maxPrice)
    ensures r.sortBy == (if c.SortBy? then SortValue(c.sort) else f.sortBy)
    ensures r.sortDir == (if c.SortDir? then DirValue(c.dir) else f.sortDir)
  {
    var g := match c
      case Search(s) => f.(search := s)
      case MinPrice(s) => f.(minPrice := s)
      case MaxPrice(s) => f.(maxPrice := s)
      case SortBy(o) => f.(sortBy := SortValue(o))
      case SortDir(o) => f.(sortDir := DirValue(o));
    g.(page := Num(1))
  }

  /** `handlePageChange`: only the page number changes. */
  function ChangePage(f: Filters, p: PageNumber): (r: Filters)
    ensures r.page == p
    ensures r.(page := f.page) == f
  {
    f.(page := p)
  }

  /** The counters of the last successful response; `Unknown` before the first one. */
  datatype Pagination = Unknown | Known(current: int, last: int)

  /** The pager after a response arrived. */
  function FromPage(p: Listing.Page): Pagination {
    Known(p.currentPage, p.lastPage)
  }

  /** `disabled={pagination.current_page <= 1}`: a comparison with undefined is false. */
  predicate PrevDisabled(p: Pagination) {
    p.Known? && p.current <= 1
  }

  /** `disabled={pagination.current_page >= pagination.last_page}`. */
  predicate NextDisabled(p: Pagination) {
    p.Known? && p.current >= p.last
  }

  /** The page the Previous button asks for. */
  function PrevTarget(p: Pagination): PageNumber {
    if p.Known? then Num(p.current - 1) else NaN
  }

  /** The page the Next button asks for. */
  function NextTarget(p: Pagination): PageNumber {
    if p.Known? then Num(p.current + 1) else NaN
  }

  /** The text of a page number in the query string. */
  function PageText(p: PageNumber): (s: string)
    ensures s != ""
  {
    match p
    case Num(n) => IntText(n)
    case NaN => "NaN"
  }

  /** `axios.get('/products', { params: filters })`: every entry is sent, empty ones as empty text. */
  function ToRequest(f: Filters): Listing.ListRequest {
    Listing.ListRequest(
      Str(f.search), Str(f.minPrice), Str(f.maxPrice), Str(f.sortBy), Str(f.sortDir),
      Str(NatText(f.perPage)), Str(PageText(f.page)))
  }

  /** The states the controls can produce from the initial one. */
  predicate Reachable(f: Filters) {
    && (f.sortBy == "id" || f.sortBy == "name" || f.sortBy == "price")
    && (f.sortDir == "asc" || f.sortDir == "desc")
    && f.perPage == 10
  }

  /** Both handlers keep the state within what the controls can produce. */
  lemma ChangesStayReachable(f: Filters, c: Change, p: PageNumber)
    requires Reachable(f)
    ensures Reachable(ChangeFilter(f, c))
    ensures Reachable(ChangePage(f, p))
  {
  }

  /** A numeric page text is read back as that page, and as page 1 below 1. */
  lemma NumPageResolves(n: int)
    ensures Listing.CurrentPage(Normalize(Str(IntText(n)), true)) == if n >= 1 then n else 1
  {
    NormalizeIntText(n, true);
    ValidatedIntText(n);
  }

  /** The text "NaN" is not an integer. */
  lemma NaNNotInteger()
    ensures ValidatedInt("NaN").None?
  {
    assert !IsDigit("NaN"[0]);
  }

  /** The text "NaN" is not an integer, so the server falls back to page 1. */
  lemma NaNPageResolves()
    ensures Listing.CurrentPage(Normalize(Str("NaN"), true)) == 1
  {
    NormalizeKeeps("NaN", true);
    NaNNotInteger();
  }

  /** The page number the server reads from the page the client holds. */
  lemma PageTextResolves(p: PageNumber)
    ensures Listing.CurrentPage(Normalize(Str(PageText(p)), true)) ==
      if p.Num? && p.n >= 1 then p.n else 1
  {
    if p.Num? {
      NumPageResolves(p.n);
    } else {
      NaNPageResolves();
    }
  }
}
