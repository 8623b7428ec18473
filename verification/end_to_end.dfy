/**
  The two pages against the two controllers: what the server makes of the
  requests the pages can send, and what the pages make of the answers.
 */
module EndToEnd {
  import opened Wrappers
  import opened Text
  import opened Request
  import opened Validation
  import Listing
  import ProductList
  import RegisterForm
  import Accounts
  import Products

  // ------------------------------------------------------------ product list

  /** "id", "name" and "price" are kept by the middleware and name columns of the table. */
  lemma SortOptionParses(o: ProductList.SortOption)
    ensures Normalize(Str(ProductList.SortValue(o)), true) == Str(ProductList.SortValue(o))
    ensures Listing.ColumnOf(Some(ProductList.SortValue(o))).Some?
  {
    var s := ProductList.SortValue(o);
    assert s[0] != ' ' && s[|s| - 1] != ' ';
    NormalizeKeeps(s, true);
  }

  lemma AscParses()
    ensures Listing.SortDirection(Normalize(Str("asc"), true)) == Some(Listing.Asc)
  {
    NormalizeKeeps("asc", true);
    AscIsLower();
  }

  lemma AscIsLower()
    ensures Lower("asc") == "asc"
  {
    var l := Lower("asc");
    assert l[0] == 'a' && l[1] == 's' && l[2] == 'c';
  }

  lemma DescParses()
    ensures Listing.SortDirection(Normalize(Str("desc"), true)) == Some(Listing.Desc)
  {
    NormalizeKeeps("desc", true);
    DescIsLower();
  }

  lemma DescIsLower()
    ensures Lower("desc") == "desc"
  {
    var l := Lower("desc");
    assert l[0] == 'd' && l[1] == 'e' && l[2] == 's' && l[3] == 'c';
  }

  /** A positive page size sent as its decimal text is read back unchanged. */
  lemma PerPageParses(n: nat)
    requires n > 0
    ensures Listing.PageSize(Normalize(Str(NatText(n)), true)) == Some(n)
  {
    TrimDigits(NatText(n));
    NatTextRoundTrip(n);
    assert NatText(n) != "0" by {
      assert NatText(n)[0] != '0';
    }
  }

  /** The direction a reachable state sends. */
  function DirectionOf(f: ProductList.Filters): Listing.Direction {
    if f.sortDir == "desc" then Listing.Desc else Listing.Asc
  }

  lemma ReachableDirection(f: ProductList.Filters)
    requires ProductList.Reachable(f)
    ensures Listing.SortDirection(Normalize(Str(f.sortDir), true)) == Some(DirectionOf(f))
  {
    if f.sortDir == "asc" { AscParses(); } else { DescParses(); }
  }

  lemma ReachableColumn(f: ProductList.Filters)
    requires ProductList.Reachable(f)
    ensures Normalize(Str(f.sortBy), true) == Str(f.sortBy)
    ensures Listing.ColumnOf(Some(f.sortBy)).Some?
  {
    var o := if f.sortBy == "id" then ProductList.SortById
      else if f.sortBy == "name" then ProductList.SortByName else ProductList.SortByPrice;
    SortOptionParses(o);
  }

  /** The query the server builds from a reachable state of the page. */
  lemma ReachableParses(f: ProductList.Filters)
    requires ProductList.Reachable(f)
    ensures var raw := ProductList.ToRequest(f);
      var req := Listing.NormalizeRequest(raw);
      Listing.ParseRequest(raw) == Ok(Listing.ListQuery(
        Listing.Filter(Listing.SearchTerm(req.search), Listing.Bound(req.minPrice), Listing.Bound(req.maxPrice)),
        Some(f.sortBy), DirectionOf(f), 10,
        if f.page.Num? && f.page.n >= 1 then f.page.n else 1))
  {
    ReachableDirection(f);
    ReachableColumn(f);
    PerPageParses(10);
    ProductList.PageTextResolves(f.page);
  }

  /** The first request of the page: no filter, ordered by id ascending, 10 per page, page 1. */
  lemma InitialQuery()
    ensures Listing.ParseRequest(ProductList.ToRequest(ProductList.Initial)) ==
      Ok(Listing.ListQuery(Listing.Filter(None, None, None), Some("id"), Listing.Asc, 10, 1))
  {
    ReachableParses(ProductList.Initial);
    assert Normalize(Str(""), true) == Null;
  }

  /** Nothing the page can send makes the listing fail: the selects only offer valid values. */
  lemma ReachableNeverFails(t: Products.ProductTable, f: ProductList.Filters)
    requires ProductList.Reachable(f)
    ensures Listing.Index(t, ProductList.ToRequest(f)).Ok?
  {
    ReachableParses(f);
    ReachableColumn(f);
  }

  /** After any filter change the server is asked for, and answers with, page 1. */
  lemma FilterChangeShowsFirstPage(t: Products.ProductTable, f: ProductList.Filters, c: ProductList.Change)
    requires ProductList.Reachable(f)
    ensures var g := ProductList.ChangeFilter(f, c);
      Listing.Index(t, ProductList.ToRequest(g)).Ok? &&
      Listing.Index(t, ProductList.ToRequest(g)).value.currentPage == 1
  {
    var g := ProductList.ChangeFilter(f, c);
    ProductList.ChangesStayReachable(f, c, g.page);
    ReachableParses(g);
    ReachableNeverFails(t, g);
  }

  /** A page change asks for exactly that page; NaN and numbers below 1 come back as page 1. */
  lemma PageChangeShowsPage(t: Products.ProductTable, f: ProductList.Filters, p: ProductList.PageNumber)
    requires ProductList.Reachable(f)
    ensures var g := ProductList.ChangePage(f, p);
      Listing.Index(t, ProductList.ToRequest(g)).Ok? &&
      Listing.Index(t, ProductList.ToRequest(g)).value.currentPage == if p.Num? && p.n >= 1 then p.n else 1
  {
    var g := ProductList.ChangePage(f, p);
    ProductList.ChangesStayReachable(f, ProductList.Search(f.search), p);
    ReachableParses(g);
    ReachableNeverFails(t, g);
  }

  /** On a page whose last page is the rounded-up page count, Next is disabled exactly at the end. */
  lemma NextDisabledAtEndOf(page: Listing.Page)
    requires page.perPage > 0 && page.currentPage >= 1
    requires page.lastPage == Listing.LastPage(page.total, page.perPage)
    ensures ProductList.NextDisabled(ProductList.FromPage(page)) <==>
      page.currentPage * page.perPage >= page.total
  {
    var l := page.lastPage;
    var n := page.currentPage;
    var k := page.perPage;
    if page.total > 0 {
      if n >= l {
        Listing.MulMonotone(l, n, k);
      } else {
        Listing.MulMonotone(n, l - 1, k);
      }
    }
  }

  /** Next is disabled exactly when the rows before and on this page cover the whole listing. */
  lemma NextDisabledAtEnd(t: Products.ProductTable, q: Listing.ListQuery, page: Listing.Page)
    requires q.perPage > 0 && q.page >= 1
    requires Listing.Respond(t, q) == Ok(page)
    ensures ProductList.NextDisabled(ProductList.FromPage(page)) <==>
      page.currentPage * page.perPage >= page.total
  {
    NextDisabledAtEndOf(page);
  }

  /** Previous is disabled exactly on page 1. */
  lemma PrevDisabledOnFirst(t: Products.ProductTable, q: Listing.ListQuery, page: Listing.Page)
    requires q.perPage > 0 && q.page >= 1
    requires Listing.Respond(t, q) == Ok(page)
    ensures ProductList.PrevDisabled(ProductList.FromPage(page)) <==> page.currentPage == 1
  {
  }

  /** Before the first answer both buttons are enabled, and either one leads back to page 1. */
  lemma UnknownPagerFallsBack(t: Products.ProductTable, f: ProductList.Filters)
    requires ProductList.Reachable(f)
    ensures !ProductList.PrevDisabled(ProductList.Unknown) && !ProductList.NextDisabled(ProductList.Unknown)
    ensures var g := ProductList.ChangePage(f, ProductList.PrevTarget(ProductList.Unknown));
      Listing.Index(t, ProductList.ToRequest(g)).Ok? &&
      Listing.Index(t, ProductList.ToRequest(g)).value.currentPage == 1
    ensures var g := ProductList.ChangePage(f, ProductList.NextTarget(ProductList.Unknown));
      Listing.Index(t, ProductList.ToRequest(g)).Ok? &&
      Listing.Index(t, ProductList.ToRequest(g)).value.currentPage == 1
  {
    PageChangeShowsPage(t, f, ProductList.NaN);
  }

  // ---------------------------------------------------------- registration

  /** The 422 body: each failed rule rendered as its message. */
  function Body(errors: Errors, render: Rule -> string): (b: map<string, seq<string>>)
    ensures b.Keys == errors.Keys
    ensures forall f :: f in b ==> |b[f]| == |errors[f]|
  {
    map f | f in errors :: seq(|errors[f]|, i requires 0 <= i < |errors[f]| => render(errors[f][i]))
  }

  /** What the page receives from `POST /register`. */
  function RegisterResponse(reply: Accounts.RegisterReply, render: Rule -> string): (r: RegisterForm.Response)
    ensures RegisterForm.Succeeded(r) <==> reply.Registered?
    ensures r.status == 422 <==> reply.Rejected?
  {
    match reply
    case Registered(_) => RegisterForm.Response(201, map[])
    case Rejected(errors) => RegisterForm.Response(422, Body(errors, render))
  }

  /** What the page receives from `POST /login`; an empty 200 counts as success there. */
  function LoginResponse(reply: Accounts.LoginReply): (r: RegisterForm.Response)
    ensures RegisterForm.Succeeded(r) <==> reply.LoggedIn? || reply.NoResponse?
    ensures r.status != 422
  {
    RegisterForm.Response(Accounts.LoginStatus(reply), map[])
  }

  /** A form that passed `validate()` never fails the server's `confirmed` rule. */
  lemma CompleteFormIsConfirmed(t: Accounts.UserTable, isEmail: string -> bool, f: RegisterForm.FormData)
    requires RegisterForm.Complete(f)
    ensures Confirmed !in Accounts.RegisterFailures(t, isEmail, Accounts.NormalizeRegister(RegisterForm.Payload(f)))[2]
  {
    var req := Accounts.NormalizeRegister(RegisterForm.Payload(f));
    assert req.confirmation == req.password;
    Accounts.ConfirmedOnMismatch(t, isEmail, req);
  }

  /** The server's 422 never lands on the confirmation input. */
  lemma ServerErrorsSkipConfirmation(t: Accounts.UserTable, h: Accounts.Hasher, isEmail: string -> bool, salt: nat,
                                     f: RegisterForm.FormData, render: Rule -> string)
    ensures var r := Accounts.Register(t, h, isEmail, salt, RegisterForm.Payload(f));
      r.reply.Rejected? ==>
        RegisterForm.ConfirmPassword !in RegisterForm.MapServerErrors(Body(r.reply.errors, render))
  {
    Accounts.ConfirmationNeverKeyed(t, h, isEmail, salt, RegisterForm.Payload(f));
  }

  /**
    A complete form whose registration is accepted is logged in with the same
    name and password, and the page redirects.
   */
  lemma AcceptedFormRedirects(t: Accounts.UserTable, h: Accounts.Hasher, isEmail: string -> bool, salt: nat,
                              f: RegisterForm.FormData, render: Rule -> string)
    requires Accounts.Valid(t) && Accounts.Sound(h)
    requires RegisterForm.Complete(f)
    requires Accounts.Register(t, h, isEmail, salt, RegisterForm.Payload(f)).reply.Registered?
    ensures var r := Accounts.Register(t, h, isEmail, salt, RegisterForm.Payload(f));
      var login := Accounts.Login(r.table, h, Accounts.LoginRequest(Str(f.username), Str(f.password)));
      && login == Accounts.LoggedIn(r.reply.user)
      && RegisterForm.HandleSubmit(f, RegisterResponse(r.reply, render), LoginResponse(login)) == RegisterForm.Redirected
  {
    Accounts.RegisterThenLogin(t, h, isEmail, salt, RegisterForm.Payload(f));
  }

  /** A non-empty registration error report lands on at least one input, never on the confirmation. */
  lemma MappedRegisterErrors(errors: Errors, render: Rule -> string)
    requires errors != map[]
    requires forall f :: f in errors ==> f in Accounts.RegisterFields
    ensures var e := RegisterForm.MapServerErrors(Body(errors, render));
      e.Keys != {} && RegisterForm.ConfirmPassword !in e
  {
    var body := Body(errors, render);
    var k :| k in errors;
    assert k in Accounts.RegisterFields;
    var e := RegisterForm.MapServerErrors(body);
    if k == "name" {
      assert RegisterForm.Username in e;
    } else if k == "email" {
      assert RegisterForm.EmailField in e;
    } else {
      assert RegisterForm.Password in e;
    }
    assert "password_confirmation" !in errors by {
      assert "password_confirmation" !in Accounts.RegisterFields;
    }
  }

  /** A rejected registration shows the server's messages under the inputs, never a redirect. */
  lemma RejectedFormShowsErrors(t: Accounts.UserTable, h: Accounts.Hasher, isEmail: string -> bool, salt: nat,
                                f: RegisterForm.FormData, render: Rule -> string, login: RegisterForm.Response)
    requires RegisterForm.Complete(f)
    requires Accounts.Register(t, h, isEmail, salt, RegisterForm.Payload(f)).reply.Rejected?
    ensures var r := Accounts.Register(t, h, isEmail, salt, RegisterForm.Payload(f));
      var out := RegisterForm.HandleSubmit(f, RegisterResponse(r.reply, render), login);
      && out.FieldErrors?
      && out.errors.Keys != {}
      && RegisterForm.ConfirmPassword !in out.errors
  {
    var r := Accounts.Register(t, h, isEmail, salt, RegisterForm.Payload(f));
    MappedRegisterErrors(r.reply.errors, render);
  }
}
