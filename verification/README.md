# Products and accounts REST API: a Dafny model

This project models the core of a small Laravel 12 REST API with a React front
end. The API has two controllers:

- `ProductController` lists, creates, shows, updates and deletes products.
- `UserController` registers users and logs them in.

Two pages consume these endpoints:

- `RegisterForm` is the registration page.
- `ProductList` is the product list page with its filters and pager.

Everything is modelled with immutable datatypes and pure functions. A database
table is a map from auto-increment id to row, plus the next id. A request
parameter is `Absent`, `Null` or `Str(text)`.

The framework does some work on every request before a controller sees it:

- The default global middleware trims strings, except the two password fields, and turns empty strings into null. This is `Request.Normalize`.
- The validator's rules are modelled as lists of failed rules per field. The 422 body is `Validation.ReportAll`.

The password-hashing primitive and the e-mail format test are parameters:

- `Accounts.Hasher` holds `make` and `check` for hashing.
- `isEmail` is the e-mail format test.
- The hashing primitive's randomness is a `salt` argument.
- The one property the application relies on, `check(p, make(p, salt))`, is `Accounts.Sound` and appears only as a precondition.

Modules, one per file:

- `Wrappers`: `Option` and `Result`.
- `Text`: digits, the decimal text of numbers, trimming, ASCII lower-casing, substring containment and lexicographic order.
- `Request`: request parameters. This covers the middleware, PHP truthiness, the number a text denotes in a numeric comparison, and PHP's integer validation of the page number.
- `Validation`: the `required` rule, blank by PHP's `trim()`, and the 422 error report.
- `Tables`: a table scan in id order.
- `Products`: the products table and its invariants (rows under their own id, barcodes unique).
- `Listing`: `GET /products`. It covers parsing the parameters and the WHERE clause as the query builder strings it together, evaluated with SQL's precedence. It also covers the ORDER BY, the page slice, and the endpoint.
- `ProductApi`: `POST /products`, `GET`/`PUT`/`DELETE /products/{id}`.
- `Accounts`: the users table, `POST /register` and `POST /login`.
- `RegisterForm`: the page's `validate()`, the request it sends, the 422 mapping, the error display and `handleSubmit`.
- `ProductList`: the filter state, its two handlers, the query string and the pager buttons.
- `EndToEnd`: the two pages against the two controllers.

Where the result depends on the database engine, the model assumes MySQL, since the modelled files configure no connection. It follows MySQL in two respects and simplifies it in others ("## Left out" lists those):

- A text price bound is compared as the number its leading decimal part denotes.
- An ORDER BY on a column the table lacks fails only when the page query runs. `paginate` skips that query when the count is 0.

## Model

| member | source | states |
|---|---|---|
| Listing.SearchTerm | REST-API/app/Http/Controllers/Api/ProductController.php:18-20 | a search clause is added exactly when `search` is PHP-truthy, and it carries the parameter's text |
| Listing.Bound | REST-API/app/Http/Controllers/Api/ProductController.php:22-27 | a price bound exists exactly when its parameter is truthy, and its value is the number the text denotes |
| Listing.SortColumnName | REST-API/app/Http/Controllers/Api/ProductController.php:28 | `sort_by` defaults to `id` only when missing; a sent value passes through unchecked; an empty one gives no column |
| Listing.SortDirection | REST-API/app/Http/Controllers/Api/ProductController.php:28 | `sort_dir` defaults to asc; it is asc or desc exactly when it lower-cases to that word, and any other value is refused |
| Listing.PageSize | REST-API/app/Http/Controllers/Api/ProductController.php:29 | a falsy `per_page` gives the default 15; a positive integer text gives that size; a non-digit text is refused; every size is positive |
| Listing.CurrentPage | REST-API/app/Http/Controllers/Api/ProductController.php:29 | the page is at least 1; a validated integer of at least 1 is taken as is; a text that is not an integer, an integer below 1, a missing and a null page are all page 1 |
| Listing.ParseRequest | REST-API/app/Http/Controllers/Api/ProductController.php:17-29 | the request is accepted iff both the direction and the page size are; a bad direction fails first, then a bad size; an accepted query carries the three `when` clauses, the sort name, direction, size and page read from the trimmed request, with a positive size and a page of at least 1 |
| Listing.AdmitsIsEffective | REST-API/app/Http/Controllers/Api/ProductController.php:18-27 | the ungrouped `where`/`orWhere` chain, evaluated with AND binding tighter than OR, admits a row iff name matches, or description matches within the bounds (without a search: iff within the bounds) |
| Listing.Matching | REST-API/app/Http/Controllers/Api/ProductController.php:17-27 | the filtered rows are exactly the input rows the WHERE clause admits, without duplicates |
| Listing.Sort | REST-API/app/Http/Controllers/Api/ProductController.php:28 | the ordered rows are a permutation of the input, sorted by the column and direction |
| Listing.PageOf | REST-API/app/Http/Controllers/Api/ProductController.php:29 | page `n` holds at most `per_page` rows: the ordered rows from offset `(n-1)*per_page`, empty past the end |
| Listing.LastPage | REST-API/app/Http/Controllers/Api/ProductController.php:29 | with no rows the last page is 1; otherwise it is the least `l` with `total <= l*per_page` |
| Listing.Respond | REST-API/app/Http/Controllers/Api/ProductController.php:28-31 | every returned row is a table row passing the filter; the page echoes size and number; total counts the matches; the request fails iff there are matches and the sort column does not exist |
| Listing.Index | REST-API/app/Http/Controllers/Api/ProductController.php:15-32 | every returned row is a table row passing the request's filter; total counts the matching rows; page and size are the request's; it fails on a bad direction, else on a bad page size, else exactly when rows match and the sort column does not exist; it returns no table, so listing never changes the store |
| Listing.ListedExactly | REST-API/app/Http/Controllers/Api/ProductController.php:18-27 | a product is in the ordered listing iff it is in the table and satisfies name-match OR (description-match AND bounds) |
| Listing.SearchWithoutBounds | REST-API/app/Http/Controllers/Api/ProductController.php:18-21 | with a search and no bounds, a product is listed iff its name or its description contains the term |
| Listing.BoundsWithoutSearch | REST-API/app/Http/Controllers/Api/ProductController.php:22-27 | without a search every listed product lies within the given bounds |
| Listing.NameMatchIgnoresBounds | REST-API/app/Http/Controllers/Api/ProductController.php:18-27 | a product whose name matches is listed even if its price is outside the bounds |
| Listing.DescriptionMatchRespectsBounds | REST-API/app/Http/Controllers/Api/ProductController.php:18-27 | a listed product whose name does not match has a matching description and a price within the bounds |
| Listing.FalsyParametersIgnored | REST-API/app/Http/Controllers/Api/ProductController.php:18-27 | a missing, null, empty or "0" search, min_price or max_price adds no clause |
| Listing.ZeroIsNoBound | REST-API/app/Http/Controllers/Api/ProductController.php:25-27 | `max_price=0` bounds nothing |
| Listing.ZeroPointZeroBounds | REST-API/app/Http/Controllers/Api/ProductController.php:22-27 | "0.0" is truthy and does bound the price, at 0 |
| Listing.RespondIsPageOfListing | REST-API/app/Http/Controllers/Api/ProductController.php:28-29 | the items are exactly the requested page of the filtered rows in ORDER BY order, and are sorted |
| Listing.PagesDisjoint | REST-API/app/Http/Controllers/Api/ProductController.php:29 | two different pages of one duplicate-free ordering share no row |
| Listing.SortedUnique | REST-API/app/Http/Controllers/Api/ProductController.php:28 | when no two rows share a sort key, two sorted arrangements of the same rows are identical |
| Listing.ListedIsTheOrder | REST-API/app/Http/Controllers/Api/ProductController.php:28 | without ties, every order the ORDER BY permits for the selection is the model's listing |
| Listing.AnyOrderPagesDisjoint | REST-API/app/Http/Controllers/Api/ProductController.php:28-29 | without ties, two different pages share no row even if each query picks its own permitted order |
| Listing.IdOrderTieFree | REST-API/app/Http/Controllers/Api/ProductController.php:28 | ordering by id never ties, in any well-keyed table |
| Listing.IndexPagesDisjoint | REST-API/app/Http/Controllers/Api/ProductController.php:28-29 | when the sort key has no ties, two requests differing only in `page` that land on different pages never show the same product |
| ProductApi.CreateErrorsExactly | REST-API/app/Http/Controllers/Api/ProductController.php:39-44 | the create rules report an error iff name is blank or over 255, description is blank, price is not a number of at least 0, or the barcode is over 13 or already on a row |
| ProductApi.Store | REST-API/app/Http/Controllers/Api/ProductController.php:37-49 | a refused create answers 422 with a non-empty report and leaves the table unchanged; otherwise exactly one row is written under the next id, carrying the sent fields and a price of at least 0, and a non-blank barcode it stores is on no other row |
| ProductApi.Show | REST-API/app/Http/Controllers/Api/ProductController.php:54-57 | an existing id answers its row, any other id 404 |
| ProductApi.ShowAfterStore | REST-API/app/Http/Controllers/Api/ProductController.php:46-57 | after a create, showing the new id answers the created row and every other id answers as before |
| ProductApi.ShowAfterUpdate | REST-API/app/Http/Controllers/Api/ProductController.php:71-73 | after an update, showing the id answers the updated row and every other id answers as before |
| ProductApi.UpdateErrorsExactly | REST-API/app/Http/Controllers/Api/ProductController.php:64-69 | the update rules report an error iff a sent name is null or over 255, a sent description or price is null, a sent price is not a number of at least 0, or the barcode is over 13 or on another row |
| ProductApi.Update | REST-API/app/Http/Controllers/Api/ProductController.php:62-74 | an unknown id is 404 and a refused update 422, both leaving the table unchanged; otherwise only the sent fields of that row change, and the id and the next id stay |
| ProductApi.Destroy | REST-API/app/Http/Controllers/Api/ProductController.php:79-84 | deleting an existing id removes exactly that row and leaves every other row as it was; an unknown id is 404 and changes nothing |
| ProductApi.StorePreservesValid | REST-API/app/Http/Controllers/Api/ProductController.php:43-46 | a create keeps non-blank barcodes unique and rows under their ids, adding one row under an id no row had |
| ProductApi.BlankBarcodeAccepted | REST-API/app/Http/Controllers/Api/ProductController.php:43 | a blank barcode passes the barcode rules, so a create is refused exactly when name, description or price fail |
| ProductApi.BlankBarcodeStored | REST-API/app/Http/Controllers/Api/ProductController.php:43-46 | a blank barcode (NUL alone survives the middleware) is stored as sent, even if another row already holds it |
| ProductApi.UpdatePreservesValid | REST-API/app/Http/Controllers/Api/ProductController.php:68-71 | an update keeps non-blank barcodes unique and the set of ids unchanged |
| ProductApi.DestroyPreservesValid | REST-API/app/Http/Controllers/Api/ProductController.php:79-83 | a delete keeps the invariants; repeating it answers 404 and changes nothing |
| ProductApi.KeepOwnBarcode | REST-API/app/Http/Controllers/Api/ProductController.php:68 | resending a row's own barcode passes the `unique` rule, which ignores the row itself, and leaves the row as it was |
| ProductApi.StoreRefusesTakenBarcode | REST-API/app/Http/Controllers/Api/ProductController.php:43 | creating a product with a non-blank barcode another row holds is refused; the `barcode` entry is `unique`, or only the length when the barcode is also over 13, since `unique` is skipped after a failed rule |
| Accounts.RegisterErrorsExactly | REST-API/app/Http/Controllers/Api/UserController.php:17-25 | the register rules report an error iff name is blank, over 255 or taken; email is blank, malformed or taken; or the password is blank, under 6 characters or not equal to its confirmation |
| Accounts.NulNameRequired | REST-API/app/Http/Controllers/Api/UserController.php:18 | a name of NUL alone passes the middleware but is refused, with exactly `required` under `name` |
| Accounts.FormFeedPasswordPasses | REST-API/app/Http/Controllers/Api/UserController.php:20 | six form feeds as password and confirmation pass every password rule |
| Validation.NulIsBlank | REST-API/app/Http/Controllers/Api/UserController.php:18 | NUL alone survives the trimming middleware yet fails `required` |
| Validation.FormFeedsFilled | REST-API/app/Http/Controllers/Api/UserController.php:20 | six form feeds pass `required` and the untrimmed path, though trimming would turn them into null |
| Accounts.ConfirmedOnMismatch | REST-API/app/Http/Controllers/Api/UserController.php:20 | `confirmed` fails exactly on a filled password whose confirmation is not the same string |
| Accounts.Register | REST-API/app/Http/Controllers/Api/UserController.php:17-31 | a refused registration answers 422, naming only name, email or password, and stores nothing; otherwise one user is written under the next id with the sent name and email and `make(password)` as its password |
| Accounts.ConfirmationNeverKeyed | REST-API/app/Http/Controllers/Api/UserController.php:17-24 | the 422 body never has a `password_confirmation` entry |
| Accounts.RegisterPreservesValid | REST-API/app/Http/Controllers/Api/UserController.php:18-31 | a registration keeps names and emails unique and adds exactly one user, under a fresh id |
| Accounts.TakenNameReported | REST-API/app/Http/Controllers/Api/UserController.php:18 | a name already stored is refused under `name`: as `unique` within 255 characters, and only as too long beyond, since `unique` is skipped after a failed rule |
| Accounts.DuplicateNameRefused | REST-API/app/Http/Controllers/Api/UserController.php:18-31 | registering the same name twice refuses the second on `name` and leaves exactly the first user stored |
| Accounts.FirstNamed | REST-API/app/Http/Controllers/Api/UserController.php:47 | the lookup finds nothing iff no user has the name; otherwise it finds a user with that name |
| Accounts.FindByName | REST-API/app/Http/Controllers/Api/UserController.php:47 | a found user is a stored user with that name; a stored name is always found; a null name matches nobody |
| Accounts.Login | REST-API/app/Http/Controllers/Api/UserController.php:43-59 | success only for a non-null password and a stored user with that name whose hash accepts it; with unique names every such user logs in; a missing name, or a missing password once a user is found, is a server error; a null password that passes the check gets an empty reply, because the guard refuses it; an unknown name is 401 |
| Accounts.LoggedInIsNamed | REST-API/app/Http/Controllers/Api/UserController.php:47-57 | with unique names the logged-in user is the one stored under that name |
| Accounts.SameRefusal | REST-API/app/Http/Controllers/Api/UserController.php:47-51 | an unknown name and a wrong password for a known name get the identical reply, 401 `Invalid credentials` |
| Accounts.RegisterThenLogin | REST-API/app/Http/Controllers/Api/UserController.php:27-57 | if a hash accepts its own password, a user who just registered logs in with the same name and password, as that user |
| RegisterForm.ClientErrors | frontend/src/pages/RegisterForm.jsx:25-33 | an empty username, email or password each has its own "… is required"; an empty confirmation has "Password confirmation is required"; a filled confirmation differing from a filled password has "Passwords do not match"; nothing else is reported |
| RegisterForm.Validate | frontend/src/pages/RegisterForm.jsx:34-35 | `validate()` passes iff all four inputs are filled and the passwords are equal |
| RegisterForm.UnreportedMismatch | frontend/src/pages/RegisterForm.jsx:31 | a filled, differing confirmation goes unreported exactly when the password is empty |
| RegisterForm.Submit | frontend/src/pages/RegisterForm.jsx:45-63 | the register request is sent iff `validate()` passed, and then carries equal password and confirmation |
| RegisterForm.MapServerErrors | frontend/src/pages/RegisterForm.jsx:76-84 | a 422 body maps field for field: name to username, email, password, password_confirmation to the confirmation input, and nothing else |
| RegisterForm.ClientEntries | frontend/src/pages/RegisterForm.jsx:26-34 | the error state after `validate()` has exactly the inputs with a message, each holding that message |
| RegisterForm.ShownAsWritten | frontend/src/pages/RegisterForm.jsx:128 | indexing an entry shows the first character of a non-empty message text, the first message of a non-empty list, and nothing for no entry |
| RegisterForm.Shown | frontend/src/pages/RegisterForm.jsx:128 | corrected: a message text is shown whole and a list shows its first message |
| RegisterForm.MissingUsernameShowsOneLetter | frontend/src/pages/RegisterForm.jsx:128 | as written, an empty username is displayed as "U", not as its message |
| RegisterForm.ClientMessagesTruncated | frontend/src/pages/RegisterForm.jsx:128-191 | as written, no message the page sets itself is displayed whole |
| RegisterForm.DisplayedIsClientMessage | frontend/src/pages/RegisterForm.jsx:128-191 | corrected: every input displays exactly its own message, and nothing when it has none |
| RegisterForm.ServerListsUnchanged | frontend/src/pages/RegisterForm.jsx:76-84 | for a mapped 422 body the corrected display equals the display as written |
| RegisterForm.HandleSubmit | frontend/src/pages/RegisterForm.jsx:45-93 | nothing is sent unless the form validates; the page redirects iff the form validates and both register and login succeed; a confirmation error is shown only if a response named `password_confirmation` |
| ProductList.ChangeFilter | frontend/src/pages/ProductList.jsx:58-60 | a filter change sets the changed entry, resets the page to 1 and leaves every other entry as it was |
| ProductList.ChangePage | frontend/src/pages/ProductList.jsx:62-64 | a page change sets the page and nothing else |
| ProductList.ChangesStayReachable | frontend/src/pages/ProductList.jsx:100-116 | both handlers keep sort_by among id/name/price, sort_dir among asc/desc, and the page size at 10 |
| ProductList.PageTextResolves | frontend/src/pages/ProductList.jsx:42-44 | the page the client holds is read by the server as itself when at least 1, and as page 1 when below 1 or NaN |
| ProductList.NaNPageResolves | frontend/src/pages/ProductList.jsx:140 | the NaN page that Previous produces before the first answer is read by the server as page 1 |
| EndToEnd.ReachableParses | frontend/src/pages/ProductList.jsx:42-44 | any state the page can reach parses to its sort column, its direction, 10 per page and its page |
| EndToEnd.InitialQuery | frontend/src/pages/ProductList.jsx:9-17 | the first request parses to no filter, `id` ascending, 10 per page, page 1 |
| EndToEnd.ReachableNeverFails | frontend/src/pages/ProductList.jsx:100-116 | no request the page can send makes the listing fail |
| EndToEnd.FilterChangeShowsFirstPage | frontend/src/pages/ProductList.jsx:58-60 | after any filter change the server answers with page 1 |
| EndToEnd.PageChangeShowsPage | frontend/src/pages/ProductList.jsx:62-64 | after a page change the server answers with that page, or page 1 for NaN and numbers below 1 |
| EndToEnd.NextDisabledAtEndOf | frontend/src/pages/ProductList.jsx:149-151 | Next is disabled iff `current_page * per_page >= total` |
| EndToEnd.NextDisabledAtEnd | frontend/src/pages/ProductList.jsx:149-151 | on every answer of the listing, Next is disabled iff the pages so far cover all matches |
| EndToEnd.PrevDisabledOnFirst | frontend/src/pages/ProductList.jsx:139-141 | on every answer of the listing, Previous is disabled iff the page is 1 |
| EndToEnd.UnknownPagerFallsBack | frontend/src/pages/ProductList.jsx:138-151 | before the first answer both buttons are enabled, and either one leads to page 1 |
| EndToEnd.CompleteFormIsConfirmed | frontend/src/pages/RegisterForm.jsx:31-33 | a form that passed `validate()` never fails the server's `confirmed` rule |
| EndToEnd.ServerErrorsSkipConfirmation | frontend/src/pages/RegisterForm.jsx:76-84 | the server's 422 never lands on the confirmation input |
| EndToEnd.AcceptedFormRedirects | frontend/src/pages/RegisterForm.jsx:58-74 | a complete form whose registration is accepted logs in with the same name and password and redirects |
| EndToEnd.RejectedFormShowsErrors | frontend/src/pages/RegisterForm.jsx:76-84 | a refused registration shows at least one server error under the inputs, never under the confirmation |

## Behaviour of the code the model keeps

- Unknown sort column. `sort_by` goes to `orderBy` unchecked. An unknown column is a database error, raised only when the ordered query runs, so never when nothing matches. The model's `UnknownColumn` does exactly this.
- Sort ties. `orderBy` is the only ORDER BY and there is no tie-break. Rows with equal keys may come back in any order, and in a different order for each page query. The model lists ties in table order, and states page disjointness only for keys without ties (`Listing.IndexPagesDisjoint`, `Listing.AnyOrderPagesDisjoint`).
- Blank values. `required`, and the rule that skips a field's other rules when it is blank, test `trim($value) === ''` with PHP's default `trim()` class (space, tab, newline, carriage return, NUL, vertical tab). The middleware strips a different class, which has form feed but not NUL. So a name of NUL alone reaches the validator and fails `required`, and a password of form feeds passes it (`Accounts.NulNameRequired`, `Accounts.FormFeedPasswordPasses`). A blank barcode skips `unique` and is stored as sent, so several rows may hold the same blank barcode; the table invariant covers non-blank barcodes only (`ProductApi.BlankBarcodeStored`).
- Search case. `like` compares by the column collation. The model compares exactly (see "## Left out").
- Login refusals. An unknown name and a wrong password get the same 401 body (`Accounts.SameRefusal`). The hash check runs only when a user was found, so the two cases need not take the same time; the model says nothing about timing.

## Findings

| source | as written | input that shows it | evidently intended | confidence | as-written member | corrected member |
|---|---|---|---|---|---|---|
| frontend/src/pages/RegisterForm.jsx:128 | `{errors.username[0]}` indexes the error entry. The 422 path stores arrays, but `validate()` stores plain strings, so index 0 is the first character. The same holds at lines 149, 170 and 191. | Submit with an empty username: the entry is "Username is required" and the page shows "U". | Show the whole message for a string and the first message for an array. | high, not executed | RegisterForm.MissingUsernameShowsOneLetter | RegisterForm.DisplayedIsClientMessage |

The as-written display is `RegisterForm.ShownAsWritten`. `RegisterForm.ClientMessagesTruncated` shows that every client message is cut to one character. The corrected display is `RegisterForm.Shown`, which `RegisterForm.Displayed` uses. `RegisterForm.ServerListsUnchanged` shows the correction changes nothing for server errors.

A related observation, not a defect of the display: the server reports a confirmation mismatch under `password` and never sends a `password_confirmation` key. The page's mapping to the confirmation input is therefore never used (`EndToEnd.ServerErrorsSkipConfirmation`).

## Left out

- Session and token plumbing is not modelled: the session the guard starts, the `remember` flag, `logout`, session invalidation, CSRF cookies and Sanctum's `createToken`.
- Accounts.Login: the guard's `attempt` repeats the name lookup and the hash check. It also refuses a null password, which the model keeps as `NoResponse`. Anything else that could make `attempt` fail after the controller's own check passed is not modelled; the model then logs the user in.
- Accounts.Hasher: real hashing, salting and constant-time comparison are a parameter. Only `check(p, make(p, salt))` is assumed, and only where a lemma says so.
- The e-mail format rule is a parameter (`isEmail`). The framework's RFC validator is not modelled.
- Listing.Holds: `LIKE` is modelled as exact substring containment. It does not model `%` and `_` in the search term acting as wildcards, or the collation's case-insensitivity.
- Accounts.NameTaken: `unique` and the login lookup compare strings exactly. A case-insensitive, trailing-space-insensitive collation would make more names collide. ProductApi's barcode check is treated the same way.
- Listing.PageSize: any `per_page` that is not a positive decimal integer is treated as a failure. PHP reads some of them differently: "2.5" as size 2, and a negative size drops the LIMIT. The page only ever sends 10.
- Listing.CurrentPage: PHP's integer range (`PHP_INT_MAX`) is not modelled; integers are unbounded.
- Request.IsNumeric: exponent notation ("1e3") is not accepted. Laravel's `numeric` rule accepts it.
- Listing.Bound: a price bound is the value of the text's leading decimal part, so "1e3" bounds at 1, where MySQL converts it to 1000. The page's number inputs can send such text.
- Listing.Sort: text columns (name, description, barcode) are ordered by code point. MySQL orders them by the column collation, which by default ignores case, so "apple" and "Banana" come out in the other order.
- Listing.Sort: rows with equal sort keys are listed in table order. The database may order them differently in each page query, so with ties (sorting by price, say) two pages may overlap or skip a row. Page disjointness is proved only for keys without ties.
- Listing.Respond: a sort column is recognised only by its exact lower-case name. MySQL also resolves "Price" and "products.price", which the model reports as unknown columns.
- The database engine is assumed to be MySQL: the numeric reading of a price bound, the failure on an unknown ORDER BY column and the notes on collation below follow it. No connection is configured in the modelled files, and another engine (SQLite is the framework's default) compares text with numbers and reports unknown columns differently.
- ProductApi.Update: a sent price that is blank by `trim()` (NUL alone) skips `numeric|min:0` and is stored as 0, the value such text denotes. MySQL in strict mode refuses to write that text to a decimal column; the model does not.
- Prices are exact reals. The database column's decimal scale, and any rounding when storing, are not modelled.
- Text.IsSpace: the trimming middleware also strips Unicode spaces and zero-width characters; the model strips only the ASCII whitespace class.
- Request values are text or null, as the pages send them. JSON numbers, booleans and arrays in a request body are not modelled.
- Timestamps (`created_at`, `updated_at`) are not modelled, including as sort columns.
- The paginator's JSON is reduced to items, total, page size, current page and last page. Links and the from/to counters are left out.
- On the pages, the React rendering, the `loading` flag, the `checkAuth` redirect and failed fetches are left out. A failed fetch keeps the previous pagination.
- Not modelled: ProductDashboard.jsx, LoginForm.jsx, Navbar.jsx, App.jsx, Footer.jsx, the product factory and the web routes. They are form and network glue, test data or routing.
- Concurrency is left out. Two simultaneous registrations can both pass `unique` before either row is written; the model runs requests one at a time.
