/**
  POST /register and POST /login (UserController::register, login): the users
  table, registration's validation and hashed storage, and the login decision.
 */
module Accounts {
  import opened Wrappers
  import opened Text
  import opened Request
  import opened Validation
  import Tables

  /** One row of `users`; `password` holds the stored hash. */
  datatype User = User(id: nat, name: string, email: string, password: string)

  datatype UserTable = UserTable(rows: map<nat, User>, nextId: nat)

  /**
    The password-hashing primitive: `make` hashes a password under a salt (the
    salt stands for the primitive's randomness), `check` tests a password against
    a stored hash.
   */
  datatype Hasher = Hasher(make: (string, nat) -> string, check: (string, string) -> bool)

  /** What the application relies on from the primitive: a hash accepts its own password. */
  ghost predicate Sound(h: Hasher) {
    forall p: string, salt: nat :: h.check(p, h.make(p, salt))
  }

  predicate WellKeyed(t: UserTable) {
    forall k :: k in t.rows ==> t.rows[k].id == k && k < t.nextId
  }

  predicate NamesUnique(rows: map<nat, User>) {
    forall i, j :: i in rows && j in rows && i != j ==> rows[i].name != rows[j].name
  }

  predicate EmailsUnique(rows: map<nat, User>) {
    forall i, j :: i in rows && j in rows && i != j ==> rows[i].email != rows[j].email
  }

  predicate Valid(t: UserTable) {
    WellKeyed(t) && NamesUnique(t.rows) && EmailsUnique(t.rows)
  }

  /** The query behind `unique:users,name`. */
  predicate NameTaken(rows: map<nat, User>, name: string) {
    exists k :: k in rows && rows[k].name == name
  }

  /** The query behind `unique:users,email`. */
  predicate EmailTaken(rows: map<nat, User>, email: string) {
    exists k :: k in rows && rows[k].email == email
  }

  const MaxNameLength: nat := 255
  const MinPasswordLength: nat := 6

  // ---------------------------------------------------------------- register

  datatype RegisterRequest = RegisterRequest(name: Input, email: Input, password: Input, confirmation: Input)

  datatype RegisterReply = Registered(user: User) | Rejected(errors: Errors)

  datatype Registration = Registration(table: UserTable, reply: RegisterReply)

  /** The middleware: name and email are trimmed, the two password fields are not. */
  function NormalizeRegister(raw: RegisterRequest): RegisterRequest {
    RegisterRequest(
      Normalize(raw.name, true), Normalize(raw.email, true),
      Normalize(raw.password, false), Normalize(raw.confirmation, false))
  }

  /**
    `string|max:255|unique:users,name` on a filled name. The validator skips a
    `unique` rule once the field has failed an earlier rule, so a name that is both
    too long and taken is reported as too long only.
   */
  function NameRules(rows: map<nat, User>, v: Input): seq<Rule> {
    if !v.Str? then [IsString]
    else if |v.s| > MaxNameLength then [MaxLength(MaxNameLength)]
    else if NameTaken(rows, v.s) then [Unique]
    else []
  }

  /** `email|unique:users,email` on a filled email; the format test is a parameter. */
  function EmailRules(rows: map<nat, User>, isEmail: string -> bool, v: Input): seq<Rule> {
    if !v.Str? || !isEmail(v.s) then [Email]
    else if EmailTaken(rows, v.s) then [Unique]
    else []
  }

  /**
    `min:6|confirmed` on a filled password: the length is counted in characters,
    and `password_confirmation` must be the very same string.
   */
  function PasswordRules(v: Input, confirmation: Input): seq<Rule> {
    if !v.Str? then []
    else
      (if |v.s| < MinPasswordLength then [MinLength(MinPasswordLength)] else [])
      + (if confirmation != v then [Confirmed] else [])
  }

  const RegisterFields: seq<string> := ["name", "email", "password"]

  lemma RegisterFieldsDistinct()
    ensures Tables.Distinct(RegisterFields)
  {
  }

  function RegisterFailures(t: UserTable, isEmail: string -> bool, req: RegisterRequest): seq<seq<Rule>> {
    [ RequiredRules(req.name, NameRules(t.rows, req.name)),
      RequiredRules(req.email, EmailRules(t.rows, isEmail, req.email)),
      RequiredRules(req.password, PasswordRules(req.password, req.confirmation)) ]
  }

  function RegisterErrors(t: UserTable, isEmail: string -> bool, req: RegisterRequest): Errors {
    ReportAll(RegisterFields, RegisterFailures(t, isEmail, req))
  }

  /** A registration that breaks one of the limits, stated field by field. */
  predicate RegisterRejected(t: UserTable, isEmail: string -> bool, req: RegisterRequest) {
    || !Filled(req.name) || |req.name.s| > MaxNameLength || NameTaken(t.rows, req.name.s)
    || !Filled(req.email) || !isEmail(req.email.s) || EmailTaken(t.rows, req.email.s)
    || !Filled(req.password) || |req.password.s| < MinPasswordLength || req.confirmation != req.password
  }

  lemma RegisterFieldPasses(t: UserTable, isEmail: string -> bool, req: RegisterRequest)
    ensures RegisterFailures(t, isEmail, req)[0] == [] <==>
      Filled(req.name) && |req.name.s| <= MaxNameLength && !NameTaken(t.rows, req.name.s)
    ensures RegisterFailures(t, isEmail, req)[1] == [] <==>
      Filled(req.email) && isEmail(req.email.s) && !EmailTaken(t.rows, req.email.s)
    ensures RegisterFailures(t, isEmail, req)[2] == [] <==>
      Filled(req.password) && |req.password.s| >= MinPasswordLength && req.confirmation == req.password
  {
  }

  /** Registration fails validation exactly on the requests the limits rule out. */
  lemma RegisterErrorsExactly(t: UserTable, isEmail: string -> bool, req: RegisterRequest)
    ensures RegisterErrors(t, isEmail, req) != map[] <==> RegisterRejected(t, isEmail, req)
  {
    var failed := RegisterFailures(t, isEmail, req);
    ReportEmpty(RegisterFields, failed);
    ThreePassed(failed);
    RegisterFieldPasses(t, isEmail, req);
  }

  /**
    A name of NUL alone survives the trimming middleware but fails `required`, whose
    `trim()` strips NUL: the registration is refused with `required` on `name`.
   */
  lemma NulNameRequired(t: UserTable, isEmail: string -> bool, raw: RegisterRequest)
    requires raw.name == Str("\0")
    ensures RegisterRejected(t, isEmail, NormalizeRegister(raw))
    ensures "name" in RegisterErrors(t, isEmail, NormalizeRegister(raw))
    ensures RegisterErrors(t, isEmail, NormalizeRegister(raw))["name"] == [Required]
  {
    var req := NormalizeRegister(raw);
    NulIsBlank();
    var failed := RegisterFailures(t, isEmail, req);
    assert failed[0] == [Required];
    assert RegisterFields[0] == "name";
    RegisterFieldsDistinct();
    ReportedAs(RegisterFields, failed, 0);
  }

  /**
    Passwords are not trimmed, and `trim()` keeps form feed: six form feeds, confirmed,
    pass every password rule.
   */
  lemma FormFeedPasswordPasses(t: UserTable, isEmail: string -> bool, raw: RegisterRequest)
    requires raw.password == Str("\U{000C}\U{000C}\U{000C}\U{000C}\U{000C}\U{000C}")
    requires raw.confirmation == raw.password
    ensures RegisterFailures(t, isEmail, NormalizeRegister(raw))[2] == []
  {
    FormFeedsFilled();
  }

  /** The `confirmed` rule fails exactly on a filled password whose confirmation differs. */
  lemma ConfirmedOnMismatch(t: UserTable, isEmail: string -> bool, req: RegisterRequest)
    ensures Confirmed in RegisterFailures(t, isEmail, req)[2] <==>
      Filled(req.password) && req.confirmation != req.password
  {
    var rest := PasswordRules(req.password, req.confirmation);
    if Filled(req.password) {
      var a: seq<Rule> := if |req.password.s| < MinPasswordLength then [MinLength(MinPasswordLength)] else [];
      var b: seq<Rule> := if req.confirmation != req.password then [Confirmed] else [];
      assert rest == a + b;
      assert Confirmed !in a;
    }
  }

  /** POST /register: validate, then insert the user with the hash of the password. */
  function Register(t: UserTable, h: Hasher, isEmail: string -> bool, salt: nat, raw: RegisterRequest): (r: Registration)
    ensures r.reply.Rejected? <==> RegisterRejected(t, isEmail, NormalizeRegister(raw))
    ensures r.reply.Rejected? ==>
      && r.table == t
      && r.reply.errors != map[]
      && forall f :: f in r.reply.errors ==> f in RegisterFields
    ensures r.reply.Registered? ==>
      var req := NormalizeRegister(raw);
      var u := r.reply.user;
      && u.id == t.nextId
      && r.table == UserTable(t.rows[u.id := u], t.nextId + 1)
      && u.name == req.name.s && u.email == req.email.s
      && u.password == h.make(req.password.s, salt)
  {
    var req := NormalizeRegister(raw);
    var errors := RegisterErrors(t, isEmail, req);
    RegisterErrorsExactly(t, isEmail, req);
    if errors != map[] then Registration(t, Rejected(errors))
    else
      var u := User(t.nextId, req.name.s, req.email.s, h.make(req.password.s, salt));
      Registration(UserTable(t.rows[t.nextId := u], t.nextId + 1), Registered(u))
  }

  /** The 422 body names only `name`, `email` and `password`, never `password_confirmation`. */
  lemma ConfirmationNeverKeyed(t: UserTable, h: Hasher, isEmail: string -> bool, salt: nat, raw: RegisterRequest)
    ensures var r := Register(t, h, isEmail, salt, raw);
      r.reply.Rejected? ==> "password_confirmation" !in r.reply.errors
  {
    assert RegisterFields[0] != "password_confirmation";
    assert RegisterFields[1] != "password_confirmation";
    assert RegisterFields[2] != "password_confirmation";
  }

  /** Inserting a user whose name and email no row holds keeps both unique. */
  lemma AppendKeepsValid(t: UserTable, u: User)
    requires Valid(t) && u.id == t.nextId
    requires !NameTaken(t.rows, u.name) && !EmailTaken(t.rows, u.email)
    ensures t.nextId !in t.rows
    ensures Valid(UserTable(t.rows[u.id := u], t.nextId + 1))
  {
    var rows := t.rows[u.id := u];
    forall i, j | i in rows && j in rows && i != j
      ensures rows[i].name != rows[j].name && rows[i].email != rows[j].email
    {
      if i == u.id {
        assert !(j in t.rows && t.rows[j].name == u.name);
        assert !(j in t.rows && t.rows[j].email == u.email);
      } else if j == u.id {
        assert !(i in t.rows && t.rows[i].name == u.name);
        assert !(i in t.rows && t.rows[i].email == u.email);
      }
    }
  }

  /** A registration adds exactly one user under a fresh id and keeps names and emails unique. */
  lemma RegisterPreservesValid(t: UserTable, h: Hasher, isEmail: string -> bool, salt: nat, raw: RegisterRequest)
    requires Valid(t)
    ensures Valid(Register(t, h, isEmail, salt, raw).table)
    ensures var r := Register(t, h, isEmail, salt, raw);
      r.reply.Registered? ==>
        && r.reply.user.id !in t.rows
        && |r.table.rows| == |t.rows| + 1
        && forall k :: k in r.table.rows <==> k in t.rows || k == r.reply.user.id
  {
    var r := Register(t, h, isEmail, salt, raw);
    if r.reply.Registered? {
      assert !RegisterRejected(t, isEmail, NormalizeRegister(raw));
      AppendKeepsValid(t, r.reply.user);
    }
  }

  /**
    A name some user already holds is refused. Within the length limit it fails
    `unique` in the `name` entry of the 422 body; beyond it only the length is
    reported, since the validator skips `unique` after a failed rule.
   */
  lemma TakenNameReported(t: UserTable, isEmail: string -> bool, req: RegisterRequest)
    requires Filled(req.name) && NameTaken(t.rows, req.name.s)
    ensures RegisterRejected(t, isEmail, req)
    ensures "name" in RegisterErrors(t, isEmail, req)
    ensures |req.name.s| <= MaxNameLength ==> RegisterErrors(t, isEmail, req)["name"] == [Unique]
    ensures |req.name.s| > MaxNameLength ==> RegisterErrors(t, isEmail, req)["name"] == [MaxLength(MaxNameLength)]
  {
    var failed := RegisterFailures(t, isEmail, req);
    assert failed[0] != [];
    assert RegisterFields[0] == "name";
    RegisterFieldsDistinct();
    ReportedAs(RegisterFields, failed, 0);
  }

  /** Registering a name a second time is refused on `name` and stores nothing. */
  lemma DuplicateNameRefused(t: UserTable, h: Hasher, isEmail: string -> bool, salt1: nat, salt2: nat,
                             first: RegisterRequest, second: RegisterRequest)
    requires Register(t, h, isEmail, salt1, first).reply.Registered?
    requires NormalizeRegister(second).name == NormalizeRegister(first).name
    ensures var once := Register(t, h, isEmail, salt1, first);
      var twice := Register(once.table, h, isEmail, salt2, second);
      && twice.reply.Rejected?
      && "name" in twice.reply.errors
      && Unique in twice.reply.errors["name"]
      && twice.table == once.table
  {
    var once := Register(t, h, isEmail, salt1, first);
    var u := once.reply.user;
    assert !RegisterRejected(t, isEmail, NormalizeRegister(first));
    assert once.table.rows[u.id] == u;
    TakenNameRefused(once.table, h, isEmail, salt2, second);
  }

  /** A registration under a stored name within the length limit is refused with `unique` on `name`. */
  lemma TakenNameRefused(t: UserTable, h: Hasher, isEmail: string -> bool, salt: nat, raw: RegisterRequest)
    requires Filled(NormalizeRegister(raw).name) && |NormalizeRegister(raw).name.s| <= MaxNameLength
    requires NameTaken(t.rows, NormalizeRegister(raw).name.s)
    ensures var r := Register(t, h, isEmail, salt, raw);
      r.reply.Rejected? && "name" in r.reply.errors && r.reply.errors["name"] == [Unique] && r.table == t
  {
    var req := NormalizeRegister(raw);
    TakenNameReported(t, isEmail, req);
  }

  // ------------------------------------------------------------------- login

  datatype LoginRequest = LoginRequest(name: Input, password: Input)

  /**
    `Invalid credentials` (401) for an unknown name and a wrong password alike;
    `ServerError` (500) when a credential the code indexes is missing from the request.
   */
  datatype LoginReply = LoggedIn(user: User) | InvalidCredentials | ServerError | NoResponse

  /** `NoResponse` is the empty 200 the framework sends when the action returns nothing. */
  function LoginStatus(r: LoginReply): nat {
    match r
    case LoggedIn(_) => 200
    case InvalidCredentials => 401
    case ServerError => 500
    case NoResponse => 200
  }

  /** The first user in `users` with the given name, as `first()` returns it. */
  function FirstNamed(users: seq<User>, name: string): (r: Option<User>)
    ensures r.None? <==> forall i :: 0 <= i < |users| ==> users[i].name != name
    ensures r.Some? ==> exists i :: 0 <= i < |users| && users[i] == r.value && r.value.name == name
  {
    if |users| == 0 then None
    else if users[0].name == name then Some(users[0])
    else
      var r := FirstNamed(users[1..], name);
      assert r.Some? ==> exists i :: 0 <= i < |users| && users[i] == r.value by {
        if r.Some? {
          var i :| 0 <= i < |users[1..]| && users[1..][i] == r.value;
          assert users[i + 1] == r.value;
        }
      }
      r
  }

  /** `User::where('name', $name)->first()`; a null name becomes `whereNull` and matches no user. */
  function FindByName(t: UserTable, name: Input): (r: Option<User>)
    requires !name.Absent?
    ensures r.Some? ==> name.Str? && r.value in t.rows.Values && r.value.name == name.s
    ensures WellKeyed(t) && name.Str? && NameTaken(t.rows, name.s) ==> r.Some?
  {
    if name.Null? then None
    else
      var users := Tables.Scan(t.rows, t.nextId);
      var r := FirstNamed(users, name.s);
      assert WellKeyed(t) && NameTaken(t.rows, name.s) ==> r.Some? by {
        if WellKeyed(t) && NameTaken(t.rows, name.s) {
          var k :| k in t.rows && t.rows[k].name == name.s;
          assert t.rows[k] in users;
          var i :| 0 <= i < |users| && users[i] == t.rows[k];
        }
      }
      r
  }

  /** The middleware on a login request: the name is trimmed, the password is not. */
  function NormalizeLogin(raw: LoginRequest): LoginRequest {
    LoginRequest(Normalize(raw.name, true), Normalize(raw.password, false))
  }

  /** The password as `Hash::check` receives it; null reads as the empty string. */
  function Plain(v: Input): string {
    if v.Str? then v.s else ""
  }

  /**
    POST /login. `$credentials['name']` and `['password']` index a missing key
    when the field is absent, which the framework turns into a server error; the
    password is only indexed once a user was found. After a successful check the
    session guard repeats the lookup and the check, except that it refuses a null
    password outright; the action then returns nothing.
   */
  function Login(t: UserTable, h: Hasher, raw: LoginRequest): (r: LoginReply)
    ensures r.LoggedIn? ==>
      var req := NormalizeLogin(raw);
      && req.name.Str? && req.password.Str?
      && r.user in t.rows.Values && r.user.name == req.name.s
      && h.check(req.password.s, r.user.password)
    ensures
      var req := NormalizeLogin(raw);
      Valid(t) && req.name.Str? && req.password.Str? &&
      (exists k :: k in t.rows && t.rows[k].name == req.name.s && h.check(req.password.s, t.rows[k].password))
      ==> r.LoggedIn?
    ensures r.ServerError? <==>
      raw.name.Absent? || (FindByName(t, NormalizeLogin(raw).name).Some? && raw.password.Absent?)
    ensures r.NoResponse? <==>
      && !raw.name.Absent? && NormalizeLogin(raw).password.Null?
      && FindByName(t, NormalizeLogin(raw).name).Some?
      && h.check("", FindByName(t, NormalizeLogin(raw).name).value.password)
    ensures
      var name := NormalizeLogin(raw).name;
      (WellKeyed(t) && !name.Absent? && (name.Null? || !NameTaken(t.rows, name.s))) ==> r == InvalidCredentials
  {
    var req := NormalizeLogin(raw);
    if req.name.Absent? then ServerError
    else
      match FindByName(t, req.name)
      case None => InvalidCredentials
      case Some(u) =>
        if req.password.Absent? then ServerError
        else if !h.check(Plain(req.password), u.password) then InvalidCredentials
        else if req.password.Null? then NoResponse
        else LoggedIn(u)
  }

  /** With unique names, the user `Login` picks is the only one holding the name. */
  lemma LoggedInIsNamed(t: UserTable, h: Hasher, raw: LoginRequest, k: nat)
    requires Valid(t) && k in t.rows
    requires Login(t, h, raw).LoggedIn?
    requires NormalizeLogin(raw).name == Str(t.rows[k].name)
    ensures Login(t, h, raw).user == t.rows[k]
  {
    var u := Login(t, h, raw).user;
    var j :| j in t.rows && t.rows[j] == u;
    assert t.rows[j].name == t.rows[k].name;
  }

  /**
    An unknown name and a wrong password for a known name get the very same
    reply: the 401 with `Invalid credentials`.
   */
  lemma SameRefusal(t: UserTable, h: Hasher, unknown: LoginRequest, wrong: LoginRequest, k: nat)
    requires Valid(t)
    requires NormalizeLogin(unknown).name.Str? && !NameTaken(t.rows, NormalizeLogin(unknown).name.s)
    requires k in t.rows && NormalizeLogin(wrong).name == Str(t.rows[k].name)
    requires !wrong.password.Absent? && !h.check(Plain(NormalizeLogin(wrong).password), t.rows[k].password)
    ensures Login(t, h, unknown) == Login(t, h, wrong) == InvalidCredentials
    ensures LoginStatus(Login(t, h, wrong)) == 401
  {
    var r := Login(t, h, wrong);
    if r.LoggedIn? {
      LoggedInIsNamed(t, h, wrong, k);
    }
    assert FindByName(t, NormalizeLogin(wrong).name).Some?;
  }

  /** Assuming a hash accepts its own password, a user who just registered can log in with the same name and password. */
  lemma RegisterThenLogin(t: UserTable, h: Hasher, isEmail: string -> bool, salt: nat, raw: RegisterRequest)
    requires Valid(t) && Sound(h)
    requires Register(t, h, isEmail, salt, raw).reply.Registered?
    ensures var r := Register(t, h, isEmail, salt, raw);
      Login(r.table, h, LoginRequest(raw.name, raw.password)) == LoggedIn(r.reply.user)
  {
    var r := Register(t, h, isEmail, salt, raw);
    var u := r.reply.user;
    var req := NormalizeRegister(raw);
    var login := LoginRequest(raw.name, raw.password);
    RegisterPreservesValid(t, h, isEmail, salt, raw);
    assert !RegisterRejected(t, isEmail, req);
    assert NormalizeLogin(login).name == Str(u.name);
    assert NormalizeLogin(login).password == req.password;
    assert h.check(req.password.s, h.make(req.password.s, salt));
    assert r.table.rows[u.id] == u;
    LoggedInIsNamed(r.table, h, login, u.id);
  }
}
