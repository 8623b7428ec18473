/**
  The registration page (RegisterForm.jsx): the client-side check of the four
  inputs, the request it sends, how a 422 body is mapped back onto the inputs,
  and what is displayed under an input.
 */
module RegisterForm {
  import opened Wrappers
  import opened Request
  import Accounts

  /** The four inputs, as the page holds them. */
  datatype FormData = FormData(username: string, email: string, password: string, confirmPassword: string)

  datatype FormField = Username | EmailField | Password | ConfirmPassword

  const UsernameRequired := "Username is required"
  const EmailRequired := "Email is required"
  const PasswordRequired := "Password is required"
  const ConfirmationRequired := "Password confirmation is required"
  const PasswordsDiffer := "Passwords do not match"

  /**
    `validate()`: at most one message per input. A blank input is reported as
    missing; the confirmation is compared only when both passwords are filled in.
   */
  function ClientErrors(f: FormData): (r: map<FormField, string>)
    ensures Username in r <==> f.username == ""
    ensures EmailField in r <==> f.email == ""
    ensures Password in r <==> f.password == ""
    ensures ConfirmPassword in r <==> f.confirmPassword == "" || (f.password != "" && f.password != f.confirmPassword)
    ensures Username in r ==> r[Username] == UsernameRequired
    ensures EmailField in r ==> r[EmailField] == EmailRequired
    ensures Password in r ==> r[Password] == PasswordRequired
    ensures ConfirmPassword in r ==>
      r[ConfirmPassword] == if f.confirmPassword == "" then ConfirmationRequired else PasswordsDiffer
  {
    var e0: map<FormField, string> := map[];
    var e1 := if f.username == "" then e0[Username := UsernameRequired] else e0;
    var e2 := if f.email == "" then e1[EmailField := EmailRequired] else e1;
    var e3 := if f.password == "" then e2[Password := PasswordRequired] else e2;
    if f.confirmPassword == "" then e3[ConfirmPassword := ConfirmationRequired]
    else if f.password != "" && f.password != f.confirmPassword then e3[ConfirmPassword := PasswordsDiffer]
    else e3
  }

  /** The form the server is sent: every input filled in and the two passwords equal. */
  predicate Complete(f: FormData) {
    f.username != "" && f.email != "" && f.password != "" && f.confirmPassword != ""
    && f.password == f.confirmPassword
  }

  /** `validate()`'s result: whether the error object has no keys. */
  function Validate(f: FormData): (ok: bool)
    ensures ok <==> Complete(f)
  {
    var errors := ClientErrors(f);
    assert !Complete(f) ==> |errors.Keys| > 0 by {
      if !Complete(f) {
        var k :| k in errors;
        assert k in errors.Keys;
      }
    }
    |errors.Keys| == 0
  }

  /** Only an empty password can leave a mismatched confirmation unreported. */
  lemma UnreportedMismatch(f: FormData)
    requires f.confirmPassword != "" && f.password != f.confirmPassword
    ensures ConfirmPassword !in ClientErrors(f) <==> f.password == ""
  {
  }

  /** The body of `POST /register`, field for field from the inputs, untouched. */
  function Payload(f: FormData): Accounts.RegisterRequest {
    Accounts.RegisterRequest(Str(f.username), Str(f.email), Str(f.password), Str(f.confirmPassword))
  }

  /** `handleSubmit`: the register request goes out only when `validate()` passed. */
  function Submit(f: FormData): (r: Option<Accounts.RegisterRequest>)
    ensures r.Some? <==> Complete(f)
    ensures r.Some? ==> r.value.password == r.value.confirmation && r.value.name == Str(f.username)
  {
    if Validate(f) then Some(Payload(f)) else None
  }

  // ------------------------------------------------------------- error display

  /**
    What an entry of the page's error state holds: a message the page set itself,
    or the list of messages of a 422 body.
   */
  datatype ErrorValue = Message(text: string) | Messages(texts: seq<string>)

  /**
    A 422 body mapped onto the inputs: `name` to username, `email`, `password`,
    and `password_confirmation` to the confirmation input. A key the body lacks
    maps to nothing.
   */
  function MapServerErrors(body: map<string, seq<string>>): (r: map<FormField, ErrorValue>)
    ensures Username in r <==> "name" in body
    ensures EmailField in r <==> "email" in body
    ensures Password in r <==> "password" in body
    ensures ConfirmPassword in r <==> "password_confirmation" in body
    ensures Username in r ==> r[Username] == Messages(body["name"])
    ensures EmailField in r ==> r[EmailField] == Messages(body["email"])
    ensures Password in r ==> r[Password] == Messages(body["password"])
    ensures ConfirmPassword in r ==> r[ConfirmPassword] == Messages(body["password_confirmation"])
  {
    var e0: map<FormField, ErrorValue> := map[];
    var e1 := if "name" in body then e0[Username := Messages(body["name"])] else e0;
    var e2 := if "email" in body then e1[EmailField := Messages(body["email"])] else e1;
    var e3 := if "password" in body then e2[Password := Messages(body["password"])] else e2;
    if "password_confirmation" in body then e3[ConfirmPassword := Messages(body["password_confirmation"])] else e3
  }

  /** The page's messages as error entries. */
  function ClientEntries(f: FormData): (r: map<FormField, ErrorValue>)
    ensures r.Keys == ClientErrors(f).Keys
    ensures forall k :: k in r ==> r[k] == Message(ClientErrors(f)[k])
  {
    var e := ClientErrors(f);
    map k | k in e :: Message(e[k])
  }

  /**
    `{errors.x && <p>{errors.x[0]}</p>}` as written: an empty text shows nothing,
    indexing a message text yields its first character, indexing a list its first
    message, and an empty list shows nothing.
   */
  function ShownAsWritten(v: Option<ErrorValue>): (r: Option<string>)
    ensures v.Some? && v.value.Message? && v.value.text != "" ==> r == Some([v.value.text[0]])
    ensures v.Some? && v.value.Messages? && v.value.texts != [] ==> r == Some(v.value.texts[0])
    ensures v.None? || v == Some(Message("")) || v == Some(Messages([])) ==> r.None?
    ensures v.Some? && v.value.Message? && r.Some? ==> |r.value| == 1
  {
    match v
    case None => None
    case Some(Message(s)) => if s == "" then None else assert s[..1] == [s[0]]; Some(s[..1])
    case Some(Messages(ms)) => if ms == [] then None else Some(ms[0])
  }

  /** The paragraph under an input, corrected: the whole first message. */
  function Shown(v: Option<ErrorValue>): (r: Option<string>)
    ensures v.Some? && v.value.Message? && v.value.text != "" ==> r == Some(v.value.text)
    ensures v.Some? && v.value.Messages? && v.value.texts != [] ==> r == Some(v.value.texts[0])
    ensures v.None? || v == Some(Message("")) || v == Some(Messages([])) ==> r.None?
  {
    match v
    case None => None
    case Some(Message(s)) => if s == "" then None else Some(s)
    case Some(Messages(ms)) => if ms == [] then None else Some(ms[0])
  }

  /** The message displayed under an input for a given error state. */
  function Displayed(errors: map<FormField, ErrorValue>, x: FormField): Option<string> {
    Shown(if x in errors then Some(errors[x]) else None)
  }

  /** As written, a missing username is displayed as the single letter "U". */
  lemma MissingUsernameShowsOneLetter(f: FormData)
    requires f.username == ""
    ensures ShownAsWritten(Some(ClientEntries(f)[Username])) == Some("U")
    ensures ShownAsWritten(Some(ClientEntries(f)[Username])) != Some(UsernameRequired)
  {
    assert UsernameRequired[..1] == "U";
  }

  /** As written, every message the page sets itself is cut down to one character. */
  lemma ClientMessagesTruncated(f: FormData, x: FormField)
    requires x in ClientEntries(f)
    ensures ShownAsWritten(Some(ClientEntries(f)[x])) != Some(ClientErrors(f)[x])
  {
    var m := ClientErrors(f)[x];
    assert |m| > 1;
  }

  /**
    Corrected, each input displays exactly the page's own message for it, and
    nothing when it has none; server lists display as before.
   */
  lemma DisplayedIsClientMessage(f: FormData, x: FormField)
    ensures x in ClientErrors(f) ==> Displayed(ClientEntries(f), x) == Some(ClientErrors(f)[x])
    ensures x !in ClientErrors(f) ==> Displayed(ClientEntries(f), x).None?
  {
    if x in ClientErrors(f) {
      assert ClientErrors(f)[x] != "";
    }
  }

  /** For a 422 body the correction changes nothing. */
  lemma ServerListsUnchanged(body: map<string, seq<string>>, x: FormField)
    ensures var e := MapServerErrors(body);
      var v := if x in e then Some(e[x]) else None;
      Shown(v) == ShownAsWritten(v)
  {
  }

  // ----------------------------------------------------------------- submission

  /** A response as the page sees it: the status and the JSON body of a 422. */
  datatype Response = Response(status: nat, body: map<string, seq<string>>)

  datatype SubmitOutcome =
    | NotSent(errors: map<FormField, ErrorValue>)
    | FieldErrors(errors: map<FormField, ErrorValue>)
    | ServerFailure
    | Redirected

  predicate Succeeded(r: Response) {
    200 <= r.status < 300
  }

  /**
    `handleSubmit`: validate; send `/register`, then `/login` with the same name
    and password; redirect once both succeed. A 422 from either is mapped onto
    the inputs; any other failure shows the generic server error.
   */
  function HandleSubmit(f: FormData, register: Response, login: Response): (r: SubmitOutcome)
    ensures r.NotSent? <==> !Complete(f)
    ensures r.NotSent? ==> r.errors == ClientEntries(f)
    ensures r.Redirected? <==> Complete(f) && Succeeded(register) && Succeeded(login)
    ensures r.FieldErrors? ==> ConfirmPassword in r.errors ==>
      "password_confirmation" in register.body || "password_confirmation" in login.body
  {
    if !Validate(f) then NotSent(ClientEntries(f))
    else if !Succeeded(register) then
      if register.status == 422 then FieldErrors(MapServerErrors(register.body)) else ServerFailure
    else if !Succeeded(login) then
      if login.status == 422 then FieldErrors(MapServerErrors(login.body)) else ServerFailure
    else Redirected
  }
}
