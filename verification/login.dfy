/** The login form: `validateForm`, `handleLogin` and the fields' change handlers. The
    network request and the browser storage are abstract: the request's result is an input
    and the stored user is a field of the form's state. */
module Login {
  import opened Wrappers
  import Email

  const FillAllFields := "Please fill in all required fields."
  const InvalidEmailAddress := "Invalid email address."
  const InvalidCredentials := "Invalid email or password. Please try again."
  const HomeRoute := "/home"

  /** What `validateForm` decides, with the message it shows on refusal. */
  datatype Verdict = Valid | Invalid(message: string)

  /** The credentials a login request carries. */
  datatype Request = Request(email: string, password: string)

  /** How the login request ended: the server's user record (as the text stored for it);
      a successful request whose user could not be written to storage once the old entry
      was removed, which lands in the same `catch` as a failed request; or any failure of
      the request itself, which the form does not tell apart. */
  datatype Outcome = Succeeded(user: string) | StoreFailed | Failed

  /** The form's state, the stored user and the last navigation the form asked for. */
  datatype Form = Form(
    email: string,
    password: string,
    errorMessage: string,
    isLoading: bool,
    storedUser: Option<string>,
    route: Option<string>)

  /** The empty-field check comes first; only filled-in forms reach the format check. */
  function ValidateForm(email: string, password: string): (v: Verdict)
    ensures (email == "" || password == "") ==> v == Invalid(FillAllFields)
    ensures email != "" && password != "" ==>
      (v == Invalid(InvalidEmailAddress) <==> !Email.ValidateEmail(email))
    ensures email != "" && password != "" && Email.ValidateEmail(email) ==> v == Valid
    ensures v.Valid? || v.message == FillAllFields || v.message == InvalidEmailAddress
  {
    if email == "" || password == "" then Invalid(FillAllFields)
    else if !Email.ValidateEmail(email) then Invalid(InvalidEmailAddress)
    else Valid
  }

  /** A form passes exactly when a password was typed and the address is in the language
      of the e-mail expression (the empty address is not). */
  lemma ValidFormIff(email: string, password: string)
    ensures ValidateForm(email, password) == Valid <==> password != "" && Email.MatchesPattern(email)
  {
    Email.ValidateEmailIsPattern(email);
    if email == "" {
      Email.ValidateEmailIsPattern("");
      assert !Email.MatchesPattern("");
    }
  }

  /** The synchronous part of `handleLogin`, up to the request: the request it issues, if any. */
  function HandleLogin(f: Form): (r: (Form, Option<Request>))
    ensures f.isLoading ==> r == (f, None)
    ensures !f.isLoading && ValidateForm(f.email, f.password).Invalid? ==>
      r == (f.(errorMessage := ValidateForm(f.email, f.password).message), None)
    ensures r.1.Some? <==> !f.isLoading && ValidateForm(f.email, f.password) == Valid
    ensures r.1.Some? ==> r.1.value == Request(f.email, f.password) && r.0 == f.(isLoading := true)
    ensures r.1.None? ==> !r.0.isLoading || f.isLoading
  {
    if f.isLoading then (f, None)
    else
      match ValidateForm(f.email, f.password)
      case Invalid(m) => (f.(errorMessage := m), None)
      case Valid => (f.(isLoading := true), Some(Request(f.email, f.password)))
  }

  /** The rest of `handleLogin`, once the request has ended. */
  function FinishLogin(f: Form, outcome: Outcome): (g: Form)
    ensures !g.isLoading
    ensures g.email == f.email && g.password == f.password
    ensures outcome.Succeeded? ==>
      g.storedUser == Some(outcome.user) && g.route == Some(HomeRoute) && g.errorMessage == f.errorMessage
    ensures outcome.StoreFailed? ==>
      g.errorMessage == InvalidCredentials && g.storedUser == None && g.route == f.route
    ensures outcome.Failed? ==>
      g.errorMessage == InvalidCredentials && g.storedUser == f.storedUser && g.route == f.route
  {
    match outcome
    case Succeeded(user) => f.(storedUser := Some(user), route := Some(HomeRoute), isLoading := false)
    case StoreFailed => f.(storedUser := None, errorMessage := InvalidCredentials, isLoading := false)
    case Failed => f.(errorMessage := InvalidCredentials, isLoading := false)
  }

  /** Typing in the e-mail field replaces it and clears the error; nothing else changes. */
  function EditEmail(f: Form, value: string): (g: Form)
    ensures g.email == value && g.errorMessage == ""
    ensures g.(email := f.email, errorMessage := f.errorMessage) == f
  {
    f.(email := value, errorMessage := "")
  }

  /** Typing in the password field replaces it and clears the error; nothing else changes. */
  function EditPassword(f: Form, value: string): (g: Form)
    ensures g.password == value && g.errorMessage == ""
    ensures g.(password := f.password, errorMessage := f.errorMessage) == f
  {
    f.(password := value, errorMessage := "")
  }

  /** The form together with the request in flight, if any. */
  datatype Session = Session(form: Form, inFlight: Option<Request>)

  /** What can happen to the form: the user types or clicks, or the request ends. */
  datatype Event = TypeEmail(value: string) | TypePassword(value: string) | ClickLogin | Respond(outcome: Outcome)

  /** One event. A response arrives only for a request in flight; with none, nothing happens. */
  function Step(s: Session, e: Event): Session
  {
    match e
    case TypeEmail(v) => s.(form := EditEmail(s.form, v))
    case TypePassword(v) => s.(form := EditPassword(s.form, v))
    case ClickLogin =>
      var (f, req) := HandleLogin(s.form);
      if req.Some? then Session(f, req) else s.(form := f)
    case Respond(o) =>
      if s.inFlight.Some? then Session(FinishLogin(s.form, o), None) else s
  }

  function Run(s: Session, events: seq<Event>): Session
    decreases |events|
  {
    if events == [] then s else Run(Step(s, events[0]), events[1..])
  }

  /** The loading flag is up exactly while a request is in flight, and every request in
      flight carries credentials the form accepted. */
  predicate Consistent(s: Session)
  {
    (s.inFlight.Some? <==> s.form.isLoading) &&
    (s.inFlight.Some? ==> ValidateForm(s.inFlight.value.email, s.inFlight.value.password) == Valid)
  }

  /** The freshly mounted form: empty fields and message, loading flag down, nothing in flight.
      The stored user outlives the page, so whatever an earlier visit left is a parameter. */
  function Initial(stored: Option<string>): Session
  {
    Session(Form("", "", "", false, stored, None), None)
  }

  /** The freshly mounted form is where `RunConsistent` starts, whatever user is stored. */
  lemma InitialConsistent(stored: Option<string>)
    ensures Consistent(Initial(stored))
  {
  }

  lemma StepConsistent(s: Session, e: Event)
    requires Consistent(s)
    ensures Consistent(Step(s, e))
  {
  }

  /** Whatever the user does and however the requests end, the form stays consistent:
      at most one request is ever in flight, and none with refused credentials. */
  lemma {:induction false} RunConsistent(s: Session, events: seq<Event>)
    requires Consistent(s)
    ensures Consistent(Run(s, events))
    decreases |events|
  {
    if events != [] {
      StepConsistent(s, events[0]);
      RunConsistent(Step(s, events[0]), events[1..]);
    }
  }

  /** Clicking while a request is in flight changes nothing and issues nothing. */
  lemma ClickWhileLoading(s: Session)
    requires Consistent(s) && s.inFlight.Some?
    ensures Step(s, ClickLogin) == s
  {
  }

  /** Clicking with a refused form issues no request and leaves the loading flag down. */
  lemma ClickWithInvalidForm(s: Session)
    requires Consistent(s) && s.inFlight.None?
    requires ValidateForm(s.form.email, s.form.password).Invalid?
    ensures Step(s, ClickLogin).inFlight.None? && !Step(s, ClickLogin).form.isLoading
    ensures Step(s, ClickLogin).form.errorMessage == ValidateForm(s.form.email, s.form.password).message
  {
  }

  /** The stored user is the one from before, the user of some successful response, or
      none after a response whose user could not be stored. */
  lemma {:induction false} StoredUserFromSuccess(s: Session, events: seq<Event>)
    ensures var u := Run(s, events).form.storedUser;
      u == s.form.storedUser ||
      (u.Some? && Respond(Succeeded(u.value)) in events) ||
      (u.None? && Respond(StoreFailed) in events)
    decreases |events|
  {
    if events != [] {
      StoredUserFromSuccess(Step(s, events[0]), events[1..]);
      assert events[0] in events;
    }
  }

  /** The form navigates home only after a successful response. */
  lemma {:induction false} HomeOnlyAfterSuccess(s: Session, events: seq<Event>)
    requires s.form.route == None
    ensures Run(s, events).form.route == None ||
      (Run(s, events).form.route == Some(HomeRoute) && exists u :: Respond(Succeeded(u)) in events)
    decreases |events|
  {
    if events != [] {
      var t := Step(s, events[0]);
      if t.form.route == None {
        HomeOnlyAfterSuccess(t, events[1..]);
      } else {
        assert t.form.route == Some(HomeRoute);
        assert events[0] in events;
        HomeRouteSticks(t, events[1..]);
      }
    }
  }

  /** Once home has been asked for, the route stays home. */
  lemma {:induction false} HomeRouteSticks(s: Session, events: seq<Event>)
    requires s.form.route == Some(HomeRoute)
    ensures Run(s, events).form.route == Some(HomeRoute)
    decreases |events|
  {
    if events != [] {
      HomeRouteSticks(Step(s, events[0]), events[1..]);
    }
  }

  /** After a refused click, retyping the address clears the message, and if the new
      address passes, the next click sends it with the password already typed. */
  lemma RetryAfterRefusal(s: Session, email: string)
    requires Consistent(s) && s.inFlight.None?
    requires ValidateForm(s.form.email, s.form.password).Invalid?
    requires ValidateForm(email, s.form.password) == Valid
    ensures Run(s, [ClickLogin, TypeEmail(email)]).form.errorMessage == ""
    ensures Run(s, [ClickLogin, TypeEmail(email), ClickLogin]).inFlight == Some(Request(email, s.form.password))
  {
    var s1 := Step(s, ClickLogin);
    var s2 := Step(s1, TypeEmail(email));
    var s3 := Step(s2, ClickLogin);
    assert Run(s2, [ClickLogin]) == s3;
    assert [ClickLogin, TypeEmail(email), ClickLogin][1..] == [TypeEmail(email), ClickLogin];
    assert Run(s1, [TypeEmail(email), ClickLogin]) == s3;
    assert Run(s1, [TypeEmail(email)]) == s2;
  }
}
