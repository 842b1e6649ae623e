/**
 * api/auth.py: how the identity provider's answers become users, sessions
 * or HTTP errors in `get_current_user`, `signup` and `login`, and the
 * owner-scoped insert and listing of applications.
 *
 * Each provider call is an input `Reply`: what it returned (None when the
 * response, or the user or session the code looks at, is falsy) or the
 * message of what it raised.  An HTTPException raised inside a `try` is
 * caught by the same block's `except Exception`; its `str()` is
 * "<status>: <detail>".
 */
module Auth {
  import opened Wrappers
  import opened Strings
  import opened Models
  import opened Db

  const INVALID_CREDENTIALS := "Invalid authentication credentials"
  const USER_NOT_FOUND := "User not found"
  const FAILED_TO_CREATE := "Failed to create user"
  const REGISTRATION_OK := "Registration successful! Please check your email to confirm your account."
  const ALREADY_REGISTERED := "User already registered"
  const ALREADY_REGISTERED_DETAIL := "Email already registered. Please try logging in instead."
  const NOT_CONFIRMED := "Email not confirmed"
  const CONFIRM_DETAIL := "Please check your email to confirm your account before logging in."
  const REGISTRATION_FAILED := "Registration failed: "
  const INCORRECT_CREDENTIALS := "Incorrect email or password"

  /** An HTTPException; `bearerChallenge` is the `WWW-Authenticate: Bearer` header. */
  datatype HttpError = HttpError(statusCode: nat, detail: string, bearerChallenge: bool)

  function Unauthorized(detail: string): HttpError { HttpError(401, detail, true) }

  function BadRequest(detail: string): HttpError { HttpError(400, detail, false) }

  /** `str(e)` of an HTTPException. */
  function ExceptionText(e: HttpError): string
  {
    NatToString(e.statusCode) + ": " + e.detail
  }

  /** A user as the identity provider reports it. */
  datatype Account = Account(id: string, email: string)

  datatype Session = Session(accessToken: string)

  /** The part of `sign_in_with_password`'s response that `login` reads. */
  datatype SignIn = SignIn(user: Option<Account>, session: Option<Session>)

  datatype Reply<T> = Returned(value: T) | Raised(message: string)

  /** A row of the local users table, keyed by the provider's user id. */
  datatype User = User(id: string, email: string, createdAt: int)

  predicate UsersById(users: map<string, User>)
  {
    forall id :: id in users ==> users[id].id == id
  }

  /**
   * `get_current_user`: the local user whose id the provider reports for the
   * token; every failure (provider error, no user, no local row) becomes the
   * same 401.
   */
  function CurrentUser(reply: Reply<Option<Account>>, users: map<string, User>): (r: Result<User, HttpError>)
    requires UsersById(users)
    ensures r.Success? <==> reply.Returned? && reply.value.Some? && reply.value.value.id in users
    ensures r.Success? ==> r.value == users[reply.value.value.id] && r.value.id == reply.value.value.id
    ensures r.Failure? ==> r.error == Unauthorized(INVALID_CREDENTIALS)
  {
    var attempt: Result<User, string> :=
      match reply
      case Raised(m) => Failure(m)
      case Returned(None) => Failure(ExceptionText(Unauthorized(INVALID_CREDENTIALS)))
      case Returned(Some(account)) =>
        if account.id in users then Success(users[account.id])
        else Failure(ExceptionText(Unauthorized(USER_NOT_FOUND)));
    match attempt
    case Success(user) => Success(user)
    case Failure(_) => Failure(Unauthorized(INVALID_CREDENTIALS))
  }

  /** `signup`'s answer on success. */
  datatype Registered = Registered(message: string, user: Account)

  /**
   * `signup`'s exception handler, applied to `str(e)`: always a 400 without
   * a challenge; "User already registered" wins over "Email not confirmed";
   * any other text is shown after the "Registration failed: " prefix.
   */
  function SignupError(text: string): (r: HttpError)
    ensures r.statusCode == 400 && !r.bearerChallenge
    ensures Contains(text, ALREADY_REGISTERED) ==> r.detail == ALREADY_REGISTERED_DETAIL
    ensures !Contains(text, ALREADY_REGISTERED) && Contains(text, NOT_CONFIRMED) ==> r.detail == CONFIRM_DETAIL
    ensures !Contains(text, ALREADY_REGISTERED) && !Contains(text, NOT_CONFIRMED) ==>
      && |REGISTRATION_FAILED| <= |r.detail| && r.detail[..|REGISTRATION_FAILED|] == REGISTRATION_FAILED
      && r.detail[|REGISTRATION_FAILED|..] == text
  {
    if Contains(text, ALREADY_REGISTERED) then BadRequest(ALREADY_REGISTERED_DETAIL)
    else if Contains(text, NOT_CONFIRMED) then BadRequest(CONFIRM_DETAIL)
    else BadRequest(REGISTRATION_FAILED + text)
  }

  /** The text of the "Failed to create user" exception carries neither marker `signup` looks for. */
  lemma MissingUserText()
    ensures ExceptionText(BadRequest(FAILED_TO_CREATE)) == "400: " + FAILED_TO_CREATE
    ensures !Contains("400: " + FAILED_TO_CREATE, ALREADY_REGISTERED)
    ensures !Contains("400: " + FAILED_TO_CREATE, NOT_CONFIRMED)
  {
    var text := "400: " + FAILED_TO_CREATE;
    assert NatToString(4) == "4" && NatToString(40) == "40" && NatToString(400) == "400";
    assert forall i :: 0 <= i < |text| ==> text[i] != 'U' && text[i] != 'E';
    AbsentFirstChar(text, ALREADY_REGISTERED);
    AbsentFirstChar(text, NOT_CONFIRMED);
  }

  /**
   * `signup` as written: success needs a user in the response; every failure
   * is a 400 whose detail depends on the raised text, "User already
   * registered" taking precedence over "Email not confirmed".  The "Failed
   * to create user" exception is caught by the same handler.
   */
  function Signup(reply: Reply<Option<Account>>): (r: Result<Registered, HttpError>)
    ensures r.Success? <==> reply.Returned? && reply.value.Some?
    ensures r.Success? ==> r.value == Registered(REGISTRATION_OK, reply.value.value)
    ensures r.Failure? ==> r.error.statusCode == 400 && !r.error.bearerChallenge
    ensures reply.Raised? && Contains(reply.message, ALREADY_REGISTERED) ==>
      r == Failure(BadRequest(ALREADY_REGISTERED_DETAIL))
    ensures reply.Raised? && !Contains(reply.message, ALREADY_REGISTERED) && Contains(reply.message, NOT_CONFIRMED) ==>
      r == Failure(BadRequest(CONFIRM_DETAIL))
    ensures reply.Raised? && !Contains(reply.message, ALREADY_REGISTERED) && !Contains(reply.message, NOT_CONFIRMED) ==>
      r == Failure(BadRequest(REGISTRATION_FAILED + reply.message))
    ensures reply == Returned(None) ==>
      r == Failure(BadRequest(REGISTRATION_FAILED + "400: " + FAILED_TO_CREATE))
  {
    match reply
    case Returned(Some(account)) => Success(Registered(REGISTRATION_OK, account))
    case Returned(None) =>
      MissingUserText();
      var text := ExceptionText(BadRequest(FAILED_TO_CREATE));
      assert REGISTRATION_FAILED + text == REGISTRATION_FAILED + "400: " + FAILED_TO_CREATE;
      Failure(SignupError(text))
    case Raised(m) => Failure(SignupError(m))
  }

  /**
   * `signup` with its own "Failed to create user" exception passed through
   * unchanged instead of being re-wrapped by the generic handler.
   */
  function SignupIntended(reply: Reply<Option<Account>>): (r: Result<Registered, HttpError>)
    ensures reply == Returned(None) ==> r == Failure(BadRequest(FAILED_TO_CREATE))
    ensures reply != Returned(None) ==> r == Signup(reply)
  {
    match reply
    case Returned(Some(account)) => Success(Registered(REGISTRATION_OK, account))
    case Returned(None) => Failure(BadRequest(FAILED_TO_CREATE))
    case Raised(m) => Failure(SignupError(m))
  }

  /** A sign-up response without a user: the as-written detail is the re-wrapped exception text. */
  lemma SignupRewrapsOwnError()
    ensures Signup(Returned(None)).error.detail == REGISTRATION_FAILED + "400: " + FAILED_TO_CREATE
    ensures SignupIntended(Returned(None)).error.detail == FAILED_TO_CREATE
    ensures Signup(Returned(None)) != SignupIntended(Returned(None))
  {
    var wrapped := Signup(Returned(None)).error.detail;
    assert wrapped[0] == REGISTRATION_FAILED[0] == 'R';
    assert FAILED_TO_CREATE[0] == 'F';
  }

  /** `login`'s answer on success. */
  datatype LoggedIn = LoggedIn(user: Option<Account>, session: Session, email: string)

  /**
   * `login`'s exception handler, applied to `str(e)`: an unconfirmed email
   * is a 400 asking for confirmation; anything else is the 401 with the
   * Bearer challenge.  The raised text itself is never shown.
   */
  function LoginError(text: string): (r: HttpError)
    ensures Contains(text, NOT_CONFIRMED) <==> r.statusCode == 400
    ensures Contains(text, NOT_CONFIRMED) ==> r.detail == CONFIRM_DETAIL && !r.bearerChallenge
    ensures !Contains(text, NOT_CONFIRMED) ==> r.statusCode == 401 && r.detail == INCORRECT_CREDENTIALS && r.bearerChallenge
    ensures r.detail == CONFIRM_DETAIL || r.detail == INCORRECT_CREDENTIALS
  {
    if Contains(text, NOT_CONFIRMED) then BadRequest(CONFIRM_DETAIL)
    else Unauthorized(INCORRECT_CREDENTIALS)
  }

  lemma MissingSessionText()
    ensures ExceptionText(Unauthorized(INCORRECT_CREDENTIALS)) == "401: " + INCORRECT_CREDENTIALS
    ensures !Contains("401: " + INCORRECT_CREDENTIALS, NOT_CONFIRMED)
  {
    var text := "401: " + INCORRECT_CREDENTIALS;
    assert NatToString(4) == "4" && NatToString(40) == "40" && NatToString(401) == "401";
    assert forall i :: 0 <= i < |text| ==> text[i] != 'E';
    AbsentFirstChar(text, NOT_CONFIRMED);
  }

  /**
   * `login`: success needs a session; an unconfirmed e-mail is a 400, and
   * every other failure, a missing session included, is the same 401.
   */
  function Login(email: string, reply: Reply<Option<SignIn>>): (r: Result<LoggedIn, HttpError>)
    ensures r.Success? <==> reply.Returned? && reply.value.Some? && reply.value.value.session.Some?
    ensures r.Success? ==>
      r.value == LoggedIn(reply.value.value.user, reply.value.value.session.value, email)
    ensures r.Failure? ==>
      (r.error == BadRequest(CONFIRM_DETAIL) <==> reply.Raised? && Contains(reply.message, NOT_CONFIRMED))
    ensures r.Failure? && r.error != BadRequest(CONFIRM_DETAIL) ==> r.error == Unauthorized(INCORRECT_CREDENTIALS)
  {
    match reply
    case Raised(m) => Failure(LoginError(m))
    case Returned(Some(SignIn(user, Some(session)))) => Success(LoggedIn(user, session, email))
    case Returned(_) =>
      MissingSessionText();
      Failure(LoginError(ExceptionText(Unauthorized(INCORRECT_CREDENTIALS))))
  }

  /** auth.py's `create_application`: the insert of crud.py with the caller as owner. */
  method CreateApplication(db: Table, application: ApplicationCreate, userId: string, now: int)
    returns (app: Application)
    requires db.Valid()
    modifies db
    ensures db.Valid()
    ensures app == NewApplication(old(db.nextId), application, Some(userId), now)
    ensures app.userId == Some(userId)
    ensures app.id !in old(db.rows) && db.rows == old(db.rows)[app.id := app]
    ensures db.order == old(db.order) + [app.id]
  {
    app := db.Add(application, Some(userId), now);
  }

  function OwnedBy(userId: string): Application -> bool
  {
    (a: Application) => a.userId == Some(userId)
  }

  /**
   * `get_user_applications`: the owner's rows in query order, from offset
   * `skip`, at most `limit` of them; nobody else's row is ever returned.
   */
  function GetUserApplications(db: Table, userId: string, skip: nat, limit: nat): (r: seq<Application>)
    reads db
    requires db.Valid()
    ensures var owned := Where(db.rows, db.order, OwnedBy(userId));
      && |r| == Min(limit, Max(0, |owned| - skip))
      && forall k :: 0 <= k < |r| ==> r[k] == db.rows[owned[skip + k]]
    ensures forall k :: 0 <= k < |r| ==> r[k].userId == Some(userId)
  {
    var owned := Where(db.rows, db.order, OwnedBy(userId));
    Window(Records(db.rows, owned), skip, limit)
  }
}
