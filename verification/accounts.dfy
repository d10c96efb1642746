/**
  The account controller's handlers as pure transitions over the store:
  each takes the store and the request's fields (plus the clock, a fresh
  random token and the mail transport's result where the handler uses
  them) and returns the outcome it reports together with the new store.

  HTTP status codes, message texts, cookies and the e-mail itself are not
  represented; an outcome is `Ok` with what the handler returns on success,
  or `Err` naming which failure branch was taken.
 */
module Accounts {
  import opened Users
  import opened Store

  /** A reset link stays valid for one hour, in milliseconds. */
  const ResetWindow: int := 3600000

  /** The session token's validity (`expiresIn: "24h"`), in seconds. */
  const SessionSeconds: nat := 86400

  /** The session cookie's `maxAge`, 24 hours in milliseconds. */
  const CookieMaxAge: nat := 24 * 60 * 60 * 1000

  datatype Error =
    | FieldsRequired         // a required request field is missing or empty
    | UserExists             // register: the e-mail is already taken
    | NotRegistered          // register failed after creation, or getMe found no record
    | InvalidToken           // verify: no record holds the verification token
    | UnknownEmail           // login: no record has the e-mail
    | WrongPassword          // login: the password predicate rejects
    | UserNotFound           // forgotPassword: no record has the e-mail
    | MailFailed             // forgotPassword: the reset e-mail could not be sent
    | InvalidOrExpiredToken  // resetPassword: no record holds the token unexpired

  /** The claims of the signed session token login issues, with its lifetimes. */
  datatype Session = Session(id: Id, role: string, lifetimeSeconds: nat, cookieMaxAgeMs: nat)

  datatype Reply =
    | Registered
    | Verified
      /** login answers with the whole stored document, password field included */
    | LoggedIn(user: User, session: Session)
    | Me(profile: Profile)
    | ResetMailSent
    | PasswordReset

  datatype Outcome = Ok(reply: Reply) | Err(error: Error)

  datatype Step = Step(outcome: Outcome, store: seq<User>)

  /** Some record already has this e-mail. */
  predicate EmailTaken(store: seq<User>, email: string) {
    AnyMatch(store, ByEmail(email))
  }

  /**
    registerUser, with the creation awaited as its authors intended: the
    three fields are checked first, then the e-mail must be unused, then an
    unverified record carrying the verification token `token` is stored.
    The confirmation mail is sent after the record is saved, so a failed
    send (`delivered` false) reports failure but keeps the record.
    (As written the source never reaches the success path; see
    `RegisterAsWritten`.)
   */
  function Register(store: seq<User>, name: Option<string>, email: Option<string>,
                    password: Option<string>, newId: Id, token: string, delivered: bool): (r: Step)
    ensures !(Given(name) && Given(email) && Given(password)) ==> r == Step(Err(FieldsRequired), store)
    ensures Given(name) && Given(email) && Given(password) && EmailTaken(store, email.value) ==>
              r == Step(Err(UserExists), store)
    ensures r.store != store <==>
              Given(name) && Given(email) && Given(password) && !EmailTaken(store, email.value)
    ensures r.store != store ==>
              r.store == store + [User(newId, name.value, email.value, password.value, DefaultRole,
                                       false, Some(token), None, None)]
    ensures r.outcome == Ok(Registered) <==> r.store != store && delivered
    ensures r.store != store ==> r.outcome == (if delivered then Ok(Registered) else Err(NotRegistered))
  {
    if !(Given(name) && Given(email) && Given(password)) then
      Step(Err(FieldsRequired), store)
    else if FindOne(store, ByEmail(email.value)).Some? then
      Step(Err(UserExists), store)
    else
      var created := NewAccount(newId, name.value, email.value, password.value, Some(token));
      assert |store + [created]| != |store|;
      Step(if delivered then Ok(Registered) else Err(NotRegistered), store + [created])
  }

  /**
    verifyUser: consumes a one-time verification token. The first record
    holding it becomes verified and loses the token; every other record is
    left as it was. A missing token or one no record holds changes nothing.
   */
  function Verify(store: seq<User>, token: Option<string>): (r: Step)
    ensures r.outcome.Ok? <==> Given(token) && AnyMatch(store, ByVerificationToken(token.value))
    ensures r.outcome.Err? ==> r == Step(Err(InvalidToken), store)
    ensures r.outcome.Ok? ==>
              && r.outcome.reply == Verified
              && |r.store| == |store|
              && exists i :: && FirstMatch(store, ByVerificationToken(token.value), i)
                             && r.store[i] == store[i].(isVerified := true, verificationToken := None)
                             && forall j :: 0 <= j < |store| && j != i ==> r.store[j] == store[j]
  {
    if !Given(token) then
      Step(Err(InvalidToken), store)
    else match FindOne(store, ByVerificationToken(token.value))
      case None => Step(Err(InvalidToken), store)
      case Some(i) =>
        Step(Ok(Verified), store[i := store[i].(isVerified := true, verificationToken := None)])
  }

  /**
    login: both fields are required; the e-mail must belong to a record and
    `matches` (the password-hash comparison) must accept the supplied
    password against that record's stored one. The store never changes.
   */
  function Login(store: seq<User>, email: Option<string>, password: Option<string>,
                 matches: (string, string) -> bool): (r: Step)
    ensures r.store == store
    ensures !(Given(email) && Given(password)) ==> r.outcome == Err(FieldsRequired)
    ensures Given(email) && Given(password) && !EmailTaken(store, email.value) ==>
              r.outcome == Err(UnknownEmail)
    ensures r.outcome.Ok? <==>
              && Given(email) && Given(password)
              && exists i :: FirstMatch(store, ByEmail(email.value), i) && matches(password.value, store[i].password)
    ensures r.outcome.Ok? ==>
              exists i :: && FirstMatch(store, ByEmail(email.value), i)
                          && r.outcome.reply ==
                               LoggedIn(store[i], Session(store[i].id, store[i].role, SessionSeconds, CookieMaxAge))
    ensures r.outcome == Err(WrongPassword) <==>
              && Given(email) && Given(password)
              && exists i :: FirstMatch(store, ByEmail(email.value), i) && !matches(password.value, store[i].password)
    ensures r.outcome.Err? ==> r.outcome.error in {FieldsRequired, UnknownEmail, WrongPassword}
  {
    if !(Given(email) && Given(password)) then
      Step(Err(FieldsRequired), store)
    else match FindOne(store, ByEmail(email.value))
      case None => Step(Err(UnknownEmail), store)
      case Some(i) =>
        if !matches(password.value, store[i].password) then
          assert forall k :: FirstMatch(store, ByEmail(email.value), k) ==> k == i;
          Step(Err(WrongPassword), store)
        else
          var u := store[i];
          Step(Ok(LoggedIn(u, Session(u.id, u.role, SessionSeconds, CookieMaxAge))), store)
  }

  /**
    getMe: the record with the session's id, with its password projected
    away, or `NotRegistered` when no record has that id.
   */
  function GetMe(store: seq<User>, id: Id): (r: Step)
    ensures r.store == store
    ensures r.outcome.Ok? <==> AnyMatch(store, ById(id))
    ensures r.outcome.Err? ==> r.outcome.error == NotRegistered
    ensures r.outcome.Ok? ==>
              exists i :: 0 <= i < |store| && store[i].id == id && r.outcome.reply == Me(ProfileOf(store[i]))
  {
    match FindOne(store, ById(id))
    case None => Step(Err(NotRegistered), store)
    case Some(i) => Step(Ok(Me(ProfileOf(store[i]))), store)
  }

  /**
    forgotPassword: the e-mail is required and must belong to a record;
    that record (only) gets the fresh reset token `token` and an expiry one
    hour after `now`, replacing any earlier pending reset. The record is
    saved before the mail is sent, so a failed send (`delivered` false)
    reports `MailFailed` with the token already stored.
   */
  function ForgotPassword(store: seq<User>, email: Option<string>, now: int, token: string,
                          delivered: bool): (r: Step)
    ensures !Given(email) ==> r == Step(Err(FieldsRequired), store)
    ensures Given(email) && !EmailTaken(store, email.value) ==> r == Step(Err(UserNotFound), store)
    ensures Given(email) && EmailTaken(store, email.value) ==>
              && |r.store| == |store|
              && exists i :: && FirstMatch(store, ByEmail(email.value), i)
                             && r.store[i] == store[i].(resetPasswordToken := Some(token),
                                                        resetPasswordExpires := Some(now + ResetWindow))
                             && forall j :: 0 <= j < |store| && j != i ==> r.store[j] == store[j]
    ensures r.outcome.Ok? <==> Given(email) && EmailTaken(store, email.value) && delivered
    ensures r.outcome.Ok? ==> r.outcome.reply == ResetMailSent
    ensures Given(email) && EmailTaken(store, email.value) && !delivered ==> r.outcome == Err(MailFailed)
  {
    if !Given(email) then
      Step(Err(FieldsRequired), store)
    else match FindOne(store, ByEmail(email.value))
      case None => Step(Err(UserNotFound), store)
      case Some(i) =>
        var updated := store[i].(resetPasswordToken := Some(token),
                                 resetPasswordExpires := Some(now + ResetWindow));
        Step(if delivered then Ok(ResetMailSent) else Err(MailFailed), store[i := updated])
  }

  /**
    resetPassword: token and new password are required; the first record
    holding exactly that reset token with an expiry strictly after `now`
    gets the new password as given, and loses its reset token and expiry
    together. Any other case changes nothing.
   */
  function ResetPassword(store: seq<User>, token: Option<string>, password: Option<string>,
                         now: int): (r: Step)
    ensures !(Given(token) && Given(password)) ==> r == Step(Err(FieldsRequired), store)
    ensures r.outcome.Ok? <==>
              Given(token) && Given(password) && AnyMatch(store, ByUnexpiredResetToken(token.value, now))
    ensures Given(token) && Given(password) && r.outcome.Err? ==>
              r == Step(Err(InvalidOrExpiredToken), store)
    ensures r.outcome.Ok? ==>
              && r.outcome.reply == PasswordReset
              && |r.store| == |store|
              && exists i :: && FirstMatch(store, ByUnexpiredResetToken(token.value, now), i)
                             && r.store[i] == store[i].(password := password.value,
                                                        resetPasswordToken := None,
                                                        resetPasswordExpires := None)
                             && forall j :: 0 <= j < |store| && j != i ==> r.store[j] == store[j]
  {
    if !(Given(token) && Given(password)) then
      Step(Err(FieldsRequired), store)
    else match FindOne(store, ByUnexpiredResetToken(token.value, now))
      case None => Step(Err(InvalidOrExpiredToken), store)
      case Some(i) =>
        var updated := store[i].(password := password.value,
                                 resetPasswordToken := None,
                                 resetPasswordExpires := None);
        Step(Ok(PasswordReset), store[i := updated])
  }
}
