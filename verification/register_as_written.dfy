/**
  registerUser exactly as the controller is written.

  `User.create` is called without `await`, so `user` is a pending promise:
  the `!user` check passes, the verification token is attached to the
  promise object rather than to a document, and `user.save()` throws
  because a promise has no `save`. The handler's catch answers with
  failure. The creation itself still runs, so a record is stored, but
  without a verification token. The success path (mail and confirmation)
  is never reached; the undefined `ports` and `recivers` in the mail step
  would stop it even if it were.

  `Accounts.Register` is the awaited version the handler evidently intends.
 */
module RegisterAsWritten {
  import opened Users
  import opened Store
  import opened Accounts

  function RegisterAsWritten(store: seq<User>, name: Option<string>, email: Option<string>,
                             password: Option<string>, newId: Id): (r: Step)
    ensures r.outcome.Err?
    ensures !(Given(name) && Given(email) && Given(password)) ==> r == Step(Err(FieldsRequired), store)
    ensures Given(name) && Given(email) && Given(password) && EmailTaken(store, email.value) ==>
              r == Step(Err(UserExists), store)
    ensures Given(name) && Given(email) && Given(password) && !EmailTaken(store, email.value) ==>
              && r.outcome == Err(NotRegistered)
              && r.store == store + [User(newId, name.value, email.value, password.value, DefaultRole,
                                          false, None, None, None)]
  {
    if !(Given(name) && Given(email) && Given(password)) then
      Step(Err(FieldsRequired), store)
    else if FindOne(store, ByEmail(email.value)).Some? then
      Step(Err(UserExists), store)
    else
      Step(Err(NotRegistered), store + [NewAccount(newId, name.value, email.value, password.value, None)])
  }

  /**
    The record left behind by the as-written handler can never be verified:
    no verify request, with any token, touches it.
   */
  lemma AsWrittenAccountNeverVerifies(store: seq<User>, name: Option<string>, email: Option<string>,
                                      password: Option<string>, newId: Id, token: Option<string>)
    requires Given(name) && Given(email) && Given(password)
    requires !EmailTaken(store, email.value)
    ensures var s1 := RegisterAsWritten(store, name, email, password, newId).store;
            && !s1[|store|].isVerified
            && Verify(s1, token).store[|store|] == s1[|store|]
  {
    var s1 := RegisterAsWritten(store, name, email, password, newId).store;
    var r := Verify(s1, token);
    if r.outcome.Ok? {
      var i :| && FirstMatch(s1, ByVerificationToken(token.value), i)
               && r.store[i] == s1[i].(isVerified := true, verificationToken := None)
               && forall j :: 0 <= j < |s1| && j != i ==> r.store[j] == s1[j];
      assert i != |store|;
    }
  }

  /**
    On an empty store, a complete registration: the as-written handler
    reports failure and stores an unverifiable record, while the intended
    one succeeds and its link's token verifies the account.
   */
  lemma AsWrittenCounterexample()
    ensures var r := RegisterAsWritten([], Some("Ann"), Some("ann@x.com"), Some("pw123"), 0);
            && r.outcome == Err(NotRegistered)
            && |r.store| == 1
            && r.store[0].verificationToken == None
            && Verify(r.store, Some("t0")).outcome == Err(InvalidToken)
    ensures var r := Register([], Some("Ann"), Some("ann@x.com"), Some("pw123"), 0, "t0", true);
            && r.outcome == Ok(Registered)
            && Verify(r.store, Some("t0")).outcome == Ok(Verified)
  {
    var r := Register([], Some("Ann"), Some("ann@x.com"), Some("pw123"), 0, "t0", true);
    assert Matches(r.store[0], ByVerificationToken("t0"));
  }
}
