/**
  Invariants of the store that every transition keeps: e-mails and ids are
  unique, a reset token and its expiry are set or cleared together, and a
  verified account holds no outstanding verification token.
 */
module Invariants {
  import opened Users
  import opened Store
  import opened Accounts

  predicate UniqueEmails(store: seq<User>) {
    forall i, j :: 0 <= i < j < |store| ==> store[i].email != store[j].email
  }

  predicate UniqueIds(store: seq<User>) {
    forall i, j :: 0 <= i < j < |store| ==> store[i].id != store[j].id
  }

  predicate ResetPaired(u: User) {
    u.resetPasswordToken.Some? <==> u.resetPasswordExpires.Some?
  }

  predicate VerifiedIsSettled(u: User) {
    u.isVerified ==> u.verificationToken.None?
  }

  predicate WellFormed(store: seq<User>) {
    && UniqueEmails(store)
    && UniqueIds(store)
    && forall i :: 0 <= i < |store| ==> ResetPaired(store[i]) && VerifiedIsSettled(store[i])
  }

  predicate IdUnused(store: seq<User>, id: Id) {
    forall i :: 0 <= i < |store| ==> store[i].id != id
  }

  /** With unique e-mails, the record `findOne({email})` picks is the one with that e-mail. */
  lemma FirstByEmailIsOwner(store: seq<User>, email: string, i: int)
    requires UniqueEmails(store)
    requires 0 <= i < |store|
    ensures FirstMatch(store, ByEmail(email), i) <==> store[i].email == email
  {
  }

  /**
    Under unique e-mails, login succeeds exactly when both fields are given,
    some record has the e-mail, and the password predicate accepts.
   */
  lemma LoginIff(store: seq<User>, email: Option<string>, password: Option<string>,
                 matches: (string, string) -> bool)
    requires UniqueEmails(store)
    ensures Login(store, email, password, matches).outcome.Ok? <==>
              && Given(email) && Given(password)
              && exists i :: 0 <= i < |store| && store[i].email == email.value
                             && matches(password.value, store[i].password)
  {
    if Given(email) && Given(password) {
      forall i | 0 <= i < |store|
        ensures FirstMatch(store, ByEmail(email.value), i) <==> store[i].email == email.value
      {
        FirstByEmailIsOwner(store, email.value, i);
      }
    }
  }

  lemma EmptyStoreWellFormed()
    ensures WellFormed([])
  {
  }

  /** Registration keeps the invariants when the store hands out an unused id. */
  lemma RegisterPreserves(store: seq<User>, name: Option<string>, email: Option<string>,
                          password: Option<string>, newId: Id, token: string, delivered: bool)
    requires WellFormed(store)
    requires IdUnused(store, newId)
    ensures WellFormed(Register(store, name, email, password, newId, token, delivered).store)
  {
    var r := Register(store, name, email, password, newId, token, delivered);
    if r.store != store {
      var s := r.store;
      assert s[..|store|] == store;
      forall i | 0 <= i < |store|
        ensures s[i].email != email.value
      {
        assert s[i] == store[i];
        assert !Matches(store[i], ByEmail(email.value));
      }
    }
  }

  lemma VerifyPreserves(store: seq<User>, token: Option<string>)
    requires WellFormed(store)
    ensures WellFormed(Verify(store, token).store)
  {
  }

  lemma ForgotPasswordPreserves(store: seq<User>, email: Option<string>, now: int, token: string,
                                delivered: bool)
    requires WellFormed(store)
    ensures WellFormed(ForgotPassword(store, email, now, token, delivered).store)
  {
  }

  lemma ResetPasswordPreserves(store: seq<User>, token: Option<string>, password: Option<string>,
                               now: int)
    requires WellFormed(store)
    ensures WellFormed(ResetPassword(store, token, password, now).store)
  {
  }
}
