/**
  How the transitions compose over an account's life: verification and
  reset tokens are single-use, a reset link works only strictly before its
  expiry, a newer reset request supersedes an older one, and after a reset
  the new password is the one login checks.

  The random tokens the controller draws are fresh in practice; the lemmas
  say exactly which freshness they rely on.
 */
module Lifecycle {
  import opened Users
  import opened Store
  import opened Accounts
  import opened Invariants

  /** At most one record holds `t` as its reset token. */
  predicate ResetTokenUnique(store: seq<User>, t: string) {
    forall i, j :: 0 <= i < j < |store| && store[i].resetPasswordToken == Some(t) ==>
      store[j].resetPasswordToken != Some(t)
  }

  /** No record holds `t` as its reset token. */
  predicate ResetTokenUnused(store: seq<User>, t: string) {
    forall i :: 0 <= i < |store| ==> store[i].resetPasswordToken != Some(t)
  }

  /** A successful verify removes exactly one holder of the token. */
  lemma {:induction false} VerifyConsumesToken(store: seq<User>, t: string)
    requires Verify(store, Some(t)).outcome.Ok?
    ensures Holders(Verify(store, Some(t)).store, ByVerificationToken(t)) ==
              Holders(store, ByVerificationToken(t)) - 1
  {
    var f := ByVerificationToken(t);
    var r := Verify(store, Some(t));
    var i :| && FirstMatch(store, f, i)
             && r.store[i] == store[i].(isVerified := true, verificationToken := None)
             && forall j :: 0 <= j < |store| && j != i ==> r.store[j] == store[j];
    var u := store[i].(isVerified := true, verificationToken := None);
    assert r.store == store[i := u];
    HoldersUpdate(store, i, u, f);
  }

  /**
    Replaying a verification token: the second verify succeeds exactly when
    some other record held the same token before the first.
   */
  lemma VerifyReplay(store: seq<User>, t: string)
    requires Verify(store, Some(t)).outcome.Ok?
    ensures Verify(Verify(store, Some(t)).store, Some(t)).outcome.Ok? <==>
              Holders(store, ByVerificationToken(t)) > 1
  {
    VerifyConsumesToken(store, t);
  }

  /** A verification token held by one record only works once. */
  lemma VerifyIsSingleUse(store: seq<User>, t: string)
    requires t != ""
    requires Holders(store, ByVerificationToken(t)) == 1
    ensures Verify(store, Some(t)).outcome == Ok(Verified)
    ensures var s1 := Verify(store, Some(t)).store;
            Verify(s1, Some(t)) == Step(Err(InvalidToken), s1)
  {
    VerifyReplay(store, t);
  }

  /**
    A successful registration with a token no record holds yields an
    account that the link's token verifies once, leaving every older record
    as it was; following the link a second time fails.
   */
  lemma RegisterThenVerify(store: seq<User>, name: Option<string>, email: Option<string>,
                           password: Option<string>, newId: Id, token: string, delivered: bool)
    requires Given(name) && Given(email) && Given(password)
    requires !EmailTaken(store, email.value)
    requires token != "" && !AnyMatch(store, ByVerificationToken(token))
    ensures var s1 := Register(store, name, email, password, newId, token, delivered).store;
            var s2 := Verify(s1, Some(token)).store;
            && Verify(s1, Some(token)).outcome == Ok(Verified)
            && |s2| == |store| + 1
            && s2[..|store|] == store
            && s2[|store|] == s1[|store|].(isVerified := true, verificationToken := None)
            && !s1[|store|].isVerified
            && Verify(s2, Some(token)) == Step(Err(InvalidToken), s2)
  {
    var s1 := Register(store, name, email, password, newId, token, delivered).store;
    assert s1[..|store|] == store;
    assert Matches(s1[|store|], ByVerificationToken(token));
    HoldersAppend(store, s1[|store|], ByVerificationToken(token));
    VerifyIsSingleUse(s1, token);
    var r := Verify(s1, Some(token));
    var i :| FirstMatch(s1, ByVerificationToken(token), i)
             && r.store[i] == s1[i].(isVerified := true, verificationToken := None)
             && forall j :: 0 <= j < |s1| && j != i ==> r.store[j] == s1[j];
    assert r.store[..|store|] == store;
  }

  /**
    After a registration that the store gives an unused id, looking that id
    up returns the new account's profile: its name and e-mail as given,
    unverified, with the verification token outstanding and no password.
   */
  lemma RegisterThenGetMe(store: seq<User>, name: Option<string>, email: Option<string>,
                          password: Option<string>, newId: Id, token: string, delivered: bool)
    requires Given(name) && Given(email) && Given(password)
    requires !EmailTaken(store, email.value)
    requires IdUnused(store, newId)
    ensures var s1 := Register(store, name, email, password, newId, token, delivered).store;
            GetMe(s1, newId) ==
              Step(Ok(Me(Profile(newId, name.value, email.value, DefaultRole, false, Some(token), None, None))), s1)
  {
    var s1 := Register(store, name, email, password, newId, token, delivered).store;
    assert s1[..|store|] == store;
    assert Matches(s1[|store|], ById(newId));
    var r := GetMe(s1, newId);
    var i :| 0 <= i < |s1| && s1[i].id == newId && r.outcome.reply == Me(ProfileOf(s1[i]));
    assert i == |store|;
  }

  /**
    After forgotPassword with a fresh token, resetPassword with that token
    succeeds exactly when it is presented strictly before `now + ResetWindow`;
    at or after that instant it is rejected and nothing changes.
   */
  lemma ForgotThenReset(store: seq<User>, email: Option<string>, now: int, token: string,
                        delivered: bool, password: Option<string>, later: int)
    requires Given(email) && EmailTaken(store, email.value)
    requires token != "" && ResetTokenUnused(store, token)
    requires Given(password)
    ensures var s1 := ForgotPassword(store, email, now, token, delivered).store;
            && (ResetPassword(s1, Some(token), password, later).outcome.Ok? <==> later < now + ResetWindow)
            && (later >= now + ResetWindow ==>
                  ResetPassword(s1, Some(token), password, later) == Step(Err(InvalidOrExpiredToken), s1))
  {
    var s1 := ForgotPassword(store, email, now, token, delivered).store;
    var i :| && FirstMatch(store, ByEmail(email.value), i)
             && s1[i] == store[i].(resetPasswordToken := Some(token),
                                   resetPasswordExpires := Some(now + ResetWindow))
             && forall j :: 0 <= j < |store| && j != i ==> s1[j] == store[j];
    var f := ByUnexpiredResetToken(token, later);
    forall j | 0 <= j < |s1| && j != i
      ensures !Matches(s1[j], f)
    {
      assert s1[j] == store[j];
    }
    if later < now + ResetWindow {
      assert Matches(s1[i], f);
    } else {
      assert !Matches(s1[i], f);
      assert !AnyMatch(s1, f);
    }
  }

  /** A reset token rejected at some instant stays rejected at every later one. */
  lemma ResetRejectionPersists(store: seq<User>, token: Option<string>, password: Option<string>,
                               now: int, later: int)
    requires now <= later
    requires ResetPassword(store, token, password, now).outcome.Err?
    ensures ResetPassword(store, token, password, later) == ResetPassword(store, token, password, now)
  {
  }

  /**
    A reset token held by one record only works once: after a successful
    reset, presenting it again fails at any instant, whatever the password.
   */
  lemma ResetIsSingleUse(store: seq<User>, t: string, password: Option<string>, now: int,
                         password2: Option<string>, later: int)
    requires ResetTokenUnique(store, t)
    requires ResetPassword(store, Some(t), password, now).outcome.Ok?
    requires Given(password2)
    ensures var s1 := ResetPassword(store, Some(t), password, now).store;
            ResetPassword(s1, Some(t), password2, later) == Step(Err(InvalidOrExpiredToken), s1)
  {
    var s1 := ResetPassword(store, Some(t), password, now).store;
    var i :| && FirstMatch(store, ByUnexpiredResetToken(t, now), i)
             && s1[i] == store[i].(password := password.value, resetPasswordToken := None,
                                   resetPasswordExpires := None)
             && forall j :: 0 <= j < |store| && j != i ==> s1[j] == store[j];
    forall j | 0 <= j < |s1|
      ensures s1[j].resetPasswordToken != Some(t)
    {
      if j != i {
        assert s1[j] == store[j];
      }
    }
    assert !AnyMatch(s1, ByUnexpiredResetToken(t, later));
  }

  /**
    A newer forgotPassword request supersedes the older link: if only the
    account with that e-mail held the old token, the old token no longer
    resets anything once a different token has been issued.
   */
  lemma ForgotSupersedesOlderToken(store: seq<User>, email: Option<string>, now: int, token: string,
                                   delivered: bool, oldToken: string, password: Option<string>,
                                   later: int)
    requires UniqueEmails(store)
    requires Given(email) && EmailTaken(store, email.value)
    requires oldToken != "" && oldToken != token
    requires forall j :: 0 <= j < |store| && store[j].resetPasswordToken == Some(oldToken) ==>
               store[j].email == email.value
    requires Given(password)
    ensures var s1 := ForgotPassword(store, email, now, token, delivered).store;
            ResetPassword(s1, Some(oldToken), password, later) == Step(Err(InvalidOrExpiredToken), s1)
  {
    var s1 := ForgotPassword(store, email, now, token, delivered).store;
    var i :| && FirstMatch(store, ByEmail(email.value), i)
             && s1[i] == store[i].(resetPasswordToken := Some(token),
                                   resetPasswordExpires := Some(now + ResetWindow))
             && forall j :: 0 <= j < |store| && j != i ==> s1[j] == store[j];
    forall j | 0 <= j < |s1|
      ensures s1[j].resetPasswordToken != Some(oldToken)
    {
      if j != i {
        assert s1[j] == store[j];
        FirstByEmailIsOwner(store, email.value, i);
      }
    }
    assert !AnyMatch(s1, ByUnexpiredResetToken(oldToken, later));
  }

  /**
    After a successful reset of an account, login with that account's
    e-mail checks a password against the new one and no longer the old one.
   */
  lemma LoginAfterReset(store: seq<User>, t: string, password: Option<string>, now: int,
                        i: int, attempt: Option<string>, matches: (string, string) -> bool)
    requires UniqueEmails(store)
    requires t != "" && ResetTokenUnique(store, t)
    requires 0 <= i < |store| && Matches(store[i], ByUnexpiredResetToken(t, now))
    requires store[i].email != ""
    requires Given(password)
    ensures var s1 := ResetPassword(store, Some(t), password, now).store;
            Login(s1, Some(store[i].email), attempt, matches).outcome.Ok? <==>
              Given(attempt) && matches(attempt.value, password.value)
  {
    var s1 := ResetPassword(store, Some(t), password, now).store;
    var k :| && FirstMatch(store, ByUnexpiredResetToken(t, now), k)
             && s1[k] == store[k].(password := password.value, resetPasswordToken := None,
                                   resetPasswordExpires := None)
             && forall j :: 0 <= j < |store| && j != k ==> s1[j] == store[j];
    assert k == i;
    assert UniqueEmails(s1) by {
      forall a, b | 0 <= a < b < |s1|
        ensures s1[a].email != s1[b].email
      {
        assert s1[a].email == store[a].email && s1[b].email == store[b].email;
      }
    }
    LoginIff(s1, Some(store[i].email), attempt, matches);
    if Given(attempt) {
      forall j | 0 <= j < |s1| && s1[j].email == store[i].email
        ensures j == i
      {
      }
      assert s1[i].email == store[i].email && s1[i].password == password.value;
      if matches(attempt.value, password.value) {
        assert 0 <= i < |s1| && s1[i].email == store[i].email && matches(attempt.value, s1[i].password);
      }
    }
  }
}
