/**
  One account's life from registration to password reset, on concrete
  values. The abstract password check is instantiated with plain string
  equality, one admissible choice of matcher.
 */
module Scenario {
  import opened Users
  import opened Store
  import opened Accounts

  function Equal(a: string, b: string): bool { a == b }

  /** Ann's record once registered with verification token "v" and verified. */
  const AnnVerified: User := User(0, "Ann", "ann@x.com", "pw123", DefaultRole, true, None, None, None)

  /**
    Register Ann on an empty store and verify her with the mailed token:
    she starts unverified, ends verified with the token cleared, and then
    logs in with the right password but not with a wrong one.
   */
  lemma AnnRegistersAndLogsIn()
    ensures var s1 := Register([], Some("Ann"), Some("ann@x.com"), Some("pw123"), 0, "v", true).store;
            && s1 == [User(0, "Ann", "ann@x.com", "pw123", DefaultRole, false, Some("v"), None, None)]
            && Verify(s1, Some("v")) == Step(Ok(Verified), [AnnVerified])
            && Login([AnnVerified], Some("ann@x.com"), Some("pw123"), Equal).outcome.Ok?
            && Login([AnnVerified], Some("ann@x.com"), Some("wrong"), Equal).outcome == Err(WrongPassword)
  {
    var s1 := Register([], Some("Ann"), Some("ann@x.com"), Some("pw123"), 0, "v", true).store;
    assert Matches(s1[0], ByVerificationToken("v"));
    assert FindOne(s1, ByVerificationToken("v")) == Some(0);
    assert Matches(AnnVerified, ByEmail("ann@x.com"));
    assert FindOne([AnnVerified], ByEmail("ann@x.com")) == Some(0);
  }

  /**
    Ann asks for a reset at `t0`: the link is refused two hours later and
    accepted after thirty minutes, after which only the new password logs in.
   */
  lemma AnnResetsPassword(t0: int)
    ensures var s3 := ForgotPassword([AnnVerified], Some("ann@x.com"), t0, "r", true).store;
            && s3 == [AnnVerified.(resetPasswordToken := Some("r"), resetPasswordExpires := Some(t0 + 3600000))]
            && ResetPassword(s3, Some("r"), Some("newpw"), t0 + 7200000).outcome == Err(InvalidOrExpiredToken)
            && ResetPassword(s3, Some("r"), Some("newpw"), t0 + 1800000) ==
                 Step(Ok(PasswordReset), [AnnVerified.(password := "newpw")])
            && Login([AnnVerified.(password := "newpw")], Some("ann@x.com"), Some("pw123"), Equal).outcome
                 == Err(WrongPassword)
            && Login([AnnVerified.(password := "newpw")], Some("ann@x.com"), Some("newpw"), Equal).outcome.Ok?
  {
    assert FindOne([AnnVerified], ByEmail("ann@x.com")) == Some(0);
    var s3 := [AnnVerified.(resetPasswordToken := Some("r"), resetPasswordExpires := Some(t0 + 3600000))];
    assert !Matches(s3[0], ByUnexpiredResetToken("r", t0 + 7200000));
    assert Matches(s3[0], ByUnexpiredResetToken("r", t0 + 1800000));
    assert FindOne(s3, ByUnexpiredResetToken("r", t0 + 1800000)) == Some(0);
    var s4 := [AnnVerified.(password := "newpw")];
    assert Matches(s4[0], ByEmail("ann@x.com"));
    assert FindOne(s4, ByEmail("ann@x.com")) == Some(0);
  }
}
