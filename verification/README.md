# Account records of a minimal authentication backend

This project models the account controller of a small user-account web
backend. It covers registration with e-mail verification, login, the
"who am I" lookup, and the forgot/reset password flow. Each handler is a
pure transition over a store of user records. It takes the store and the
request fields, and returns an outcome (`Ok` with the reply, or `Err` naming
the failure branch) together with the new store.

Mapping of external parts to the model:

- The document store is a `seq<User>` in insertion order.
- `findOne(filter)` / `findById` is `Store.FindOne`: the first record that matches a `Filter`, or none.
- `Date.now()` is the parameter `now`, in integer milliseconds.
- `crypto.randomBytes(...)` is the caller-supplied `token`.
- `bcrypt.compare` is the parameter `matches: (string, string) -> bool`, left uninterpreted.
- Whether the outbound e-mail was sent is the parameter `delivered`.

Files:

- `users.dfy`: the record, the password-less profile, and the filters `findOne` receives.
- `store.dfy`: `FindOne` and a count of matching records.
- `accounts.dfy`: the handlers `Register`, `Verify`, `Login`, `GetMe`, `ForgotPassword`, `ResetPassword`.
- `invariants.dfy`: store invariants every handler preserves. These are unique e-mails and ids, reset token and expiry set or cleared together, and a verified account holds no verification token.
- `lifecycle.dfy`: how handlers compose. Tokens are single-use, expiry is strict, a newer reset request supersedes an older one, and after a reset only the new password logs in.
- `register_as_written.dfy`: the registration handler exactly as written (see Findings).
- `scenario.dfy`: one account's life on concrete values.

On these points the model follows the code, not what such a backend is usually expected to do:

- `login` answers with the whole stored document, password included (`LoggedIn(user, ...)`), not a public profile.
- The password is stored as given at registration and at reset. No hashing is visible in the controller.
- `getMe` removes only the password. The outstanding verification and reset tokens stay in the profile.
- The record is saved before any mail is sent. A failed send reports failure, but the stored change stays.

## Model

| member | source | states |
|---|---|---|
| Store.FindOne | controllers/user.controller.js:88-94 | the lookup yields a position whose record matches the filter with no earlier match, and yields none exactly when no record matches |
| Accounts.Register | controllers/user.controller.js:10-40 | a missing name, e-mail or password fails first, with the store untouched; a taken e-mail then fails with no record added; otherwise exactly one unverified record carrying the verification token is appended; once the record is stored, the outcome is success when the mail is delivered and the not-registered failure when it is not |
| Accounts.Verify | controllers/user.controller.js:80-98 | succeeds iff the token is non-empty and some record holds it; on failure the store is unchanged; on success only the first holder changes, becoming verified with its token cleared |
| Accounts.Login | controllers/user.controller.js:101-143 | never changes the store; missing fields fail first, then an unknown e-mail; fails with the wrong-password error iff the first record with the e-mail is rejected by the password predicate; succeeds iff the password predicate accepts against the first record with the e-mail, returning that record and a session with its id, role, 24-hour lifetime and cookie max-age |
| Accounts.GetMe | controllers/user.controller.js:154-168 | never changes the store; succeeds iff some record has the id, returning that record's password-less profile, else reports not registered |
| Accounts.ForgotPassword | controllers/user.controller.js:188-244 | a missing or unknown e-mail fails with the store untouched; otherwise only the matched record changes, its reset token becoming the fresh token and its expiry `now + 3600000`; success additionally needs the mail delivered |
| Accounts.ResetPassword | controllers/user.controller.js:248-274 | missing fields fail first; succeeds iff some record holds exactly the token with `now` strictly before its expiry; failure leaves the store untouched; success changes only that record, setting the password as given and clearing token and expiry together |
| Users.ProfileForgetsOnlyPassword | controllers/user.controller.js:156 | two records have the same profile exactly when they differ at most in the password |
| Users.ResetTokenExpiresAtInstant | controllers/user.controller.js:259-262 | a reset token presented at its expiry instant does not match; one millisecond earlier it does |
| Invariants.FirstByEmailIsOwner | controllers/user.controller.js:111 | with unique e-mails, the record the e-mail lookup picks is exactly the record with that e-mail |
| Invariants.LoginIff | controllers/user.controller.js:104-124 | with unique e-mails, login succeeds iff both fields are given and some record with the e-mail has a password the predicate accepts |
| Invariants.RegisterPreserves | controllers/user.controller.js:17-40 | given an unused id, registration keeps e-mails and ids unique, reset fields paired and verified accounts token-free |
| Invariants.VerifyPreserves | controllers/user.controller.js:96-98 | verification keeps every store invariant |
| Invariants.ForgotPasswordPreserves | controllers/user.controller.js:206-210 | setting a reset token and expiry together keeps every store invariant |
| Invariants.ResetPasswordPreserves | controllers/user.controller.js:270-274 | replacing the password and clearing token and expiry together keeps every store invariant |
| Lifecycle.VerifyConsumesToken | controllers/user.controller.js:88-98 | a successful verify lowers the number of records holding the token by exactly one |
| Lifecycle.VerifyReplay | controllers/user.controller.js:88-98 | a second verify with the same token succeeds iff more than one record held it before the first |
| Lifecycle.VerifyIsSingleUse | controllers/user.controller.js:82-98 | a token held by one record verifies once, and the replay fails with the store unchanged |
| Lifecycle.RegisterThenVerify | controllers/user.controller.js:36-98 | after registering with a token no record holds, verifying with it succeeds on the new record only, leaving older records as they were, and a second verify with it fails |
| Lifecycle.ForgotThenReset | controllers/user.controller.js:206-262 | after a reset request at `now` with a fresh token, reset with it succeeds iff presented strictly before `now + 3600000`; at or after, it fails with the store unchanged |
| Lifecycle.ResetRejectionPersists | controllers/user.controller.js:259-268 | a reset refused at some instant is refused identically at every later instant |
| Lifecycle.ResetIsSingleUse | controllers/user.controller.js:259-274 | after a successful reset with a token only one record held, replaying it fails at any instant, with the store unchanged |
| Lifecycle.ForgotSupersedesOlderToken | controllers/user.controller.js:206-208 | a new reset request invalidates the account's earlier reset token at every instant |
| Lifecycle.LoginAfterReset | controllers/user.controller.js:270-274 | after a reset, login with that account's e-mail succeeds iff the attempt matches the new password |
| RegisterAsWritten.RegisterAsWritten | controllers/user.controller.js:24-76 | the handler as written never succeeds; after the guards it reports failure but still appends the created record, without a verification token |
| RegisterAsWritten.AsWrittenAccountNeverVerifies | controllers/user.controller.js:24-40 | the record the as-written handler leaves is unverified, and no verify request with any token changes it |
| RegisterAsWritten.AsWrittenCounterexample | controllers/user.controller.js:24-40 | on an empty store, a complete registration fails as written and leaves a record no token verifies, while the intended handler succeeds and its token verifies |
| Scenario.AnnRegistersAndLogsIn | controllers/user.controller.js:7-143 | on concrete values: registration stores an unverified record with the token, verify yields the verified record with the token cleared, and login accepts the right password and rejects a wrong one |
| Scenario.AnnResetsPassword | controllers/user.controller.js:188-274 | on concrete values: a reset request stores the token with expiry one hour on, the reset is refused two hours later and accepted after thirty minutes, then only the new password logs in |
| Lifecycle.RegisterThenGetMe | controllers/user.controller.js:24-168 | after a registration with an unused id, looking the id up returns the new account's password-less profile with the given name and e-mail, unverified and with its verification token |

## Left out

- HTTP plumbing: status codes, JSON bodies, message texts, cookies, CORS and routing are not modelled. Outcomes are the abstract `Ok`/`Err`. The model gives "unknown e-mail" at login its own error, although the source sends the same text as for missing fields.
- E-mail sending is not modelled. Only whether the send succeeded enters, through `delivered`, because the store change comes before it.
- Password hashing (bcrypt) is the uninterpreted `matches` parameter. No hashing hook from the user schema is assumed. That schema is not part of this model.
- Session token signing and checking (JWT) are not modelled. Login returns the claims it would sign (id, role) with the 24-hour lifetime and cookie max-age. The session guard middleware, which calls `next()` twice and is mounted on login rather than on `/me`, is wiring and is left out.
- Logout only clears a cookie. It touches no record, so it is not modelled.
- `Accounts.GetMe` takes the decoded session id as a parameter. On the real `/me` route no guard runs, so the lookup of `req.user.id` throws and nothing is answered. That route wiring is not modelled.
- Store failures (an unreachable database, a rejected write) and the `catch` branches they reach are not modelled.
- `verifyUser` writes no response on success. The model reports `Ok(Verified)` for the state change only.
- `findOne` without a sort is modelled as "first match in insertion order". Every property that depends on which record is picked is stated under a uniqueness assumption (unique e-mails, a token held by one record).
- The user schema is not shown; a new record is assumed to have `role` "user" and `isVerified` false.
- The `!user` branch after creation (controllers/user.controller.js:30-34) is unreachable, both as written and when awaited. It is not modelled.
- Timestamps are unbounded integers. JavaScript numbers are exact for integers below 2^53, which covers `Date.now() + 3600000`.
- Fresh tokens are any strings. Their 64-hex-digit shape and their uniqueness are not modelled. The lemmas state the freshness they need.
- Request fields are modelled as optional strings; non-string JSON values, including objects the store reads as query operators, are not modelled.
- Concurrent requests racing to consume the same token are out of scope. Transitions are strictly sequential.

## Findings

| source | as written | input that shows it | evidently intended | confidence | as-written member | corrected member |
|---|---|---|---|---|---|---|
| controllers/user.controller.js:24-40 | `User.create` is not awaited. `user.save()` is then called on a promise and throws, so the handler always answers "User not registered!". The unawaited creation still stores the record, but with no verification token, because the token was set on the promise. The undefined `ports` and `recivers` in the mail step (:48, :58) would also stop the success path. | register("Ann", "ann@x.com", "pw123") on an empty store: failure is reported, one record is stored with no verification token, and no verify request can ever verify it | await the creation, then save the token on the record so that the mailed link verifies the account; `Accounts.Register` is that definition and the rest of the model uses it | medium, not executed | RegisterAsWritten.AsWrittenCounterexample | Lifecycle.RegisterThenVerify |
