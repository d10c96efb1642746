/**
  User records as the account controller reads and writes them, and the
  query filters it hands to the document store.

  The document store itself (a database behind an ORM) is not part of this
  model; `Store` below gives its `findOne` the meaning the controller relies on.
 */
module Users {

  /** An absent optional field or request value (`undefined` in the source). */
  datatype Option<+T> = None | Some(value: T)

  /** The store-assigned identity of a record (`_id`). */
  type Id = nat

  /** The role a freshly created account carries. */
  const DefaultRole: string := "user"

  /**
    One stored account. An optional field is `None` when the document has
    no value for it; the controller clears a field by assigning `undefined`,
    which is `None` here. `resetPasswordExpires` is in milliseconds since the
    epoch, the unit `Date.now()` uses.
   */
  datatype User = User(
    id: Id,
    name: string,
    email: string,
    password: string,
    role: string,
    isVerified: bool,
    verificationToken: Option<string>,
    resetPasswordToken: Option<string>,
    resetPasswordExpires: Option<int>)

  /** A user as returned with the password projected away (`select('-password')`). */
  datatype Profile = Profile(
    id: Id,
    name: string,
    email: string,
    role: string,
    isVerified: bool,
    verificationToken: Option<string>,
    resetPasswordToken: Option<string>,
    resetPasswordExpires: Option<int>)

  function ProfileOf(u: User): Profile {
    Profile(u.id, u.name, u.email, u.role, u.isVerified,
            u.verificationToken, u.resetPasswordToken, u.resetPasswordExpires)
  }

  /** The record `User.create` builds from a registration: unverified, no reset pending. */
  function NewAccount(id: Id, name: string, email: string, password: string,
                      verificationToken: Option<string>): User {
    User(id, name, email, password, DefaultRole, false, verificationToken, None, None)
  }

  /**
    A request field the controller accepts: JavaScript treats it as truthy,
    so it is present and not the empty string.
   */
  predicate Given(field: Option<string>) {
    field.Some? && field.value != ""
  }

  /** The queries the controller passes to `findOne` / `findById`. */
  datatype Filter =
    | ByEmail(email: string)
    | ByVerificationToken(token: string)
      /** `{resetPasswordToken: token, resetPasswordExpires: {$gt: now}}` */
    | ByUnexpiredResetToken(token: string, now: int)
    | ById(id: Id)

  predicate Matches(u: User, f: Filter) {
    match f
    case ByEmail(e) => u.email == e
    case ByVerificationToken(t) => u.verificationToken == Some(t)
    case ByUnexpiredResetToken(t, now) =>
      && u.resetPasswordToken == Some(t)
      && u.resetPasswordExpires.Some?
      && now < u.resetPasswordExpires.value
    case ById(id) => u.id == id
  }

  /** The profile loses the password and nothing else. */
  lemma ProfileForgetsOnlyPassword(u: User, v: User)
    ensures ProfileOf(u) == ProfileOf(v) <==> u.(password := v.password) == v
  {
  }

  /** A reset token matches only strictly before its expiry instant. */
  lemma ResetTokenExpiresAtInstant(u: User, t: string, now: int)
    requires u.resetPasswordToken == Some(t) && u.resetPasswordExpires == Some(now)
    ensures !Matches(u, ByUnexpiredResetToken(t, now))
    ensures Matches(u, ByUnexpiredResetToken(t, now - 1))
  {
  }
}
