/** config/passport.js: the LocalStrategy verify callback that decides a
    login, and the session's `serializeUser` / `deserializeUser`.
    `bcrypt.compare(password, stored)` is taken to hold exactly when
    `stored == hash(password)` for the same one-way `hash` that registration used. */
module Passport {
  import opened Wrappers
  import opened JsString
  import opened UserModel

  /** `done(null, user)` or `done(null, false, { message })`. */
  datatype AuthResult = Authenticated(user: User) | Rejected(message: string)

  /** `bcrypt.compare(password, stored)`. */
  predicate PasswordMatches(hash: string -> string, password: string, stored: string) {
    hash(password) == stored
  }

  /** The verify callback: a chain of guards over one lookup by normalized email.
      It succeeds exactly when both fields are given, a user is stored under the
      normalized email, that user has a password, the password matches it, and
      the user is verified; the user it returns is that stored user. */
  function Authenticate(users: map<string, User>, hash: string -> string,
                        email: Option<string>, password: Option<string>): (r: AuthResult)
    ensures r.Authenticated? <==>
      Truthy(email) && Truthy(password) && Normalize(email.value) in users &&
      Truthy(users[Normalize(email.value)].password) &&
      PasswordMatches(hash, password.value, users[Normalize(email.value)].password.value) &&
      users[Normalize(email.value)].isVerified
    ensures r.Authenticated? ==> r.user == users[Normalize(email.value)] && r.user.isVerified
  {
    if !Truthy(email) || !Truthy(password) then Rejected("All fields required")
    else
      var clean := Normalize(email.value);
      if clean !in users then Rejected("User not found")
      else
        var user := users[clean];
        if !Truthy(user.password) then Rejected("Please register first")
        else if !PasswordMatches(hash, password.value, user.password.value) then Rejected("Invalid password")
        else if !user.isVerified then Rejected("Email not verified")
        else Authenticated(user)
  }

  /** A missing or empty field is rejected before the table is consulted. */
  lemma MissingFieldsRejectedFirst(users: map<string, User>, hash: string -> string,
                                   email: Option<string>, password: Option<string>)
    requires !Truthy(email) || !Truthy(password)
    ensures Authenticate(users, hash, email, password) == Rejected("All fields required")
  {
  }

  /** The lookup is by the trimmed, lower-cased email, and a miss is "User not found". */
  lemma UnknownUserRejected(users: map<string, User>, hash: string -> string, email: string, password: string)
    requires email != "" && password != ""
    requires Normalize(email) !in users
    ensures Authenticate(users, hash, Some(email), Some(password)) == Rejected("User not found")
  {
  }

  /** Case and surrounding white space of the submitted email do not matter:
      submitting the normalized form gives the same decision. */
  lemma {:induction false} LookupIgnoresCaseAndSpace(users: map<string, User>, hash: string -> string,
                                                     email: string, password: Option<string>)
    requires Normalize(email) != ""
    ensures Authenticate(users, hash, Some(Normalize(email)), password) == Authenticate(users, hash, Some(email), password)
  {
    NormalizeIdempotent(email);
  }

  /** Why the lemma above needs a non-empty normal form: an email of white
      space only passes the presence check as typed and is looked up as "",
      while its normalized form fails the presence check. */
  lemma BlankEmailNotNormalized(users: map<string, User>, hash: string -> string, password: string)
    requires password != "" && "" !in users
    ensures Authenticate(users, hash, Some(" "), Some(password)) == Rejected("User not found")
    ensures Authenticate(users, hash, Some(Normalize(" ")), Some(password)) == Rejected("All fields required")
  {
    BlankNormalizesToEmpty();
  }

  /** A stored user without a password is told to register, whatever password
      is submitted: no comparison happens. */
  lemma NoPasswordRejectedBeforeCompare(users: map<string, User>, hash: string -> string, email: string, password: string)
    requires email != "" && password != ""
    requires Normalize(email) in users && !Truthy(users[Normalize(email)].password)
    ensures Authenticate(users, hash, Some(email), Some(password)) == Rejected("Please register first")
  {
  }

  /** A wrong password is reported as such even for an unverified user: the
      password is checked before the verification flag. */
  lemma WrongPasswordBeforeVerification(users: map<string, User>, hash: string -> string, email: string, password: string)
    requires email != "" && password != ""
    requires Normalize(email) in users && Truthy(users[Normalize(email)].password)
    requires !PasswordMatches(hash, password, users[Normalize(email)].password.value)
    ensures Authenticate(users, hash, Some(email), Some(password)) == Rejected("Invalid password")
  {
  }

  /** The right password for an unverified user is "Email not verified". */
  lemma UnverifiedRejected(users: map<string, User>, hash: string -> string, email: string, password: string)
    requires email != "" && password != ""
    requires Normalize(email) in users && users[Normalize(email)].password == Some(hash(password))
    requires hash(password) != "" && !users[Normalize(email)].isVerified
    ensures Authenticate(users, hash, Some(email), Some(password)) == Rejected("Email not verified")
  {
  }

  /** Over a table in which every document passed validation, "Please register
      first" is never the answer. */
  lemma ValidTableNeverAsksToRegister(users: map<string, User>, nextId: UserId, hash: string -> string,
                                      email: Option<string>, password: Option<string>)
    requires ValidTable(users, nextId)
    ensures Authenticate(users, hash, email, password) != Rejected("Please register first")
  {
  }

  /** `serializeUser`: the session keeps the user's id. */
  function SerializeUser(u: User): UserId {
    u.id
  }

  /** `deserializeUser`: `User.findById(id)`, the stored user with that id or
      nothing. */
  function DeserializeUser(users: map<string, User>, id: UserId): (r: Option<User>)
    requires IdsUnique(users)
    ensures r.None? <==> forall e :: e in users ==> users[e].id != id
    ensures forall e :: e in users && users[e].id == id ==> r == Some(users[e])
  {
    if exists e :: e in users && users[e].id == id then
      var e :| e in users && users[e].id == id;
      Some(users[e])
    else
      None
  }

  /** A session made for a user resolves to the user stored under that id for
      as long as it is stored, with its current fields, and to nothing once it is gone. */
  lemma SessionRoundTrip(users: map<string, User>, u: User, e: string)
    requires IdsUnique(users)
    ensures e in users && users[e].id == u.id ==> DeserializeUser(users, SerializeUser(u)) == Some(users[e])
    ensures (forall k :: k in users ==> users[k].id != u.id) ==> DeserializeUser(users, SerializeUser(u)) == None
  {
  }
}
