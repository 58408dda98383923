/** The `User` schema of models/User.js: the stored document, what Mongoose
    does with the object handed to `new User({...})` (fills the `isVerified`
    default, drops keys that are not schema paths), the validators `save`
    runs, and the collection as a map keyed by the unique email. */
module UserModel {
  import opened Wrappers
  import opened JsString

  /** The document `_id`, which `serializeUser` stores in the session. */
  type UserId = nat

  const Driver: string := "driver"
  const Rider: string := "rider"

  /** A stored document. Absent string paths are `None`. */
  datatype User = User(
    id: UserId,
    email: string,
    password: Option<string>,
    role: Option<string>,
    isVerified: bool,
    licenseNumber: Option<string>,
    vehicleNumber: Option<string>,
    vehicleType: Option<string>)

  /** The object handed to `new User({...})` by the routes. `license` is a key
      that the routes write but that is not a path of the schema. */
  datatype UserFields = UserFields(
    email: string,
    password: Option<string>,
    role: Option<string>,
    isVerified: Option<bool>,
    license: Option<string>,
    licenseNumber: Option<string>,
    vehicleNumber: Option<string>,
    vehicleType: Option<string>)

  /** `new User(fields)` under the schema's strict mode: declared paths are
      copied, `isVerified` defaults to false, and `license` is discarded. */
  function NewUser(id: UserId, f: UserFields): (u: User)
    ensures u.id == id && u.email == f.email
    ensures f.isVerified.None? ==> !u.isVerified
    ensures u.licenseNumber == f.licenseNumber
  {
    User(id, f.email, f.password, f.role,
         match f.isVerified case Some(b) => b case None => false,
         f.licenseNumber, f.vehicleNumber, f.vehicleType)
  }

  /** The `license` key has no effect on the document that is built. */
  lemma LicenseKeyDiscarded(id: UserId, f: UserFields, license: Option<string>)
    ensures NewUser(id, f.(license := license)) == NewUser(id, f)
  {
  }

  /** The validators `save` runs: `email`, `password` and `role` are required
      (a required string must be non-empty) and `role` is one of the enum values.
      The driver-only paths are optional for every role. */
  predicate ValidUser(u: User) {
    u.email != "" && Truthy(u.password) && (u.role == Some(Driver) || u.role == Some(Rider))
  }

  /** Whatever passes validation has role "driver" or "rider" and a password,
      whichever driver-only paths it has. */
  lemma ValidUserShape(u: User, licenseNumber: Option<string>, vehicleNumber: Option<string>, vehicleType: Option<string>)
    requires ValidUser(u)
    ensures u.role.Some? && u.role.value in {Driver, Rider}
    ensures u.password.Some?
    ensures ValidUser(u.(licenseNumber := licenseNumber, vehicleNumber := vehicleNumber, vehicleType := vehicleType))
  {
  }

  /** No two stored documents have the same `_id`. */
  predicate IdsUnique(users: map<string, User>) {
    forall e1, e2 :: e1 in users && e2 in users && users[e1].id == users[e2].id ==> e1 == e2
  }

  /** The collection keyed by email: each key is its document's email (so the
      unique index on `email` holds), every document passed validation, and
      the ids are distinct and below the next id to hand out. */
  predicate ValidTable(users: map<string, User>, nextId: UserId) {
    (forall e :: e in users ==> users[e].email == e && ValidUser(users[e]) && users[e].id < nextId) &&
    IdsUnique(users)
  }

  /** Two stored documents under different keys differ in email and in id. */
  lemma EmailsUnique(users: map<string, User>, nextId: UserId, e1: string, e2: string)
    requires ValidTable(users, nextId)
    requires e1 in users && e2 in users && e1 != e2
    ensures users[e1].email != users[e2].email && users[e1].id != users[e2].id
  {
  }

  /** Saving a valid document under its own email keeps the table valid: an
      update keeps its id, an insert takes the next id and advances it. */
  lemma SaveKeepsTable(users: map<string, User>, nextId: UserId, u: User)
    requires ValidTable(users, nextId) && ValidUser(u)
    requires (u.email in users && users[u.email].id == u.id) || (u.email !in users && u.id == nextId)
    ensures ValidTable(users[u.email := u], if u.email in users then nextId else nextId + 1)
  {
    var users' := users[u.email := u];
    forall e1, e2 | e1 in users' && e2 in users' && users'[e1].id == users'[e2].id
      ensures e1 == e2
    {
      if e1 != u.email && e2 != u.email {
        assert users[e1].id == users[e2].id;
      }
    }
  }
}
