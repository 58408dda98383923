/** routes/auth.js: `validateCollegeEmail` and the `/send-otp`, `/verify-otp`,
    `/register` and `/login` handlers over the `User` and `Otp` collections.
    The random draw, the clock and the outcome of sending the mail are
    parameters of the handlers; the password hash function is fixed when the
    server is built. */
module AuthRoutes {
  import opened Wrappers
  import opened JsString
  import opened OtpCode
  import opened OtpStore
  import opened UserModel
  import opened Passport

  const CollegeSuffix: string := "@medicaps.ac.in"

  /** An issued code is valid for five minutes, in milliseconds. */
  const OtpLifetimeMs: int := 5 * 60 * 1000

  /** The HTTP status and the JSON body's `message` (and, for 409, `redirectToLogin`). */
  datatype Response = Response(status: nat, message: string, redirectToLogin: bool)

  function Reply(status: nat, message: string): Response {
    Response(status, message, false)
  }

  /** `validateCollegeEmail`: a missing or empty email is refused; otherwise the
      trimmed, lower-cased email must end with the college domain. The empty
      check is subsumed: an accepted email is present and normalizes to a string
      ending in the suffix. */
  function ValidateCollegeEmail(email: Option<string>): (ok: bool)
    ensures ok <==> email.Some? && EndsWith(Normalize(email.value), CollegeSuffix)
    ensures ok ==> |Normalize(email.value)| >= |CollegeSuffix|
  {
    if !Truthy(email) then false
    else EndsWith(Normalize(email.value), CollegeSuffix)
  }

  /** The check gives the same answer on an email and on its normalized form. */
  lemma {:induction false} ValidationStableUnderNormalization(email: string)
    ensures ValidateCollegeEmail(Some(Normalize(email))) == ValidateCollegeEmail(Some(email))
  {
    NormalizeIdempotent(email);
  }

  /** The domain alone, with nothing before the `@`, is accepted: no check is
      made on the part before the suffix. */
  lemma {:induction false} BareDomainAccepted()
    ensures ValidateCollegeEmail(Some(CollegeSuffix))
  {
    TrimOfTrimmed(CollegeSuffix);
    assert Lower(CollegeSuffix) == CollegeSuffix;
  }

  /** What the `Otp` collection holds between requests: every record is for a
      normalized email in the college domain and carries a six-digit code, and
      no email has more than one record. */
  predicate ValidRecord(r: OtpRecord) {
    IsNormalized(r.email) && EndsWith(r.email, CollegeSuffix) && IsOtpCode(r.otp)
  }

  /** Every record is valid and no email occurs in two records. */
  predicate ValidOtps(otps: seq<OtpRecord>) {
    (forall x :: x in otps ==> ValidRecord(x)) && UniqueEmails(otps)
  }

  /** The invariant means what it is for: every record is valid, and no email
      has more than one record. */
  lemma ValidOtpsMeaning(otps: seq<OtpRecord>, email: string)
    requires ValidOtps(otps)
    ensures forall x :: x in otps ==> ValidRecord(x)
    ensures |RecordsFor(otps, email)| <= 1
  {
    UniqueEmailsMeaning(otps, email);
  }

  /** Deleting an email's records keeps the collection's invariant. */
  lemma ValidOtpsAfterDelete(otps: seq<OtpRecord>, email: string)
    requires ValidOtps(otps)
    ensures ValidOtps(WithoutEmail(otps, email))
  {
    UniqueAfterDelete(otps, email);
  }

  /** Appending a valid record for an email that has none keeps the invariant. */
  lemma ValidOtpsAfterAppend(otps: seq<OtpRecord>, rec: OtpRecord)
    requires ValidOtps(otps) && ValidRecord(rec) && RecordsFor(otps, rec.email) == []
    ensures ValidOtps(otps + [rec])
  {
    UniqueAfterAppend(otps, rec);
  }

  /** Issuing a code for a normalized college email keeps the collection's invariant. */
  lemma {:induction false} ValidOtpsAfterReplace(otps: seq<OtpRecord>, rec: OtpRecord)
    requires ValidOtps(otps) && ValidRecord(rec)
    ensures ValidOtps(WithoutEmail(otps, rec.email) + [rec])
  {
    ValidOtpsAfterDelete(otps, rec.email);
    NothingLeftFor(otps, rec.email);
    ValidOtpsAfterAppend(WithoutEmail(otps, rec.email), rec);
  }

  /** What the lookup of /verify-otp finds: no record with that email and
      code, a record whose expiry lies strictly before `now`, or a live one. */
  datatype OtpCheck = NoMatch | Expired | Accepted

  function CheckOtp(otps: seq<OtpRecord>, clean: string, otp: string, now: int): (c: OtpCheck)
    ensures c == NoMatch <==> forall x :: x in otps ==> !(x.email == clean && x.otp == otp)
    ensures c == Expired ==> exists x :: x in otps && x.email == clean && x.otp == otp && x.expiresAt < now
    ensures c == Accepted ==> exists x :: x in otps && x.email == clean && x.otp == otp && now <= x.expiresAt
  {
    match FindOtp(otps, clean, otp)
    case None => NoMatch
    case Some(record) => if record.expiresAt < now then Expired else Accepted
  }

  /** Expiry is strict: a code is still accepted at the very millisecond its
      record expires, and refused one millisecond later. */
  lemma ExpiryIsStrict(otps: seq<OtpRecord>, clean: string, otp: string)
    requires FindOtp(otps, clean, otp).Some?
    ensures var expiresAt := FindOtp(otps, clean, otp).value.expiresAt;
      CheckOtp(otps, clean, otp, expiresAt) == Accepted &&
      CheckOtp(otps, clean, otp, expiresAt + 1) == Expired
  {
  }

  /** A code matches only records of normalized college emails, so an email
      whose code matched passes `validateCollegeEmail`. */
  lemma ValidMatchIsCollegeEmail(otps: seq<OtpRecord>, email: string, otp: string)
    requires ValidOtps(otps)
    requires FindOtp(otps, Normalize(email), otp).Some?
    ensures ValidateCollegeEmail(Some(email))
  {
    ValidOtpsMeaning(otps, email);
    assert ValidRecord(FindOtp(otps, Normalize(email), otp).value);
  }

  /** The record `/send-otp` inserts for an accepted email satisfies the collection's invariant. */
  lemma IssuedRecordValid(email: Option<string>, draw: nat, now: int)
    requires ValidateCollegeEmail(email) && draw < DrawRange
    ensures ValidRecord(OtpRecord(Normalize(email.value), CodeFor(draw), now + OtpLifetimeMs))
  {
  }

  /** The body of `/register`. */
  datatype RegisterBody = RegisterBody(
    email: Option<string>,
    password: Option<string>,
    role: Option<string>,
    license: Option<string>,
    vehicleNumber: Option<string>,
    vehicleType: Option<string>)

  /** The driver check: all three fields truthy, and the license and vehicle
      number non-blank after trimming (the vehicle type is not trimmed). */
  predicate DriverDetailsGiven(b: RegisterBody) {
    Truthy(b.license) && Truthy(b.vehicleNumber) && Truthy(b.vehicleType) &&
    Trim(b.license.value) != "" && Trim(b.vehicleNumber.value) != ""
  }

  /** The validation `/register` performs before touching the database, in the
      route's order. It lets a body through exactly when the email passes
      `validateCollegeEmail`, password and role are given, and a driver gave
      the driver details; every refusal is a 400. */
  function RegisterInputError(b: RegisterBody): (r: Option<Response>)
    ensures r.None? <==>
      ValidateCollegeEmail(b.email) && Truthy(b.password) && Truthy(b.role) &&
      (b.role.value == Driver ==> DriverDetailsGiven(b))
    ensures r.Some? ==> r.value.status == 400 && !r.value.redirectToLogin
  {
    if !Truthy(b.email) || !Truthy(b.password) || !Truthy(b.role) then
      Some(Reply(400, "Missing required fields"))
    else if !EndsWith(Normalize(b.email.value), CollegeSuffix) then
      Some(Reply(400, "Only Medicaps college email allowed"))
    else if b.role.value == Driver && !DriverDetailsGiven(b) then
      Some(Reply(400, "Driver details are required"))
    else
      None
  }

  /** The refusals come in a fixed order: missing fields before the domain,
      the domain before the driver details. */
  lemma RegisterRejectionOrder(b: RegisterBody)
    ensures !Truthy(b.email) || !Truthy(b.password) || !Truthy(b.role) ==>
      RegisterInputError(b) == Some(Reply(400, "Missing required fields"))
    ensures Truthy(b.email) && Truthy(b.password) && Truthy(b.role) && !ValidateCollegeEmail(b.email) ==>
      RegisterInputError(b) == Some(Reply(400, "Only Medicaps college email allowed"))
    ensures ValidateCollegeEmail(b.email) && Truthy(b.password) && b.role == Some(Driver) && !DriverDetailsGiven(b) ==>
      RegisterInputError(b) == Some(Reply(400, "Driver details are required"))
  {
  }

  /** For any role other than "driver" the driver fields play no part. */
  lemma NonDriverIgnoresDriverFields(b: RegisterBody, license: Option<string>,
                                     vehicleNumber: Option<string>, vehicleType: Option<string>)
    requires b.role.Some? && b.role.value != Driver
    ensures RegisterInputError(b) ==
      RegisterInputError(b.(license := license, vehicleNumber := vehicleNumber, vehicleType := vehicleType))
  {
  }

  /** Any non-empty vehicle type passes, including one of white space only. */
  lemma VehicleTypeOnlyNeedsToBeNonEmpty(b: RegisterBody, vehicleType: string)
    requires vehicleType != ""
    ensures RegisterInputError(b.(vehicleType := Some(vehicleType))) ==
            RegisterInputError(b.(vehicleType := Some("car")))
  {
  }

  /** The object `/register` hands to `new User({...})`: the normalized email,
      the hashed password, the role, and for a driver the trimmed license
      (under the key `license`), the trimmed vehicle number and the vehicle type. */
  function RegistrationFields(b: RegisterBody, hash: string -> string): UserFields
    requires b.email.Some? && b.password.Some? && b.role.Some?
    requires b.role.value == Driver ==> DriverDetailsGiven(b)
  {
    var driver := b.role.value == Driver;
    UserFields(
      Normalize(b.email.value), Some(hash(b.password.value)), b.role, None,
      if driver then Some(Trim(b.license.value)) else None,
      None,
      if driver then Some(Trim(b.vehicleNumber.value)) else None,
      if driver then b.vehicleType else None)
  }

  /** The document a registration builds: unverified, keyed by the normalized
      email, holding the hash of the password and the given role; a driver's
      vehicle number is trimmed and the vehicle type kept as given; the license
      never reaches `licenseNumber`; a rider has no driver fields. */
  lemma RegisteredUserShape(b: RegisterBody, hash: string -> string, id: UserId)
    requires RegisterInputError(b).None?
    ensures var u := NewUser(id, RegistrationFields(b, hash));
      u.id == id && u.email == Normalize(b.email.value) && u.password == Some(hash(b.password.value)) &&
      u.role == b.role && !u.isVerified && u.licenseNumber.None? &&
      (b.role.value == Driver ==>
        u.vehicleNumber == Some(Trim(b.vehicleNumber.value)) && Trim(b.vehicleNumber.value) != "" &&
        u.vehicleType == b.vehicleType) &&
      (b.role.value != Driver ==> u.vehicleNumber.None? && u.vehicleType.None?)
  {
  }

  /** Saving the registration document succeeds exactly when the role is one
      of the schema's values and the hash is non-empty; a role such as "admin"
      passes the route's checks and is refused by the schema. */
  lemma RegistrationSavedIff(b: RegisterBody, hash: string -> string, id: UserId)
    requires RegisterInputError(b).None?
    ensures ValidUser(NewUser(id, RegistrationFields(b, hash))) <==>
      (b.role == Some(Driver) || b.role == Some(Rider)) && hash(b.password.value) != ""
  {
    assert EndsWith(Normalize(b.email.value), CollegeSuffix);
  }

  /** The document `/verify-otp` builds when no user exists yet: only the
      email and `isVerified: true`. */
  function PlaceholderFields(email: string): UserFields {
    UserFields(email, None, None, Some(true), None, None, None, None)
  }

  /** That document lacks the required password and role, so `save` always refuses it. */
  lemma PlaceholderNeverSaved(id: UserId, email: string)
    ensures !ValidUser(NewUser(id, PlaceholderFields(email)))
    ensures NewUser(id, PlaceholderFields(email)).isVerified
  {
  }

  /** The server's two collections. */
  class AuthServer {
    var users: map<string, User>
    var otps: seq<OtpRecord>
    var nextId: UserId
    const hash: string -> string

    ghost predicate Valid()
      reads this
    {
      ValidTable(users, nextId) && ValidOtps(otps)
    }

    constructor (hash: string -> string)
      ensures Valid() && this.hash == hash
      ensures users == map[] && otps == []
    {
      users, otps, nextId := map[], [], 0;
      this.hash := hash;
    }

    /** `document.save()`: the schema's validators run; a valid document is
        written, replacing the stored document with its id or inserting a new
        one under the next id; an invalid one is refused and nothing changes. */
    method Save(u: User) returns (saved: bool)
      requires Valid()
      requires (u.email in users && users[u.email].id == u.id) || (u.email !in users && u.id == nextId)
      modifies this
      ensures Valid() && otps == old(otps)
      ensures saved <==> ValidUser(u)
      ensures saved ==>
        users == old(users)[u.email := u] &&
        nextId == (if u.email in old(users) then old(nextId) else old(nextId) + 1)
      ensures !saved ==> users == old(users) && nextId == old(nextId)
    {
      saved := ValidUser(u);
      if saved {
        SaveKeepsTable(users, nextId, u);
        if u.email !in users {
          nextId := nextId + 1;
        }
        users := users[u.email := u];
      }
    }

    /** `Otp.deleteMany({ email })`. */
    method DeleteOtps(email: string)
      requires Valid()
      modifies this
      ensures Valid() && users == old(users) && nextId == old(nextId)
      ensures otps == WithoutEmail(old(otps), email)
    {
      ValidOtpsAfterDelete(otps, email);
      otps := WithoutEmail(otps, email);
    }

    /** `Otp.deleteMany({ email })` then `Otp.create(record)`: afterwards the
        new record is the only one for its email. */
    method ReplaceOtp(rec: OtpRecord)
      requires Valid() && ValidRecord(rec)
      modifies this
      ensures Valid() && users == old(users) && nextId == old(nextId)
      ensures otps == WithoutEmail(old(otps), rec.email) + [rec]
      ensures RecordsFor(otps, rec.email) == [rec]
    {
      ValidOtpsAfterReplace(otps, rec);
      ReplaceLeavesOne(otps, rec, rec.email);
      otps := WithoutEmail(otps, rec.email) + [rec];
    }

    /** POST /send-otp. */
    method SendOtp(email: Option<string>, draw: nat, now: int, mailSent: bool) returns (resp: Response)
      requires Valid()
      requires draw < DrawRange
      modifies this
      ensures Valid()
      ensures users == old(users) && nextId == old(nextId)
      ensures !ValidateCollegeEmail(email) ==>
        resp == Reply(400, "Only Medicaps college email allowed") && otps == old(otps)
      ensures ValidateCollegeEmail(email) ==>
        var rec := OtpRecord(Normalize(email.value), CodeFor(draw), now + OtpLifetimeMs);
        otps == WithoutEmail(old(otps), rec.email) + [rec] &&
        RecordsFor(otps, rec.email) == [rec] &&
        resp == (if mailSent then Reply(200, "OTP sent successfully") else Reply(500, "Failed to send OTP"))
    {
      if ValidateCollegeEmail(email) {
        var clean := Normalize(email.value);
        var rec := OtpRecord(clean, CodeFor(draw), now + OtpLifetimeMs);
        IssuedRecordValid(email, draw, now);
        ReplaceOtp(rec);
        // the mail is sent after the record is stored; a failure leaves it stored
        resp := if mailSent then Reply(200, "OTP sent successfully") else Reply(500, "Failed to send OTP");
      } else {
        resp := Reply(400, "Only Medicaps college email allowed");
      }
    }

    /** The last step of /verify-otp: the stored user is marked verified and
        saved; without one, a placeholder holding only the email and
        `isVerified: true` is built and saved, which the schema refuses. */
    method MarkVerified(clean: string) returns (saved: bool)
      requires Valid()
      modifies this
      ensures Valid() && otps == old(otps) && nextId == old(nextId)
      ensures saved <==> clean in old(users)
      ensures saved ==> users == old(users)[clean := old(users)[clean].(isVerified := true)]
      ensures !saved ==> users == old(users)
    {
      if clean in users {
        saved := Save(users[clean].(isVerified := true));
      } else {
        PlaceholderNeverSaved(nextId, clean);
        saved := Save(NewUser(nextId, PlaceholderFields(clean)));
      }
    }

    /** POST /verify-otp. A missing email makes `email.trim()` throw, which the
        handler turns into a 500. A matched code, expired or not, consumes every
        record for the email. */
    method VerifyOtp(email: Option<string>, otp: string, now: int) returns (resp: Response)
      requires Valid()
      modifies this
      ensures Valid() && nextId == old(nextId)
      ensures email.None? ==>
        resp == Reply(500, "Verification failed") && users == old(users) && otps == old(otps)
      ensures email.Some? && CheckOtp(old(otps), Normalize(email.value), otp, now) == NoMatch ==>
        resp == Reply(400, "Invalid OTP") && users == old(users) && otps == old(otps)
      ensures email.Some? && CheckOtp(old(otps), Normalize(email.value), otp, now) != NoMatch ==>
        otps == WithoutEmail(old(otps), Normalize(email.value))
      ensures email.Some? && CheckOtp(old(otps), Normalize(email.value), otp, now) == Expired ==>
        resp == Reply(400, "OTP expired") && users == old(users)
      ensures email.Some? && CheckOtp(old(otps), Normalize(email.value), otp, now) == Accepted ==>
        var clean := Normalize(email.value);
        if clean in old(users) then
          resp == Reply(200, "OTP verified successfully") &&
          users == old(users)[clean := old(users)[clean].(isVerified := true)]
        else
          resp == Reply(500, "Verification failed") && users == old(users)
      ensures resp.status == 200 ==>
        ValidateCollegeEmail(email) && FindOtp(otps, Normalize(email.value), otp).None?
    {
      if email.None? {
        return Reply(500, "Verification failed");
      }
      var clean := Normalize(email.value);
      var check := CheckOtp(otps, clean, otp, now);
      if check == NoMatch {
        return Reply(400, "Invalid OTP");
      }
      ValidMatchIsCollegeEmail(otps, email.value, otp);
      DeleteOtps(clean);
      if check == Expired {
        return Reply(400, "OTP expired");
      }
      ConsumedCodeNotFound(old(otps), clean, otp);
      var saved := MarkVerified(clean);
      if !saved {
        return Reply(500, "Verification failed");
      }
      resp := Reply(200, "OTP verified successfully");
    }

    /** POST /register. */
    method Register(b: RegisterBody) returns (resp: Response)
      requires Valid()
      modifies this
      ensures Valid() && otps == old(otps)
      ensures RegisterInputError(b).Some? ==>
        resp == RegisterInputError(b).value && users == old(users) && nextId == old(nextId)
      ensures RegisterInputError(b).None? && Normalize(b.email.value) in old(users) ==>
        resp == Response(409, "User already exists", true) && users == old(users) && nextId == old(nextId)
      ensures RegisterInputError(b).None? && Normalize(b.email.value) !in old(users) ==>
        var u := NewUser(old(nextId), RegistrationFields(b, hash));
        (ValidUser(u) ==>
          resp == Reply(200, "User registered successfully") &&
          users == old(users)[u.email := u] && nextId == old(nextId) + 1) &&
        (!ValidUser(u) ==>
          resp == Reply(500, "Server error during registration") && users == old(users) && nextId == old(nextId))
    {
      var error := RegisterInputError(b);
      if error.Some? {
        return error.value;
      }
      var clean := Normalize(b.email.value);
      if clean in users {
        return Response(409, "User already exists", true);
      }
      var saved := Save(NewUser(nextId, RegistrationFields(b, hash)));
      if !saved {
        return Reply(500, "Server error during registration");
      }
      resp := Reply(200, "User registered successfully");
    }

    /** POST /login: the strategy's decision; a refusal is a 401 carrying its
        message, a success establishes a session holding the serialized user. */
    method Login(email: Option<string>, password: Option<string>) returns (resp: Response, session: Option<UserId>)
      requires Valid()
      ensures var result := Authenticate(users, hash, email, password);
        (result.Authenticated? ==>
          resp == Reply(200, "Logged in successfully") && session == Some(SerializeUser(result.user))) &&
        (result.Rejected? ==>
          resp == Reply(401, if result.message == "" then "Invalid credentials" else result.message) &&
          session.None?)
      ensures session.Some? ==>
        Normalize(email.value) in users && users[Normalize(email.value)].isVerified &&
        DeserializeUser(users, session.value) == Some(users[Normalize(email.value)])
    {
      var result := Authenticate(users, hash, email, password);
      if result.Rejected? {
        var message := if result.message == "" then "Invalid credentials" else result.message;
        return Reply(401, message), None;
      }
      resp, session := Reply(200, "Logged in successfully"), Some(SerializeUser(result.user));
    }
  }

  /** Verifying before registering, as the routes are written: the
      verification consumes the code and fails with a 500 because the
      placeholder user cannot be saved, the same code is then unknown, and the
      user registered afterwards is unverified and cannot log in. */
  method VerifyBeforeRegistering(hash: string -> string, draw: nat, now: int) returns (replies: seq<Response>)
    requires draw < DrawRange
    requires hash("secret") != ""
    ensures replies == [
      Reply(200, "OTP sent successfully"),
      Reply(500, "Verification failed"),
      Reply(400, "Invalid OTP"),
      Reply(200, "User registered successfully"),
      Reply(401, "Email not verified")]
  {
    var server := new AuthServer(hash);
    var email := StudentEmail;
    StudentEmailNormalized();
    var body := RegisterBody(Some(email), Some("secret"), Some(Rider), None, None, None);
    RegistrationSavedIff(body, hash, 0);
    var r1 := server.SendOtp(Some(email), draw, now, true);
    var r2 := server.VerifyOtp(Some(email), CodeFor(draw), now + OtpLifetimeMs);
    var r3 := server.VerifyOtp(Some(email), CodeFor(draw), now + OtpLifetimeMs);
    var r4 := server.Register(body);
    var r5, _ := server.Login(Some(email), Some("secret"));
    replies := [r1, r2, r3, r4, r5];
  }

  /** Registering first, then verifying a code no later than its expiry, lets
      the user log in. */
  method VerifyAfterRegistering(hash: string -> string, draw: nat, now: int) returns (replies: seq<Response>)
    requires draw < DrawRange
    requires hash("secret") != ""
    ensures replies == [
      Reply(200, "User registered successfully"),
      Reply(200, "OTP sent successfully"),
      Reply(200, "OTP verified successfully"),
      Reply(200, "Logged in successfully")]
  {
    var server := new AuthServer(hash);
    var email := StudentEmail;
    StudentEmailNormalized();
    var body := RegisterBody(Some(email), Some("secret"), Some(Rider), None, None, None);
    RegistrationSavedIff(body, hash, 0);
    var r1 := server.Register(body);
    var r2 := server.SendOtp(Some(email), draw, now, true);
    var r3 := server.VerifyOtp(Some(email), CodeFor(draw), now + OtpLifetimeMs);
    var r4, _ := server.Login(Some(email), Some("secret"));
    replies := [r1, r2, r3, r4];
  }

  /** The address the scenarios use. */
  const StudentEmail: string := "a" + CollegeSuffix

  /** A lower-case college email without white space is its own normal form and is accepted. */
  lemma {:induction false} StudentEmailNormalized()
    ensures Normalize(StudentEmail) == StudentEmail && ValidateCollegeEmail(Some(StudentEmail))
  {
    TrimOfTrimmed(StudentEmail);
    assert Lower(StudentEmail) == StudentEmail;
  }
}
