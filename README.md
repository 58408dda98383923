# UniLift authentication core in Dafny

A model of the authentication core of the UniLift backend: it covers college-email validation, the OTP (one-time code) lifecycle, registration and login.

The model covers:

- `validateCollegeEmail` and the `/send-otp`, `/verify-otp`, `/register` and `/login` handlers of `routes/auth.js`;
- the LocalStrategy verify callback and the session `serializeUser` / `deserializeUser` of `config/passport.js`;
- the `User` schema of `models/User.js`.

The two Mongo collections are the state of one `AuthServer` object:

- `users`, a map from normalized email to document;
- `otps`, a sequence of `(email, otp, expiresAt)` records.

Each handler is a method that changes those fields as the route does. It returns the HTTP status and message the route sends.

Files:

- `wrappers.dfy`: `Option`.
- `js_string.dfy`: `trim`, `toLowerCase`, `endsWith`, and the truthiness of a request field.
- `otp_code.dfy`: the six-digit code `Math.floor(100000 + Math.random() * 900000).toString()`.
- `otp_store.dfy`: `Otp.findOne` and `Otp.deleteMany` over the record sequence.
- `user_model.dfy`: the schema, `new User({...})` under strict mode, the validators that `save` runs, and the table invariant.
- `passport.dfy`: the verify callback and the session round trip.
- `auth_routes.dfy`: email validation, registration checks, the OTP collection invariant, the `AuthServer` class and two end-to-end request sequences.

External inputs become parameters:

- `Math.random()` becomes a draw `draw < 900000`.
- `Date.now()` becomes `now`, in milliseconds.
- The outcome of `transporter.sendMail` becomes `mailSent`.
- `bcrypt.hash` is a function `hash` fixed when the server is built. `bcrypt.compare(p, h)` holds exactly when `h == hash(p)`.

Both collections keep an invariant, and every handler preserves it (`AuthServer.Valid`):

- Every stored user passes the schema validators and is stored under its own email. Ids are distinct.
- Every OTP record belongs to a normalized college email and carries a six-digit code. No email has more than one record.

Two behaviours of the code are reproduced as written:

- **Verifying before registering fails.** `/verify-otp` with no stored user builds a placeholder from just the email and `isVerified: true`. That document lacks the required `password` and `role`, so `save` throws. The request ends in a 500 "Verification failed", but the OTP records were already deleted. `AuthRoutes.VerifyBeforeRegistering` proves the whole sequence:
  1. send: 200;
  2. verify: 500;
  3. the same code again: 400 "Invalid OTP";
  4. register: 200;
  5. login: 401 "Email not verified".

  `AuthRoutes.VerifyAfterRegistering` proves the order that works: register, send, verify, then log in.
- **The license is never stored.** `/register` writes the driver's license under the key `license`, but the schema declares `licenseNumber`. Strict mode drops the unknown key, so a registered driver's `licenseNumber` is always absent.

Further facts about `routes/auth.js` that the model keeps:

- `/register` answers a success with 200 (`res.json`, routes/auth.js:182-184).
- The OTP is stored in clear and compared by string equality in the `findOne` filter (routes/auth.js:41, 77-80).
- A record is reported "expired" only when the submitted code matches it. A wrong code is always "Invalid OTP", and a matching code consumes the email's records whether it expired or not.
- The routes have no rate limiting and no approve-driver route. The schema has no ban, approval or admin flags.
- Login tells "User not found" apart from "Invalid password" (config/passport.js:22-34).

## Model

| member | source | states |
|---|---|---|
| JsString.Trim | routes/auth.js:17 | `trim` leaves no white space at either end and never lengthens the string; `TrimDropsEdgeSpace` and `TrimUnique` fix the result exactly |
| JsString.TrimDropsEdgeSpace | routes/auth.js:17 | `trim` returns the slice of the input left after dropping exactly its leading and trailing white space: only white space lies around it, and it has none at either end |
| JsString.TrimUnique | routes/auth.js:17 | any slice of the input with only white space around it and none at its own ends is the result of `trim`, so that property determines `trim` |
| JsString.TrimIdempotent | routes/auth.js:17 | trimming an already trimmed string changes nothing |
| JsString.LowerChar | routes/auth.js:17 | `toLowerCase` on one character maps each capital A-Z to its own lower-case letter and leaves every other character unchanged; it never yields a capital |
| JsString.Lower | routes/auth.js:17 | `toLowerCase` keeps the length and lower-cases character by character |
| JsString.Normalize | routes/auth.js:17 | `trim().toLowerCase()` is the trimmed string lower-cased character by character; the result has no white space at either end and no capital |
| JsString.NormalizedIffFixedPoint | routes/auth.js:17 | the strings without white space at either end and without a capital are exactly those that `trim().toLowerCase()` leaves unchanged |
| JsString.Truthy | routes/auth.js:16 | `!email` is false exactly for a present, non-empty string |
| JsString.EndsWith | routes/auth.js:18 | `endsWith(suffix)`: the last `suffix.length` characters are the suffix |
| JsString.NormalizeIdempotent | routes/auth.js:35 | normalizing a normalized email changes nothing, so `cleanEmail` is a fixed point of the normalization |
| AuthRoutes.ValidateCollegeEmail | routes/auth.js:15-19 | accepted exactly when the email is present and its trimmed, lower-cased form ends with "@medicaps.ac.in"; an empty email is refused |
| AuthRoutes.ValidationStableUnderNormalization | routes/auth.js:15-19 | the check answers the same on an email and on its normalized form |
| AuthRoutes.BareDomainAccepted | routes/auth.js:18 | the suffix alone, with nothing before the `@`, is accepted |
| OtpCode.DecimalString | routes/auth.js:37 | `toString()` of a non-negative integer is a non-empty string of decimal digits |
| OtpCode.DecimalRoundTrip | routes/auth.js:37 | reading back the decimal string gives the integer |
| OtpCode.DecimalLength | routes/auth.js:37 | a k-digit integer prints as exactly k characters with no leading '0' |
| OtpCode.CodeFor | routes/auth.js:37 | every code is six digits without a leading zero and denotes 100000 + draw, i.e. a value in 100000..999999 |
| OtpCode.CodeForInjective | routes/auth.js:37 | distinct draws give distinct codes |
| OtpStore.WithoutEmail | routes/auth.js:40 | `deleteMany({ email })` keeps exactly the records of other emails |
| OtpStore.NothingLeftFor | routes/auth.js:40 | after `deleteMany({ email })` no record for that email remains |
| OtpStore.WithoutEmailKeepsOthers | routes/auth.js:40 | `deleteMany({ email })` leaves every other email's records unchanged, in order |
| OtpStore.ReplaceLeavesOne | routes/auth.js:40-41 | delete then create leaves exactly the new record for the email and other emails' records unchanged |
| OtpStore.FindOtp | routes/auth.js:77-80 | `findOne({ email, otp })` returns a stored record with that email and code, and nothing exactly when no such record exists |
| OtpStore.UniqueEmailsMeaning | routes/auth.js:40-41 | when no record's email recurs later in the collection, every email has at most one record |
| OtpStore.UniqueAfterDelete | routes/auth.js:40 | `deleteMany({ email })` keeps every email at most once |
| OtpStore.UniqueAfterAppend | routes/auth.js:41 | creating a record for an email that has none keeps every email at most once |
| OtpStore.ConsumedCodeNotFound | routes/auth.js:87-91 | once an email's records are deleted, no code for it is found again |
| AuthRoutes.ValidOtpsMeaning | routes/auth.js:40-41 | the OTP collection invariant means every record is valid and no email holds more than one record |
| AuthRoutes.ValidOtpsAfterDelete | routes/auth.js:87 | deleting an email's records keeps the OTP collection invariant |
| AuthRoutes.ValidOtpsAfterAppend | routes/auth.js:41 | creating a valid record for an email that has none keeps the invariant |
| AuthRoutes.ValidOtpsAfterReplace | routes/auth.js:40-41 | delete-then-create of a valid record keeps the invariant |
| AuthRoutes.IssuedRecordValid | routes/auth.js:35-41 | the record send-otp creates for an accepted email is for a normalized college email and carries a six-digit code |
| AuthRoutes.CheckOtp | routes/auth.js:77-89 | no matching record exactly when no record has that email and code; "expired" only for a match whose `expiresAt` is strictly before now, "accepted" only for one that is not |
| AuthRoutes.ExpiryIsStrict | routes/auth.js:86 | a code is accepted at the very millisecond of `expiresAt` and expired one millisecond later |
| AuthRoutes.ValidMatchIsCollegeEmail | routes/auth.js:77-84 | a code can only match for an email that passes `validateCollegeEmail` |
| AuthRoutes.DriverDetailsGiven | routes/auth.js:148-153 | the driver check: license, vehicle number and vehicle type all present and non-empty, and license and vehicle number still non-empty after `trim` |
| AuthRoutes.RegisterInputError | routes/auth.js:133-159 | the body passes the route's checks exactly when email, password and role are given, the email is a college email, and a driver gave the driver details; every refusal is a 400 |
| AuthRoutes.RegisterRejectionOrder | routes/auth.js:133-159 | missing fields are reported before a wrong domain, and a wrong domain before missing driver details |
| AuthRoutes.NonDriverIgnoresDriverFields | routes/auth.js:147-159 | for any role other than "driver" the license, vehicle number and vehicle type do not affect the outcome |
| AuthRoutes.VehicleTypeOnlyNeedsToBeNonEmpty | routes/auth.js:148-154 | any non-empty vehicle type passes, white space only included, since only license and vehicle number are trimmed |
| AuthRoutes.RegisteredUserShape | routes/auth.js:169-178 | the new document has the normalized email, hash(password), the given role, `isVerified` false and no `licenseNumber`; for a driver, the trimmed vehicle number and the vehicle type as given; no driver fields for any other role |
| AuthRoutes.RegistrationSavedIff | routes/auth.js:169-180 | after the route's checks, `save` succeeds exactly when the role is "driver" or "rider" and the hash is non-empty |
| AuthRoutes.RegistrationFields | routes/auth.js:171-178 | the object `/register` hands to `new User`: normalized email, hashed password, role, and for a driver the trimmed license under `license`, the trimmed vehicle number and the vehicle type |
| AuthRoutes.PlaceholderFields | routes/auth.js:97-100 | the object `/verify-otp` hands to `new User` without a stored user: only the email and `isVerified: true` |
| AuthRoutes.PlaceholderNeverSaved | routes/auth.js:96-100 | the placeholder verify-otp builds is marked verified but always fails validation |
| AuthRoutes.AuthServer.Save | routes/auth.js:105 | `save` writes the document exactly when it passes the validators, updating in place or inserting under a fresh id; the table invariant is kept |
| AuthRoutes.AuthServer.DeleteOtps | routes/auth.js:87 | `deleteMany` leaves the users untouched and the OTP collection without the email's records, invariant kept |
| AuthRoutes.AuthServer.ReplaceOtp | routes/auth.js:40-41 | delete-then-create leaves exactly the new record for the email, invariant kept |
| AuthRoutes.AuthServer.SendOtp | routes/auth.js:25-66 | a refused email is a 400 with both collections unchanged; otherwise the email holds exactly the new record expiring 300000 ms after now, users unchanged, and the reply is 200 or, when mail fails, 500 with the record still stored |
| AuthRoutes.AuthServer.MarkVerified | routes/auth.js:94-105 | an existing user is saved with `isVerified` set and nothing else changed; without one the save fails and nothing changes |
| AuthRoutes.AuthServer.VerifyOtp | routes/auth.js:71-111 | missing email is a 500 and no match a 400 "Invalid OTP", both changing nothing; any match deletes the email's records; expired is a 400 with users unchanged; accepted sets `isVerified` on the existing user (200) or, with no user, a 500; after a 200 the same code is not found again |
| AuthRoutes.AuthServer.Register | routes/auth.js:120-192 | input refusals change nothing; an existing email is 409 with `redirectToLogin`; otherwise the new document is inserted under a fresh id (200) when it passes the validators and nothing changes (500) when not |
| AuthRoutes.AuthServer.Login | routes/auth.js:198-219 | a refusal is a 401 carrying the strategy's message and no session; a success is a 200 whose session deserializes to the verified user stored under the normalized email |
| AuthRoutes.VerifyBeforeRegistering | routes/auth.js:25-219 | send, verify, verify again, register, log in answer 200, 500, 400 "Invalid OTP", 200, 401 "Email not verified" |
| AuthRoutes.VerifyAfterRegistering | routes/auth.js:25-219 | register, send, verify before expiry, log in all answer 200 |
| Passport.Authenticate | config/passport.js:12-40 | login succeeds exactly when both fields are given and the user under the normalized email exists, has a password that matches and is verified; the user returned is that stored user |
| Passport.PasswordMatches | config/passport.js:30 | `bcrypt.compare(password, stored)` holds exactly when `stored` is the hash of `password` |
| Passport.MissingFieldsRejectedFirst | config/passport.js:14-16 | a missing or empty email or password is "All fields required", whatever is stored |
| Passport.UnknownUserRejected | config/passport.js:18-24 | an email whose normalized form is not stored is "User not found" |
| Passport.LookupIgnoresCaseAndSpace | config/passport.js:14-20 | when the normalized email is non-empty, submitting it gives the same decision as the email as typed (an email of white space only is "User not found" as typed but "All fields required" once normalized) |
| Passport.BlankEmailNotNormalized | config/passport.js:14-23 | an email of white space only is "User not found" as typed and "All fields required" once normalized |
| Passport.NoPasswordRejectedBeforeCompare | config/passport.js:26-30 | a stored user without a password is "Please register first" whatever password is submitted |
| Passport.WrongPasswordBeforeVerification | config/passport.js:30-38 | a wrong password is "Invalid password" even for an unverified user |
| Passport.UnverifiedRejected | config/passport.js:36-38 | the right password for an unverified user is "Email not verified" |
| Passport.ValidTableNeverAsksToRegister | config/passport.js:26-28 | over a table of valid documents "Please register first" never occurs |
| Passport.SerializeUser | config/passport.js:48-50 | the session keeps the user's id |
| Passport.DeserializeUser | config/passport.js:52-59 | `findById` yields the stored user with that id, and nothing exactly when no stored user has it |
| Passport.SessionRoundTrip | config/passport.js:48-59 | deserializing a serialized user yields the user stored under that id while it is stored, and nothing once it is gone |
| UserModel.NewUser | models/User.js:18-26 | `new User` keeps the email, `isVerified` defaults to false when not given, and `licenseNumber` is taken only from `licenseNumber` |
| UserModel.LicenseKeyDiscarded | models/User.js:24-26 | the `license` key has no effect on the document built |
| UserModel.ValidUser | models/User.js:4-17 | the validators `save` runs: non-empty email, a non-empty password, and role "driver" or "rider" |
| UserModel.ValidTable | models/User.js:4-8 | the collection: each document stored under its own email (the unique index), valid, with distinct ids below the next id |
| UserModel.ValidUserShape | models/User.js:9-32 | a valid document has a password and role "driver" or "rider", whatever driver-only fields it has or lacks |
| UserModel.EmailsUnique | models/User.js:4-8 | two stored documents under different keys differ in email and in id |
| UserModel.SaveKeepsTable | models/User.js:4-17 | saving a valid document under its own email keeps the table invariant (unique emails and ids, valid documents) |

## Left out

- server.js is not part of this model: the Express wiring, CORS, the session cookie settings, the Mongo connection and `/api/protected`.
- `/logout` and the session store: session storage and cookies belong to express-session and Passport. The model keeps only the serialized id a login hands to the session.
- nodemailer: the transport and the message are I/O. Only whether `sendMail` succeeded is kept, as `mailSent`.
- bcrypt internals: salting and cost are not modelled. The hash is a fixed function, and a comparison is equality with it.
- `Math.random` and `Date`: the floating-point draw is replaced by its integer part `draw`, and the clock by `now` in milliseconds.
- The schema's `timestamps` (`createdAt`, `updatedAt`) are not modelled.
- Request fields that are not strings (numbers, objects) are not modelled: every field is a string or absent.
- A missing `otp` field in `/verify-otp` is not modelled, because the Mongo query semantics for an undefined filter value are outside the code. `otp` is always a string.
- Store and connection failures are not modelled, because those are database I/O. Among the store operations, only a failing `save` validation is modelled.
- models/Otp.js is not part of this model. The record shape `(email, otp, expiresAt)` is taken from how routes/auth.js:40-41 and 77-80 create and query it. Any validators of that schema, and any expiry (TTL) index on `expiresAt`, are not modelled. If such an index removed expired records, a late code would get "Invalid OTP" instead of "OTP expired".
- The race between `deleteMany` and `create`, and concurrent registrations, are not modelled: requests are modelled one at a time.
- The full `user` document in the login response body is not modelled; the reply is reduced to status and message.
- AuthRoutes.AuthServer.Login: the strategy's `err` branch (500 "Server error") and a failing `req.logIn` (500 "Login failed") are not modelled, because both come only from the store or the session store.
- AuthRoutes.AuthServer.Login: passport-local's own check for a missing username or password field is not modelled. That check answers "Missing credentials" before the verify callback runs. The model sends every request to the verify callback, which answers "All fields required".
- JsString.LowerChar: `toLowerCase` is modelled on the ASCII letters only. Other letters are left unchanged, so a non-ASCII capital in an email normalizes differently than in JavaScript.
