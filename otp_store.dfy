/** The `Otp` collection: records `(email, otp, expiresAt)` as created at
    routes/auth.js:41, looked up by email and code at routes/auth.js:77-80 and
    removed per email by `deleteMany` at routes/auth.js:40, 87 and 91. The
    collection is a sequence in insertion order; `expiresAt` is in milliseconds. */
module OtpStore {
  import opened Wrappers

  datatype OtpRecord = OtpRecord(email: string, otp: string, expiresAt: int)

  /** The records held for one email, in insertion order. */
  function RecordsFor(otps: seq<OtpRecord>, email: string): (r: seq<OtpRecord>)
    ensures forall x :: x in r <==> x in otps && x.email == email
    ensures |r| <= |otps|
  {
    if otps == [] then []
    else (if otps[0].email == email then [otps[0]] else []) + RecordsFor(otps[1..], email)
  }

  /** `Otp.deleteMany({ email })`: every record for `email` is gone and every
      other record stays, in its order. */
  function WithoutEmail(otps: seq<OtpRecord>, email: string): (r: seq<OtpRecord>)
    ensures forall x :: x in r <==> x in otps && x.email != email
  {
    if otps == [] then []
    else (if otps[0].email == email then [] else [otps[0]]) + WithoutEmail(otps[1..], email)
  }

  /** `Otp.findOne({ email, otp })`: the first record with that email and code. */
  function FindOtp(otps: seq<OtpRecord>, email: string, code: string): (r: Option<OtpRecord>)
    ensures r.Some? ==> r.value in otps && r.value.email == email && r.value.otp == code
    ensures r.None? <==> forall x :: x in otps ==> !(x.email == email && x.otp == code)
  {
    if otps == [] then None
    else if otps[0].email == email && otps[0].otp == code then Some(otps[0])
    else FindOtp(otps[1..], email, code)
  }

  lemma {:induction false} RecordsForAppend(a: seq<OtpRecord>, b: seq<OtpRecord>, email: string)
    ensures RecordsFor(a + b, email) == RecordsFor(a, email) + RecordsFor(b, email)
  {
    if a == [] {
      assert a + b == b;
    } else {
      assert (a + b)[1..] == a[1..] + b;
      RecordsForAppend(a[1..], b, email);
    }
  }

  /** After `deleteMany({ email })` nothing is held for `email`. */
  lemma {:induction false} NothingLeftFor(otps: seq<OtpRecord>, email: string)
    ensures RecordsFor(WithoutEmail(otps, email), email) == []
  {
    if otps != [] {
      var head := if otps[0].email == email then [] else [otps[0]];
      RecordsForAppend(head, WithoutEmail(otps[1..], email), email);
      NothingLeftFor(otps[1..], email);
    }
  }

  /** Deleting one email's records leaves every other email's records exactly as they were. */
  lemma {:induction false} WithoutEmailKeepsOthers(otps: seq<OtpRecord>, email: string, other: string)
    requires other != email
    ensures RecordsFor(WithoutEmail(otps, email), other) == RecordsFor(otps, other)
  {
    if otps != [] {
      var head := if otps[0].email == email then [] else [otps[0]];
      RecordsForAppend(head, WithoutEmail(otps[1..], email), other);
      WithoutEmailKeepsOthers(otps[1..], email, other);
    }
  }

  /** Issuing a code (delete every record for the email, then insert one) leaves
      exactly the new record for that email and the others' records untouched. */
  lemma ReplaceLeavesOne(otps: seq<OtpRecord>, rec: OtpRecord, other: string)
    ensures RecordsFor(WithoutEmail(otps, rec.email) + [rec], rec.email) == [rec]
    ensures other != rec.email ==>
      RecordsFor(WithoutEmail(otps, rec.email) + [rec], other) == RecordsFor(otps, other)
  {
    RecordsForAppend(WithoutEmail(otps, rec.email), [rec], rec.email);
    NothingLeftFor(otps, rec.email);
    RecordsForAppend(WithoutEmail(otps, rec.email), [rec], other);
    if other != rec.email {
      WithoutEmailKeepsOthers(otps, rec.email, other);
    }
  }

  /** No email occurs in two records: each record's email is absent from the
      records after it. */
  predicate UniqueEmails(otps: seq<OtpRecord>) {
    otps == [] || (RecordsFor(otps[1..], otps[0].email) == [] && UniqueEmails(otps[1..]))
  }

  /** Under `UniqueEmails` every email has at most one record. */
  lemma {:induction false} UniqueEmailsMeaning(otps: seq<OtpRecord>, email: string)
    requires UniqueEmails(otps)
    ensures |RecordsFor(otps, email)| <= 1
  {
    if otps != [] {
      UniqueEmailsMeaning(otps[1..], email);
      assert otps == [otps[0]] + otps[1..];
    }
  }

  /** Deleting one email's records keeps the emails unique. */
  lemma {:induction false} UniqueAfterDelete(otps: seq<OtpRecord>, email: string)
    requires UniqueEmails(otps)
    ensures UniqueEmails(WithoutEmail(otps, email))
  {
    if otps != [] {
      var rest := WithoutEmail(otps[1..], email);
      UniqueAfterDelete(otps[1..], email);
      if otps[0].email == email {
        assert WithoutEmail(otps, email) == rest;
      } else {
        var kept := [otps[0]] + rest;
        assert WithoutEmail(otps, email) == kept;
        WithoutEmailKeepsOthers(otps[1..], email, otps[0].email);
        assert kept[0] == otps[0] && kept[1..] == rest;
      }
    }
  }

  /** Appending a record for an email that has none keeps the emails unique. */
  lemma {:induction false} UniqueAfterAppend(otps: seq<OtpRecord>, rec: OtpRecord)
    requires UniqueEmails(otps) && RecordsFor(otps, rec.email) == []
    ensures UniqueEmails(otps + [rec])
  {
    if otps == [] {
      assert [rec][1..] == [];
    } else {
      assert (otps + [rec])[1..] == otps[1..] + [rec];
      assert otps[0] in otps;
      assert otps[0].email != rec.email;
      UniqueAfterAppend(otps[1..], rec);
      RecordsForAppend(otps[1..], [rec], otps[0].email);
    }
  }

  /** Once an email's records are deleted no code for that email is found:
      a consumed or expired code cannot be used again. */
  lemma ConsumedCodeNotFound(otps: seq<OtpRecord>, email: string, code: string)
    ensures FindOtp(WithoutEmail(otps, email), email, code).None?
  {
  }
}
