/** Kiosk sign-in of backend/app/routes/patient_routes.py: `authenticate_patient`
    (SSN lookup plus phone check) and `checkin` (sets the check-in flag once).
    Both routes answer with a bare JSON object `{"error": ...}` or
    `{"message": ...}` and a status code, not with the response envelope. */
module Patients {
  import opened Wrappers
  import opened Models
  import Phone
  import Text

  const MULTIPLE: string := "Multiple users found with the same SSN"
  const NOT_REGISTERED: string := "User not registered"
  const WRONG_PHONE: string := "Incorrect phone number associated with ssn"
  const AUTHENTICATED: string := "Authenticated"
  const ALREADY_CHECKED_IN: string := "User already checked in"

  /** A reply `{"error": text}` (when `error`) or `{"message": text}`, with its status code. */
  datatype Answer = Answer(code: int, error: bool, text: string)

  /** `User.query.filter_by(ssn=...).all()` from index `k` on: the indices of
      the users holding `ssn`, in storage order. */
  function Matches(users: seq<User>, ssn: string, k: nat): (r: seq<nat>)
    requires k <= |users|
    ensures forall j :: 0 <= j < |r| ==> k <= r[j] < |users| && users[r[j]].ssn == ssn
    ensures forall i :: k <= i < |users| && users[i].ssn == ssn ==> i in r
    ensures forall a, b :: 0 <= a < b < |r| ==> r[a] < r[b]
    decreases |users| - k
  {
    if k == |users| then []
    else if users[k].ssn == ssn then [k] + Matches(users, ssn, k + 1)
    else Matches(users, ssn, k + 1)
  }

  /** The lookup depends on SSNs only: it is unchanged by any edit that keeps every SSN. */
  lemma {:induction false} MatchesSameSsns(users: seq<User>, users': seq<User>, ssn: string, k: nat)
    requires |users'| == |users| && k <= |users|
    requires forall i :: 0 <= i < |users| ==> users'[i].ssn == users[i].ssn
    ensures Matches(users', ssn, k) == Matches(users, ssn, k)
    decreases |users| - k
  {
    if k < |users| {
      MatchesSameSsns(users, users', ssn, k + 1);
    }
  }

  /** Under the unique constraint on `ssn` the lookup finds at most one user,
      and finds user `i` exactly when `i` holds the SSN: the "multiple users"
      branches of both routes are unreachable in a consistent store. */
  lemma UniqueSsnMatch(users: seq<User>, ssn: string)
    requires UniqueUserSsns(users)
    ensures |Matches(users, ssn, 0)| <= 1
    ensures forall i :: 0 <= i < |users| ==> (Matches(users, ssn, 0) == [i] <==> users[i].ssn == ssn)
  {
    AtMostOneMatch(users, ssn, 0);
    var m := Matches(users, ssn, 0);
    forall i | 0 <= i < |users| && users[i].ssn == ssn
      ensures m == [i]
    {
      assert i in m;
      assert m[0] == i;
    }
    assert forall i :: 0 <= i < |users| && m == [i] ==> users[i].ssn == ssn;
  }

  /** A lookup finds nothing exactly when nobody from `k` on holds the SSN. */
  lemma {:induction false} NoMatches(users: seq<User>, ssn: string, k: nat)
    requires k <= |users|
    requires forall i :: k <= i < |users| ==> users[i].ssn != ssn
    ensures Matches(users, ssn, k) == []
    decreases |users| - k
  {
    if k < |users| {
      NoMatches(users, ssn, k + 1);
    }
  }

  lemma {:induction false} AtMostOneMatch(users: seq<User>, ssn: string, k: nat)
    requires UniqueUserSsns(users) && k <= |users|
    ensures |Matches(users, ssn, k)| <= 1
    decreases |users| - k
  {
    if k < |users| {
      AtMostOneMatch(users, ssn, k + 1);
      if users[k].ssn == ssn {
        NoMatches(users, ssn, k + 1);
      }
    }
  }

  /** `authenticate_patient`: more than one user with the SSN is a server error,
      none is "not registered", and otherwise the payload phone, normalised by
      `parse_phone_number`, must equal the stored phone column. An unparseable
      phone normalises to `None`, which a user whose phone column is `NULL`
      matches. The store is not changed. */
  function Authenticate(users: seq<User>, ssn: string, phone: string): (r: Answer)
    ensures r.code in {200, 400, 500} && (r.error <==> r.code != 200)
    ensures r.code == 500 <==> |Matches(users, ssn, 0)| > 1
    ensures r.text == NOT_REGISTERED <==> forall i :: 0 <= i < |users| ==> users[i].ssn != ssn
    ensures r.code == 200 <==>
      Matches(users, ssn, 0) != [] && |Matches(users, ssn, 0)| == 1 &&
      users[Matches(users, ssn, 0)[0]].phone == Phone.ParsePhone(phone)
    ensures r.code == 200 ==> r.text == AUTHENTICATED
    ensures r.code == 500 ==> r.text == MULTIPLE
    ensures |Matches(users, ssn, 0)| == 1 && users[Matches(users, ssn, 0)[0]].phone != Phone.ParsePhone(phone) ==>
      r == Answer(400, true, WRONG_PHONE)
  {
    var m := Matches(users, ssn, 0);
    if |m| > 1 then Answer(500, true, MULTIPLE)
    else if |m| == 0 then Answer(400, true, NOT_REGISTERED)
    else if Phone.ParsePhone(phone) != users[m[0]].phone then Answer(400, true, WRONG_PHONE)
    else Answer(200, false, AUTHENTICATED)
  }

  /** In a consistent store, authentication succeeds exactly when some user
      holds the SSN and the normalised phone equals that user's stored phone. */
  lemma AuthenticateIff(users: seq<User>, ssn: string, phone: string)
    requires UniqueUserSsns(users)
    ensures Authenticate(users, ssn, phone).code == 200 <==>
      exists i :: 0 <= i < |users| && users[i].ssn == ssn && users[i].phone == Phone.ParsePhone(phone)
    ensures Authenticate(users, ssn, phone).code != 500
  {
    UniqueSsnMatch(users, ssn);
  }

  /** Any formatting of the registered number authenticates: a stored phone
      written by registration (ten digits) is accepted for every input whose
      digits are those ten digits, whatever separators surround or split them
      ("555-123-4567", "(555) 123 4567", …). */
  lemma AuthenticateAnyFormatting(users: seq<User>, i: nat, d: string, phone: string)
    requires UniqueUserSsns(users) && i < |users|
    requires |d| == 10 && users[i].phone == Some(d)
    requires Phone.Digits(phone) == d
    ensures Authenticate(users, users[i].ssn, phone).code == 200
  {
    Phone.ParseOnlyDigitsMatter(phone);
    Phone.ParseTenDigits(d, "", "");
    AuthenticateIff(users, users[i].ssn, phone);
  }

  /** The phone column is nullable: a user stored without a phone is
      authenticated by any phone text that does not parse, the empty one included. */
  lemma NullPhoneAcceptsUnparseable(users: seq<User>, i: nat, phone: string)
    requires UniqueUserSsns(users) && i < |users| && users[i].phone == None
    requires Phone.ParsePhone(phone) == None
    ensures Authenticate(users, users[i].ssn, phone) == Answer(200, false, AUTHENTICATED)
  {
    AuthenticateIff(users, users[i].ssn, phone);
  }

  /** `checkin`: more than one user with the SSN is a conflict (409), none is
      "not registered", a user already checked in gets 200 and no change, and
      otherwise the user's flag is set. Only that flag of that user changes. */
  function CheckIn(users: seq<User>, ssn: string): (r: (seq<User>, Answer))
    ensures r.1.code in {200, 400, 409} && (r.1.error <==> r.1.code != 200)
    ensures r.1.code == 409 <==> |Matches(users, ssn, 0)| > 1
    ensures r.1.code == 400 <==> forall i :: 0 <= i < |users| ==> users[i].ssn != ssn
    ensures |r.0| == |users|
    ensures forall i :: 0 <= i < |users| ==>
      r.0[i] == if r.1.code == 200 && users[i].ssn == ssn then users[i].(checkedIn := true) else users[i]
    ensures r.1.code == 409 ==> r.1.text == MULTIPLE
    ensures r.1.code == 400 ==> r.1.text == NOT_REGISTERED
    ensures r.1.code == 200 ==>
      (r.1.text == ALREADY_CHECKED_IN <==> users[Matches(users, ssn, 0)[0]].checkedIn)
    ensures r.1.code == 200 && !users[Matches(users, ssn, 0)[0]].checkedIn ==> r.1.text == AUTHENTICATED
  {
    var m := Matches(users, ssn, 0);
    if |m| > 1 then (users, Answer(409, true, MULTIPLE))
    else if |m| == 0 then (users, Answer(400, true, NOT_REGISTERED))
    else if users[m[0]].checkedIn then (users, Answer(200, false, ALREADY_CHECKED_IN))
    else (users[m[0] := users[m[0]].(checkedIn := true)], Answer(200, false, AUTHENTICATED))
  }

  /** Checking in twice is the same as checking in once; the second call
      answers "User already checked in". */
  lemma CheckInIdempotent(users: seq<User>, ssn: string)
    requires CheckIn(users, ssn).1.code == 200
    ensures CheckIn(CheckIn(users, ssn).0, ssn).0 == CheckIn(users, ssn).0
    ensures CheckIn(CheckIn(users, ssn).0, ssn).1 == Answer(200, false, ALREADY_CHECKED_IN)
  {
    var users' := CheckIn(users, ssn).0;
    MatchesSameSsns(users, users', ssn, 0);
  }

  /** Check-in keeps SSNs, so it keeps the unique constraint, and a checked-in
      user can still authenticate exactly as before. */
  lemma CheckInKeepsAuthentication(users: seq<User>, ssn: string, ssn2: string, phone: string)
    ensures UniqueUserSsns(users) ==> UniqueUserSsns(CheckIn(users, ssn).0)
    ensures Authenticate(CheckIn(users, ssn).0, ssn2, phone) == Authenticate(users, ssn2, phone)
  {
    var users' := CheckIn(users, ssn).0;
    MatchesSameSsns(users, users', ssn2, 0);
  }
}
