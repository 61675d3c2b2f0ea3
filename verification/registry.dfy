/** Registration and listing routes of backend/app/routes/dev_routes.py:
    `add_user`, `add_doctor` (duplicate-SSN rejection, phone validation) and
    `get_users` (the empty store is an error). */
module Registry {
  import opened Wrappers
  import opened Models
  import opened Responses
  import Phone
  import Patients

  const INVALID_PAYLOAD: string := "Invalid JSON payload"
  const MISSING_FIELDS: string := "Missing required fields"
  const USER_EXISTS: string := "User with this SSN already exists"
  const DOCTOR_EXISTS: string := "Doctor with this SSN already exists"
  const INVALID_PHONE: string := "Invalid phone number: "
  const USER_ADDED: string := "User added"
  const DOCTOR_ADDED: string := "Doctor added"
  const NO_USERS: string := "No users available in the system"

  /** The request body: not a JSON object, an empty object (falsy in Python,
      so also rejected as invalid), or a non-empty object. */
  datatype Body<F> = NotAnObject | EmptyObject | Object(form: F)

  /** The fields `add_user` reads; `None` is an absent key. */
  datatype UserForm = UserForm(ssn: Option<string>, name: Option<string>, phone: Option<string>)

  /** The fields `add_doctor` reads; `None` is an absent key. */
  datatype DoctorForm = DoctorForm(
    ssn: Option<string>, name: Option<string>, specialties: Option<string>,
    experience: Option<int>, opdRate: Option<real>)

  predicate UserFormComplete(f: UserForm) {
    f.ssn.Some? && f.name.Some? && f.phone.Some?
  }

  predicate DoctorFormComplete(f: DoctorForm) {
    f.ssn.Some? && f.name.Some? && f.specialties.Some? && f.experience.Some? && f.opdRate.Some?
  }

  predicate UserSsnTaken(users: seq<User>, ssn: string) {
    exists i :: 0 <= i < |users| && users[i].ssn == ssn
  }

  predicate DoctorSsnTaken(doctors: seq<Doctor>, ssn: string) {
    exists i :: 0 <= i < |doctors| && doctors[i].ssn == ssn
  }

  /** `add_user`. The checks run in order: payload shape, required keys,
      duplicate SSN (before the phone is looked at), then the phone. The
      first three raise werkzeug's `BadRequest`, whose text carries the
      "400 Bad Request: " prefix; the phone error is answered directly. On
      success exactly one user is appended, holding the normalised phone. */
  function AddUser(users: seq<User>, body: Body<UserForm>): (r: Result<(seq<User>, string), Error>)
    ensures r.Failure? ==> r.error.kind == BadRequest
    ensures !body.Object? ==> r == Failure(Error(BadRequest, BadRequestText(INVALID_PAYLOAD)))
    ensures body.Object? && !UserFormComplete(body.form) ==>
      r == Failure(Error(BadRequest, BadRequestText(MISSING_FIELDS)))
    ensures body.Object? && UserFormComplete(body.form) && UserSsnTaken(users, body.form.ssn.value) ==>
      r == Failure(Error(BadRequest, BadRequestText(USER_EXISTS)))
    ensures body.Object? && UserFormComplete(body.form) && !UserSsnTaken(users, body.form.ssn.value)
            && Phone.ParsePhone(body.form.phone.value).None? ==>
      r == Failure(Error(BadRequest, INVALID_PHONE + Phone.NULL_PHONE))
    ensures r.Success? <==>
      && body.Object? && UserFormComplete(body.form)
      && !UserSsnTaken(users, body.form.ssn.value)
      && Phone.ParsePhone(body.form.phone.value).Some?
    ensures r.Success? ==>
      && r.value.1 == USER_ADDED
      && |r.value.0| == |users| + 1
      && r.value.0[..|users|] == users
      && r.value.0[|users|].ssn == body.form.ssn.value
      && r.value.0[|users|].name == body.form.name
      && r.value.0[|users|].phone == Phone.ParsePhone(body.form.phone.value)
      && !r.value.0[|users|].checkedIn
      && (forall i :: 0 <= i < |users| ==> users[i].id != r.value.0[|users|].id)
  {
    if !body.Object? then Failure(Error(BadRequest, BadRequestText(INVALID_PAYLOAD)))
    else
      var f := body.form;
      if !UserFormComplete(f) then Failure(Error(BadRequest, BadRequestText(MISSING_FIELDS)))
      else if UserSsnTaken(users, f.ssn.value) then Failure(Error(BadRequest, BadRequestText(USER_EXISTS)))
      else
        match Phone.ValidatePhone(f.phone.value)
        case Failure(e) => Failure(Error(BadRequest, INVALID_PHONE + e))
        case Success(phone) =>
          var id := NextKey(UserIds(users));
          assert forall i :: 0 <= i < |users| ==> UserIds(users)[i] == users[i].id;
          Success((users + [NewUser(id, f.ssn.value, f.name.value, phone)], USER_ADDED))
  }

  /** Registration keeps SSNs and keys unique. */
  lemma AddUserPreservesUnique(users: seq<User>, body: Body<UserForm>)
    requires UniqueUserSsns(users) && UniqueUserIds(users)
    ensures AddUser(users, body).Success? ==>
      UniqueUserSsns(AddUser(users, body).value.0) && UniqueUserIds(AddUser(users, body).value.0)
  {
    if AddUser(users, body).Success? {
      var users' := AddUser(users, body).value.0;
      assert forall i :: 0 <= i < |users| ==> users'[i] == users[i];
    }
  }

  /** A second registration of the same SSN is refused, whatever else the
      payload says: registration is at most once per SSN. */
  lemma AddUserTwiceRejected(users: seq<User>, body: Body<UserForm>, again: UserForm)
    requires AddUser(users, body).Success?
    requires UserFormComplete(again) && again.ssn == body.form.ssn
    ensures AddUser(AddUser(users, body).value.0, Object(again)) ==
      Failure(Error(BadRequest, BadRequestText(USER_EXISTS)))
  {
    var users' := AddUser(users, body).value.0;
    assert users'[|users|].ssn == again.ssn.value;
  }

  /** Registration then sign-in: a patient registered with some phone text
      authenticates with that same text, and with the normalised number the
      store now holds. */
  lemma AddUserThenAuthenticate(users: seq<User>, form: UserForm)
    requires UniqueUserSsns(users) && UniqueUserIds(users)
    requires AddUser(users, Object(form)).Success?
    ensures var users' := AddUser(users, Object(form)).value.0;
      && Patients.Authenticate(users', form.ssn.value, form.phone.value).code == 200
      && Patients.Authenticate(users', form.ssn.value, Phone.ParsePhone(form.phone.value).value).code == 200
  {
    var users' := AddUser(users, Object(form)).value.0;
    AddUserPreservesUnique(users, Object(form));
    Phone.ParseIdempotent(form.phone.value);
    Patients.AuthenticateIff(users', form.ssn.value, form.phone.value);
    Patients.AuthenticateIff(users', form.ssn.value, Phone.ParsePhone(form.phone.value).value);
  }

  /** What the `checkin_status` default is for: a patient just registered is
      not checked in, so their first check-in sets the flag and answers
      "Authenticated" rather than "User already checked in". */
  lemma AddUserThenCheckIn(users: seq<User>, form: UserForm)
    requires UniqueUserSsns(users) && UniqueUserIds(users)
    requires AddUser(users, Object(form)).Success?
    ensures var users' := AddUser(users, Object(form)).value.0;
      && Patients.CheckIn(users', form.ssn.value).1 == Patients.Answer(200, false, Patients.AUTHENTICATED)
      && Patients.CheckIn(users', form.ssn.value).0[|users|].checkedIn
  {
    var users' := AddUser(users, Object(form)).value.0;
    AddUserPreservesUnique(users, Object(form));
    Patients.UniqueSsnMatch(users', form.ssn.value);
    assert Patients.Matches(users', form.ssn.value, 0) == [|users|];
  }

  /** `add_doctor`: the same payload, key and duplicate-SSN checks as
      `add_user`, without a phone check; on success one doctor with the
      column defaults is appended. */
  function AddDoctor(doctors: seq<Doctor>, body: Body<DoctorForm>): (r: Result<(seq<Doctor>, string), Error>)
    ensures r.Failure? ==> r.error.kind == BadRequest
    ensures !body.Object? ==> r == Failure(Error(BadRequest, BadRequestText(INVALID_PAYLOAD)))
    ensures body.Object? && !DoctorFormComplete(body.form) ==>
      r == Failure(Error(BadRequest, BadRequestText(MISSING_FIELDS)))
    ensures body.Object? && DoctorFormComplete(body.form) && DoctorSsnTaken(doctors, body.form.ssn.value) ==>
      r == Failure(Error(BadRequest, BadRequestText(DOCTOR_EXISTS)))
    ensures r.Success? <==>
      body.Object? && DoctorFormComplete(body.form) && !DoctorSsnTaken(doctors, body.form.ssn.value)
    ensures r.Success? ==>
      && r.value.1 == DOCTOR_ADDED
      && |r.value.0| == |doctors| + 1
      && r.value.0[..|doctors|] == doctors
      && r.value.0[|doctors|] == NewDoctor(r.value.0[|doctors|].id, body.form.ssn.value, body.form.name.value,
           body.form.specialties.value, body.form.experience.value, body.form.opdRate.value)
      && r.value.0[|doctors|].isAvailable
      && (forall i :: 0 <= i < |doctors| ==> doctors[i].id != r.value.0[|doctors|].id)
  {
    if !body.Object? then Failure(Error(BadRequest, BadRequestText(INVALID_PAYLOAD)))
    else
      var f := body.form;
      if !DoctorFormComplete(f) then Failure(Error(BadRequest, BadRequestText(MISSING_FIELDS)))
      else if DoctorSsnTaken(doctors, f.ssn.value) then Failure(Error(BadRequest, BadRequestText(DOCTOR_EXISTS)))
      else
        var id := NextKey(DoctorIds(doctors));
        assert forall i :: 0 <= i < |doctors| ==> DoctorIds(doctors)[i] == doctors[i].id;
        var d := NewDoctor(id, f.ssn.value, f.name.value, f.specialties.value, f.experience.value, f.opdRate.value);
        Success((doctors + [d], DOCTOR_ADDED))
  }

  /** Doctor registration keeps SSNs and keys unique, and refuses a repeated SSN. */
  lemma AddDoctorPreservesUnique(doctors: seq<Doctor>, body: Body<DoctorForm>, again: DoctorForm)
    requires UniqueDoctorSsns(doctors) && UniqueDoctorIds(doctors)
    requires AddDoctor(doctors, body).Success?
    requires DoctorFormComplete(again) && again.ssn == body.form.ssn
    ensures UniqueDoctorSsns(AddDoctor(doctors, body).value.0)
    ensures UniqueDoctorIds(AddDoctor(doctors, body).value.0)
    ensures AddDoctor(AddDoctor(doctors, body).value.0, Object(again)) ==
      Failure(Error(BadRequest, BadRequestText(DOCTOR_EXISTS)))
  {
    var doctors' := AddDoctor(doctors, body).value.0;
    assert forall i :: 0 <= i < |doctors| ==> doctors'[i] == doctors[i];
    assert doctors'[|doctors|].ssn == again.ssn.value;
  }

  // ---------------------------------------------------------------------------
  // get_users

  /** One row of the user listing; `K` is the type of the value under "ssn". */
  datatype UserRow<K> = UserRow(ssn: K, name: Option<string>, phone: Option<string>, checkedIn: bool)

  /** `get_users` as written: the row's "ssn" key holds the primary key `id`. */
  function GetUsersAsWritten(users: seq<User>): (r: Result<seq<UserRow<int>>, Error>)
    ensures r.Failure? <==> users == []
    ensures r.Failure? ==> r.error == Error(NotFound, NO_USERS)
    ensures r.Success? ==> |r.value| == |users|
    ensures r.Success? ==>
      forall k :: 0 <= k < |users| ==> r.value[k] == UserRow(users[k].id, users[k].name, users[k].phone, users[k].checkedIn)
  {
    if users == [] then Failure(Error(NotFound, NO_USERS))
    else Success(seq(|users|, k requires 0 <= k < |users| =>
      UserRow(users[k].id, users[k].name, users[k].phone, users[k].checkedIn)))
  }

  /** The listing as written cannot tell SSNs apart: any two stores that
      differ only in their users' SSNs list identically. */
  lemma {:induction false} AsWrittenHidesSsn(a: seq<User>, b: seq<User>)
    requires |a| == |b|
    requires forall k :: 0 <= k < |a| ==> a[k] == b[k].(ssn := a[k].ssn)
    ensures GetUsersAsWritten(a) == GetUsersAsWritten(b)
  {
    if a != [] {
      assert forall k :: 0 <= k < |a| ==> GetUsersAsWritten(a).value[k] == GetUsersAsWritten(b).value[k];
      assert GetUsersAsWritten(a).value == GetUsersAsWritten(b).value;
    }
  }

  /** A concrete pair: one user stored with SSN "111-11-1111" or "222-22-2222". */
  lemma AsWrittenSsnExample()
    ensures var a := [User(1, "111-11-1111", Some("A"), Some("9876543210"), false)];
            var b := [User(1, "222-22-2222", Some("A"), Some("9876543210"), false)];
      a != b && GetUsersAsWritten(a) == GetUsersAsWritten(b)
  {
    var a := [User(1, "111-11-1111", Some("A"), Some("9876543210"), false)];
    var b := [User(1, "222-22-2222", Some("A"), Some("9876543210"), false)];
    assert a[0].ssn != b[0].ssn;
    AsWrittenHidesSsn(a, b);
  }

  /** `get_users` with the "ssn" key holding the user's SSN: the empty store is
      an error (404 "No users available in the system"), otherwise one row per
      user in storage order. */
  function GetUsers(users: seq<User>): (r: Result<seq<UserRow<string>>, Error>)
    ensures r.Failure? <==> users == []
    ensures r.Failure? ==> r.error == Error(NotFound, NO_USERS)
    ensures r.Success? ==> |r.value| == |users|
    ensures r.Success? ==>
      forall k :: 0 <= k < |users| ==> r.value[k] == UserRow(users[k].ssn, users[k].name, users[k].phone, users[k].checkedIn)
  {
    if users == [] then Failure(Error(NotFound, NO_USERS))
    else Success(seq(|users|, k requires 0 <= k < |users| =>
      UserRow(users[k].ssn, users[k].name, users[k].phone, users[k].checkedIn)))
  }

  /** The corrected listing shows every user's SSN: two stores with the same
      listing hold the same users up to their primary keys. */
  lemma GetUsersShowsSsn(a: seq<User>, b: seq<User>)
    requires GetUsers(a) == GetUsers(b)
    ensures |a| == |b|
    ensures forall k :: 0 <= k < |a| ==> a[k] == b[k].(id := a[k].id)
  {
    if a != [] {
      forall k | 0 <= k < |a|
        ensures a[k] == b[k].(id := a[k].id)
      {
        assert GetUsers(a).value[k] == GetUsers(b).value[k];
      }
    }
  }

  /** Registration shows up in the listing: after a successful `add_user`
      the listing is never the empty-store error, and its last row carries
      the new SSN and the normalised phone. */
  lemma AddUserThenList(users: seq<User>, form: UserForm)
    requires AddUser(users, Object(form)).Success?
    ensures var rows := GetUsers(AddUser(users, Object(form)).value.0);
      && rows.Success? && |rows.value| == |users| + 1
      && rows.value[|users|].ssn == form.ssn.value
      && rows.value[|users|].phone == Phone.ParsePhone(form.phone.value)
  {
  }
}
