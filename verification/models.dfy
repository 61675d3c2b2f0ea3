/** The persistent entities of backend/app/models.py and the store that holds
    them. Every table is a sequence of rows in insertion order; primary keys
    are integers handed out one above the largest key in use. */
module Models {
  import opened Wrappers

  /** A patient. `ssn` is unique across the table; `name` and `phone` are nullable. */
  datatype User = User(id: int, ssn: string, name: Option<string>, phone: Option<string>, checkedIn: bool)

  /** A doctor. `ssn` is unique across the table; the consultation fee is carried as data. */
  datatype Doctor = Doctor(
    id: int, ssn: string, name: string, specialties: string, experience: int,
    opdRate: real, isAvailable: bool, phone: Option<string>, profilePicture: Option<string>)

  /** A doctor's walk-in queue; at most one per doctor. */
  datatype Queue = Queue(id: int, doctorId: int, totalPatients: int, estimatedWait: Option<string>)

  datatype EntryStatus = Waiting | InConsultation

  /** One patient's place in one queue. */
  datatype QueueEntry = QueueEntry(id: int, queueId: int, patientId: int, position: int, status: EntryStatus)

  datatype SlotType = Appointment | WalkIn

  /** An appointment slot; times are integer timestamps in microseconds. */
  datatype Slot = Slot(
    id: int, doctorId: int, startTime: int, endTime: int,
    isAvailable: bool, patientId: Option<int>, slotType: SlotType)

  /** The whole store. */
  datatype Db = Db(
    users: seq<User>, doctors: seq<Doctor>, queues: seq<Queue>,
    entries: seq<QueueEntry>, slots: seq<Slot>)

  /** The key the store hands to the next inserted row. */
  function NextKey(ids: seq<int>): (r: int)
    ensures r >= 1
    ensures forall i :: 0 <= i < |ids| ==> ids[i] < r
    decreases |ids|
  {
    if ids == [] then 1
    else
      var rest := NextKey(ids[1..]);
      if ids[0] < rest then rest else ids[0] + 1
  }

  function UserIds(users: seq<User>): seq<int> {
    seq(|users|, i requires 0 <= i < |users| => users[i].id)
  }

  function DoctorIds(doctors: seq<Doctor>): seq<int> {
    seq(|doctors|, i requires 0 <= i < |doctors| => doctors[i].id)
  }

  function QueueIds(queues: seq<Queue>): seq<int> {
    seq(|queues|, i requires 0 <= i < |queues| => queues[i].id)
  }

  function EntryIds(entries: seq<QueueEntry>): seq<int> {
    seq(|entries|, i requires 0 <= i < |entries| => entries[i].id)
  }

  /** Column defaults of a freshly inserted row. */
  function NewUser(id: int, ssn: string, name: string, phone: string): (u: User)
    ensures !u.checkedIn
    ensures u.id == id && u.ssn == ssn && u.name == Some(name) && u.phone == Some(phone)
  {
    User(id, ssn, Some(name), Some(phone), false)
  }

  function NewDoctor(id: int, ssn: string, name: string, specialties: string, experience: int, opdRate: real): (d: Doctor)
    ensures d.isAvailable && d.phone.None? && d.profilePicture.None?
    ensures d.id == id && d.ssn == ssn && d.name == name && d.specialties == specialties
  {
    Doctor(id, ssn, name, specialties, experience, opdRate, true, None, None)
  }

  function NewQueue(id: int, doctorId: int): (q: Queue)
    ensures q.totalPatients == 0 && q.estimatedWait.None?
    ensures q.id == id && q.doctorId == doctorId
  {
    Queue(id, doctorId, 0, None)
  }

  function NewSlot(id: int, doctorId: int, startTime: int, endTime: int): (s: Slot)
    ensures s.isAvailable && s.patientId.None? && s.slotType == Appointment
    ensures s.id == id && s.doctorId == doctorId && s.startTime == startTime && s.endTime == endTime
  {
    Slot(id, doctorId, startTime, endTime, true, None, Appointment)
  }

  /** The unique constraint on `User.ssn`. */
  predicate UniqueUserSsns(users: seq<User>) {
    forall i, j :: 0 <= i < j < |users| ==> users[i].ssn != users[j].ssn
  }

  /** The unique constraint on `Doctor.ssn`. */
  predicate UniqueDoctorSsns(doctors: seq<Doctor>) {
    forall i, j :: 0 <= i < j < |doctors| ==> doctors[i].ssn != doctors[j].ssn
  }

  predicate UniqueUserIds(users: seq<User>) {
    forall i, j :: 0 <= i < j < |users| ==> users[i].id != users[j].id
  }

  predicate UniqueDoctorIds(doctors: seq<Doctor>) {
    forall i, j :: 0 <= i < j < |doctors| ==> doctors[i].id != doctors[j].id
  }
}
