/** Appointment slots of backend/app/routes/slot_routes.py:
    `get_available_slots` (a filter over a seven-day window, ordered by start
    time) and `book_slot` (available -> booked, once). The clock is a
    parameter: `now` stands for `datetime.now()`. */
module Slots {
  import opened Wrappers
  import opened Models
  import opened Responses
  import Sorting

  /** `timedelta(days=7)` in microseconds, the unit of slot timestamps. */
  const WEEK: int := 7 * 24 * 60 * 60 * 1_000_000

  const UNAVAILABLE: string := "Slot is no longer available"

  /** Python's `str(KeyError(k))`, the message when a payload field is absent. */
  function KeyErrorText(key: string): string {
    "'" + key + "'"
  }

  /** The filter of the listing query: the doctor's slot, still available,
      starting within `[now, now + 7 days]` (`between` includes both ends). */
  predicate Listed(s: Slot, doctorId: int, now: int) {
    s.doctorId == doctorId && s.isAvailable && now <= s.startTime <= now + WEEK
  }

  function SlotStart(s: Slot): int {
    s.startTime
  }

  function Filter(slots: seq<Slot>, doctorId: int, now: int): (r: seq<Slot>)
    ensures forall s :: multiset(r)[s] == if Listed(s, doctorId, now) then multiset(slots)[s] else 0
    decreases |slots|
  {
    if slots == [] then []
    else
      assert slots == [slots[0]] + slots[1..];
      (if Listed(slots[0], doctorId, now) then [slots[0]] else []) + Filter(slots[1..], doctorId, now)
  }

  /** `get_available_slots`: exactly the slots meeting the filter, each as
      often as it is stored, in ascending start time. It only reads. */
  function AvailableSlots(slots: seq<Slot>, doctorId: int, now: int): (r: seq<Slot>)
    ensures Sorting.SortedBy(r, SlotStart)
    ensures forall s :: multiset(r)[s] == if Listed(s, doctorId, now) then multiset(slots)[s] else 0
    ensures forall s :: s in r <==> s in slots && Listed(s, doctorId, now)
  {
    var r := Sorting.SortBy(Filter(slots, doctorId, now), SlotStart);
    assert forall s :: s in r <==> multiset(r)[s] > 0;
    assert forall s :: s in slots <==> multiset(slots)[s] > 0;
    r
  }

  /** The window is SQL's `between`, which includes both ends: a slot starting
      exactly now or exactly seven days from now is listed. */
  lemma WindowEdges(s: Slot, doctorId: int, now: int)
    requires s.doctorId == doctorId && s.isAvailable
    ensures s.startTime == now ==> Listed(s, doctorId, now)
    ensures s.startTime == now + WEEK ==> Listed(s, doctorId, now)
    ensures s.startTime < now || s.startTime > now + WEEK ==> !Listed(s, doctorId, now)
  {
  }

  // ---------------------------------------------------------------------------
  // book_slot

  /** The payload's `patient_id`: the key may be absent, present with JSON
      `null`, or present with a patient key. */
  datatype PatientField = Absent | Null | Id(id: int)

  /** The value `data['patient_id']` writes into the nullable column. */
  function Held(f: PatientField): (p: Option<int>)
    requires !f.Absent?
    ensures p.Some? <==> f.Id?
    ensures f.Id? ==> p.value == f.id
  {
    if f.Id? then Some(f.id) else None
  }

  datatype BookForm = BookForm(slotId: Option<int>, patientId: PatientField)

  /** The reply of a successful booking: the slot's start and its doctor. */
  datatype Booking = Booking(appointmentTime: int, doctorId: int)

  /** `Slot.query.get(id)` from index `k` on. */
  function FindSlot(slots: seq<Slot>, id: int, k: nat): (r: Option<nat>)
    requires k <= |slots|
    ensures r.None? <==> forall i :: k <= i < |slots| ==> slots[i].id != id
    ensures r.Some? ==> k <= r.value < |slots| && slots[r.value].id == id
    ensures r.Some? ==> forall i :: k <= i < r.value ==> slots[i].id != id
    decreases |slots| - k
  {
    if k == |slots| then None
    else if slots[k].id == id then Some(k)
    else FindSlot(slots, id, k + 1)
  }

  function SlotIds(slots: seq<Slot>): seq<int> {
    seq(|slots|, i requires 0 <= i < |slots| => slots[i].id)
  }

  /** Slot keys are unique, and an available slot is held by no patient. The
      converse does not hold: a booking whose `patient_id` is `null` leaves a
      slot unavailable and unheld. */
  predicate SlotsValid(slots: seq<Slot>) {
    && (forall i, j :: 0 <= i < j < |slots| ==> slots[i].id != slots[j].id)
    && (forall i :: 0 <= i < |slots| ==> slots[i].isAvailable ==> slots[i].patientId.None?)
  }

  /** `book_slot`. A missing `slot_id` (KeyError) or unknown slot (`get_or_404`)
      reaches the generic handler and is a server error; a booked slot is a
      conflict; a missing `patient_id` is a KeyError raised only after the
      availability check. Otherwise the slot becomes unavailable and its
      patient column takes the payload's value, `null` included; no other
      slot changes. The payload's
      patient is not compared with the caller's identity. */
  function Book(slots: seq<Slot>, form: BookForm): (r: Result<(seq<Slot>, Booking), Error>)
    ensures form.slotId.None? ==> r == Failure(Error(Internal, KeyErrorText("slot_id")))
    ensures form.slotId.Some? && FindSlot(slots, form.slotId.value, 0).None? ==>
      r == Failure(Error(Internal, NOT_FOUND_TEXT))
    ensures r.Failure? && r.error.kind == Conflict <==>
      && form.slotId.Some?
      && FindSlot(slots, form.slotId.value, 0).Some?
      && !slots[FindSlot(slots, form.slotId.value, 0).value].isAvailable
    ensures r.Failure? && r.error.kind == Conflict ==> r.error.message == UNAVAILABLE
    ensures (form.slotId.Some? && FindSlot(slots, form.slotId.value, 0).Some? &&
             slots[FindSlot(slots, form.slotId.value, 0).value].isAvailable) ==>
      (r.Success? <==> !form.patientId.Absent?)
    ensures (form.slotId.Some? && FindSlot(slots, form.slotId.value, 0).Some? &&
             slots[FindSlot(slots, form.slotId.value, 0).value].isAvailable && form.patientId.Absent?) ==>
      r == Failure(Error(Internal, KeyErrorText("patient_id")))
    ensures r.Failure? ==> r.error.kind in {Internal, Conflict}
    ensures r.Success? ==>
      var (slots', booking) := r.value;
      var i := FindSlot(slots, form.slotId.value, 0).value;
      && !form.patientId.Absent?
      && slots[i].isAvailable
      && |slots'| == |slots|
      && slots'[i] == slots[i].(isAvailable := false, patientId := Held(form.patientId))
      && (forall j :: 0 <= j < |slots| && j != i ==> slots'[j] == slots[j])
      && booking == Booking(slots[i].startTime, slots[i].doctorId)
  {
    if form.slotId.None? then Failure(Error(Internal, KeyErrorText("slot_id")))
    else
      match FindSlot(slots, form.slotId.value, 0)
      case None => Failure(Error(Internal, NOT_FOUND_TEXT))
      case Some(i) =>
        var slot := slots[i];
        if !slot.isAvailable then Failure(Error(Conflict, UNAVAILABLE))
        else if form.patientId.Absent? then Failure(Error(Internal, KeyErrorText("patient_id")))
        else
          var booked := slot.(isAvailable := false, patientId := Held(form.patientId));
          Success((slots[i := booked], Booking(slot.startTime, slot.doctorId)))
  }

  /** Booking keeps slot keys unique and "an available slot is unheld". */
  lemma BookPreservesValid(slots: seq<Slot>, form: BookForm)
    requires SlotsValid(slots)
    ensures Book(slots, form).Success? ==> SlotsValid(Book(slots, form).value.0)
  {
  }

  /** Single assignment: once a booking of a slot succeeds, every later booking
      of the same slot, by anyone, conflicts with "Slot is no longer available". */
  lemma BookTwiceConflicts(slots: seq<Slot>, form: BookForm, again: BookForm)
    requires Book(slots, form).Success?
    requires again.slotId == form.slotId
    ensures Book(Book(slots, form).value.0, again) == Failure(Error(Conflict, UNAVAILABLE))
  {
    var slots' := Book(slots, form).value.0;
    var i := FindSlot(slots, form.slotId.value, 0).value;
    FindSlotAfterUpdate(slots, i, slots'[i], form.slotId.value, 0);
  }

  /** Rewriting one slot in place, without changing its key, leaves every lookup where it was. */
  lemma {:induction false} FindSlotAfterUpdate(slots: seq<Slot>, i: nat, s: Slot, id: int, k: nat)
    requires i < |slots| && s.id == slots[i].id && k <= |slots|
    ensures FindSlot(slots[i := s], id, k) == FindSlot(slots, id, k)
    decreases |slots| - k
  {
    if k < |slots| {
      FindSlotAfterUpdate(slots, i, s, id, k + 1);
    }
  }

  /** A booked slot never returns to available, and keeps its patient: no
      booking request changes a slot that is already unavailable. */
  lemma BookedStaysBooked(slots: seq<Slot>, form: BookForm, j: nat)
    requires j < |slots| && !slots[j].isAvailable
    ensures Book(slots, form).Success? ==> Book(slots, form).value.0[j] == slots[j]
  {
  }

  /** A slot with default columns can be booked, and a booking turns it into a
      held slot: this is the only way a slot leaves the available state. */
  lemma NewSlotBookable(slots: seq<Slot>, id: int, doctorId: int, start: int, end: int, patient: int)
    requires forall i :: 0 <= i < |slots| ==> slots[i].id != id
    ensures var all := slots + [NewSlot(id, doctorId, start, end)];
      && (SlotsValid(slots) ==> SlotsValid(all))
      && Book(all, BookForm(Some(id), Id(patient))).Success?
      && Book(all, BookForm(Some(id), Id(patient))).value.1 == Booking(start, doctorId)
      && Book(all, BookForm(Some(id), Id(patient))).value.0[|slots|].patientId == Some(patient)
  {
    var all := slots + [NewSlot(id, doctorId, start, end)];
    assert forall i :: 0 <= i < |slots| ==> all[i] == slots[i];
    assert all[|slots|].id == id;
    assert FindSlot(all, id, 0) == Some(|slots|);
  }

  /** A payload with `"patient_id": null` books an available slot: the slot
      becomes unavailable with no patient, so it is neither listed nor held,
      and "available exactly when unheld" no longer describes it. */
  lemma BookNullHoldsNobody(slots: seq<Slot>, id: int, doctorId: int, now: int)
    requires FindSlot(slots, id, 0).Some? && slots[FindSlot(slots, id, 0).value].isAvailable
    ensures var r := Book(slots, BookForm(Some(id), Null));
      var i := FindSlot(slots, id, 0).value;
      && r.Success?
      && !r.value.0[i].isAvailable && r.value.0[i].patientId.None?
      && r.value.0[i] !in AvailableSlots(r.value.0, doctorId, now)
      && !(r.value.0[i].isAvailable <==> r.value.0[i].patientId.None?)
  {
  }

  /** After a successful booking the slot appears in no listing. */
  lemma BookedNotListed(slots: seq<Slot>, form: BookForm, doctorId: int, now: int)
    requires Book(slots, form).Success?
    ensures var i := FindSlot(slots, form.slotId.value, 0).value;
      Book(slots, form).value.0[i] !in AvailableSlots(Book(slots, form).value.0, doctorId, now)
  {
  }

  /** What `book_slot` sends: 200 with the booking exactly when it succeeds,
      409 "Slot is no longer available" exactly when the slot exists and is
      already booked, and 500 in every other case. */
  function BookResponse(slots: seq<Slot>, form: BookForm): (e: Envelope<Booking>)
    ensures e.code == OK <==> Book(slots, form).Success?
    ensures e.code == 409 <==>
      && form.slotId.Some?
      && FindSlot(slots, form.slotId.value, 0).Some?
      && !slots[FindSlot(slots, form.slotId.value, 0).value].isAvailable
    ensures e.code == 409 ==> e.response == Text(UNAVAILABLE)
    ensures e.code in {OK, 409, 500}
  {
    Respond(ReplyOf(Book(slots, form)), OK)
  }
}
