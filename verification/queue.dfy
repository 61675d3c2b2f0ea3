/** The walk-in queue of backend/app/routes/queue_routes.py: `join_queue`,
    `get_queue_status` and `process_next_patient`, each one atomic transition
    of the store.

    Invariant kept by every transition (`QueuesValid`): queue ids are unique,
    no doctor has two queues, every entry belongs to an existing queue, and for
    each queue the waiting entries, taken in insertion order, carry positions
    1, 2, ..., N with N == total_patients, name no patient twice, and the wait
    estimate is "<15 * N> minutes" once set. Insertion order equals join order,
    so position order is FIFO order; `WaitingLine` is that abstract FIFO line. */
module QueueManager {
  import opened Wrappers
  import opened Text
  import opened Models
  import opened Responses
  import Sorting

  /** Minutes of consultation estimated per waiting patient. */
  const MINUTES_PER_PATIENT: int := 15

  const MISSING_FIELDS: string := "Missing required fields"
  const ALREADY_QUEUED: string := "Patient already in queue"
  const NO_QUEUE: string := "Queue not found for this doctor"
  const NO_PATIENTS: string := "No patients in queue"

  /** `f"{minutes} minutes"`. */
  function WaitText(minutes: int): string {
    IntText(minutes) + " minutes"
  }

  /** The wait text determines the minutes it was rendered from. */
  lemma WaitTextInjective(a: int, b: int)
    requires WaitText(a) == WaitText(b)
    ensures a == b
  {
    var n := |WaitText(a)| - 8;
    assert IntText(a) == WaitText(a)[..n];
    assert IntText(b) == WaitText(b)[..n];
    IntTextInjective(a, b);
  }

  /** The literal "0 minutes" that `process_next_patient` writes for an empty
      queue is what the general formula gives for zero patients. */
  lemma ZeroWaitText()
    ensures WaitText(0 * MINUTES_PER_PATIENT) == "0 minutes"
  {
    assert Decimal(0) == ['0'];
  }

  // ---------------------------------------------------------------------------
  // Waiting lines

  predicate Waits(e: QueueEntry, qid: int) {
    e.queueId == qid && e.status == Waiting
  }

  /** The waiting entries of queue `qid`, in insertion order. */
  function Line(es: seq<QueueEntry>, qid: int): (r: seq<QueueEntry>)
    ensures |r| <= |es|
    ensures forall k :: 0 <= k < |r| ==> Waits(r[k], qid)
    decreases |es|
  {
    if es == [] then []
    else (if Waits(es[0], qid) then [es[0]] else []) + Line(es[1..], qid)
  }

  lemma {:induction false} LineAppend(a: seq<QueueEntry>, b: seq<QueueEntry>, qid: int)
    ensures Line(a + b, qid) == Line(a, qid) + Line(b, qid)
    decreases |a|
  {
    if a == [] {
      assert a + b == b;
    } else {
      assert (a + b)[1..] == a[1..] + b;
      LineAppend(a[1..], b, qid);
    }
  }

  /** Every entry of a line is stored in the table. */
  lemma {:induction false} LineFromTable(es: seq<QueueEntry>, qid: int, k: nat)
    requires k < |Line(es, qid)|
    ensures exists j :: 0 <= j < |es| && es[j] == Line(es, qid)[k]
    decreases |es|
  {
    if Waits(es[0], qid) && k == 0 {
      assert es[0] == Line(es, qid)[0];
    } else {
      var k' := if Waits(es[0], qid) then k - 1 else k;
      assert Line(es, qid)[k] == Line(es[1..], qid)[k'];
      LineFromTable(es[1..], qid, k');
      var j :| 0 <= j < |es| - 1 && es[1..][j] == Line(es[1..], qid)[k'];
      assert es[j + 1] == Line(es, qid)[k];
    }
  }

  lemma LineOne(e: QueueEntry, qid: int)
    ensures Line([e], qid) == if Waits(e, qid) then [e] else []
  {
    assert [e][1..] == [];
  }

  /** Cutting the table at entry `h`: the line before it, the entry if it waits, the line after it. */
  lemma LineAt(es: seq<QueueEntry>, h: int, qid: int)
    requires 0 <= h < |es|
    ensures Line(es, qid) == Line(es[..h], qid) + Line([es[h]], qid) + Line(es[h + 1..], qid)
    ensures Line(es[..h] + es[h + 1..], qid) == Line(es[..h], qid) + Line(es[h + 1..], qid)
  {
    assert es == es[..h] + [es[h]] + es[h + 1..];
    LineAppend(es[..h] + [es[h]], es[h + 1..], qid);
    LineAppend(es[..h], [es[h]], qid);
    LineAppend(es[..h], es[h + 1..], qid);
  }

  lemma {:induction false} LineOfOtherQueue(es: seq<QueueEntry>, qid: int)
    requires forall k :: 0 <= k < |es| ==> es[k].queueId != qid
    ensures Line(es, qid) == []
    decreases |es|
  {
    if es != [] {
      LineOfOtherQueue(es[1..], qid);
    }
  }

  /** Waiting positions run 1, 2, ..., N along the line. */
  predicate Dense(line: seq<QueueEntry>) {
    forall k :: 0 <= k < |line| ==> line[k].position == k + 1
  }

  /** No patient waits twice in the same line. */
  predicate NoRepeats(line: seq<QueueEntry>) {
    forall i, j :: 0 <= i < j < |line| ==> line[i].patientId != line[j].patientId
  }

  /** An unset estimate belongs to a queue nobody has joined yet; a set one is 15 minutes per waiting patient. */
  predicate WaitAgrees(q: Queue) {
    match q.estimatedWait
    case None => q.totalPatients == 0
    case Some(t) => t == WaitText(q.totalPatients * MINUTES_PER_PATIENT)
  }

  predicate QueueOk(q: Queue, es: seq<QueueEntry>) {
    var line := Line(es, q.id);
    Dense(line) && NoRepeats(line) && |line| == q.totalPatients && WaitAgrees(q)
  }

  predicate UniqueQueueIds(qs: seq<Queue>) {
    forall i, j :: 0 <= i < j < |qs| ==> qs[i].id != qs[j].id
  }

  /** The unique constraint on `Queue.doctor_id`. */
  predicate OneQueuePerDoctor(qs: seq<Queue>) {
    forall i, j :: 0 <= i < j < |qs| ==> qs[i].doctorId != qs[j].doctorId
  }

  /** Every entry belongs to a queue that exists. */
  predicate EntriesOwned(es: seq<QueueEntry>, qs: seq<Queue>) {
    forall k :: 0 <= k < |es| ==> es[k].queueId in QueueIds(qs)
  }

  predicate AllQueuesOk(qs: seq<Queue>, es: seq<QueueEntry>) {
    forall i :: 0 <= i < |qs| ==> QueueOk(qs[i], es)
  }

  predicate QueuesValid(db: Db) {
    && UniqueQueueIds(db.queues)
    && OneQueuePerDoctor(db.queues)
    && EntriesOwned(db.entries, db.queues)
    && AllQueuesOk(db.queues, db.entries)
  }

  /** Rewriting queues in place, keeping ids and doctors, keeps both uniqueness constraints. */
  lemma PointwiseKeepsUnique(qs: seq<Queue>, qs': seq<Queue>)
    requires UniqueQueueIds(qs) && OneQueuePerDoctor(qs)
    requires |qs| == |qs'|
    requires forall i :: 0 <= i < |qs| ==> qs'[i].id == qs[i].id && qs'[i].doctorId == qs[i].doctorId
    ensures UniqueQueueIds(qs') && OneQueuePerDoctor(qs')
    ensures QueueIds(qs') == QueueIds(qs)
  {
  }

  /** `Queue.query.filter_by(doctor_id=...).first()`, searching from index `k`. */
  function FindQueue(qs: seq<Queue>, doctorId: int, k: nat): (r: Option<nat>)
    requires k <= |qs|
    ensures r.None? <==> forall i :: k <= i < |qs| ==> qs[i].doctorId != doctorId
    ensures r.Some? ==> k <= r.value < |qs| && qs[r.value].doctorId == doctorId
    ensures r.Some? ==> forall i :: k <= i < r.value ==> qs[i].doctorId != doctorId
    decreases |qs| - k
  {
    if k == |qs| then None
    else if qs[k].doctorId == doctorId then Some(k)
    else FindQueue(qs, doctorId, k + 1)
  }

  function QueueOf(qs: seq<Queue>, doctorId: int): Option<nat> {
    FindQueue(qs, doctorId, 0)
  }

  function PatientsOf(line: seq<QueueEntry>): seq<int> {
    seq(|line|, k requires 0 <= k < |line| => line[k].patientId)
  }

  /** The abstract FIFO line of a doctor: waiting patients, head first. No queue, no one waiting. */
  function WaitingLine(db: Db, doctorId: int): seq<int> {
    match QueueOf(db.queues, doctorId)
    case None => []
    case Some(i) => PatientsOf(Line(db.entries, db.queues[i].id))
  }

  lemma {:induction false} LineNone(es: seq<QueueEntry>, qid: int)
    requires forall j :: 0 <= j < |es| ==> !Waits(es[j], qid)
    ensures Line(es, qid) == []
    decreases |es|
  {
    if es != [] {
      LineNone(es[1..], qid);
    }
  }

  lemma LineSnoc(es: seq<QueueEntry>, e: QueueEntry, qid: int)
    ensures Line(es + [e], qid) == if Waits(e, qid) then Line(es, qid) + [e] else Line(es, qid)
  {
    LineAppend(es, [e], qid);
    LineOne(e, qid);
  }

  lemma InQueueIds(qs: seq<Queue>, i: nat)
    requires i < |qs|
    ensures qs[i].id in QueueIds(qs)
  {
    assert QueueIds(qs)[i] == qs[i].id;
  }

  lemma {:induction false} FindQueuePointwise(qs: seq<Queue>, qs': seq<Queue>, doctorId: int, k: nat)
    requires |qs| == |qs'| && k <= |qs|
    requires forall i :: 0 <= i < |qs| ==> qs'[i].doctorId == qs[i].doctorId
    ensures FindQueue(qs', doctorId, k) == FindQueue(qs, doctorId, k)
    decreases |qs| - k
  {
    if k < |qs| {
      FindQueuePointwise(qs, qs', doctorId, k + 1);
    }
  }

  /** When a transition rewrites queues in place, keeping their ids and
      doctors, each doctor's abstract line is read off the same queue id. */
  lemma WaitingLineInPlace(db: Db, db': Db, doctorId: int)
    requires |db.queues| == |db'.queues|
    requires forall i :: 0 <= i < |db.queues| ==>
      db'.queues[i].id == db.queues[i].id && db'.queues[i].doctorId == db.queues[i].doctorId
    ensures QueueOf(db'.queues, doctorId) == QueueOf(db.queues, doctorId)
    ensures WaitingLine(db', doctorId) ==
      match QueueOf(db.queues, doctorId)
      case None => []
      case Some(i) => PatientsOf(Line(db'.entries, db.queues[i].id))
  {
    FindQueuePointwise(db.queues, db'.queues, doctorId, 0);
  }

  // ---------------------------------------------------------------------------
  // join_queue

  datatype JoinForm = JoinForm(doctorId: Option<int>, patientId: Option<int>)
  datatype Joined = Joined(position: int, estimatedWait: string)

  /** The doctor's queue, created with default columns if the doctor has none yet. */
  function EnsureQueue(db: Db, doctorId: int): (r: (Db, nat))
    ensures r.1 < |r.0.queues| && r.0.queues[r.1].doctorId == doctorId
    ensures r.0 == db.(queues := r.0.queues)
    ensures |db.queues| <= |r.0.queues| <= |db.queues| + 1
    ensures r.0.queues[..|db.queues|] == db.queues
  {
    match QueueOf(db.queues, doctorId)
    case Some(i) => (db, i)
    case None =>
      var created := NewQueue(NextKey(QueueIds(db.queues)), doctorId);
      (db.(queues := db.queues + [created]), |db.queues|)
  }

  /** The entry a join inserts into queue `qi`: next key, position total_patients + 1, waiting. */
  function NewEntry(db: Db, qi: nat, p: int): (e: QueueEntry)
    requires qi < |db.queues|
    ensures e.status == Waiting && e.patientId == p && e.queueId == db.queues[qi].id
    ensures e.position == db.queues[qi].totalPatients + 1
    ensures forall k :: 0 <= k < |db.entries| ==> db.entries[k].id != e.id
  {
    assert forall k :: 0 <= k < |db.entries| ==> EntryIds(db.entries)[k] == db.entries[k].id;
    QueueEntry(NextKey(EntryIds(db.entries)), db.queues[qi].id, p, db.queues[qi].totalPatients + 1, Waiting)
  }

  /** The store after patient `p` is added to queue `qi`: the new entry, the
      counter incremented, the estimate rewritten from the new position. */
  function AppendEntry(db: Db, qi: nat, p: int): Db
    requires qi < |db.queues|
  {
    var q := db.queues[qi];
    var position := q.totalPatients + 1;
    var q' := q.(totalPatients := position, estimatedWait := Some(WaitText(position * MINUTES_PER_PATIENT)));
    db.(queues := db.queues[qi := q'], entries := db.entries + [NewEntry(db, qi, p)])
  }

  /** `join_queue`. A missing field is a bad request; an unknown doctor or
      patient makes `get_or_404` raise, which the generic handler turns into a
      server error; a patient already waiting is a conflict. Otherwise the
      patient is appended at position total_patients + 1. */
  function Join(db: Db, form: JoinForm): (r: Result<(Db, Joined), Error>)
    ensures form.doctorId.None? || form.patientId.None? ==>
      r == Failure(Error(BadRequest, BadRequestText(MISSING_FIELDS)))
    ensures (form.doctorId.Some? && form.patientId.Some?
      && (form.doctorId.value !in DoctorIds(db.doctors) || form.patientId.value !in UserIds(db.users))) ==>
      r == Failure(Error(Internal, NOT_FOUND_TEXT))
    ensures r.Failure? && r.error.kind == Conflict ==> r.error.message == ALREADY_QUEUED
    ensures r.Success? ==>
      var (db', joined) := r.value;
      && db'.users == db.users && db'.doctors == db.doctors && db'.slots == db.slots
      && |db'.entries| == |db.entries| + 1
      && db'.entries[..|db.entries|] == db.entries
      && db'.entries[|db.entries|].patientId == form.patientId.value
      && db'.entries[|db.entries|].position == joined.position
      && db'.entries[|db.entries|].status == Waiting
      && joined.estimatedWait == WaitText(joined.position * MINUTES_PER_PATIENT)
  {
    if form.doctorId.None? || form.patientId.None? then
      Failure(Error(BadRequest, BadRequestText(MISSING_FIELDS)))
    else if form.doctorId.value !in DoctorIds(db.doctors) || form.patientId.value !in UserIds(db.users) then
      Failure(Error(Internal, NOT_FOUND_TEXT))
    else
      var p := form.patientId.value;
      var (db1, qi) := EnsureQueue(db, form.doctorId.value);
      var q := db1.queues[qi];
      if p in PatientsOf(Line(db1.entries, q.id)) then
        Failure(Error(Conflict, ALREADY_QUEUED))
      else
        var position := q.totalPatients + 1;
        Success((AppendEntry(db1, qi, p), Joined(position, WaitText(position * MINUTES_PER_PATIENT))))
  }

  /** Lazily creating a queue keeps the store valid, and the new queue is
      empty, so no doctor's line changes. */
  lemma EnsureQueueValid(db: Db, doctorId: int)
    requires QueuesValid(db)
    ensures var (db1, qi) := EnsureQueue(db, doctorId);
      && QueuesValid(db1)
      && QueueOf(db1.queues, doctorId) == Some(qi)
      && forall d :: WaitingLine(db1, d) == WaitingLine(db, d)
  {
    if QueueOf(db.queues, doctorId).None? {
      CreateQueueValid(db, NewQueue(NextKey(QueueIds(db.queues)), doctorId));
    }
  }

  /** Appending a fresh queue for a doctor without one keeps the invariant, is
      found by the doctor lookup, and changes nobody's waiting line. */
  lemma CreateQueueValid(db: Db, nq: Queue)
    requires QueuesValid(db)
    requires QueueOf(db.queues, nq.doctorId).None?
    requires nq == NewQueue(NextKey(QueueIds(db.queues)), nq.doctorId)
    ensures var db1 := db.(queues := db.queues + [nq]);
      && QueuesValid(db1)
      && QueueOf(db1.queues, nq.doctorId) == Some(|db.queues|)
      && forall d :: WaitingLine(db1, d) == WaitingLine(db, d)
  {
    var qs := db.queues;
    var db1 := db.(queues := qs + [nq]);
    NewQueueKeepsUnique(qs, nq);
    NewQueueOwnsNothing(db.entries, qs, nq);
    assert AllQueuesOk(db1.queues, db1.entries) by {
      forall i | 0 <= i < |db1.queues| ensures QueueOk(db1.queues[i], db1.entries) {
        if i < |qs| {
          assert db1.queues[i] == qs[i];
        }
      }
    }
    FindQueuePrefix(qs, nq, nq.doctorId, 0);
    forall d ensures WaitingLine(db1, d) == WaitingLine(db, d) {
      FindQueuePrefix(qs, nq, d, 0);
    }
  }

  /** A queue with a fresh key for a doctor without a queue keeps both uniqueness constraints. */
  lemma NewQueueKeepsUnique(qs: seq<Queue>, nq: Queue)
    requires UniqueQueueIds(qs) && OneQueuePerDoctor(qs)
    requires nq.id == NextKey(QueueIds(qs))
    requires forall i :: 0 <= i < |qs| ==> qs[i].doctorId != nq.doctorId
    ensures UniqueQueueIds(qs + [nq]) && OneQueuePerDoctor(qs + [nq])
  {
    forall i | 0 <= i < |qs| ensures qs[i].id != nq.id {
      assert QueueIds(qs)[i] == qs[i].id;
    }
  }

  /** No stored entry belongs to a queue with a fresh key, so its line is empty. */
  lemma NewQueueOwnsNothing(es: seq<QueueEntry>, qs: seq<Queue>, nq: Queue)
    requires EntriesOwned(es, qs)
    requires nq.id == NextKey(QueueIds(qs))
    ensures EntriesOwned(es, qs + [nq])
    ensures Line(es, nq.id) == []
    ensures nq.totalPatients == 0 && nq.estimatedWait == None ==> QueueOk(nq, es)
  {
    forall k | 0 <= k < |es| ensures es[k].queueId != nq.id && es[k].queueId in QueueIds(qs + [nq]) {
      var i :| 0 <= i < |qs| && QueueIds(qs)[i] == es[k].queueId;
      assert QueueIds(qs + [nq])[i] == es[k].queueId;
    }
    LineOfOtherQueue(es, nq.id);
  }

  /** What the column defaults of a queue are for: a queue created with a
      fresh key, zero patients and no estimate is well formed over the current
      entries, since none of them can belong to it. */
  lemma NewQueueOk(es: seq<QueueEntry>, qs: seq<Queue>, doctorId: int)
    requires EntriesOwned(es, qs)
    ensures QueueOk(NewQueue(NextKey(QueueIds(qs)), doctorId), es)
    ensures Line(es, NextKey(QueueIds(qs))) == []
  {
    NewQueueOwnsNothing(es, qs, NewQueue(NextKey(QueueIds(qs)), doctorId));
  }

  /** Appending a queue leaves every lookup that hits an older queue where it was. */
  lemma {:induction false} FindQueuePrefix(qs: seq<Queue>, q: Queue, doctorId: int, k: nat)
    requires k <= |qs|
    ensures FindQueue(qs + [q], doctorId, k) ==
      if FindQueue(qs, doctorId, k).Some? then FindQueue(qs, doctorId, k)
      else if q.doctorId == doctorId then Some(|qs|) else None
    decreases |qs| - k
  {
    if k < |qs| {
      FindQueuePrefix(qs, q, doctorId, k + 1);
    } else {
      assert (qs + [q])[k] == q;
    }
  }

  /** A queue whose line is valid stays valid with the new patient appended. */
  lemma ExtendOk(q: Queue, line: seq<QueueEntry>, e: QueueEntry)
    requires Dense(line) && NoRepeats(line) && |line| == q.totalPatients
    requires e.position == q.totalPatients + 1
    requires e.patientId !in PatientsOf(line)
    ensures var line' := line + [e];
      Dense(line') && NoRepeats(line') && |line'| == q.totalPatients + 1
  {
    var line' := line + [e];
    forall i, j | 0 <= i < j < |line'| ensures line'[i].patientId != line'[j].patientId {
      if j == |line| {
        assert PatientsOf(line)[i] == line[i].patientId;
      }
    }
  }

  /** How each line changes when patient `p` is added to queue `qi`. */
  lemma AppendEntryLines(db: Db, qi: nat, p: int, qid: int)
    requires qi < |db.queues|
    ensures Line(AppendEntry(db, qi, p).entries, qid) ==
      if qid == db.queues[qi].id then Line(db.entries, qid) + [NewEntry(db, qi, p)] else Line(db.entries, qid)
  {
    LineSnoc(db.entries, NewEntry(db, qi, p), qid);
  }

  /** Appending the entry of a new patient at the end of a valid queue keeps the store valid. */
  lemma AppendEntryValid(db: Db, qi: nat, p: int)
    requires QueuesValid(db) && qi < |db.queues|
    requires p !in PatientsOf(Line(db.entries, db.queues[qi].id))
    ensures QueuesValid(AppendEntry(db, qi, p))
  {
    var db' := AppendEntry(db, qi, p);
    PointwiseKeepsUnique(db.queues, db'.queues);
    AppendEntryOwned(db, qi, p);
    assert AllQueuesOk(db'.queues, db'.entries) by {
      forall i | 0 <= i < |db'.queues| ensures QueueOk(db'.queues[i], db'.entries) {
        AppendEntryOk(db, qi, p, i);
      }
    }
  }

  /** The appended entry belongs to an existing queue. */
  lemma AppendEntryOwned(db: Db, qi: nat, p: int)
    requires qi < |db.queues| && EntriesOwned(db.entries, db.queues)
    ensures EntriesOwned(AppendEntry(db, qi, p).entries, AppendEntry(db, qi, p).queues)
  {
    var db' := AppendEntry(db, qi, p);
    assert QueueIds(db'.queues) == QueueIds(db.queues);
    forall k | 0 <= k < |db'.entries| ensures db'.entries[k].queueId in QueueIds(db'.queues) {
      if k < |db.entries| {
        assert db'.entries[k] == db.entries[k];
      } else {
        InQueueIds(db.queues, qi);
      }
    }
  }

  /** Queue `i` is still well formed after the append: the extended queue by
      `ExtendOk`, any other queue because its line is untouched. */
  lemma AppendEntryOk(db: Db, qi: nat, p: int, i: nat)
    requires qi < |db.queues| && i < |db.queues|
    requires UniqueQueueIds(db.queues) && AllQueuesOk(db.queues, db.entries)
    requires p !in PatientsOf(Line(db.entries, db.queues[qi].id))
    ensures QueueOk(AppendEntry(db, qi, p).queues[i], AppendEntry(db, qi, p).entries)
  {
    assert QueueOk(db.queues[i], db.entries);
    if i == qi {
      AppendSelfOk(db, qi, p);
    } else {
      AppendOtherOk(db, qi, p, i);
    }
  }

  lemma AppendSelfOk(db: Db, qi: nat, p: int)
    requires qi < |db.queues| && QueueOk(db.queues[qi], db.entries)
    requires p !in PatientsOf(Line(db.entries, db.queues[qi].id))
    ensures QueueOk(AppendEntry(db, qi, p).queues[qi], AppendEntry(db, qi, p).entries)
  {
    var q := db.queues[qi];
    var q' := AppendEntry(db, qi, p).queues[qi];
    var position := q.totalPatients + 1;
    assert q' == q.(totalPatients := position, estimatedWait := Some(WaitText(position * MINUTES_PER_PATIENT)));
    assert WaitAgrees(q');
    AppendEntryLines(db, qi, p, q.id);
    ExtendOk(q, Line(db.entries, q.id), NewEntry(db, qi, p));
  }

  lemma AppendOtherOk(db: Db, qi: nat, p: int, i: nat)
    requires qi < |db.queues| && i < |db.queues| && i != qi
    requires UniqueQueueIds(db.queues) && QueueOk(db.queues[i], db.entries)
    ensures QueueOk(AppendEntry(db, qi, p).queues[i], AppendEntry(db, qi, p).entries)
  {
    AppendEntryLines(db, qi, p, db.queues[i].id);
    assert AppendEntry(db, qi, p).queues[i] == db.queues[i];
  }

  /** Join keeps the store valid; a lazily created queue is the only queue of its doctor. */
  lemma JoinPreservesValid(db: Db, form: JoinForm)
    requires QueuesValid(db)
    ensures Join(db, form).Success? ==> QueuesValid(Join(db, form).value.0)
  {
    if Join(db, form).Success? {
      EnsureQueueValid(db, form.doctorId.value);
      var (db1, qi) := EnsureQueue(db, form.doctorId.value);
      AppendEntryValid(db1, qi, form.patientId.value);
    }
  }

  lemma PatientsOfSnoc(line: seq<QueueEntry>, e: QueueEntry)
    ensures PatientsOf(line + [e]) == PatientsOf(line) + [e.patientId]
  {
  }

  /** With both fields present and both rows found, join conflicts exactly
      when the patient is already in the doctor's line. */
  lemma JoinConflicts(db: Db, form: JoinForm)
    requires QueuesValid(db)
    requires form.doctorId.Some? && form.patientId.Some?
    requires form.doctorId.value in DoctorIds(db.doctors) && form.patientId.value in UserIds(db.users)
    ensures Join(db, form).Failure? <==> form.patientId.value in WaitingLine(db, form.doctorId.value)
    ensures Join(db, form).Failure? ==> Join(db, form).error == Error(Conflict, ALREADY_QUEUED)
  {
    EnsureQueueValid(db, form.doctorId.value);
  }

  /** The first join for a doctor without a queue opens one: it succeeds, the
      patient is first in line at position 1, and the estimate is 15 minutes. */
  lemma FirstJoinOpensQueue(db: Db, form: JoinForm)
    requires QueuesValid(db)
    requires form.doctorId.Some? && form.patientId.Some?
    requires form.doctorId.value in DoctorIds(db.doctors) && form.patientId.value in UserIds(db.users)
    requires QueueOf(db.queues, form.doctorId.value).None?
    ensures Join(db, form).Success?
    ensures Join(db, form).value.1 == Joined(1, WaitText(MINUTES_PER_PATIENT))
    ensures WaitingLine(Join(db, form).value.0, form.doctorId.value) == [form.patientId.value]
  {
    assert WaitingLine(db, form.doctorId.value) == [];
    JoinConflicts(db, form);
    JoinAppends(db, form);
    var j := Join(db, form).value.1;
    assert j.position == 1 && j.estimatedWait == WaitText((0 + 1) * MINUTES_PER_PATIENT);
  }

  /** Join is FIFO: the patient goes to the back of the doctor's line, at
      position total_patients + 1 == the new length of the line, with an
      estimate of 15 minutes per waiting patient. */
  lemma JoinAppends(db: Db, form: JoinForm)
    requires QueuesValid(db)
    requires Join(db, form).Success?
    ensures WaitingLine(Join(db, form).value.0, form.doctorId.value)
      == WaitingLine(db, form.doctorId.value) + [form.patientId.value]
    ensures Join(db, form).value.1.position == |WaitingLine(db, form.doctorId.value)| + 1
    ensures Join(db, form).value.1.estimatedWait
      == WaitText((|WaitingLine(db, form.doctorId.value)| + 1) * MINUTES_PER_PATIENT)
  {
    var d, p := form.doctorId.value, form.patientId.value;
    JoinStep(db, form);
    EnsureQueueValid(db, d);
    var (db1, qi) := EnsureQueue(db, d);
    assert QueueOk(db1.queues[qi], db1.entries);
    AppendEntryAppends(db1, qi, p, d);
  }

  /** Appending to the queue of doctor `d` puts the patient at the back of `d`'s line. */
  lemma AppendEntryAppends(db: Db, qi: nat, p: int, d: int)
    requires qi < |db.queues| && QueueOf(db.queues, d) == Some(qi)
    requires |Line(db.entries, db.queues[qi].id)| == db.queues[qi].totalPatients
    ensures WaitingLine(AppendEntry(db, qi, p), d) == WaitingLine(db, d) + [p]
    ensures db.queues[qi].totalPatients == |WaitingLine(db, d)|
  {
    var db' := AppendEntry(db, qi, p);
    var line := Line(db.entries, db.queues[qi].id);
    AppendEntryLines(db, qi, p, db.queues[qi].id);
    WaitingLineInPlace(db, db', d);
    PatientsOfSnoc(line, NewEntry(db, qi, p));
  }

  /** Appending to queue `qi` leaves the line of every doctor whose queue has another key. */
  lemma AppendEntryLeaves(db: Db, qi: nat, p: int, d2: int)
    requires qi < |db.queues| && UniqueQueueIds(db.queues)
    requires QueueOf(db.queues, d2) != Some(qi)
    ensures WaitingLine(AppendEntry(db, qi, p), d2) == WaitingLine(db, d2)
  {
    var db' := AppendEntry(db, qi, p);
    WaitingLineInPlace(db, db', d2);
    match QueueOf(db.queues, d2)
    case None =>
    case Some(i) =>
      AppendEntryLines(db, qi, p, db.queues[i].id);
  }

  /** A successful join is the lazily ensured queue with the patient appended. */
  lemma JoinStep(db: Db, form: JoinForm)
    requires Join(db, form).Success?
    ensures form.doctorId.Some? && form.patientId.Some?
    ensures var (db1, qi) := EnsureQueue(db, form.doctorId.value);
      var position := db1.queues[qi].totalPatients + 1;
      && Join(db, form).value.0 == AppendEntry(db1, qi, form.patientId.value)
      && Join(db, form).value.1 == Joined(position, WaitText(position * MINUTES_PER_PATIENT))
  {
  }

  /** Join moves no other doctor's line. */
  lemma JoinLeavesOthers(db: Db, form: JoinForm, d2: int)
    requires QueuesValid(db)
    requires Join(db, form).Success? && d2 != form.doctorId.value
    ensures WaitingLine(Join(db, form).value.0, d2) == WaitingLine(db, d2)
  {
    var d, p := form.doctorId.value, form.patientId.value;
    JoinStep(db, form);
    EnsureQueueValid(db, d);
    var (db1, qi) := EnsureQueue(db, d);
    AppendEntryLeaves(db1, qi, p, d2);
  }

  // ---------------------------------------------------------------------------
  // get_queue_status

  datatype Row = Row(position: int, patientId: int, status: EntryStatus)
  datatype StatusView = StatusView(totalPatients: int, estimatedWait: Option<string>, current: seq<Row>)

  function RowPosition(row: Row): int {
    row.position
  }

  function Rows(line: seq<QueueEntry>): seq<Row> {
    seq(|line|, k requires 0 <= k < |line| => Row(line[k].position, line[k].patientId, line[k].status))
  }

  /** `get_queue_status`: read-only. A doctor without a queue is an error
      (the code answers "Queue not found for this doctor"); otherwise the
      counter, the estimate, and the waiting entries ordered by position. */
  function Status(db: Db, doctorId: int): (r: Result<StatusView, Error>)
    ensures r.Failure? <==> QueueOf(db.queues, doctorId).None?
    ensures r.Failure? ==> r.error == Error(NotFound, NO_QUEUE)
    ensures r.Success? ==>
      var q := db.queues[QueueOf(db.queues, doctorId).value];
      && r.value.totalPatients == q.totalPatients
      && r.value.estimatedWait == q.estimatedWait
      && Sorting.SortedBy(r.value.current, RowPosition)
      && multiset(r.value.current) == multiset(Rows(Line(db.entries, q.id)))
  {
    match QueueOf(db.queues, doctorId)
    case None => Failure(Error(NotFound, NO_QUEUE))
    case Some(i) =>
      var q := db.queues[i];
      Success(StatusView(q.totalPatients, q.estimatedWait,
                         Sorting.SortBy(Rows(Line(db.entries, q.id)), RowPosition)))
  }

  /** On a valid store the status lists the doctor's line head first, at
      positions 1..N, every entry waiting, with N == total_patients and the
      estimate 15 minutes per waiting patient once set. */
  lemma StatusShowsLine(db: Db, doctorId: int)
    requires QueuesValid(db)
    requires QueueOf(db.queues, doctorId).Some?
    ensures var w := WaitingLine(db, doctorId);
      var v := Status(db, doctorId).value;
      && v.totalPatients == |w|
      && v.current == seq(|w|, k requires 0 <= k < |w| => Row(k + 1, w[k], Waiting))
      && (v.estimatedWait.None? ==> |w| == 0)
      && (v.estimatedWait.Some? ==> v.estimatedWait.value == WaitText(|w| * MINUTES_PER_PATIENT))
  {
    var qi := QueueOf(db.queues, doctorId).value;
    var q := db.queues[qi];
    var line := Line(db.entries, q.id);
    assert QueueOk(q, db.entries);
    var w := PatientsOf(line);
    assert WaitingLine(db, doctorId) == w;
    RowsOfDense(line, q.id);
    Sorting.SortBySorted(Rows(line), RowPosition);
    assert Status(db, doctorId).value.current == Rows(line);
  }

  /** The rows of a dense waiting line are already in position order, and
      read 1..N with the line's patients, all waiting. */
  lemma RowsOfDense(line: seq<QueueEntry>, qid: int)
    requires Dense(line)
    requires forall k :: 0 <= k < |line| ==> Waits(line[k], qid)
    ensures Sorting.SortedBy(Rows(line), RowPosition)
    ensures var w := PatientsOf(line);
      Rows(line) == seq(|w|, k requires 0 <= k < |w| => Row(k + 1, w[k], Waiting))
  {
  }

  // ---------------------------------------------------------------------------
  // process_next_patient

  datatype Advanced = Advanced(patientId: int, remaining: int)

  /** `QueueEntry.query.filter_by(queue_id=qid, status="waiting").order_by(position).first()`
      over the entries from index `k` on: a waiting entry of least position,
      the earliest stored one among equals. */
  function HeadFrom(es: seq<QueueEntry>, qid: int, k: nat): (r: Option<nat>)
    requires k <= |es|
    ensures r.None? <==> forall j :: k <= j < |es| ==> !Waits(es[j], qid)
    ensures r.Some? ==> k <= r.value < |es| && Waits(es[r.value], qid)
    ensures r.Some? ==> forall j :: k <= j < |es| && Waits(es[j], qid) ==>
      es[r.value].position <= es[j].position
    ensures r.Some? ==> forall j :: k <= j < r.value && Waits(es[j], qid) ==>
      es[r.value].position < es[j].position
    decreases |es| - k
  {
    if k == |es| then None
    else
      var rest := HeadFrom(es, qid, k + 1);
      if Waits(es[k], qid) && (rest.None? || es[k].position <= es[rest.value].position) then Some(k)
      else rest
  }

  /** `patient.position -= 1` for every remaining waiting entry of queue `qid`. */
  function Shift(es: seq<QueueEntry>, qid: int): seq<QueueEntry> {
    seq(|es|, k requires 0 <= k < |es| =>
      if Waits(es[k], qid) then es[k].(position := es[k].position - 1) else es[k])
  }

  function Lower(line: seq<QueueEntry>): seq<QueueEntry> {
    seq(|line|, k requires 0 <= k < |line| => line[k].(position := line[k].position - 1))
  }

  /** Shifting lowers every position of the shifted line and leaves other lines alone. */
  lemma {:induction false} LineShift(es: seq<QueueEntry>, qid: int, other: int)
    ensures Line(Shift(es, qid), qid) == Lower(Line(es, qid))
    ensures other != qid ==> Line(Shift(es, qid), other) == Line(es, other)
    decreases |es|
  {
    if es != [] {
      assert Shift(es, qid)[1..] == Shift(es[1..], qid);
      LineShift(es[1..], qid, other);
    }
  }

  /** On a dense line the head found is the first waiting entry in storage
      order, i.e. the head of the line. */
  lemma HeadIsFirst(es: seq<QueueEntry>, qid: int)
    requires Dense(Line(es, qid)) && Line(es, qid) != []
    ensures HeadFrom(es, qid, 0).Some?
    ensures var h := HeadFrom(es, qid, 0).value;
      es[h] == Line(es, qid)[0] && Line(es[..h] + es[h + 1..], qid) == Line(es, qid)[1..]
  {
    HeadAtFront(es, qid);
    FrontIsFirst(es, qid, HeadFrom(es, qid, 0).value);
  }

  /** A waiting entry at position at most 1 of a dense line is its first
      element, and deleting it leaves the rest of the line. */
  lemma FrontIsFirst(es: seq<QueueEntry>, qid: int, h: nat)
    requires Dense(Line(es, qid)) && h < |es|
    requires Waits(es[h], qid) && es[h].position <= 1
    ensures Line(es, qid) != []
    ensures es[h] == Line(es, qid)[0] && Line(es[..h] + es[h + 1..], qid) == Line(es, qid)[1..]
  {
    LineAt(es, h, qid);
    LineOne(es[h], qid);
    var pre, post := Line(es[..h], qid), Line(es[h + 1..], qid);
    DenseFront(pre, es[h], post);
  }

  /** In a dense line, an element at position at most 1 has nothing before it. */
  lemma DenseFront(pre: seq<QueueEntry>, x: QueueEntry, post: seq<QueueEntry>)
    requires Dense(pre + [x] + post) && x.position <= 1
    ensures pre == [] && pre + [x] + post == [x] + post
    ensures (pre + [x] + post)[1..] == pre + post
  {
    assert (pre + [x] + post)[|pre|] == x;
    assert pre == [];
  }

  /** The head found on a dense line has position at most 1. */
  lemma HeadAtFront(es: seq<QueueEntry>, qid: int)
    requires Dense(Line(es, qid)) && Line(es, qid) != []
    ensures HeadFrom(es, qid, 0).Some?
    ensures es[HeadFrom(es, qid, 0).value].position <= 1
  {
    LineFromTable(es, qid, 0);
    var j :| 0 <= j < |es| && es[j] == Line(es, qid)[0];
    assert es[j].position == 1 && Waits(es[j], qid);
  }

  /** The store after the head entry `h` of queue `qi` is deleted: the counter
      drops by one, remaining waiting positions drop by one, and the estimate
      is rewritten ("0 minutes" once the queue is empty). */
  function PopHead(db: Db, qi: nat, h: nat): Db
    requires qi < |db.queues| && h < |db.entries|
  {
    var q := db.queues[qi];
    var total := q.totalPatients - 1;
    var wait := if total > 0 then WaitText(total * MINUTES_PER_PATIENT) else "0 minutes";
    db.(queues := db.queues[qi := q.(totalPatients := total, estimatedWait := Some(wait))],
        entries := Shift(db.entries[..h] + db.entries[h + 1..], q.id))
  }

  /** `process_next_patient`. No queue, or nobody waiting, is NotFound and
      changes nothing. Otherwise the head entry is deleted and the queue
      renumbered (`PopHead`), and the head's patient is returned. */
  function Advance(db: Db, doctorId: int): (r: Result<(Db, Advanced), Error>)
    ensures r.Failure? <==> WaitingLine(db, doctorId) == []
    ensures r.Failure? ==> r.error.kind == NotFound
    ensures r.Failure? ==>
      (r.error.message == NO_QUEUE <==> QueueOf(db.queues, doctorId).None?)
    ensures r.Failure? && QueueOf(db.queues, doctorId).Some? ==> r.error.message == NO_PATIENTS
    ensures r.Success? ==>
      var (db', adv) := r.value;
      && db'.users == db.users && db'.doctors == db.doctors && db'.slots == db.slots
      && |db'.entries| == |db.entries| - 1
      && |db'.queues| == |db.queues|
      && adv.patientId in WaitingLine(db, doctorId)
  {
    match QueueOf(db.queues, doctorId)
    case None => Failure(Error(NotFound, NO_QUEUE))
    case Some(qi) =>
      var q := db.queues[qi];
      match HeadFrom(db.entries, q.id, 0)
      case None =>
        LineNone(db.entries, q.id);
        Failure(Error(NotFound, NO_PATIENTS))
      case Some(h) =>
        var head := db.entries[h];
        assert head.patientId in WaitingLine(db, doctorId) by {
          LineAt(db.entries, h, q.id);
          LineOne(head, q.id);
          var line := Line(db.entries, q.id);
          assert line[|Line(db.entries[..h], q.id)|] == head;
          assert PatientsOf(line)[|Line(db.entries[..h], q.id)|] == head.patientId;
        }
        Success((PopHead(db, qi, h), Advanced(head.patientId, q.totalPatients - 1)))
  }

  /** How each line changes when the head `h` of queue `qi` is popped. */
  lemma PopHeadLines(db: Db, qi: nat, h: nat, qid: int)
    requires qi < |db.queues| && h < |db.entries|
    requires Waits(db.entries[h], db.queues[qi].id)
    ensures qid != db.queues[qi].id ==> Line(PopHead(db, qi, h).entries, qid) == Line(db.entries, qid)
    ensures qid == db.queues[qi].id ==>
      Line(PopHead(db, qi, h).entries, qid) == Lower(Line(db.entries[..h] + db.entries[h + 1..], qid))
  {
    var es := db.entries;
    var own := db.queues[qi].id;
    assert PopHead(db, qi, h).entries == Shift(es[..h] + es[h + 1..], own);
    if qid != own {
      DeleteLeavesOtherLine(es, h, own, qid);
    } else {
      LineShift(es[..h] + es[h + 1..], own, qid);
    }
  }

  /** Deleting a waiting entry of queue `own` and shifting that queue leaves every other line. */
  lemma DeleteLeavesOtherLine(es: seq<QueueEntry>, h: nat, own: int, qid: int)
    requires h < |es| && Waits(es[h], own) && qid != own
    ensures Line(Shift(es[..h] + es[h + 1..], own), qid) == Line(es, qid)
  {
    LineShift(es[..h] + es[h + 1..], own, qid);
    LineAt(es, h, qid);
    LineOne(es[h], qid);
    assert Line(es, qid) == Line(es[..h], qid) + Line(es[h + 1..], qid);
  }

  /** A valid queue stays valid with its head removed and the counter and estimate lowered. */
  lemma PopOk(q: Queue, line: seq<QueueEntry>, q': Queue)
    requires Dense(line) && NoRepeats(line) && |line| == q.totalPatients && line != []
    requires q'.totalPatients == q.totalPatients - 1
    requires q'.estimatedWait == Some(if q'.totalPatients > 0 then WaitText(q'.totalPatients * MINUTES_PER_PATIENT) else "0 minutes")
    requires WaitText(0 * MINUTES_PER_PATIENT) == "0 minutes"
    ensures var line' := Lower(line[1..]);
      Dense(line') && NoRepeats(line') && |line'| == q'.totalPatients && WaitAgrees(q')
  {
    var line' := Lower(line[1..]);
    forall i, j | 0 <= i < j < |line'| ensures line'[i].patientId != line'[j].patientId {
      assert line'[i].patientId == line[i + 1].patientId;
      assert line'[j].patientId == line[j + 1].patientId;
    }
  }

  /** Popping the head of a valid queue keeps the store valid: positions 1..N become 1..N-1. */
  lemma PopHeadValid(db: Db, qi: nat)
    requires QueuesValid(db) && qi < |db.queues|
    requires Line(db.entries, db.queues[qi].id) != []
    ensures HeadFrom(db.entries, db.queues[qi].id, 0).Some?
    ensures QueuesValid(PopHead(db, qi, HeadFrom(db.entries, db.queues[qi].id, 0).value))
  {
    var q := db.queues[qi];
    assert QueueOk(q, db.entries);
    HeadIsFirst(db.entries, q.id);
    PopHeadValidAt(db, qi, HeadFrom(db.entries, q.id, 0).value);
  }

  /** Deleting the head `h` of queue `qi`'s line keeps the store valid. */
  lemma PopHeadValidAt(db: Db, qi: nat, h: nat)
    requires qi < |db.queues| && h < |db.entries| && QueuesValid(db)
    requires Line(db.entries, db.queues[qi].id) != []
    requires db.entries[h] == Line(db.entries, db.queues[qi].id)[0]
    requires Line(db.entries[..h] + db.entries[h + 1..], db.queues[qi].id) == Line(db.entries, db.queues[qi].id)[1..]
    ensures QueuesValid(PopHead(db, qi, h))
  {
    var db' := PopHead(db, qi, h);
    PointwiseKeepsUnique(db.queues, db'.queues);
    PopHeadOwned(db, qi, h);
    PopHeadAllOk(db, qi, h);
  }

  /** Every queue stays valid when the head `h` of queue `qi` is deleted. */
  lemma PopHeadAllOk(db: Db, qi: nat, h: nat)
    requires qi < |db.queues| && h < |db.entries|
    requires UniqueQueueIds(db.queues) && AllQueuesOk(db.queues, db.entries)
    requires Line(db.entries, db.queues[qi].id) != []
    requires db.entries[h] == Line(db.entries, db.queues[qi].id)[0]
    requires Line(db.entries[..h] + db.entries[h + 1..], db.queues[qi].id) == Line(db.entries, db.queues[qi].id)[1..]
    ensures AllQueuesOk(PopHead(db, qi, h).queues, PopHead(db, qi, h).entries)
  {
    var db' := PopHead(db, qi, h);
    forall i | 0 <= i < |db'.queues| ensures QueueOk(db'.queues[i], db'.entries) {
      assert QueueOk(db.queues[i], db.entries);
      if i == qi {
        PopHeadSelfOk(db, qi, h);
      } else {
        PopHeadOthersOk(db, qi, h, i);
      }
    }
  }

  /** Deleting an entry and renumbering keeps every entry owned by a queue. */
  lemma PopHeadOwned(db: Db, qi: nat, h: nat)
    requires qi < |db.queues| && h < |db.entries|
    requires EntriesOwned(db.entries, db.queues)
    ensures EntriesOwned(PopHead(db, qi, h).entries, PopHead(db, qi, h).queues)
  {
    var es := db.entries;
    var db' := PopHead(db, qi, h);
    assert QueueIds(db'.queues) == QueueIds(db.queues);
    forall k | 0 <= k < |db'.entries| ensures db'.entries[k].queueId in QueueIds(db.queues) {
      if k < h {
        assert db'.entries[k].queueId == es[k].queueId;
      } else {
        assert db'.entries[k].queueId == es[k + 1].queueId;
      }
    }
  }

  /** The popped queue stays valid once its head `h` is deleted. */
  lemma PopHeadSelfOk(db: Db, qi: nat, h: nat)
    requires qi < |db.queues| && h < |db.entries|
    requires QueueOk(db.queues[qi], db.entries) && Line(db.entries, db.queues[qi].id) != []
    requires db.entries[h] == Line(db.entries, db.queues[qi].id)[0]
    requires Line(db.entries[..h] + db.entries[h + 1..], db.queues[qi].id) == Line(db.entries, db.queues[qi].id)[1..]
    ensures QueueOk(PopHead(db, qi, h).queues[qi], PopHead(db, qi, h).entries)
  {
    var q := db.queues[qi];
    var db' := PopHead(db, qi, h);
    PopHeadLines(db, qi, h, q.id);
    ZeroWaitText();
    PopOk(q, Line(db.entries, q.id), db'.queues[qi]);
  }

  /** Any other queue keeps its line, counter and estimate when queue `qi` is popped. */
  lemma PopHeadOthersOk(db: Db, qi: nat, h: nat, i: nat)
    requires qi < |db.queues| && i < |db.queues| && i != qi && h < |db.entries|
    requires UniqueQueueIds(db.queues)
    requires Waits(db.entries[h], db.queues[qi].id)
    requires QueueOk(db.queues[i], db.entries)
    ensures QueueOk(PopHead(db, qi, h).queues[i], PopHead(db, qi, h).entries)
  {
    PopHeadLines(db, qi, h, db.queues[i].id);
    assert PopHead(db, qi, h).queues[i] == db.queues[i];
  }

  lemma PatientsOfTail(line: seq<QueueEntry>)
    requires line != []
    ensures PatientsOf(line)[0] == line[0].patientId
    ensures PatientsOf(Lower(line[1..])) == PatientsOf(line)[1..]
  {
  }

  /** Advance keeps the store valid: positions 1..N become 1..N-1. */
  lemma AdvancePreservesValid(db: Db, doctorId: int)
    requires QueuesValid(db)
    ensures Advance(db, doctorId).Success? ==> QueuesValid(Advance(db, doctorId).value.0)
  {
    if Advance(db, doctorId).Success? {
      var qi := QueueOf(db.queues, doctorId).value;
      PopHeadValid(db, qi);
    }
  }

  /** Deleting the head `h` of the doctor's line leaves the rest of the line. */
  lemma PopHeadPopsAt(db: Db, doctorId: int, qi: nat, h: nat)
    requires qi < |db.queues| && h < |db.entries|
    requires QueueOf(db.queues, doctorId) == Some(qi)
    requires Line(db.entries, db.queues[qi].id) != []
    requires db.entries[h] == Line(db.entries, db.queues[qi].id)[0]
    requires Line(db.entries[..h] + db.entries[h + 1..], db.queues[qi].id) == Line(db.entries, db.queues[qi].id)[1..]
    ensures db.entries[h].patientId == WaitingLine(db, doctorId)[0]
    ensures WaitingLine(PopHead(db, qi, h), doctorId) == WaitingLine(db, doctorId)[1..]
  {
    var q := db.queues[qi];
    var line := Line(db.entries, q.id);
    var db' := PopHead(db, qi, h);
    PopHeadLines(db, qi, h, q.id);
    WaitingLineInPlace(db, db', doctorId);
    PatientsOfTail(line);
  }

  /** Advance is FIFO: on a valid store it returns the head of the doctor's
      line, the line loses exactly its head, and the reported remainder is the
      new length. */
  lemma AdvancePops(db: Db, doctorId: int)
    requires QueuesValid(db)
    requires Advance(db, doctorId).Success?
    ensures Advance(db, doctorId).value.1.patientId == WaitingLine(db, doctorId)[0]
    ensures WaitingLine(Advance(db, doctorId).value.0, doctorId) == WaitingLine(db, doctorId)[1..]
    ensures Advance(db, doctorId).value.1.remaining == |WaitingLine(db, doctorId)| - 1
  {
    var qi, h := AdvanceHead(db, doctorId);
    AdvancePopsAt(db, doctorId, qi, h, Advance(db, doctorId).value);
  }

  /** On a valid store, a successful advance pops the first entry `h` of the
      doctor's line in queue `qi`, and the line's length is the queue's counter. */
  lemma AdvanceHead(db: Db, doctorId: int) returns (qi: nat, h: nat)
    requires QueuesValid(db)
    requires Advance(db, doctorId).Success?
    ensures qi < |db.queues| && h < |db.entries|
    ensures QueueOf(db.queues, doctorId) == Some(qi)
    ensures |Line(db.entries, db.queues[qi].id)| == db.queues[qi].totalPatients
    ensures Line(db.entries, db.queues[qi].id) != []
    ensures db.entries[h] == Line(db.entries, db.queues[qi].id)[0]
    ensures Line(db.entries[..h] + db.entries[h + 1..], db.queues[qi].id) == Line(db.entries, db.queues[qi].id)[1..]
    ensures Advance(db, doctorId).value == (PopHead(db, qi, h), Advanced(db.entries[h].patientId, db.queues[qi].totalPatients - 1))
  {
    AdvanceStep(db, doctorId);
    qi := QueueOf(db.queues, doctorId).value;
    var q := db.queues[qi];
    assert QueueOk(q, db.entries);
    HeadIsFirst(db.entries, q.id);
    h := HeadFrom(db.entries, q.id, 0).value;
  }

  /** The FIFO step for a known queue `qi` and head `h` of its line. */
  lemma AdvancePopsAt(db: Db, doctorId: int, qi: nat, h: nat, out: (Db, Advanced))
    requires qi < |db.queues| && h < |db.entries|
    requires QueueOf(db.queues, doctorId) == Some(qi)
    requires |Line(db.entries, db.queues[qi].id)| == db.queues[qi].totalPatients
    requires Line(db.entries, db.queues[qi].id) != []
    requires db.entries[h] == Line(db.entries, db.queues[qi].id)[0]
    requires Line(db.entries[..h] + db.entries[h + 1..], db.queues[qi].id) == Line(db.entries, db.queues[qi].id)[1..]
    requires out == (PopHead(db, qi, h), Advanced(db.entries[h].patientId, db.queues[qi].totalPatients - 1))
    ensures out.1.patientId == WaitingLine(db, doctorId)[0]
    ensures WaitingLine(out.0, doctorId) == WaitingLine(db, doctorId)[1..]
    ensures out.1.remaining == |WaitingLine(db, doctorId)| - 1
  {
    PopHeadPopsAt(db, doctorId, qi, h);
  }

  /** A successful advance deletes the head `h` of the doctor's queue `qi`. */
  lemma AdvanceStep(db: Db, doctorId: int)
    requires Advance(db, doctorId).Success?
    ensures QueueOf(db.queues, doctorId).Some?
    ensures var qi := QueueOf(db.queues, doctorId).value;
      && HeadFrom(db.entries, db.queues[qi].id, 0).Some?
      && var h := HeadFrom(db.entries, db.queues[qi].id, 0).value;
      && Waits(db.entries[h], db.queues[qi].id)
      && Advance(db, doctorId).value.0 == PopHead(db, qi, h)
      && Advance(db, doctorId).value.1 == Advanced(db.entries[h].patientId, db.queues[qi].totalPatients - 1)
  {
  }

  /** Advance moves no other doctor's line. */
  lemma AdvanceLeavesOthers(db: Db, doctorId: int, d2: int)
    requires QueuesValid(db)
    requires Advance(db, doctorId).Success? && d2 != doctorId
    ensures WaitingLine(Advance(db, doctorId).value.0, d2) == WaitingLine(db, d2)
  {
    AdvanceStep(db, doctorId);
    var qi := QueueOf(db.queues, doctorId).value;
    var h := HeadFrom(db.entries, db.queues[qi].id, 0).value;
    PopHeadLeaves(db, qi, h, d2);
  }

  /** Deleting a waiting entry of queue `qi` leaves the line of every doctor not served by `qi`. */
  lemma PopHeadLeaves(db: Db, qi: nat, h: nat, d2: int)
    requires UniqueQueueIds(db.queues)
    requires qi < |db.queues| && h < |db.entries|
    requires Waits(db.entries[h], db.queues[qi].id)
    requires db.queues[qi].doctorId != d2
    ensures WaitingLine(PopHead(db, qi, h), d2) == WaitingLine(db, d2)
  {
    var db' := PopHead(db, qi, h);
    WaitingLineInPlace(db, db', d2);
    match QueueOf(db.queues, d2)
    case None =>
    case Some(i) =>
      assert i != qi;
      PopHeadLines(db, qi, h, db.queues[i].id);
  }

  /** A patient who joins an empty line is the next one advanced, and the line is empty again. */
  lemma JoinThenAdvance(db: Db, form: JoinForm)
    requires QueuesValid(db)
    requires form.doctorId.Some? && Join(db, form).Success?
    requires WaitingLine(db, form.doctorId.value) == []
    ensures var db' := Join(db, form).value.0;
      && Advance(db', form.doctorId.value).Success?
      && Advance(db', form.doctorId.value).value.1.patientId == form.patientId.value
      && WaitingLine(Advance(db', form.doctorId.value).value.0, form.doctorId.value) == []
  {
    JoinAppends(db, form);
    JoinPreservesValid(db, form);
    AdvancePops(Join(db, form).value.0, form.doctorId.value);
  }

  // ---------------------------------------------------------------------------
  // The HTTP answers of the three routes

  /** What `join_queue` sends: 201 exactly when the patient was queued, 409
      with "Patient already in queue" for a patient already waiting, and 400
      exactly when a field is missing. */
  function JoinResponse(db: Db, form: JoinForm): (e: Envelope<Joined>)
    ensures e.code == CREATED <==> Join(db, form).Success?
    ensures e.code == 400 <==> form.doctorId.None? || form.patientId.None?
    ensures e.code == 409 ==> e.response == Text(ALREADY_QUEUED)
    ensures e.code == CREATED ==> e.status == "success" && e.response == Data(Join(db, form).value.1)
  {
    Respond(ReplyOf(Join(db, form)), CREATED)
  }

  /** What `get_queue_status` sends: 200 with the view when the doctor has a
      queue, 404 "Queue not found for this doctor" otherwise. */
  function StatusResponse(db: Db, doctorId: int): (e: Envelope<StatusView>)
    ensures e.code == OK <==> QueueOf(db.queues, doctorId).Some?
    ensures e.code != OK ==> e == Envelope("error", Text(NO_QUEUE), 404)
  {
    Respond(Status(db, doctorId), OK)
  }

  /** What `process_next_patient` sends: 404 exactly when nobody waits for the
      doctor, 200 with the patient called otherwise. */
  function AdvanceResponse(db: Db, doctorId: int): (e: Envelope<Advanced>)
    ensures e.code == 404 <==> WaitingLine(db, doctorId) == []
    ensures e.code != 404 ==> e.code == OK && e.status == "success"
    ensures e.code == 404 ==> e.response == Text(if QueueOf(db.queues, doctorId).None? then NO_QUEUE else NO_PATIENTS)
  {
    Respond(ReplyOf(Advance(db, doctorId)), OK)
  }
}
