# Clinic kiosk backend — a Dafny model

This project models the server core of a hospital check-in kiosk. The kiosk
is a Flask application. Patients sign in with their SSN and phone number,
check in, join a doctor's walk-in queue and book appointment slots. Doctors
call the next patient.

Each route handler is modelled as one pure, atomic transition over the tables
it touches. A table is a sequence of rows in insertion order. The queue routes
take the whole store (`Models.Db`, a record of all tables), because they read
users and doctors and write queues and entries. The slot, patient and
registration routes take only their own table (`seq<Slot>`, `seq<User>` or
`seq<Doctor>`). A handler returns either `Success((table', reply))` or
`Failure(Error(kind, message))`. A failure carries no table, so an error
changes nothing. The patient routes always answer, so they return a table and
an `Answer` (code and text) instead.

The modules are:

- `Models` (models.dfy): the rows `User`, `Doctor`, `Queue`, `QueueEntry` and `Slot`. It also holds their column defaults, the unique-SSN constraints, and primary-key allocation (`NextKey`, one above the largest key).
- `Responses` (responses.dfy): error kinds with their HTTP codes, werkzeug's exception texts, and the `{status, response}` envelope.
- `Phone` (phone.dfy): `parse_phone_number` and `validate_phone_number`, plus the older duplicate copy of the parser.
- `QueueManager` (queue.dfy): `join_queue`, `get_queue_status` and `process_next_patient`. It also defines the queue invariant `QueuesValid` and the abstract FIFO line `WaitingLine` that the invariant refines.
- `Slots` (slots.dfy): `get_available_slots` and `book_slot`.
- `Patients` (patients.dfy): `authenticate_patient` and `checkin`.
- `Registry` (registry.dfy): `add_user`, `add_doctor` and `get_users`.
- `Jwt` (jwt.dfy): the header handling and dispatch of the `token_required` decorator. Token decoding is a parameter.
- `Text`, `Sorting` and `Wrappers`: decimal rendering, Python's `split`/`startswith`, a stable sort standing for `ORDER BY`, and `Option`/`Result`.

The queue invariant (`QueueManager.QueuesValid`) has these parts:

- Queue keys are unique, there is at most one queue per doctor, and every entry belongs to a queue.
- For every queue, its waiting entries, in the order they were stored, have positions 1, 2, …, N.
- No patient waits twice, and N equals `total_patients`.
- The estimate is unset only while N is 0. Otherwise it reads `"<15·N> minutes"`.

`WaitingLine(db, d)` is the list of patients waiting for doctor `d`, head first. Join appends to it and advance pops its head. Both are proved against that list.

Where the code and the project's tests disagree, the model follows the code:

- `get_queue_status` for a doctor without a queue answers 404 "Queue not found for this doctor", not an empty success.
- A missing row looked up with `get_or_404` raises werkzeug's `NotFound`. The handler's `except Exception` catches it and answers 500 with the NotFound text, not 404.
- `book_slot` does not compare the payload's `patient_id` with the caller, so there is no 403.
- `get_users` on an empty store answers 404 "No users available in the system", not an empty list.

## Model

| member | source | states |
|---|---|---|
| Models.NextKey | backend/app/models.py:15 | the key handed to a new row is positive and larger than every key in use, so it is fresh |
| Responses.Respond | backend/app/utils/utils.py:63-76 | the envelope's status is "success" exactly on success and "error" exactly on failure; the code is at least 400 exactly on failure; the response field is the data or the error message |
| Phone.ParsePhone | backend/app/utils/utils.py:51-60 | a parsed number is exactly ten decimal digits |
| Phone.DigitsOfDigits | backend/app/utils/utils.py:51 | stripping non-digits from a digit string changes nothing |
| Phone.DigitsAppend | backend/app/utils/utils.py:51 | stripping non-digits distributes over concatenation |
| Phone.ParseOnlyDigitsMatter | backend/app/utils/utils.py:51 | the parse depends only on the digit subsequence of the input |
| Phone.ParseRecoversDigits | backend/app/utils/utils.py:54-58 | a parsed number is the input's digit sequence, or that sequence with a leading "91" removed |
| Phone.ParseTenDigits | backend/app/utils/utils.py:54-55 | ten digits surrounded by any non-digits come back unchanged |
| Phone.ParseCountryCode | backend/app/utils/utils.py:57-58 | "91" followed by ten digits yields those ten digits |
| Phone.ParseRejects | backend/app/utils/utils.py:59-60 | any other digit count, and twelve digits not starting with "91", yield None |
| Phone.ParseIdempotent | backend/app/utils/utils.py:51-58 | parsing a parsed number returns it unchanged |
| Phone.ValidatePhone | backend/app/utils/utils.py:104-120 | validation fails exactly when parsing gives None, with "Phone number cannot be null"; otherwise it returns the parsed number |
| Phone.ParsePhoneLegacy | backend/app/utils.py:35-58 | the older, identical copy (the same `re.sub` and length branches), modelled as a character scan, agrees with ParsePhone on every input and returns None or ten digits |
| Text.DecimalRoundTrip | backend/app/routes/queue_routes.py:56 | the decimal rendering used in wait texts reads back as the number it renders |
| Text.IntTextInjective | backend/app/routes/queue_routes.py:165 | distinct integers render to distinct texts |
| Text.SplitJoin | backend/app/utils/jwt_utils.py:44 | `split(' ')` loses nothing: joining the fields with the separator restores the input |
| Text.SplitAfterWord | backend/app/utils/jwt_utils.py:44 | a space-free word followed by a space is split off as the first field |
| Sorting.SortBy | backend/app/routes/queue_routes.py:103 | the ordered result is sorted by the key and is a permutation of the rows |
| Sorting.SortBySorted | backend/app/routes/queue_routes.py:103 | rows already in key order are returned unchanged |
| QueueManager.WaitTextInjective | backend/app/routes/queue_routes.py:56 | the wait text determines the minutes it was written from |
| QueueManager.ZeroWaitText | backend/app/routes/queue_routes.py:164-167 | the literal "0 minutes" for an empty queue equals the 15-minute formula at zero patients |
| QueueManager.FindQueue | backend/app/routes/queue_routes.py:30 | the queue found is the first one of the doctor, and None means the doctor has no queue |
| QueueManager.EnsureQueue | backend/app/routes/queue_routes.py:30-34 | the queue returned belongs to the doctor; only the queue table changes, and it keeps its rows and gains at most one at the end |
| QueueManager.NewEntry | backend/app/routes/queue_routes.py:47-53 | the new entry waits at position total_patients + 1 under a fresh key |
| QueueManager.Join | backend/app/routes/queue_routes.py:11-69 | missing fields are a bad request; an unknown doctor or patient is a 500 with the NotFound text; a conflict is "Patient already in queue"; on success exactly one waiting entry is appended for the patient and users, doctors and slots are untouched |
| QueueManager.NewQueueOk | backend/app/models.py:66-70 | a queue created with default columns under a fresh key owns no entries and already satisfies the per-queue invariant (zero patients, no estimate) |
| QueueManager.FirstJoinOpensQueue | backend/app/routes/queue_routes.py:30-64 | the first patient to join a doctor without a queue succeeds with position 1 and a "15 minutes" estimate, and is then the whole line |
| QueueManager.JoinResponse | backend/app/routes/queue_routes.py:21-69 | the join endpoint answers 201 exactly when the join succeeds, 400 exactly when a field is missing, 409 only with "Patient already in queue", and a 201 carries the success status and the join reply |
| QueueManager.StatusResponse | backend/app/routes/queue_routes.py:71-118 | the status endpoint answers 200 exactly when the doctor has a queue, and otherwise the error envelope with 404 and "Queue not found for this doctor" |
| QueueManager.AdvanceResponse | backend/app/routes/queue_routes.py:121-177 | the next-patient endpoint answers 404 exactly when nobody waits, with "Queue not found for this doctor" or "No patients in queue" as the queue is missing or empty, and otherwise 200 with the success status |
| QueueManager.EnsureQueueValid | backend/app/routes/queue_routes.py:30-34 | lazily creating a queue keeps one queue per doctor and the invariant, and changes no line |
| QueueManager.CreateQueueValid | backend/app/routes/queue_routes.py:31-34 | a queue created for a doctor without one is the one the doctor lookup then finds, keeps the invariant, and starts with an empty line |
| QueueManager.JoinPreservesValid | backend/app/routes/queue_routes.py:47-59 | a successful join keeps positions 1..N+1, no repeats, the counter equal to the line length, and the estimate equal to 15·N minutes |
| QueueManager.JoinConflicts | backend/app/routes/queue_routes.py:36-45 | with valid fields, join fails exactly when the patient is already in the doctor's line, and then with the conflict "Patient already in queue" |
| QueueManager.JoinAppends | backend/app/routes/queue_routes.py:47-64 | join puts the patient at the back of the line, at position = new length = total_patients + 1, with estimate 15·position minutes |
| QueueManager.AppendEntryAppends | backend/app/routes/queue_routes.py:47-58 | inserting the entry at position total_patients + 1 appends the patient to the back of the doctor's line |
| QueueManager.AppendEntryLeaves | backend/app/routes/queue_routes.py:47-58 | inserting an entry into one queue leaves every line of a doctor served by another queue |
| QueueManager.JoinLeavesOthers | backend/app/routes/queue_routes.py:30-58 | join changes no other doctor's line |
| QueueManager.Status | backend/app/routes/queue_routes.py:71-118 | with no queue the answer is NotFound "Queue not found for this doctor"; otherwise the rows are sorted by position and are exactly the waiting entries of the queue, with its counter and estimate |
| QueueManager.StatusShowsLine | backend/app/routes/queue_routes.py:100-113 | on a valid store the status lists the line head first at positions 1..N, every row waiting, with N = total_patients |
| QueueManager.HeadFrom | backend/app/routes/queue_routes.py:142-145 | the entry picked is a waiting entry of the queue with the least position, the first stored among equals; None means nobody waits |
| QueueManager.LineShift | backend/app/routes/queue_routes.py:156-162 | renumbering lowers every position in the queue's line by one and leaves other queues' lines alone |
| QueueManager.HeadIsFirst | backend/app/routes/queue_routes.py:142-153 | on a dense line the least-position entry is the line's first, and deleting it leaves the rest of the line |
| QueueManager.HeadAtFront | backend/app/routes/queue_routes.py:142-145 | on a dense line the entry picked has position 1 or less |
| QueueManager.Advance | backend/app/routes/queue_routes.py:121-177 | advance fails exactly when nobody waits, with NotFound, and says "Queue not found for this doctor" exactly when there is no queue and "No patients in queue" when the queue exists but is empty; on success one entry is deleted, users, doctors and slots are untouched, and the patient returned was waiting |
| QueueManager.PopHeadValid | backend/app/routes/queue_routes.py:153-167 | deleting the head, decrementing the counter, shifting positions and rewriting the estimate keeps the invariant: 1..N becomes 1..N-1 |
| QueueManager.AdvancePreservesValid | backend/app/routes/queue_routes.py:153-169 | a successful advance keeps the store valid |
| QueueManager.AdvancePops | backend/app/routes/queue_routes.py:142-174 | advance returns the head of the line, the line loses exactly its head, and the remaining count is the new length |
| QueueManager.AdvanceLeavesOthers | backend/app/routes/queue_routes.py:153-162 | advance changes no other doctor's line |
| QueueManager.PopHeadLeaves | backend/app/routes/queue_routes.py:153-162 | deleting a waiting entry of one queue and renumbering that queue leaves the line of every doctor it does not serve |
| QueueManager.JoinThenAdvance | backend/app/routes/queue_routes.py:47-174 | a patient who joins an empty line is the next one advanced, and the line is empty afterwards |
| Slots.AvailableSlots | backend/app/routes/slot_routes.py:24-37 | the listing holds exactly the doctor's available slots that start in [now, now + 7 days], each as often as stored, in ascending start time |
| Slots.WindowEdges | backend/app/routes/slot_routes.py:24-30 | both ends of the seven-day window are included and times outside it are excluded |
| Slots.FindSlot | backend/app/routes/slot_routes.py:63 | the slot found has the requested key and is the first such; None means no slot has it |
| Slots.Book | backend/app/routes/slot_routes.py:50-84 | a missing slot_id or an unknown slot is a 500; an unavailable slot is the conflict "Slot is no longer available"; on success that slot becomes unavailable and its patient column takes the payload's `patient_id`, JSON `null` included, the reply is its start time and doctor, and every other slot is unchanged; a bookable slot with no `patient_id` key in the payload is a 500 with the KeyError text |
| Slots.BookResponse | backend/app/routes/slot_routes.py:50-84 | the booking endpoint answers 200 exactly when the booking succeeds, 409 exactly when the slot exists but is unavailable, always with "Slot is no longer available", and otherwise 500 |
| Slots.BookPreservesValid | backend/app/routes/slot_routes.py:71-73 | booking keeps slot keys unique and "an available slot is held by no patient" |
| Slots.BookNullHoldsNobody | backend/app/routes/slot_routes.py:71-73 | a booking with `"patient_id": null` succeeds on an available slot and leaves it unavailable with no patient, so it is no longer listed and "available exactly when unheld" fails for it |
| Slots.BookTwiceConflicts | backend/app/routes/slot_routes.py:65-73 | after a successful booking, every further booking of that slot conflicts |
| Slots.FindSlotAfterUpdate | backend/app/routes/slot_routes.py:63 | rewriting a slot without changing its key does not move any lookup |
| Slots.BookedStaysBooked | backend/app/routes/slot_routes.py:65-73 | a slot that is already unavailable is never changed by a booking |
| Slots.NewSlotBookable | backend/app/routes/slot_routes.py:63-78 | a slot with default columns is bookable, and booking it records the patient and replies with its start and doctor |
| Slots.BookedNotListed | backend/app/routes/slot_routes.py:24-31 | a slot just booked appears in no listing |
| Patients.Matches | backend/app/utils/utils.py:25-26 | the lookup returns, in storage order and without repeats, exactly the users holding the SSN |
| Patients.MatchesSameSsns | backend/app/utils/utils.py:25-26 | the lookup is unchanged by any edit that keeps every SSN |
| Patients.NoMatches | backend/app/utils/utils.py:25-26 | the lookup is empty when nobody holds the SSN |
| Patients.UniqueSsnMatch | backend/app/models.py:16 | with unique SSNs the lookup finds at most one user, and finds user i exactly when i holds the SSN |
| Patients.Authenticate | backend/app/routes/patient_routes.py:9-43 | more than one match is a 500 with "Multiple users found with the same SSN", no match is "User not registered", a single match with another phone is a 400 "Incorrect phone number associated with ssn", and success (200 "Authenticated") happens exactly when the single match's stored phone equals the normalised input |
| Patients.AuthenticateIff | backend/app/routes/patient_routes.py:25-43 | with unique SSNs, authentication succeeds exactly when some user has that SSN and the normalised phone |
| Patients.AuthenticateAnyFormatting | backend/app/routes/patient_routes.py:37-41 | a registered ten-digit number authenticates for every input whose digits are those ten, with separators anywhere around or between them (e.g. "555-123-4567") |
| Patients.NullPhoneAcceptsUnparseable | backend/app/routes/patient_routes.py:37-41 | a user stored without a phone is authenticated by any unparseable phone text |
| Patients.CheckIn | backend/app/routes/patient_routes.py:46-70 | multiple matches are a 409 "Multiple users found with the same SSN" and no match a 400 "User not registered"; otherwise only the user's check-in flag is set, and the reply is "User already checked in" exactly when the flag was already set and "Authenticated" otherwise |
| Patients.CheckInIdempotent | backend/app/routes/patient_routes.py:64-70 | checking in twice equals checking in once, and the second reply is "User already checked in" |
| Patients.CheckInKeepsAuthentication | backend/app/routes/patient_routes.py:64-68 | check-in keeps SSNs unique and does not change any authentication outcome |
| Registry.AddUser | backend/app/routes/dev_routes.py:59-115 | it rejects in order: a bad payload, missing fields, a duplicate SSN (before the phone is checked), then an invalid phone; it succeeds exactly when all checks pass, and then appends one user under a fresh key, not checked in, holding the normalised phone |
| Registry.AddUserPreservesUnique | backend/app/routes/dev_routes.py:89-104 | registration keeps user SSNs and keys unique |
| Registry.AddUserTwiceRejected | backend/app/routes/dev_routes.py:89-92 | a second registration of the same SSN is rejected with "User with this SSN already exists" |
| Registry.AddUserThenCheckIn | backend/app/routes/patient_routes.py:46-70 | a user just registered is not yet checked in, so their first check-in answers 200 "Authenticated" and sets the flag |
| Registry.AddUserThenAuthenticate | backend/app/routes/dev_routes.py:94-104 | a user registered with some phone text then authenticates with that text and with its normalised form |
| Registry.AddDoctor | backend/app/routes/dev_routes.py:126-176 | a bad payload, missing fields or a duplicate SSN are rejected; otherwise exactly one doctor is appended under a fresh key, holding the payload's SSN, name, specialties, experience and OPD rate with the column defaults (available, no phone, no picture) |
| Registry.AddDoctorPreservesUnique | backend/app/routes/dev_routes.py:158-165 | doctor registration keeps SSNs and keys unique, and a repeated SSN is rejected with "Doctor with this SSN already exists" |
| Registry.GetUsersAsWritten | backend/app/routes/dev_routes.py:31-50 | the listing as written: an error for the empty store, otherwise one row per user whose "ssn" field holds the user's key |
| Registry.AsWrittenHidesSsn | backend/app/routes/dev_routes.py:40-45 | any two stores whose users differ only in their SSNs give identical listings as written |
| Registry.AsWrittenSsnExample | backend/app/routes/dev_routes.py:40-45 | a concrete pair: one user stored with SSN "111-11-1111" or with "222-22-2222" is listed identically |
| Registry.GetUsers | backend/app/routes/dev_routes.py:31-50 | the corrected listing: 404 "No users available in the system" exactly for the empty store, otherwise one row per user carrying that user's SSN, name, phone and flag |
| Registry.GetUsersShowsSsn | backend/app/routes/dev_routes.py:40-45 | two stores with the same corrected listing hold the same users up to their keys |
| Registry.AddUserThenList | backend/app/routes/dev_routes.py:40-45 | after a registration the listing is non-empty and its last row carries the new SSN and normalised phone |
| Jwt.ExtractToken | backend/app/utils/jwt_utils.py:42-47 | a token is extracted only from a header starting with "Bearer "; it is non-empty, space-free and stands right after the prefix |
| Jwt.TokenAfterBearer | backend/app/utils/jwt_utils.py:44 | field 1 of "Bearer " + rest is the first field of rest |
| Jwt.ExtractTokenExact | backend/app/utils/jwt_utils.py:43-47 | for "Bearer " + rest there is a token exactly when rest starts with a non-space character, and the token is the longest space-free prefix of rest |
| Jwt.ExtractFirstWord | backend/app/utils/jwt_utils.py:44 | "Bearer a b" yields the token "a" |
| Jwt.ExtractBareBearer | backend/app/utils/jwt_utils.py:44-47 | the header "Bearer " alone has an empty field 1 and yields no token |
| Jwt.ExtractDoubleSpace | backend/app/utils/jwt_utils.py:44-47 | "Bearer  x", with two spaces, has an empty field 1 and yields no token |
| Jwt.ExtractNeedsPrefix | backend/app/utils/jwt_utils.py:42-43 | a missing header, a lower-case "bearer" or a bare "Bearer" yield no token |
| Jwt.TokenRequired | backend/app/utils/jwt_utils.py:26-59 | no token is 401 "Token is missing"; an expired or invalid token is 401 with that reason; the handler runs, on the decoded payload, exactly when the token decodes |
| Jwt.GuardIgnoresTrailing | backend/app/utils/jwt_utils.py:44 | words after the token in the header do not change the guard's outcome |

## Left out

- The Flask and HTTP layer is not modelled: blueprints, `request.get_json`, `jsonify`, and the JSON encoding of replies. A handler returns an error kind plus message, or its data.
- SQLAlchemy sessions, flush, commit, rollback and concurrent requests are not modelled. Each handler is one atomic step over the store.
- JWT encoding and decoding are not modelled (PyJWT, the secret from the environment, expiry against the clock). `decode_token` is the parameter `decode` of `Jwt.TokenRequired`, and `generate_token` is not modelled.
- Datetimes become integer microsecond timestamps and `datetime.now()` becomes the parameter `now`. `isoformat` rendering is dropped, so the slot listing returns the slot rows rather than `{id, start_time, end_time}` dictionaries.
- Phone.Digits: it keeps ASCII digits only. Python's `\D` is Unicode-aware and also keeps other decimal digits.
- Payload values of the wrong JSON type are not modelled, nor are the `TypeError` branch of `add_doctor` and the `Type error: …` reply. Every present field is taken to have the expected type.
- Patients.Authenticate: the model always takes an `ssn` and a `phone`. In the code, `data['phone']` is read only after the lookup, so a request without a phone gets the same 500 or 400 as any phone when the SSN matches several users or none; with exactly one match it raises `KeyError`, a bare 500 from Flask, which the model does not produce. A request without an `ssn` is not modelled either.
- Patients.CheckIn: a request without an `ssn` key is not modelled; the model always takes an SSN.
- `get_doctors` and `fetch_all_doctors` (a projection of the doctor table) are not modelled, and neither is `query_builder`'s "one"/"first" modes. Only its "all" mode, used by both patient routes, is modelled as `Patients.Matches`.
- backend/app/routes/doctor_routes.py is not part of this model. Its imports do not match the application, and it only sets a field.
- The slot creation, listing and deletion endpoints are not part of this model, because their source is not available.
- Slots.BookPreservesValid: the slot invariant is only "an available slot has no patient". The converse, "an unavailable slot has a patient", is not kept, because `"patient_id": null` books a slot into the nullable column and leaves it unavailable and unheld (`Slots.BookNullHoldsNobody`).
- Slots.Book: `request.get_json()` returning something other than an object makes `data['slot_id']` raise a `TypeError`. That is a 500 like a missing key, and the model folds it into the missing `slot_id` case.
- QueueManager.Join: the model's form is a JSON object with optional fields. An empty payload, or an object lacking a field, is "Missing required fields" as in the code. Every other payload that is not an object is outside the model: a falsy one (`null`, `0`, `false`, `""`, `[]`) is "Missing required fields", but a truthy non-container (`5`, `true`) makes `k in data` raise `TypeError`, and a list or string containing both names passes the membership test and then makes `data['doctor_id']` raise `TypeError`; both are 500s with the `TypeError` text.
- Registry.AddUser and Registry.AddDoctor: werkzeug answers 415 for a body that is not JSON. That is not modelled; only an object, an empty object or another JSON value are.
- The queue statuses `in_consultation` and others exist as data, but no modelled route writes them.
- Bootstrapping, configuration, scripts, tests and the React clients are not modelled.

## Findings

| source | as written | input that shows it | evidently intended | confidence | as-written member | corrected member |
|---|---|---|---|---|---|---|
| backend/app/routes/dev_routes.py:41 | each listed user's `"ssn"` field is filled with `user.id`, the primary key | two stores that differ only in one user's SSN, e.g. "111-11-1111" versus "222-22-2222", give identical listings | the `"ssn"` field carries `user.ssn`, as the key name and the route's purpose (listing registered patients) say. The docstring's `int` type for the field makes the intent less certain | medium, not executed | Registry.GetUsersAsWritten, Registry.AsWrittenHidesSsn, Registry.AsWrittenSsnExample | Registry.GetUsers, Registry.GetUsersShowsSsn |
