# Event attendance: a verified model

This project models the attendance logic of the events controller
(`controllers/events_controller.js`) of an event-management backend.
Organisers create multi-day events with a check-in code. Participants sign up,
register for events, and check in once per day with the event's code.
Organisers read attendance reports and per-event statistics.

The store is three collections: Events, Participants and Attendance records.
Each participant carries a ledger (`events`) of `{event, attendance, status}`
entries. Each Attendance record holds the log (`attend`) of days the
participant checked in. Days are whole calendar days numbered consecutively.
Record ids are natural numbers. A `findOne` without a sort returns the first
match in the collection's natural order, which the model takes to be the
least matching id.

Modules, one per part of the controller:

- `Records`: the records, the ledger entry and the status rule.
  - The check-in rule writes "partially attended" while the log is shorter than
    the event's `days` and "attended" otherwise.
  - `DerivedStatus` adds "not attended" for the empty log.
- `Lookup`: the store's queries. The controller's `indexOf` scans are loop methods.
- `Consistency`: the store invariant the controller relies on without checking
  it, in five parts:
  - every ledger entry points at a record of that participant and event;
  - every record is pointed at by its owner's entry;
  - no event appears twice in a ledger;
  - every log is duplicate-free and inside its event's window;
  - every status is the derived status of its log.
- `CheckInMachine`: `markUserAttendance` as a function of the store, with its
  error order, the inclusive window, the already-marked guard, the exact
  effects of a success, idempotence and preservation of the invariant.
- `Registration`: the sign-up duplicate check and `registerForEvent`, with
  their outcomes and preservation of the invariant.
- `Store`: a class with the three collections as `map` fields. Its three
  request handlers update them in place, step by step as the controller does.
  Each handler is proved to produce the state its specification function gives.
- `Report`: the attendance report's `presentOn` filter (a loop over the
  aggregation's output). It is proved equal, on a consistent store, to a
  selection defined directly on the store.
- `Stats`: registrations, status counts and the day-wise counts.
- `Sorting`: the sort object built from `sortBy`.
- `Lifecycle`: registration and check-in combined, seen from one participant
  at one event.

Where the specification and the code differ, the model follows the code:

- `registerForEvent` does not consult `isRegistrationOpen`, so registration is
  not gated by it here.
- The report's "all" pattern keeps logs whose length equals `days` exactly.
  "Attended" means at least `days`.

## Model

| member | source | states |
|---|---|---|
| `Records.StatusAfterCheckIn` | controllers/events_controller.js:606-611 | the status a check-in writes is never "not attended" (its full rule is `Records.StatusAfterCheckInMeaning`) |
| `Records.StatusAfterCheckInMeaning` | controllers/events_controller.js:606-611 | the status written after a check-in is never "not attended", and is "attended" exactly when the log has reached the event's `days` |
| `Records.DerivedStatusMeaning` | controllers/events_controller.js:191-195 | the derived status is "not attended" exactly for an empty log, "partially attended" for a non-empty log shorter than `days`, "attended" otherwise |
| `Records.IndexOfEvent` | controllers/events_controller.js:175-179 | the result is the first ledger index holding the event, or -1 exactly when no entry holds it |
| `Lookup.EventByCode` | controllers/events_controller.js:561 | finds an event with the code exactly when one exists, and then the first one |
| `Lookup.AttendanceOf` | controllers/events_controller.js:567-569 | finds a record for the event and participant exactly when one exists, and then the first one |
| `Lookup.FindEventIndex` | controllers/events_controller.js:601-605 | the ledger scan returns the first index of the event, or -1 |
| `Lookup.FindDay` | controllers/events_controller.js:591-595 | the log scan returns -1 exactly when the day is not in the log, else the first index holding it |
| `Consistency.LedgerEntryIsTheAttendance` | controllers/events_controller.js:567-569 | in a consistent store the record found for (event, participant) is the one the participant's ledger entry names |
| `Consistency.AttendanceHasLedgerEntry` | controllers/events_controller.js:601-608 | in a consistent store a participant with a record at an event exists and has a ledger entry for it naming that record |
| `Consistency.LogFitsWindow` | controllers/events_controller.js:580-598 | a duplicate-free log of days inside the window is no longer than the window |
| `Consistency.AttendBoundedByWindow` | controllers/events_controller.js:580-600 | in a consistent store no log holds more check-ins than its event's window has days |
| `CheckInMachine.CheckIn` | controllers/events_controller.js:555-615 | the handler's answer and new store: "No Code Received" exactly when the code is absent or empty, and a success only for a stored participant, with the events untouched. Its error order, window, guard and effects are the lemmas below |
| `CheckInMachine.CheckInErrorOrder` | controllers/events_controller.js:557-572 | a missing or empty code fails first; then an unknown code; then no record for the participant at the event |
| `CheckInMachine.CheckInWindowInclusive` | controllers/events_controller.js:580-589 | once event and record are found, the day is refused as out of the timeline exactly when it is before the start or after the end; the start and end days pass |
| `CheckInMachine.AlreadyMarkedIsIdempotenceGuard` | controllers/events_controller.js:591-598 | a day in the window that is already in the log is refused with "Already Marked" |
| `CheckInMachine.CheckInSuccessEffects` | controllers/events_controller.js:599-611 | a success appends exactly today, which was not in the log, to the one record found. Only the status of the participant's entry for the event changes, never to "not attended", and it is "attended" exactly when the log reaches `days`. Everything else is unchanged |
| `CheckInMachine.CheckInTwiceSameDay` | controllers/events_controller.js:591-600 | repeating a successful check-in on the same day is refused with "Already Marked", so the log grows by one, not two |
| `CheckInMachine.ConsistentCheckInNeverUnhandled` | controllers/events_controller.js:601-608 | on a consistent store the handler never reaches the throw on a missing participant or ledger entry |
| `CheckInMachine.CheckInPreservesConsistency` | controllers/events_controller.js:600-612 | a check-in keeps the store consistent: the log stays duplicate-free and in the window, and the status matches the log |
| `Registration.EqualsIgnoreCaseIsEquivalence` | controllers/events_controller.js:80 | case-insensitive equality is reflexive, symmetric and transitive |
| `Registration.MatchesExisting` | controllers/events_controller.js:78-95 | the duplicate query on one stored participant: an email equal ignoring case always matches, and every match shares the email (ignoring case) or the phone |
| `Registration.MatchesExistingSimplified` | controllers/events_controller.js:78-95 | a stored participant matches exactly when the email agrees ignoring case, or name (ignoring case), branch, year and phone all agree; the nested email test adds nothing |
| `Registration.RegisterParticipant` | controllers/events_controller.js:76-110 | sign-up fails only with "Already Registered"; a success adds exactly the new id to the participants and leaves events and records alone (see `Registration.RegisterParticipantOutcome`) |
| `Registration.RegisterParticipantOutcome` | controllers/events_controller.js:76-110 | sign-up is refused exactly when some stored participant matches. Otherwise exactly one participant is added, holding the form's name, email, branch, year and phone and an empty ledger, and nothing else changes |
| `Registration.RegisterParticipantTwice` | controllers/events_controller.js:78-98 | submitting the same form again after a successful sign-up is refused |
| `Registration.RegisterParticipantPreservesConsistency` | controllers/events_controller.js:100-110 | sign-up keeps the store consistent |
| `Registration.Register` | controllers/events_controller.js:160-201 | "Invalid Event" exactly when no event id is given; a success needs a stored participant and event, keeps the events and participants' ids, and adds exactly the new record id (see `Registration.RegisterErrors` and `Registration.RegisterSuccessEffects`) |
| `Registration.RegisterErrors` | controllers/events_controller.js:161-183 | a missing event id gives "Invalid Event"; an unknown participant or event gives "Invalid Request"; a ledger already holding the event gives "Already Registered" |
| `Registration.RegisterSuccessEffects` | controllers/events_controller.js:185-199 | a registration appends exactly one "not attended" entry pointing at a new record with an empty log, and changes nothing else |
| `Registration.RegisterKeepsEventsUnique` | controllers/events_controller.js:175-195 | registration keeps the event ids of a ledger unique |
| `Registration.RegisterTwice` | controllers/events_controller.js:175-183 | registering again for the same event is refused with "Already Registered" |
| `Registration.RegisterPreservesConsistency` | controllers/events_controller.js:185-199 | registration with a fresh record id keeps the store consistent |
| `Store.Store.RegisterParticipant` | controllers/events_controller.js:76-124 | the handler answers and updates the store as the sign-up specification says, keeping the store invariant |
| `Store.Store.RegisterForEvent` | controllers/events_controller.js:160-201 | the handler answers with the event and updates the store as the registration specification says, keeping the store invariant |
| `Store.Store.MarkUserAttendance` | controllers/events_controller.js:555-615 | the handler answers and updates the store in place as the check-in specification says; every failure leaves the store unchanged; the invariant is kept |
| `Report.ReadPresentOn` | controllers/events_controller.js:468-478 | an absent or empty parameter means no pattern, "all" and "none" are the two patterns, anything else is the named day |
| `Report.PushObject` | controllers/events_controller.js:19-29 | the row of one participant: their id and contact fields and the log of the record at `attendInd`; on a consistent store this is the stored participant's fields and stored log (`Report.JoinedAgreesWithStore`) |
| `Report.IndexOfRecord` | controllers/events_controller.js:456-460 | the first joined record for the event, or -1 exactly when there is none |
| `Report.IndexOfEventDoc` | controllers/events_controller.js:461-465 | the first joined event document for the event, or -1 exactly when there is none |
| `Report.FindRecord` | controllers/events_controller.js:456-460 | the scan returns the first record index for the event |
| `Report.FindEventDoc` | controllers/events_controller.js:461-465 | the scan returns the first document index for the event |
| `Report.RowsFor` | controllers/events_controller.js:466-487 | the rows pushed for one participant: one row per log entry equal to the day for a date, one row or none for the other patterns |
| `Report.AttendanceReport` | controllers/events_controller.js:453-489 | the report loop returns the concatenation, in input order, of the rows pushed per participant |
| `Report.Report` | controllers/events_controller.js:453-489 | the rows the loop pushes: without a pattern one row per participant, with "all" or "none" at most one per participant |
| `Report.CountInDistinct` | controllers/events_controller.js:479-483 | in a duplicate-free log a day occurs once or not at all, so the date pattern pushes a participant at most once |
| `Report.ReportIsSelection` | controllers/events_controller.js:468-488 | with duplicate-free logs the report keeps exactly the participants matching the pattern, each once, in input order |
| `Report.ReportCountsRepeatedDays` | controllers/events_controller.js:479-483 | for a date, a participant is pushed once per log entry equal to it |
| `Report.JoinedOfMeaning` | controllers/events_controller.js:455-467 | in a consistent store a registered participant's joined record is well formed, with the store's log (duplicate-free) and the event's `days` |
| `Report.JoinWellFormed` | controllers/events_controller.js:431-451 | every participant the aggregation returns has a record and a document for the event |
| `Report.JoinedAgreesWithStore` | controllers/events_controller.js:455-467 | for a registered participant of a consistent store, the joined record passes the pattern exactly when the stored log does, and its row is the stored contact fields with the stored log |
| `Report.ReportAgainstStore` | controllers/events_controller.js:392-489 | on a consistent store the report lists, in the given order and once each, the registered participants passing the branch and year filters whose log matches the pattern ("all": length equals `days`; "none": empty; a date: contains it; none: everyone), each with that log |
| `Stats.StatsOf` | controllers/events_controller.js:498-551 | the statistics of a known event: one day-wise count per event day, none above the registrations (see `Stats.DayWiseBounded` and `Stats.StatusCountsBounded`) |
| `Stats.EventStatsAsWritten` | controllers/events_controller.js:492-552 | the handler as written: "Invalid Event" exactly when the parameter is missing, and a throw exactly when it names no event |
| `Stats.EventStats` | controllers/events_controller.js:492-552 | the handler as evidently intended: it fails only with "Invalid Event", and succeeds exactly for a known event |
| `Stats.UnknownEventThrows` | controllers/events_controller.js:523-527 | for an id naming no event the handler as written throws, where the intended handler answers "Invalid Event" |
| `Stats.EventStatsCorrected` | controllers/events_controller.js:523-527 | the corrected handler never throws, succeeds exactly for known events, and agrees with the handler as written wherever that one does not throw |
| `Stats.DayWiseBounded` | controllers/events_controller.js:527-550 | the day-wise list has one entry per day of the event, entry i counts the records whose log holds start + i, and none exceeds the registrations |
| `Stats.StatusCountsBounded` | controllers/events_controller.js:500-519 | in a consistent store the "present 0 days" and "present all days" participants are disjoint and together no more than the registrations |
| `Stats.DayWise` | controllers/events_controller.js:529-544 | the loop returns one count per event day, counted from the start date |
| `Stats.EventAttendanceStats` | controllers/events_controller.js:498-552 | the handler (with the corrected guard) returns the statistics the corrected specification gives |
| `Sorting.FirstOccurrencesMeaning` | controllers/events_controller.js:413-421 | the keys of the sort object are those of `sortBy`, each once |
| `Sorting.DefaultSortMeaning` | controllers/events_controller.js:422-429 | the default sorts by `createdAt` descending, then branch, year and name ascending |
| `Sorting.BuildSortObject` | controllers/events_controller.js:413-429 | without `sortBy` the default; otherwise the keys of `sortBy` in order of first occurrence, so the first key asked for sorts first, with `createdAt` descending and every other key ascending |
| `Lifecycle.RegistrationStartsEmpty` | controllers/events_controller.js:185-195 | after registration the log for the event is empty, the status "not attended", and the store consistent |
| `Lifecycle.CheckInOnNewDay` | controllers/events_controller.js:591-611 | a registered participant presenting the code on a new day of the window is checked in: the day is appended and the status becomes the derived status of the longer log |
| `Lifecycle.CheckInRefusals` | controllers/events_controller.js:580-598 | a registered participant is refused outside the window, and inside it on a day already logged |
| `Lifecycle.StatusFollowsLog` | controllers/events_controller.js:600-611 | in a consistent store a registered participant's status is always the derived status of their log, and the log is no longer than the window |

The sort-object code of the participant list (lines 50-66)
is the same as the report's and is modelled once, by `Sorting.BuildSortObject`.

## Left out

- Database execution: queries, `$lookup` ordering, `countDocuments` and
  `.sort()` are not modelled. Lookups are map reads and least-id searches. Counts are set sizes.
  The sort order of the report is a parameter (`order`).
- Sign-up's password generation, the credential e-mail job and the deferred
  event-deletion job are not modelled. They are hashing and fire-and-forget
  calls to a job runner whose code is not part of this model.
- Login, password checks and token issuance are not modelled. They are foreign
  calls whose code is not part of this model.
- Clock and time zone: "today" is a day-number parameter. The local-midnight
  construction, `toISOString`, and the comparison of ISO strings are all taken
  as integer day comparison. `formatHtmlDate` is not part of this model.
- Registration.EqualsIgnoreCase: the duplicate check builds unescaped regular
  expressions `^value$` with the "i" option. The model uses ASCII
  case-insensitive equality, so values with pattern metacharacters and
  non-ASCII case folding are not modelled.
- The report's text search (`escapeRegex`, a "gi" pattern on name, email and
  branch) is not modelled. The branch and year filters are.
- Concurrency is not modelled: each handler is one atomic step. In the
  controller, a handler reads, checks, pushes and saves with no transaction.
  Two interleaved requests can both pass the "Already Marked" guard
  (lines 591-600) or the "Already Registered" guard (lines 175-195).
  So duplicate-free logs and ledgers (`NoDuplicates`, `UniqueEvents`) hold
  only when requests are served one at a time. The paired saves of
  `Promise.all` are likewise taken as atomic.
- `participantData`, `getParticipants` (apart from its sort object),
  `addEvent`, `updateEvent`, `updateParticipant`, `changeEventCode`,
  `changeEventRegistrationOpen`, `getEvents`, `getUserEventAttendance` and
  `deleteEvent` are left out. They are field copies and lookups with a
  not-found error. The store's events are fixed when the `Store` is constructed.
- A `sortBy` given as a single string (not a list) makes the handler throw,
  and keys that look like array indices are ordered first by JavaScript
  objects. Neither is modelled.
- Registration.Register: ids are numbers here, so the model does not
  capture that the duplicate guard (lines 175-179) compares the stored id's
  canonical text with the raw `eventId` text of the request.
  `Event.findById` and `new ObjectId` also accept other spellings of the same
  id, such as upper-case hex. With such a spelling `indexOf` returns -1, and
  the participant is registered a second time with a second Attendance
  record. So `Registration.RegisterKeepsEventsUnique` and
  `Registration.RegisterTwice` hold only for requests that spell the id
  canonically.
- Report.ReportAgainstStore: likewise assumes the `event` query spells the
  id canonically. With another spelling, `indexOf` at lines 456-465 returns
  -1 and line 467 throws on `part.events[-1]`.
- The two `$lookup` stages of the report are stood in for by
  `Report.RecordsOf` and `Report.DocsOf`. They list a ledger's Attendance
  records and Event documents entry for entry, in ledger order. The database's
  own ordering of looked-up documents is not modelled.
- Malformed id strings, which make `new ObjectId` throw, are not modelled:
  ids are natural numbers.
- `utility/emailTemplates.js` (HTML templating for the mailer) is not modelled.

## Findings

| source | as written | input that shows it | evidently intended | confidence | as-written member | corrected member |
|---|---|---|---|---|---|---|
| controllers/events_controller.js:523-527 | the guard tests the query parameter `event` instead of the looked-up `eventDetail`, so an id naming no event passes the guard and `eventDetail.days` throws on `null` | an `event` parameter holding the id of a deleted event | answer "Invalid Event!!" when the event is not found | high; not executed | `Stats.EventStatsAsWritten` (shown by `Stats.UnknownEventThrows`) | `Stats.EventStats` (proved by `Stats.EventStatsCorrected`, implemented by `Stats.EventAttendanceStats`) |
