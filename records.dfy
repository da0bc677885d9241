/** The three record types of the events store (Event, Participant,
    Attendance), the per-event ledger entry a participant carries, and the
    status rule that ties a check-in count to a status. Dates are whole
    calendar days, numbered consecutively; record ids are natural numbers
    standing in for database object ids. */
module Records {
  import opened Wrappers

  type EventId = nat
  type ParticipantId = nat
  type AttendanceId = nat
  type Day = int

  /** The three values of a ledger entry's `status` field. */
  datatype Status = NotAttended | PartiallyAttended | Attended

  /** An event: its check-in code, its inclusive date window and the number
      of days a participant must be present to count as "attended". The
      `days` field is supplied by the organiser and never derived from the
      window. */
  datatype Event = Event(
    title: string,
    code: string,
    startDate: Day,
    endDate: Day,
    days: int,
    isRegistrationOpen: bool)

  /** One element of a participant's `events` array. */
  datatype Entry = Entry(event: EventId, attendance: AttendanceId, status: Status)

  datatype Participant = Participant(
    name: string,
    email: string,
    branch: string,
    year: int,
    phone: string,
    events: seq<Entry>)

  /** The check-in log of one participant at one event. */
  datatype Attendance = Attendance(participant: ParticipantId, event: EventId, attend: seq<Day>)

  /** A snapshot of the three collections. */
  datatype Db = Db(
    events: map<EventId, Event>,
    participants: map<ParticipantId, Participant>,
    attendances: map<AttendanceId, Attendance>)

  /** The status written after a successful check-in that leaves
      `daysPresent` dates in the log: fewer than `days` is a partial
      attendance, anything else a full one. */
  function StatusAfterCheckIn(daysPresent: int, days: int): (s: Status)
    ensures s != NotAttended
  {
    if daysPresent < days then PartiallyAttended else Attended
  }

  /** The status a log of `daysPresent` dates stands for: registration
      writes "not attended" with an empty log, and every check-in rewrites
      it with StatusAfterCheckIn. */
  function DerivedStatus(daysPresent: nat, days: int): Status
  {
    if daysPresent == 0 then NotAttended else StatusAfterCheckIn(daysPresent, days)
  }

  /** The check-in rule never writes "not attended", and it writes
      "attended" exactly when the log has reached the event's day count. */
  lemma StatusAfterCheckInMeaning(daysPresent: int, days: int)
    ensures StatusAfterCheckIn(daysPresent, days) != NotAttended
    ensures StatusAfterCheckIn(daysPresent, days) == Attended <==> daysPresent >= days
  {
  }

  /** The derived status covers the three states in order of the count:
      none, some but fewer than `days`, at least `days` (and at least one). */
  lemma DerivedStatusMeaning(daysPresent: nat, days: int)
    ensures DerivedStatus(daysPresent, days) == NotAttended <==> daysPresent == 0
    ensures DerivedStatus(daysPresent, days) == PartiallyAttended <==> 0 < daysPresent < days
    ensures DerivedStatus(daysPresent, days) == Attended <==> daysPresent > 0 && daysPresent >= days
  {
  }

  /** A sequence with no repeated element. */
  predicate NoDuplicates<T(==)>(s: seq<T>)
  {
    forall i, j :: 0 <= i < j < |s| ==> s[i] != s[j]
  }

  /** The index of the first entry of `entries` for event `ev`, or -1: the
      `events.map(e => String(e.event)).indexOf(String(id))` idiom. */
  function IndexOfEvent(entries: seq<Entry>, ev: EventId): (i: int)
    ensures -1 <= i < |entries|
    ensures i == -1 <==> forall k :: 0 <= k < |entries| ==> entries[k].event != ev
    ensures i >= 0 ==> entries[i].event == ev && forall k :: 0 <= k < i ==> entries[k].event != ev
  {
    if |entries| == 0 then -1
    else if entries[0].event == ev then 0
    else
      var j := IndexOfEvent(entries[1..], ev);
      if j == -1 then -1 else j + 1
  }

  /** The participant has a ledger entry for event `ev`. */
  predicate HasEntryFor(entries: seq<Entry>, ev: EventId)
  {
    exists k :: 0 <= k < |entries| && entries[k].event == ev
  }

  /** No two ledger entries name the same event. */
  predicate UniqueEvents(entries: seq<Entry>)
  {
    forall i, j :: 0 <= i < j < |entries| ==> entries[i].event != entries[j].event
  }
}
