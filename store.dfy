/** The store as the controller sees it: three collections it reads, and
    updates in place through the documents it loads (`attendance.attend.push`,
    `participant.events.push`, `participant.events[i].status = ...`) before
    saving them. Each request handler is a method; its postcondition ties the
    new state to the request's specification function of the old state, and
    the object invariant is the store's consistency. */
module Store {
  import opened Wrappers
  import opened Records
  import opened Lookup
  import opened Consistency
  import CheckInMachine
  import Registration

  class Store {
    var events: map<EventId, Event>
    var participants: map<ParticipantId, Participant>
    var attendances: map<AttendanceId, Attendance>
    /** The next record id the driver hands out; ids are never reused. */
    var nextId: nat

    function State(): Db
      reads this
    {
      Db(events, participants, attendances)
    }

    ghost predicate Valid()
      reads this
    {
      && Consistent(State())
      && (forall id :: id in participants ==> id < nextId)
      && (forall id :: id in attendances ==> id < nextId)
    }

    /** A store holding the given events and no participants yet. */
    constructor (initialEvents: map<EventId, Event>)
      ensures Valid()
      ensures State() == Db(initialEvents, map[], map[])
    {
      events := initialEvents;
      participants := map[];
      attendances := map[];
      nextId := 0;
    }

    /** `registerParticipant`: refuse a look-alike of a stored participant,
        otherwise store the new participant with an empty ledger. */
    method RegisterParticipant(f: Registration.Form) returns (r: Result<ParticipantId, Registration.RegistrationError>)
      requires Valid()
      modifies this
      ensures Valid()
      ensures var spec := Registration.RegisterParticipant(old(State()), f, old(nextId));
              match spec
              case Success(db') => r == Success(old(nextId)) && State() == db'
              case Failure(e) => r == Failure(e) && State() == old(State())
    {
      var duplicate := exists pid :: pid in participants && Registration.MatchesExisting(participants[pid], f);
      if duplicate {
        return Failure(Registration.AlreadyRegistered);
      }
      Registration.RegisterParticipantPreservesConsistency(State(), f, nextId);
      var id := nextId;
      nextId := nextId + 1;
      participants := participants[id := Participant(f.name, f.email, f.branch, f.year, f.phone, [])];
      r := Success(id);
    }

    /** `registerForEvent`: on success, answers with the event. */
    method RegisterForEvent(eventId: Option<EventId>, user: ParticipantId) returns (r: Result<Event, Registration.RegistrationError>)
      requires Valid()
      modifies this
      ensures Valid()
      ensures var spec := Registration.Register(old(State()), eventId, user, old(nextId));
              match spec
              case Success(db') => eventId.Some? && eventId.value in events && r == Success(events[eventId.value]) && State() == db'
              case Failure(e) => r == Failure(e) && State() == old(State())
    {
      if eventId.None? {
        return Failure(Registration.InvalidEvent);
      }
      var ev := eventId.value;
      if user !in participants || ev !in events {
        return Failure(Registration.InvalidRequest);
      }
      var participant := participants[user];
      var eventIndex := FindEventIndex(participant.events, ev);
      if eventIndex != -1 {
        return Failure(Registration.AlreadyRegistered);
      }
      Registration.RegisterPreservesConsistency(State(), eventId, user, nextId);
      var attendanceId := nextId;
      nextId := nextId + 1;
      var attendance := Attendance(user, ev, []);
      participant := participant.(events := participant.events + [Entry(ev, attendanceId, NotAttended)]);
      participants := participants[user := participant];
      attendances := attendances[attendanceId := attendance];
      r := Success(events[ev]);
    }

    /** `markUserAttendance` on day `today`. */
    method MarkUserAttendance(code: Option<string>, user: ParticipantId, today: Day) returns (r: Outcome<CheckInMachine.CheckInError>)
      requires Valid()
      modifies this
      ensures Valid()
      ensures var spec := CheckInMachine.CheckIn(old(State()), code, user, today);
              match spec
              case Success(db') => r == Pass && State() == db'
              case Failure(e) => r == Fail(e) && State() == old(State())
    {
      if CheckInMachine.NoCode(code) {
        return Fail(CheckInMachine.NoCodeReceived);
      }
      var found := EventByCode(events, code.value);
      if found.None? {
        return Fail(CheckInMachine.InvalidCode);
      }
      var ev := found.value;
      var event := events[ev];
      var record := AttendanceOf(attendances, ev, user);
      if record.None? {
        return Fail(CheckInMachine.NotRegistered);
      }
      var aid := record.value;
      var attendance := attendances[aid];
      if today < event.startDate || today > event.endDate {
        return Fail(CheckInMachine.NotWithinTimeline);
      }
      var attendIndex := FindDay(attendance.attend, today);
      if attendIndex != -1 {
        return Fail(CheckInMachine.AlreadyMarked);
      }
      ghost var before := State();
      assert EventByCode(before.events, code.value) == Some(ev);
      assert AttendanceOf(before.attendances, ev, user) == Some(aid);
      AttendanceHasLedgerEntry(before, ev, user);
      CheckInMachine.CheckInPreservesConsistency(before, code, user, today);
      attendance := attendance.(attend := attendance.attend + [today]);
      var participant := participants[user];
      var eventInd := FindEventIndex(participant.events, ev);
      var daysPresent := |attendance.attend|;
      var status := if daysPresent < event.days then PartiallyAttended else Attended;
      participant := participant.(events := participant.events[eventInd := participant.events[eventInd].(status := status)]);
      attendances := attendances[aid := attendance];
      participants := participants[user := participant];
      r := Pass;
    }
  }
}
