/** The store's queries. A `findById` is a map lookup. A `findOne(filter)`
    without a sort returns the first matching document in the collection's
    natural order, modelled here as the matching record with the least id.
    The linear `indexOf` scans over a participant's ledger are methods with
    loops, as they are in the controller. */
module Lookup {
  import opened Wrappers
  import opened Records

  /** Every non-empty set of naturals has a least element. */
  lemma {:induction false} HasLeast(s: set<nat>)
    requires s != {}
    ensures exists k :: k in s && forall j :: j in s ==> k <= j
  {
    var x :| x in s;
    var rest := s - {x};
    if rest != {} {
      HasLeast(rest);
      var k :| k in rest && forall j :: j in rest ==> k <= j;
      var least := if x < k then x else k;
      forall j | j in s
        ensures least <= j
      {
        if j != x {
          assert j in rest;
        }
      }
      assert least in s;
    } else {
      assert s == {x};
    }
  }

  /** The least element of a non-empty set of ids. */
  function LeastKey(s: set<nat>): (k: nat)
    requires s != {}
    ensures k in s && forall j :: j in s ==> k <= j
  {
    HasLeast(s);
    var k :| k in s && forall j :: j in s ==> k <= j;
    k
  }

  /** The ids of the events whose code is `code`. */
  function EventsWithCode(events: map<EventId, Event>, code: string): set<EventId>
  {
    set id | id in events && events[id].code == code
  }

  /** `Event.findOne({ code })`: the first event whose code is `code`. */
  function EventByCode(events: map<EventId, Event>, code: string): (r: Option<EventId>)
    ensures r.None? <==> forall id :: id in events ==> events[id].code != code
    ensures r.Some? ==> r.value in events && events[r.value].code == code
    ensures r.Some? ==> forall id :: id in events && events[id].code == code ==> r.value <= id
  {
    var found := EventsWithCode(events, code);
    assert forall id :: id in events && events[id].code == code ==> id in found;
    if found == {} then None else Some(LeastKey(found))
  }

  /** The ids of the Attendance records of participant `user` at event `ev`. */
  function AttendancesOf(attendances: map<AttendanceId, Attendance>, ev: EventId, user: ParticipantId): set<AttendanceId>
  {
    set id | id in attendances && attendances[id].event == ev && attendances[id].participant == user
  }

  /** `Attendance.findOne({ $and: [{ event }, { participant }] })`. */
  function AttendanceOf(attendances: map<AttendanceId, Attendance>, ev: EventId, user: ParticipantId): (r: Option<AttendanceId>)
    ensures r.None? <==> forall id :: id in attendances ==> !(attendances[id].event == ev && attendances[id].participant == user)
    ensures r.Some? ==> r.value in attendances && attendances[r.value].event == ev && attendances[r.value].participant == user
    ensures r.Some? ==> forall id :: id in attendances && attendances[id].event == ev && attendances[id].participant == user ==> r.value <= id
  {
    var found := AttendancesOf(attendances, ev, user);
    assert forall id :: id in attendances && attendances[id].event == ev && attendances[id].participant == user ==> id in found;
    if found == {} then None else Some(LeastKey(found))
  }

  /** Rewriting one Attendance record without changing whom and what it is
      for leaves every Attendance lookup as it was. */
  lemma AttendanceOfUnchanged(attendances: map<AttendanceId, Attendance>, aid: AttendanceId, log: seq<Day>, ev: EventId, user: ParticipantId)
    requires aid in attendances
    ensures AttendanceOf(attendances[aid := attendances[aid].(attend := log)], ev, user) == AttendanceOf(attendances, ev, user)
  {
    var updated := attendances[aid := attendances[aid].(attend := log)];
    assert AttendancesOf(updated, ev, user) == AttendancesOf(attendances, ev, user);
  }

  /** The scan the controller writes as `.map(e => String(e.event)).indexOf(id)`. */
  method FindEventIndex(entries: seq<Entry>, ev: EventId) returns (i: int)
    ensures i == IndexOfEvent(entries, ev)
  {
    i := 0;
    while i < |entries|
      invariant 0 <= i <= |entries|
      invariant forall k :: 0 <= k < i ==> entries[k].event != ev
    {
      if entries[i].event == ev {
        return;
      }
      i := i + 1;
    }
    i := -1;
  }

  /** The scan over an attendance log: `attend.map(...).indexOf(today)`. */
  method FindDay(log: seq<Day>, day: Day) returns (i: int)
    ensures -1 <= i < |log|
    ensures i == -1 <==> day !in log
    ensures i >= 0 ==> log[i] == day && day !in log[..i]
  {
    i := 0;
    while i < |log|
      invariant 0 <= i <= |log|
      invariant day !in log[..i]
    {
      if log[i] == day {
        return;
      }
      assert log[..i + 1] == log[..i] + [log[i]];
      i := i + 1;
    }
    assert log[..i] == log;
    i := -1;
  }
}
