/** Event statistics (`getEventAttendanceStats`): the number of registrations
    (Attendance records of the event), the number of participants whose
    entry for the event says "not attended" and "attended", and for each day
    of the event, counted from its start date, the number of records whose
    log holds that day. */
module Stats {
  import opened Wrappers
  import opened Records
  import opened Lookup
  import opened Consistency

  datatype Stats = Stats(
    totalRegistrations: nat,
    present0days: nat,
    presentAlldays: nat,
    dayWiseAttendance: seq<nat>)

  datatype StatsError =
    | InvalidEvent  // "Invalid Event!!"
    | Unhandled     // the handler throws reading `days` of a missing event

  /** The Attendance records of event `ev`. */
  function RecordsFor(attendances: map<AttendanceId, Attendance>, ev: EventId): set<AttendanceId>
  {
    set aid | aid in attendances && attendances[aid].event == ev
  }

  /** The records of event `ev` whose log holds `day`: the count for
      `{ event, attend: day }`, which matches an array holding the value. */
  function RecordsOn(attendances: map<AttendanceId, Attendance>, ev: EventId, day: Day): set<AttendanceId>
  {
    set aid | aid in attendances && attendances[aid].event == ev && day in attendances[aid].attend
  }

  /** `$elemMatch: { event, status }` on a ledger. */
  predicate HasStatus(entries: seq<Entry>, ev: EventId, s: Status)
  {
    exists k :: 0 <= k < |entries| && entries[k].event == ev && entries[k].status == s
  }

  /** The participants whose ledger has an entry for `ev` with status `s`. */
  function ParticipantsWith(participants: map<ParticipantId, Participant>, ev: EventId, s: Status): set<ParticipantId>
  {
    set pid | pid in participants && HasStatus(participants[pid].events, ev, s)
  }

  /** Counts for the days `startDate`, `startDate + 1`, ..., `days` of them. */
  function DayWiseCounts(attendances: map<AttendanceId, Attendance>, ev: EventId, startDate: Day, days: int): seq<nat>
  {
    seq(if days > 0 then days else 0, i => |RecordsOn(attendances, ev, startDate + i)|)
  }

  /** The statistics of a known event. */
  function StatsOf(db: Db, ev: EventId): (s: Stats)
    requires ev in db.events
    ensures |s.dayWiseAttendance| == if db.events[ev].days > 0 then db.events[ev].days else 0
    ensures forall i :: 0 <= i < |s.dayWiseAttendance| ==> s.dayWiseAttendance[i] <= s.totalRegistrations
  {
    assert forall d :: |RecordsOn(db.attendances, ev, d)| <= |RecordsFor(db.attendances, ev)| by {
      forall d {
        RecordsOnWithinRecords(db.attendances, ev, d);
      }
    }
    Stats(
      |RecordsFor(db.attendances, ev)|,
      |ParticipantsWith(db.participants, ev, NotAttended)|,
      |ParticipantsWith(db.participants, ev, Attended)|,
      DayWiseCounts(db.attendances, ev, db.events[ev].startDate, db.events[ev].days))
  }

  /** The handler as written: it rejects only a missing `event` parameter;
      an id that names no event goes on to read `eventDetail.days` and
      throws. */
  function EventStatsAsWritten(db: Db, event: Option<EventId>): (r: Result<Stats, StatsError>)
    ensures r == Failure(InvalidEvent) <==> event.None?
    ensures r == Failure(Unhandled) <==> event.Some? && event.value !in db.events
  {
    if event.None? then Failure(InvalidEvent)
    else if event.value !in db.events then Failure(Unhandled)
    else Success(StatsOf(db, event.value))
  }

  /** The handler as evidently intended: an unknown event is rejected like a
      missing one. */
  function EventStats(db: Db, event: Option<EventId>): (r: Result<Stats, StatsError>)
    ensures r.Failure? ==> r.error == InvalidEvent
    ensures r.Success? <==> event.Some? && event.value in db.events
  {
    if event.None? || event.value !in db.events then Failure(InvalidEvent)
    else Success(StatsOf(db, event.value))
  }

  /** The two differ on exactly the ids that name no event: there the handler
      as written throws instead of answering "Invalid Event!!". */
  lemma UnknownEventThrows(db: Db, ev: EventId)
    requires ev !in db.events
    ensures EventStatsAsWritten(db, Some(ev)) == Failure(Unhandled)
    ensures EventStats(db, Some(ev)) == Failure(InvalidEvent)
  {
  }

  /** The corrected handler never throws, answers for every known event and
      agrees with the handler as written wherever that one does not throw. */
  lemma EventStatsCorrected(db: Db, event: Option<EventId>)
    ensures EventStats(db, event) != Failure(Unhandled)
    ensures EventStats(db, event).Success? <==> event.Some? && event.value in db.events
    ensures EventStatsAsWritten(db, event) != Failure(Unhandled) ==> EventStatsAsWritten(db, event) == EventStats(db, event)
  {
  }

  /** A subset has at most as many elements as its superset. */
  lemma RecordsOnWithinRecords(attendances: map<AttendanceId, Attendance>, ev: EventId, day: Day)
    ensures |RecordsOn(attendances, ev, day)| <= |RecordsFor(attendances, ev)|
  {
    SubsetCard(RecordsOn(attendances, ev, day), RecordsFor(attendances, ev));
  }

  /** The day-wise list has one count per day of the event, and no count
      exceeds the number of registrations. */
  lemma DayWiseBounded(db: Db, ev: EventId)
    requires ev in db.events
    ensures var s := StatsOf(db, ev);
            && |s.dayWiseAttendance| == (if db.events[ev].days > 0 then db.events[ev].days else 0)
            && forall i :: 0 <= i < |s.dayWiseAttendance| ==>
                 s.dayWiseAttendance[i] == |RecordsOn(db.attendances, ev, db.events[ev].startDate + i)|
                 && s.dayWiseAttendance[i] <= s.totalRegistrations
  {
    var s := StatsOf(db, ev);
    forall i | 0 <= i < |s.dayWiseAttendance|
      ensures s.dayWiseAttendance[i] <= s.totalRegistrations
    {
      RecordsOnWithinRecords(db.attendances, ev, db.events[ev].startDate + i);
    }
  }

  /** A map that sends distinct elements of `xs` to distinct elements of `ys`
      shows `xs` is no larger than `ys`. */
  lemma {:induction false} InjectionCard<X, Y>(xs: set<X>, ys: set<Y>, f: X -> Y)
    requires forall x :: x in xs ==> f(x) in ys
    requires forall x, y :: x in xs && y in xs && f(x) == f(y) ==> x == y
    ensures |xs| <= |ys|
  {
    if xs != {} {
      var x :| x in xs;
      InjectionCard(xs - {x}, ys - {f(x)}, f);
    }
  }

  /** The record the ledger entry of `pid` for `ev` names (0 without one). */
  function RecordOfEntry(db: Db, pid: ParticipantId, ev: EventId): AttendanceId
  {
    if pid !in db.participants then 0
    else
      var entries := db.participants[pid].events;
      var i := IndexOfEvent(entries, ev);
      if i < 0 then 0 else entries[i].attendance
  }

  /** In a consistent store, a participant counted with status `s` owns one
      of the event's records, and no other participant owns it. */
  lemma CountedParticipantOwnsRecord(db: Db, ev: EventId, s: Status, pid: ParticipantId)
    requires Consistent(db)
    requires pid in ParticipantsWith(db.participants, ev, s)
    ensures RecordOfEntry(db, pid, ev) in RecordsFor(db.attendances, ev)
    ensures db.attendances[RecordOfEntry(db, pid, ev)].participant == pid
    ensures db.participants[pid].events[IndexOfEvent(db.participants[pid].events, ev)].status == s
  {
    var entries := db.participants[pid].events;
    assert LedgerSound(db, pid);
    var k :| 0 <= k < |entries| && entries[k].event == ev && entries[k].status == s;
    var i := IndexOfEvent(entries, ev);
    assert i == k;
    assert EntryLinked(db, pid, entries[i]);
  }

  /** In a consistent store, the participants reported as present on no day
      and those reported as present on all days are disjoint, and together no
      more than the registrations. */
  lemma StatusCountsBounded(db: Db, ev: EventId)
    requires Consistent(db)
    ensures ParticipantsWith(db.participants, ev, NotAttended) !! ParticipantsWith(db.participants, ev, Attended)
    ensures |ParticipantsWith(db.participants, ev, NotAttended)| + |ParticipantsWith(db.participants, ev, Attended)|
              <= |RecordsFor(db.attendances, ev)|
  {
    var none := ParticipantsWith(db.participants, ev, NotAttended);
    var all := ParticipantsWith(db.participants, ev, Attended);
    var records := RecordsFor(db.attendances, ev);
    forall pid | pid in none
      ensures pid !in all
    {
      CountedParticipantOwnsRecord(db, ev, NotAttended, pid);
      if pid in all {
        CountedParticipantOwnsRecord(db, ev, Attended, pid);
      }
    }
    var counted := none + all;
    var f := pid => RecordOfEntry(db, pid, ev);
    forall pid | pid in counted
      ensures f(pid) in records && db.attendances[f(pid)].participant == pid
    {
      if pid in none {
        CountedParticipantOwnsRecord(db, ev, NotAttended, pid);
      } else {
        CountedParticipantOwnsRecord(db, ev, Attended, pid);
      }
    }
    InjectionCard(counted, records, f);
  }

  /** The day-wise loop: one count per day from the start date. */
  method DayWise(attendances: map<AttendanceId, Attendance>, ev: EventId, startDate: Day, eveDays: int) returns (counts: seq<nat>)
    ensures counts == DayWiseCounts(attendances, ev, startDate, eveDays)
  {
    counts := [];
    var i := 0;
    while i < eveDays
      invariant 0 <= i
      invariant i <= eveDays || (i == 0 && eveDays <= 0)
      invariant |counts| == i
      invariant forall j :: 0 <= j < i ==> counts[j] == |RecordsOn(attendances, ev, startDate + j)|
    {
      counts := counts + [|RecordsOn(attendances, ev, startDate + i)|];
      i := i + 1;
    }
  }

  /** The handler, with the evidently intended guard: counts the
      registrations and the two statuses, then runs the day-wise loop over
      the event's days. */
  method EventAttendanceStats(db: Db, event: Option<EventId>) returns (r: Result<Stats, StatsError>)
    ensures r == EventStats(db, event)
  {
    if event.None? || event.value !in db.events {
      return Failure(InvalidEvent);
    }
    var ev := event.value;
    var totalRegistrations := |RecordsFor(db.attendances, ev)|;
    var present0days := |ParticipantsWith(db.participants, ev, NotAttended)|;
    var presentAlldays := |ParticipantsWith(db.participants, ev, Attended)|;
    var eventDetail := db.events[ev];
    var dayWiseAttendance := DayWise(db.attendances, ev, eventDetail.startDate, eventDetail.days);
    r := Success(Stats(totalRegistrations, present0days, presentAlldays, dayWiseAttendance));
  }
}
