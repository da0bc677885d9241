/** Day-of check-in (`markUserAttendance`): a participant submits an event
    code; the code is resolved to an event, the participant's Attendance
    record for that event is found, the day is checked against the event's
    window and against the log, and then the day is appended and the
    participant's status for the event recomputed. Every failure leaves the
    store as it was. "Today" is a parameter: the local-midnight date the
    controller builds from the clock. */
module CheckInMachine {
  import opened Wrappers
  import opened Records
  import opened Lookup
  import opened Consistency

  datatype CheckInError =
    | NoCodeReceived     // the request carried no code, or an empty one
    | InvalidCode        // no event has the code
    | NotRegistered      // no Attendance record for this participant and event
    | NotWithinTimeline  // today is before the start or after the end of the event
    | AlreadyMarked      // today is already in the log
    | Unhandled          // the participant or their ledger entry is missing: the handler throws

  /** The message the controller answers each error with. */
  function Message(e: CheckInError): string
  {
    match e
    case NoCodeReceived => "No Code Received!!"
    case InvalidCode => "Invalid Code!!"
    case NotRegistered => "Not Registered in this Event!!"
    case NotWithinTimeline => "Invalid date! Not within event timeline"
    case AlreadyMarked => "Already Marked!!"
    case Unhandled => ""
  }

  /** The code field of the request is falsy (absent or empty). */
  predicate NoCode(code: Option<string>)
  {
    code.None? || code.value == ""
  }

  /** The store after a check-in of `user` on `today`, or the first error
      that applies. */
  function CheckIn(db: Db, code: Option<string>, user: ParticipantId, today: Day): (r: Result<Db, CheckInError>)
    ensures r == Failure(NoCodeReceived) <==> NoCode(code)
    ensures r.Success? ==> user in db.participants && r.value.events == db.events
  {
    if NoCode(code) then Failure(NoCodeReceived)
    else match EventByCode(db.events, code.value)
      case None => Failure(InvalidCode)
      case Some(ev) =>
        match AttendanceOf(db.attendances, ev, user)
        case None => Failure(NotRegistered)
        case Some(aid) =>
          var event := db.events[ev];
          var log := db.attendances[aid].attend;
          if today < event.startDate || today > event.endDate then Failure(NotWithinTimeline)
          else if today in log then Failure(AlreadyMarked)
          else if user !in db.participants then Failure(Unhandled)
          else
            var p := db.participants[user];
            var i := IndexOfEvent(p.events, ev);
            if i < 0 then Failure(Unhandled)
            else
              var newLog := log + [today];
              var entry := p.events[i].(status := StatusAfterCheckIn(|newLog|, event.days));
              Success(Db(
                db.events,
                db.participants[user := p.(events := p.events[i := entry])],
                db.attendances[aid := db.attendances[aid].(attend := newLog)]))
  }

  /** The first three errors, in the order they are checked, stated in terms
      of the store: a missing code wins over everything, an unknown code over
      a missing registration. */
  lemma CheckInErrorOrder(db: Db, code: Option<string>, user: ParticipantId, today: Day)
    ensures CheckIn(db, code, user, today) == Failure(NoCodeReceived) <==> NoCode(code)
    ensures CheckIn(db, code, user, today) == Failure(InvalidCode) <==>
              !NoCode(code) && forall id :: id in db.events ==> db.events[id].code != code.value
    ensures CheckIn(db, code, user, today) == Failure(NotRegistered) <==>
              && !NoCode(code)
              && (exists id :: id in db.events && db.events[id].code == code.value)
              && forall aid :: aid in db.attendances ==>
                   !(db.attendances[aid].event == EventByCode(db.events, code.value).value && db.attendances[aid].participant == user)
  {
  }

  /** Once the event and the record are found, the day is rejected exactly
      when it lies outside the window; both the start and the end day are
      accepted. */
  lemma CheckInWindowInclusive(db: Db, code: string, user: ParticipantId, today: Day)
    requires code != ""
    requires EventByCode(db.events, code).Some?
    requires AttendanceOf(db.attendances, EventByCode(db.events, code).value, user).Some?
    ensures var e := db.events[EventByCode(db.events, code).value];
            CheckIn(db, Some(code), user, today) == Failure(NotWithinTimeline) <==> today < e.startDate || e.endDate < today
    ensures var e := db.events[EventByCode(db.events, code).value];
            e.startDate <= e.endDate && (today == e.startDate || today == e.endDate) ==> CheckIn(db, Some(code), user, today) != Failure(NotWithinTimeline)
  {
  }

  /** A day already in the log is refused with AlreadyMarked, whatever the
      store holds otherwise. */
  lemma AlreadyMarkedIsIdempotenceGuard(db: Db, code: string, user: ParticipantId, today: Day)
    requires code != ""
    requires EventByCode(db.events, code).Some?
    requires AttendanceOf(db.attendances, EventByCode(db.events, code).value, user).Some?
    requires var e := db.events[EventByCode(db.events, code).value];
             e.startDate <= today <= e.endDate
    requires today in db.attendances[AttendanceOf(db.attendances, EventByCode(db.events, code).value, user).value].attend
    ensures CheckIn(db, Some(code), user, today) == Failure(AlreadyMarked)
  {
  }

  /** A successful check-in appends exactly today to the one Attendance
      record found, rewrites only the status of the participant's entry for
      the event (never to "not attended"), and changes nothing else. */
  lemma CheckInSuccessEffects(db: Db, code: Option<string>, user: ParticipantId, today: Day)
    requires CheckIn(db, code, user, today).Success?
    ensures !NoCode(code) && EventByCode(db.events, code.value).Some?
    ensures var ev := EventByCode(db.events, code.value).value;
            var aid := AttendanceOf(db.attendances, ev, user).value;
            var db' := CheckIn(db, code, user, today).value;
            && AttendanceOf(db.attendances, ev, user).Some?
            && db'.events == db.events
            && db'.attendances.Keys == db.attendances.Keys
            && db'.attendances[aid].participant == user
            && db'.attendances[aid].event == ev
            && db'.attendances[aid].attend == db.attendances[aid].attend + [today]
            && today !in db.attendances[aid].attend
            && (forall id :: id in db.attendances && id != aid ==> db'.attendances[id] == db.attendances[id])
            && db'.participants.Keys == db.participants.Keys
            && (forall pid :: pid in db.participants && pid != user ==> db'.participants[pid] == db.participants[pid])
    ensures var ev := EventByCode(db.events, code.value).value;
            var aid := AttendanceOf(db.attendances, ev, user).value;
            var db' := CheckIn(db, code, user, today).value;
            var before := db.participants[user].events;
            var after := db'.participants[user].events;
            var i := IndexOfEvent(before, ev);
            && user in db.participants
            && 0 <= i < |before| == |after|
            && db'.participants[user] == db.participants[user].(events := after)
            && (forall k :: 0 <= k < |before| && k != i ==> after[k] == before[k])
            && after[i].event == ev && after[i].attendance == before[i].attendance
            && after[i].status != NotAttended
            && (after[i].status == Attended <==> |db'.attendances[aid].attend| >= db.events[ev].days)
  {
    var ev := EventByCode(db.events, code.value).value;
    var aid := AttendanceOf(db.attendances, ev, user).value;
    StatusAfterCheckInMeaning(|db.attendances[aid].attend| + 1, db.events[ev].days);
  }

  /** Appending a day that is not yet in a duplicate-free log keeps it
      duplicate-free. */
  lemma AppendFreshKeepsNoDuplicates(log: seq<Day>, today: Day)
    requires NoDuplicates(log)
    requires today !in log
    ensures NoDuplicates(log + [today])
  {
    var s := log + [today];
    forall i, j | 0 <= i < j < |s|
      ensures s[i] != s[j]
    {
      if j == |log| {
        assert s[i] == log[i];
      }
    }
  }

  /** Checking in twice on the same day with the same code: the second call
      is refused with AlreadyMarked, so the log grows by one, not two. */
  lemma CheckInTwiceSameDay(db: Db, code: Option<string>, user: ParticipantId, today: Day)
    requires CheckIn(db, code, user, today).Success?
    ensures CheckIn(CheckIn(db, code, user, today).value, code, user, today) == Failure(AlreadyMarked)
  {
    var db' := CheckIn(db, code, user, today).value;
    var ev := EventByCode(db.events, code.value).value;
    var aid := AttendanceOf(db.attendances, ev, user).value;
    AttendanceOfUnchanged(db.attendances, aid, db.attendances[aid].attend + [today], ev, user);
    assert AttendanceOf(db'.attendances, ev, user) == Some(aid);
    assert today in db'.attendances[aid].attend;
  }

  /** Rewriting the status of one ledger entry does not move any event's
      first index. */
  lemma {:induction false} IndexOfEventIgnoresStatus(entries: seq<Entry>, i: nat, s: Status, ev: EventId)
    requires i < |entries|
    ensures IndexOfEvent(entries[i := entries[i].(status := s)], ev) == IndexOfEvent(entries, ev)
  {
    var updated := entries[i := entries[i].(status := s)];
    assert forall k :: 0 <= k < |entries| ==> updated[k].event == entries[k].event;
  }

  /** In a consistent store a check-in never reaches the missing-participant
      or missing-entry crash. */
  lemma ConsistentCheckInNeverUnhandled(db: Db, code: Option<string>, user: ParticipantId, today: Day)
    requires Consistent(db)
    ensures CheckIn(db, code, user, today) != Failure(Unhandled)
  {
    if !NoCode(code) && EventByCode(db.events, code.value).Some? {
      var ev := EventByCode(db.events, code.value).value;
      if AttendanceOf(db.attendances, ev, user).Some? {
        AttendanceHasLedgerEntry(db, ev, user);
      }
    }
  }

  /** The facts about a successful check-in that the preservation proof
      works from. */
  ghost predicate CheckInStep(db: Db, db': Db, ev: EventId, aid: AttendanceId, user: ParticipantId, today: Day, i: nat)
  {
    && ev in db.events
    && aid in db.attendances
    && db.attendances[aid].event == ev
    && db.attendances[aid].participant == user
    && user in db.participants
    && i < |db.participants[user].events|
    && db.participants[user].events[i].event == ev
    && db.participants[user].events[i].attendance == aid
    && db.events[ev].startDate <= today <= db.events[ev].endDate
    && today !in db.attendances[aid].attend
    && db' == Db(
         db.events,
         db.participants[user := db.participants[user].(events := db.participants[user].events[i := db.participants[user].events[i].(status := StatusAfterCheckIn(|db.attendances[aid].attend| + 1, db.events[ev].days))])],
         db.attendances[aid := db.attendances[aid].(attend := db.attendances[aid].attend + [today])])
  }

  lemma CheckInKeepsLedgerSound(db: Db, db': Db, ev: EventId, aid: AttendanceId, user: ParticipantId, today: Day, i: nat, pid: ParticipantId)
    requires Consistent(db)
    requires CheckInStep(db, db', ev, aid, user, today, i)
    requires pid in db'.participants
    ensures LedgerSound(db', pid)
  {
    assert LedgerSound(db, pid);
    var entries := db.participants[pid].events;
    var entries' := db'.participants[pid].events;
    assert forall k :: 0 <= k < |entries| ==> entries'[k].event == entries[k].event;
    forall k | 0 <= k < |entries'|
      ensures EntryLinked(db', pid, entries'[k])
    {
      assert EntryLinked(db, pid, entries[k]);
      if pid == user && k == i {
        assert entries'[k].attendance == aid;
      } else {
        assert entries'[k] == entries[k];
        if entries[k].attendance == aid {
          assert false;
        }
      }
    }
  }

  lemma CheckInKeepsOwned(db: Db, db': Db, ev: EventId, aid: AttendanceId, user: ParticipantId, today: Day, i: nat, id: AttendanceId)
    requires Consistent(db)
    requires CheckInStep(db, db', ev, aid, user, today, i)
    requires id in db'.attendances
    ensures Owned(db', id)
  {
    assert Owned(db, id);
    var owner := db.attendances[id].participant;
    if owner == user {
      var before := db.participants[user].events;
      IndexOfEventIgnoresStatus(before, i, db'.participants[user].events[i].status, db.attendances[id].event);
    }
    if id == aid {
      var a := db.attendances[aid];
      AppendFreshKeepsNoDuplicates(a.attend, today);
      var s := a.attend + [today];
      assert forall k :: 0 <= k < |s| ==> db.events[ev].startDate <= s[k] <= db.events[ev].endDate;
    }
  }

  /** A check-in keeps the store consistent: the log stays duplicate-free and
      inside the window, and the entry's status is the one the longer log
      stands for. */
  lemma CheckInPreservesConsistency(db: Db, code: Option<string>, user: ParticipantId, today: Day)
    requires Consistent(db)
    requires CheckIn(db, code, user, today).Success?
    ensures Consistent(CheckIn(db, code, user, today).value)
  {
    var db' := CheckIn(db, code, user, today).value;
    var ev := EventByCode(db.events, code.value).value;
    var aid := AttendanceOf(db.attendances, ev, user).value;
    var i := IndexOfEvent(db.participants[user].events, ev);
    assert Owned(db, aid);
    assert CheckInStep(db, db', ev, aid, user, today, i);
    forall pid | pid in db'.participants
      ensures LedgerSound(db', pid)
    {
      CheckInKeepsLedgerSound(db, db', ev, aid, user, today, i, pid);
    }
    forall id | id in db'.attendances
      ensures Owned(db', id)
    {
      CheckInKeepsOwned(db, db', ev, aid, user, today, i, id);
    }
  }
}
