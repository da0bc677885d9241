/** How one participant's record at one event moves through its states:
    registration starts it at "not attended" with an empty log, each check-in
    on a new day of the window adds that day, and the status follows the
    length of the log. */
module Lifecycle {
  import opened Wrappers
  import opened Records
  import opened Lookup
  import opened Consistency
  import opened CheckInMachine
  import opened Registration

  /** The log of `user` at `ev` and the status of their entry for it. */
  function LogAt(db: Db, ev: EventId, user: ParticipantId): seq<Day>
  {
    match AttendanceOf(db.attendances, ev, user)
    case None => []
    case Some(aid) => db.attendances[aid].attend
  }

  function StatusAt(db: Db, ev: EventId, user: ParticipantId): Option<Status>
  {
    if user !in db.participants then None
    else
      var i := IndexOfEvent(db.participants[user].events, ev);
      if i < 0 then None else Some(db.participants[user].events[i].status)
  }

  /** Right after registration the participant's log for the event is empty
      and their status is "not attended". */
  lemma RegistrationStartsEmpty(db: Db, ev: EventId, user: ParticipantId, newId: AttendanceId)
    requires Consistent(db)
    requires newId !in db.attendances
    requires Register(db, Some(ev), user, newId).Success?
    ensures var db' := Register(db, Some(ev), user, newId).value;
            Consistent(db') && LogAt(db', ev, user) == [] && StatusAt(db', ev, user) == Some(NotAttended)
  {
    var db' := Register(db, Some(ev), user, newId).value;
    RegisterPreservesConsistency(db, Some(ev), user, newId);
    var entries := db.participants[user].events;
    IndexOfEventAppend(entries, Entry(ev, newId, NotAttended), ev);
    LedgerEntryIsTheAttendance(db', user, ev);
  }

  /** A registered participant who presents the event's code on a day of the
      window not yet in their log is checked in: the day is appended and the
      status becomes the one the longer log stands for. */
  lemma CheckInOnNewDay(db: Db, code: string, ev: EventId, user: ParticipantId, today: Day)
    requires Consistent(db)
    requires code != "" && EventByCode(db.events, code) == Some(ev)
    requires StatusAt(db, ev, user).Some?
    requires db.events[ev].startDate <= today <= db.events[ev].endDate
    requires today !in LogAt(db, ev, user)
    ensures CheckIn(db, Some(code), user, today).Success?
    ensures var db' := CheckIn(db, Some(code), user, today).value;
            && Consistent(db')
            && db'.events == db.events
            && LogAt(db', ev, user) == LogAt(db, ev, user) + [today]
            && StatusAt(db', ev, user) == Some(DerivedStatus(|LogAt(db, ev, user)| + 1, db.events[ev].days))
  {
    LedgerEntryIsTheAttendance(db, user, ev);
    ConsistentCheckInNeverUnhandled(db, Some(code), user, today);
    var db' := CheckIn(db, Some(code), user, today).value;
    CheckInPreservesConsistency(db, Some(code), user, today);
    CheckInSuccessEffects(db, Some(code), user, today);
    var aid := AttendanceOf(db.attendances, ev, user).value;
    AttendanceOfUnchanged(db.attendances, aid, db.attendances[aid].attend + [today], ev, user);
    var i := IndexOfEvent(db.participants[user].events, ev);
    IndexOfEventIgnoresStatus(db.participants[user].events, i, db'.participants[user].events[i].status, ev);
  }

  /** A registered participant presenting the event's code is refused
      outside the window, and inside it on a day already in their log. */
  lemma CheckInRefusals(db: Db, code: string, ev: EventId, user: ParticipantId, today: Day)
    requires Consistent(db)
    requires code != "" && EventByCode(db.events, code) == Some(ev)
    requires StatusAt(db, ev, user).Some?
    ensures today < db.events[ev].startDate || db.events[ev].endDate < today ==>
              CheckIn(db, Some(code), user, today) == Failure(NotWithinTimeline)
    ensures db.events[ev].startDate <= today <= db.events[ev].endDate && today in LogAt(db, ev, user) ==>
              CheckIn(db, Some(code), user, today) == Failure(AlreadyMarked)
  {
    LedgerEntryIsTheAttendance(db, user, ev);
  }

  /** In a consistent store the status of a registered participant is
      always the one the length of their log stands for, and the log never
      holds more days than the window has. */
  lemma StatusFollowsLog(db: Db, ev: EventId, user: ParticipantId)
    requires Consistent(db)
    requires StatusAt(db, ev, user).Some?
    ensures ev in db.events
    ensures StatusAt(db, ev, user) == Some(DerivedStatus(|LogAt(db, ev, user)|, db.events[ev].days))
    ensures var e := db.events[ev];
            |LogAt(db, ev, user)| <= if e.startDate <= e.endDate then e.endDate - e.startDate + 1 else 0
  {
    var entries := db.participants[user].events;
    var i := IndexOfEvent(entries, ev);
    assert LedgerSound(db, user);
    assert EntryLinked(db, user, entries[i]);
    LedgerEntryIsTheAttendance(db, user, ev);
    AttendBoundedByWindow(db, entries[i].attendance);
  }
}
