/** The consistency the controller relies on without ever checking it: every
    ledger entry of a participant points at an Attendance record for that
    participant and event, every Attendance record is pointed at by its
    owner's entry for its event (no orphan records), a participant is
    registered at most once per event, each log is a duplicate-free list of
    days inside its event's window, and each entry's status is the one its
    log's length stands for. Registration and check-in keep all of it (see
    the lemmas in the CheckInMachine and Registration modules). */
module Consistency {
  import opened Wrappers
  import opened Records
  import opened Lookup

  /** Entry `e` of participant `pid` is backed by the right Attendance record
      and carries the status that record's log stands for. */
  ghost predicate EntryLinked(db: Db, pid: ParticipantId, e: Entry)
  {
    && e.event in db.events
    && e.attendance in db.attendances
    && db.attendances[e.attendance].participant == pid
    && db.attendances[e.attendance].event == e.event
    && e.status == DerivedStatus(|db.attendances[e.attendance].attend|, db.events[e.event].days)
  }

  /** The ledger of participant `pid` names each event once, and every entry
      is linked. */
  ghost predicate LedgerSound(db: Db, pid: ParticipantId)
    requires pid in db.participants
  {
    var entries := db.participants[pid].events;
    && UniqueEvents(entries)
    && forall k :: 0 <= k < |entries| ==> EntryLinked(db, pid, entries[k])
  }

  /** A log lists distinct days, all inside the window of its event. */
  ghost predicate LogValid(db: Db, a: Attendance)
  {
    && a.event in db.events
    && NoDuplicates(a.attend)
    && forall k :: 0 <= k < |a.attend| ==>
         db.events[a.event].startDate <= a.attend[k] <= db.events[a.event].endDate
  }

  /** Attendance record `aid` belongs to an existing participant whose ledger
      entry for the record's event points back at `aid`. */
  ghost predicate Owned(db: Db, aid: AttendanceId)
    requires aid in db.attendances
  {
    var a := db.attendances[aid];
    && a.participant in db.participants
    && LogValid(db, a)
    && var i := IndexOfEvent(db.participants[a.participant].events, a.event);
       i >= 0 && db.participants[a.participant].events[i].attendance == aid
  }

  ghost predicate Consistent(db: Db)
  {
    && (forall pid :: pid in db.participants ==> LedgerSound(db, pid))
    && (forall aid :: aid in db.attendances ==> Owned(db, aid))
  }

  /** In a consistent store, the Attendance record found for a participant
      at an event is exactly the one their ledger entry for that event names. */
  lemma LedgerEntryIsTheAttendance(db: Db, pid: ParticipantId, ev: EventId)
    requires Consistent(db)
    requires pid in db.participants
    requires IndexOfEvent(db.participants[pid].events, ev) >= 0
    ensures AttendanceOf(db.attendances, ev, pid) == Some(db.participants[pid].events[IndexOfEvent(db.participants[pid].events, ev)].attendance)
  {
    var entries := db.participants[pid].events;
    var i := IndexOfEvent(entries, ev);
    assert LedgerSound(db, pid);
    assert EntryLinked(db, pid, entries[i]);
    var found := AttendanceOf(db.attendances, ev, pid);
    assert found.Some?;
    assert Owned(db, found.value);
  }

  /** In a consistent store, a participant with an Attendance record at an
      event exists and has a ledger entry for that event naming the record. */
  lemma AttendanceHasLedgerEntry(db: Db, ev: EventId, pid: ParticipantId)
    requires Consistent(db)
    requires AttendanceOf(db.attendances, ev, pid).Some?
    ensures pid in db.participants
    ensures var i := IndexOfEvent(db.participants[pid].events, ev);
            i >= 0 && db.participants[pid].events[i].attendance == AttendanceOf(db.attendances, ev, pid).value
  {
    assert Owned(db, AttendanceOf(db.attendances, ev, pid).value);
  }

  /** The days from `lo` to `hi`, both included. */
  function Window(lo: int, hi: int): (w: set<int>)
    ensures forall d :: d in w <==> lo <= d <= hi
    ensures |w| == if lo <= hi then hi - lo + 1 else 0
    decreases hi - lo
  {
    if lo > hi then {}
    else
      var rest := Window(lo + 1, hi);
      assert lo !in rest;
      {lo} + rest
  }

  /** A duplicate-free sequence has as many distinct elements as entries. */
  lemma {:induction false} DistinctElementsCount(s: seq<int>)
    requires NoDuplicates(s)
    ensures |set k | 0 <= k < |s| :: s[k]| == |s|
  {
    if s != [] {
      var init := s[..|s| - 1];
      assert NoDuplicates(init);
      DistinctElementsCount(init);
      var front := set k | 0 <= k < |init| :: init[k];
      var all := set k | 0 <= k < |s| :: s[k];
      assert all == front + {s[|s| - 1]};
      assert s[|s| - 1] !in front;
    }
  }

  /** A subset has at most as many elements as its superset. */
  lemma {:induction false} SubsetCard<T>(a: set<T>, b: set<T>)
    requires a <= b
    ensures |a| <= |b|
  {
    if a != {} {
      var x :| x in a;
      SubsetCard(a - {x}, b - {x});
    }
  }

  /** A log with no day twice, all inside the window, has at most as many
      entries as the window has days: one check-in per day at most. */
  lemma LogFitsWindow(log: seq<Day>, startDate: Day, endDate: Day)
    requires NoDuplicates(log)
    requires forall k :: 0 <= k < |log| ==> startDate <= log[k] <= endDate
    ensures |log| <= if startDate <= endDate then endDate - startDate + 1 else 0
  {
    DistinctElementsCount(log);
    var days := set k | 0 <= k < |log| :: log[k];
    SubsetCard(days, Window(startDate, endDate));
  }

  /** In a consistent store, no participant has checked in to an event more
      times than the event's window has days. */
  lemma AttendBoundedByWindow(db: Db, aid: AttendanceId)
    requires Consistent(db)
    requires aid in db.attendances
    ensures var a := db.attendances[aid];
            var e := db.events[a.event];
            a.event in db.events && |a.attend| <= if e.startDate <= e.endDate then e.endDate - e.startDate + 1 else 0
  {
    assert Owned(db, aid);
    var a := db.attendances[aid];
    LogFitsWindow(a.attend, db.events[a.event].startDate, db.events[a.event].endDate);
  }
}
