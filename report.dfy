/** The attendance report (`getEventAttendanceReport`). The aggregation hands
    the controller, for every participant registered for the event (in the
    requested sort order), the participant joined with the Attendance records
    and the Event documents their ledger points at. The controller then
    finds, per participant, the record and the document for this event and
    keeps the participant according to the `presentOn` pattern: all days,
    no day, one given day, or, with no pattern, everyone. */
module Report {
  import opened Wrappers
  import opened Records
  import opened Lookup
  import opened Consistency

  /** The `presentOn` query parameter, read: "all", "none", or a date. */
  datatype PresentOn = AllDays | NoDays | OnDay(day: Day)

  /** Reading the query parameter. An absent or empty parameter is falsy and
      means "no pattern"; any other text than "all" and "none" names the day
      `named` (the date the text denotes; parsing it is not modelled). */
  function ReadPresentOn(param: Option<string>, named: Day): (r: Option<PresentOn>)
    ensures r.None? <==> param.None? || param.value == ""
    ensures r == Some(AllDays) <==> param == Some("all")
    ensures r == Some(NoDays) <==> param == Some("none")
    ensures r.Some? && r.value.OnDay? ==> r.value.day == named && param.Some? && param.value !in {"", "all", "none"}
  {
    if param.None? || param.value == "" then None
    else if param.value == "all" then Some(AllDays)
    else if param.value == "none" then Some(NoDays)
    else Some(OnDay(named))
  }

  datatype EventDoc = EventDoc(id: EventId, event: Event)

  /** One participant as the aggregation returns it: `attend` holds the
      Attendance records and `events` the Event documents of their ledger. */
  datatype Joined = Joined(id: ParticipantId, participant: Participant, attend: seq<Attendance>, events: seq<EventDoc>)

  /** One line of the report: the participant's contact fields and their
      log for the event. */
  datatype Row = Row(id: ParticipantId, name: string, branch: string, year: int, phone: string, email: string, attendance: seq<Day>)

  /** The first Attendance record for event `ev`, or -1. */
  function IndexOfRecord(docs: seq<Attendance>, ev: EventId): (i: int)
    ensures -1 <= i < |docs|
    ensures i == -1 <==> forall k :: 0 <= k < |docs| ==> docs[k].event != ev
    ensures i >= 0 ==> docs[i].event == ev && forall k :: 0 <= k < i ==> docs[k].event != ev
  {
    if |docs| == 0 then -1
    else if docs[0].event == ev then 0
    else
      var j := IndexOfRecord(docs[1..], ev);
      if j == -1 then -1 else j + 1
  }

  /** The first Event document with id `ev`, or -1. */
  function IndexOfEventDoc(docs: seq<EventDoc>, ev: EventId): (i: int)
    ensures -1 <= i < |docs|
    ensures i == -1 <==> forall k :: 0 <= k < |docs| ==> docs[k].id != ev
    ensures i >= 0 ==> docs[i].id == ev && forall k :: 0 <= k < i ==> docs[k].id != ev
  {
    if |docs| == 0 then -1
    else if docs[0].id == ev then 0
    else
      var j := IndexOfEventDoc(docs[1..], ev);
      if j == -1 then -1 else j + 1
  }

  method FindRecord(docs: seq<Attendance>, ev: EventId) returns (i: int)
    ensures i == IndexOfRecord(docs, ev)
  {
    i := 0;
    while i < |docs|
      invariant 0 <= i <= |docs|
      invariant forall k :: 0 <= k < i ==> docs[k].event != ev
    {
      if docs[i].event == ev {
        return;
      }
      i := i + 1;
    }
    i := -1;
  }

  method FindEventDoc(docs: seq<EventDoc>, ev: EventId) returns (i: int)
    ensures i == IndexOfEventDoc(docs, ev)
  {
    i := 0;
    while i < |docs|
      invariant 0 <= i <= |docs|
      invariant forall k :: 0 <= k < i ==> docs[k].id != ev
    {
      if docs[i].id == ev {
        return;
      }
      i := i + 1;
    }
    i := -1;
  }

  /** The joined participant carries a record and a document for event `ev`
      (otherwise the controller throws on `undefined`). */
  predicate WellJoined(part: Joined, ev: EventId)
  {
    IndexOfRecord(part.attend, ev) >= 0 && IndexOfEventDoc(part.events, ev) >= 0
  }

  /** `getPushObject(part, attendInd)`. */
  function PushObject(part: Joined, attendInd: nat): Row
    requires attendInd < |part.attend|
  {
    var p := part.participant;
    Row(part.id, p.name, p.branch, p.year, p.phone, p.email, part.attend[attendInd].attend)
  }

  /** The participant's log for event `ev`. */
  function LogOf(part: Joined, ev: EventId): seq<Day>
    requires WellJoined(part, ev)
  {
    part.attend[IndexOfRecord(part.attend, ev)].attend
  }

  /** The event's `days` as the joined document gives it. */
  function DaysOf(part: Joined, ev: EventId): int
    requires WellJoined(part, ev)
  {
    part.events[IndexOfEventDoc(part.events, ev)].event.days
  }

  function RowOf(part: Joined, ev: EventId): Row
    requires WellJoined(part, ev)
  {
    PushObject(part, IndexOfRecord(part.attend, ev))
  }

  /** How often `d` occurs in `s`. */
  function Count(s: seq<Day>, d: Day): nat
  {
    if s == [] then 0 else Count(s[..|s| - 1], d) + (if s[|s| - 1] == d then 1 else 0)
  }

  /** `n` copies of `r`. */
  function Repeat(r: Row, n: nat): seq<Row>
  {
    if n == 0 then [] else Repeat(r, n - 1) + [r]
  }

  /** How many rows the controller pushes for one participant. */
  function Copies(part: Joined, ev: EventId, presentOn: Option<PresentOn>): nat
    requires WellJoined(part, ev)
  {
    match presentOn
    case None => 1
    case Some(AllDays) => if |LogOf(part, ev)| == DaysOf(part, ev) then 1 else 0
    case Some(NoDays) => if |LogOf(part, ev)| == 0 then 1 else 0
    case Some(OnDay(d)) => Count(LogOf(part, ev), d)
  }

  /** The report the controller builds over `parts`. */
  function Report(parts: seq<Joined>, ev: EventId, presentOn: Option<PresentOn>): (rows: seq<Row>)
    requires forall k :: 0 <= k < |parts| ==> WellJoined(parts[k], ev)
    ensures presentOn.None? ==> |rows| == |parts|
    ensures presentOn == Some(AllDays) || presentOn == Some(NoDays) ==> |rows| <= |parts|
  {
    if parts == [] then []
    else
      var last := parts[|parts| - 1];
      RepeatLength(RowOf(last, ev), Copies(last, ev, presentOn));
      Report(parts[..|parts| - 1], ev, presentOn) + Repeat(RowOf(last, ev), Copies(last, ev, presentOn))
  }

  /** The pattern, as a property of one participant's log. */
  predicate Present(part: Joined, ev: EventId, presentOn: Option<PresentOn>)
    requires WellJoined(part, ev)
  {
    match presentOn
    case None => true
    case Some(AllDays) => |LogOf(part, ev)| == DaysOf(part, ev)
    case Some(NoDays) => |LogOf(part, ev)| == 0
    case Some(OnDay(d)) => d in LogOf(part, ev)
  }

  /** Reference definition: the participants matching the pattern, each
      once, in input order. */
  function Selected(parts: seq<Joined>, ev: EventId, presentOn: Option<PresentOn>): seq<Row>
    requires forall k :: 0 <= k < |parts| ==> WellJoined(parts[k], ev)
  {
    if parts == [] then []
    else if Present(parts[0], ev, presentOn) then [RowOf(parts[0], ev)] + Selected(parts[1..], ev, presentOn)
    else Selected(parts[1..], ev, presentOn)
  }

  /** A duplicate-free log holds a day once or not at all. */
  lemma {:induction false} CountInDistinct(s: seq<Day>, d: Day)
    requires NoDuplicates(s)
    ensures Count(s, d) == if d in s then 1 else 0
  {
    if s != [] {
      var init := s[..|s| - 1];
      assert NoDuplicates(init);
      CountInDistinct(init, d);
      assert s == init + [s[|s| - 1]];
      if s[|s| - 1] == d {
        assert d !in init;
      }
    }
  }

  /** Selecting from a sequence with one more participant at the end. */
  lemma {:induction false} SelectedSnoc(parts: seq<Joined>, ev: EventId, presentOn: Option<PresentOn>)
    requires parts != []
    requires forall k :: 0 <= k < |parts| ==> WellJoined(parts[k], ev)
    ensures var last := parts[|parts| - 1];
            Selected(parts, ev, presentOn) ==
              Selected(parts[..|parts| - 1], ev, presentOn) + (if Present(last, ev, presentOn) then [RowOf(last, ev)] else [])
  {
    if |parts| > 1 {
      SelectedSnoc(parts[1..], ev, presentOn);
      assert parts[1..][..|parts| - 2] == parts[..|parts| - 1][1..];
    }
  }

  /** With duplicate-free logs, the report keeps exactly the participants
      matching the pattern, each once, in input order: everyone without a
      pattern, those present on every day for "all", those never present
      for "none", those present on the day for a date. */
  lemma {:induction false} ReportIsSelection(parts: seq<Joined>, ev: EventId, presentOn: Option<PresentOn>)
    requires forall k :: 0 <= k < |parts| ==> WellJoined(parts[k], ev)
    requires forall k :: 0 <= k < |parts| ==> NoDuplicates(LogOf(parts[k], ev))
    ensures Report(parts, ev, presentOn) == Selected(parts, ev, presentOn)
  {
    if parts != [] {
      var last := parts[|parts| - 1];
      ReportIsSelection(parts[..|parts| - 1], ev, presentOn);
      SelectedSnoc(parts, ev, presentOn);
      if presentOn.Some? && presentOn.value.OnDay? {
        CountInDistinct(LogOf(last, ev), presentOn.value.day);
      }
      var n := Copies(last, ev, presentOn);
      assert n == if Present(last, ev, presentOn) then 1 else 0;
      assert Repeat(RowOf(last, ev), n) == if n == 1 then [RowOf(last, ev)] else [];
    }
  }

  /** A participant present twice in a log with a repeated day is pushed
      twice: the report lists a participant once per log entry equal to the
      day. */
  lemma ReportCountsRepeatedDays(part: Joined, ev: EventId, d: Day)
    requires WellJoined(part, ev)
    ensures |Report([part], ev, Some(OnDay(d)))| == Count(LogOf(part, ev), d)
  {
    var n := Count(LogOf(part, ev), d);
    RepeatLength(RowOf(part, ev), n);
    assert [part][..0] == [];
  }

  lemma {:induction false} RepeatLength(r: Row, n: nat)
    ensures |Repeat(r, n)| == n
  {
    if n > 0 {
      RepeatLength(r, n - 1);
    }
  }

  /** The rows the controller pushes for one participant. */
  method RowsFor(part: Joined, ev: EventId, presentOn: Option<PresentOn>) returns (pushed: seq<Row>)
    requires WellJoined(part, ev)
    ensures pushed == Repeat(RowOf(part, ev), Copies(part, ev, presentOn))
  {
    var attendInd := FindRecord(part.attend, ev);
    var eventInd := FindEventDoc(part.events, ev);
    var eveDays := part.events[eventInd].event.days;
    var log := part.attend[attendInd].attend;
    var row := PushObject(part, attendInd);
    assert Repeat(row, 1) == [row];
    pushed := [];
    match presentOn {
      case None =>
        pushed := [row];
      case Some(AllDays) =>
        if |log| == eveDays {
          pushed := [row];
        }
      case Some(NoDays) =>
        if |log| == 0 {
          pushed := [row];
        }
      case Some(OnDay(d)) =>
        var j := 0;
        while j < |log|
          invariant 0 <= j <= |log|
          invariant pushed == Repeat(row, Count(log[..j], d))
        {
          assert log[..j + 1][..j] == log[..j];
          if log[j] == d {
            pushed := pushed + [row];
          }
          j := j + 1;
        }
        assert log[..j] == log;
    }
  }

  /** The report loop of `getEventAttendanceReport`. */
  method AttendanceReport(parts: seq<Joined>, ev: EventId, presentOn: Option<PresentOn>) returns (rows: seq<Row>)
    requires forall k :: 0 <= k < |parts| ==> WellJoined(parts[k], ev)
    ensures rows == Report(parts, ev, presentOn)
  {
    rows := [];
    var n := 0;
    while n < |parts|
      invariant 0 <= n <= |parts|
      invariant rows == Report(parts[..n], ev, presentOn)
    {
      var pushed := RowsFor(parts[n], ev, presentOn);
      assert parts[..n + 1][..n] == parts[..n];
      rows := rows + pushed;
      n := n + 1;
    }
    assert parts[..n] == parts;
  }

  // ---------------------------------------------------------------------
  // The report against the store

  /** The participant filter of the report: registered for `ev`, and of the
      branch and year asked for, when they are asked for (an empty branch is
      falsy and not applied). */
  predicate MatchesFilters(p: Participant, ev: EventId, branch: Option<string>, year: Option<int>)
  {
    && HasEntryFor(p.events, ev)
    && (branch.None? || branch.value == "" || p.branch == branch.value)
    && (year.None? || p.year == year.value)
  }

  /** The `$lookup` of a ledger's Attendance records, in ledger order. */
  function RecordsOf(db: Db, entries: seq<Entry>): (docs: seq<Attendance>)
    requires forall k :: 0 <= k < |entries| ==> entries[k].attendance in db.attendances
    ensures |docs| == |entries|
    ensures forall k :: 0 <= k < |entries| ==> docs[k] == db.attendances[entries[k].attendance]
  {
    seq(|entries|, k requires 0 <= k < |entries| => db.attendances[entries[k].attendance])
  }

  /** The `$lookup` of a ledger's Event documents, in ledger order. */
  function DocsOf(db: Db, entries: seq<Entry>): (docs: seq<EventDoc>)
    requires forall k :: 0 <= k < |entries| ==> entries[k].event in db.events
    ensures |docs| == |entries|
    ensures forall k :: 0 <= k < |entries| ==> docs[k] == EventDoc(entries[k].event, db.events[entries[k].event])
  {
    seq(|entries|, k requires 0 <= k < |entries| => EventDoc(entries[k].event, db.events[entries[k].event]))
  }

  /** Participant `pid` joined with the records and documents of their
      ledger. */
  function JoinedOf(db: Db, pid: ParticipantId): Joined
    requires Consistent(db)
    requires pid in db.participants
  {
    var p := db.participants[pid];
    assert LedgerSound(db, pid);
    assert forall k :: 0 <= k < |p.events| ==> EntryLinked(db, pid, p.events[k]);
    Joined(pid, p, RecordsOf(db, p.events), DocsOf(db, p.events))
  }

  /** The aggregation's output: the participants of `order` (the sorted
      result; sorting is the database's) that pass the filters, joined. */
  function Join(db: Db, ev: EventId, branch: Option<string>, year: Option<int>, order: seq<ParticipantId>): seq<Joined>
    requires Consistent(db)
  {
    if order == [] then []
    else
      var pid := order[0];
      var rest := Join(db, ev, branch, year, order[1..]);
      if pid in db.participants && MatchesFilters(db.participants[pid], ev, branch, year) then [JoinedOf(db, pid)] + rest
      else rest
  }

  /** The log of `pid` at event `ev` in the store (empty without a record). */
  function StoreLog(db: Db, ev: EventId, pid: ParticipantId): seq<Day>
  {
    match AttendanceOf(db.attendances, ev, pid)
    case None => []
    case Some(aid) => db.attendances[aid].attend
  }

  /** The pattern, read directly on the store. */
  predicate PresentInStore(db: Db, ev: EventId, pid: ParticipantId, presentOn: Option<PresentOn>)
  {
    match presentOn
    case None => true
    case Some(AllDays) => ev in db.events && |StoreLog(db, ev, pid)| == db.events[ev].days
    case Some(NoDays) => |StoreLog(db, ev, pid)| == 0
    case Some(OnDay(d)) => d in StoreLog(db, ev, pid)
  }

  /** Reference definition of the report on the store: for each participant
      of `order` that passes the filters and the pattern, once, their contact
      fields and their log for the event. */
  function StoreReport(db: Db, ev: EventId, branch: Option<string>, year: Option<int>, order: seq<ParticipantId>, presentOn: Option<PresentOn>): seq<Row>
  {
    if order == [] then []
    else
      var pid := order[0];
      var rest := StoreReport(db, ev, branch, year, order[1..], presentOn);
      if pid in db.participants && MatchesFilters(db.participants[pid], ev, branch, year) && PresentInStore(db, ev, pid, presentOn) then
        var p := db.participants[pid];
        [Row(pid, p.name, p.branch, p.year, p.phone, p.email, StoreLog(db, ev, pid))] + rest
      else rest
  }

  /** Looking up by event in records that follow the ledger entry for entry
      finds the same index as looking up in the ledger. */
  lemma {:induction false} IndexOfRecordFollowsLedger(docs: seq<Attendance>, entries: seq<Entry>, ev: EventId)
    requires |docs| == |entries|
    requires forall k :: 0 <= k < |entries| ==> docs[k].event == entries[k].event
    ensures IndexOfRecord(docs, ev) == IndexOfEvent(entries, ev)
  {
    if entries != [] {
      IndexOfRecordFollowsLedger(docs[1..], entries[1..], ev);
    }
  }

  lemma {:induction false} IndexOfEventDocFollowsLedger(docs: seq<EventDoc>, entries: seq<Entry>, ev: EventId)
    requires |docs| == |entries|
    requires forall k :: 0 <= k < |entries| ==> docs[k].id == entries[k].event
    ensures IndexOfEventDoc(docs, ev) == IndexOfEvent(entries, ev)
  {
    if entries != [] {
      IndexOfEventDocFollowsLedger(docs[1..], entries[1..], ev);
    }
  }

  /** In a consistent store, a participant registered for `ev` joins into a
      well-formed record whose log and day count are the store's. */
  lemma JoinedOfMeaning(db: Db, pid: ParticipantId, ev: EventId)
    requires Consistent(db)
    requires pid in db.participants
    requires HasEntryFor(db.participants[pid].events, ev)
    ensures WellJoined(JoinedOf(db, pid), ev)
    ensures LogOf(JoinedOf(db, pid), ev) == StoreLog(db, ev, pid)
    ensures NoDuplicates(LogOf(JoinedOf(db, pid), ev))
    ensures ev in db.events && DaysOf(JoinedOf(db, pid), ev) == db.events[ev].days
  {
    var entries := db.participants[pid].events;
    var part := JoinedOf(db, pid);
    assert LedgerSound(db, pid);
    var i := IndexOfEvent(entries, ev);
    assert EntryLinked(db, pid, entries[i]);
    forall k | 0 <= k < |entries|
      ensures part.attend[k].event == entries[k].event
    {
      assert EntryLinked(db, pid, entries[k]);
    }
    IndexOfRecordFollowsLedger(part.attend, entries, ev);
    IndexOfEventDocFollowsLedger(part.events, entries, ev);
    LedgerEntryIsTheAttendance(db, pid, ev);
    assert Owned(db, entries[i].attendance);
  }

  /** Every joined participant is a registered participant passing the
      filters, joined. */
  lemma {:induction false} JoinElements(db: Db, ev: EventId, branch: Option<string>, year: Option<int>, order: seq<ParticipantId>)
    requires Consistent(db)
    ensures forall k :: 0 <= k < |Join(db, ev, branch, year, order)| ==>
              var pid := Join(db, ev, branch, year, order)[k].id;
              && pid in db.participants
              && MatchesFilters(db.participants[pid], ev, branch, year)
              && Join(db, ev, branch, year, order)[k] == JoinedOf(db, pid)
  {
    if order != [] {
      JoinElements(db, ev, branch, year, order[1..]);
    }
  }

  /** Every joined participant is well formed, with a duplicate-free log. */
  lemma JoinWellFormed(db: Db, ev: EventId, branch: Option<string>, year: Option<int>, order: seq<ParticipantId>)
    requires Consistent(db)
    ensures forall k :: 0 <= k < |Join(db, ev, branch, year, order)| ==> WellJoined(Join(db, ev, branch, year, order)[k], ev)
    ensures forall k :: 0 <= k < |Join(db, ev, branch, year, order)| ==> NoDuplicates(LogOf(Join(db, ev, branch, year, order)[k], ev))
  {
    var joined := Join(db, ev, branch, year, order);
    JoinElements(db, ev, branch, year, order);
    forall k | 0 <= k < |joined|
      ensures WellJoined(joined[k], ev) && NoDuplicates(LogOf(joined[k], ev))
    {
      JoinedOfMeaning(db, joined[k].id, ev);
    }
  }

  /** For one registered participant, the joined record passes the pattern
      exactly when the store's log does, and yields the store's row. */
  lemma JoinedAgreesWithStore(db: Db, pid: ParticipantId, ev: EventId, presentOn: Option<PresentOn>)
    requires Consistent(db)
    requires pid in db.participants
    requires HasEntryFor(db.participants[pid].events, ev)
    ensures WellJoined(JoinedOf(db, pid), ev)
    ensures Present(JoinedOf(db, pid), ev, presentOn) == PresentInStore(db, ev, pid, presentOn)
    ensures var p := db.participants[pid];
            RowOf(JoinedOf(db, pid), ev) == Row(pid, p.name, p.branch, p.year, p.phone, p.email, StoreLog(db, ev, pid))
  {
    JoinedOfMeaning(db, pid, ev);
  }

  lemma {:induction false} SelectedIsStoreReport(db: Db, ev: EventId, branch: Option<string>, year: Option<int>, order: seq<ParticipantId>, presentOn: Option<PresentOn>)
    requires Consistent(db)
    requires forall k :: 0 <= k < |Join(db, ev, branch, year, order)| ==> WellJoined(Join(db, ev, branch, year, order)[k], ev)
    ensures Selected(Join(db, ev, branch, year, order), ev, presentOn) == StoreReport(db, ev, branch, year, order, presentOn)
  {
    if order != [] {
      var pid := order[0];
      var rest := Join(db, ev, branch, year, order[1..]);
      JoinWellFormed(db, ev, branch, year, order[1..]);
      SelectedIsStoreReport(db, ev, branch, year, order[1..], presentOn);
      if pid in db.participants && MatchesFilters(db.participants[pid], ev, branch, year) {
        JoinedAgreesWithStore(db, pid, ev, presentOn);
        var joined := [JoinedOf(db, pid)] + rest;
        assert Join(db, ev, branch, year, order) == joined;
        assert joined[0] == JoinedOf(db, pid) && joined[1..] == rest;
      }
    }
  }

  /** The attendance report of a consistent store lists, in the given order,
      exactly the registered participants that pass the filters and whose
      log for the event matches the pattern, each once, with that log:
      "all" keeps logs as long as the event's `days`, "none" keeps empty
      logs, a date keeps logs containing it, no pattern keeps everyone. */
  lemma ReportAgainstStore(db: Db, ev: EventId, branch: Option<string>, year: Option<int>, order: seq<ParticipantId>, presentOn: Option<PresentOn>)
    requires Consistent(db)
    ensures forall k :: 0 <= k < |Join(db, ev, branch, year, order)| ==> WellJoined(Join(db, ev, branch, year, order)[k], ev)
    ensures Report(Join(db, ev, branch, year, order), ev, presentOn) == StoreReport(db, ev, branch, year, order, presentOn)
  {
    JoinWellFormed(db, ev, branch, year, order);
    ReportIsSelection(Join(db, ev, branch, year, order), ev, presentOn);
    SelectedIsStoreReport(db, ev, branch, year, order, presentOn);
  }
}
