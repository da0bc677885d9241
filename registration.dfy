/** Sign-up and event registration. `registerParticipant` refuses a new
    participant who looks like an existing one and otherwise stores them
    with an empty ledger; `registerForEvent` refuses a second registration
    for the same event and otherwise creates an empty Attendance record and
    appends a "not attended" entry pointing at it. Fresh record ids are
    parameters: the database driver allocates them. */
module Registration {
  import opened Wrappers
  import opened Records
  import opened Lookup
  import opened Consistency

  datatype RegistrationError =
    | InvalidEvent       // no event id in the request
    | InvalidRequest     // the participant or the event does not exist
    | AlreadyRegistered  // a duplicate participant, or a second registration for the event

  function Message(e: RegistrationError): string
  {
    match e
    case InvalidEvent => "Invalid Event!!"
    case InvalidRequest => "Invalid Request!!"
    case AlreadyRegistered => "Already Registered!!"
  }

  // ---------------------------------------------------------------------
  // Duplicate-participant detection

  /** ASCII lower-casing, the folding a case-insensitive match applies. */
  function Lower(c: char): char
  {
    if 'A' <= c <= 'Z' then (c as int + 32) as char else c
  }

  /** Equality ignoring case: what an anchored `^value$` pattern with the
      "i" option accepts when the value has no pattern metacharacters. */
  predicate EqualsIgnoreCase(a: string, b: string)
  {
    |a| == |b| && forall i :: 0 <= i < |a| ==> Lower(a[i]) == Lower(b[i])
  }

  /** Case-insensitive equality is an equivalence that contains equality. */
  lemma EqualsIgnoreCaseIsEquivalence(a: string, b: string, c: string)
    ensures EqualsIgnoreCase(a, a)
    ensures EqualsIgnoreCase(a, b) ==> EqualsIgnoreCase(b, a)
    ensures EqualsIgnoreCase(a, b) && EqualsIgnoreCase(b, c) ==> EqualsIgnoreCase(a, c)
  {
  }

  /** The sign-up form. */
  datatype Form = Form(name: string, email: string, branch: string, year: int, phone: string)

  /** The duplicate query of sign-up, read on one stored participant:
      `$or: [ email, $and: [ name, branch, year, $or: [ email, phone ] ] ]`. */
  predicate MatchesExisting(p: Participant, f: Form)
    ensures EqualsIgnoreCase(p.email, f.email) ==> MatchesExisting(p, f)
    ensures MatchesExisting(p, f) ==> EqualsIgnoreCase(p.email, f.email) || p.phone == f.phone
  {
    || EqualsIgnoreCase(p.email, f.email)
    || (&& EqualsIgnoreCase(p.name, f.name)
        && p.branch == f.branch
        && p.year == f.year
        && (EqualsIgnoreCase(p.email, f.email) || p.phone == f.phone))
  }

  /** The nested email test inside the `$and` adds nothing: a stored
      participant matches exactly when the email agrees ignoring case, or
      name (ignoring case), branch, year and phone all agree. */
  lemma MatchesExistingSimplified(p: Participant, f: Form)
    ensures MatchesExisting(p, f) <==>
              || EqualsIgnoreCase(p.email, f.email)
              || (EqualsIgnoreCase(p.name, f.name) && p.branch == f.branch && p.year == f.year && p.phone == f.phone)
  {
  }

  /** Sign-up: refused when any stored participant matches, otherwise the
      store gains the new participant under `newId`, with no events. */
  function RegisterParticipant(db: Db, f: Form, newId: ParticipantId): (r: Result<Db, RegistrationError>)
    ensures r.Failure? ==> r.error == AlreadyRegistered
    ensures r.Success? ==>
              && r.value.events == db.events
              && r.value.attendances == db.attendances
              && r.value.participants.Keys == db.participants.Keys + {newId}
  {
    if exists pid :: pid in db.participants && MatchesExisting(db.participants[pid], f) then
      Failure(AlreadyRegistered)
    else
      Success(db.(participants := db.participants[newId := Participant(f.name, f.email, f.branch, f.year, f.phone, [])]))
  }

  /** Sign-up is refused exactly when some stored participant has the same
      email ignoring case, or the same name ignoring case together with the
      same branch, year and phone; on success exactly one participant is
      added, holding the form's fields and an empty ledger. */
  lemma RegisterParticipantOutcome(db: Db, f: Form, newId: ParticipantId)
    requires newId !in db.participants
    ensures RegisterParticipant(db, f, newId).Failure? <==>
              exists pid :: pid in db.participants &&
                (|| EqualsIgnoreCase(db.participants[pid].email, f.email)
                 || (&& EqualsIgnoreCase(db.participants[pid].name, f.name)
                     && db.participants[pid].branch == f.branch
                     && db.participants[pid].year == f.year
                     && db.participants[pid].phone == f.phone))
    ensures RegisterParticipant(db, f, newId).Success? ==>
              var db' := RegisterParticipant(db, f, newId).value;
              && db'.events == db.events
              && db'.attendances == db.attendances
              && db'.participants.Keys == db.participants.Keys + {newId}
              && db'.participants[newId] == Participant(f.name, f.email, f.branch, f.year, f.phone, [])
              && forall pid :: pid in db.participants ==> db'.participants[pid] == db.participants[pid]
  {
    forall pid | pid in db.participants {
      MatchesExistingSimplified(db.participants[pid], f);
    }
  }

  /** Submitting the same form again after a successful sign-up is refused. */
  lemma RegisterParticipantTwice(db: Db, f: Form, newId: ParticipantId, newId2: ParticipantId)
    requires RegisterParticipant(db, f, newId).Success?
    ensures RegisterParticipant(RegisterParticipant(db, f, newId).value, f, newId2) == Failure(AlreadyRegistered)
  {
    var db' := RegisterParticipant(db, f, newId).value;
    EqualsIgnoreCaseIsEquivalence(f.email, f.email, f.email);
    assert newId in db'.participants && MatchesExisting(db'.participants[newId], f);
  }

  /** Sign-up keeps the store consistent. */
  lemma RegisterParticipantPreservesConsistency(db: Db, f: Form, newId: ParticipantId)
    requires Consistent(db)
    requires newId !in db.participants
    requires RegisterParticipant(db, f, newId).Success?
    ensures Consistent(RegisterParticipant(db, f, newId).value)
  {
    var db' := RegisterParticipant(db, f, newId).value;
    forall pid | pid in db'.participants
      ensures LedgerSound(db', pid)
    {
      if pid != newId {
        assert LedgerSound(db, pid);
        var entries := db.participants[pid].events;
        assert forall k :: 0 <= k < |entries| ==> EntryLinked(db, pid, entries[k]) ==> EntryLinked(db', pid, entries[k]);
      }
    }
    forall id | id in db'.attendances
      ensures Owned(db', id)
    {
      assert Owned(db, id);
    }
  }

  // ---------------------------------------------------------------------
  // Registration for an event

  /** `registerForEvent`: the store after participant `user` registers for
      the event `eventId`, the new Attendance record taking id `newId`. */
  function Register(db: Db, eventId: Option<EventId>, user: ParticipantId, newId: AttendanceId): (r: Result<Db, RegistrationError>)
    ensures r == Failure(InvalidEvent) <==> eventId.None?
    ensures r.Success? ==>
              && eventId.Some? && eventId.value in db.events && user in db.participants
              && r.value.events == db.events
              && r.value.participants.Keys == db.participants.Keys
              && r.value.attendances.Keys == db.attendances.Keys + {newId}
  {
    if eventId.None? then Failure(InvalidEvent)
    else if user !in db.participants || eventId.value !in db.events then Failure(InvalidRequest)
    else
      var p := db.participants[user];
      if IndexOfEvent(p.events, eventId.value) != -1 then Failure(AlreadyRegistered)
      else
        Success(Db(
          db.events,
          db.participants[user := p.(events := p.events + [Entry(eventId.value, newId, NotAttended)])],
          db.attendances[newId := Attendance(user, eventId.value, [])]))
  }

  /** The errors of registration, each stated in terms of the store. */
  lemma RegisterErrors(db: Db, eventId: Option<EventId>, user: ParticipantId, newId: AttendanceId)
    ensures Register(db, eventId, user, newId) == Failure(InvalidEvent) <==> eventId.None?
    ensures Register(db, eventId, user, newId) == Failure(InvalidRequest) <==>
              eventId.Some? && (user !in db.participants || eventId.value !in db.events)
    ensures Register(db, eventId, user, newId) == Failure(AlreadyRegistered) <==>
              && eventId.Some? && user in db.participants && eventId.value in db.events
              && HasEntryFor(db.participants[user].events, eventId.value)
  {
  }

  /** A successful registration appends exactly one "not attended" entry to
      the participant's ledger, pointing at a new Attendance record with an
      empty log, and touches nothing else. */
  lemma RegisterSuccessEffects(db: Db, eventId: Option<EventId>, user: ParticipantId, newId: AttendanceId)
    requires Register(db, eventId, user, newId).Success?
    ensures var db' := Register(db, eventId, user, newId).value;
            && eventId.Some? && user in db.participants
            && db'.events == db.events
            && db'.participants.Keys == db.participants.Keys
            && db'.participants[user].events == db.participants[user].events + [Entry(eventId.value, newId, NotAttended)]
            && (forall pid :: pid in db.participants && pid != user ==> db'.participants[pid] == db.participants[pid])
            && db'.attendances.Keys == db.attendances.Keys + {newId}
            && db'.attendances[newId] == Attendance(user, eventId.value, [])
            && (forall id :: id in db.attendances && id != newId ==> db'.attendances[id] == db.attendances[id])
  {
  }

  /** Registration keeps a participant's event ids unique. */
  lemma RegisterKeepsEventsUnique(db: Db, eventId: Option<EventId>, user: ParticipantId, newId: AttendanceId)
    requires Register(db, eventId, user, newId).Success?
    requires UniqueEvents(db.participants[user].events)
    ensures UniqueEvents(Register(db, eventId, user, newId).value.participants[user].events)
  {
    var before := db.participants[user].events;
    var after := Register(db, eventId, user, newId).value.participants[user].events;
    forall i, j | 0 <= i < j < |after|
      ensures after[i].event != after[j].event
    {
      if j == |before| {
        assert after[i] == before[i];
      }
    }
  }

  /** Registering twice for the same event: the second attempt is refused. */
  lemma RegisterTwice(db: Db, ev: EventId, user: ParticipantId, newId: AttendanceId, newId2: AttendanceId)
    requires Register(db, Some(ev), user, newId).Success?
    ensures Register(Register(db, Some(ev), user, newId).value, Some(ev), user, newId2) == Failure(AlreadyRegistered)
  {
    var after := Register(db, Some(ev), user, newId).value.participants[user].events;
    assert after[|after| - 1].event == ev;
  }

  /** Appending an entry leaves every event already present at its index,
      and finds the new event at the end. */
  lemma IndexOfEventAppend(entries: seq<Entry>, e: Entry, ev: EventId)
    ensures IndexOfEvent(entries, ev) >= 0 ==> IndexOfEvent(entries + [e], ev) == IndexOfEvent(entries, ev)
    ensures IndexOfEvent(entries, ev) == -1 && e.event == ev ==> IndexOfEvent(entries + [e], ev) == |entries|
  {
    var s := entries + [e];
    assert forall k :: 0 <= k < |entries| ==> s[k] == entries[k];
    assert s[|entries|] == e;
  }

  lemma RegisterKeepsLedgerSound(db: Db, ev: EventId, user: ParticipantId, newId: AttendanceId, pid: ParticipantId)
    requires Consistent(db)
    requires newId !in db.attendances
    requires Register(db, Some(ev), user, newId).Success?
    requires pid in db.participants
    ensures LedgerSound(Register(db, Some(ev), user, newId).value, pid)
  {
    var db' := Register(db, Some(ev), user, newId).value;
    assert LedgerSound(db, pid);
    var entries := db.participants[pid].events;
    var entries' := db'.participants[pid].events;
    forall k | 0 <= k < |entries|
      ensures EntryLinked(db', pid, entries'[k])
    {
      assert entries'[k] == entries[k];
      assert EntryLinked(db, pid, entries[k]);
    }
    if pid == user {
      RegisterKeepsEventsUnique(db, Some(ev), user, newId);
      assert EntryLinked(db', pid, entries'[|entries|]);
    }
  }

  lemma RegisterKeepsOwned(db: Db, ev: EventId, user: ParticipantId, newId: AttendanceId, id: AttendanceId)
    requires Consistent(db)
    requires newId !in db.attendances
    requires Register(db, Some(ev), user, newId).Success?
    requires id in db.attendances || id == newId
    ensures id in Register(db, Some(ev), user, newId).value.attendances
    ensures Owned(Register(db, Some(ev), user, newId).value, id)
  {
    var db' := Register(db, Some(ev), user, newId).value;
    var entries := db.participants[user].events;
    var e := Entry(ev, newId, NotAttended);
    if id == newId {
      IndexOfEventAppend(entries, e, ev);
      assert LogValid(db', db'.attendances[newId]);
    } else {
      assert Owned(db, id);
      var a := db.attendances[id];
      if a.participant == user {
        IndexOfEventAppend(entries, e, a.event);
      }
      assert LogValid(db', a);
    }
  }

  /** Registration keeps the store consistent, provided the new record's id
      is newId. */
  lemma RegisterPreservesConsistency(db: Db, eventId: Option<EventId>, user: ParticipantId, newId: AttendanceId)
    requires Consistent(db)
    requires newId !in db.attendances
    requires Register(db, eventId, user, newId).Success?
    ensures Consistent(Register(db, eventId, user, newId).value)
  {
    var db' := Register(db, eventId, user, newId).value;
    forall pid | pid in db'.participants
      ensures LedgerSound(db', pid)
    {
      RegisterKeepsLedgerSound(db, eventId.value, user, newId, pid);
    }
    forall id | id in db'.attendances
      ensures Owned(db', id)
    {
      RegisterKeepsOwned(db, eventId.value, user, newId, id);
    }
  }
}
