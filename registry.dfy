/** The session-wide event database of the web pages: event ids mapped to
    event records, event creation, lookup, the check-in decision and the
    roster preview of the home page. */
module SessionRegistry {
  import opened EventModel

  datatype Option<T> = None | Some(value: T)

  /** The record stored for one event id. */
  datatype EventRecord = EventRecord(eventName: string, password: string, attendees: seq<Attendee>)

  /** What one submission of the check-in form leads to. */
  datatype CheckInOutcome =
    | UnknownEvent
    | WrongPassword
    | MissingField
    | Duplicate(existing: Attendee)
    | CheckedIn(attendee: Attendee)

  /** The earliest attendee of `roster` with student id `id`, if any. */
  function FirstMatch(roster: seq<Attendee>, id: string): (r: Option<Attendee>)
    ensures r.Some? ==> r.value in roster && r.value.studentId == id
    decreases |roster|
  {
    if roster == [] then None
    else if roster[0].studentId == id then Some(roster[0])
    else FirstMatch(roster[1..], id)
  }

  /** `FirstMatch` finds something exactly when the id is on the roster, and
      what it finds is the earliest attendee with that id. */
  lemma {:induction false} FirstMatchSpec(roster: seq<Attendee>, id: string)
    ensures FirstMatch(roster, id).Some? <==> Attended(roster, id)
    ensures FirstMatch(roster, id).Some? ==>
      exists i :: 0 <= i < |roster| && roster[i] == FirstMatch(roster, id).value
        && roster[i].studentId == id
        && forall k :: 0 <= k < i ==> roster[k].studentId != id
    decreases |roster|
  {
    if roster == [] {
    } else if roster[0].studentId == id {
      assert roster[0].IsEqual(id);
    } else {
      var tail := roster[1..];
      FirstMatchSpec(tail, id);
      if Attended(roster, id) {
        var i :| 0 <= i < |roster| && roster[i].IsEqual(id);
        assert tail[i - 1].IsEqual(id);
      }
      if Attended(tail, id) {
        var i :| 0 <= i < |tail| && tail[i].IsEqual(id);
        assert roster[i + 1].IsEqual(id);
      }
      if FirstMatch(tail, id).Some? {
        var i :| 0 <= i < |tail| && tail[i] == FirstMatch(tail, id).value
          && tail[i].studentId == id
          && forall k :: 0 <= k < i ==> tail[k].studentId != id;
        assert roster[i + 1] == tail[i];
        forall k | 0 <= k < i + 1
          ensures roster[k].studentId != id
        {
          if k > 0 {
            assert roster[k] == tail[k - 1];
          }
        }
      }
    }
  }

  /** The duplicate search of the check-in page: a forward scan that stops at
      the first attendee with the submitted student id. */
  method FindExisting(roster: seq<Attendee>, studentId: string) returns (existing: Option<Attendee>)
    ensures existing == FirstMatch(roster, studentId)
  {
    existing := None;
    var i := 0;
    while i < |roster|
      invariant 0 <= i <= |roster|
      invariant existing == None
      invariant FirstMatch(roster, studentId) == FirstMatch(roster[i..], studentId)
    {
      if roster[i].studentId == studentId {
        existing := Some(roster[i]);
        break;
      }
      assert roster[i..][1..] == roster[i + 1..];
      i := i + 1;
    }
  }

  /** The inline duplicate search of the check-in page and the scan of
      `Event.AlreadyAttended` decide alike on every roster. */
  method ScansAgree(e: Event, studentId: string) returns (attended: bool, existing: Option<Attendee>)
    ensures attended <==> existing.Some?
    ensures existing.Some? ==> existing.value in e.attendees && existing.value.studentId == studentId
  {
    attended := e.AlreadyAttended(studentId);
    existing := FindExisting(e.attendees, studentId);
    FirstMatchSpec(e.attendees, studentId);
  }

  /** What the home page shows of a roster: nothing when it is empty, else the
      earliest attendees and, when some are not shown, how many. */
  datatype Preview = NoAttendees | Shown(first: seq<Attendee>, more: Option<nat>)

  function RosterPreview(roster: seq<Attendee>): (p: Preview)
    ensures p.NoAttendees? <==> roster == []
    ensures p.Shown? ==> |p.first| == Min(PreviewSize, |roster|) && p.first <= roster
    ensures p.Shown? ==> (p.more.Some? <==> |roster| > PreviewSize)
    ensures p.Shown? && |roster| > PreviewSize ==> p.more == Some(|roster| - PreviewSize)
  {
    if |roster| == 0 then NoAttendees
    else
      var more := if |roster| > PreviewSize then Some(|roster| - PreviewSize) else None;
      Shown(RosterPrefix(roster), more)
  }

  /** The attendees shown plus the "more" count account for every attendee,
      each counted once. */
  lemma PreviewAccountsForAll(roster: seq<Attendee>)
    requires roster != []
    ensures var p := RosterPreview(roster);
      |p.first| + (if p.more.Some? then p.more.value else 0) == |roster|
  {
  }

  /** The home page's preview shows what `Event.PreviewAttendees` returns for
      the same roster. */
  lemma PreviewsAgree(e: Event)
    requires e.attendees != []
    ensures RosterPreview(e.attendees).first == e.PreviewAttendees()
  {
  }

  /** Every event's roster is free of repeated student ids. */
  ghost predicate AllRostersUnique(events: map<string, EventRecord>) {
    forall id :: id in events ==> UniqueIds(events[id].attendees)
  }

  /** The database kept for a browser session. */
  class Database {
    var events: map<string, EventRecord>

    ghost predicate Valid()
      reads this
    {
      AllRostersUnique(events)
    }

    /** The first page view of a session starts with no events. */
    constructor ()
      ensures Valid() && events == map[]
    {
      events := map[];
    }

    /** The event-creation form. `newId` is the freshly generated id. */
    method CreateEvent(newId: string, eventName: string, password: string) returns (created: bool)
      requires Valid()
      requires newId !in events
      modifies this
      ensures Valid()
      ensures created <==> eventName != "" && password != ""
      ensures created ==> events == old(events)[newId := EventRecord(eventName, password, [])]
      ensures created ==> events.Keys == old(events.Keys) + {newId}
      ensures !created ==> events == old(events)
    {
      if eventName != "" && password != "" {
        events := events[newId := EventRecord(eventName, password, [])];
        created := true;
      } else {
        created := false;
      }
    }

    /** Lookup by event id, with not-found for an unknown id. */
    function Get(eventId: string): (r: Option<EventRecord>)
      reads this
      ensures r.None? <==> eventId !in events
      ensures r.Some? ==> r.value == events[eventId]
    {
      if eventId in events then Some(events[eventId]) else None
    }

    /** The check-in form: password first, then blank fields, then the
      duplicate search, and only then the append. */
    method CheckIn(eventId: string, inputPassword: string, name: string, studentId: string)
      returns (outcome: CheckInOutcome)
      requires Valid()
      modifies this
      ensures Valid()
      ensures outcome == UnknownEvent <==> eventId !in old(events)
      ensures eventId in old(events) ==>
        var ev := old(events)[eventId];
        && (outcome == WrongPassword <==> inputPassword != ev.password)
        && (outcome == MissingField <==> inputPassword == ev.password && (name == "" || studentId == ""))
        && (outcome.Duplicate? <==>
              inputPassword == ev.password && name != "" && studentId != "" && Attended(ev.attendees, studentId))
        && (outcome.CheckedIn? <==>
              inputPassword == ev.password && name != "" && studentId != "" && !Attended(ev.attendees, studentId))
        && (outcome.Duplicate? ==> Some(outcome.existing) == FirstMatch(ev.attendees, studentId))
        && (outcome.CheckedIn? ==>
              outcome.attendee == Attendee(name, studentId) &&
              events == old(events)[eventId := ev.(attendees := ev.attendees + [Attendee(name, studentId)])])
      ensures !outcome.CheckedIn? ==> events == old(events)
      ensures events.Keys == old(events.Keys)
    {
      var found := Get(eventId);
      if found.None? {
        return UnknownEvent;
      }
      var ev := found.value;
      if inputPassword != ev.password {
        outcome := WrongPassword;
      } else if name == "" || studentId == "" {
        outcome := MissingField;
      } else {
        var existing := FindExisting(ev.attendees, studentId);
        FirstMatchSpec(ev.attendees, studentId);
        if existing.Some? {
          outcome := Duplicate(existing.value);
        } else {
          var attendee := Attendee(name, studentId);
          UniqueAfterAppend(ev.attendees, attendee);
          events := events[eventId := ev.(attendees := ev.attendees + [attendee])];
          outcome := CheckedIn(attendee);
        }
      }
    }
  }

  /** Two check-ins under one student id: the second is refused as a duplicate
      naming the first attendee, and the roster grows only once. */
  method CheckInTwice(db: Database, eventId: string, password: string,
                      name1: string, name2: string, studentId: string)
    returns (first: CheckInOutcome, second: CheckInOutcome)
    requires db.Valid()
    requires eventId in db.events && db.events[eventId].password == password
    requires name1 != "" && name2 != "" && studentId != ""
    requires !Attended(db.events[eventId].attendees, studentId)
    modifies db
    ensures eventId in db.events
    ensures first == CheckedIn(Attendee(name1, studentId))
    ensures second == Duplicate(Attendee(name1, studentId))
    ensures db.events[eventId].attendees == old(db.events[eventId].attendees) + [Attendee(name1, studentId)]
  {
    first := db.CheckIn(eventId, password, name1, studentId);
    ghost var roster := db.events[eventId].attendees;
    assert roster[|roster| - 1].IsEqual(studentId);
    second := db.CheckIn(eventId, password, name2, studentId);
    FirstMatchSpec(roster, studentId);
  }
}
