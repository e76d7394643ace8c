/** The object model of the attendance tool: an event with a shared password
    and an ordered roster, and the attendee records it holds. */
module EventModel {

  /** One check-in record. Attendees are never changed after creation, so an
      attendee is a value. */
  datatype Attendee = Attendee(name: string, studentId: string) {

    /** Equality as the roster scan uses it: by student id alone. */
    function IsEqual(id: string): (b: bool)
      ensures b <==> studentId == id
    {
      studentId == id
    }
  }

  /** Some attendee of `roster` has student id `id`. */
  predicate Attended(roster: seq<Attendee>, id: string) {
    exists i :: 0 <= i < |roster| && roster[i].IsEqual(id)
  }

  /** No two attendees of `roster` share a student id. */
  predicate UniqueIds(roster: seq<Attendee>) {
    forall i, j :: 0 <= i < j < |roster| ==> roster[i].studentId != roster[j].studentId
  }

  function Min(a: int, b: int): int {
    if a <= b then a else b
  }

  /** The number of attendees a preview shows. */
  const PreviewSize := 3

  /** The first `PreviewSize` attendees of `roster`, or all of them when there
      are fewer. */
  function RosterPrefix(roster: seq<Attendee>): (p: seq<Attendee>)
    ensures |p| == Min(PreviewSize, |roster|)
    ensures p <= roster
  {
    if |roster| <= PreviewSize then roster else roster[..PreviewSize]
  }

  /** An event: a name, a plaintext password and the attendees in check-in order. */
  class Event {
    var name: string
    var password: string
    var attendees: seq<Attendee>

    /** A new event has the given name and password and nobody on its roster. */
    constructor (name: string, password: string)
      ensures this.name == name && this.password == password
      ensures attendees == []
      ensures AttendeesCount() == 0 && IsBlank()
    {
      this.name := name;
      this.password := password;
      attendees := [];
    }

    function AttendeesCount(): (n: nat)
      reads this
      ensures n == |attendees|
    {
      |attendees|
    }

    /** At most three attendees, the earliest ones, in check-in order. */
    function PreviewAttendees(): (p: seq<Attendee>)
      reads this
      ensures |p| == Min(PreviewSize, AttendeesCount())
      ensures p <= attendees
    {
      RosterPrefix(attendees)
    }

    function AllAttendees(): (r: seq<Attendee>)
      reads this
      ensures |r| == AttendeesCount()
      ensures forall i :: 0 <= i < |r| ==> r[i] == attendees[i]
    {
      attendees
    }

    /** Exact match against the stored password; name and roster play no part. */
    function CheckPassword(candidate: string): (ok: bool)
      reads this`password
      ensures ok <==> candidate == password
    {
      candidate == password
    }

    /** Linear scan of the roster for an attendee with this student id. */
    method AlreadyAttended(studentId: string) returns (found: bool)
      ensures found <==> Attended(attendees, studentId)
    {
      var i := 0;
      while i < |attendees|
        invariant 0 <= i <= |attendees|
        invariant forall k :: 0 <= k < i ==> !attendees[k].IsEqual(studentId)
      {
        if attendees[i].IsEqual(studentId) {
          return true;
        }
        i := i + 1;
      }
      return false;
    }

    /** Appends unconditionally: no duplicate check happens here. */
    method Attend(attendee: Attendee)
      modifies this`attendees
      ensures attendees == old(attendees) + [attendee]
      ensures AttendeesCount() == old(AttendeesCount()) + 1
      ensures name == old(name) && password == old(password)
    {
      attendees := attendees + [attendee];
    }

    function IsBlank(): (b: bool)
      reads this
      ensures b <==> AttendeesCount() == 0
      ensures b <==> attendees == []
    {
      |attendees| == 0
    }
  }

  /** Matching by student id ignores the name. */
  lemma IsEqualIgnoresName(a: Attendee, b: Attendee, id: string)
    requires a.studentId == b.studentId
    ensures a.IsEqual(id) <==> b.IsEqual(id)
  {
  }

  /** Appending keeps student ids unique exactly when the newcomer's id is not
      already on the roster: the roster stays duplicate-free only if `Attend`
      is guarded by `AlreadyAttended`. */
  lemma {:induction false} UniqueAfterAppend(roster: seq<Attendee>, a: Attendee)
    ensures UniqueIds(roster + [a]) <==> UniqueIds(roster) && !Attended(roster, a.studentId)
  {
    var r := roster + [a];
    if UniqueIds(r) {
      forall i, j | 0 <= i < j < |roster|
        ensures roster[i].studentId != roster[j].studentId
      {
        assert r[i] == roster[i] && r[j] == roster[j];
      }
      forall i | 0 <= i < |roster|
        ensures !roster[i].IsEqual(a.studentId)
      {
        assert r[i] == roster[i] && r[|roster|] == a;
      }
    }
    if UniqueIds(roster) && !Attended(roster, a.studentId) {
      forall i, j | 0 <= i < j < |r|
        ensures r[i].studentId != r[j].studentId
      {
        if j == |roster| {
          assert !roster[i].IsEqual(a.studentId);
        }
      }
    }
  }

  /** A second check-in under the same student id, appended without the
      guard, breaks uniqueness whatever the name. */
  lemma UnguardedAttendDuplicates(roster: seq<Attendee>, first: Attendee, second: Attendee)
    requires first in roster
    requires second.studentId == first.studentId
    ensures !UniqueIds(roster + [second])
  {
    var i :| 0 <= i < |roster| && roster[i] == first;
    assert Attended(roster, second.studentId) by {
      assert roster[i].IsEqual(second.studentId);
    }
    UniqueAfterAppend(roster, second);
  }
}
