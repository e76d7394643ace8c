# Attendance registry

A model of a small attendance-tracking web tool. An organiser creates an
event with a name and a shared password. Attendees check in with their name
and student id, and anyone with the link can view the roster. The registry
exists twice in the source, as two implementations that share no code:

- `model.py`: an `Event` class with a name, a password and an ordered list of
  `Attendee` objects. It offers count, a three-attendee preview, the full
  list, a password check, a linear duplicate scan and an unconditional
  append. Module `EventModel` (`model.dfy`) models it. `Event` is a class
  whose roster is a `seq<Attendee>` field. `Attendee` is a datatype whose
  constructor `Attendee(name, studentId)` stands for `Attendee.__init__`
  (model.py:32-35), because attendees are never changed after creation.
- `main.py`: the same registry written inline over dictionaries. A session
  database maps event ids to `{event_name, password, attendees}` records.
  Module `SessionRegistry` (`registry.dfy`) models it as a `Database` class
  holding `map<string, EventRecord>`. The in-place append to an event's
  attendee list becomes a reassignment of that event's map entry. The
  `{name, student_id}` dictionaries on the roster are the same two fields as
  `Attendee`, so both modules use that datatype.

The invariant the tool relies on is that no two attendees of one event share
a student id (`UniqueIds`). `Database.Valid()` holds it for every event, and
every `Database` method preserves it. `Event.Attend` does not check for
duplicates. `UniqueAfterAppend` states exactly when an append keeps the
roster duplicate-free: when the newcomer's id is not already on the roster.

## Model

| member | source | states |
|---|---|---|
| EventModel.Event.constructor | model.py:2-5 | a new event keeps the given name and password and has an empty roster, so its count is 0 and it is blank |
| EventModel.Event.AttendeesCount | model.py:7-8 | the count is the length of the roster |
| EventModel.Event.PreviewAttendees | model.py:10-11 | the preview is the prefix of the roster of length min(3, count), in check-in order |
| EventModel.Event.AllAttendees | model.py:13-14 | the full list holds every attendee in check-in order |
| EventModel.Event.CheckPassword | model.py:16-17 | true exactly when the candidate equals the stored password; it reads only the password field |
| EventModel.Event.AlreadyAttended | model.py:19-23 | the scan returns true iff some attendee on the roster has the given student id; it changes nothing |
| EventModel.Event.Attend | model.py:25-26 | the attendee is appended at the end, the count grows by one, earlier entries, name and password are unchanged |
| EventModel.Event.IsBlank | model.py:28-29 | blank iff the count is 0, i.e. iff the roster is empty |
| EventModel.Attendee.IsEqual | model.py:37-38 | an attendee matches an id exactly when its student id equals it; the name is not compared |
| EventModel.RosterPrefix | model.py:11 | the `[:3]` slice: the prefix of the roster of length min(3, length), also used for the home-page preview at main.py:74 |
| EventModel.IsEqualIgnoresName | model.py:37-38 | two attendees with the same student id match the same ids whatever their names |
| EventModel.UniqueAfterAppend | model.py:19-26 | appending keeps student ids unique iff the roster was unique and the newcomer's id was not already attended |
| EventModel.UnguardedAttendDuplicates | model.py:25-26 | an append without the duplicate scan, under an id already on the roster, breaks uniqueness |
| SessionRegistry.FirstMatch | main.py:110-114 | the attendee the search settles on, if any, is on the roster and has the submitted student id |
| SessionRegistry.FirstMatchSpec | main.py:110-114 | the inline search finds an attendee iff the id is on the roster, and what it finds is the earliest attendee with that id |
| SessionRegistry.FindExisting | main.py:110-114 | the loop with early break returns the earliest attendee with the submitted id, or nothing |
| SessionRegistry.ScansAgree | main.py:110-114 | the inline search and `Event.AlreadyAttended` of model.py give the same answer on the same roster, and a found attendee is on the roster with that id |
| SessionRegistry.RosterPreview | main.py:73-78 | an empty roster shows nothing; otherwise the first min(3, count) attendees are shown in order, with a "more" count exactly when count > 3, and that count is count - 3 |
| SessionRegistry.PreviewAccountsForAll | main.py:73-78 | the shown attendees plus the "more" count equal the number of attendees, so the extra count is count - 3 |
| SessionRegistry.PreviewsAgree | main.py:74 | the home-page preview shows the same attendees as `Event.PreviewAttendees` |
| SessionRegistry.Database.constructor | main.py:8-9 | a session starts with an empty database |
| SessionRegistry.Database.CreateEvent | main.py:27-45 | with a non-empty name and password exactly one new id is added, holding that name and password and an empty roster, and other events are untouched; otherwise the database is unchanged |
| SessionRegistry.Database.Get | main.py:88-91 | an unknown id gives not-found, a known one gives its record; a lookup changes nothing (also main.py:136-138) |
| SessionRegistry.Database.CheckIn | main.py:104-121 | the outcome is decided in order: unknown event, wrong password, blank name or id, duplicate (naming the earliest attendee with that id), else exactly one attendee is appended at the end; every outcome but success leaves the database unchanged, and uniqueness of ids is kept |
| SessionRegistry.CheckInTwice | main.py:104-121 | a second check-in under the same student id is refused as a duplicate naming the first attendee, and the roster grows only once |

## Left out

- Page rendering, forms, buttons, query parameters, reruns and the user-facing messages: only the outcome of each action is modelled (`CheckInOutcome`, the `created` flag of `CreateEvent`, `Preview`).
- Page routing, including that an empty `event_id` leads to the invalid-access page and not to a lookup (main.py:87, main.py:135, main.py:165-169).
- Id generation with `uuid.uuid4()`: `CreateEvent` takes the new id as a parameter and requires it to be absent from the database.
- Reading `MAIN_URL` from the environment and formatting the shared links (main.py:11, main.py:16, main.py:37-41).
- The home page's event list apart from its preview (main.py:47-72, main.py:79-85): it only displays each stored record and its attendee count. Its preview, main.py:73-78, is the one place that truncates and is modelled by `RosterPreview`.
- The roster listings of the check-in and view pages (main.py:123-129, main.py:146-160): they display the whole roster in order, with no truncation.
- Text formatting of previews and roster lines; the model keeps the attendees shown and the "more" count, not the strings.
- Persistence of the session state and concurrent use across browser sessions; each `Database` method runs as one uninterrupted step.
- EventModel.Event.AllAttendees: model.py:14 hands out the event's own list object, so a caller that appends to the result changes the event without going through `attend`; the model returns the roster as a value, so this aliasing is not captured (nothing in the modelled code mutates the result).

## Findings

| source | as written | input that shows it | evidently intended | confidence | as-written member | corrected member |
|---|---|---|---|---|---|---|
| model.py:25-26 | `attend` appends without a duplicate check, so an event can hold two attendees with one student id | a roster holding student id "1", then `attend` of another attendee with id "1" | a duplicate student id is refused, as the check-in page does at main.py:110-117 | low, not executed; `attend` is not called in the visible code | EventModel.UnguardedAttendDuplicates | SessionRegistry.Database.CheckIn |
