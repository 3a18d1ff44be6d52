/**
 The appointment store of the clinic backend: the one `appointments` table,
 kept as a map from row id to record plus the AUTOINCREMENT high-water mark,
 and the four operations that read or write it (book, confirm, delete,
 stats). Each operation is a pure transition from a store to a new store and
 an outcome; the outcome stands for the HTTP status the handler answers with.
 */
module Appointments {

  /** The two status values the handlers ever write. */
  const Pending: string := "pending"
  const Confirmed: string := "confirmed"

  /** Largest value of a signed 64-bit SQLite INTEGER: the last rowid
      AUTOINCREMENT will hand out, and the largest id the driver can bind. */
  const MaxRowId: nat := 0x7FFF_FFFF_FFFF_FFFF

  /** The keys a booking request must carry, in the order they are checked. */
  const RequiredFields: seq<string> := ["name", "email", "phone", "service", "date", "time"]

  datatype Option<T> = None | Some(value: T)

  /** A value of the booking request's JSON object: a string, `null`, a
      list or object (which the SQLite driver cannot bind), or a string
      holding an unpaired surrogate escape such as "\ud800" (which the JSON
      decoder accepts but the driver cannot encode as UTF-8). */
  datatype Value = Text(text: string) | Null | Nested | LoneSurrogate

  type Request = map<string, Value>

  /** One row of the table. `notes` is the one nullable column; `createdAt`
      is the server timestamp, opaque here and never modified. */
  datatype Appointment = Appointment(
    name: string,
    email: string,
    phone: string,
    service: string,
    date: string,
    time: string,
    notes: Option<string>,
    status: string,
    createdAt: string)

  /** `lastId` is the largest id ever assigned (SQLite's `sqlite_sequence`
      entry for the table); it survives deletion of that row. */
  datatype Store = Store(records: map<nat, Appointment>, lastId: nat)

  /** Created / MissingFields / StoreError / Ok stand for 201 / 400 / 500 / 200. */
  datatype Outcome = Created(id: nat) | MissingFields | StoreError | Ok

  datatype Step = Step(store: Store, outcome: Outcome)

  datatype Counts = Counts(total: nat, confirmed: nat, pending: nat)

  /** What every store reachable from the empty table satisfies. */
  ghost predicate Valid(s: Store)
  {
    && s.lastId <= MaxRowId
    && (forall k :: k in s.records ==> 1 <= k <= s.lastId)
    && (forall k :: k in s.records ==> s.records[k].status == Pending || s.records[k].status == Confirmed)
  }

  /** The freshly created table: no rows, and no `sqlite_sequence` entry yet,
      so the first id handed out is 1. */
  function Empty(): (s: Store)
    ensures Valid(s) && |s.records| == 0 && s.lastId == 0
  {
    Store(map[], 0)
  }

  // ---------------------------------------------------------------- book

  /** Every required key is present; the value itself is not looked at. */
  predicate HasRequired(data: Request)
  {
    "name" in data && "email" in data && "phone" in data &&
    "service" in data && "date" in data && "time" in data
  }

  /** The presence test is exactly "every key of RequiredFields is present". */
  lemma HasRequiredMeansAllPresent(data: Request)
    ensures HasRequired(data) <==> forall i :: 0 <= i < |RequiredFields| ==> RequiredFields[i] in data
  {
    var f := RequiredFields;
    assert f[0] == "name" && f[1] == "email" && f[2] == "phone";
    assert f[3] == "service" && f[4] == "date" && f[5] == "time";
  }

  /** What a value becomes in a `TEXT NOT NULL` column, or None when the
      insert fails on it (NOT NULL constraint, or a value that cannot be bound
      or encoded). */
  function RequiredColumn(v: Value): Option<string>
  {
    match v
    case Text(t) => Some(t)
    case Null => None
    case Nested => None
    case LoneSurrogate => None
  }

  /** What the `notes` column receives: the empty string when the key is
      absent, NULL for `null`; None when the value cannot be bound or encoded. */
  function NotesColumn(data: Request): Option<Option<string>>
  {
    if "notes" !in data then Some(Some(""))
    else match data["notes"]
      case Text(t) => Some(Some(t))
      case Null => Some(None)
      case Nested => None
      case LoneSurrogate => None
  }

  /** The row the INSERT writes, or None when the statement fails. */
  function NewRow(data: Request, now: string): Option<Appointment>
    requires HasRequired(data)
  {
    var name := RequiredColumn(data["name"]);
    var email := RequiredColumn(data["email"]);
    var phone := RequiredColumn(data["phone"]);
    var service := RequiredColumn(data["service"]);
    var date := RequiredColumn(data["date"]);
    var time := RequiredColumn(data["time"]);
    var notes := NotesColumn(data);
    if name.None? || email.None? || phone.None? || service.None? || date.None? || time.None? || notes.None? then
      None
    else
      Some(Appointment(name.value, email.value, phone.value, service.value,
                       date.value, time.value, notes.value, Pending, now))
  }

  /** POST /api/book-appointment. `now` is the timestamp the database would
      assign. A failed statement is rolled back, high-water mark included. The
      new id is `lastId + 1`, which is what SQLite picks on a valid store
      (every row id at most `lastId`). */
  function Book(s: Store, data: Request, now: string): (r: Step)
    ensures r.outcome == MissingFields <==> exists i :: 0 <= i < |RequiredFields| && RequiredFields[i] !in data
    ensures !r.outcome.Ok?
    ensures !r.outcome.Created? ==> r.store == s
    ensures r.outcome.Created? ==>
      && r.outcome.id == s.lastId + 1
      && (Valid(s) ==> r.outcome.id !in s.records)
      && r.store.lastId == r.outcome.id
      && r.store.records.Keys == s.records.Keys + {r.outcome.id}
      && r.store.records[r.outcome.id].status == Pending
      && (forall k :: k in s.records && k != r.outcome.id ==> r.store.records[k] == s.records[k])
    ensures Valid(s) ==> Valid(r.store)
  {
    HasRequiredMeansAllPresent(data);
    if !HasRequired(data) then
      Step(s, MissingFields)
    else
      match NewRow(data, now)
      case None => Step(s, StoreError)
      case Some(row) =>
        if s.lastId >= MaxRowId then
          Step(s, StoreError)  // SQLITE_FULL: AUTOINCREMENT has no larger rowid
        else
          var id := s.lastId + 1;
          Step(Store(s.records[id := row], id), Created(id))
  }

  // ------------------------------------------------------------- confirm

  /** PUT /api/appointments/<id>/confirm. An id beyond the 64-bit range makes
      the driver raise before the UPDATE runs. */
  function Confirm(s: Store, id: nat): (r: Step)
    ensures r.outcome == Ok <==> id <= MaxRowId
    ensures r.outcome == StoreError <==> id > MaxRowId
    ensures r.store.lastId == s.lastId
    ensures r.store.records.Keys == s.records.Keys
    ensures forall k :: k in s.records && k != id ==> r.store.records[k] == s.records[k]
    ensures id in s.records && id <= MaxRowId ==> r.store.records[id] == s.records[id].(status := Confirmed)
    ensures id !in s.records ==> r.store == s
    ensures Valid(s) ==> Valid(r.store)
  {
    if id > MaxRowId then
      Step(s, StoreError)
    else if id in s.records then
      Step(s.(records := s.records[id := s.records[id].(status := Confirmed)]), Ok)
    else
      Step(s, Ok)
  }

  // -------------------------------------------------------------- delete

  /** DELETE /api/appointments/<id>. */
  function Delete(s: Store, id: nat): (r: Step)
    ensures r.outcome == Ok <==> id <= MaxRowId
    ensures r.outcome == StoreError <==> id > MaxRowId
    ensures r.store.lastId == s.lastId
    ensures id <= MaxRowId ==> r.store.records.Keys == s.records.Keys - {id}
    ensures forall k :: k in r.store.records ==> k in s.records && r.store.records[k] == s.records[k]
    ensures id !in s.records ==> r.store == s
    ensures Valid(s) ==> Valid(r.store)
  {
    if id > MaxRowId then
      Step(s, StoreError)
    else
      Step(s.(records := s.records - {id}), Ok)
  }

  // --------------------------------------------------------------- stats

  /** The ids whose row has the given status (a `WHERE status = ...` filter). */
  function WithStatus(s: Store, status: string): set<nat>
  {
    set k | k in s.records && s.records[k].status == status
  }

  /** GET /api/appointments/stats: three independent COUNT(*) queries. */
  function Stats(s: Store): (c: Counts)
    ensures c.total == |s.records|
    ensures c.confirmed + c.pending <= c.total
    ensures Valid(s) ==> c.total == c.confirmed + c.pending
  {
    StatusesPartition(s);
    Counts(|s.records|, |WithStatus(s, Confirmed)|, |WithStatus(s, Pending)|)
  }

  /** The two status filters pick disjoint rows; on a valid store they pick
      every row between them. */
  lemma StatusesPartition(s: Store)
    ensures |WithStatus(s, Confirmed)| + |WithStatus(s, Pending)| <= |s.records|
    ensures Valid(s) ==> |WithStatus(s, Confirmed)| + |WithStatus(s, Pending)| == |s.records|
  {
    var confirmed, pending := WithStatus(s, Confirmed), WithStatus(s, Pending);
    assert confirmed !! pending;
    assert |confirmed + pending| == |confirmed| + |pending|;
    SubsetCard(confirmed + pending, s.records.Keys);
    if Valid(s) {
      assert confirmed + pending == s.records.Keys;
    }
  }

  lemma SubsetCard<T>(a: set<T>, b: set<T>)
    requires a <= b
    ensures |a| <= |b|
  {
    assert b == a + (b - a);
  }
}
