# Clinic appointment store, modelled in Dafny

The backend of a small clinic's booking site keeps a single SQLite table,
`appointments`. Its HTTP handlers book an appointment, list every appointment,
confirm one, delete one, and report three counts. This project models that
table and those handlers as pure transitions. A store is a map from row id to
record plus the AUTOINCREMENT high-water mark (`lastId`, SQLite's
`sqlite_sequence` entry). Each operation returns the new store together with
an outcome:

- `Created(id)` stands for the 201 response.
- `MissingFields` stands for 400.
- `StoreError` stands for 500.
- `Ok` stands for 200.

Modules, one per concern:

- `Appointments` (`appointments.dfy`) holds the schema as datatypes, the
  validity invariant `Valid`, and `Book`, `Confirm`, `Delete`, `Stats`.
- `StoreProperties` (`properties.dfy`) relates single operations to the
  submitted data, to themselves (idempotence), and to the counts.
- `Collation` (`collation.dfy`) is SQLite's BINARY text order. It is proved
  to be a strict total order equal to the first-difference definition.
- `Listing` (`listing.dfy`) is `SELECT * … ORDER BY date DESC, time DESC`,
  an insertion into a sorted sequence proved sorted and a permutation.
- `History` (`history.dfy`) covers runs of several requests: ids increase
  strictly and are never reused, and every reachable store is valid.
- `Scenario` (`scenario.dfy`) is the book / list / stats / confirm / delete
  walk-through on a fresh table.

Behaviour of the handlers that the model keeps:

- Booking validation (app.py:119) only checks that the six keys `name`,
  `email`, `phone`, `service`, `date`, `time` are present. Empty strings
  pass it.
- A required key that is present but `null` fails the `NOT NULL` column.
  So does a list or object value, which the driver cannot bind. So does a
  string holding an unpaired surrogate escape such as `"\ud800"`, which the
  JSON decoder accepts but the driver cannot encode as UTF-8. All three give
  `StoreError` and write no row.
- `notes` becomes `""` when absent and SQL NULL when `null`. A list, an
  object or an unencodable string there is `StoreError`.
- `Confirm` overwrites the status whatever it was. `Confirm` and `Delete` on
  an absent id change nothing and still answer `Ok`.
- Ids are `nat`, as the route's `<int:…>` converter only accepts digit
  strings. An id above 2^63-1 makes the driver raise before the statement
  runs, so the outcome is `StoreError`.
- A booking when `lastId` is already 2^63-1 fails as AUTOINCREMENT does
  (SQLITE_FULL). A failed INSERT is rolled back, `lastId` included.
- The status is kept as the TEXT it is in the table. "Only `pending` or
  `confirmed`" is therefore the invariant `Valid`, proved for every
  reachable store, and not a fact of the type.
- Dates and times are compared as strings, code point by code point. That is
  the same as BINARY collation on their UTF-8 bytes. It is not a
  chronological comparison.

## Model

| member | source | states |
|---|---|---|
| Appointments.Empty | app.py:30-48 | the freshly created table has no rows, has no high-water mark yet (so the first id handed out is 1), and satisfies the store invariant |
| Appointments.HasRequiredMeansAllPresent | app.py:118-119 | the presence test holds exactly when every one of the six listed keys is in the request |
| Appointments.Book | app.py:112-151 | missing-fields exactly when one of the six keys is absent; never answers Ok; any non-created outcome leaves the store unchanged; a created id is lastId+1, fresh on a valid store, becomes the new high-water mark, adds exactly one key whose row is pending, and leaves every other row as it was; validity is preserved |
| Appointments.Confirm | app.py:169-189 | Ok exactly when the id fits in 64 bits, error otherwise; same keys and high-water mark; the confirmed row differs from the old one only in status, which is confirmed; other rows unchanged; an absent id leaves the store unchanged; validity is preserved |
| Appointments.Delete | app.py:191-204 | Ok exactly when the id fits in 64 bits; the keys lose exactly that id; every surviving row is unchanged; high-water mark kept, so a deleted id stays used; an absent id leaves the store unchanged; validity is preserved |
| Appointments.Stats | app.py:206-230 | total is the row count; confirmed + pending never exceeds total, and equals it on a valid store |
| Appointments.StatusesPartition | app.py:212-219 | the confirmed and pending filters pick disjoint rows and, on a valid store, all rows between them |
| StoreProperties.BookOutcome | app.py:118-132 | a booking is created exactly when all six keys are present with string values, notes is absent, a string or null, and the id space is not exhausted; missing-fields exactly when a key is absent |
| StoreProperties.EmptyStringsAccepted | app.py:118-120 | six present empty strings pass validation and are booked |
| StoreProperties.NullRequiredIsStoreError | app.py:36-41 | a null value for any one of the six required keys is a store error with no row written, not a validation failure |
| StoreProperties.BookedRow | app.py:125-129 | the created row holds the submitted name, email, phone, service, date and time, status pending, the server timestamp, and notes "" when absent, NULL when null, the given text otherwise |
| StoreProperties.ConfirmIdempotent | app.py:175 | confirming twice gives the same store and outcome as confirming once |
| StoreProperties.ConfirmOverwrites | app.py:175 | confirming an already confirmed row leaves the store as it was |
| StoreProperties.DeleteIdempotent | app.py:197 | deleting twice equals deleting once, and afterwards the id is absent |
| StoreProperties.StatsAfterBook | app.py:212-219 | after a successful booking, total and pending each grow by one and confirmed is unchanged |
| StoreProperties.StatsAfterConfirmPending | app.py:175 | confirming a pending row keeps total and moves one count from pending to confirmed |
| StoreProperties.StatsAfterDelete | app.py:197 | deleting a row lowers total by one and lowers the count of that row's status by one |
| Collation.LessIrreflexive | app.py:160 | no string sorts before itself |
| Collation.LessTransitive | app.py:160 | the text order is transitive |
| Collation.LessTrichotomy | app.py:160 | any two strings are equal or one sorts before the other |
| Collation.LessAsymmetric | app.py:160 | two strings never sort before each other |
| Collation.LessMatchesFirstDifference | app.py:160 | the recursive comparison holds exactly when the first is a proper prefix of the second or they first differ at a smaller character (both directions) |
| Listing.PrecedesTotal | app.py:160 | of any two rows, one may be listed before the other under date DESC, time DESC |
| Listing.PrecedesTransitive | app.py:160 | the listing order is transitive |
| Listing.Insert | app.py:160 | inserting into a sorted listing gives a sorted listing with exactly one more occurrence of the new row |
| Listing.List | app.py:160-161 | the result is ordered by date descending, then time descending within a date, and is a permutation of the stored rows, each with its id |
| Listing.ListedExactlyOnce | app.py:160-161 | every stored record occurs exactly once in the listing, every listed row is a stored record under its own id, and the listing has one entry per row |
| Listing.RowsOfCard | app.py:161 | there are as many listed rows as ids, since rows with distinct ids are distinct |
| History.Apply | app.py:35 | no request lowers the high-water mark; a created id is above the previous mark and becomes the new mark; validity is preserved |
| History.Run | app.py:35 | a run answers each request once, never lowers the high-water mark, and keeps a valid store valid |
| History.IdsNeverReused | app.py:35 | every id created in a run is above every id assigned before the run and at most the final mark, and created ids strictly increase along the run |
| History.AssignedIdNotReassigned | app.py:132 | an id that was ever assigned, whether or not its row was deleted, is never returned again by a later booking |
| History.CountsAddUp | app.py:212-219 | on every store reachable from the empty table, total equals confirmed plus pending |
| Scenario.ScenarioBook | app.py:125-132 | on a fresh table the sample booking gets id 1 and writes the submitted fields with notes "" and status pending |
| Scenario.ScenarioConfirm | app.py:175 | after the sample booking the counts are 1/0/1; confirming id 1 answers Ok, sets its status to confirmed, and the counts become 1/1/0 |
| Scenario.ScenarioDelete | app.py:197-201 | deleting id 1 answers Ok and leaves no rows, with the high-water mark kept at 1 |
| Scenario.ScenarioListings | app.py:160-161 | the listing after the sample booking is exactly that one row, and after the deletion it is empty |

## Left out

- Flask routing, static file serving, CORS, dotenv loading and the
  `__main__` start-up: framework plumbing with no store logic.
- The SQLite engine, connections, commits and closes. Storage is modelled
  abstractly. Failures of the engine itself (I/O errors, a locked database)
  are not modelled, so the 500 answers of the list and stats handlers are
  absent.
- `send_confirmation_email`: SMTP network I/O and console output. The model
  assumes it returns without raising, so a booking's outcome is decided by
  the INSERT alone.
- The console message in `confirm_appointment`: console output, assumed not
  to raise.
- A console write that fails after the commit: the prints in the except
  handlers of `send_confirmation_email` (app.py:106, app.py:109) and the
  confirm message (app.py:184) run after the row was written or updated.
  If one of them raises, the handler answers 500 with the row written or
  updated. The model does not cover this; it does not model the console.
- `created_at`: the wall clock becomes the `now` parameter of `Book`. It is
  stored as an opaque string and never modified.
- Concurrent requests: the model serves requests one after another.
- The `/health` endpoint, JSON serialisation, and request bodies that are
  not JSON objects.
- JSON numbers and booleans as booking values. SQLite would store them via
  TEXT affinity. The model's request values are strings, null, and
  lists/objects only.
- Appointments.Book: the freshness and "other rows unchanged" clauses are
  stated for valid stores only (every id at most `lastId`). SQLite's
  AUTOINCREMENT picks one more than the larger of the recorded mark and the
  largest rowid. That is `lastId + 1` on every valid store, which is every
  store the handlers can reach.
- Listing.List: the relative order of rows that tie on both date and time is
  left unconstrained. SQLite's order for them depends on the query plan.
