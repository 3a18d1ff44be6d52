/**
 Facts about single operations of the appointment store that relate an
 operation to the submitted data, to itself (idempotence) or to the counts
 `Stats` reports.
 */
module StoreProperties {
  import opened Appointments

  /** The booking outcome is decided by key presence first (400), then by
      whether every value can be written (500), then by the id space. */
  lemma BookOutcome(s: Store, data: Request, now: string)
    ensures Book(s, data, now).outcome.Created? <==>
      && HasRequired(data)
      && data["name"].Text? && data["email"].Text? && data["phone"].Text?
      && data["service"].Text? && data["date"].Text? && data["time"].Text?
      && ("notes" in data ==> data["notes"].Text? || data["notes"].Null?)
      && s.lastId < MaxRowId
    ensures Book(s, data, now).outcome == MissingFields <==> !HasRequired(data)
  {
  }

  /** Empty strings are accepted: only presence is validated. */
  lemma EmptyStringsAccepted(s: Store, now: string)
    requires s.lastId < MaxRowId
    ensures
      var data := map["name" := Text(""), "email" := Text(""), "phone" := Text(""),
                      "service" := Text(""), "date" := Text(""), "time" := Text("")];
      Book(s, data, now).outcome == Created(s.lastId + 1)
  {
  }

  /** A present but null value for any of the six required keys is a store
      error, not a validation failure, and writes nothing. */
  lemma NullRequiredIsStoreError(s: Store, data: Request, now: string, i: nat)
    requires HasRequired(data)
    requires i < |RequiredFields| && data[RequiredFields[i]] == Null
    ensures Book(s, data, now) == Step(s, StoreError)
  {
    var f := RequiredFields;
    assert f[0] == "name" && f[1] == "email" && f[2] == "phone";
    assert f[3] == "service" && f[4] == "date" && f[5] == "time";
  }

  /** The row a successful booking writes carries the submitted strings,
      status pending, the server timestamp, and notes defaulting to "". */
  lemma BookedRow(s: Store, data: Request, now: string)
    requires HasRequired(data)
    requires Book(s, data, now).outcome.Created?
    ensures
      var r := Book(s, data, now);
      var a := r.store.records[r.outcome.id];
      && data["name"] == Text(a.name) && data["email"] == Text(a.email)
      && data["phone"] == Text(a.phone) && data["service"] == Text(a.service)
      && data["date"] == Text(a.date) && data["time"] == Text(a.time)
      && a.notes == (if "notes" !in data then Some("")
                     else if data["notes"] == Null then None
                     else Some(data["notes"].text))
      && a.status == Pending
      && a.createdAt == now
  {
  }

  /** Confirming twice is confirming once. */
  lemma ConfirmIdempotent(s: Store, id: nat)
    ensures Confirm(Confirm(s, id).store, id) == Confirm(s, id)
  {
  }

  /** Confirming is an overwrite: a confirmed row stays as it is. */
  lemma ConfirmOverwrites(s: Store, id: nat)
    requires id in s.records && s.records[id].status == Confirmed
    ensures Confirm(s, id).store == s
  {
  }

  /** Deleting twice is deleting once, and the row is gone afterwards. */
  lemma DeleteIdempotent(s: Store, id: nat)
    ensures Delete(Delete(s, id).store, id) == Delete(s, id)
    ensures id <= MaxRowId ==> id !in Delete(s, id).store.records
  {
  }

  /** A booking adds one pending row to the counts. */
  lemma StatsAfterBook(s: Store, data: Request, now: string)
    requires Valid(s)
    requires Book(s, data, now).outcome.Created?
    ensures
      var c, c' := Stats(s), Stats(Book(s, data, now).store);
      c' == Counts(c.total + 1, c.confirmed, c.pending + 1)
  {
    var r := Book(s, data, now);
    var id := r.outcome.id;
    assert WithStatus(r.store, Pending) == WithStatus(s, Pending) + {id};
    assert WithStatus(r.store, Confirmed) == WithStatus(s, Confirmed);
    assert r.store.records.Keys == s.records.Keys + {id};
  }

  /** Confirming a pending row moves one count from pending to confirmed. */
  lemma StatsAfterConfirmPending(s: Store, id: nat)
    requires Valid(s)
    requires id in s.records && s.records[id].status == Pending
    ensures
      var c, c' := Stats(s), Stats(Confirm(s, id).store);
      c.pending >= 1 && c' == Counts(c.total, c.confirmed + 1, c.pending - 1)
  {
    var s' := Confirm(s, id).store;
    assert WithStatus(s, Pending) == WithStatus(s', Pending) + {id};
    assert WithStatus(s', Confirmed) == WithStatus(s, Confirmed) + {id};
    assert s'.records.Keys == s.records.Keys;
  }

  /** Deleting a row takes it out of the total and out of its status count. */
  lemma StatsAfterDelete(s: Store, id: nat)
    requires Valid(s)
    requires id in s.records
    ensures
      var c, c' := Stats(s), Stats(Delete(s, id).store);
      var wasPending := s.records[id].status == Pending;
      && c'.total == c.total - 1
      && c'.pending == (if wasPending then c.pending - 1 else c.pending)
      && c'.confirmed == (if wasPending then c.confirmed else c.confirmed - 1)
  {
    var s' := Delete(s, id).store;
    var st := s.records[id].status;
    var other := if st == Pending then Confirmed else Pending;
    assert WithStatus(s, st) == WithStatus(s', st) + {id};
    assert WithStatus(s', other) == WithStatus(s, other);
    assert s.records.Keys == s'.records.Keys + {id};
  }
}
