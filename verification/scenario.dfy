/**
 The end-to-end walk through the API on a fresh table: one booking, the
 listing and counts it produces, a confirmation, and a deletion.
 */
module Scenario {
  import opened Appointments
  import Listing

  const Submitted: Request := map[
    "name" := Text("A"), "email" := Text("a@x.com"), "phone" := Text("111"),
    "service" := Text("Dental"), "date" := Text("2024-05-01"), "time" := Text("10:00")]

  /** The row the booking writes: notes defaulted, status pending. */
  function Expected(now: string): Appointment
  {
    Appointment("A", "a@x.com", "111", "Dental", "2024-05-01", "10:00", Some(""), Pending, now)
  }

  /** The table after the booking, and after the confirmation. */
  function Booked(now: string): Store { Store(map[1 := Expected(now)], 1) }
  function ConfirmedStore(now: string): Store { Store(map[1 := Expected(now).(status := Confirmed)], 1) }

  /** On a fresh table the sample booking gets id 1 and writes the expected row. */
  lemma ScenarioBook(now: string)
    ensures Book(Empty(), Submitted, now) == Step(Booked(now), Created(1))
  {
    assert HasRequired(Submitted);
    assert NewRow(Submitted, now) == Some(Expected(now));
  }

  /** Counts are 1/0/1 after the booking, and 1/1/0 after confirming id 1. */
  lemma ScenarioConfirm(now: string)
    ensures Stats(Booked(now)) == Counts(1, 0, 1)
    ensures Confirm(Booked(now), 1) == Step(ConfirmedStore(now), Ok)
    ensures Stats(ConfirmedStore(now)) == Counts(1, 1, 0)
  {
    assert WithStatus(Booked(now), Pending) == {1};
    assert WithStatus(Booked(now), Confirmed) == {};
    assert WithStatus(ConfirmedStore(now), Confirmed) == {1};
    assert WithStatus(ConfirmedStore(now), Pending) == {};
  }

  /** Deleting id 1 leaves no rows. */
  lemma ScenarioDelete(now: string)
    ensures Delete(ConfirmedStore(now), 1) == Step(Store(map[], 1), Ok)
  {
    assert map[1 := Expected(now).(status := Confirmed)] - {1} == map[];
  }

  /** Any listing of the booked store is that one row; after the deletion it
      is empty. */
  lemma ScenarioListings(now: string, before: seq<Listing.Row>, after: seq<Listing.Row>)
    requires
      var booked := Booked(now);
      multiset(before) == multiset(Listing.RowsOf(booked, booked.records.Keys))
    requires multiset(after) == multiset(Listing.RowsOf(Store(map[], 1), {}))
    ensures before == [Listing.Row(1, Expected(now))]
    ensures after == []
  {
    var booked := Booked(now);
    assert booked.records.Keys == {1};
    assert Listing.Row(1, Expected(now)) in Listing.RowsOf(booked, {1});
    assert Listing.RowsOf(booked, booked.records.Keys) == {Listing.Row(1, Expected(now))};
    assert |before| == 1 by {
      assert |multiset(before)| == 1;
    }
    assert before[0] in multiset(before);
    assert |multiset(after)| == 0;
  }
}
