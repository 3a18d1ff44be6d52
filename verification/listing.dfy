/**
 GET /api/appointments: every row of the table, ordered by `date DESC, time
 DESC` with both columns compared as TEXT. Rows that tie on both columns may
 come in any order.
 */
module Listing {
  import opened Appointments
  import Collation

  /** A row as SELECT * returns it: the id together with the stored record. */
  datatype Row = Row(id: nat, apt: Appointment)

  /** `x` may be listed before `y`: a later date, or the same date and a time
      that is not earlier. */
  predicate Precedes(x: Row, y: Row)
  {
    || Collation.Less(y.apt.date, x.apt.date)
    || (x.apt.date == y.apt.date && !Collation.Less(x.apt.time, y.apt.time))
  }

  ghost predicate Sorted(rows: seq<Row>)
  {
    forall i, j :: 0 <= i < j < |rows| ==> Precedes(rows[i], rows[j])
  }

  /** The rows of the store whose id is in `ids`. */
  function RowsOf(s: Store, ids: set<nat>): set<Row>
  {
    set k | k in ids && k in s.records :: Row(k, s.records[k])
  }

  lemma PrecedesTotal(x: Row, y: Row)
    ensures Precedes(x, y) || Precedes(y, x)
  {
    Collation.LessTrichotomy(x.apt.date, y.apt.date);
    if x.apt.date == y.apt.date && Collation.Less(x.apt.time, y.apt.time) {
      Collation.LessAsymmetric(x.apt.time, y.apt.time);
    }
  }

  lemma PrecedesTransitive(x: Row, y: Row, z: Row)
    requires Precedes(x, y) && Precedes(y, z)
    ensures Precedes(x, z)
  {
    var dx, dy, dz := x.apt.date, y.apt.date, z.apt.date;
    var tx, ty, tz := x.apt.time, y.apt.time, z.apt.time;
    if Collation.Less(dy, dx) && Collation.Less(dz, dy) {
      Collation.LessTransitive(dz, dy, dx);
    } else if dx == dy && dy == dz {
      if Collation.Less(tx, tz) {
        Collation.LessTrichotomy(tx, ty);
        Collation.LessTrichotomy(ty, tz);
        if ty != tx && tz != ty {
          Collation.LessTransitive(tz, ty, tx);
        }
        Collation.LessAsymmetric(tx, tz);
      }
    }
  }

  /** Puts `r` into sorted `rows`, before the first row it may precede. */
  function Insert(rows: seq<Row>, r: Row): (out: seq<Row>)
    requires Sorted(rows)
    ensures Sorted(out)
    ensures multiset(out) == multiset(rows) + multiset{r}
  {
    if |rows| == 0 then [r]
    else if Precedes(r, rows[0]) then
      InsertFront(rows, r);
      [r] + rows
    else
      var tail := Insert(rows[1..], r);
      PrecedesTotal(r, rows[0]);
      InsertBehind(rows, r, tail);
      assert rows == [rows[0]] + rows[1..];
      [rows[0]] + tail
  }

  lemma InsertFront(rows: seq<Row>, r: Row)
    requires Sorted(rows) && |rows| > 0 && Precedes(r, rows[0])
    ensures Sorted([r] + rows)
  {
    var out := [r] + rows;
    forall i, j | 0 <= i < j < |out|
      ensures Precedes(out[i], out[j])
    {
      if i == 0 && j > 1 {
        PrecedesTransitive(r, rows[0], rows[j - 1]);
      }
    }
  }

  lemma InsertBehind(rows: seq<Row>, r: Row, tail: seq<Row>)
    requires Sorted(rows) && |rows| > 0 && Precedes(rows[0], r)
    requires Sorted(tail) && multiset(tail) == multiset(rows[1..]) + multiset{r}
    ensures Sorted([rows[0]] + tail)
  {
    var out := [rows[0]] + tail;
    forall i, j | 0 <= i < j < |out|
      ensures Precedes(out[i], out[j])
    {
      if i == 0 {
        var x := tail[j - 1];
        assert x in multiset(tail);
        if x != r {
          assert x in rows[1..];
        }
      }
    }
  }

  /** Adding one id to the listed set adds exactly its row, which was not
      listed before. */
  lemma RowsOfAdd(s: Store, ids: set<nat>, k: nat)
    requires k in s.records && k !in ids
    ensures RowsOf(s, ids + {k}) == RowsOf(s, ids) + {Row(k, s.records[k])}
    ensures Row(k, s.records[k]) !in RowsOf(s, ids)
  {
  }

  /** SELECT * FROM appointments ORDER BY date DESC, time DESC. */
  method List(s: Store) returns (rows: seq<Row>)
    ensures Sorted(rows)
    ensures multiset(rows) == multiset(RowsOf(s, s.records.Keys))
  {
    rows := [];
    var todo := s.records.Keys;
    while todo != {}
      invariant todo <= s.records.Keys
      invariant Sorted(rows)
      invariant multiset(rows) == multiset(RowsOf(s, s.records.Keys - todo))
      decreases todo
    {
      var k :| k in todo;
      var done := s.records.Keys - todo;
      var r := Row(k, s.records[k]);
      RowsOfAdd(s, done, k);
      rows := Insert(rows, r);
      todo := todo - {k};
      assert s.records.Keys - todo == done + {k};
    }
    assert s.records.Keys - todo == s.records.Keys;
  }

  /** Read back: every stored record is listed exactly once, and every listed
      row is a stored record under its own id. */
  lemma ListedExactlyOnce(s: Store, rows: seq<Row>)
    requires multiset(rows) == multiset(RowsOf(s, s.records.Keys))
    ensures forall k :: k in s.records ==> multiset(rows)[Row(k, s.records[k])] == 1
    ensures forall i :: 0 <= i < |rows| ==> rows[i].id in s.records && s.records[rows[i].id] == rows[i].apt
    ensures |rows| == |s.records|
  {
    var all := RowsOf(s, s.records.Keys);
    forall k | k in s.records
      ensures multiset(rows)[Row(k, s.records[k])] == 1
    {
      assert Row(k, s.records[k]) in all;
    }
    forall i | 0 <= i < |rows|
      ensures rows[i].id in s.records && s.records[rows[i].id] == rows[i].apt
    {
      assert rows[i] in multiset(rows);
      assert rows[i] in all;
    }
    RowsOfCard(s, s.records.Keys);
    assert |rows| == |multiset(rows)|;
  }

  /** Distinct ids give distinct rows, so there are as many rows as ids. */
  lemma {:induction false} RowsOfCard(s: Store, ids: set<nat>)
    requires ids <= s.records.Keys
    ensures |RowsOf(s, ids)| == |ids|
    decreases ids
  {
    if ids != {} {
      var k :| k in ids;
      RowsOfCard(s, ids - {k});
      RowsOfAdd(s, ids - {k}, k);
      assert ids - {k} + {k} == ids;
    }
  }
}
