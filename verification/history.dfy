/**
 Sequences of requests against one store, as the handlers would serve them
 one after the other. Here live the facts that span several calls: ids are
 handed out in strictly increasing order and never reused, even after the
 row that held one is deleted, and every reachable store is valid, so the
 counts always add up.
 */
module History {
  import opened Appointments

  /** The requests that write to the store. */
  datatype Op = BookOp(data: Request, now: string) | ConfirmOp(id: nat) | DeleteOp(id: nat)

  datatype Trace = Trace(store: Store, outcomes: seq<Outcome>)

  function Apply(s: Store, op: Op): (r: Step)
    ensures r.store.lastId >= s.lastId
    ensures r.outcome.Created? ==> r.outcome.id == r.store.lastId && r.outcome.id > s.lastId
    ensures Valid(s) ==> Valid(r.store)
  {
    match op
    case BookOp(data, now) => Book(s, data, now)
    case ConfirmOp(id) => Confirm(s, id)
    case DeleteOp(id) => Delete(s, id)
  }

  /** Serves `ops` in order, starting from `s`. */
  function Run(s: Store, ops: seq<Op>): (t: Trace)
    ensures |t.outcomes| == |ops|
    ensures t.store.lastId >= s.lastId
    ensures Valid(s) ==> Valid(t.store)
    decreases |ops|
  {
    if |ops| == 0 then Trace(s, [])
    else
      var first := Apply(s, ops[0]);
      var rest := Run(first.store, ops[1..]);
      Trace(rest.store, [first.outcome] + rest.outcomes)
  }

  /** Every id created in `outs` lies in the range (lo, hi]. */
  ghost predicate CreatedWithin(outs: seq<Outcome>, lo: nat, hi: nat)
  {
    forall i :: 0 <= i < |outs| && outs[i].Created? ==> lo < outs[i].id <= hi
  }

  /** The ids created in `outs` come out strictly increasing. */
  ghost predicate CreatedIncreasing(outs: seq<Outcome>)
  {
    forall i, j :: 0 <= i < j < |outs| && outs[i].Created? && outs[j].Created? ==> outs[i].id < outs[j].id
  }

  /** Every id created during a run is above every id assigned before it
      (deleted ones included), at most the final high-water mark, and the
      ids come out strictly increasing. */
  lemma {:induction false} IdsNeverReused(s: Store, ops: seq<Op>)
    ensures CreatedWithin(Run(s, ops).outcomes, s.lastId, Run(s, ops).store.lastId)
    ensures CreatedIncreasing(Run(s, ops).outcomes)
    decreases |ops|
  {
    if |ops| > 0 {
      var first := Apply(s, ops[0]);
      var rest := Run(first.store, ops[1..]);
      IdsNeverReused(first.store, ops[1..]);
      var t := Run(s, ops);
      assert t == Trace(rest.store, [first.outcome] + rest.outcomes);
      forall i | 0 <= i < |t.outcomes| && t.outcomes[i].Created?
        ensures s.lastId < t.outcomes[i].id <= t.store.lastId
      {
        if i > 0 {
          assert t.outcomes[i] == rest.outcomes[i - 1];
        }
      }
      forall i, j | 0 <= i < j < |t.outcomes| && t.outcomes[i].Created? && t.outcomes[j].Created?
        ensures t.outcomes[i].id < t.outcomes[j].id
      {
        assert t.outcomes[j] == rest.outcomes[j - 1];
        if i > 0 {
          assert t.outcomes[i] == rest.outcomes[i - 1];
        }
      }
    }
  }

  /** An id that was ever assigned in `s` is never handed out again by any
      later sequence of requests, whether or not its row still exists. */
  lemma AssignedIdNotReassigned(s: Store, ops: seq<Op>, k: nat)
    requires Valid(s)
    requires k in s.records || k <= s.lastId
    ensures forall i :: 0 <= i < |Run(s, ops).outcomes| ==> Run(s, ops).outcomes[i] != Created(k)
  {
    IdsNeverReused(s, ops);
  }

  /** On every store reachable from the empty table, total = confirmed + pending. */
  lemma CountsAddUp(ops: seq<Op>)
    ensures
      var c := Stats(Run(Empty(), ops).store);
      c.total == c.confirmed + c.pending
  {
  }
}
