/**
 How failures add up: a node that is stored goes with the failure that reaches the threshold and not before, and
 an answer, or another sighting, sets the count back to zero.
 */
module TableFailures {

  import opened Common
  import opened NodeIds
  import opened Buckets
  import opened TableModel
  import opened TableTheorems
  import opened TableRuns

  /** `j` failures of `id` in a row. */
  function Failures(id: NodeId, j: nat): seq<Op> {
    seq(j, _ => DoFailure(id))
  }

  /** The first of several failures, and the entry it leaves. */
  lemma FirstFailure(t: Table, id: NodeId, j: nat, x: NodeId)
    requires Inv(t) && j > 0
    ensures |t.buckets| > 0 && |MarkFailure(t, id).buckets| > 0
    ensures Inv(MarkFailure(t, id)) && MarkFailure(t, id).threshold == t.threshold
    ensures Run(t, Failures(id, j)) == Run(MarkFailure(t, id), Failures(id, j - 1))
    ensures Lookup(MarkFailure(t, id), x) == AfterFailure(Lookup(t, x), id, t.threshold, x)
  {
    HasBuckets(t);
    hide Inv, MarkFailure, Lookup, AfterFailure, Run;
    FirstOfMany(t, id, j);
    HasBuckets(MarkFailure(t, id));
    MarkFailureRefinesMap(t, id, x);
  }

  lemma FirstOfMany(t: Table, id: NodeId, j: nat)
    requires Inv(t) && j > 0
    ensures |t.buckets| > 0 && Inv(MarkFailure(t, id)) && MarkFailure(t, id).threshold == t.threshold
    ensures Run(t, Failures(id, j)) == Run(MarkFailure(t, id), Failures(id, j - 1))
  {
    HasBuckets(t);
    hide Inv, MarkFailure;
    ApplyKeepsInv(t, DoFailure(id));
    assert Failures(id, j)[0] == DoFailure(id) && Failures(id, j)[1..] == Failures(id, j - 1);
  }

  /** A stored node is there after `j` more failures, with `j` more on its count, as long as that is below the threshold. */
  lemma {:induction false} FailuresAddUp(t: Table, id: NodeId, j: nat, m: Node)
    requires Inv(t) && Lookup(t, id) == Some(m)
    ensures Lookup(Run(t, Failures(id, j)), id) ==
            if j == 0 || m.failures + j < t.threshold then Some(m.(failures := m.failures + j)) else None
    decreases j
  {
    hide Inv, MarkFailure, Lookup;
    if j > 0 {
      FirstFailure(t, id, j, id);
      var u := MarkFailure(t, id);
      if m.failures + 1 < t.threshold {
        FailuresAddUp(u, id, j - 1, m.(failures := m.failures + 1));
      } else {
        GoneStaysGone(u, id, j - 1);
      }
    }
  }

  lemma {:induction false} GoneStaysGone(t: Table, id: NodeId, j: nat)
    requires Inv(t) && Lookup(t, id) == None
    ensures Lookup(Run(t, Failures(id, j)), id) == None
    decreases j
  {
    hide Inv, MarkFailure, Lookup;
    if j > 0 {
      FirstFailure(t, id, j, id);
      GoneStaysGone(MarkFailure(t, id), id, j - 1);
    }
  }

  /**
   A node seen again starts from zero: with its new address and time it survives any number of failures below the
   threshold and goes with the one that reaches it, however many it had before.
   */
  lemma SightingForgives(t: Table, n: Node, j: nat)
    requires Inv(t) && Insert(t, n).result == Updated
    ensures Inv(Insert(t, n).table)
    ensures Lookup(Run(Insert(t, n).table, Failures(n.id, j)), n.id) ==
            if j == 0 || j < t.threshold then Some(Node(n.id, n.addr, n.lastSeen, j)) else None
  {
    InsertRefinesMap(t, n, n.id);
    InsertFrame(t, n);
    hide Inv, Insert, Lookup;
    FailuresAddUp(Insert(t, n).table, n.id, j, Node(n.id, n.addr, n.lastSeen, 0));
  }

  /** So does an active node that answers; it keeps its address. */
  lemma AnswerForgives(t: Table, id: NodeId, now: int, j: nat)
    requires Inv(t) && IsActive(t, id) && Lookup(t, id).Some?
    ensures Inv(MarkSuccess(t, id, now))
    ensures Lookup(Run(MarkSuccess(t, id, now), Failures(id, j)), id) ==
            if j == 0 || j < t.threshold then Some(Node(id, Lookup(t, id).value.addr, now, j)) else None
  {
    var m := Lookup(t, id).value;
    assert m.id == id;
    MarkSuccessRefinesMap(t, id, now, id);
    hide Inv, Lookup, MarkSuccess, IsActive;
    FailuresAddUp(MarkSuccess(t, id, now), id, j, Node(id, m.addr, now, 0));
  }

  /** Failures of others change nothing. */
  lemma {:induction false} OthersUnharmed(t: Table, id: NodeId, j: nat, x: NodeId)
    requires Inv(t) && x != id
    ensures Lookup(Run(t, Failures(id, j)), x) == Lookup(t, x)
    decreases j
  {
    hide Inv, MarkFailure, Lookup;
    if j > 0 {
      FirstFailure(t, id, j, x);
      OthersUnharmed(MarkFailure(t, id), id, j - 1, x);
    }
  }
}
