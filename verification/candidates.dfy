/**
 The nodes `Closest` chooses from: every stored node, active or cached, that is not bad.
 */
module Candidates {

  import opened Common
  import opened NodeIds
  import opened Buckets
  import opened TableModel
  import opened TableTheorems
  import opened TableRuns
  import opened TableConservation
  import opened Nearest

  /** The nodes of `ns` that are not bad, in order. */
  function Good(ns: seq<Node>, threshold: int): seq<Node> {
    if ns == [] then []
    else Good(ns[..|ns| - 1], threshold) + if ns[|ns| - 1].IsBad(threshold) then [] else [ns[|ns| - 1]]
  }

  function Gathered(bs: seq<Bucket>, threshold: int): seq<Node> {
    if bs == [] then []
    else Gathered(bs[..|bs| - 1], threshold) + Good(bs[|bs| - 1].All(), threshold)
  }

  function IdSet(ns: seq<Node>): set<NodeId> {
    set n | n in ns :: n.id
  }

  /** The identifiers of the stored nodes that are not bad. */
  ghost function GoodIds(t: Table): set<NodeId> {
    IdSet(Gathered(t.buckets, t.threshold))
  }

  lemma {:induction false} GoodConcat(ns: seq<Node>, ms: seq<Node>, threshold: int)
    ensures Good(ns + ms, threshold) == Good(ns, threshold) + Good(ms, threshold)
  {
    if ms == [] {
      assert ns + ms == ns;
    } else {
      var init := ms[..|ms| - 1];
      assert (ns + ms)[..|ns + ms| - 1] == ns + init;
      GoodConcat(ns, init, threshold);
    }
  }

  lemma {:induction false} GoodMembers(ns: seq<Node>, threshold: int, n: Node)
    ensures n in Good(ns, threshold) <==> n in ns && n.failures < threshold
  {
    if ns != [] {
      GoodMembers(ns[..|ns| - 1], threshold, n);
      assert ns == ns[..|ns| - 1] + [ns[|ns| - 1]];
    }
  }

  lemma {:induction false} GoodDistinct(ns: seq<Node>, threshold: int)
    requires DistinctIds(ns)
    ensures DistinctIds(Good(ns, threshold))
  {
    if ns != [] {
      var init, last := ns[..|ns| - 1], ns[|ns| - 1];
      GoodDistinct(init, threshold);
      forall n | n in Good(init, threshold)
        ensures n.id != last.id
      {
        GoodMembers(init, threshold, n);
      }
    }
  }

  ghost predicate StoredIn(bs: seq<Bucket>, n: Node) {
    exists i :: 0 <= i < |bs| && n in bs[i].All()
  }

  lemma StoredInInit(bs: seq<Bucket>, n: Node)
    requires bs != []
    ensures StoredIn(bs, n) <==> StoredIn(bs[..|bs| - 1], n) || n in bs[|bs| - 1].All()
  {
    var init := bs[..|bs| - 1];
    if StoredIn(init, n) {
      var i :| 0 <= i < |init| && n in init[i].All();
      assert n in bs[i].All();
    }
    if StoredIn(bs, n) && n !in bs[|bs| - 1].All() {
      var i :| 0 <= i < |bs| && n in bs[i].All();
      assert n in init[i].All();
    }
  }

  lemma {:induction false} GatheredMembers(bs: seq<Bucket>, threshold: int, n: Node)
    ensures n in Gathered(bs, threshold) <==> StoredIn(bs, n) && n.failures < threshold
  {
    if bs != [] {
      GatheredMembers(bs[..|bs| - 1], threshold, n);
      GoodMembers(bs[|bs| - 1].All(), threshold, n);
      StoredInInit(bs, n);
    }
  }

  /** The candidates are exactly what the map holds and is not bad. */
  lemma GoodIdsAreStored(t: Table, x: NodeId)
    requires Inv(t)
    ensures x in GoodIds(t) <==> Lookup(t, x).Some? && Lookup(t, x).value.failures < t.threshold
  {
    if x in GoodIds(t) {
      var n :| n in Gathered(t.buckets, t.threshold) && n.id == x;
      GatheredIsStored(t, n);
    }
    if Lookup(t, x).Some? {
      var i := BucketFor(t.buckets, x);
      var p := IndexOf(t.buckets[i].All(), x);
      assert t.buckets[i].All()[p] == Lookup(t, x).value && Lookup(t, x).value in t.buckets[i].All();
      GatheredMembers(t.buckets, t.threshold, Lookup(t, x).value);
    }
  }

  lemma GatheredIsStored(t: Table, n: Node)
    requires Inv(t) && n in Gathered(t.buckets, t.threshold)
    ensures Lookup(t, n.id) == Some(n) && n.failures < t.threshold
  {
    GatheredMembers(t.buckets, t.threshold, n);
    var i :| 0 <= i < |t.buckets| && n in t.buckets[i].All();
    var p :| 0 <= p < |t.buckets[i].All()| && t.buckets[i].All()[p] == n;
    StoredIsFound(t, i, p);
  }

  lemma {:induction false} GatheredPrefix(t: Table, c: nat)
    requires Inv(t) && c <= |t.buckets|
    ensures DistinctIds(Gathered(t.buckets[..c], t.threshold))
  {
    hide Inv, Gathered, Good;
    if c == 0 {
      GatheredNone(t.buckets, t.threshold);
    } else {
      GatheredPrefix(t, c - 1);
      GatheredNext(t.buckets, c - 1, t.threshold);
      BucketIdsDistinct(t, c - 1);
      GoodDistinct(t.buckets[c - 1].All(), t.threshold);
      EarlierAllDiffer(t, c - 1);
      DistinctConcat(Gathered(t.buckets[..c - 1], t.threshold), Good(t.buckets[c - 1].All(), t.threshold));
    }
  }

  lemma EarlierAllDiffer(t: Table, c: nat)
    requires Inv(t) && c < |t.buckets|
    ensures forall m, n :: m in Gathered(t.buckets[..c], t.threshold) && n in Good(t.buckets[c].All(), t.threshold) ==>
              m.id != n.id
  {
    hide Inv, Gathered, Good;
    forall m, n | m in Gathered(t.buckets[..c], t.threshold) && n in Good(t.buckets[c].All(), t.threshold)
      ensures m.id != n.id
    {
      EarlierDiffers(t, c, m, n);
    }
  }

  lemma GatheredNone(bs: seq<Bucket>, threshold: int)
    ensures Gathered(bs[..0], threshold) == []
  {
  }

  lemma GatheredNext(bs: seq<Bucket>, i: nat, threshold: int)
    requires i < |bs|
    ensures Gathered(bs[..i + 1], threshold) == Gathered(bs[..i], threshold) + Good(bs[i].All(), threshold)
  {
    assert bs[..i + 1][..i] == bs[..i];
  }

  lemma BucketIdsDistinct(t: Table, i: nat)
    requires Inv(t) && i < |t.buckets|
    ensures DistinctIds(t.buckets[i].All())
  {
    assert BucketOk(t.buckets[i], t.k, t.self);
  }

  lemma DistinctConcat(ns: seq<Node>, ms: seq<Node>)
    requires DistinctIds(ns) && DistinctIds(ms)
    requires forall m, n :: m in ns && n in ms ==> m.id != n.id
    ensures DistinctIds(ns + ms)
  {
    forall i, j | 0 <= i < j < |ns + ms|
      ensures (ns + ms)[i].id != (ns + ms)[j].id
    {
      if i < |ns| <= j {
        assert ns[i] in ns && ms[j - |ns|] in ms;
      }
    }
  }

  lemma EarlierDiffers(t: Table, c: nat, m: Node, n: Node)
    requires Inv(t) && c < |t.buckets|
    requires m in Gathered(t.buckets[..c], t.threshold) && n in Good(t.buckets[c].All(), t.threshold)
    ensures m.id != n.id
  {
    GatheredMembers(t.buckets[..c], t.threshold, m);
    GoodMembers(t.buckets[c].All(), t.threshold, n);
    var i :| 0 <= i < c && m in t.buckets[..c][i].All();
    var p :| 0 <= p < |t.buckets[i].All()| && t.buckets[i].All()[p] == m;
    var q :| 0 <= q < |t.buckets[c].All()| && t.buckets[c].All()[q] == n;
    if m.id == n.id {
      EachIdOnce(t, i, p, c, q);
    }
  }

  lemma GatheredDistinct(t: Table)
    requires Inv(t)
    ensures DistinctIds(Gathered(t.buckets, t.threshold))
  {
    GatheredPrefix(t, |t.buckets|);
    assert t.buckets[..|t.buckets|] == t.buckets;
  }

  // ----- when nobody is bad

  /** Active and cached nodes together. */
  function StoredCount(bs: seq<Bucket>): nat {
    if bs == [] then 0 else StoredCount(bs[..|bs| - 1]) + |bs[|bs| - 1].All()|
  }

  lemma {:induction false} AllAreGood(ns: seq<Node>, threshold: int)
    requires forall n :: n in ns ==> n.failures < threshold
    ensures Good(ns, threshold) == ns
  {
    if ns != [] {
      AllAreGood(ns[..|ns| - 1], threshold);
      assert ns == ns[..|ns| - 1] + [ns[|ns| - 1]];
    }
  }

  lemma {:induction false} AllAreGathered(bs: seq<Bucket>, threshold: int)
    requires forall i, n :: 0 <= i < |bs| && n in bs[i].All() ==> n.failures < threshold
    ensures |Gathered(bs, threshold)| == StoredCount(bs)
  {
    hide Good;
    if bs != [] {
      AllAreGathered(bs[..|bs| - 1], threshold);
      AllAreGood(bs[|bs| - 1].All(), threshold);
    }
  }

  lemma {:induction false} DistinctIdCount(ns: seq<Node>)
    requires DistinctIds(ns)
    ensures |IdSet(ns)| == |ns|
  {
    if ns != [] {
      var init, last := ns[..|ns| - 1], ns[|ns| - 1];
      DistinctIdCount(init);
      assert IdSet(ns) == IdSet(init) + {last.id} by {
        assert ns == init + [last];
      }
      assert last.id !in IdSet(init);
    }
  }

  /** With inserts below the failure threshold, the candidates of a lookup are everybody stored. */
  lemma NobodyIsMissed(self: NodeId, k: int, threshold: int, ops: seq<Op>)
    requires k >= 1
    requires forall n :: DoInsert(n) in ops ==> n.failures < threshold
    ensures Inv(New(self, k, threshold))
    ensures var t := Run(New(self, k, threshold), ops);
      && (forall x :: x in GoodIds(t) <==> Lookup(t, x).Some?)
      && |GoodIds(t)| == StoredCount(t.buckets)
  {
    NewIsValid(self, k, threshold);
    hide Inv, Run, Lookup, Gathered, StoredCount;
    var t := Run(New(self, k, threshold), ops);
    forall i, n | 0 <= i < |t.buckets| && n in t.buckets[i].All()
      ensures n.failures < threshold
    {
      var p :| 0 <= p < |t.buckets[i].All()| && t.buckets[i].All()[p] == n;
      NoBadNodes(self, k, threshold, ops, i, p);
    }
    AllAreGathered(t.buckets, threshold);
    GatheredDistinct(t);
    DistinctIdCount(Gathered(t.buckets, t.threshold));
    forall x
      ensures x in GoodIds(t) <==> Lookup(t, x).Some?
    {
      GoodIdsAreStored(t, x);
      if Lookup(t, x).Some? {
        var i, p := WhereStored(t, x);
        NoBadNodes(self, k, threshold, ops, i, p);
      }
    }
  }

  lemma WhereStored(t: Table, x: NodeId) returns (i: nat, p: nat)
    requires Inv(t) && Lookup(t, x).Some?
    ensures i < |t.buckets| && p < |t.buckets[i].All()| && t.buckets[i].All()[p] == Lookup(t, x).value
  {
    i := BucketFor(t.buckets, x);
    p := IndexOf(t.buckets[i].All(), x);
  }

  /** So a lookup, which returns `ids`, returns as many nodes as it can: `n`, or everybody active or cached. */
  lemma LookupIsFull(self: NodeId, k: int, threshold: int, ops: seq<Op>, target: NodeId, n: nat, ids: seq<NodeId>)
    requires k >= 1 && Inv(New(self, k, threshold))
    requires forall m :: DoInsert(m) in ops ==> m.failures < threshold
    requires var t := Run(New(self, k, threshold), ops);
      Ascending(target, ids) && IsNearest(target, GoodIds(t), Elements(ids), n)
    ensures |ids| == Min(n, StoredCount(Run(New(self, k, threshold), ops).buckets))
  {
    hide Inv, Run, GoodIds;
    NobodyIsMissed(self, k, threshold, ops);
    NearestSize(target, GoodIds(Run(New(self, k, threshold), ops)), ids, n);
  }
}
