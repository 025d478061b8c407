/**
 What the routing table conserves: the number of active nodes, the order of replacements, and every
 property of nodes that the operations' own edits respect.
 */
module TableConservation {

  import opened Common
  import opened NodeIds
  import opened Buckets
  import opened TableModel
  import opened TableTheorems
  import opened TableRuns

  // ----- the number of active nodes

  lemma {:induction false} NodeCountPut(bs: seq<Bucket>, i: nat, c: Bucket)
    requires i < |bs|
    ensures NodeCount(bs[i := c]) == NodeCount(bs) - |bs[i].nodes| + |c.nodes|
  {
    var init := bs[..|bs| - 1];
    if i == |bs| - 1 {
      assert bs[i := c][..|bs| - 1] == init;
    } else {
      NodeCountPut(init, i, c);
      assert bs[i := c][..|bs| - 1] == init[i := c];
    }
  }

  lemma {:induction false} NodeCountReplace(bs: seq<Bucket>, i: nat, left: Bucket, right: Bucket)
    requires i < |bs|
    requires |left.nodes| + |right.nodes| == |bs[i].nodes|
    ensures NodeCount(Replace(bs, i, left, right)) == NodeCount(bs)
  {
    hide NodeCount;
    var init, cs := bs[..|bs| - 1], Replace(bs, i, left, right);
    CountLast(bs);
    CountLast(cs);
    if i == |bs| - 1 {
      assert cs[..|cs| - 1] == init + [left];
      CountLast(init + [left]);
      assert (init + [left])[..|init|] == init;
    } else {
      NodeCountReplace(init, i, left, right);
      assert cs[..|cs| - 1] == Replace(init, i, left, right);
    }
  }

  lemma CountLast(bs: seq<Bucket>)
    requires bs != []
    ensures NodeCount(bs) == NodeCount(bs[..|bs| - 1]) + |bs[|bs| - 1].nodes|
  {
  }

  lemma SplitCounts(t: Table, i: nat)
    requires i < |t.buckets| && t.buckets[i].depth < ID_BITS
    ensures NodeCount(SplitAt(t, i).buckets) == NodeCount(t.buckets)
  {
    var (left, right) := Split(t.buckets[i]);
    SelectCount(t.buckets[i].nodes, Bucket(left.min, left.max, left.depth, [], []));
    NodeCountReplace(t.buckets, i, left, right);
  }

  lemma PlaceInCounts(b: Bucket, n: Node, k: int)
    ensures var (c, result) := PlaceIn(b, n, k);
      |c.nodes| == |b.nodes| + if result == Inserted then 1 else 0
  {
  }

  /** Only an "inserted" node makes the table grow. */
  lemma {:induction false} InsertCounts(t: Table, n: Node)
    requires Inv(t)
    ensures var o := Insert(t, n);
      NodeCount(o.table.buckets) == NodeCount(t.buckets) + if o.result == Inserted then 1 else 0
    decreases ID_BITS - OwnDepth(t)
  {
    var i := BucketFor(t.buckets, n.id);
    if NeedsSplit(t, n) {
      SplitIsSafe(t, n);
      SplitCounts(t, i);
      InsertCounts(SplitAt(t, i), n);
    } else {
      PlaceInCounts(t.buckets[i], n, t.k);
      NodeCountPut(t.buckets, i, PlaceIn(t.buckets[i], n, t.k).0);
    }
  }

  /** The next failure of `id` makes an active node bad. */
  predicate Evicts(b: Bucket, id: NodeId, threshold: int) {
    var p := IndexOf(b.nodes, id);
    p < |b.nodes| && b.nodes[p].failures + 1 >= threshold
  }

  lemma FailInCounts(b: Bucket, id: NodeId, threshold: int)
    ensures |FailIn(b, id, threshold).nodes| ==
            |b.nodes| - if Evicts(b, id, threshold) && b.cache == [] then 1 else 0
  {
  }

  /** A failure shrinks the table exactly when it evicts and no replacement is waiting. */
  lemma MarkFailureCounts(t: Table, id: NodeId)
    requires Inv(t)
    ensures var b := t.buckets[BucketFor(t.buckets, id)];
      NodeCount(MarkFailure(t, id).buckets) ==
      NodeCount(t.buckets) - if Evicts(b, id, t.threshold) && b.cache == [] then 1 else 0
  {
    var i := BucketFor(t.buckets, id);
    FailInCounts(t.buckets[i], id, t.threshold);
    NodeCountPut(t.buckets, i, FailIn(t.buckets[i], id, t.threshold));
  }

  /** The next failure of `id` evicts it, and a replacement is waiting. */
  predicate Promotes(t: Table, id: NodeId)
    requires |t.buckets| > 0
  {
    var b := t.buckets[BucketFor(t.buckets, id)];
    Evicts(b, id, t.threshold) && b.cache != []
  }

  /** The replacement promoted on eviction is the one at the front of the cache ... */
  lemma OldestIsPromoted(t: Table, id: NodeId)
    requires Inv(t)
    ensures |MarkFailure(t, id).buckets| > 0
    ensures Promotes(t, id) ==>
              var oldest := t.buckets[BucketFor(t.buckets, id)].cache[0];
              && !IsActive(t, oldest.id) && IsActive(MarkFailure(t, id), oldest.id)
              && Lookup(MarkFailure(t, id), oldest.id) == Some(oldest) && Lookup(MarkFailure(t, id), id) == None
  {
    HasBuckets(t);
    EvictedIsGone(t, id);
    hide Inv, Lookup, MarkFailure, IsActive, Evicts;
    if Promotes(t, id) {
      OldestIsFound(t, id);
      OldestActive(t, id);
      MarkFailureRefinesMap(t, id, t.buckets[BucketFor(t.buckets, id)].cache[0].id);
    }
  }

  lemma EvictedIsGone(t: Table, id: NodeId)
    requires Inv(t)
    ensures |t.buckets| > 0 && |MarkFailure(t, id).buckets| > 0
    ensures Promotes(t, id) ==> Lookup(MarkFailure(t, id), id) == None
  {
    HasBuckets(t);
    hide Inv, Lookup, FailIn;
    MarkFailureRefinesMap(t, id, id);
    if Promotes(t, id) {
      var i := BucketFor(t.buckets, id);
      var p := IndexOf(t.buckets[i].nodes, id);
      assert t.buckets[i].All()[p] == t.buckets[i].nodes[p];
      StoredIsFound(t, i, p);
    }
  }

  lemma OldestIsFound(t: Table, id: NodeId)
    requires Inv(t)
    ensures |t.buckets| > 0
    ensures Promotes(t, id) ==>
              var i := BucketFor(t.buckets, id); var oldest := t.buckets[i].cache[0];
              && BucketFor(t.buckets, oldest.id) == i && Lookup(t, oldest.id) == Some(oldest)
  {
    HasBuckets(t);
    hide Inv, Lookup, FailIn, Evicts;
    if Promotes(t, id) {
      var i := BucketFor(t.buckets, id);
      var b := t.buckets[i];
      assert b.All()[|b.nodes|] == b.cache[0];
      StoredIsFound(t, i, |b.nodes|);
    }
  }

  /** ... it leaves the cache and goes to the back of the active nodes ... */
  lemma PromotedIsLast(t: Table, id: NodeId)
    requires |t.buckets| > 0 && Promotes(t, id)
    ensures var i := BucketFor(t.buckets, id); var b, c := t.buckets[i], MarkFailure(t, id).buckets[i];
      && |c.nodes| == |b.nodes| && c.nodes[|c.nodes| - 1] == b.cache[0] && c.cache == b.cache[1..]
  {
  }

  lemma OldestActive(t: Table, id: NodeId)
    requires Inv(t)
    requires var b := t.buckets[BucketFor(t.buckets, id)];
      Evicts(b, id, t.threshold) && b.cache != [] && BucketFor(t.buckets, b.cache[0].id) == BucketFor(t.buckets, id)
    ensures var oldest := t.buckets[BucketFor(t.buckets, id)].cache[0];
      && oldest.id != id && |MarkFailure(t, id).buckets| > 0
      && !IsActive(t, oldest.id) && IsActive(MarkFailure(t, id), oldest.id)
  {
    var i := BucketFor(t.buckets, id);
    var b := t.buckets[i];
    var oldest, c := b.cache[0], FailIn(b, id, t.threshold);
    assert BucketOk(b, t.k, t.self);
    hide Inv, BucketOk;
    assert b.All()[|b.nodes|] == oldest;
    BucketFromPut(t.buckets, i, c, oldest.id, 0);
    FindConcat(b.nodes, b.cache, oldest.id);
    assert c.nodes[|c.nodes| - 1].id == oldest.id;
  }

  /** ... and a new node, cached or active, is always put at the back. */
  lemma {:induction false} CachedIsYoungest(t: Table, n: Node)
    requires Inv(t)
    ensures |Insert(t, n).table.buckets| > 0
    ensures Insert(t, n).result == Inserted ==>
              var nodes := Insert(t, n).table.buckets[BucketFor(Insert(t, n).table.buckets, n.id)].nodes;
              nodes != [] && nodes[|nodes| - 1] == n
    ensures Insert(t, n).result == Cached ==>
              var cache := Insert(t, n).table.buckets[BucketFor(Insert(t, n).table.buckets, n.id)].cache;
              cache != [] && cache[|cache| - 1] == n
    decreases ID_BITS - OwnDepth(t)
  {
    hide SplitAt;
    if NeedsSplit(t, n) {
      SplitIsSafe(t, n);
      CachedIsYoungest(SplitAt(t, BucketFor(t.buckets, n.id)), n);
    } else {
      CachedHere(t, n);
    }
  }

  lemma CachedHere(t: Table, n: Node)
    requires Inv(t) && !NeedsSplit(t, n)
    ensures |Insert(t, n).table.buckets| > 0
    ensures Insert(t, n).result == Inserted ==>
              var nodes := Insert(t, n).table.buckets[BucketFor(Insert(t, n).table.buckets, n.id)].nodes;
              nodes != [] && nodes[|nodes| - 1] == n
    ensures Insert(t, n).result == Cached ==>
              var cache := Insert(t, n).table.buckets[BucketFor(Insert(t, n).table.buckets, n.id)].cache;
              cache != [] && cache[|cache| - 1] == n
  {
    hide Inv, IndexOf;
    var i := BucketFor(t.buckets, n.id);
    BucketFromPut(t.buckets, i, PlaceIn(t.buckets[i], n, t.k).0, n.id, 0);
  }

  // ----- who stays in place

  predicate SameIds(ns: seq<Node>, ms: seq<Node>) {
    |ns| == |ms| && forall p :: 0 <= p < |ns| ==> ns[p].id == ms[p].id
  }

  /** The same buckets with the same identifiers in the same places. */
  predicate SamePlaces(t: Table, u: Table) {
    && |t.buckets| == |u.buckets|
    && forall i :: 0 <= i < |t.buckets| ==>
         && SameRange(t.buckets[i], u.buckets[i])
         && SameIds(t.buckets[i].nodes, u.buckets[i].nodes) && SameIds(t.buckets[i].cache, u.buckets[i].cache)
  }

  lemma OneBucketInPlace(t: Table, i: nat, c: Bucket)
    requires i < |t.buckets| && SameRange(t.buckets[i], c)
    requires SameIds(t.buckets[i].nodes, c.nodes) && SameIds(t.buckets[i].cache, c.cache)
    ensures SamePlaces(t, Put(t, i, c))
  {
  }

  /** A node that is seen again is refreshed where it is: nobody moves and nothing is split. */
  lemma RefreshedInPlace(t: Table, n: Node)
    requires Inv(t) && Insert(t, n).result == Updated
    ensures SamePlaces(t, Insert(t, n).table)
  {
    if NeedsSplit(t, n) {
      NewcomerSplits(t, n);
    } else {
      var i := BucketFor(t.buckets, n.id);
      RefreshInBucket(t.buckets[i], n, t.k);
      hide Inv, PlaceIn, SamePlaces, SameRange;
      OneBucketInPlace(t, i, PlaceIn(t.buckets[i], n, t.k).0);
    }
  }

  lemma RefreshInBucket(b: Bucket, n: Node, k: int)
    ensures var (c, result) := PlaceIn(b, n, k);
      result == Updated ==> SameRange(b, c) && SameIds(b.nodes, c.nodes) && SameIds(b.cache, c.cache)
  {
  }

  /** Only a node that is not stored makes a bucket split. */
  lemma NewcomerSplits(t: Table, n: Node)
    requires Inv(t) && NeedsSplit(t, n)
    ensures Insert(t, n).result != Updated
  {
    var i := BucketFor(t.buckets, n.id);
    SplitIsSafe(t, n);
    hide Insert, Inv;
    assert t.buckets[i].All() == t.buckets[i].nodes;
    assert Lookup(t, n.id) == None;
    InsertRefinesMap(t, n, n.id);
  }

  /** So is an active node that answers. */
  lemma SuccessInPlace(t: Table, id: NodeId, now: int)
    requires |t.buckets| > 0
    ensures SamePlaces(t, MarkSuccess(t, id, now))
  {
  }

  /** A failure that does not reach the threshold moves nobody. */
  lemma FailureInPlace(t: Table, id: NodeId)
    requires Inv(t) && Lookup(t, id).Some? && Lookup(t, id).value.failures + 1 < t.threshold
    ensures SamePlaces(t, MarkFailure(t, id))
  {
    var i := BucketFor(t.buckets, id);
    assert BucketOk(t.buckets[i], t.k, t.self);
    hide Inv, BucketOk, Entry, FailIn, SamePlaces;
    FailsInPlace(t.buckets[i], id, t.threshold);
    OneBucketInPlace(t, i, FailIn(t.buckets[i], id, t.threshold));
  }

  lemma FailsInPlace(b: Bucket, id: NodeId, threshold: int)
    requires DistinctIds(b.All()) && (Entry(b, id).Some? ==> Entry(b, id).value.failures + 1 < threshold)
    ensures var c := FailIn(b, id, threshold);
      SameRange(b, c) && SameIds(b.nodes, c.nodes) && SameIds(b.cache, c.cache)
  {
    var p, q := IndexOf(b.nodes, id), LastIndexOf(b.cache, id);
    if p < |b.nodes| {
      assert b.All()[p] == b.nodes[p];
      FindIs(b.All(), p);
    } else if q < |b.cache| {
      assert b.All()[|b.nodes| + q] == b.cache[q];
      FindIs(b.All(), |b.nodes| + q);
    }
    hide Entry, Find, EvictAt;
  }

  // ----- properties of nodes that every run keeps

  ghost predicate AllStored(t: Table, p: Node -> bool)
    requires |t.buckets| > 0
  {
    forall x: NodeId :: Lookup(t, x).Some? ==> p(Lookup(t, x).value)
  }

  /** The operation's own edits of a node respect `p`. */
  ghost predicate Respects(op: Op, threshold: int, p: Node -> bool) {
    match op
    case DoInsert(n) => p(n) && p(Node(n.id, n.addr, n.lastSeen, 0))
    case DoSuccess(id, now) => forall m: Node :: p(m) ==> p(m.(lastSeen := now, failures := 0))
    case DoFailure(id) =>
      forall m: Node :: p(m) && m.failures + 1 < threshold ==> p(Node(m.id, m.addr, m.lastSeen, m.failures + 1))
  }

  lemma ApplyKeepsProperty(t: Table, op: Op, p: Node -> bool)
    requires Inv(t) && AllStored(t, p) && Respects(op, t.threshold, p)
    ensures Inv(Apply(t, op)) && AllStored(Apply(t, op), p)
  {
    hide Insert, MarkSuccess, MarkFailure, Respects;
    ApplyKeepsInv(t, op);
    forall x: NodeId | Lookup(Apply(t, op), x).Some?
      ensures p(Lookup(Apply(t, op), x).value)
    {
      EntryKeepsProperty(t, op, p, x);
    }
  }

  lemma EntryKeepsProperty(t: Table, op: Op, p: Node -> bool, x: NodeId)
    requires Inv(t) && AllStored(t, p) && Respects(op, t.threshold, p)
    ensures Inv(Apply(t, op))
    ensures Lookup(Apply(t, op), x).Some? ==> p(Lookup(Apply(t, op), x).value)
  {
    ApplyKeepsInv(t, op);
    LookupHasId(t, x);
    hide Inv, Insert, MarkSuccess, MarkFailure, Lookup;
    match op
    case DoInsert(n) => InsertRefinesMap(t, n, x);
    case DoSuccess(id, now) => MarkSuccessRefinesMap(t, id, now, x);
    case DoFailure(id) => MarkFailureRefinesMap(t, id, x);
  }

  lemma LookupHasId(t: Table, x: NodeId)
    requires |t.buckets| > 0
    ensures Lookup(t, x).Some? ==> Lookup(t, x).value.id == x
  {
  }

  lemma {:induction false} RunKeepsProperty(t: Table, ops: seq<Op>, p: Node -> bool)
    requires Inv(t) && AllStored(t, p)
    requires forall op :: op in ops ==> Respects(op, t.threshold, p)
    ensures AllStored(Run(t, ops), p)
    decreases |ops|
  {
    if ops != [] {
      ApplyKeepsInv(t, ops[0]);
      ApplyKeepsProperty(t, ops[0], p);
      RunKeepsProperty(Apply(t, ops[0]), ops[1..], p);
    }
  }

  /** When inserted nodes start below the failure threshold, no bad node is ever stored. */
  lemma NoBadNodes(self: NodeId, k: int, threshold: int, ops: seq<Op>, i: nat, p: nat)
    requires k >= 1
    requires forall n :: DoInsert(n) in ops ==> n.failures < threshold
    ensures Inv(New(self, k, threshold))
    ensures var t := Run(New(self, k, threshold), ops);
      i < |t.buckets| && p < |t.buckets[i].All()| ==> t.buckets[i].All()[p].failures < threshold
  {
    NewIsValid(self, k, threshold);
    var good := (n: Node) => n.failures < threshold;
    var t := Run(New(self, k, threshold), ops);
    forall op | op in ops
      ensures Respects(op, threshold, good)
    {
      match op
      case DoInsert(n) => assert good(n);
      case DoSuccess(_, _) =>
      case DoFailure(_) =>
    }
    RunKeepsProperty(New(self, k, threshold), ops, good);
    if i < |t.buckets| && p < |t.buckets[i].All()| {
      StoredIsFound(t, i, p);
    }
  }
}
