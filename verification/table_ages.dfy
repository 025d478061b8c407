/**
 Which replacement is the oldest: over every run the replacement caches stay in the order in which their
 nodes were cached, so the one promoted on eviction is the one that has waited longest.
 */
module TableAges {

  import opened Common
  import opened NodeIds
  import opened Buckets
  import opened TableModel
  import opened TableTheorems
  import opened TableRuns
  import opened TableConservation

  /** The number of the operation that put `id` into a replacement cache last, or zero. */
  function CachedBy(start: Table, ops: seq<Op>, id: NodeId): (number: nat)
    requires Inv(start)
    ensures number <= |ops|
  {
    if ops == [] then 0
    else
      var before, op := ops[..|ops| - 1], ops[|ops| - 1];
      if op.DoInsert? && op.node.id == id && Insert(Run(start, before), op.node).result == Cached then |ops|
      else CachedBy(start, before, id)
  }

  predicate InOrder(cache: seq<Node>, age: NodeId -> int) {
    && (forall p :: 0 <= p < |cache| ==> age(cache[p].id) > 0)
    && (forall p, q :: 0 <= p < q < |cache| ==> age(cache[p].id) < age(cache[q].id))
  }

  predicate AllInOrder(t: Table, age: NodeId -> int) {
    forall i :: 0 <= i < |t.buckets| ==> InOrder(t.buckets[i].cache, age)
  }

  lemma PutInOrder(t: Table, i: nat, b: Bucket, age: NodeId -> int)
    requires i < |t.buckets| && AllInOrder(t, age) && InOrder(b.cache, age)
    ensures AllInOrder(Put(t, i, b), age)
  {
  }

  lemma SplitInOrder(t: Table, i: nat, age: NodeId -> int)
    requires i < |t.buckets| && t.buckets[i].depth < ID_BITS && t.buckets[i].cache == [] && AllInOrder(t, age)
    ensures AllInOrder(SplitAt(t, i), age)
  {
    hide InOrder;
    var cs := SplitAt(t, i).buckets;
    assert cs[i].cache == [] && cs[i + 1].cache == [];
    forall j | 0 <= j < |cs|
      ensures InOrder(cs[j].cache, age)
    {
      if j < i {
        assert cs[j] == t.buckets[j];
      } else if j > i + 1 {
        assert cs[j] == t.buckets[j - 1];
      } else {
        assert cs[j].cache == t.buckets[i].cache;
      }
    }
  }

  lemma PlaceInOrder(b: Bucket, n: Node, k: int, age: NodeId -> int)
    requires InOrder(b.cache, age)
    requires PlaceIn(b, n, k).1 == Cached ==> age(n.id) > 0 && forall x :: x != n.id ==> age(x) < age(n.id)
    ensures InOrder(PlaceIn(b, n, k).0.cache, age)
  {
  }

  lemma {:induction false} InsertInOrder(t: Table, n: Node, age: NodeId -> int)
    requires Inv(t) && AllInOrder(t, age)
    requires Insert(t, n).result == Cached ==> age(n.id) > 0 && forall x :: x != n.id ==> age(x) < age(n.id)
    ensures AllInOrder(Insert(t, n).table, age)
    decreases ID_BITS - OwnDepth(t)
  {
    hide AllInOrder, SplitAt, PlaceIn;
    var i := BucketFor(t.buckets, n.id);
    if NeedsSplit(t, n) {
      SplitIsSafe(t, n);
      SplitInOrder(t, i, age);
      InsertInOrder(SplitAt(t, i), n, age);
    } else {
      CacheInOrder(t, i, age);
      PlaceInOrder(t.buckets[i], n, t.k, age);
      PutInOrder(t, i, PlaceIn(t.buckets[i], n, t.k).0, age);
    }
  }

  lemma CacheInOrder(t: Table, i: nat, age: NodeId -> int)
    requires i < |t.buckets| && AllInOrder(t, age)
    ensures InOrder(t.buckets[i].cache, age)
  {
  }

  lemma FailInOrder(b: Bucket, id: NodeId, threshold: int, age: NodeId -> int)
    requires InOrder(b.cache, age)
    ensures InOrder(FailIn(b, id, threshold).cache, age)
  {
  }

  lemma SucceedInOrder(b: Bucket, id: NodeId, now: int)
    ensures SucceedIn(b, id, now).cache == b.cache
  {
  }

  lemma ApplyInOrder(t: Table, op: Op, age: NodeId -> int)
    requires Inv(t) && AllInOrder(t, age)
    requires op.DoInsert? && Insert(t, op.node).result == Cached ==>
               age(op.node.id) > 0 && forall x :: x != op.node.id ==> age(x) < age(op.node.id)
    ensures AllInOrder(Apply(t, op), age)
  {
    hide AllInOrder, InOrder, Insert, FailIn, SucceedIn;
    match op
    case DoInsert(n) =>
      InsertInOrder(t, n, age);
    case DoSuccess(id, now) =>
      var i := BucketFor(t.buckets, id);
      CacheInOrder(t, i, age);
      SucceedInOrder(t.buckets[i], id, now);
      PutInOrder(t, i, SucceedIn(t.buckets[i], id, now), age);
    case DoFailure(id) =>
      var i := BucketFor(t.buckets, id);
      CacheInOrder(t, i, age);
      FailInOrder(t.buckets[i], id, t.threshold, age);
      PutInOrder(t, i, FailIn(t.buckets[i], id, t.threshold), age);
  }

  lemma {:induction false} RunSnoc(t: Table, ops: seq<Op>)
    requires Inv(t) && ops != []
    ensures Run(t, ops) == Apply(Run(t, ops[..|ops| - 1]), ops[|ops| - 1])
    decreases |ops|
  {
    hide Inv, Apply;
    ApplyKeepsInv(t, ops[0]);
    if |ops| > 1 {
      RunSnoc(Apply(t, ops[0]), ops[1..]);
      assert ops[1..][..|ops| - 2] == ops[..|ops| - 1][1..];
      assert ops[..|ops| - 1][0] == ops[0];
    } else {
      assert ops[..0] == [] && ops[1..] == [];
    }
  }

  /** What is cached now was stored nowhere before. */
  lemma CachedWasAbsent(t: Table, n: Node, i: nat, p: nat)
    requires Inv(t) && Insert(t, n).result == Cached && i < |t.buckets| && p < |t.buckets[i].cache|
    ensures t.buckets[i].cache[p].id != n.id
  {
    hide Inv, Insert, Lookup;
    var b := t.buckets[i];
    assert b.All()[|b.nodes| + p] == b.cache[p];
    StoredIsFound(t, i, |b.nodes| + p);
    InsertRefinesMap(t, n, n.id);
  }

  /** Ages that agree on what is cached order the caches alike. */
  lemma SameOrder(t: Table, n: Node, age: NodeId -> int, later: NodeId -> int)
    requires Inv(t) && Insert(t, n).result == Cached && AllInOrder(t, age)
    requires forall x :: x != n.id ==> later(x) == age(x)
    ensures AllInOrder(t, later)
  {
    hide Inv, Insert;
    forall i, p | 0 <= i < |t.buckets| && 0 <= p < |t.buckets[i].cache|
      ensures later(t.buckets[i].cache[p].id) == age(t.buckets[i].cache[p].id)
    {
      CachedWasAbsent(t, n, i, p);
    }
    forall i | 0 <= i < |t.buckets|
      ensures InOrder(t.buckets[i].cache, later)
    {
      assert InOrder(t.buckets[i].cache, age);
    }
  }

  /** What caches makes its node the youngest, and nothing else changes an age. */
  lemma AgesGrow(start: Table, ops: seq<Op>)
    requires Inv(start) && ops != []
    ensures var before, op := ops[..|ops| - 1], ops[|ops| - 1];
      if op.DoInsert? && Insert(Run(start, before), op.node).result == Cached then
        && CachedBy(start, ops, op.node.id) > 0
        && forall x :: x != op.node.id ==>
             CachedBy(start, ops, x) == CachedBy(start, before, x) < CachedBy(start, ops, op.node.id)
      else
        forall x :: CachedBy(start, ops, x) == CachedBy(start, before, x)
  {
    hide Inv, Insert, Run;
  }

  /** After every run each cache is in the order in which its nodes were cached. */
  lemma {:induction false} CachesAreInOrder(self: NodeId, k: int, threshold: int, ops: seq<Op>)
    requires k >= 1
    ensures Inv(New(self, k, threshold))
    ensures var start := New(self, k, threshold);
      AllInOrder(Run(start, ops), (id: NodeId) => CachedBy(start, ops, id))
  {
    NewIsValid(self, k, threshold);
    hide Inv, Insert, AllInOrder, Apply;
    var start := New(self, k, threshold);
    var later := (id: NodeId) => CachedBy(start, ops, id);
    if ops == [] {
      EmptyInOrder(self, k, threshold, later);
    } else {
      var before, op := ops[..|ops| - 1], ops[|ops| - 1];
      var age := (id: NodeId) => CachedBy(start, before, id);
      CachesAreInOrder(self, k, threshold, before);
      RunSnoc(start, ops);
      var t := Run(start, before);
      AgesGrow(start, ops);
      hide CachedBy, Run;
      if op.DoInsert? && Insert(t, op.node).result == Cached {
        SameOrder(t, op.node, age, later);
      } else {
        SameAges(t, age, later);
      }
      ApplyInOrder(t, op, later);
    }
  }

  lemma SameAges(t: Table, age: NodeId -> int, later: NodeId -> int)
    requires AllInOrder(t, age) && forall x :: later(x) == age(x)
    ensures AllInOrder(t, later)
  {
    forall i | 0 <= i < |t.buckets|
      ensures InOrder(t.buckets[i].cache, later)
    {
      assert InOrder(t.buckets[i].cache, age);
    }
  }

  lemma EmptyInOrder(self: NodeId, k: int, threshold: int, age: NodeId -> int)
    ensures AllInOrder(New(self, k, threshold), age)
  {
  }

  /**
   In every reachable table an eviction with replacements waiting promotes the one that was cached longest
   ago: every other one in that cache was cached by a later operation.
   */
  lemma LongestWaitingIsPromoted(self: NodeId, k: int, threshold: int, ops: seq<Op>, id: NodeId)
    requires k >= 1
    ensures Inv(New(self, k, threshold))
    ensures var start := New(self, k, threshold); var t := Run(start, ops);
      var cache := t.buckets[BucketFor(t.buckets, id)].cache;
      && |MarkFailure(t, id).buckets| > 0
      && (Promotes(t, id) ==>
            && !IsActive(t, cache[0].id) && IsActive(MarkFailure(t, id), cache[0].id)
            && 0 < CachedBy(start, ops, cache[0].id)
            && forall p :: 0 < p < |cache| ==> CachedBy(start, ops, cache[0].id) < CachedBy(start, ops, cache[p].id))
  {
    NewIsValid(self, k, threshold);
    var start := New(self, k, threshold);
    var t := Run(start, ops);
    CachesAreInOrder(self, k, threshold, ops);
    OldestIsPromoted(t, id);
    CacheInOrder(t, BucketFor(t.buckets, id), (x: NodeId) => CachedBy(start, ops, x));
    hide Inv, CachedBy, Run, MarkFailure, IsActive;
  }
}
