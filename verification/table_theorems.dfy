/**
 What the routing table promises: every operation keeps the invariant, the table behaves like a
 plain map from identifier to node whatever splits happen on the way, and the buckets form the
 Kademlia path to our own identifier.
 */
module TableTheorems {

  import opened Common
  import opened NodeIds
  import opened Buckets
  import opened TableModel

  // ----- lookup in one list of nodes

  function Find(ns: seq<Node>, id: NodeId): Option<Node> {
    var p := IndexOf(ns, id);
    if p < |ns| then Some(ns[p]) else None
  }

  lemma FindIs(ns: seq<Node>, p: nat)
    requires DistinctIds(ns) && p < |ns|
    ensures Find(ns, ns[p].id) == Some(ns[p])
  {
  }

  lemma FindUpdate(ns: seq<Node>, p: nat, m: Node, x: NodeId)
    requires DistinctIds(ns) && p < |ns| && m.id == ns[p].id
    ensures DistinctIds(ns[p := m])
    ensures Find(ns[p := m], x) == if x == m.id then Some(m) else Find(ns, x)
  {
    var us, q, r := ns[p := m], IndexOf(ns, x), IndexOf(ns[p := m], x);
    if x == m.id {
      FindIs(us, p);
    } else {
      assert q < |ns| ==> us[q].id == x;
      assert r < |us| ==> ns[r].id == x;
    }
  }

  lemma {:induction false} FindSnoc(ns: seq<Node>, last: Node, x: NodeId)
    ensures Find(ns + [last], x) ==
            if Find(ns, x).Some? then Find(ns, x) else if last.id == x then Some(last) else None
  {
    if ns != [] {
      assert (ns + [last])[1..] == ns[1..] + [last];
      FindSnoc(ns[1..], last, x);
    }
  }

  lemma FindWithout(ns: seq<Node>, p: nat, x: NodeId)
    requires DistinctIds(ns) && p < |ns|
    ensures DistinctIds(Without(ns, p))
    ensures Find(Without(ns, p), x) == if x == ns[p].id then None else Find(ns, x)
  {
    var us, q, r := Without(ns, p), IndexOf(ns, x), IndexOf(Without(ns, p), x);
    assert forall j :: 0 <= j < |us| ==> us[j] == ns[if j < p then j else j + 1];
    assert r < |us| ==> ns[if r < p then r else r + 1].id == x;
    assert q < |ns| && q != p ==> us[if q < p then q else q - 1].id == x;
  }

  lemma {:induction false} FindConcat(ns: seq<Node>, ms: seq<Node>, x: NodeId)
    ensures IndexOf(ns + ms, x) ==
            if IndexOf(ns, x) < |ns| then IndexOf(ns, x) else |ns| + IndexOf(ms, x)
  {
    if ns == [] {
      assert ns + ms == ms;
    } else {
      assert (ns + ms)[1..] == ns[1..] + ms;
      FindConcat(ns[1..], ms, x);
    }
  }

  lemma {:induction false} FindSelect(ns: seq<Node>, b: Bucket, inside: bool, x: NodeId)
    requires b.Contains(x) == inside
    ensures Find(Select(ns, b, inside), x) == Find(ns, x)
  {
    if ns != [] {
      var init, last := ns[..|ns| - 1], ns[|ns| - 1];
      assert ns == init + [last];
      FindSelect(init, b, inside, x);
      FindSnoc(init, last, x);
      FindSnoc(Select(init, b, inside), last, x);
      assert Select(init, b, inside) + [] == Select(init, b, inside);
    }
  }

  // ----- one bucket

  /** The identifiers of a bucket, the record of each: `None` where it holds nothing. */
  function Entry(b: Bucket, x: NodeId): Option<Node> {
    Find(b.All(), x)
  }

  lemma UpdateEntry(b: Bucket, c: Bucket, k: int, p: nat, m: Node, x: NodeId)
    requires ContentOk(b, k) && SameRange(c, b) && |c.nodes| == |b.nodes|
    requires p < |b.All()| && b.All()[p].id == m.id && c.All() == b.All()[p := m]
    ensures ContentOk(c, k) && (c.cache == [] <==> b.cache == [])
    ensures Entry(c, x) == if x == m.id then Some(m) else Entry(b, x)
  {
    FindUpdate(b.All(), p, m, x);
    assert |c.All()| == |b.All()|;
    forall n | n in c.All()
      ensures c.Contains(n.id)
    {
      assert b.All()[p] in b.All();
      assert n == m || n in b.All();
    }
  }

  lemma AppendEntry(b: Bucket, c: Bucket, k: int, n: Node, x: NodeId)
    requires ContentOk(b, k) && SameRange(c, b) && c.All() == b.All() + [n]
    requires |c.nodes| <= k && |c.cache| <= k && (c.cache != [] ==> c.IsFull(k))
    requires b.Contains(n.id) && Entry(b, n.id) == None
    ensures ContentOk(c, k)
    ensures Entry(c, x) == if x == n.id then Some(n) else Entry(b, x)
  {
    FindSnoc(b.All(), n, x);
    forall m | m in c.All()
      ensures c.Contains(m.id)
    {
      assert m == n || m in b.All();
    }
  }

  /** What placing a node does to the entry at `x`. */
  predicate EntryEffect(before: Option<Node>, after: Option<Node>, result: InsertResult, n: Node, x: NodeId) {
    && (x == n.id ==> (result == Updated <==> before.Some?))
    && after ==
       if x != n.id then before
       else match result
         case Updated => Some(Node(x, n.addr, n.lastSeen, 0))
         case Inserted => Some(n)
         case Cached => Some(n)
         case Dropped => None
  }

  lemma PlaceInNodes(b: Bucket, n: Node, k: int, x: NodeId)
    requires ContentOk(b, k) && b.Contains(n.id)
    requires IndexOf(b.nodes, n.id) < |b.nodes| || !b.IsFull(k)
    ensures var (c, result) := PlaceIn(b, n, k);
      && ContentOk(c, k) && SameRange(c, b)
      && EntryEffect(Entry(b, x), Entry(c, x), result, n, x)
      && (c.cache == [] <==> b.cache == [])
  {
    var p := IndexOf(b.nodes, n.id);
    var (c, result) := PlaceIn(b, n, k);
    FindConcat(b.nodes, b.cache, n.id);
    if p < |b.nodes| {
      var m := Refresh(b.nodes[p], n);
      assert c.All() == b.All()[p := m];
      UpdateEntry(b, c, k, p, m, x);
    } else {
      assert c.All() == b.All() + [n];
      AppendEntry(b, c, k, n, x);
    }
  }

  lemma PlaceInCache(b: Bucket, n: Node, k: int, x: NodeId)
    requires ContentOk(b, k) && b.Contains(n.id)
    requires IndexOf(b.nodes, n.id) == |b.nodes| && b.IsFull(k)
    ensures var (c, result) := PlaceIn(b, n, k);
      && ContentOk(c, k) && SameRange(c, b)
      && EntryEffect(Entry(b, x), Entry(c, x), result, n, x)
  {
    var q := IndexOf(b.cache, n.id);
    var (c, result) := PlaceIn(b, n, k);
    FindConcat(b.nodes, b.cache, n.id);
    if q < |b.cache| {
      var m := Refresh(b.cache[q], n);
      assert c.All() == b.All()[|b.nodes| + q := m];
      UpdateEntry(b, c, k, |b.nodes| + q, m, x);
    } else if |b.cache| < k {
      assert c.All() == b.All() + [n];
      AppendEntry(b, c, k, n, x);
    }
  }

  lemma PlaceKeepsBucket(b: Bucket, n: Node, k: int, self: NodeId, x: NodeId)
    requires BucketOk(b, k, self) && b.Contains(n.id)
    requires b.Contains(self) ==> IndexOf(b.nodes, n.id) < |b.nodes| || !b.IsFull(k)
    ensures var (c, result) := PlaceIn(b, n, k);
      BucketOk(c, k, self) && SameRange(c, b) && EntryEffect(Entry(b, x), Entry(c, x), result, n, x)
  {
    if IndexOf(b.nodes, n.id) < |b.nodes| || !b.IsFull(k) {
      PlaceInNodes(b, n, k, x);
    } else {
      PlaceInCache(b, n, k, x);
    }
  }

  // ----- the table as a map

  /** The node stored under `id`, active or cached. */
  function Lookup(t: Table, id: NodeId): Option<Node>
    requires |t.buckets| > 0
  {
    Entry(t.buckets[BucketFor(t.buckets, id)], id)
  }

  lemma LookupPut(t: Table, i: nat, c: Bucket, x: NodeId)
    requires |t.buckets| > 0 && i < |t.buckets| && SameRange(c, t.buckets[i])
    ensures Lookup(Put(t, i, c), x) == if BucketFor(t.buckets, x) == i then Entry(c, x) else Lookup(t, x)
  {
    BucketFromPut(t.buckets, i, c, x, 0);
  }

  lemma SplitHalf(b: Bucket, x: NodeId)
    requires Dyadic(b) && b.depth < ID_BITS && b.cache == [] && b.Contains(x)
    ensures var (left, right) := Split(b);
      Entry(if left.Contains(x) then left else right, x) == Entry(b, x)
  {
    var (left, right) := Split(b);
    var half := Bucket(left.min, left.max, left.depth, [], []);
    FindSelect(b.nodes, half, left.Contains(x), x);
    assert b.All() == b.nodes && left.All() == left.nodes && right.All() == right.nodes;
  }

  /** Where the search leads after bucket `i` has become two. */
  lemma PlaceAfterSplit(bs: seq<Bucket>, cs: seq<Bucket>, i: nat, x: NodeId)
    requires Partition(bs) && Partition(cs) && i < |bs| && |cs| == |bs| + 1 && cs == Replace(bs, i, cs[i], cs[i + 1])
    requires bs[i].Contains(x) ==> cs[i].Contains(x) || cs[i + 1].Contains(x)
    ensures var j := BucketFor(bs, x);
      BucketFor(cs, x) == if j < i then j else if j > i then j + 1 else if cs[i].Contains(x) then i else i + 1
  {
    var j := BucketFor(bs, x);
    ContainedIn(bs, x, j);
    hide Partition, BucketFor;
    var r := if j < i then j else if j > i then j + 1 else if cs[i].Contains(x) then i else i + 1;
    assert j != i ==> cs[r] == bs[j];
    ContainedIn(cs, x, r);
  }

  lemma ContainedIn(bs: seq<Bucket>, x: NodeId, r: nat)
    requires Partition(bs) && r < |bs|
    ensures bs[r].Contains(x) <==> BucketFor(bs, x) == r
  {
    BucketForIsUnique(bs, x);
    hide Partition, BucketFor;
  }

  /** Splitting loses no node and moves none out of reach. */
  lemma LookupSplit(t: Table, i: nat, x: NodeId)
    requires i < |t.buckets| && t.buckets[i].depth < ID_BITS && t.buckets[i].cache == []
    requires Partition(t.buckets)
    ensures Lookup(SplitAt(t, i), x) == Lookup(t, x)
  {
    var bs, cs := t.buckets, SplitAt(t, i).buckets;
    SplitRanges(bs[i]);
    ReplaceKeepsPartition(bs, i, cs[i], cs[i + 1]);
    BucketForIsUnique(bs, x);
    hide Split, Entry, BucketFrom, Partition, Dyadic;
    PlaceAfterSplit(bs, cs, i, x);
    if BucketFor(bs, x) == i {
      SplitHalf(bs[i], x);
    }
  }

  /**
   `Insert` keeps the invariant and is an update of the map at `n.id` alone: the result string says
   exactly how, even when buckets were split on the way.
   */
  lemma {:induction false} InsertRefinesMap(t: Table, n: Node, x: NodeId)
    requires Inv(t)
    ensures Inv(Insert(t, n).table)
    ensures EntryEffect(Lookup(t, x), Lookup(Insert(t, n).table, x), Insert(t, n).result, n, x)
    decreases ID_BITS - OwnDepth(t)
  {
    var i := BucketFor(t.buckets, n.id);
    if NeedsSplit(t, n) {
      SplitIsSafe(t, n);
      LookupSplit(t, i, x);
      InsertRefinesMap(SplitAt(t, i), n, x);
    } else {
      var b := t.buckets[i];
      assert BucketOk(b, t.k, t.self);
      BucketForIsUnique(t.buckets, n.id);
      PlaceKeepsBucket(b, n, t.k, t.self, x);
      PutKeepsInv(t, i, PlaceIn(b, n, t.k).0);
      LookupPut(t, i, PlaceIn(b, n, t.k).0, x);
    }
  }

  // ----- failures and successes

  lemma RemoveEntry(b: Bucket, c: Bucket, k: int, p: nat, x: NodeId)
    requires ContentOk(b, k) && SameRange(c, b)
    requires p < |b.All()| && c.All() == Without(b.All(), p)
    requires |c.nodes| <= k && |c.cache| <= k && (c.cache != [] ==> c.IsFull(k))
    ensures ContentOk(c, k)
    ensures Entry(c, x) == if x == b.All()[p].id then None else Entry(b, x)
  {
    FindWithout(b.All(), p, x);
    forall m | m in c.All()
      ensures c.Contains(m.id)
    {
      assert m in b.All();
    }
  }

  /** What one more failure of `id` leaves under `x`. */
  function AfterFailure(before: Option<Node>, id: NodeId, threshold: int, x: NodeId): Option<Node> {
    if x != id || before.None? then before
    else
      var m := before.value;
      if m.failures + 1 >= threshold then None
      else Some(Node(m.id, m.addr, m.lastSeen, m.failures + 1))
  }

  /** One failure of the node at position `p` of `b.All()`, as an edit of that list. */
  predicate FailsAt(b: Bucket, c: Bucket, k: int, threshold: int, p: nat) {
    && SameRange(c, b) && p < |b.All()| && |c.nodes| <= k && |c.cache| <= k
    && var n := Failed(b.All()[p]);
       if n.IsBad(threshold) then c.All() == Without(b.All(), p) && (c.cache != [] ==> c.IsFull(k))
       else c.All() == b.All()[p := n] && |c.nodes| == |b.nodes|
  }

  lemma FailAt(b: Bucket, c: Bucket, id: NodeId, threshold: int, k: int, p: nat, x: NodeId)
    requires ContentOk(b, k) && FailsAt(b, c, k, threshold, p) && b.All()[p].id == id
    ensures ContentOk(c, k)
    ensures Entry(c, x) == AfterFailure(Entry(b, x), id, threshold, x)
  {
    var n := Failed(b.All()[p]);
    FindIs(b.All(), p);
    if n.IsBad(threshold) {
      RemoveEntry(b, c, k, p, x);
    } else {
      UpdateEntry(b, c, k, p, n, x);
    }
  }

  lemma FailActive(b: Bucket, id: NodeId, threshold: int, k: int)
    requires ContentOk(b, k) && IndexOf(b.nodes, id) < |b.nodes|
    ensures FailsAt(b, FailIn(b, id, threshold), k, threshold, IndexOf(b.nodes, id))
  {
    var p := IndexOf(b.nodes, id);
    FailActiveIs(b, id, threshold);
    EvictAll(b, p);
    hide FailIn, EvictAt, Without, IndexOf;
    assert b.All()[p] == b.nodes[p];
    if !Failed(b.nodes[p]).IsBad(threshold) {
      assert FailIn(b, id, threshold).All() == b.All()[p := Failed(b.nodes[p])];
    }
  }

  lemma FailActiveIs(b: Bucket, id: NodeId, threshold: int)
    requires IndexOf(b.nodes, id) < |b.nodes|
    ensures var p := IndexOf(b.nodes, id);
      FailIn(b, id, threshold) ==
      if Failed(b.nodes[p]).IsBad(threshold) then EvictAt(b, p) else b.(nodes := b.nodes[p := Failed(b.nodes[p])])
  {
    hide EvictAt, LastIndexOf;
  }

  lemma EvictAll(b: Bucket, p: nat)
    requires p < |b.nodes|
    ensures EvictAt(b, p).All() == Without(b.All(), p) && SameRange(EvictAt(b, p), b)
    ensures |EvictAt(b, p).cache| <= |b.cache|
    ensures |EvictAt(b, p).nodes| == |b.nodes| - if b.cache == [] then 1 else 0
  {
    assert b.cache != [] ==> b.cache == [b.cache[0]] + b.cache[1..];
  }

  lemma FailCached(b: Bucket, id: NodeId, threshold: int, k: int)
    requires ContentOk(b, k) && IndexOf(b.nodes, id) == |b.nodes| && LastIndexOf(b.cache, id) < |b.cache|
    ensures FailsAt(b, FailIn(b, id, threshold), k, threshold, |b.nodes| + LastIndexOf(b.cache, id))
  {
    var q := LastIndexOf(b.cache, id);
    var c := FailIn(b, id, threshold);
    if Failed(b.cache[q]).IsBad(threshold) {
      assert c.All() == Without(b.All(), |b.nodes| + q);
    } else {
      assert c.All() == b.All()[|b.nodes| + q := Failed(b.cache[q])];
    }
  }

  lemma FailKeepsBucket(b: Bucket, id: NodeId, threshold: int, k: int, self: NodeId, x: NodeId)
    requires BucketOk(b, k, self)
    ensures var c := FailIn(b, id, threshold);
      && BucketOk(c, k, self) && SameRange(c, b)
      && Entry(c, x) == AfterFailure(Entry(b, x), id, threshold, x)
  {
    var c := FailIn(b, id, threshold);
    if IndexOf(b.nodes, id) < |b.nodes| {
      FailActive(b, id, threshold, k);
      FailAt(b, c, id, threshold, k, IndexOf(b.nodes, id), x);
    } else if LastIndexOf(b.cache, id) < |b.cache| {
      FailCached(b, id, threshold, k);
      FailAt(b, c, id, threshold, k, |b.nodes| + LastIndexOf(b.cache, id), x);
    } else {
      FindConcat(b.nodes, b.cache, id);
    }
  }

  /** What a success of `id`, found among the active nodes or not, leaves under `x`. */
  function AfterSuccess(before: Option<Node>, id: NodeId, active: bool, now: int, x: NodeId): Option<Node> {
    if x == id && active && before.Some? then Some(before.value.(lastSeen := now, failures := 0)) else before
  }

  lemma SucceedKeepsBucket(b: Bucket, id: NodeId, now: int, k: int, self: NodeId, x: NodeId)
    requires BucketOk(b, k, self)
    ensures var c := SucceedIn(b, id, now);
      && BucketOk(c, k, self) && SameRange(c, b)
      && Entry(c, x) == AfterSuccess(Entry(b, x), id, IndexOf(b.nodes, id) < |b.nodes|, now, x)
  {
    var c := SucceedIn(b, id, now);
    var p := IndexOf(b.nodes, id);
    if p < |b.nodes| {
      assert c.All() == b.All()[p := c.nodes[p]];
      FindIs(b.All(), p);
      UpdateEntry(b, c, k, p, c.nodes[p], x);
    }
  }

  /** `MarkFailure` touches the one identifier and removes it exactly when it has become bad. */
  lemma MarkFailureRefinesMap(t: Table, id: NodeId, x: NodeId)
    requires Inv(t)
    ensures Inv(MarkFailure(t, id))
    ensures Lookup(MarkFailure(t, id), x) == AfterFailure(Lookup(t, x), id, t.threshold, x)
  {
    var i := BucketFor(t.buckets, id);
    var b := t.buckets[i];
    assert BucketOk(b, t.k, t.self);
    FailKeepsBucket(b, id, t.threshold, t.k, t.self, x);
    PutKeepsInv(t, i, FailIn(b, id, t.threshold));
    LookupPut(t, i, FailIn(b, id, t.threshold), x);
  }

  predicate IsActive(t: Table, id: NodeId)
    requires |t.buckets| > 0
  {
    var b := t.buckets[BucketFor(t.buckets, id)];
    IndexOf(b.nodes, id) < |b.nodes|
  }

  /** `MarkSuccess` refreshes an active node and leaves every other entry, cached ones included, alone. */
  lemma MarkSuccessRefinesMap(t: Table, id: NodeId, now: int, x: NodeId)
    requires Inv(t)
    ensures Inv(MarkSuccess(t, id, now))
    ensures Lookup(MarkSuccess(t, id, now), x) == AfterSuccess(Lookup(t, x), id, IsActive(t, id), now, x)
  {
    var i := BucketFor(t.buckets, id);
    var b := t.buckets[i];
    assert BucketOk(b, t.k, t.self);
    SucceedKeepsBucket(b, id, now, t.k, t.self, x);
    PutKeepsInv(t, i, SucceedIn(b, id, now));
    LookupPut(t, i, SucceedIn(b, id, now), x);
  }

  // ----- every stored node is found, once

  /** Everything stored is what the map says: no node is out of reach of the search. */
  lemma StoredIsFound(t: Table, i: nat, p: nat)
    requires Inv(t) && i < |t.buckets| && p < |t.buckets[i].All()|
    ensures BucketFor(t.buckets, t.buckets[i].All()[p].id) == i
    ensures Lookup(t, t.buckets[i].All()[p].id) == Some(t.buckets[i].All()[p])
  {
    assert BucketOk(t.buckets[i], t.k, t.self);
    assert t.buckets[i].All()[p] in t.buckets[i].All();
    BucketForIsUnique(t.buckets, t.buckets[i].All()[p].id);
    FindIs(t.buckets[i].All(), p);
  }

  /** An identifier occurs at most once in the whole table, active nodes and caches together. */
  lemma EachIdOnce(t: Table, i: nat, p: nat, j: nat, q: nat)
    requires Inv(t)
    requires i < |t.buckets| && p < |t.buckets[i].All()|
    requires j < |t.buckets| && q < |t.buckets[j].All()|
    requires t.buckets[i].All()[p].id == t.buckets[j].All()[q].id
    ensures i == j && p == q
  {
    StoredIsFound(t, i, p);
    StoredIsFound(t, j, q);
    assert BucketOk(t.buckets[i], t.k, t.self);
  }
}
