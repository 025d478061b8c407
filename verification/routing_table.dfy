/**
 The routing table as the program keeps it: node and bucket objects shared by reference and updated
 in place. Each method is proved against the operation of `TableModel` it implements.
 */
module RoutingTables {

  import opened Common
  import opened NodeIds
  import opened Buckets
  import opened TableModel
  import opened TableTheorems
  import opened TableRuns
  import opened Candidates
  import opened Nearest

  class PeerNode {
    const id: NodeId
    var addr: Addr
    var lastSeen: int
    var failures: nat

    constructor (id: NodeId, addr: Addr, lastSeen: int)
      ensures View() == Node(id, addr, lastSeen, 0)
    {
      this.id := id;
      this.addr := addr;
      this.lastSeen := lastSeen;
      this.failures := 0;
    }

    function View(): Node
      reads this
    {
      Node(id, addr, lastSeen, failures)
    }
  }

  function Views(ns: seq<PeerNode>): (vs: seq<Node>)
    reads ns
    ensures |vs| == |ns|
    ensures forall i :: 0 <= i < |ns| ==> vs[i] == ns[i].View()
  {
    seq(|ns|, i requires 0 <= i < |ns| reads ns => ns[i].View())
  }

  class BucketObject {
    const min: NodeId
    const max: NodeId
    const depth: nat
    var nodes: seq<PeerNode>
    var cache: seq<PeerNode>

    constructor (min: NodeId, max: NodeId, depth: nat, nodes: seq<PeerNode>, cache: seq<PeerNode>)
      ensures this.min == min && this.max == max && this.depth == depth
      ensures this.nodes == nodes && this.cache == cache
      ensures View() == Bucket(min, max, depth, old(Views(nodes)), old(Views(cache)))
    {
      this.min := min;
      this.max := max;
      this.depth := depth;
      this.nodes := nodes;
      this.cache := cache;
    }

    function View(): Bucket
      reads this, nodes, cache
    {
      Bucket(min, max, depth, Views(nodes), Views(cache))
    }

    function Size(): nat
      reads this
    {
      |nodes| + |cache|
    }

    /** The object at a position of the active nodes followed by the cache. */
    function At(p: nat): PeerNode
      requires p < Size()
      reads this
    {
      if p < |nodes| then nodes[p] else cache[p - |nodes|]
    }

    predicate OnlyAt(m: PeerNode, p: nat)
      reads this
    {
      p < Size() && forall q: nat :: q < Size() ==> (At(q) == m <==> q == p)
    }

    predicate Avoids(m: PeerNode)
      reads this
    {
      forall q: nat :: q < Size() ==> At(q) != m
    }

    lemma AvoidsParts(m: PeerNode)
      requires Avoids(m)
      ensures m !in nodes && m !in cache
    {
      assert forall q: nat :: q < |nodes| ==> At(q) == nodes[q];
      assert forall q: nat :: q < |cache| ==> At(|nodes| + q) == cache[q];
    }

    function Range(): Bucket {
      Bucket(min, max, depth, [], [])
    }

    predicate Contains(id: NodeId)
      ensures Contains(id) <==> Range().Contains(id)
    {
      if max == ZERO_ID then Compare(id, min) >= 0
      else Compare(id, min) >= 0 && Compare(id, max) < 0
    }
  }

  lemma {:induction false} IndexOfIs(vs: seq<Node>, id: NodeId, p: nat)
    requires p <= |vs|
    requires forall j :: 0 <= j < p ==> vs[j].id != id
    requires p < |vs| ==> vs[p].id == id
    ensures IndexOf(vs, id) == p
  {
    var q := IndexOf(vs, id);
  }

  /** The scan `for _, n := range ns` for an identifier. */
  method Scan(ns: seq<PeerNode>, id: NodeId) returns (p: nat)
    ensures p == IndexOf(Views(ns), id)
  {
    p := 0;
    while p < |ns| && ns[p].id != id
      invariant p <= |ns|
      invariant forall j :: 0 <= j < p ==> ns[j].id != id
    {
      p := p + 1;
    }
    IndexOfIs(Views(ns), id, p);
  }

  lemma {:induction false} LastIndexOfIs(vs: seq<Node>, id: NodeId, p: nat)
    requires p <= |vs|
    requires p < |vs| ==> vs[p].id == id && forall j :: p < j < |vs| ==> vs[j].id != id
    requires p == |vs| ==> forall j :: 0 <= j < |vs| ==> vs[j].id != id
    ensures LastIndexOf(vs, id) == p
  {
    var q := LastIndexOf(vs, id);
  }

  /** The scan from the back; the length when nothing is found. */
  method ScanBack(ns: seq<PeerNode>, id: NodeId) returns (p: nat)
    ensures p == LastIndexOf(Views(ns), id)
  {
    var i := |ns|;
    while i > 0 && ns[i - 1].id != id
      invariant 0 <= i <= |ns|
      invariant forall j :: i <= j < |ns| ==> ns[j].id != id
    {
      i := i - 1;
    }
    p := if i > 0 then i - 1 else |ns|;
    LastIndexOfIs(Views(ns), id, p);
  }

  /** The split point, computed on a byte buffer. */
  method ComputeMidpoint(min: NodeId, d: nat) returns (mid: NodeId)
    requires d < ID_BITS
    ensures mid == Midpoint(min, d)
  {
    var byteIdx := d / 8;
    var r := d % 8;
    mid := min[byteIdx := min[byteIdx] | (1 << (7 - r))];
    mid := mid[byteIdx := mid[byteIdx] & !((1 << (7 - r)) - 1)];
    assert mid[byteIdx] == MidByte(min[byteIdx], r);
    for j := byteIdx + 1 to ID_LEN
      invariant |mid| == ID_LEN
      invariant forall i :: 0 <= i < byteIdx ==> mid[i] == min[i]
      invariant mid[byteIdx] == MidByte(min[byteIdx], r)
      invariant forall i :: byteIdx < i < j ==> mid[i] == 0
    {
      mid := mid[j := 0];
    }
  }

  lemma ViewsAppend(ns: seq<PeerNode>, n: PeerNode)
    ensures Views(ns + [n]) == Views(ns) + [n.View()]
  {
    assert (ns + [n])[..|ns|] == ns;
  }

  lemma ViewsWithout(ns: seq<PeerNode>, p: nat)
    requires p < |ns|
    ensures Views(ns[..p] + ns[p + 1..]) == Without(Views(ns), p)
  {
  }

  lemma SetThenEvict(b: Bucket, p: nat, m: Node)
    requires p < |b.nodes|
    ensures EvictAt(SetAt(b, p, m), p) == EvictAt(b, p)
  {
    assert Without(b.nodes[p := m], p) == Without(b.nodes, p);
  }

  lemma SetThenDrop(b: Bucket, q: nat)
    ensures q < |b.cache| ==>
              var c := SetAt(b, |b.nodes| + q, Failed(b.cache[q]));
              c.(cache := Without(c.cache, q)) == b.(cache := Without(b.cache, q))
  {
  }

  lemma PutTwice(t: Table, i: nat, b: Bucket, c: Bucket)
    requires i < |t.buckets|
    ensures Put(Put(t, i, b), i, c) == Put(t, i, c)
  {
  }

  lemma CachedFailure(b: Bucket, id: NodeId, threshold: int, q: nat)
    requires IndexOf(b.nodes, id) == |b.nodes| && q == LastIndexOf(b.cache, id)
    ensures FailIn(b, id, threshold) ==
            if q == |b.cache| then b
            else if Failed(b.cache[q]).IsBad(threshold) then b.(cache := Without(b.cache, q))
            else SetAt(b, |b.nodes| + q, Failed(b.cache[q]))
  {
  }

  /** Counting the failure of a cached node and then dropping it, on tables. */
  lemma ReplacementFailure(t: Table, i: nat, id: NodeId, q: nat)
    requires i < |t.buckets| && IndexOf(t.buckets[i].nodes, id) == |t.buckets[i].nodes|
    requires q == LastIndexOf(t.buckets[i].cache, id)
    ensures var b := t.buckets[i]; var result := Put(t, i, FailIn(b, id, t.threshold));
      if q == |b.cache| then result == t
      else
        var c := SetAt(b, |b.nodes| + q, Failed(b.All()[|b.nodes| + q]));
        && Put(t, i, c).buckets[i] == c && |c.cache| == |b.cache|
        && result == if b.All()[|b.nodes| + q].failures + 1 >= t.threshold then
                       Put(Put(t, i, c), i, c.(cache := Without(c.cache, q)))
                     else Put(t, i, c)
  {
    hide FailIn, Without, IndexOf, LastIndexOf;
    var b := t.buckets[i];
    CachedFailure(b, id, t.threshold, q);
    SetThenDrop(b, q);
    if q < |b.cache| {
      assert b.All()[|b.nodes| + q] == b.cache[q];
      var c := SetAt(b, |b.nodes| + q, Failed(b.cache[q]));
      PutTwice(t, i, c, c.(cache := Without(c.cache, q)));
    }
  }

  lemma SelectAppend(vs: seq<Node>, v: Node, b: Bucket, inside: bool)
    ensures Select(vs + [v], b, inside) ==
            if b.Contains(v.id) == inside then Select(vs, b, inside) + [v] else Select(vs, b, inside)
  {
    assert (vs + [v])[..|vs|] == vs;
    assert Select(vs, b, inside) + [] == Select(vs, b, inside);
  }

  /** Distribute nodes over the two halves, keeping their order. */
  method Distribute(ns: seq<PeerNode>, half: Bucket) returns (inside: seq<PeerNode>, outside: seq<PeerNode>)
    ensures Views(inside) == Select(Views(ns), half, true)
    ensures Views(outside) == Select(Views(ns), half, false)
    ensures Subset(inside, ns) && Subset(outside, ns)
  {
    inside, outside := [], [];
    for i := 0 to |ns|
      invariant Views(inside) == Select(Views(ns[..i]), half, true)
      invariant Views(outside) == Select(Views(ns[..i]), half, false)
      invariant Subset(inside, ns) && Subset(outside, ns)
    {
      ghost var v := ns[i].View();
      ViewsAppend(ns[..i], ns[i]);
      assert ns[..i] + [ns[i]] == ns[..i + 1];
      SelectAppend(Views(ns[..i]), v, half, true);
      SelectAppend(Views(ns[..i]), v, half, false);
      if half.Contains(ns[i].id) {
        ViewsAppend(inside, ns[i]);
        inside := inside + [ns[i]];
      } else {
        ViewsAppend(outside, ns[i]);
        outside := outside + [ns[i]];
      }
    }
    assert ns[..|ns|] == ns;
  }

  /** The nodes of a bucket distributed over its two halves. */
  method Halve(b: BucketObject)
    returns (mid: NodeId, nodesIn: seq<PeerNode>, nodesOut: seq<PeerNode>,
             cacheIn: seq<PeerNode>, cacheOut: seq<PeerNode>)
    requires b.depth < ID_BITS
    ensures Split(b.View()).0 == Bucket(b.min, mid, b.depth + 1, Views(nodesIn), Views(cacheIn))
    ensures Split(b.View()).1 == Bucket(mid, b.max, b.depth + 1, Views(nodesOut), Views(cacheOut))
    ensures Subset(nodesIn, b.nodes) && Subset(cacheIn, b.cache)
    ensures Subset(nodesOut, b.nodes) && Subset(cacheOut, b.cache)
  {
    hide Select, Midpoint, Views;
    mid := ComputeMidpoint(b.min, b.depth);
    var half := Bucket(b.min, mid, b.depth + 1, [], []);
    nodesIn, nodesOut := Distribute(b.nodes, half);
    cacheIn, cacheOut := Distribute(b.cache, half);
  }

  /** `splitBucket`: two new buckets with the old one's nodes. */
  method SplitBucket(b: BucketObject) returns (left: BucketObject, right: BucketObject)
    requires b.depth < ID_BITS
    ensures fresh(left) && fresh(right) && left != right
    ensures left.View() == Split(b.View()).0 && right.View() == Split(b.View()).1
    ensures Subset(left.nodes, b.nodes) && Subset(left.cache, b.cache)
    ensures Subset(right.nodes, b.nodes) && Subset(right.cache, b.cache)
  {
    var mid, nodesIn, nodesOut, cacheIn, cacheOut := Halve(b);
    left := new BucketObject(b.min, mid, b.depth + 1, nodesIn, cacheIn);
    right := new BucketObject(mid, b.max, b.depth + 1, nodesOut, cacheOut);
  }

  predicate Subset(ns: seq<PeerNode>, ms: seq<PeerNode>) {
    forall n :: n in ns ==> n in ms
  }

  /** Every node the buckets refer to is one of `peers`. */
  ghost predicate Wired(bs: seq<BucketObject>, peers: set<PeerNode>)
    reads bs
  {
    forall i :: 0 <= i < |bs| ==>
      (forall n :: n in bs[i].nodes ==> n in peers) && (forall n :: n in bs[i].cache ==> n in peers)
  }

  ghost predicate Owned(bs: seq<BucketObject>, owned: set<BucketObject>) {
    forall i :: 0 <= i < |bs| ==> bs[i] in owned
  }

  ghost function BucketViews(bs: seq<BucketObject>, peers: set<PeerNode>): (vs: seq<Bucket>)
    requires Wired(bs, peers)
    reads bs, peers
    ensures |vs| == |bs|
    ensures forall i :: 0 <= i < |bs| ==> vs[i] == bs[i].View()
  {
    seq(|bs|, i requires 0 <= i < |bs| && Wired(bs, peers) reads bs, peers => bs[i].View())
  }

  // ----- the search

  lemma StartsInOrder(bs: seq<Bucket>, id: NodeId, h: nat)
    requires Partition(bs) && h < |bs|
    ensures Compare(bs[h].min, id) > 0 ==> forall g :: h <= g < |bs| ==> Compare(bs[g].min, id) > 0
    ensures Compare(bs[h].min, id) <= 0 ==> forall g :: 0 <= g <= h ==> Compare(bs[g].min, id) <= 0
  {
    CompareIsValue(bs[h].min, id);
    forall g | 0 <= g < |bs|
      ensures Compare(bs[h].min, id) > 0 && h <= g ==> Compare(bs[g].min, id) > 0
      ensures Compare(bs[h].min, id) <= 0 && g <= h ==> Compare(bs[g].min, id) <= 0
    {
      CompareIsValue(bs[g].min, id);
      assert Dyadic(bs[g]) && Dyadic(bs[h]);
      if g < h {
        RangesInOrder(bs, g, h);
      } else if h < g {
        RangesInOrder(bs, h, g);
      }
    }
  }

  lemma {:induction false} BucketFromIs(bs: seq<Bucket>, id: NodeId, i: nat, r: nat)
    requires i <= r < |bs|
    requires forall j :: i < j <= r ==> Compare(bs[j].min, id) <= 0
    requires r + 1 < |bs| ==> Compare(bs[r + 1].min, id) > 0
    ensures BucketFrom(bs, id, i) == r
    decreases r - i
  {
    if i < r {
      BucketFromIs(bs, id, i + 1, r);
    }
  }

  method Search(buckets: seq<BucketObject>, ghost bs: seq<Bucket>, id: NodeId) returns (idx: nat)
    requires Partition(bs)
    requires |buckets| == |bs| && forall i :: 0 <= i < |bs| ==> buckets[i].min == bs[i].min
    ensures idx == BucketFor(bs, id)
  {
    var i, j := 0, |buckets|;
    while i < j
      invariant 0 <= i <= j <= |buckets|
      invariant forall h :: 0 <= h < i ==> Compare(bs[h].min, id) <= 0
      invariant forall h :: j <= h < |buckets| ==> Compare(bs[h].min, id) > 0
    {
      var h := (i + j) / 2;
      StartsInOrder(bs, id, h);
      if Compare(buckets[h].min, id) > 0 {
        j := h;
      } else {
        i := h + 1;
      }
    }
    idx := if i > 0 then i - 1 else i;
    BucketFromIs(bs, id, 0, idx);
  }

  /** `b` with another record at position `p` of its active nodes followed by its cache. */
  function SetAt(b: Bucket, p: nat, m: Node): Bucket
    requires p < |b.nodes| + |b.cache|
  {
    if p < |b.nodes| then b.(nodes := b.nodes[p := m]) else b.(cache := b.cache[p - |b.nodes| := m])
  }

  class RoutingTable {
    const self: NodeId
    const k: int
    const threshold: int
    var buckets: seq<BucketObject>
    ghost var peers: set<PeerNode>
    ghost var owned: set<BucketObject>

    ghost function View(): Table
      requires Wired(buckets, peers)
      reads this, buckets, peers
    {
      Table(BucketViews(buckets, peers), self, k, threshold)
    }

    ghost predicate Valid()
      reads this, buckets, peers
    {
      Wired(buckets, peers) && Inv(View()) && Owned(buckets, owned)
    }

    constructor (self: NodeId, k: int, threshold: int)
      requires k >= 1
      ensures Valid() && fresh(owned) && peers == {}
      ensures View() == New(self, k, threshold)
    {
      var b := new BucketObject(ZERO_ID, ZERO_ID, 0, [], []);
      this.self := self;
      this.k := k;
      this.threshold := threshold;
      this.buckets := [b];
      this.peers := {};
      this.owned := {b};
      new;
      NewIsValid(self, k, threshold);
      assert BucketViews(buckets, peers) == New(self, k, threshold).buckets;
    }

    /** `bucketFor`: the binary search of `sort.Search`, then one step back. */
    method FindBucket(id: NodeId) returns (idx: nat)
      requires Valid()
      ensures idx == BucketFor(View().buckets, id)
    {
      idx := Search(buckets, View().buckets, id);
    }

    /** A node object sits at one place of the table only. */
    lemma SolePlace(i: nat, p: nat, j: nat, q: nat)
      requires Valid()
      requires i < |buckets| && p < buckets[i].Size() && j < |buckets| && q < buckets[j].Size()
      requires buckets[i].At(p) == buckets[j].At(q)
      ensures i == j && p == q
    {
      assert View().buckets[i].All()[p] == buckets[i].At(p).View();
      assert View().buckets[j].All()[q] == buckets[j].At(q).View();
      EachIdOnce(View(), i, p, j, q);
    }

    lemma OnlyHere(i: nat, p: nat)
      requires Valid()
      requires i < |buckets| && p < buckets[i].Size()
      ensures SoleNode(buckets, i, p)
    {
      forall j: nat, q: nat | j < |buckets| && q < buckets[j].Size() && buckets[j].At(q) == buckets[i].At(p)
        ensures i == j && p == q
      {
        SolePlace(i, p, j, q);
      }
    }

    lemma ValidSeparates(i: nat)
      requires Valid() && i < |buckets|
      ensures Separate(buckets, i)
    {
      StartsDiffer(View().buckets);
      forall p: nat | p < buckets[i].Size()
        ensures SoleNode(buckets, i, p)
      {
        OnlyHere(i, p);
      }
    }

    /** Overwrite a stored node's fields in place: no other bucket or position sees it. */
    method SetNode(ghost i: nat, ghost p: nat, m: PeerNode, addr: Addr, lastSeen: int, failures: nat)
      requires Wired(buckets, peers) && i < |buckets|
      requires p < buckets[i].Size() && m == buckets[i].At(p) && SoleNode(buckets, i, p)
      modifies m
      ensures Wired(buckets, peers)
      ensures View() == Put(old(View()), i, SetAt(old(View()).buckets[i], p, Node(m.id, addr, lastSeen, failures)))
    {
      SetAmong(buckets, peers, i, p, m, addr, lastSeen, failures);
    }

    /** Give a bucket new lists of nodes. */
    method SetLists(i: nat, nodes: seq<PeerNode>, cache: seq<PeerNode>, ghost added: set<PeerNode>)
      requires Wired(buckets, peers) && i < |buckets|
      requires forall j :: 0 <= j < |buckets| && j != i ==> buckets[j] != buckets[i]
      requires forall n :: n in nodes || n in cache ==> n in peers + added
      modifies buckets[i], `peers
      ensures buckets == old(buckets) && peers == old(peers) + added && Wired(buckets, peers)
      ensures var b := old(View()).buckets[i];
        View() == Put(old(View()), i, b.(nodes := old(Views(nodes)), cache := old(Views(cache))))
    {
      ListsAmong(buckets, peers, i, buckets[i], nodes, cache, added);
      peers := peers + added;
    }

    /** Replace a bucket by its two halves. */
    method SplitOwn(i: nat)
      requires Wired(buckets, peers) && i < |buckets| && buckets[i].depth < ID_BITS
      requires Owned(buckets, owned)
      modifies `buckets, `owned
      ensures Wired(buckets, peers) && Owned(buckets, owned) && fresh(owned - old(owned))
      ensures View() == SplitAt(old(View()), i)
    {
      buckets, owned := SplitAmong(buckets, peers, i, owned);
    }
  
    /** One round of `insert` at the bucket found: false when our own bucket was split instead. */
    method TryInsert(idx: nat, n: PeerNode, ghost t: Table, ghost nv: Node) returns (done: bool, result: InsertResult)
      requires Wired(buckets, peers) && idx < |buckets| && Separate(buckets, idx)
      requires t == View() && nv == n.View()
      requires SplitsHere(t.buckets[idx], n.id, k, self) ==> t.buckets[idx].depth < ID_BITS
      requires Owned(buckets, owned)
      modifies this, buckets[idx], peers
      ensures Wired(buckets, peers) && peers <= old(peers) + {n}
      ensures Owned(buckets, owned) && fresh(owned - old(owned))
      ensures done <==> !SplitsHere(t.buckets[idx], n.id, k, self)
      ensures View() == AfterRound(t, idx, nv)
      ensures done ==> result == PlaceIn(t.buckets[idx], nv, k).1
      ensures !done ==> peers == old(peers) && n.View() == nv
    {
      var b := buckets[idx];
      var p := Scan(b.nodes, n.id);
      if p < |b.nodes| {
        SetNode(idx, p, b.nodes[p], n.addr, n.lastSeen, 0);
        return true, Updated;
      }
      if |b.nodes| != k {
        ViewsAppend(b.nodes, n);
        SetLists(idx, b.nodes + [n], b.cache, {n});
        return true, Inserted;
      }
      if b.Contains(self) {
        SplitOwn(idx);
        return false, Dropped;
      }
      result := UseCache(idx, n, t, nv);
      return true, result;
    }

    /** A full bucket that is not ours: refresh a cached node, or cache this one while there is room. */
    method UseCache(idx: nat, n: PeerNode, ghost t: Table, ghost nv: Node) returns (result: InsertResult)
      requires Wired(buckets, peers) && idx < |buckets| && Separate(buckets, idx)
      requires t == View() && nv == n.View()
      requires IndexOf(Views(buckets[idx].nodes), n.id) == |buckets[idx].nodes| == k
      modifies this`peers, buckets[idx], peers
      ensures buckets == old(buckets)
      ensures Wired(buckets, peers) && peers <= old(peers) + {n}
      ensures View() == Put(t, idx, PlaceIn(t.buckets[idx], nv, k).0)
      ensures result == PlaceIn(t.buckets[idx], nv, k).1
    {
      var b := buckets[idx];
      var q := Scan(b.cache, n.id);
      if q < |b.cache| {
        SetNode(idx, |b.nodes| + q, b.cache[q], n.addr, n.lastSeen, 0);
        return Updated;
      }
      if |b.cache| < k {
        ViewsAppend(b.cache, n);
        SetLists(idx, b.nodes, b.cache + [n], {n});
        return Cached;
      }
      return Dropped;
    }

    /** One round of `insert`: find the bucket, then try. */
    method InsertRound(n: PeerNode, ghost t: Table, ghost nv: Node)
      returns (done: bool, result: InsertResult, ghost idx: nat)
      requires Valid() && t == View() && nv == n.View()
      modifies this, owned, peers
      ensures idx == BucketFor(t.buckets, n.id)
      ensures SplitsHere(t.buckets[idx], n.id, k, self) ==> t.buckets[idx].depth < ID_BITS
      ensures Wired(buckets, peers) && Owned(buckets, owned) && View() == AfterRound(t, idx, nv)
      ensures fresh(owned - old(owned)) && peers <= old(peers) + {n}
      ensures done <==> !SplitsHere(t.buckets[idx], n.id, k, self)
      ensures done ==> result == PlaceIn(t.buckets[idx], nv, k).1
      ensures !done ==> peers == old(peers) && n.View() == nv
    {
      hide Inv, TableModel.Insert, AfterRound, SplitsHere, PlaceIn;
      HasBuckets(t);
      var i := FindBucket(n.id);
      ValidSeparates(i);
      InsertUnfolds(t, nv, i);
      done, result := TryInsert(i, n, t, nv);
      idx := i;
    }

    /** `insert`: try, and after a split of our own bucket try again. */
    method Insert(n: PeerNode) returns (result: InsertResult)
      requires Valid()
      modifies this, owned, peers
      ensures Valid() && fresh(owned - old(owned)) && peers <= old(peers) + {n}
      ensures Outcome(View(), result) == TableModel.Insert(old(View()), old(n.View()))
    {
      hide Inv, TableModel.Insert, AfterRound, SplitsHere, PlaceIn;
      ghost var t, nv := View(), n.View();
      HasBuckets(t);
      ghost var goal := TableModel.Insert(t, nv);
      var done := false;
      result := Dropped;
      while !done
        invariant Valid() && t == View() && |t.buckets| > 0
        invariant fresh(owned - old(owned)) && peers <= old(peers) + {n}
        invariant done ==> Outcome(t, result) == goal
        invariant !done ==> peers == old(peers) && n.View() == nv && TableModel.Insert(t, nv) == goal
        decreases !done, ID_BITS - OwnDepth(t)
      {
        ghost var idx;
        done, result, idx := InsertRound(n, t, nv);
        InsertUnfolds(t, nv, idx);
        t := AfterRound(t, idx, nv);
      }
    }

    /** `MarkSuccess`: refresh an active node in place. */
    method MarkSuccess(id: NodeId, now: int)
      requires Valid()
      modifies peers
      ensures Valid() && View() == TableModel.MarkSuccess(old(View()), id, now)
    {
      hide Inv, TableModel.MarkSuccess;
      ghost var t := View();
      HasBuckets(t);
      var idx := FindBucket(id);
      ValidSeparates(idx);
      SuccessUnfolds(t, id, now, idx);
      SucceedHere(idx, id, now, t);
    }

    method SucceedHere(idx: nat, id: NodeId, now: int, ghost t: Table)
      requires Wired(buckets, peers) && idx < |buckets| && Separate(buckets, idx) && t == View()
      modifies peers
      ensures Wired(buckets, peers)
      ensures View() == Put(t, idx, SucceedIn(t.buckets[idx], id, now))
    {
      var b := buckets[idx];
      var p := Scan(b.nodes, id);
      if p < |b.nodes| {
        SetNode(idx, p, b.nodes[p], b.nodes[p].addr, now, 0);
      }
    }

    /** `MarkFailure`: count the failure in place; at the threshold evict, and promote the oldest replacement. */
    method MarkFailure(id: NodeId)
      requires Valid()
      modifies owned, peers, `peers
      ensures buckets == old(buckets)
      ensures Valid() && View() == TableModel.MarkFailure(old(View()), id)
    {
      hide Inv, TableModel.MarkFailure, FailIn, IndexOf, Put, Separate;
      ghost var t := View();
      HasBuckets(t);
      var idx := FindBucket(id);
      ValidSeparates(idx);
      FailureUnfolds(t, id, idx);
      var p := Scan(buckets[idx].nodes, id);
      if p < |buckets[idx].nodes| {
        FailNode(idx, p, id, t);
      } else {
        FailReplacement(idx, id, t);
      }
    }

    method FailNode(idx: nat, p: nat, id: NodeId, ghost t: Table)
      requires Wired(buckets, peers) && idx < |buckets| && Separate(buckets, idx) && t == View()
      requires p == IndexOf(t.buckets[idx].nodes, id) < |buckets[idx].nodes|
      modifies this`peers, buckets[idx], peers
      ensures peers == old(peers) && Wired(buckets, peers)
      ensures View() == Put(t, idx, FailIn(t.buckets[idx], id, threshold))
    {
      var b := buckets[idx];
      var m := b.nodes[p];
      var failures := CountFailure(idx, p, m, t);
      if failures < threshold {
        return;
      }
      SetThenEvict(t.buckets[idx], p, m.View());
      Evict(idx, p);
    }

    method Evict(idx: nat, p: nat)
      requires Wired(buckets, peers) && idx < |buckets| && Separate(buckets, idx) && p < |buckets[idx].nodes|
      modifies this`peers, buckets[idx]
      ensures peers == old(peers) && Wired(buckets, peers)
      ensures View() == Put(old(View()), idx, EvictAt(old(View()).buckets[idx], p))
    {
      var b := buckets[idx];
      var nodes := b.nodes[..p] + b.nodes[p + 1..];
      ViewsWithout(b.nodes, p);
      if |b.cache| > 0 {
        ViewsAppend(nodes, b.cache[0]);
        assert Views(b.cache[1..]) == Views(b.cache)[1..];
        SetLists(idx, nodes + [b.cache[0]], b.cache[1..], {});
      } else {
        SetLists(idx, nodes, b.cache, {});
      }
    }

    /** The replacement cache is scanned backwards. */
    method FailReplacement(idx: nat, id: NodeId, ghost t: Table)
      requires Wired(buckets, peers) && idx < |buckets| && Separate(buckets, idx) && t == View()
      requires IndexOf(t.buckets[idx].nodes, id) == |buckets[idx].nodes|
      modifies this`peers, buckets[idx], peers
      ensures peers == old(peers) && Wired(buckets, peers)
      ensures View() == Put(t, idx, FailIn(t.buckets[idx], id, threshold))
    {
      hide FailIn, SetAt, IndexOf, LastIndexOf, Without, Put, Failed;
      var b := buckets[idx];
      var q := ScanBack(b.cache, id);
      ReplacementFailure(t, idx, id, q);
      if q == |b.cache| {
        return;
      }
      ghost var c := SetAt(t.buckets[idx], |b.nodes| + q, Failed(t.buckets[idx].All()[|b.nodes| + q]));
      var failures := CountFailure(idx, |b.nodes| + q, b.cache[q], t);
      if failures >= threshold {
        Drop(idx, q, Put(t, idx, c), c);
      }
    }

    method CountFailure(ghost idx: nat, ghost p: nat, m: PeerNode, ghost t: Table) returns (failures: nat)
      requires Wired(buckets, peers) && idx < |buckets| && Separate(buckets, idx) && t == View()
      requires p < buckets[idx].Size() && m == buckets[idx].At(p)
      modifies m
      ensures Wired(buckets, peers)
      ensures failures == t.buckets[idx].All()[p].failures + 1
      ensures View() == Put(t, idx, SetAt(t.buckets[idx], p, Failed(t.buckets[idx].All()[p])))
    {
      assert t.buckets[idx].All()[p] == m.View();
      failures := m.failures + 1;
      SetNode(idx, p, m, m.addr, m.lastSeen, failures);
    }

    method Drop(idx: nat, q: nat, ghost t: Table, ghost c: Bucket)
      requires Wired(buckets, peers) && idx < |buckets| && Separate(buckets, idx) && q < |buckets[idx].cache|
      requires t == View() && c == t.buckets[idx]
      modifies this`peers, buckets[idx]
      ensures peers == old(peers) && Wired(buckets, peers)
      ensures View() == Put(t, idx, c.(cache := Without(c.cache, q)))
    {
      var b := buckets[idx];
      ViewsWithout(b.cache, q);
      SetLists(idx, b.nodes, b.cache[..q] + b.cache[q + 1..], {});
    }

    method CountNodes() returns (n: nat)
      requires Valid()
      ensures n == NodeCount(View().buckets)
    {
      hide Inv, NodeCount;
      n := 0;
      ghost var bs := View().buckets;
      CountNone(bs);
      for i := 0 to |buckets|
        invariant n == NodeCount(bs[..i])
      {
        CountNext(bs, i);
        n := n + |buckets[i].nodes|;
      }
      assert bs[..|bs|] == bs;
    }

    /** The candidates of `Closest`: active and cached nodes that are not bad. */
    method Gather() returns (candidates: seq<PeerNode>)
      requires Wired(buckets, peers)
      ensures Views(candidates) == Gathered(View().buckets, threshold)
    {
      hide Gathered, Good;
      candidates := [];
      ghost var bs := View().buckets;
      GatheredNone(bs, threshold);
      for i := 0 to |buckets|
        invariant Views(candidates) == Gathered(bs[..i], threshold)
      {
        var good := GatherBucket(buckets[i], threshold);
        ViewsConcat(candidates, good);
        GatheredNext(bs, i, threshold);
        candidates := candidates + good;
      }
      assert bs[..|bs|] == bs;
    }

    /**
     `Closest`: the nearest `n` stored nodes that are not bad, in order of distance. The list of
     identifiers is the only one with these properties.
     */
    method Closest(target: NodeId, n: nat) returns (closest: seq<PeerNode>)
      requires Valid()
      ensures Ascending(target, IdsOf(closest))
      ensures IsNearest(target, GoodIds(View()), Elements(IdsOf(closest)), n)
      ensures |closest| == Min(n, |GoodIds(View())|)
      ensures forall m :: m in closest ==> Lookup(View(), m.id) == Some(m.View()) && m.failures < threshold
    {
      hide Inv, Gathered, GoodIds, SortedBy, IsNearest, Elements, DistinctIds, Lookup;
      ghost var t := View();
      var candidates := Gather();
      var sorted := SortBy(candidates, (m: PeerNode) => Dist(target, m.id));
      GatheredDistinct(t);
      SortedIsAscending(candidates, sorted, target, t);
      closest := sorted[..Min(n, |sorted|)];
      assert IdsOf(closest) == IdsOf(sorted)[..Min(n, |sorted|)];
      PrefixIsNearest(target, IdsOf(sorted), n);
      NearestSize(target, GoodIds(t), IdsOf(closest), n);
      AllStoredGood(candidates, sorted, t);
    }
  }

  /** The table after one round of insertion at bucket `i`. */
  function AfterRound(t: Table, i: nat, n: Node): Table
    requires i < |t.buckets|
    requires SplitsHere(t.buckets[i], n.id, t.k, t.self) ==> t.buckets[i].depth < ID_BITS
  {
    if SplitsHere(t.buckets[i], n.id, t.k, t.self) then SplitAt(t, i)
    else Put(t, i, PlaceIn(t.buckets[i], n, t.k).0)
  }

  function IdsOf(ns: seq<PeerNode>): seq<NodeId> {
    seq(|ns|, i requires 0 <= i < |ns| => ns[i].id)
  }

  lemma ViewsConcat(ns: seq<PeerNode>, ms: seq<PeerNode>)
    ensures Views(ns + ms) == Views(ns) + Views(ms)
  {
  }

  lemma ViewsMember(ns: seq<PeerNode>, m: PeerNode)
    requires m in ns
    ensures m.View() in Views(ns)
  {
    var i :| 0 <= i < |ns| && ns[i] == m;
    assert Views(ns)[i] == m.View();
  }

  method FilterGood(ns: seq<PeerNode>, threshold: int) returns (kept: seq<PeerNode>)
    ensures Views(kept) == Good(Views(ns), threshold)
  {
    kept := [];
    for i := 0 to |ns|
      invariant Views(kept) == Good(Views(ns[..i]), threshold)
    {
      assert ns[..i + 1] == ns[..i] + [ns[i]];
      ViewsAppend(ns[..i], ns[i]);
      assert Views(ns[..i + 1])[..i] == Views(ns[..i]);
      if ns[i].failures < threshold {
        ViewsAppend(kept, ns[i]);
        kept := kept + [ns[i]];
      }
    }
    assert ns[..|ns|] == ns;
  }

  method GatherBucket(b: BucketObject, threshold: int) returns (good: seq<PeerNode>)
    ensures Views(good) == Good(b.View().All(), threshold)
  {
    var nodes := FilterGood(b.nodes, threshold);
    var cache := FilterGood(b.cache, threshold);
    GoodConcat(b.View().nodes, b.View().cache, threshold);
    ViewsConcat(nodes, cache);
    good := nodes + cache;
  }

  /** Distinct candidates sorted by distance are in strict order, and hold the same identifiers. */
  lemma SortedIsAscending(candidates: seq<PeerNode>, sorted: seq<PeerNode>, target: NodeId, t: Table)
    requires Views(candidates) == Gathered(t.buckets, t.threshold) && DistinctIds(Views(candidates))
    requires multiset(sorted) == multiset(candidates)
    requires SortedBy(sorted, (m: PeerNode) => Dist(target, m.id))
    ensures Ascending(target, IdsOf(sorted))
    ensures Elements(IdsOf(sorted)) == GoodIds(t)
  {
    MultisetElements(candidates, sorted);
    DistinctObjects(candidates);
    DistinctPermutation(candidates, sorted);
    forall i, j | 0 <= i < j < |sorted|
      ensures Dist(target, sorted[i].id) < Dist(target, sorted[j].id)
    {
      assert sorted[i] in candidates && sorted[j] in candidates;
      var p :| 0 <= p < |candidates| && candidates[p] == sorted[i];
      var q :| 0 <= q < |candidates| && candidates[q] == sorted[j];
      assert Views(candidates)[p].id == sorted[i].id && Views(candidates)[q].id == sorted[j].id;
      if Dist(target, sorted[i].id) == Dist(target, sorted[j].id) {
        DistInjective(target, sorted[i].id, sorted[j].id);
      }
    }
    SameIds(candidates, sorted);
  }

  lemma AllStoredGood(candidates: seq<PeerNode>, sorted: seq<PeerNode>, t: Table)
    requires Inv(t) && Views(candidates) == Gathered(t.buckets, t.threshold)
    requires multiset(sorted) == multiset(candidates)
    ensures |t.buckets| > 0
    ensures forall m :: m in sorted ==> Lookup(t, m.id) == Some(m.View()) && m.failures < t.threshold
  {
    MultisetElements(candidates, sorted);
    forall m | m in sorted
      ensures Lookup(t, m.id) == Some(m.View()) && m.failures < t.threshold
    {
      ViewsMember(candidates, m);
      GatheredIsStored(t, m.View());
    }
  }

  lemma DistinctObjects(ns: seq<PeerNode>)
    requires DistinctIds(Views(ns))
    ensures forall i, j :: 0 <= i < j < |ns| ==> ns[i] != ns[j]
  {
    assert forall i :: 0 <= i < |ns| ==> Views(ns)[i].id == ns[i].id;
  }

  lemma SameIds(candidates: seq<PeerNode>, sorted: seq<PeerNode>)
    requires forall m :: m in candidates <==> m in sorted
    ensures Elements(IdsOf(sorted)) == IdSet(Views(candidates))
  {
    forall x
      ensures x in Elements(IdsOf(sorted)) <==> x in IdSet(Views(candidates))
    {
      if x in Elements(IdsOf(sorted)) {
        var i :| 0 <= i < |sorted| && IdsOf(sorted)[i] == x;
        ViewsMember(candidates, sorted[i]);
      }
      if x in IdSet(Views(candidates)) {
        var i :| 0 <= i < |candidates| && Views(candidates)[i].id == x;
        assert candidates[i] in sorted;
        var j :| 0 <= j < |sorted| && sorted[j] == candidates[i];
        assert IdsOf(sorted)[j] == x;
      }
    }
  }

  lemma SuccessUnfolds(t: Table, id: NodeId, now: int, i: nat)
    requires Inv(t) && i == BucketFor(t.buckets, id)
    ensures TableModel.MarkSuccess(t, id, now) == Put(t, i, SucceedIn(t.buckets[i], id, now))
    ensures Inv(Put(t, i, SucceedIn(t.buckets[i], id, now)))
  {
    MarkSuccessRefinesMap(t, id, now, id);
  }

  lemma FailureUnfolds(t: Table, id: NodeId, i: nat)
    requires Inv(t) && i == BucketFor(t.buckets, id)
    ensures TableModel.MarkFailure(t, id) == Put(t, i, FailIn(t.buckets[i], id, t.threshold))
    ensures Inv(Put(t, i, FailIn(t.buckets[i], id, t.threshold)))
  {
    MarkFailureRefinesMap(t, id, id);
  }

  lemma CountNone(bs: seq<Bucket>)
    ensures NodeCount(bs[..0]) == 0
  {
  }

  lemma CountNext(bs: seq<Bucket>, i: nat)
    requires i < |bs|
    ensures NodeCount(bs[..i + 1]) == NodeCount(bs[..i]) + |bs[i].nodes|
  {
    assert bs[..i + 1][..i] == bs[..i];
  }

  lemma InsertUnfolds(t: Table, n: Node, i: nat)
    requires Inv(t) && i == BucketFor(t.buckets, n.id)
    ensures SplitsHere(t.buckets[i], n.id, t.k, t.self) ==> t.buckets[i].depth < ID_BITS
    ensures Inv(AfterRound(t, i, n)) && |AfterRound(t, i, n).buckets| > 0
    ensures if SplitsHere(t.buckets[i], n.id, t.k, t.self) then
              && TableModel.Insert(AfterRound(t, i, n), n) == TableModel.Insert(t, n)
              && OwnDepth(t) < OwnDepth(AfterRound(t, i, n)) <= ID_BITS
            else
              TableModel.Insert(t, n) == Outcome(AfterRound(t, i, n), PlaceIn(t.buckets[i], n, t.k).1)
  {
    InsertRefinesMap(t, n, n.id);
    if NeedsSplit(t, n) {
      SplitIsSafe(t, n);
    }
  }

  predicate SplitsHere(b: Bucket, id: NodeId, k: int, self: NodeId) {
    IndexOf(b.nodes, id) == |b.nodes| && b.IsFull(k) && b.Contains(self)
  }

  /** Bucket `i` shares neither itself nor any of its nodes with another place. */
  ghost predicate Separate(bs: seq<BucketObject>, i: nat)
    reads bs
  {
    && i < |bs|
    && (forall j :: 0 <= j < |bs| && j != i ==> bs[j] != bs[i])
    && (forall p: nat :: p < bs[i].Size() ==> SoleNode(bs, i, p))
  }

  ghost predicate SoleNode(bs: seq<BucketObject>, i: nat, p: nat)
    requires i < |bs| && p < bs[i].Size()
    reads bs
  {
    && bs[i].OnlyAt(bs[i].At(p), p)
    && forall j :: 0 <= j < |bs| && j != i ==> bs[j].Avoids(bs[i].At(p))
  }

  lemma StartsDiffer(bs: seq<Bucket>)
    requires Partition(bs)
    ensures forall i, j :: 0 <= i < j < |bs| ==> bs[i].min != bs[j].min
  {
    forall i, j | 0 <= i < j < |bs|
      ensures bs[i].min != bs[j].min
    {
      RangesInOrder(bs, i, j);
      assert Dyadic(bs[i]);
    }
  }

  method SplitAmong(bs: seq<BucketObject>, ghost peers: set<PeerNode>, i: nat, ghost owned: set<BucketObject>)
    returns (cs: seq<BucketObject>, ghost more: set<BucketObject>)
    requires Owned(bs, owned) && Wired(bs, peers) && i < |bs| && bs[i].depth < ID_BITS
    ensures Wired(cs, peers)
    ensures Owned(cs, more) && fresh(more - owned)
    ensures BucketViews(cs, peers) ==
            Replace(old(BucketViews(bs, peers)), i, Split(old(bs[i].View())).0, Split(old(bs[i].View())).1)
  {
    var left, right := SplitBucket(bs[i]);
    cs, more := bs[..i] + [left, right] + bs[i + 1..], owned + {left, right};
    SplitViews(bs, cs, peers, i, left, right);
  }

  lemma SplitViews(bs: seq<BucketObject>, cs: seq<BucketObject>, peers: set<PeerNode>, i: nat,
                   left: BucketObject, right: BucketObject)
    requires Wired(bs, peers) && i < |bs|
    requires cs == bs[..i] + [left, right] + bs[i + 1..]
    requires Subset(left.nodes, bs[i].nodes) && Subset(left.cache, bs[i].cache)
    requires Subset(right.nodes, bs[i].nodes) && Subset(right.cache, bs[i].cache)
    ensures Wired(cs, peers)
    ensures BucketViews(cs, peers) == Replace(BucketViews(bs, peers), i, left.View(), right.View())
  {
    assert forall j :: 0 <= j < |cs| ==>
      cs[j] == if j < i then bs[j] else if j == i then left else if j == i + 1 then right else bs[j - 1];
  }

  method ListsAmong(ghost bs: seq<BucketObject>, ghost peers: set<PeerNode>, ghost i: nat, b: BucketObject,
                    nodes: seq<PeerNode>, cache: seq<PeerNode>, ghost added: set<PeerNode>)
    requires Wired(bs, peers) && i < |bs| && bs[i] == b
    requires forall j :: 0 <= j < |bs| && j != i ==> bs[j] != b
    requires forall n :: n in nodes || n in cache ==> n in peers + added
    modifies b
    ensures Wired(bs, peers + added)
    ensures BucketViews(bs, peers + added) ==
            old(BucketViews(bs, peers))[i := Bucket(b.min, b.max, b.depth, old(Views(nodes)), old(Views(cache)))]
  {
    b.nodes, b.cache := nodes, cache;
  }

  method SetAmong(ghost bs: seq<BucketObject>, ghost peers: set<PeerNode>, ghost i: nat, ghost p: nat,
                  m: PeerNode, addr: Addr, lastSeen: int, failures: nat)
    requires Wired(bs, peers)
    requires i < |bs| && bs[i].OnlyAt(m, p)
    requires forall j :: 0 <= j < |bs| && j != i ==> bs[j].Avoids(m)
    modifies m
    ensures Wired(bs, peers)
    ensures BucketViews(bs, peers) ==
            old(BucketViews(bs, peers))[i := SetAt(old(bs[i].View()), p, Node(m.id, addr, lastSeen, failures))]
  {
    forall j | 0 <= j < |bs| && j != i
      ensures m !in bs[j].nodes && m !in bs[j].cache
    {
      bs[j].AvoidsParts(m);
    }
    SetFields(bs[i], p, m, addr, lastSeen, failures);
  }

  method SetFields(ghost b: BucketObject, ghost p: nat, m: PeerNode, addr: Addr, lastSeen: int, failures: nat)
    requires b.OnlyAt(m, p)
    modifies m
    ensures b.View() == SetAt(old(b.View()), p, Node(m.id, addr, lastSeen, failures))
  {
    assert forall q: nat :: q < |b.nodes| ==> b.At(q) == b.nodes[q];
    assert forall q: nat :: q < |b.cache| ==> b.At(|b.nodes| + q) == b.cache[q];
    m.addr, m.lastSeen, m.failures := addr, lastSeen, failures;
  }
}
