/**
 The Kademlia routing table of `dht/table/table.go` as a state machine over values: what each
 locked operation does to the table, and the invariant every operation keeps.
 */
module TableModel {

  import opened Common
  import opened NodeIds
  import opened Buckets

  datatype Table = Table(buckets: seq<Bucket>, self: NodeId, k: int, threshold: int)

  datatype InsertResult = Updated | Inserted | Cached | Dropped

  datatype Outcome = Outcome(table: Table, result: InsertResult)

  // ----- operations

  function New(self: NodeId, k: int, threshold: int): Table {
    Table([Bucket(ZERO_ID, ZERO_ID, 0, [], [])], self, k, threshold)
  }

  /** Position of the first node with this identifier, or the length. */
  function IndexOf(ns: seq<Node>, id: NodeId): (p: nat)
    ensures p <= |ns|
    ensures p < |ns| ==> ns[p].id == id
    ensures forall j :: 0 <= j < p ==> ns[j].id != id
  {
    if ns == [] || ns[0].id == id then 0 else 1 + IndexOf(ns[1..], id)
  }

  /** The last bucket from `i` on whose successor does not start at or below `id`. */
  function BucketFrom(bs: seq<Bucket>, id: NodeId, i: nat): (r: nat)
    requires i < |bs|
    ensures i <= r < |bs|
    decreases |bs| - i
  {
    if i + 1 == |bs| || Compare(bs[i + 1].min, id) > 0 then i else BucketFrom(bs, id, i + 1)
  }

  function BucketFor(bs: seq<Bucket>, id: NodeId): (r: nat)
    requires |bs| > 0
    ensures r < |bs|
  {
    BucketFrom(bs, id, 0)
  }

  function Put(t: Table, i: nat, b: Bucket): Table
    requires i < |t.buckets|
  {
    t.(buckets := t.buckets[i := b])
  }

  function Refresh(m: Node, n: Node): Node {
    m.(addr := n.addr, lastSeen := n.lastSeen, failures := 0)
  }

  /** The nodes of `ns`, in order, that lie inside (or outside) bucket `b`. */
  function Select(ns: seq<Node>, b: Bucket, inside: bool): seq<Node> {
    if ns == [] then []
    else
      Select(ns[..|ns| - 1], b, inside) + if b.Contains(ns[|ns| - 1].id) == inside then [ns[|ns| - 1]] else []
  }

  function Split(b: Bucket): (Bucket, Bucket)
    requires b.depth < ID_BITS
  {
    var mid := Midpoint(b.min, b.depth);
    var left := Bucket(b.min, mid, b.depth + 1, [], []);
    var right := Bucket(mid, b.max, b.depth + 1, [], []);
    (left.(nodes := Select(b.nodes, left, true), cache := Select(b.cache, left, true)),
     right.(nodes := Select(b.nodes, left, false), cache := Select(b.cache, left, false)))
  }

  function SplitAt(t: Table, i: nat): Table
    requires i < |t.buckets| && t.buckets[i].depth < ID_BITS
  {
    var (left, right) := Split(t.buckets[i]);
    t.(buckets := Replace(t.buckets, i, left, right))
  }

  /** Full, without the identifier, and ours: the case in which `insert` splits and tries again. */
  predicate NeedsSplit(t: Table, n: Node)
    requires |t.buckets| > 0
  {
    var b := t.buckets[BucketFor(t.buckets, n.id)];
    IndexOf(b.nodes, n.id) == |b.nodes| && b.IsFull(t.k) && b.Contains(t.self)
  }

  /** The other cases inside the node's bucket: refresh in place, add, or use the replacement cache. */
  function PlaceIn(b: Bucket, n: Node, k: int): (Bucket, InsertResult) {
    var p := IndexOf(b.nodes, n.id);
    if p < |b.nodes| then
      (b.(nodes := b.nodes[p := Refresh(b.nodes[p], n)]), Updated)
    else if !b.IsFull(k) then
      (b.(nodes := b.nodes + [n]), Inserted)
    else
      var q := IndexOf(b.cache, n.id);
      if q < |b.cache| then (b.(cache := b.cache[q := Refresh(b.cache[q], n)]), Updated)
      else if |b.cache| < k then (b.(cache := b.cache + [n]), Cached)
      else (b, Dropped)
  }

  /** `insert`: every retry finds our own bucket one bit deeper, so it ends. */
  function Insert(t: Table, n: Node): Outcome
    requires Inv(t)
    decreases ID_BITS - OwnDepth(t)
  {
    if NeedsSplit(t, n) then
      SplitIsSafe(t, n);
      Insert(SplitAt(t, BucketFor(t.buckets, n.id)), n)
    else
      var i := BucketFor(t.buckets, n.id);
      var (b, result) := PlaceIn(t.buckets[i], n, t.k);
      Outcome(Put(t, i, b), result)
  }

  /** `MarkSuccess` looks at active nodes only. */
  function SucceedIn(b: Bucket, id: NodeId, now: int): Bucket {
    var p := IndexOf(b.nodes, id);
    if p < |b.nodes| then b.(nodes := b.nodes[p := b.nodes[p].(lastSeen := now, failures := 0)]) else b
  }

  function MarkSuccess(t: Table, id: NodeId, now: int): Table
    requires |t.buckets| > 0
  {
    var i := BucketFor(t.buckets, id);
    Put(t, i, SucceedIn(t.buckets[i], id, now))
  }

  function Without(ns: seq<Node>, p: nat): seq<Node>
    requires p < |ns|
  {
    ns[..p] + ns[p + 1..]
  }

  function Failed(n: Node): Node {
    n.(failures := n.failures + 1)
  }

  /** Drop the active node at `p`; the oldest replacement, if there is one, becomes active. */
  function EvictAt(b: Bucket, p: nat): Bucket
    requires p < |b.nodes|
  {
    if b.cache == [] then b.(nodes := Without(b.nodes, p))
    else b.(nodes := Without(b.nodes, p) + [b.cache[0]], cache := b.cache[1..])
  }

  /** Count the failure; at the threshold evict, and promote the oldest replacement. */
  function FailIn(b: Bucket, id: NodeId, threshold: int): Bucket {
    var p := IndexOf(b.nodes, id);
    var q := LastIndexOf(b.cache, id);
    if p < |b.nodes| then
      var n := Failed(b.nodes[p]);
      if !n.IsBad(threshold) then b.(nodes := b.nodes[p := n])
      else EvictAt(b, p)
    else if q < |b.cache| then
      var n := Failed(b.cache[q]);
      b.(cache := if n.IsBad(threshold) then Without(b.cache, q) else b.cache[q := n])
    else
      b
  }

  function MarkFailure(t: Table, id: NodeId): Table
    requires |t.buckets| > 0
  {
    var i := BucketFor(t.buckets, id);
    Put(t, i, FailIn(t.buckets[i], id, t.threshold))
  }

  /** Position of the last node with this identifier, or the length: the cache is scanned backwards. */
  function LastIndexOf(ns: seq<Node>, id: NodeId): (p: nat)
    ensures p <= |ns|
    ensures p < |ns| ==> ns[p].id == id
    ensures p == |ns| ==> forall j :: 0 <= j < |ns| ==> ns[j].id != id
    ensures forall j :: p < j < |ns| ==> ns[j].id != id
  {
    if ns == [] then 0
    else if ns[|ns| - 1].id == id then |ns| - 1
    else
      var p := LastIndexOf(ns[..|ns| - 1], id);
      if p == |ns| - 1 then |ns| else p
  }

  function NodeCount(bs: seq<Bucket>): nat {
    if bs == [] then 0 else NodeCount(bs[..|bs| - 1]) + |bs[|bs| - 1].nodes|
  }

  // ----- the invariant

  predicate Adjacent(b: Bucket, c: Bucket) {
    b.max != ZERO_ID && b.max == c.min
  }

  /** Consecutive dyadic ranges that cover the identifier space; only the last one ends at the sentinel. */
  predicate Partition(bs: seq<Bucket>) {
    && |bs| > 0
    && bs[0].min == ZERO_ID
    && bs[|bs| - 1].max == ZERO_ID
    && (forall i :: 0 <= i < |bs| ==> Dyadic(bs[i]))
    && (forall i :: 0 <= i < |bs| - 1 ==> Adjacent(bs[i], bs[i + 1]))
  }

  predicate DistinctIds(ns: seq<Node>) {
    forall i, j :: 0 <= i < j < |ns| ==> ns[i].id != ns[j].id
  }

  predicate ContentOk(b: Bucket, k: int) {
    && |b.nodes| <= k
    && |b.cache| <= k
    && (b.cache != [] ==> b.IsFull(k))
    && DistinctIds(b.All())
    && (forall n :: n in b.All() ==> b.Contains(n.id))
  }

  /** Our own bucket has no cache; any other one is the sibling at its depth of the path to `self`. */
  predicate PathOk(b: Bucket, self: NodeId) {
    if b.Contains(self) then b.cache == []
    else b.depth >= 1 && CommonPrefixLen(b.min, self) == b.depth - 1
  }

  predicate BucketOk(b: Bucket, k: int, self: NodeId) {
    ContentOk(b, k) && PathOk(b, self)
  }

  function OwnDepth(t: Table): nat
    requires |t.buckets| > 0
  {
    t.buckets[BucketFor(t.buckets, t.self)].depth
  }

  /** There is one bucket more than our own is deep, and a bucket of one identifier only for capacity one. */
  predicate OwnOk(t: Table) {
    forall i :: 0 <= i < |t.buckets| && t.buckets[i].Contains(t.self) ==>
      |t.buckets| == t.buckets[i].depth + 1 && (t.k >= 2 ==> t.buckets[i].depth < ID_BITS)
  }

  predicate Inv(t: Table) {
    && t.k >= 1
    && Partition(t.buckets)
    && (forall i :: 0 <= i < |t.buckets| ==> BucketOk(t.buckets[i], t.k, t.self))
    && OwnOk(t)
  }

  // ----- the partition

  lemma HasBuckets(t: Table)
    requires Inv(t)
    ensures |t.buckets| > 0
  {
  }

  lemma {:induction false} RangesInOrder(bs: seq<Bucket>, i: nat, j: nat)
    requires Partition(bs)
    requires i < j < |bs|
    ensures RangeEnd(bs[i]) <= Val(bs[j].min)
    decreases j
  {
    if i + 1 < j {
      RangesInOrder(bs, i, j - 1);
    }
    assert Adjacent(bs[j - 1], bs[j]) && Dyadic(bs[j - 1]);
  }

  lemma {:induction false} BucketFromFits(bs: seq<Bucket>, id: NodeId, i: nat)
    requires i < |bs|
    ensures var r := BucketFrom(bs, id, i);
      && (r + 1 < |bs| ==> Compare(bs[r + 1].min, id) > 0)
      && (i < r ==> Compare(bs[r].min, id) <= 0)
    decreases |bs| - i
  {
    if i + 1 < |bs| && Compare(bs[i + 1].min, id) <= 0 {
      BucketFromFits(bs, id, i + 1);
    }
  }

  /** Exactly one bucket contains an identifier, and it is the one the search returns. */
  lemma {:induction false} BucketForIsUnique(bs: seq<Bucket>, id: NodeId)
    requires Partition(bs)
    ensures bs[BucketFor(bs, id)].Contains(id)
    ensures forall j :: 0 <= j < |bs| && bs[j].Contains(id) ==> j == BucketFor(bs, id)
  {
    var r := BucketFor(bs, id);
    BucketFromFits(bs, id, 0);
    ContainsIsRange(bs[r], id);
    ZeroVal(ID_BITS);
    TopBound(id, ID_BITS);
    CompareIsValue(bs[r].min, id);
    if r + 1 < |bs| {
      CompareIsValue(bs[r + 1].min, id);
      assert Adjacent(bs[r], bs[r + 1]);
    }
    forall j | 0 <= j < |bs| && bs[j].Contains(id)
      ensures j == r
    {
      ContainsIsRange(bs[j], id);
      if j < r {
        RangesInOrder(bs, j, r);
      } else if r < j {
        RangesInOrder(bs, r, j);
      }
    }
  }

  lemma {:induction false} BucketFromPut(bs: seq<Bucket>, i: nat, b: Bucket, id: NodeId, j: nat)
    requires i < |bs| && j < |bs|
    requires b.min == bs[i].min
    ensures BucketFrom(bs[i := b], id, j) == BucketFrom(bs, id, j)
    decreases |bs| - j
  {
    if j + 1 < |bs| {
      BucketFromPut(bs, i, b, id, j + 1);
    }
  }

  predicate SameRange(b: Bucket, c: Bucket) {
    b.min == c.min && b.max == c.max && b.depth == c.depth
  }

  lemma PutKeepsPartition(bs: seq<Bucket>, i: nat, b: Bucket)
    requires Partition(bs)
    requires i < |bs| && SameRange(b, bs[i])
    ensures Partition(bs[i := b])
  {
    var cs := bs[i := b];
    assert Dyadic(b);
    forall j | 0 <= j < |cs| - 1
      ensures Adjacent(cs[j], cs[j + 1])
    {
      assert Adjacent(bs[j], bs[j + 1]);
    }
  }

  lemma OwnBucketCounts(t: Table)
    requires Partition(t.buckets)
    ensures OwnOk(t) <==> |t.buckets| == OwnDepth(t) + 1 && (t.k >= 2 ==> OwnDepth(t) < ID_BITS)
  {
    BucketForIsUnique(t.buckets, t.self);
  }

  lemma PutOwnDepth(t: Table, i: nat, b: Bucket)
    requires |t.buckets| > 0 && i < |t.buckets| && SameRange(b, t.buckets[i])
    ensures OwnDepth(Put(t, i, b)) == OwnDepth(t)
  {
    BucketFromPut(t.buckets, i, b, t.self, 0);
  }

  /** Replacing one bucket's contents is safe when the new contents are. */
  lemma PutKeepsInv(t: Table, i: nat, b: Bucket)
    requires Inv(t)
    requires i < |t.buckets| && SameRange(b, t.buckets[i]) && BucketOk(b, t.k, t.self)
    ensures Inv(Put(t, i, b))
    ensures OwnDepth(Put(t, i, b)) == OwnDepth(t)
  {
    hide OwnOk, BucketOk;
    PutOwnDepth(t, i, b);
    PutKeepsPartition(t.buckets, i, b);
    OwnBucketCounts(t);
    OwnBucketCounts(Put(t, i, b));
  }

  lemma NewIsValid(self: NodeId, k: int, threshold: int)
    requires k >= 1
    ensures Inv(New(self, k, threshold))
  {
    var b := New(self, k, threshold).buckets[0];
    ZeroVal(ID_BITS);
    TopBound(self, ID_BITS);
    assert ZeroBelow(ZERO_ID, 0) by {
      forall i: nat | i < ID_BITS
        ensures !Bit(ZERO_ID, i)
      {
        ZeroVal(i + 1);
      }
    }
    ContainsIsRange(b, self);
  }

  // ----- splitting

  lemma {:induction false} SelectMembers(ns: seq<Node>, b: Bucket, inside: bool)
    ensures forall n :: n in Select(ns, b, inside) <==> n in ns && b.Contains(n.id) == inside
  {
    if ns != [] {
      SelectMembers(ns[..|ns| - 1], b, inside);
      assert ns == ns[..|ns| - 1] + [ns[|ns| - 1]];
    }
  }

  /** Nodes keep their order in the half they go to. */
  lemma {:induction false} SelectKeepsOrder(ns: seq<Node>, b: Bucket, inside: bool)
    ensures Subsequence(Select(ns, b, inside), ns)
  {
    if ns != [] {
      var init, last := ns[..|ns| - 1], ns[|ns| - 1];
      SelectKeepsOrder(init, b, inside);
      SelectMembers(init, b, inside);
      assert Select(init, b, inside) + [] == Select(init, b, inside);
    }
  }

  lemma {:induction false} SelectDistinct(ns: seq<Node>, b: Bucket, inside: bool)
    requires DistinctIds(ns)
    ensures DistinctIds(Select(ns, b, inside))
  {
    if ns != [] {
      SelectDistinct(ns[..|ns| - 1], b, inside);
      SelectMembers(ns[..|ns| - 1], b, inside);
    }
  }

  lemma {:induction false} SelectCount(ns: seq<Node>, b: Bucket)
    ensures |Select(ns, b, true)| + |Select(ns, b, false)| == |ns|
  {
    if ns != [] {
      SelectCount(ns[..|ns| - 1], b);
    }
  }

  lemma {:induction false} Pigeonhole(ns: seq<Node>, low: nat, size: nat)
    requires DistinctIds(ns)
    requires forall p :: 0 <= p < |ns| ==> low <= Val(ns[p].id) < low + size
    ensures |ns| <= size
  {
    if |ns| == 0 {
      return;
    }
    assert Val(ns[0].id) < low + size;
    if p :| 0 <= p < |ns| && Val(ns[p].id) == low + size - 1 {
      var rest := Without(ns, p);
      forall q | 0 <= q < |rest|
        ensures low <= Val(rest[q].id) < low + (size - 1)
      {
        if Val(rest[q].id) == Val(ns[p].id) {
          ValInjective(rest[q].id, ns[p].id);
        }
      }
      Pigeonhole(rest, low, size - 1);
    } else {
      Pigeonhole(ns, low, size - 1);
    }
  }

  /** A full bucket that still has to take `id` holds enough identifiers to be split again. */
  lemma RoomToSplit(b: Bucket, k: int, id: NodeId)
    requires k >= 1 && Dyadic(b) && ContentOk(b, k)
    requires b.Contains(id) && b.IsFull(k) && IndexOf(b.nodes, id) == |b.nodes|
    ensures b.depth < ID_BITS
    ensures k >= 2 ==> b.depth + 1 < ID_BITS
  {
    var ns := b.nodes + [Node(id, Addr([], 0), 0, 0)];
    forall p | 0 <= p < |ns|
      ensures Val(b.min) <= Val(ns[p].id) < Val(b.min) + Pow2(ID_BITS - b.depth)
    {
      assert p < |b.nodes| ==> ns[p] in b.All();
      ContainsIsRange(b, ns[p].id);
    }
    assert DistinctIds(ns) by {
      assert b.nodes == b.All()[..|b.nodes|];
    }
    Pigeonhole(ns, Val(b.min), Pow2(ID_BITS - b.depth));
    assert Pow2(0) == 1 && Pow2(1) == 2;
  }

  /**
   Why a bucket size of at least one is needed: with zero, inserting our own identifier asks for a split of our
   own bucket in every table without nodes, even when that bucket holds a single identifier.
   */
  lemma ZeroCapacityAlwaysSplits(t: Table, n: Node)
    requires t.k == 0 && Partition(t.buckets) && n.id == t.self
    requires forall i :: 0 <= i < |t.buckets| ==> t.buckets[i].nodes == []
    ensures NeedsSplit(t, n)
  {
    BucketForIsUnique(t.buckets, t.self);
  }

  /** What `insert` needs for its next round. */
  lemma SplitIsSafe(t: Table, n: Node)
    requires Inv(t) && NeedsSplit(t, n)
    ensures var i := BucketFor(t.buckets, n.id);
      && t.buckets[i].depth < ID_BITS && t.buckets[i].Contains(t.self) && t.buckets[i].cache == []
      && Inv(SplitAt(t, i)) && OwnDepth(SplitAt(t, i)) == OwnDepth(t) + 1
  {
    var i := BucketFor(t.buckets, n.id);
    assert BucketOk(t.buckets[i], t.k, t.self);
    BucketForIsUnique(t.buckets, n.id);
    RoomToSplit(t.buckets[i], t.k, n.id);
    SplitKeepsInv(t, i);
  }

  /** The two halves: ranges, and which identifiers fall where. */
  lemma SplitRanges(b: Bucket)
    requires Dyadic(b) && b.depth < ID_BITS
    ensures var (left, right) := Split(b);
      && Dyadic(left) && Dyadic(right)
      && left.max == right.min && left.max != ZERO_ID
      && left.min == b.min && right.max == b.max
      && (forall id: NodeId :: b.Contains(id) <==> left.Contains(id) || right.Contains(id))
      && (forall id: NodeId :: !(left.Contains(id) && right.Contains(id)))
  {
    var (left, right) := Split(b);
    MidpointHalves(b.min, b.depth);
    ZeroVal(ID_BITS);
    forall id: NodeId
      ensures b.Contains(id) <==> left.Contains(id) || right.Contains(id)
      ensures !(left.Contains(id) && right.Contains(id))
    {
      ContainsIsRange(b, id);
      ContainsIsRange(left, id);
      ContainsIsRange(right, id);
    }
  }

  lemma SplitContents(b: Bucket, k: int)
    requires Dyadic(b) && b.depth < ID_BITS
    requires ContentOk(b, k) && b.cache == []
    ensures var (left, right) := Split(b);
      && left.cache == [] && right.cache == []
      && ContentOk(left, k) && ContentOk(right, k)
      && |left.nodes| + |right.nodes| == |b.nodes|
  {
    var (left, right) := Split(b);
    SplitRanges(b);
    var half := Bucket(left.min, left.max, left.depth, [], []);
    assert forall id: NodeId :: half.Contains(id) == left.Contains(id);
    assert b.All() == b.nodes && left.All() == left.nodes && right.All() == right.nodes;
    SelectMembers(b.nodes, half, true);
    SelectMembers(b.nodes, half, false);
    SelectDistinct(b.nodes, half, true);
    SelectDistinct(b.nodes, half, false);
    SelectCount(b.nodes, half);
  }

  lemma SplitKeepsOrder(b: Bucket)
    requires b.depth < ID_BITS
    ensures var (left, right) := Split(b);
      Subsequence(left.nodes, b.nodes) && Subsequence(right.nodes, b.nodes)
  {
    var (left, right) := Split(b);
    var half := Bucket(left.min, left.max, left.depth, [], []);
    SelectKeepsOrder(b.nodes, half, true);
    SelectKeepsOrder(b.nodes, half, false);
  }

  /** Of two siblings, the one without `self` leaves the path to `self` exactly at its last bit. */
  lemma SiblingOffPath(b: Bucket, half: Bucket, self: NodeId)
    requires Dyadic(b) && Dyadic(half) && half.depth == b.depth + 1
    requires b.Contains(self) && !half.Contains(self) && b.Contains(half.min)
    ensures CommonPrefixLen(half.min, self) == half.depth - 1
  {
    ContainsIsPrefix(b, self);
    ContainsIsPrefix(b, half.min);
    ContainsIsPrefix(half, self);
    PrefixLenIsTop(b.min, self, b.depth);
    PrefixLenIsTop(b.min, half.min, b.depth);
    PrefixLenIsTop(half.min, self, b.depth);
  }

  lemma ContainsMin(b: Bucket)
    requires Dyadic(b)
    ensures b.Contains(b.min)
  {
    ContainsIsRange(b, b.min);
  }

  lemma SplitPath(b: Bucket, self: NodeId)
    requires Dyadic(b) && b.depth < ID_BITS
    requires b.Contains(self) && b.cache == []
    ensures var (left, right) := Split(b);
      PathOk(left, self) && PathOk(right, self)
  {
    var (left, right) := Split(b);
    SplitRanges(b);
    ContainsMin(left);
    ContainsMin(right);
    if left.Contains(self) {
      SiblingOffPath(b, right, self);
    } else {
      SiblingOffPath(b, left, self);
    }
  }

  /** `bucketSliceReplace`: two adjacent halves in place of one bucket. */
  function Replace(bs: seq<Bucket>, i: nat, left: Bucket, right: Bucket): (cs: seq<Bucket>)
    requires i < |bs|
    ensures |cs| == |bs| + 1
    ensures forall j :: 0 <= j < |cs| ==>
              cs[j] == if j < i then bs[j] else if j == i then left else if j == i + 1 then right else bs[j - 1]
  {
    bs[..i] + [left, right] + bs[i + 1..]
  }

  lemma ReplaceKeepsPartition(bs: seq<Bucket>, i: nat, left: Bucket, right: Bucket)
    requires Partition(bs)
    requires i < |bs|
    requires Dyadic(left) && Dyadic(right) && Adjacent(left, right)
    requires left.min == bs[i].min && right.max == bs[i].max
    ensures Partition(Replace(bs, i, left, right))
  {
    var cs := Replace(bs, i, left, right);
    forall j | 0 <= j < |cs| - 1
      ensures Adjacent(cs[j], cs[j + 1])
    {
      assert 0 < j ==> Adjacent(bs[j - 1], bs[j]);
      assert j + 1 < |bs| ==> Adjacent(bs[j], bs[j + 1]);
    }
  }

  lemma SplitKeepsBuckets(t: Table, i: nat)
    requires Inv(t)
    requires i < |t.buckets| && t.buckets[i].depth < ID_BITS && t.buckets[i].Contains(t.self)
    ensures forall b :: b in SplitAt(t, i).buckets ==> BucketOk(b, t.k, t.self)
  {
    var b := t.buckets[i];
    assert BucketOk(b, t.k, t.self);
    SplitContents(b, t.k);
    SplitPath(b, t.self);
    forall j | 0 <= j < |SplitAt(t, i).buckets|
      ensures BucketOk(SplitAt(t, i).buckets[j], t.k, t.self)
    {
      assert j < i ==> BucketOk(t.buckets[j], t.k, t.self);
      assert j > i + 1 ==> BucketOk(t.buckets[j - 1], t.k, t.self);
    }
  }

  lemma SplitOwnDepth(t: Table, i: nat)
    requires i < |t.buckets| && t.buckets[i].depth < ID_BITS && t.buckets[i].Contains(t.self)
    requires Partition(t.buckets) && Partition(SplitAt(t, i).buckets)
    ensures OwnDepth(SplitAt(t, i)) == OwnDepth(t) + 1
  {
    var cs := SplitAt(t, i).buckets;
    SplitRanges(t.buckets[i]);
    BucketForIsUnique(t.buckets, t.self);
    BucketForIsUnique(cs, t.self);
    assert cs[i].Contains(t.self) || cs[i + 1].Contains(t.self);
  }

  /** Splitting our own bucket keeps the invariant and makes our own bucket one bit deeper. */
  lemma SplitKeepsInv(t: Table, i: nat)
    requires Inv(t)
    requires i < |t.buckets| && t.buckets[i].depth < ID_BITS && t.buckets[i].Contains(t.self)
    requires t.k >= 2 ==> t.buckets[i].depth + 1 < ID_BITS
    ensures Inv(SplitAt(t, i))
    ensures OwnDepth(SplitAt(t, i)) == OwnDepth(t) + 1
  {
    hide Split, BucketOk, OwnOk;
    var (left, right) := Split(t.buckets[i]);
    SplitRanges(t.buckets[i]);
    ReplaceKeepsPartition(t.buckets, i, left, right);
    SplitKeepsBuckets(t, i);
    SplitOwnDepth(t, i);
    BucketForIsUnique(t.buckets, t.self);
    OwnBucketCounts(t);
    OwnBucketCounts(SplitAt(t, i));
  }
}
