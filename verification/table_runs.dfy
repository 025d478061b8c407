/**
 The routing table over whole runs: the Kademlia path its buckets form, the exact bound on bucket
 depth, what is conserved, and which properties of nodes survive every operation.
 */
module TableRuns {

  import opened Common
  import opened NodeIds
  import opened Buckets
  import opened TableModel
  import opened TableTheorems

  // ----- reachable tables

  datatype Op =
    | DoInsert(node: Node)
    | DoSuccess(id: NodeId, now: int)
    | DoFailure(id: NodeId)

  function Apply(t: Table, op: Op): Table
    requires Inv(t)
  {
    match op
    case DoInsert(n) => Insert(t, n).table
    case DoSuccess(id, now) => MarkSuccess(t, id, now)
    case DoFailure(id) => MarkFailure(t, id)
  }

  lemma InsertFrame(t: Table, n: Node)
    requires Inv(t)
    ensures var u := Insert(t, n).table;
      u.self == t.self && u.k == t.k && u.threshold == t.threshold
    decreases ID_BITS - OwnDepth(t)
  {
    if NeedsSplit(t, n) {
      SplitIsSafe(t, n);
      InsertFrame(SplitAt(t, BucketFor(t.buckets, n.id)), n);
    }
  }

  lemma ApplyKeepsInv(t: Table, op: Op)
    requires Inv(t)
    ensures Inv(Apply(t, op))
    ensures Apply(t, op).self == t.self && Apply(t, op).k == t.k && Apply(t, op).threshold == t.threshold
  {
    match op
    case DoInsert(n) =>
      InsertRefinesMap(t, n, n.id);
      InsertFrame(t, n);
    case DoSuccess(id, now) =>
      MarkSuccessRefinesMap(t, id, now, id);
    case DoFailure(id) =>
      MarkFailureRefinesMap(t, id, id);
  }

  /** The table after any sequence of operations; every one of them satisfies the invariant. */
  function Run(t: Table, ops: seq<Op>): (u: Table)
    requires Inv(t)
    ensures Inv(u)
    ensures u.self == t.self && u.k == t.k && u.threshold == t.threshold
    decreases |ops|
  {
    if ops == [] then t
    else
      ApplyKeepsInv(t, ops[0]);
      Run(Apply(t, ops[0]), ops[1..])
  }

  // ----- the Kademlia path

  /** `id` with bit `i` inverted. */
  function Flip(id: NodeId, i: nat): NodeId
    requires i < ID_BITS
  {
    id[i / 8 := id[i / 8] ^ (0x80 >> (i % 8))]
  }

  predicate OneBit(x: Byte) {
    x != 0 && x & (x - 1) == 0
  }

  lemma FlipOneBit(x: Byte, bit: Byte, other: Byte)
    requires OneBit(bit) && OneBit(other)
    ensures (x ^ bit) & other != 0 <==> (x & other != 0) != (bit == other)
  {
  }

  lemma FlipByte(x: Byte, r: nat, k: nat)
    requires r < 8 && k < 8
    ensures ByteBit(x ^ (0x80 >> r), k) <==> ByteBit(x, k) != (r == k)
  {
    SingleBits(r, k);
    FlipOneBit(x, 0x80 >> r, 0x80 >> k);
  }

  lemma SingleBits(r: nat, k: nat)
    requires r < 8 && k < 8
    ensures OneBit(0x80 >> r) && OneBit(0x80 >> k)
    ensures 0x80 as Byte >> r == 0x80 as Byte >> k <==> r == k
  {
  }

  lemma {:induction false} FlipPrefixLen(id: NodeId, i: nat)
    requires i < ID_BITS
    ensures CommonPrefixLen(id, Flip(id, i)) == i
  {
    hide Flip, Bit;
    forall j: nat | j <= i
      ensures Bit(Flip(id, i), j) <==> Bit(id, j) != (i == j)
    {
      FlipBit(id, i, j);
    }
    FirstDifferenceIs(id, Flip(id, i), 0, i);
  }

  lemma FlipBit(id: NodeId, i: nat, j: nat)
    requires i < ID_BITS && j < ID_BITS
    ensures Bit(Flip(id, i), j) <==> Bit(id, j) != (i == j)
  {
    hide ByteBit;
    if j / 8 == i / 8 {
      FlipByte(id[j / 8], i % 8, j % 8);
    }
  }

  /** Our own bucket holds the identifiers that share at least its depth in bits with ours. */
  lemma OwnBucketIsPrefix(t: Table, id: NodeId)
    requires Inv(t)
    ensures t.buckets[BucketFor(t.buckets, t.self)].Contains(id) <==> CommonPrefixLen(t.self, id) >= OwnDepth(t)
  {
    var b := t.buckets[BucketFor(t.buckets, t.self)];
    BucketForIsUnique(t.buckets, t.self);
    ContainsIsPrefix(b, t.self);
    ContainsIsPrefix(b, id);
    PrefixLenIsTop(b.min, t.self, b.depth);
    PrefixLenIsTop(b.min, id, b.depth);
    PrefixLenIsTop(t.self, id, b.depth);
  }

  /** Any other bucket holds exactly the identifiers that leave our path at its last bit. */
  lemma OtherBucketIsSibling(b: Bucket, self: NodeId, id: NodeId)
    requires Dyadic(b) && !b.Contains(self) && PathOk(b, self)
    ensures b.Contains(id) <==> CommonPrefixLen(self, id) == b.depth - 1
  {
    ContainsIsPrefix(b, id);
    forall d | b.depth - 1 <= d <= b.depth
      ensures CommonPrefixLen(b.min, self) >= d <==> Top(b.min, d) == Top(self, d)
      ensures CommonPrefixLen(b.min, id) >= d <==> Top(b.min, d) == Top(id, d)
      ensures CommonPrefixLen(self, id) >= d <==> Top(self, d) == Top(id, d)
    {
      PrefixLenIsTop(b.min, self, d);
      PrefixLenIsTop(b.min, id, d);
      PrefixLenIsTop(self, id, d);
    }
    assert Top(b.min, b.depth) == 2 * Top(b.min, b.depth - 1) + BitVal(b.min, b.depth - 1);
  }

  /** No bucket is deeper than our own. */
  lemma OwnIsDeepest(t: Table, i: nat)
    requires Inv(t) && i < |t.buckets|
    ensures t.buckets[i].depth <= OwnDepth(t)
  {
    var b := t.buckets[i];
    assert BucketOk(b, t.k, t.self);
    BucketForIsUnique(t.buckets, t.self);
    if !b.Contains(t.self) && b.depth > OwnDepth(t) {
      var id := Flip(t.self, b.depth - 1);
      FlipPrefixLen(t.self, b.depth - 1);
      OtherBucketIsSibling(b, t.self, id);
      OwnBucketIsPrefix(t, id);
      BucketForIsUnique(t.buckets, id);
      assert false;
    }
  }

  /** Bucket `i` is not ours and has depth `d`. */
  predicate OtherAt(t: Table, i: nat, d: nat)
    requires |t.buckets| > 0
  {
    i < |t.buckets| && i != BucketFor(t.buckets, t.self) && t.buckets[i].depth == d
  }

  /**
   In every reachable table the buckets form one path: our own bucket, of depth D, and D others.
   The other bucket at depth d holds exactly the identifiers whose common prefix with ours has
   length d - 1.
   */
  lemma KademliaPath(t: Table, i: nat, d: nat, id: NodeId)
    requires Inv(t) && OtherAt(t, i, d)
    ensures |t.buckets| == OwnDepth(t) + 1
    ensures 1 <= d <= OwnDepth(t)
    ensures t.buckets[i].Contains(id) <==> CommonPrefixLen(t.self, id) == d - 1
  {
    assert BucketOk(t.buckets[i], t.k, t.self);
    BucketForIsUnique(t.buckets, t.self);
    OwnIsDeepest(t, i);
    OtherBucketIsSibling(t.buckets[i], t.self, id);
  }

  lemma OffPathIsElsewhere(t: Table, id: NodeId)
    requires Inv(t) && CommonPrefixLen(t.self, id) < OwnDepth(t)
    ensures BucketFor(t.buckets, id) != BucketFor(t.buckets, t.self)
    ensures t.buckets[BucketFor(t.buckets, id)].Contains(id)
  {
    BucketForIsUnique(t.buckets, id);
    OwnBucketIsPrefix(t, id);
  }

  lemma FlipIsOffPath(t: Table, d: nat)
    requires Inv(t) && 1 <= d <= OwnDepth(t)
    ensures OtherAt(t, BucketFor(t.buckets, Flip(t.self, d - 1)), d)
  {
    hide Flip, CommonPrefixLen, BucketFor;
    var id := Flip(t.self, d - 1);
    var r := BucketFor(t.buckets, id);
    FlipPrefixLen(t.self, d - 1);
    OffPathIsElsewhere(t, id);
    KademliaPath(t, r, t.buckets[r].depth, id);
  }

  lemma OnlyOneAt(t: Table, i: nat, d: nat)
    requires Inv(t) && OtherAt(t, i, d)
    ensures 1 <= d && i == BucketFor(t.buckets, Flip(t.self, d - 1))
  {
    hide Flip, CommonPrefixLen, BucketFor;
    KademliaPath(t, i, d, t.self);
    KademliaPath(t, i, d, Flip(t.self, d - 1));
    FlipPrefixLen(t.self, d - 1);
    BucketForIsUnique(t.buckets, Flip(t.self, d - 1));
  }

  /** ... and there is exactly one of them at every depth down to ours. */
  lemma OneBucketPerDepth(t: Table, d: nat)
    requires Inv(t) && 1 <= d <= OwnDepth(t)
    ensures exists i: nat :: OtherAt(t, i, d)
    ensures forall i: nat, j: nat :: OtherAt(t, i, d) && OtherAt(t, j, d) ==> i == j
  {
    FlipIsOffPath(t, d);
    forall i: nat, j: nat | OtherAt(t, i, d) && OtherAt(t, j, d)
      ensures i == j
    {
      OnlyOneAt(t, i, d);
      OnlyOneAt(t, j, d);
    }
  }

  // ----- the exact depth bound

  /** The bucket for `id` is full and not ours. */
  predicate ClosedTo(t: Table, id: NodeId)
    requires |t.buckets| > 0
  {
    var b := t.buckets[BucketFor(t.buckets, id)];
    !b.Contains(t.self) && |b.nodes| == t.k
  }

  /** The cache of the bucket for `id` holds as many as it may. */
  predicate NoRoomToWait(t: Table, id: NodeId)
    requires |t.buckets| > 0
  {
    |t.buckets[BucketFor(t.buckets, id)].cache| >= t.k
  }

  /** A node is cached or refused only by a full bucket that is not ours, and refused only when the cache is full too. */
  lemma RefusedElsewhere(t: Table, n: Node)
    requires Inv(t)
    ensures |Insert(t, n).table.buckets| > 0
    ensures Insert(t, n).result in {Cached, Dropped} ==> ClosedTo(Insert(t, n).table, n.id)
    ensures Insert(t, n).result == Dropped ==> NoRoomToWait(Insert(t, n).table, n.id)
    decreases ID_BITS - OwnDepth(t)
  {
    hide SplitAt, ClosedTo, NoRoomToWait;
    if NeedsSplit(t, n) {
      SplitIsSafe(t, n);
      RefusedElsewhere(SplitAt(t, BucketFor(t.buckets, n.id)), n);
    } else {
      RefusedHere(t, n);
    }
  }

  lemma RefusedHere(t: Table, n: Node)
    requires Inv(t) && !NeedsSplit(t, n)
    ensures |Insert(t, n).table.buckets| > 0
    ensures Insert(t, n).result in {Cached, Dropped} ==> ClosedTo(Insert(t, n).table, n.id)
    ensures Insert(t, n).result == Dropped ==> NoRoomToWait(Insert(t, n).table, n.id)
  {
    hide Inv, IndexOf;
    var i := BucketFor(t.buckets, n.id);
    BucketFromPut(t.buckets, i, PlaceIn(t.buckets[i], n, t.k).0, n.id, 0);
  }

  lemma InsertIntoEmpty(self: NodeId, threshold: int, m: Node, x: NodeId)
    requires Inv(New(self, 1, threshold))
    requires m.id == self && x != self
    ensures var u := Insert(New(self, 1, threshold), m).table;
      Inv(u) && Lookup(u, self) == Some(m) && Lookup(u, x) == None
  {
    hide Insert, Lookup;
    var t := New(self, 1, threshold);
    NothingStored(self, threshold, self);
    NothingStored(self, threshold, x);
    InsertRefinesMap(t, m, self);
    InsertRefinesMap(t, m, x);
    InsertedFirst(self, threshold, m);
  }

  lemma NothingStored(self: NodeId, threshold: int, x: NodeId)
    ensures Lookup(New(self, 1, threshold), x) == None
  {
  }

  lemma InsertedFirst(self: NodeId, threshold: int, m: Node)
    requires Inv(New(self, 1, threshold)) && m.id == self
    ensures Insert(New(self, 1, threshold), m).result == Inserted
    ensures Inv(Insert(New(self, 1, threshold), m).table)
  {
    InsertRefinesMap(New(self, 1, threshold), m, self);
  }

  lemma BothInOwnBucket(t: Table, m: Node, n: Node)
    requires Inv(t) && t.k == 1
    requires m.id == t.self && CommonPrefixLen(t.self, n.id) == ID_BITS - 1
    requires Lookup(t, m.id) == Some(m)
    requires Lookup(t, n.id) == Some(n) || ClosedTo(t, n.id)
    ensures OwnDepth(t) == ID_BITS
  {
    var b := t.buckets[BucketFor(t.buckets, t.self)];
    BucketForIsUnique(t.buckets, t.self);
    BucketForIsUnique(t.buckets, n.id);
    OwnBucketIsPrefix(t, n.id);
    PrefixLenIsTop(t.self, t.self, ID_BITS);
    assert BucketOk(b, 1, t.self);
    assert b.All() == b.nodes;
    OneNodeOneId(b.nodes, m.id, n.id);
  }

  lemma OneNodeOneId(ns: seq<Node>, x: NodeId, y: NodeId)
    ensures |ns| <= 1 && IndexOf(ns, x) < |ns| && IndexOf(ns, y) < |ns| ==> x == y
  {
  }

  function SelfAndSibling(self: NodeId, addr: Addr): seq<Op> {
    [DoInsert(Node(self, addr, 0, 0)), DoInsert(Node(Flip(self, ID_BITS - 1), addr, 0, 0))]
  }

  lemma RunTwo(t: Table, a: Op, b: Op)
    requires Inv(t)
    ensures Inv(Apply(t, a))
    ensures Run(t, [a, b]) == Apply(Apply(t, a), b)
  {
    ApplyKeepsInv(t, a);
    ApplyKeepsInv(Apply(t, a), b);
    assert [a, b][1..] == [b];
    assert Run(Apply(t, a), [b]) == Run(Apply(Apply(t, a), b), [b][1..]);
  }

  /** With capacity one, our own identifier and its nearest sibling force a bucket of one identifier. */
  lemma OneNodeBucketsReachBottom(t: Table, self: NodeId, threshold: int, addr: Addr)
    requires Inv(t) && t == New(self, 1, threshold)
    ensures OwnDepth(Run(t, SelfAndSibling(self, addr))) == ID_BITS
  {
    var m := Node(self, addr, 0, 0);
    var n := Node(Flip(self, ID_BITS - 1), addr, 0, 0);
    FlipPrefixLen(self, ID_BITS - 1);
    PrefixLenIsTop(self, self, ID_BITS);
    InsertIntoEmpty(self, threshold, m, n.id);
    InsertFrame(t, m);
    var u := Insert(t, m).table;
    InsertRefinesMap(u, n, self);
    InsertRefinesMap(u, n, n.id);
    InsertFrame(u, n);
    RefusedElsewhere(u, n);
    BothInOwnBucket(Insert(u, n).table, m, n);
    RunTwo(t, DoInsert(m), DoInsert(n));
  }

  ghost predicate AllShallow(t: Table) {
    forall i :: 0 <= i < |t.buckets| ==> t.buckets[i].depth < ID_BITS
  }

  lemma TwoNodesStayShallow(t: Table)
    requires Inv(t) && t.k >= 2
    ensures AllShallow(t)
  {
    OwnBucketCounts(t);
    forall i | 0 <= i < |t.buckets|
      ensures t.buckets[i].depth < ID_BITS
    {
      OwnIsDeepest(t, i);
    }
  }

  ghost predicate AlwaysShallow(t: Table)
    requires Inv(t)
  {
    forall ops: seq<Op> :: AllShallow(Run(t, ops))
  }

  /**
   Every bucket of every reachable table is shallow enough for a random refresh target exactly when
   the bucket size is at least two.
   */
  lemma RefreshTargetsExist(self: NodeId, k: int, threshold: int)
    requires k >= 1
    ensures Inv(New(self, k, threshold))
    ensures AlwaysShallow(New(self, k, threshold)) <==> k >= 2
  {
    NewIsValid(self, k, threshold);
    DepthBoundFor(New(self, k, threshold), self, threshold);
  }

  lemma DepthBoundFor(t: Table, self: NodeId, threshold: int)
    requires Inv(t) && t == New(self, t.k, threshold)
    ensures AlwaysShallow(t) <==> t.k >= 2
  {
    if t.k >= 2 {
      RunsStayShallow(t);
    } else {
      OneNodeBucketsReachBottom(t, self, threshold, Addr([], 0));
      DeepRun(t, SelfAndSibling(self, Addr([], 0)));
    }
  }

  lemma RunsStayShallow(t: Table)
    requires Inv(t) && t.k >= 2
    ensures AlwaysShallow(t)
  {
    forall ops: seq<Op>
      ensures AllShallow(Run(t, ops))
    {
      TwoNodesStayShallow(Run(t, ops));
    }
  }

  lemma DeepRun(t: Table, ops: seq<Op>)
    requires Inv(t) && OwnDepth(Run(t, ops)) == ID_BITS
    ensures !AlwaysShallow(t)
  {
    DeepIsNotShallow(Run(t, ops));
  }

  lemma DeepIsNotShallow(t: Table)
    requires |t.buckets| > 0 && OwnDepth(t) == ID_BITS
    ensures !AllShallow(t)
  {
  }
}
