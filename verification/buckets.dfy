/**
 Nodes and buckets of the routing table as values (`dht/table/node.go`, `dht/table/bucket.go`):
 dyadic ranges, the split point, and the random refresh target.
 */
module Buckets {

  import opened NodeIds

  datatype Addr = Addr(ip: seq<Byte>, port: int)

  /** One known peer; `failures` counts consecutive failed queries. */
  datatype Node = Node(id: NodeId, addr: Addr, lastSeen: int, failures: nat) {
    predicate IsBad(threshold: int) {
      failures >= threshold
    }
  }

  /** `max == ZERO_ID` stands for the end of the identifier space. */
  datatype Bucket = Bucket(min: NodeId, max: NodeId, depth: nat, nodes: seq<Node>, cache: seq<Node>) {

    predicate Contains(id: NodeId) {
      if max == ZERO_ID then Compare(id, min) >= 0
      else Compare(id, min) >= 0 && Compare(id, max) < 0
    }

    predicate IsFull(k: int) {
      |nodes| == k
    }

    /** Active nodes, then replacement-cache nodes. */
    function All(): seq<Node> {
      nodes + cache
    }
  }

  // ----- dyadic ranges

  function RangeEnd(b: Bucket): nat {
    if b.max == ZERO_ID then Pow2(ID_BITS) else Val(b.max)
  }

  predicate Dyadic(b: Bucket) {
    && b.depth <= ID_BITS
    && ZeroBelow(b.min, b.depth)
    && RangeEnd(b) == Val(b.min) + Pow2(ID_BITS - b.depth)
  }

  lemma {:induction false} ContainsIsRange(b: Bucket, id: NodeId)
    ensures b.Contains(id) <==> Val(b.min) <= Val(id) < RangeEnd(b)
  {
    CompareIsValue(id, b.min);
    CompareIsValue(id, b.max);
    TopBound(id, ID_BITS);
  }

  /** A dyadic bucket contains exactly the identifiers that share its first `depth` bits. */
  lemma {:induction false} ContainsIsPrefix(b: Bucket, id: NodeId)
    requires Dyadic(b)
    ensures b.Contains(id) <==> CommonPrefixLen(b.min, id) >= b.depth
  {
    ContainsIsRange(b, id);
    IntervalIsPrefix(b.min, id, b.depth);
  }

  // ----- the split point

  function MidByte(x: Byte, r: nat): Byte
    requires r < 8
  {
    (x | (1 << (7 - r))) & !((1 << (7 - r)) - 1)
  }

  /** `min` with bit `d` set and every lower bit cleared. */
  function Midpoint(min: NodeId, d: nat): NodeId
    requires d < ID_BITS
  {
    min[..d / 8] + [MidByte(min[d / 8], d % 8)] + Zeros(ID_LEN - d / 8 - 1)
  }

  lemma MidByteBits(x: Byte, r: nat, k: nat)
    requires r < 8 && k < 8
    ensures ByteBit(MidByte(x, r), k) <==> k == r || (k < r && ByteBit(x, k))
  {
  }

  lemma {:induction false} MidpointBits(min: NodeId, d: nat, i: nat)
    requires d < ID_BITS && i < ID_BITS
    ensures Bit(Midpoint(min, d), i) <==> i == d || (i < d && Bit(min, i))
  {
    if i / 8 == d / 8 {
      MidByteBits(min[i / 8], d % 8, i % 8);
    }
  }

  /** The split point halves the range. */
  lemma {:induction false} MidpointHalves(min: NodeId, d: nat)
    requires d < ID_BITS
    requires ZeroBelow(min, d)
    ensures ZeroBelow(Midpoint(min, d), d + 1)
    ensures Val(Midpoint(min, d)) == Val(min) + Pow2(ID_BITS - d - 1)
  {
    var mid := Midpoint(min, d);
    forall i: nat | i < ID_BITS
      ensures Bit(mid, i) <==> i == d || Bit(min, i)
    {
      MidpointBits(min, d, i);
    }
    TopIsPrefix(min, mid, d);
    MidpointTop(min, mid, d, ID_BITS);
  }

  lemma {:induction false} MidpointTop(min: NodeId, mid: NodeId, d: nat, e: nat)
    requires d < e <= ID_BITS
    requires Top(min, d) == Top(mid, d)
    requires forall i: nat :: d <= i < e ==> !Bit(min, i) && (Bit(mid, i) <==> i == d)
    ensures Top(mid, e) == Top(min, e) + Pow2(e - d - 1)
  {
    if d + 1 < e {
      MidpointTop(min, mid, d, e - 1);
    }
  }

  // ----- the random refresh target

  function PrefixMask(r: nat): Byte
    requires r < 8
  {
    0xFF << (8 - r)
  }

  function MaskedByte(min: Byte, random: Byte, r: nat): Byte
    requires r < 8
  {
    (min & PrefixMask(r)) | (random & !PrefixMask(r))
  }

  lemma PrefixMaskBits(r: nat, k: nat)
    requires r < 8 && k < 8
    ensures ByteBit(PrefixMask(r), k) <==> k < r
  {
  }

  lemma MergeBits(x: Byte, y: Byte, mask: Byte, k: nat)
    requires k < 8
    ensures ByteBit((x & mask) | (y & !mask), k) == if ByteBit(mask, k) then ByteBit(x, k) else ByteBit(y, k)
  {
    MergeBit(x, y, mask, 0x80 >> k);
  }

  lemma MergeBit(x: Byte, y: Byte, mask: Byte, bit: Byte)
    requires bit & (bit - 1) == 0
    ensures ((x & mask) | (y & !mask)) & bit != 0 <==> if mask & bit != 0 then x & bit != 0 else y & bit != 0
  {
  }

  lemma MaskedByteBits(min: Byte, random: Byte, r: nat, k: nat)
    requires r < 8 && k < 8
    ensures ByteBit(MaskedByte(min, random, r), k) == if k < r then ByteBit(min, k) else ByteBit(random, k)
  {
    PrefixMaskBits(r, k);
    MergeBits(min, random, PrefixMask(r), k);
  }

  /**
   The bucket's prefix followed by random bits. The byte at `depth / 8` is indexed
   unconditionally, so the bucket must be shallower than a single identifier.
   */
  method RandomNodeId(b: Bucket, random: NodeId) returns (id: NodeId)
    requires b.depth < ID_BITS
    ensures forall i: nat :: i < ID_BITS ==> Bit(id, i) == if i < b.depth then Bit(b.min, i) else Bit(random, i)
    ensures Dyadic(b) ==> b.Contains(id)
  {
    id := random;
    var byteIdx := b.depth / 8;
    for i := 0 to byteIdx
      invariant |id| == ID_LEN
      invariant forall k :: 0 <= k < ID_LEN ==> id[k] == if k < i then b.min[k] else random[k]
    {
      id := id[i := b.min[i]];
    }
    id := id[byteIdx := MaskedByte(b.min[byteIdx], id[byteIdx], b.depth % 8)];
    forall i: nat | i < ID_BITS
      ensures Bit(id, i) == if i < b.depth then Bit(b.min, i) else Bit(random, i)
    {
      MaskedByteBits(b.min[byteIdx], random[byteIdx], b.depth % 8, i % 8);
    }
    if Dyadic(b) {
      TopIsPrefix(b.min, id, b.depth);
      PrefixLenIsTop(b.min, id, b.depth);
      ContainsIsPrefix(b, id);
    }
  }
}
