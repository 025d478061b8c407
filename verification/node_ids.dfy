/**
 The 160-bit identifiers of `dht/table/nodeid.go`: twenty big-endian bytes.

 Everything later proofs need about an identifier is reduced to its bits. `Top(id, d)` is
 the number formed by the first `d` bits, so `Top(id, 160)` is the identifier's value, and
 byte order, bit prefixes, XOR distance and dyadic intervals are all statements about `Top`
 that are proved one bit at a time with linear arithmetic.
 */
module NodeIds {

  type Byte = bv8

  const ID_LEN: nat := 20
  const ID_BITS: nat := 160

  type NodeId = s: seq<Byte> | |s| == ID_LEN witness seq(20, _ => 0)

  const ZERO_ID: NodeId := Zeros(ID_LEN)

  function Zeros(n: nat): seq<Byte> {
    seq(n, _ => 0)
  }

  function Pow2(n: nat): (p: nat)
    ensures p > 0
  {
    if n == 0 then 1 else 2 * Pow2(n - 1)
  }

  /** Bit `k` of a byte, counted from the most significant one. */
  predicate ByteBit(x: Byte, k: nat)
    requires k < 8
  {
    x & (0x80 >> k) != 0
  }

  /** Bit `i` of an identifier, counted from the most significant bit of byte 0. */
  predicate Bit(id: NodeId, i: nat)
    requires i < ID_BITS
  {
    ByteBit(id[i / 8], i % 8)
  }

  function BitVal(id: NodeId, i: nat): nat
    requires i < ID_BITS
  {
    if Bit(id, i) then 1 else 0
  }

  /** The number formed by the first `d` bits. */
  function Top(id: NodeId, d: nat): nat
    requires d <= ID_BITS
  {
    if d == 0 then 0 else 2 * Top(id, d - 1) + BitVal(id, d - 1)
  }

  function Val(id: NodeId): nat {
    Top(id, ID_BITS)
  }

  // ----- bits and prefixes

  lemma {:induction false} TopIsPrefix(a: NodeId, b: NodeId, d: nat)
    requires d <= ID_BITS
    ensures Top(a, d) == Top(b, d) <==> forall i: nat :: i < d ==> Bit(a, i) == Bit(b, i)
  {
    if d > 0 {
      TopIsPrefix(a, b, d - 1);
    }
  }

  lemma {:induction false} TopMonotone(a: NodeId, b: NodeId, d: nat, e: nat)
    requires d <= e <= ID_BITS
    ensures Top(a, d) < Top(b, d) ==> Top(a, e) < Top(b, e)
  {
    if d < e {
      TopMonotone(a, b, d, e - 1);
    }
  }

  lemma ByteFromBits(x: Byte, y: Byte)
    requires forall k: nat :: k < 8 ==> ByteBit(x, k) == ByteBit(y, k)
    ensures x == y
  {
    assert ByteBit(x, 0) == ByteBit(y, 0) && ByteBit(x, 1) == ByteBit(y, 1);
    assert ByteBit(x, 2) == ByteBit(y, 2) && ByteBit(x, 3) == ByteBit(y, 3);
    assert ByteBit(x, 4) == ByteBit(y, 4) && ByteBit(x, 5) == ByteBit(y, 5);
    assert ByteBit(x, 6) == ByteBit(y, 6) && ByteBit(x, 7) == ByteBit(y, 7);
  }

  /** An identifier is determined by its value. */
  lemma {:induction false} ValInjective(a: NodeId, b: NodeId)
    requires Val(a) == Val(b)
    ensures a == b
  {
    TopIsPrefix(a, b, ID_BITS);
    forall j: nat | j < ID_LEN
      ensures a[j] == b[j]
    {
      forall k: nat | k < 8
        ensures ByteBit(a[j], k) == ByteBit(b[j], k)
      {
        assert Bit(a, 8 * j + k) == Bit(b, 8 * j + k);
      }
      ByteFromBits(a[j], b[j]);
    }
  }

  lemma {:induction false} ZeroVal(d: nat)
    requires d <= ID_BITS
    ensures Top(ZERO_ID, d) == 0
  {
    if d > 0 {
      ZeroVal(d - 1);
    }
  }

  lemma {:induction false} TopBound(id: NodeId, d: nat)
    requires d <= ID_BITS
    ensures Top(id, d) < Pow2(d)
  {
    if d > 0 {
      TopBound(id, d - 1);
    }
  }

  // ----- byte order

  /** `bytes.Compare`: lexicographic byte order. */
  function Compare(a: seq<Byte>, b: seq<Byte>): int {
    if a == [] then (if b == [] then 0 else -1)
    else if b == [] then 1
    else if a[0] < b[0] then -1
    else if a[0] > b[0] then 1
    else Compare(a[1..], b[1..])
  }

  predicate Less(a: NodeId, b: NodeId) {
    Compare(a, b) < 0
  }

  lemma ByteOrder(x: Byte, y: Byte)
    ensures x < y <==> x as nat < y as nat
  {
  }

  function ByteBitVal(x: Byte, k: nat): nat
    requires k < 8
  {
    if ByteBit(x, k) then 1 else 0
  }

  lemma ByteSum(x: Byte)
    ensures x as nat ==
            128 * ByteBitVal(x, 0) + 64 * ByteBitVal(x, 1) + 32 * ByteBitVal(x, 2) + 16 * ByteBitVal(x, 3)
            + 8 * ByteBitVal(x, 4) + 4 * ByteBitVal(x, 5) + 2 * ByteBitVal(x, 6) + ByteBitVal(x, 7)
  {
  }

  lemma TopStep(id: NodeId, j: nat, k: nat)
    requires j < ID_LEN && k < 8
    ensures Top(id, 8 * j + k + 1) == 2 * Top(id, 8 * j + k) + ByteBitVal(id[j], k)
  {
    assert (8 * j + k) / 8 == j && (8 * j + k) % 8 == k;
  }

  lemma {:induction false} TopOfByte(id: NodeId, j: nat)
    requires j < ID_LEN
    ensures Top(id, 8 * j + 8) == 256 * Top(id, 8 * j) + id[j] as nat
  {
    forall k: nat | k < 8
      ensures Top(id, 8 * j + k + 1) == 2 * Top(id, 8 * j + k) + ByteBitVal(id[j], k)
    {
      TopStep(id, j, k);
    }
    ByteSum(id[j]);
  }

  lemma CompareStep(a: NodeId, b: NodeId, j: nat)
    requires j < ID_LEN
    ensures Compare(a[j..], b[j..]) ==
            if a[j] < b[j] then -1 else if a[j] > b[j] then 1 else Compare(a[j + 1..], b[j + 1..])
  {
    assert a[j..][1..] == a[j + 1..] && b[j..][1..] == b[j + 1..];
  }

  lemma {:induction false} SmallerByte(a: NodeId, b: NodeId, j: nat)
    requires j < ID_LEN
    requires Top(a, 8 * j) == Top(b, 8 * j)
    requires a[j] < b[j]
    ensures Val(a) < Val(b)
  {
    TopOfByte(a, j);
    TopOfByte(b, j);
    ByteOrder(a[j], b[j]);
    TopMonotone(a, b, 8 * j + 8, ID_BITS);
  }

  lemma FirstSmaller(a: NodeId, b: NodeId, j: nat)
    requires j < ID_LEN && Top(a, 8 * j) == Top(b, 8 * j) && a[j] < b[j]
    ensures Val(a) < Val(b) && Compare(a[j..], b[j..]) == -1 && Compare(b[j..], a[j..]) == 1
  {
    CompareStep(a, b, j);
    CompareStep(b, a, j);
    SmallerByte(a, b, j);
  }

  lemma SameByte(a: NodeId, b: NodeId, j: nat)
    requires j < ID_LEN && Top(a, 8 * j) == Top(b, 8 * j) && a[j] == b[j]
    ensures Top(a, 8 * j + 8) == Top(b, 8 * j + 8)
  {
    TopOfByte(a, j);
    TopOfByte(b, j);
  }

  lemma {:induction false} CompareFrom(a: NodeId, b: NodeId, j: nat)
    requires j <= ID_LEN
    requires Top(a, 8 * j) == Top(b, 8 * j)
    ensures Compare(a[j..], b[j..]) < 0 <==> Val(a) < Val(b)
    ensures Compare(a[j..], b[j..]) > 0 <==> Val(a) > Val(b)
    decreases ID_LEN - j
  {
    if j == ID_LEN {
      assert a[j..] == [] && b[j..] == [];
    } else if a[j] < b[j] {
      FirstSmaller(a, b, j);
    } else if b[j] < a[j] {
      FirstSmaller(b, a, j);
    } else {
      SameByte(a, b, j);
      CompareStep(a, b, j);
      CompareFrom(a, b, j + 1);
    }
  }

  /** Byte order is value order. */
  lemma {:induction false} CompareIsValue(a: NodeId, b: NodeId)
    ensures Compare(a, b) < 0 <==> Val(a) < Val(b)
    ensures Compare(a, b) > 0 <==> Val(a) > Val(b)
    ensures Compare(a, b) == 0 <==> a == b
  {
    CompareFrom(a, b, 0);
    assert a[0..] == a && b[0..] == b;
    if Val(a) == Val(b) {
      ValInjective(a, b);
    }
  }

  // ----- XOR and common prefix length

  function Xor(a: NodeId, b: NodeId): NodeId {
    seq(ID_LEN, i requires 0 <= i < ID_LEN => a[i] ^ b[i])
  }

  method ComputeXor(a: NodeId, b: NodeId) returns (result: NodeId)
    ensures result == Xor(a, b)
  {
    result := ZERO_ID;
    for i := 0 to ID_LEN
      invariant |result| == ID_LEN
      invariant forall k :: 0 <= k < i ==> result[k] == a[k] ^ b[k]
    {
      result := result[i := a[i] ^ b[i]];
    }
  }

  /** The XOR distance between two identifiers, as a number. */
  function Dist(a: NodeId, b: NodeId): nat {
    Val(Xor(a, b))
  }

  lemma XorBit(a: NodeId, b: NodeId, i: nat)
    requires i < ID_BITS
    ensures Bit(Xor(a, b), i) <==> Bit(a, i) != Bit(b, i)
  {
  }

  /** Two different identifiers are never at the same distance from a target. */
  lemma {:induction false} DistInjective(target: NodeId, a: NodeId, b: NodeId)
    requires Dist(target, a) == Dist(target, b)
    ensures a == b
  {
    ValInjective(Xor(target, a), Xor(target, b));
    forall j: nat | j < ID_LEN
      ensures a[j] == b[j]
    {
      assert Xor(target, a)[j] == Xor(target, b)[j];
      assert a[j] == target[j] ^ (target[j] ^ a[j]);
      assert b[j] == target[j] ^ (target[j] ^ b[j]);
    }
  }

  /** The first byte in which the two differ from byte `j` on is less in `a`. */
  ghost predicate LessFrom(a: NodeId, b: NodeId, j: nat) {
    exists k :: j <= k < ID_LEN && a[k] < b[k] && forall i :: j <= i < k ==> a[i] == b[i]
  }

  lemma {:induction false} FirstByteDecides(a: NodeId, b: NodeId, j: nat)
    requires j <= ID_LEN
    ensures Compare(a[j..], b[j..]) < 0 <==> LessFrom(a, b, j)
    decreases ID_LEN - j
  {
    if j < ID_LEN {
      CompareStep(a, b, j);
      FirstByteDecides(a, b, j + 1);
      LessStep(a, b, j);
    }
  }

  lemma LessStep(a: NodeId, b: NodeId, j: nat)
    requires j < ID_LEN
    ensures LessFrom(a, b, j) <==> a[j] < b[j] || (a[j] == b[j] && LessFrom(a, b, j + 1))
  {
    if a[j] == b[j] && LessFrom(a, b, j + 1) {
      var k :| j + 1 <= k < ID_LEN && a[k] < b[k] && forall i :: j + 1 <= i < k ==> a[i] == b[i];
      assert a[k] < b[k];
    }
    if LessFrom(a, b, j) && !(a[j] < b[j]) {
      var k :| j <= k < ID_LEN && a[k] < b[k] && forall i :: j <= i < k ==> a[i] == b[i];
      assert j < k && a[k] < b[k];
    }
  }

  /** Which of two identifiers is closer: the first byte in which their XORs with the target differ decides. */
  lemma CloserByBytes(target: NodeId, a: NodeId, b: NodeId)
    ensures Dist(target, a) < Dist(target, b) <==>
            exists k :: 0 <= k < 20 && target[k] ^ a[k] < target[k] ^ b[k]
                        && forall i :: 0 <= i < k ==> target[i] ^ a[i] == target[i] ^ b[i]
  {
    var x, y := Xor(target, a), Xor(target, b);
    CompareIsValue(x, y);
    FirstByteDecides(x, y, 0);
    assert x[0..] == x && y[0..] == y;
    assert forall i :: 0 <= i < 20 ==> x[i] == target[i] ^ a[i] && y[i] == target[i] ^ b[i];
    if LessFrom(x, y, 0) {
      var k :| 0 <= k < ID_LEN && x[k] < y[k] && forall i :: 0 <= i < k ==> x[i] == y[i];
      assert target[k] ^ a[k] < target[k] ^ b[k];
    }
    if k :| 0 <= k < 20 && target[k] ^ a[k] < target[k] ^ b[k]
            && forall i :: 0 <= i < k ==> target[i] ^ a[i] == target[i] ^ b[i] {
      assert x[k] < y[k];
    }
  }

  /** The index of the first bit in which the two differ from bit `i` on, or 160. */
  function FirstDifference(a: NodeId, b: NodeId, i: nat): (r: nat)
    requires i <= ID_BITS
    ensures i <= r <= ID_BITS
    decreases ID_BITS - i
  {
    if i == ID_BITS || Bit(a, i) != Bit(b, i) then i else FirstDifference(a, b, i + 1)
  }

  function CommonPrefixLen(a: NodeId, b: NodeId): (r: nat)
    ensures r <= ID_BITS
  {
    FirstDifference(a, b, 0)
  }

  lemma {:induction false} FirstDifferenceIs(a: NodeId, b: NodeId, i: nat, r: nat)
    requires i <= r <= ID_BITS
    requires forall k: nat :: i <= k < r ==> Bit(a, k) == Bit(b, k)
    requires r < ID_BITS ==> Bit(a, r) != Bit(b, r)
    ensures FirstDifference(a, b, i) == r
    decreases r - i
  {
    if i < r {
      FirstDifferenceIs(a, b, i + 1, r);
    }
  }

  lemma {:induction false} FirstDifferenceAgrees(a: NodeId, b: NodeId, i: nat)
    requires i <= ID_BITS
    ensures forall k: nat :: i <= k < FirstDifference(a, b, i) ==> Bit(a, k) == Bit(b, k)
    ensures FirstDifference(a, b, i) < ID_BITS ==>
              Bit(a, FirstDifference(a, b, i)) != Bit(b, FirstDifference(a, b, i))
    decreases ID_BITS - i
  {
    if i < ID_BITS && Bit(a, i) == Bit(b, i) {
      FirstDifferenceAgrees(a, b, i + 1);
    }
  }

  /** The common prefix is at least `d` bits long exactly when the first `d` bits agree. */
  lemma {:induction false} PrefixLenIsTop(a: NodeId, b: NodeId, d: nat)
    requires d <= ID_BITS
    ensures CommonPrefixLen(a, b) >= d <==> Top(a, d) == Top(b, d)
  {
    FirstDifferenceAgrees(a, b, 0);
    TopIsPrefix(a, b, d);
  }

  /** `bits.LeadingZeros8`. */
  function LeadingZeros8(x: Byte): (n: nat)
    ensures n <= 8
    ensures forall k: nat :: k < n ==> !ByteBit(x, k)
    ensures n < 8 ==> ByteBit(x, n)
  {
    if x & 0x80 != 0 then 0
    else if x & 0x40 != 0 then 1
    else if x & 0x20 != 0 then 2
    else if x & 0x10 != 0 then 3
    else if x & 0x08 != 0 then 4
    else if x & 0x04 != 0 then 5
    else if x & 0x02 != 0 then 6
    else if x & 0x01 != 0 then 7
    else 8
  }

  method ComputeCommonPrefixLen(a: NodeId, b: NodeId) returns (r: nat)
    ensures r == CommonPrefixLen(a, b)
  {
    var xor := ComputeXor(a, b);
    for i := 0 to ID_LEN
      invariant forall k: nat :: k < 8 * i ==> Bit(a, k) == Bit(b, k)
    {
      if xor[i] != 0 {
        r := i * 8 + LeadingZeros8(xor[i]);
        forall k: nat | 8 * i <= k < 8 * i + 8
          ensures Bit(a, k) != Bit(b, k) <==> ByteBit(xor[i], k - 8 * i)
        {
          XorBit(a, b, k);
        }
        FirstDifferenceIs(a, b, 0, r);
        return;
      }
      forall k: nat | 8 * i <= k < 8 * i + 8
        ensures Bit(a, k) == Bit(b, k)
      {
        XorBit(a, b, k);
      }
    }
    FirstDifferenceIs(a, b, 0, ID_BITS);
    return ID_BITS;
  }

  /** Distance and prefix length agree: a longer common prefix means strictly closer. */
  lemma {:induction false} LongerPrefixIsCloser(target: NodeId, a: NodeId, b: NodeId)
    requires CommonPrefixLen(target, a) > CommonPrefixLen(target, b)
    ensures Dist(target, a) < Dist(target, b)
  {
    var d := CommonPrefixLen(target, b);
    FirstDifferenceAgrees(target, a, 0);
    FirstDifferenceAgrees(target, b, 0);
    forall i: nat | i <= d
      ensures !Bit(Xor(target, a), i)
      ensures Bit(Xor(target, b), i) <==> i == d
    {
      XorBit(target, a, i);
      XorBit(target, b, i);
    }
    TopIsPrefix(Xor(target, a), Xor(target, b), d);
    TopMonotone(Xor(target, a), Xor(target, b), d + 1, ID_BITS);
  }

  // ----- dyadic intervals

  predicate ZeroBelow(id: NodeId, d: nat)
    requires d <= ID_BITS
  {
    forall i: nat :: d <= i < ID_BITS ==> !Bit(id, i)
  }

  lemma {:induction false} TopSpread(min: NodeId, id: NodeId, d: nat, e: nat)
    requires d <= e <= ID_BITS
    requires forall i: nat :: d <= i < e ==> !Bit(min, i)
    ensures Top(id, d) == Top(min, d) ==> Top(min, e) <= Top(id, e) < Top(min, e) + Pow2(e - d)
    ensures Top(id, d) > Top(min, d) ==> Top(min, e) + Pow2(e - d) <= Top(id, e)
    ensures Top(id, d) < Top(min, d) ==> Top(id, e) < Top(min, e)
  {
    if d < e {
      TopSpread(min, id, d, e - 1);
    }
  }

  /** A dyadic interval holds exactly the identifiers with its prefix. */
  lemma {:induction false} IntervalIsPrefix(min: NodeId, id: NodeId, d: nat)
    requires d <= ID_BITS
    requires ZeroBelow(min, d)
    ensures Val(min) <= Val(id) < Val(min) + Pow2(ID_BITS - d) <==> CommonPrefixLen(min, id) >= d
  {
    TopSpread(min, id, d, ID_BITS);
    PrefixLenIsTop(min, id, d);
  }
}
