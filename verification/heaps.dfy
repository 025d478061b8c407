/**
 The two heaps of `dht/crawler/heaps.go`, driven by the sift steps of Go's `container/heap`: what the
 sift steps keep and restore, for any element type and any rank. `Less(a, b)` is `rank(a) < rank(b)`.
 */
module Heaps {

  // ----- the steps, on sequences

  function Swapped<T>(s: seq<T>, i: nat, j: nat): (r: seq<T>)
    requires i < |s| && j < |s|
    ensures |r| == |s|
  {
    s[i := s[j]][j := s[i]]
  }

  function Parent(k: nat): (p: nat)
    requires k > 0
    ensures p < k
  {
    (k - 1) / 2
  }

  /** `up` */
  function Up<T>(s: seq<T>, j: nat, rank: T -> int): (r: seq<T>)
    requires j < |s|
    ensures |r| == |s|
    decreases j
  {
    if j == 0 || rank(s[j]) >= rank(s[Parent(j)]) then s
    else Up(Swapped(s, Parent(j), j), Parent(j), rank)
  }

  /** The child of `i` that `down` compares with: the lesser one, the left one on a tie. */
  function LesserChild<T>(s: seq<T>, i: nat, n: nat, rank: T -> int): (j: nat)
    requires 2 * i + 1 < n <= |s|
    ensures i < j < n && Parent(j) == i
  {
    if 2 * i + 2 < n && rank(s[2 * i + 2]) < rank(s[2 * i + 1]) then 2 * i + 2 else 2 * i + 1
  }

  /** `down`, on the first `n` elements */
  function Down<T>(s: seq<T>, i: nat, n: nat, rank: T -> int): (r: seq<T>)
    requires n <= |s|
    ensures |r| == |s|
    decreases n - i
  {
    if 2 * i + 1 >= n then s
    else
      var j := LesserChild(s, i, n, rank);
      if rank(s[j]) >= rank(s[i]) then s else Down(Swapped(s, i, j), j, n, rank)
  }

  lemma DownStep<T>(s: seq<T>, i: nat, n: nat, j: nat, rank: T -> int)
    requires 2 * i + 1 < n <= |s| && j == LesserChild(s, i, n, rank)
    ensures Down(s, i, n, rank) == if rank(s[j]) < rank(s[i]) then Down(Swapped(s, i, j), j, n, rank) else s
  {
  }

  lemma DownAtLeaf<T>(s: seq<T>, i: nat, n: nat, rank: T -> int)
    requires n <= |s| && 2 * i + 1 >= n
    ensures Down(s, i, n, rank) == s
  {
  }

  /** The loop of `heap.Init` from index `i - 1` down to zero. */
  function Heapify<T>(s: seq<T>, i: nat, rank: T -> int): (r: seq<T>)
    ensures |r| == |s|
    decreases i
  {
    if i == 0 then s else Heapify(Down(s, i - 1, |s|, rank), i - 1, rank)
  }

  lemma HeapifyStep<T>(s: seq<T>, i: nat, rank: T -> int)
    ensures Heapify(s, i + 1, rank) == Heapify(Down(s, i, |s|, rank), i, rank)
  {
  }

  lemma HeapifyDone<T>(s: seq<T>, rank: T -> int)
    ensures Heapify(s, 0, rank) == s
  {
  }

  // ----- heap order

  predicate Edge<T>(s: seq<T>, k: nat, rank: T -> int)
    requires 0 < k < |s|
  {
    rank(s[Parent(k)]) <= rank(s[k])
  }

  /** Heap order among the first `n` elements, for the edges whose upper end is at `lo` or beyond. */
  predicate OrderedFrom<T>(s: seq<T>, lo: nat, n: nat, rank: T -> int)
    requires n <= |s|
  {
    forall k :: 0 < k < n && Parent(k) >= lo ==> Edge(s, k, rank)
  }

  predicate HeapOrdered<T>(s: seq<T>, rank: T -> int) {
    OrderedFrom(s, 0, |s|, rank)
  }

  lemma SwapPermutes<T>(s: seq<T>, i: nat, j: nat)
    requires i < |s| && j < |s|
    ensures multiset(Swapped(s, i, j)) == multiset(s)
  {
  }

  lemma {:induction false} UpPermutes<T>(s: seq<T>, j: nat, rank: T -> int)
    requires j < |s|
    ensures multiset(Up(s, j, rank)) == multiset(s)
    decreases j
  {
    if j > 0 && rank(s[j]) < rank(s[Parent(j)]) {
      SwapPermutes(s, Parent(j), j);
      UpPermutes(Swapped(s, Parent(j), j), Parent(j), rank);
    }
  }

  lemma {:induction false} DownPermutes<T>(s: seq<T>, i: nat, n: nat, rank: T -> int)
    requires n <= |s|
    ensures multiset(Down(s, i, n, rank)) == multiset(s)
    ensures forall k :: n <= k < |s| ==> Down(s, i, n, rank)[k] == s[k]
    decreases n - i
  {
    if 2 * i + 1 < n {
      var j := LesserChild(s, i, n, rank);
      if rank(s[j]) < rank(s[i]) {
        SwapPermutes(s, i, j);
        DownPermutes(Swapped(s, i, j), j, n, rank);
      }
    }
  }

  /** All is in order but the edge above `j`, and what hangs below `j` fits below its parent. */
  ghost predicate RisingAt<T>(s: seq<T>, j: nat, rank: T -> int)
    requires j < |s|
  {
    && (forall k :: 0 < k < |s| && k != j ==> Edge(s, k, rank))
    && (forall k :: 0 < j < k < |s| && Parent(k) == j ==> rank(s[Parent(j)]) <= rank(s[k]))
  }

  lemma {:induction false} UpRestores<T>(s: seq<T>, j: nat, rank: T -> int)
    requires j < |s| && RisingAt(s, j, rank)
    ensures HeapOrdered(Up(s, j, rank), rank)
    decreases j
  {
    if j == 0 {
    } else if rank(s[j]) >= rank(s[Parent(j)]) {
      assert Edge(s, j, rank);
    } else {
      RiseOnce(s, j, rank);
      UpRestores(Swapped(s, Parent(j), j), Parent(j), rank);
    }
  }

  lemma RiseOnce<T>(s: seq<T>, j: nat, rank: T -> int)
    requires 0 < j < |s| && RisingAt(s, j, rank) && rank(s[j]) < rank(s[Parent(j)])
    ensures RisingAt(Swapped(s, Parent(j), j), Parent(j), rank)
  {
    var i := Parent(j);
    var t := Swapped(s, i, j);
    forall k | 0 < k < |t| && k != i
      ensures Edge(t, k, rank)
    {
      if k != j {
        assert Edge(s, k, rank);
      }
    }
    if i > 0 {
      assert Edge(s, i, rank);
      forall k | 0 < i < k < |t| && Parent(k) == i
        ensures rank(t[Parent(i)]) <= rank(t[k])
      {
        if k != j {
          assert Edge(s, k, rank);
        }
      }
    }
  }

  /** All is in order from `lo` on but the edges below `i`, and what hangs below `i` fits below its parent. */
  ghost predicate SinkingAt<T>(s: seq<T>, i: nat, lo: nat, n: nat, rank: T -> int)
    requires n <= |s|
  {
    && (forall k :: 0 < k < n && Parent(k) >= lo && Parent(k) != i ==> Edge(s, k, rank))
    && (forall k :: 0 < i < k < n && Parent(k) == i && Parent(i) >= lo ==> rank(s[Parent(i)]) <= rank(s[k]))
  }

  lemma {:induction false} DownRestores<T>(s: seq<T>, i: nat, lo: nat, n: nat, rank: T -> int)
    requires n <= |s| && lo <= i && SinkingAt(s, i, lo, n, rank)
    ensures OrderedFrom(Down(s, i, n, rank), lo, n, rank)
    decreases n - i
  {
    if 2 * i + 1 >= n {
    } else {
      var j := LesserChild(s, i, n, rank);
      if rank(s[j]) < rank(s[i]) {
        SinkOnce(s, i, lo, n, rank);
        DownRestores(Swapped(s, i, j), j, lo, n, rank);
      } else {
        SettledAt(s, i, lo, n, rank);
      }
    }
  }

  lemma SettledAt<T>(s: seq<T>, i: nat, lo: nat, n: nat, rank: T -> int)
    requires n <= |s| && lo <= i && SinkingAt(s, i, lo, n, rank)
    requires 2 * i + 1 < n && rank(s[LesserChild(s, i, n, rank)]) >= rank(s[i])
    ensures OrderedFrom(s, lo, n, rank)
  {
    forall k | 0 < k < n && Parent(k) >= lo
      ensures Edge(s, k, rank)
    {
      if Parent(k) == i {
        assert k == 2 * i + 1 || k == 2 * i + 2;
      }
    }
  }

  lemma SinkOnce<T>(s: seq<T>, i: nat, lo: nat, n: nat, rank: T -> int)
    requires n <= |s| && lo <= i && SinkingAt(s, i, lo, n, rank)
    requires 2 * i + 1 < n && rank(s[LesserChild(s, i, n, rank)]) < rank(s[i])
    ensures var j := LesserChild(s, i, n, rank); SinkingAt(Swapped(s, i, j), j, lo, n, rank)
  {
    var j := LesserChild(s, i, n, rank);
    var t := Swapped(s, i, j);
    forall k | 0 < k < n && Parent(k) >= lo && Parent(k) != j
      ensures Edge(t, k, rank)
    {
      if Parent(k) == i {
        assert k == 2 * i + 1 || k == 2 * i + 2;
      } else {
        assert Edge(s, k, rank);
      }
    }
    forall k | 0 < j < k < n && Parent(k) == j && Parent(j) >= lo
      ensures rank(t[Parent(j)]) <= rank(t[k])
    {
      assert Edge(s, k, rank);
    }
  }

  lemma {:induction false} RootIsLeast<T>(s: seq<T>, k: nat, rank: T -> int)
    requires k < |s| && HeapOrdered(s, rank)
    ensures rank(s[0]) <= rank(s[k])
  {
    if k > 0 {
      assert Edge(s, k, rank);
      RootIsLeast(s, Parent(k), rank);
    }
  }

  // ----- push, pop and init

  function Pushed<T>(s: seq<T>, x: T, rank: T -> int): (r: seq<T>)
    ensures |r| == |s| + 1
  {
    Up(s + [x], |s|, rank)
  }

  /** What `heap.Pop` leaves; it returns `s[0]`. */
  function Popped<T>(s: seq<T>, rank: T -> int): (r: seq<T>)
    requires s != []
    ensures |r| == |s| - 1
  {
    Down(Swapped(s, 0, |s| - 1), 0, |s| - 1, rank)[..|s| - 1]
  }

  lemma PushKeepsHeap<T>(s: seq<T>, x: T, rank: T -> int)
    requires HeapOrdered(s, rank)
    ensures HeapOrdered(Pushed(s, x, rank), rank)
    ensures multiset(Pushed(s, x, rank)) == multiset(s) + multiset{x}
  {
    var t := s + [x];
    forall k | 0 < k < |t| && k != |s|
      ensures Edge(t, k, rank)
    {
      assert Edge(s, k, rank);
    }
    UpRestores(t, |s|, rank);
    UpPermutes(t, |s|, rank);
  }

  lemma PopTakesLeast<T>(s: seq<T>, rank: T -> int)
    requires s != [] && HeapOrdered(s, rank)
    ensures HeapOrdered(Popped(s, rank), rank)
    ensures multiset(s) == multiset(Popped(s, rank)) + multiset{s[0]}
    ensures forall x :: x in s ==> rank(s[0]) <= rank(x)
  {
    hide Down, HeapOrdered;
    var n := |s| - 1;
    SinkFromRoot(s, rank);
    DownRestores(Swapped(s, 0, n), 0, 0, n, rank);
    PopPermutes(s, rank);
    PrefixOrdered(Down(Swapped(s, 0, n), 0, n, rank), n, rank);
    forall x | x in s
      ensures rank(s[0]) <= rank(x)
    {
      var k :| 0 <= k < |s| && s[k] == x;
      RootIsLeast(s, k, rank);
    }
  }

  lemma SinkFromRoot<T>(s: seq<T>, rank: T -> int)
    requires s != [] && HeapOrdered(s, rank)
    ensures SinkingAt(Swapped(s, 0, |s| - 1), 0, 0, |s| - 1, rank)
  {
    var t := Swapped(s, 0, |s| - 1);
    forall k | 0 < k < |s| - 1 && Parent(k) != 0
      ensures Edge(t, k, rank)
    {
      assert Edge(s, k, rank);
    }
  }

  /** `heap.Pop` returns what was at the root and leaves the rest. */
  lemma PopPermutes<T>(s: seq<T>, rank: T -> int)
    requires s != []
    ensures multiset(s) == multiset(Popped(s, rank)) + multiset{s[0]}
    ensures Down(Swapped(s, 0, |s| - 1), 0, |s| - 1, rank) == Popped(s, rank) + [s[0]]
  {
    hide Down, Swapped;
    var n := |s| - 1;
    var t := Swapped(s, 0, n);
    DownPermutes(t, 0, n, rank);
    SwapPermutes(s, 0, n);
    SwapsLast(s);
    SplitLast(Down(t, 0, n, rank));
  }

  lemma SwapsLast<T>(s: seq<T>)
    requires s != []
    ensures Swapped(s, 0, |s| - 1)[|s| - 1] == s[0]
  {
  }

  lemma SplitLast<T>(s: seq<T>)
    requires s != []
    ensures s == s[..|s| - 1] + [s[|s| - 1]]
    ensures multiset(s) == multiset(s[..|s| - 1]) + multiset{s[|s| - 1]}
  {
    assert s == s[..|s| - 1] + [s[|s| - 1]];
  }

  lemma PrefixOrdered<T>(s: seq<T>, n: nat, rank: T -> int)
    requires n <= |s| && OrderedFrom(s, 0, n, rank)
    ensures HeapOrdered(s[..n], rank)
  {
    forall k | 0 < k < n
      ensures Edge(s[..n], k, rank)
    {
      assert Edge(s, k, rank);
    }
  }

  lemma {:induction false} HeapifyOrders<T>(s: seq<T>, i: nat, rank: T -> int)
    requires OrderedFrom(s, i, |s|, rank)
    ensures HeapOrdered(Heapify(s, i, rank), rank)
    ensures multiset(Heapify(s, i, rank)) == multiset(s)
    decreases i
  {
    if i > 0 {
      DownRestores(s, i - 1, i - 1, |s|, rank);
      DownPermutes(s, i - 1, |s|, rank);
      HeapifyOrders(Down(s, i - 1, |s|, rank), i - 1, rank);
    }
  }

  /** `heap.Init` makes a heap of any sequence. */
  lemma InitMakesHeap<T>(s: seq<T>, rank: T -> int)
    ensures HeapOrdered(Heapify(s, |s| / 2, rank), rank)
    ensures multiset(Heapify(s, |s| / 2, rank)) == multiset(s)
  {
    HeapifyOrders(s, |s| / 2, rank);
  }
}
