/**
 The queues of `dht/crawler`: items waiting for their cooldown, ordered by time, and items ready to be
 queried, ordered by scaled distance, each knowing its place in the heap (`heaps.go`, `crawler.go`).
 */
module Crawlers {

  import opened NodeIds
  import opened Heaps

  class TraversalItem {
    const id: NodeId
    const target: NodeId
    const dist: NodeId
    const yieldFactor: real
    var index: int

    constructor (id: NodeId, target: NodeId, dist: NodeId, yieldFactor: real)
      ensures this.id == id && this.target == target && this.dist == dist && this.yieldFactor == yieldFactor
    {
      this.id, this.target, this.dist, this.yieldFactor, this.index := id, target, dist, yieldFactor, 0;
    }
  }

  datatype CooldownItem = CooldownItem(item: TraversalItem, nextAllowed: int)

  // ----- the order of the ready heap

  /** `scale` stands for `scaleDist`; only items with a positive yield are scaled. */
  function Key(x: TraversalItem, scale: (NodeId, real) -> NodeId): NodeId {
    if x.yieldFactor > 0.0 then scale(x.dist, x.yieldFactor / (x.yieldFactor + 1.0)) else x.dist
  }

  function Rank(scale: (NodeId, real) -> NodeId): TraversalItem -> int {
    (x: TraversalItem) => Val(Key(x, scale))
  }

  /**
   `x` comes no later than `y`: its distance to the target, scaled by y / (y + 1) when it has yielded anything, is
   no greater as a number.
   */
  ghost predicate NoFarther(x: TraversalItem, y: TraversalItem, scale: (NodeId, real) -> NodeId) {
    var dx := if x.yieldFactor > 0.0 then scale(x.dist, x.yieldFactor / (x.yieldFactor + 1.0)) else x.dist;
    var dy := if y.yieldFactor > 0.0 then scale(y.dist, y.yieldFactor / (y.yieldFactor + 1.0)) else y.dist;
    && Val(dx) <= Val(dy)
    && (x.yieldFactor <= 0.0 && y.yieldFactor <= 0.0 ==> Val(x.dist) <= Val(y.dist))
  }

  lemma RankIsDistance(x: TraversalItem, y: TraversalItem, scale: (NodeId, real) -> NodeId)
    ensures Rank(scale)(x) <= Rank(scale)(y) <==> NoFarther(x, y, scale)
  {
  }

  function DueTime(): CooldownItem -> int {
    (c: CooldownItem) => c.nextAllowed
  }

  /** `cmpDist`: the first differing byte decides. */
  method CmpDist(a: NodeId, b: NodeId) returns (c: int)
    ensures c < 0 <==> Val(a) < Val(b)
    ensures c > 0 <==> Val(a) > Val(b)
  {
    CompareIsValue(a, b);
    assert a[0..] == a && b[0..] == b;
    for k := 0 to 20
      invariant Compare(a, b) == Compare(a[k..], b[k..])
    {
      CompareStep(a, b, k);
      if a[k] < b[k] {
        return -1;
      }
      if a[k] > b[k] {
        return 1;
      }
    }
    return 0;
  }

  /** Every item knows its place; so no item has two places. */
  ghost predicate Placed(pq: seq<TraversalItem>)
    reads pq
  {
    forall i :: 0 <= i < |pq| ==> pq[i].index == i
  }

  class TraversalHeap {
    var pq: seq<TraversalItem>
    const scale: (NodeId, real) -> NodeId

    constructor (scale: (NodeId, real) -> NodeId)
      ensures pq == [] && this.scale == scale
    {
      this.scale := scale;
      pq := [];
    }

    method Less(i: nat, j: nat) returns (less: bool)
      requires i < |pq| && j < |pq|
      ensures less == (Rank(scale)(pq[i]) < Rank(scale)(pq[j]))
      ensures less <==> !NoFarther(pq[j], pq[i], scale)
    {
      RankIsDistance(pq[j], pq[i], scale);
      var di, dj := pq[i].dist, pq[j].dist;
      if pq[i].yieldFactor > 0.0 {
        var discount := pq[i].yieldFactor / (pq[i].yieldFactor + 1.0);
        di := scale(di, discount);
      }
      if pq[j].yieldFactor > 0.0 {
        var discount := pq[j].yieldFactor / (pq[j].yieldFactor + 1.0);
        dj := scale(dj, discount);
      }
      var c := CmpDist(di, dj);
      less := c < 0;
    }

    method Swap(i: nat, j: nat)
      requires i < |pq| && j < |pq| && Placed(pq)
      modifies this, pq[i], pq[j]
      ensures pq == Swapped(old(pq), i, j) && Placed(pq)
    {
      pq := pq[i := pq[j]][j := pq[i]];
      pq[i].index := i;
      pq[j].index := j;
    }

    method SiftUp(last: nat, ghost owned: set<TraversalItem>)
      requires last < |pq| && Placed(pq) && forall x :: x in pq ==> x in owned
      modifies this, owned
      ensures pq == Up(old(pq), last, Rank(scale)) && Placed(pq)
    {
      var j: nat := last;
      while j > 0
        invariant j < |pq| && Placed(pq) && forall x :: x in pq ==> x in owned
        invariant Up(pq, j, Rank(scale)) == Up(old(pq), last, Rank(scale))
      {
        var i := (j - 1) / 2;
        var less := Less(j, i);
        if !less {
          break;
        }
        Swap(i, j);
        j := i;
      }
    }

    method SiftDown(first: nat, n: nat, ghost owned: set<TraversalItem>)
      requires n <= |pq| && Placed(pq) && forall x :: x in pq ==> x in owned
      modifies this, owned
      ensures pq == Down(old(pq), first, n, Rank(scale)) && Placed(pq)
    {
      hide Down, Rank;
      var i := first;
      while 2 * i + 1 < n
        invariant n <= |pq| && Placed(pq) && forall x :: x in pq ==> x in owned
        invariant Down(pq, i, n, Rank(scale)) == Down(old(pq), first, n, Rank(scale))
        decreases n - i
      {
        var j: nat := 2 * i + 1;
        if j + 1 < n {
          var lesser := Less(j + 1, j);
          if lesser {
            j := j + 1;
          }
        }
        var less := Less(j, i);
        DownStep(pq, i, n, j, Rank(scale));
        if !less {
          return;
        }
        Swap(i, j);
        i := j;
      }
      DownAtLeaf(pq, i, n, Rank(scale));
    }

    method Push(x: TraversalItem, ghost owned: set<TraversalItem>)
      requires Placed(pq) && x !in pq && x in owned && forall y :: y in pq ==> y in owned
      modifies this, owned
      ensures pq == Pushed(old(pq), x, Rank(scale)) && Placed(pq)
    {
      x.index := |pq|;
      pq := pq + [x];
      SiftUp(|pq| - 1, owned);
    }

    method Pop(ghost owned: set<TraversalItem>) returns (x: TraversalItem)
      requires pq != [] && Placed(pq) && forall y :: y in pq ==> y in owned
      modifies this, owned
      ensures x == old(pq)[0] && pq == Popped(old(pq), Rank(scale))
      ensures Placed(pq) && x.index == -1
    {
      var n := |pq| - 1;
      PopPermutes(pq, Rank(scale));
      Swap(0, n);
      SiftDown(0, n, owned);
      x := pq[n];
      pq := pq[..n];
      x.index := -1;
    }

    method Init(ghost owned: set<TraversalItem>)
      requires Placed(pq) && forall x :: x in pq ==> x in owned
      modifies this, owned
      ensures Placed(pq) && HeapOrdered(pq, Rank(scale)) && multiset(pq) == old(multiset(pq))
    {
      hide Heapify, Down, Rank, HeapOrdered;
      ghost var before := pq;
      InitMakesHeap(pq, Rank(scale));
      var i: nat := |pq| / 2;
      while i > 0
        invariant i <= |pq| == |before| && Placed(pq) && multiset(pq) == multiset(before)
        invariant Heapify(pq, i, Rank(scale)) == Heapify(before, |before| / 2, Rank(scale))
      {
        i := i - 1;
        HeapifyStep(pq, i, Rank(scale));
        DownPermutes(pq, i, |pq|, Rank(scale));
        SameMembers(pq, before);
        SiftDown(i, |pq|, owned);
      }
      HeapifyDone(pq, Rank(scale));
    }

    /** Stands for `sort.Sort`, which also moves elements by `Swap` alone. */
    method Sort(ghost owned: set<TraversalItem>)
      requires Placed(pq) && forall x :: x in pq ==> x in owned
      modifies this, owned
      ensures Placed(pq) && multiset(pq) == old(multiset(pq))
      ensures AscendingBut(pq, |pq|, |pq|, Rank(scale))
    {
      hide Rank, AscendingBut, Swapped;
      ghost var before := pq;
      AscendingStart(pq, Rank(scale));
      for i := 0 to |pq|
        invariant |pq| == |before| && Placed(pq) && multiset(pq) == multiset(before)
        invariant AscendingBut(pq, i, i, Rank(scale))
      {
        var j: nat := i;
        AscendingGrows(pq, i, Rank(scale));
        while j > 0
          invariant j <= i < |pq| == |before| && Placed(pq) && multiset(pq) == multiset(before)
          invariant AscendingBut(pq, i + 1, j, Rank(scale))
        {
          SameMembers(pq, before);
          var less := Less(j, j - 1);
          if !less {
            break;
          }
          SwapPermutes(pq, j, j - 1);
          MoveDown(pq, i, j, Rank(scale));
          Swap(j, j - 1);
          j := j - 1;
        }
        InPlace(pq, i, j, Rank(scale));
      }
    }
  }

  /** The first `n` are in ascending order, but for what precedes the one at `j`. */
  ghost predicate AscendingBut<T>(s: seq<T>, n: nat, j: nat, rank: T -> int)
    requires n <= |s|
  {
    forall a, b :: 0 <= a < b < n && b != j ==> rank(s[a]) <= rank(s[b])
  }

  lemma AscendingStart<T>(s: seq<T>, rank: T -> int)
    ensures AscendingBut(s, 0, 0, rank)
  {
  }

  lemma AscendingGrows<T>(s: seq<T>, i: nat, rank: T -> int)
    requires i < |s| && AscendingBut(s, i, i, rank)
    ensures AscendingBut(s, i + 1, i, rank)
  {
  }

  lemma MoveDown<T>(s: seq<T>, i: nat, j: nat, rank: T -> int)
    requires 0 < j <= i < |s| && AscendingBut(s, i + 1, j, rank) && rank(s[j]) < rank(s[j - 1])
    ensures AscendingBut(Swapped(s, j, j - 1), i + 1, j - 1, rank)
  {
  }

  lemma InPlace<T>(s: seq<T>, i: nat, j: nat, rank: T -> int)
    requires j <= i < |s| && AscendingBut(s, i + 1, j, rank) && (j == 0 || rank(s[j - 1]) <= rank(s[j]))
    ensures AscendingBut(s, i + 1, i + 1, rank)
  {
  }

  lemma SameMembers<T>(s: seq<T>, t: seq<T>)
    requires multiset(s) == multiset(t)
    ensures forall x :: x in s <==> x in t
  {
    forall x
      ensures x in s <==> x in t
    {
      assert x in s <==> x in multiset(s);
      assert x in t <==> x in multiset(t);
    }
  }

  lemma FirstIsDue(items: seq<CooldownItem>)
    requires items != []
    ensures HeapOrdered(items, DueTime()) ==> forall d :: d in items ==> items[0].nextAllowed <= d.nextAllowed
  {
    hide HeapOrdered, Popped;
    if HeapOrdered(items, DueTime()) {
      PopTakesLeast(items, DueTime());
      assert forall d :: d in items ==> DueTime()(items[0]) <= DueTime()(d);
    }
  }

  class CooldownHeap {
    var items: seq<CooldownItem>

    constructor ()
      ensures items == []
    {
      items := [];
    }

    method Swap(i: nat, j: nat)
      requires i < |items| && j < |items|
      modifies this
      ensures items == Swapped(old(items), i, j)
    {
      items := items[i := items[j]][j := items[i]];
    }

    method SiftUp(last: nat)
      requires last < |items|
      modifies this
      ensures items == Up(old(items), last, DueTime())
    {
      var j: nat := last;
      while j > 0
        invariant j < |items|
        invariant Up(items, j, DueTime()) == Up(old(items), last, DueTime())
      {
        var i := (j - 1) / 2;
        if !(items[j].nextAllowed < items[i].nextAllowed) {
          break;
        }
        Swap(i, j);
        j := i;
      }
    }

    method SiftDown(first: nat, n: nat)
      requires n <= |items|
      modifies this
      ensures items == Down(old(items), first, n, DueTime())
    {
      hide Down;
      var i := first;
      while 2 * i + 1 < n
        invariant n <= |items|
        invariant Down(items, i, n, DueTime()) == Down(old(items), first, n, DueTime())
        decreases n - i
      {
        var j: nat := 2 * i + 1;
        if j + 1 < n && items[j + 1].nextAllowed < items[j].nextAllowed {
          j := j + 1;
        }
        DownStep(items, i, n, j, DueTime());
        if !(items[j].nextAllowed < items[i].nextAllowed) {
          return;
        }
        Swap(i, j);
        i := j;
      }
      DownAtLeaf(items, i, n, DueTime());
    }

    method Push(c: CooldownItem)
      modifies this
      ensures items == Pushed(old(items), c, DueTime())
    {
      items := items + [c];
      SiftUp(|items| - 1);
    }

    method Pop() returns (c: CooldownItem)
      requires items != []
      modifies this
      ensures c == old(items)[0] && items == Popped(old(items), DueTime())
      ensures old(HeapOrdered(items, DueTime())) ==> forall d :: d in old(items) ==> c.nextAllowed <= d.nextAllowed
    {
      FirstIsDue(items);
      var n := |items| - 1;
      PopPermutes(items, DueTime());
      Swap(0, n);
      SiftDown(0, n);
      c := items[n];
      items := items[..n];
    }
  }

  // ----- both heaps together

  function Members<T>(s: seq<T>): set<T> {
    set x | x in s
  }

  /** The items whose cooldown is over at `now`. */
  function DueItems(cooling: seq<CooldownItem>, now: int): set<TraversalItem> {
    set c | c in cooling && c.nextAllowed <= now :: c.item
  }

  function Waiting(cooling: seq<CooldownItem>): set<TraversalItem> {
    set c | c in cooling :: c.item
  }

  function Resting(cooling: seq<CooldownItem>, now: int): set<CooldownItem> {
    set c | c in cooling && c.nextAllowed > now
  }

  /** No item waits twice. */
  ghost predicate WaitsOnce(cooling: seq<CooldownItem>) {
    && (forall c :: c in cooling ==> multiset(cooling)[c] == 1)
    && (forall c, d :: c in cooling && d in cooling && c.item == d.item ==> c == d)
  }

  /** Both are heaps, and no item is in both or waits twice. */
  ghost predicate QueuesOk(ready: seq<TraversalItem>, cooling: seq<CooldownItem>, scale: (NodeId, real) -> NodeId) {
    && HeapOrdered(ready, Rank(scale)) && HeapOrdered(cooling, DueTime())
    && WaitsOnce(cooling)
    && (forall c :: c in cooling ==> c.item !in ready)
  }

  lemma OneRemoved<T>(s: seq<T>, r: seq<T>, x: T)
    requires multiset(s) == multiset(r) + multiset{x}
    ensures Members(s) == Members(r) + {x}
    ensures forall y :: y in s <==> y in r || y == x
  {
    forall y
      ensures y in s <==> y in r || y == x
    {
      assert y in s <==> multiset(s)[y] > 0;
      assert y in r <==> multiset(r)[y] > 0;
    }
  }

  lemma StillOnce(s: seq<CooldownItem>, r: seq<CooldownItem>, x: CooldownItem)
    requires multiset(s) == multiset(r) + multiset{x} && WaitsOnce(s)
    ensures WaitsOnce(r) && x !in r && forall c :: c in r ==> c.item != x.item
  {
    OneRemoved(s, r, x);
    assert multiset(s)[x] == 1;
    assert multiset(r)[x] == 0;
    assert x !in r by {
      assert x in r ==> x in multiset(r);
    }
    forall c | c in r
      ensures multiset(r)[c] == 1
    {
      assert c in multiset(r);
      assert multiset(s)[c] == 1;
    }
  }

  /** One promotion: the item whose time came first moves over, and nothing else changes place. */
  lemma PromoteOne(ready: seq<TraversalItem>, cooling: seq<CooldownItem>, scale: (NodeId, real) -> NodeId)
    requires cooling != [] && QueuesOk(ready, cooling, scale)
    ensures QueuesOk(Pushed(ready, cooling[0].item, Rank(scale)), Popped(cooling, DueTime()), scale)
    ensures cooling[0].item !in ready
    ensures Members(Pushed(ready, cooling[0].item, Rank(scale))) == Members(ready) + {cooling[0].item}
    ensures Members(Popped(cooling, DueTime())) == Members(cooling) - {cooling[0]}
  {
    hide Pushed, Popped, HeapOrdered, Rank, WaitsOnce;
    var top := cooling[0];
    PopTakesLeast(cooling, DueTime());
    PushKeepsHeap(ready, top.item, Rank(scale));
    var left, pushed := Popped(cooling, DueTime()), Pushed(ready, top.item, Rank(scale));
    OneRemoved(cooling, left, top);
    OneRemoved(pushed, ready, top.item);
    StillOnce(cooling, left, top);
    assert top in cooling;
    assert HeapOrdered(pushed, Rank(scale));
    assert HeapOrdered(left, DueTime());
    assert WaitsOnce(left);
    assert forall c :: c in left ==> c in cooling;
    assert forall c :: c in left ==> c.item !in pushed;
  }

  lemma PromoteSets(ready: seq<TraversalItem>, pushed: seq<TraversalItem>,
                    cooling: seq<CooldownItem>, left: seq<CooldownItem>, now: int)
    requires cooling != [] && cooling[0].nextAllowed <= now
    requires Members(pushed) == Members(ready) + {cooling[0].item}
    requires Members(left) == Members(cooling) - {cooling[0]}
    ensures Members(pushed) + Waiting(left) == Members(ready) + Waiting(cooling)
    ensures Members(pushed) + DueItems(left, now) == Members(ready) + DueItems(cooling, now)
    ensures Resting(left, now) == Resting(cooling, now)
  {
    var top := cooling[0];
    assert forall c :: c in left <==> c in Members(left);
    assert forall c :: c in cooling <==> c in Members(cooling);
    assert top in cooling;
    assert forall c :: c in cooling <==> c in left || c == top;
    assert Waiting(cooling) == Waiting(left) + {top.item};
    assert DueItems(cooling, now) == DueItems(left, now) + {top.item};
  }

  lemma NothingDue(ready: seq<TraversalItem>, cooling: seq<CooldownItem>, scale: (NodeId, real) -> NodeId, now: int)
    requires QueuesOk(ready, cooling, scale) && (cooling == [] || cooling[0].nextAllowed > now)
    ensures DueItems(cooling, now) == {} && Resting(cooling, now) == Members(cooling)
  {
    if cooling != [] {
      PopTakesLeast(cooling, DueTime());
      assert forall c :: c in cooling ==> DueTime()(c) == c.nextAllowed;
    }
  }

  /** Popping the ready heap takes a least item and keeps the rest. */
  lemma PopReady(ready: seq<TraversalItem>, cooling: seq<CooldownItem>, scale: (NodeId, real) -> NodeId)
    requires ready != [] && QueuesOk(ready, cooling, scale)
    ensures QueuesOk(Popped(ready, Rank(scale)), cooling, scale)
    ensures Members(ready) == Members(Popped(ready, Rank(scale))) + {ready[0]}
    ensures forall x :: x in ready ==> Rank(scale)(ready[0]) <= Rank(scale)(x)
  {
    hide Popped, HeapOrdered, Rank, WaitsOnce;
    var left := Popped(ready, Rank(scale));
    PopTakesLeast(ready, Rank(scale));
    OneRemoved(ready, left, ready[0]);
    assert ready[0] in ready;
    assert forall x :: x in left ==> x in Members(ready);
  }

  lemma PushCooling(ready: seq<TraversalItem>, cooling: seq<CooldownItem>, c: CooldownItem, scale: (NodeId, real) -> NodeId)
    requires QueuesOk(ready, cooling, scale) && c.item !in ready && c.item !in Waiting(cooling)
    ensures QueuesOk(ready, Pushed(cooling, c, DueTime()), scale)
    ensures Members(Pushed(cooling, c, DueTime())) == Members(cooling) + {c}
  {
    hide Pushed, HeapOrdered, Rank, DueTime;
    var pushed := Pushed(cooling, c, DueTime());
    PushKeepsHeap(cooling, c, DueTime());
    OneRemoved(pushed, cooling, c);
    assert forall d :: d in cooling ==> d.item in Waiting(cooling);
    forall d | d in pushed
      ensures multiset(pushed)[d] == 1
    {
      if d in cooling {
        assert multiset(cooling)[d] == 1;
      } else {
        assert d == c && c !in cooling;
        assert multiset(cooling)[c] == 0;
      }
    }
  }

  lemma PushReady(ready: seq<TraversalItem>, cooling: seq<CooldownItem>, x: TraversalItem, scale: (NodeId, real) -> NodeId)
    requires QueuesOk(ready, cooling, scale) && x !in ready && x !in Waiting(cooling)
    ensures QueuesOk(Pushed(ready, x, Rank(scale)), cooling, scale)
    ensures Members(Pushed(ready, x, Rank(scale))) == Members(ready) + {x}
  {
    hide Pushed, HeapOrdered, Rank, DueTime, WaitsOnce;
    var pushed := Pushed(ready, x, Rank(scale));
    PushKeepsHeap(ready, x, Rank(scale));
    OneRemoved(pushed, ready, x);
    assert forall c :: c in cooling ==> c.item in Waiting(cooling);
    assert forall c :: c in cooling ==> c.item !in pushed;
    assert x in pushed;
  }

  /** The first `w` of a sorted arrangement, in any order, are a `w` nearest. */
  lemma FirstAreNearest(before: seq<TraversalItem>, sorted: seq<TraversalItem>, kept: seq<TraversalItem>, w: nat,
                        rank: TraversalItem -> int)
    requires w < |sorted| && multiset(sorted) == multiset(before) && multiset(kept) == multiset(sorted[..w])
    requires AscendingBut(sorted, |sorted|, |sorted|, rank)
    ensures |kept| == w && Members(kept) <= Members(before)
    ensures forall x, y :: x in kept && y in Members(before) - Members(kept) ==> rank(x) <= rank(y)
  {
    SameMembers(sorted, before);
    SameMembers(kept, sorted[..w]);
    assert |kept| == |multiset(kept)| && |sorted[..w]| == |multiset(sorted[..w])|;
    forall x | x in kept
      ensures x in before
    {
      assert x in sorted[..w];
    }
    forall x, y | x in kept && y in Members(before) - Members(kept)
      ensures rank(x) <= rank(y)
    {
      assert x in sorted[..w] && y in sorted && y !in sorted[..w];
      assert forall k :: 0 <= k < w ==> sorted[k] in sorted[..w];
      var a :| 0 <= a < w && sorted[..w][a] == x;
      var b :| 0 <= b < |sorted| && sorted[b] == y;
    }
  }

  lemma TrimmedOk(before: seq<TraversalItem>, kept: seq<TraversalItem>, cooling: seq<CooldownItem>,
                  scale: (NodeId, real) -> NodeId)
    requires QueuesOk(before, cooling, scale) && Members(kept) <= Members(before) && HeapOrdered(kept, Rank(scale))
    ensures QueuesOk(kept, cooling, scale)
  {
    hide WaitsOnce, HeapOrdered;
    assert forall x :: x in kept ==> x in Members(kept);
  }

  class Crawler {
    const ready: TraversalHeap
    const cooldown: CooldownHeap
    const traversalWidth: nat

    constructor (scale: (NodeId, real) -> NodeId, traversalWidth: nat)
      ensures Valid() && fresh(ready) && fresh(cooldown) && ready.pq == [] && cooldown.items == []
      ensures ready.scale == scale && this.traversalWidth == traversalWidth
    {
      ready := new TraversalHeap(scale);
      cooldown := new CooldownHeap();
      this.traversalWidth := traversalWidth;
    }

    ghost predicate Valid()
      reads ready, cooldown, ready.pq
    {
      Placed(ready.pq) && QueuesOk(ready.pq, cooldown.items, ready.scale)
    }

    ghost function Items(): set<TraversalItem>
      reads ready, cooldown
    {
      Members(ready.pq) + Waiting(cooldown.items)
    }

    /** What may be queried at `now`. */
    ghost function Eligible(now: int): set<TraversalItem>
      reads ready, cooldown
    {
      Members(ready.pq) + DueItems(cooldown.items, now)
    }

    method PromoteReady(now: int)
      requires Valid()
      modifies ready, cooldown, Items()
      ensures Valid()
      ensures Members(ready.pq) == old(Eligible(now))
      ensures Members(cooldown.items) == old(Resting(cooldown.items, now))
      ensures Items() == old(Items())
      ensures |ready.pq| + |cooldown.items| == old(|ready.pq| + |cooldown.items|)
    {
      hide QueuesOk, Pushed, Popped, Rank, DueItems, Resting;
      ghost var owned := Items();
      while |cooldown.items| > 0
        invariant Valid() && Items() == owned
        invariant Eligible(now) == old(Eligible(now))
        invariant Resting(cooldown.items, now) == old(Resting(cooldown.items, now))
        invariant |ready.pq| + |cooldown.items| == old(|ready.pq| + |cooldown.items|)
        decreases |cooldown.items|
      {
        var top := cooldown.items[0];
        if top.nextAllowed > now {
          break;
        }
        PromoteOne(ready.pq, cooldown.items, ready.scale);
        PromoteSets(ready.pq, Pushed(ready.pq, top.item, Rank(ready.scale)), cooldown.items,
                    Popped(cooldown.items, DueTime()), now);
        var c := cooldown.Pop();
        ready.Push(top.item, owned);
      }
      NothingDue(ready.pq, cooldown.items, ready.scale, now);
    }

    /** The closest eligible item, taken out of the queues, or null when there is none. */
    method NextEligible(now: int) returns (x: TraversalItem?)
      requires Valid()
      modifies ready, cooldown, Items()
      ensures Valid()
      ensures Members(cooldown.items) == old(Resting(cooldown.items, now))
      ensures x == null <==> old(Eligible(now)) == {}
      ensures x == null ==> ready.pq == []
      ensures x != null ==>
                && x in old(Eligible(now)) && x.index == -1
                && Members(ready.pq) == old(Eligible(now)) - {x}
                && forall y :: y in old(Eligible(now)) ==> NoFarther(x, y, ready.scale)
    {
      hide QueuesOk, Pushed, Popped, DueItems, Resting, Rank, NoFarther;
      PromoteReady(now);
      if |ready.pq| == 0 {
        return null;
      }
      assert ready.pq[0] in Members(ready.pq);
      PopReady(ready.pq, cooldown.items, ready.scale);
      forall y | y in ready.pq
        ensures NoFarther(ready.pq[0], y, ready.scale)
      {
        RankIsDistance(ready.pq[0], y, ready.scale);
      }
      x := ready.Pop(Members(ready.pq));
    }

    /** Back to the cooldown heap after a query. */
    method Cool(x: TraversalItem, nextAllowed: int)
      requires Valid() && x !in Items()
      modifies cooldown
      ensures Valid() && ready.pq == old(ready.pq)
      ensures Members(cooldown.items) == old(Members(cooldown.items)) + {CooldownItem(x, nextAllowed)}
    {
      PushCooling(ready.pq, cooldown.items, CooldownItem(x, nextAllowed), ready.scale);
      cooldown.Push(CooldownItem(x, nextAllowed));
    }

    method PushToReady(id: NodeId, target: NodeId, seen: set<NodeId>, samples: nat) returns (pushed: bool)
      requires Valid()
      modifies ready, Items()
      ensures Valid() && pushed == (id !in seen)
      ensures !pushed ==> ready.pq == old(ready.pq)
      ensures pushed ==> exists x ::
                && x !in old(Items()) && Members(ready.pq) == old(Members(ready.pq)) + {x}
                && x.id == id && x.target == target && x.dist == Xor(target, id) && x.yieldFactor == samples as real
    {
      hide QueuesOk, Pushed, Rank;
      if id in seen {
        return false;
      }
      var dist := ComputeXor(target, id);
      var x := new TraversalItem(id, target, dist, samples as real);
      PushReady(ready.pq, cooldown.items, x, ready.scale);
      ready.Push(x, Items() + {x});
      return true;
    }

    /** Keeps the `traversalWidth` nearest items of the ready heap. */
    method TrimReadyToK()
      requires Valid()
      modifies ready, Items()
      ensures Valid()
      ensures old(|ready.pq|) <= traversalWidth ==> ready.pq == old(ready.pq)
      ensures old(|ready.pq|) > traversalWidth ==>
                && |ready.pq| == traversalWidth && Members(ready.pq) <= old(Members(ready.pq))
                && forall x, y :: x in ready.pq && y in old(Members(ready.pq)) - Members(ready.pq) ==>
                     NoFarther(x, y, ready.scale)
    {
      hide QueuesOk, Rank, AscendingBut, HeapOrdered, NoFarther;
      if |ready.pq| <= traversalWidth {
        return;
      }
      ghost var before, owned := ready.pq, Items();
      ready.Sort(owned);
      ghost var sorted := ready.pq;
      SameMembers(sorted, before);
      ready.pq := ready.pq[..traversalWidth];
      ready.Init(owned);
      FirstAreNearest(before, sorted, ready.pq, traversalWidth, Rank(ready.scale));
      TrimmedOk(before, ready.pq, cooldown.items, ready.scale);
      forall x, y | x in ready.pq && y in Members(before) - Members(ready.pq)
        ensures NoFarther(x, y, ready.scale)
      {
        RankIsDistance(x, y, ready.scale);
      }
    }
  }
}
