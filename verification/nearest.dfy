/**
 Sorting by XOR distance and keeping the nearest few: the common core of `Closest` in
 `dht/table/table.go` and of both iterative lookups.
 */
module Nearest {

  import opened Common
  import opened NodeIds

  function Min(a: nat, b: nat): nat {
    if a < b then a else b
  }

  // ----- the library's sort

  ghost predicate SortedBy<T>(ys: seq<T>, key: T -> int) {
    forall i, j :: 0 <= i < j < |ys| ==> key(ys[i]) <= key(ys[j])
  }

  /** Stands for `sort.Slice`: some permutation in non-decreasing order of `key`. */
  method SortBy<T>(xs: seq<T>, key: T -> int) returns (ys: seq<T>)
    ensures multiset(ys) == multiset(xs)
    ensures SortedBy(ys, key)
  {
    ys := [];
    for i := 0 to |xs|
      invariant multiset(ys) == multiset(xs[..i])
      invariant SortedBy(ys, key)
    {
      assert xs[..i + 1] == xs[..i] + [xs[i]];
      ys := InsertSorted(ys, xs[i], key);
    }
    assert xs[..|xs|] == xs;
  }

  method InsertSorted<T>(ys: seq<T>, x: T, key: T -> int) returns (zs: seq<T>)
    requires SortedBy(ys, key)
    ensures multiset(zs) == multiset(ys) + multiset{x}
    ensures SortedBy(zs, key)
  {
    var p := |ys|;
    while p > 0 && key(ys[p - 1]) > key(x)
      invariant 0 <= p <= |ys|
      invariant forall j :: p <= j < |ys| ==> key(x) < key(ys[j])
    {
      p := p - 1;
    }
    zs := ys[..p] + [x] + ys[p..];
    InsertedOnce(ys, p, x);
  }

  lemma InsertedOnce<T>(ys: seq<T>, p: nat, x: T)
    requires p <= |ys|
    ensures multiset(ys[..p] + [x] + ys[p..]) == multiset(ys) + multiset{x}
  {
    assert ys == ys[..p] + ys[p..];
  }

  lemma MultisetElements<T>(xs: seq<T>, ys: seq<T>)
    requires multiset(xs) == multiset(ys)
    ensures |xs| == |ys|
    ensures forall x :: x in xs <==> x in ys
  {
    assert |multiset(xs)| == |multiset(ys)|;
    forall x
      ensures x in xs <==> x in ys
    {
      assert x in multiset(xs) <==> x in multiset(ys);
    }
  }

  lemma {:induction false} CountOnce<T>(xs: seq<T>, x: T)
    requires forall i, j :: 0 <= i < j < |xs| ==> xs[i] != xs[j]
    ensures multiset(xs)[x] <= 1
  {
    if xs != [] {
      var init := xs[..|xs| - 1];
      assert xs == init + [xs[|xs| - 1]];
      CountOnce(init, x);
    }
  }

  lemma DistinctPermutation<T>(xs: seq<T>, ys: seq<T>)
    requires multiset(xs) == multiset(ys)
    requires forall i, j :: 0 <= i < j < |xs| ==> xs[i] != xs[j]
    ensures forall i, j :: 0 <= i < j < |ys| ==> ys[i] != ys[j]
  {
    forall i, j | 0 <= i < j < |ys|
      ensures ys[i] != ys[j]
    {
      CountOnce(xs, ys[i]);
      assert ys == ys[..j] + [ys[j]] + ys[j + 1..];
      assert ys[i] in multiset(ys[..j]);
    }
  }

  // ----- lists in order of distance

  ghost predicate Ascending(target: NodeId, ids: seq<NodeId>) {
    forall i, j :: 0 <= i < j < |ids| ==> Dist(target, ids[i]) < Dist(target, ids[j])
  }

  lemma TailMembers(target: NodeId, xs: seq<NodeId>, x: NodeId)
    requires Ascending(target, xs) && xs != []
    ensures x in xs[1..] <==> x in xs && x != xs[0]
  {
    if x in xs && x != xs[0] {
      var j :| 0 <= j < |xs| && xs[j] == x;
      assert xs[1..][j - 1] == x;
    }
  }

  lemma ElementsAppend(ids: seq<NodeId>, x: NodeId)
    ensures Elements(ids + [x]) == Elements(ids) + {x}
  {
  }

  /** The identifiers of a set, nearest first; the set is visited in any order, as a Go map is. */
  method SortIds(all: set<NodeId>, target: NodeId) returns (ids: seq<NodeId>)
    ensures Ascending(target, ids) && Elements(ids) == all
  {
    var unsorted: seq<NodeId> := [];
    var left := all;
    while left != {}
      invariant left <= all && Elements(unsorted) == all - left
      invariant forall i, j :: 0 <= i < j < |unsorted| ==> unsorted[i] != unsorted[j]
      decreases left
    {
      var k :| k in left;
      assert forall i :: 0 <= i < |unsorted| ==> unsorted[i] in Elements(unsorted);
      ElementsAppend(unsorted, k);
      unsorted := unsorted + [k];
      left := left - {k};
    }
    ids := SortBy(unsorted, (id: NodeId) => Dist(target, id));
    MultisetElements(unsorted, ids);
    DistinctPermutation(unsorted, ids);
    assert Elements(ids) == Elements(unsorted);
    forall i, j | 0 <= i < j < |ids|
      ensures Dist(target, ids[i]) < Dist(target, ids[j])
    {
      if Dist(target, ids[i]) == Dist(target, ids[j]) {
        DistInjective(target, ids[i], ids[j]);
      }
    }
  }

  // ----- the nearest w of a set

  ghost predicate IsNearest(target: NodeId, all: set<NodeId>, chosen: set<NodeId>, w: nat) {
    && chosen <= all
    && |chosen| == Min(w, |all|)
    && forall x, y :: x in chosen && y in all - chosen ==> Dist(target, x) < Dist(target, y)
  }

  lemma NearestIsUnique(target: NodeId, all: set<NodeId>, a: set<NodeId>, b: set<NodeId>, w: nat)
    requires IsNearest(target, all, a, w) && IsNearest(target, all, b, w)
    ensures a == b
  {
    if a <= b {
      SubsetSize(a, b);
    } else if b <= a {
      SubsetSize(b, a);
    } else {
      var x :| x in a && x !in b;
      var y :| y in b && y !in a;
      NearerThanRest(target, all, a, w, x, y);
      NearerThanRest(target, all, b, w, y, x);
    }
  }

  lemma NearerThanRest(target: NodeId, all: set<NodeId>, chosen: set<NodeId>, w: nat, x: NodeId, y: NodeId)
    requires IsNearest(target, all, chosen, w)
    requires x in chosen && y in all && y !in chosen
    ensures Dist(target, x) < Dist(target, y)
  {
    assert y in all - chosen;
  }

  function Elements(ids: seq<NodeId>): set<NodeId> {
    set x | x in ids
  }

  lemma {:induction false} AscendingSize(target: NodeId, ids: seq<NodeId>)
    requires Ascending(target, ids)
    ensures |Elements(ids)| == |ids|
  {
    if ids != [] {
      AscendingSize(target, ids[1..]);
      forall x
        ensures x in Elements(ids) <==> x in Elements(ids[1..]) + {ids[0]}
      {
        TailMembers(target, ids, x);
      }
      TailMembers(target, ids, ids[0]);
      assert Elements(ids) == Elements(ids[1..]) + {ids[0]};
    }
  }

  lemma NearestSize(target: NodeId, all: set<NodeId>, ids: seq<NodeId>, w: nat)
    requires Ascending(target, ids) && IsNearest(target, all, Elements(ids), w)
    ensures |ids| == Min(w, |all|)
  {
    AscendingSize(target, ids);
  }

  /** The order is unique: however the sort breaks ties, no two identifiers tie. */
  lemma {:induction false} AscendingIsUnique(target: NodeId, xs: seq<NodeId>, ys: seq<NodeId>)
    requires Ascending(target, xs) && Ascending(target, ys)
    requires Elements(xs) == Elements(ys)
    ensures xs == ys
  {
    AscendingSize(target, xs);
    AscendingSize(target, ys);
    if xs != [] {
      assert xs[0] in Elements(ys) && ys[0] in Elements(xs);
      var i :| 0 <= i < |ys| && ys[i] == xs[0];
      var j :| 0 <= j < |xs| && xs[j] == ys[0];
      assert Dist(target, xs[0]) == Dist(target, ys[0]);
      DistInjective(target, xs[0], ys[0]);
      forall x
        ensures x in Elements(xs[1..]) <==> x in Elements(ys[1..])
      {
        TailMembers(target, xs, x);
        TailMembers(target, ys, x);
        assert x in Elements(xs) <==> x in Elements(ys);
      }
      AscendingIsUnique(target, xs[1..], ys[1..]);
    }
  }

  /** A prefix of the sorted list is the nearest part of the set. */
  lemma PrefixIsNearest(target: NodeId, ids: seq<NodeId>, w: nat)
    requires Ascending(target, ids)
    ensures IsNearest(target, Elements(ids), Elements(ids[..Min(w, |ids|)]), w)
  {
    var n := Min(w, |ids|);
    AscendingSize(target, ids);
    AscendingSize(target, ids[..n]);
    forall x, y | x in Elements(ids[..n]) && y in Elements(ids) - Elements(ids[..n])
      ensures Dist(target, x) < Dist(target, y)
    {
      var i :| 0 <= i < n && ids[i] == x;
      assert ids == ids[..n] + ids[n..];
      var j :| 0 <= j < |ids| - n && ids[n..][j] == y;
    }
  }

  lemma Farthest(target: NodeId, all: set<NodeId>) returns (f: NodeId)
    requires all != {}
    ensures f in all && forall x :: x in all && x != f ==> Dist(target, x) < Dist(target, f)
    decreases |all|
  {
    var y :| y in all;
    if all == {y} {
      return y;
    }
    assert all - {y} != {};
    var g := Farthest(target, all - {y});
    f := if Dist(target, y) < Dist(target, g) then g else y;
    if Dist(target, y) == Dist(target, g) {
      DistInjective(target, y, g);
    }
  }

  lemma {:induction false} NearestExists(target: NodeId, all: set<NodeId>, w: nat) returns (chosen: set<NodeId>)
    ensures IsNearest(target, all, chosen, w)
    decreases |all|
  {
    if |all| <= w {
      return all;
    }
    var f := Farthest(target, all);
    chosen := NearestExists(target, all - {f}, w);
    forall x, y | x in chosen && y in all - chosen
      ensures Dist(target, x) < Dist(target, y)
    {
      if y != f {
        NearerThanRest(target, all - {f}, chosen, w, x, y);
      }
    }
  }

  lemma KeptIsEnough(target: NodeId, seen: set<NodeId>, kept: set<NodeId>, added: set<NodeId>, now: set<NodeId>, w: nat)
    requires IsNearest(target, seen, kept, w)
    requires IsNearest(target, kept + added, now, w)
    ensures IsNearest(target, seen + added, now, w)
  {
    SubsetSize(kept + added, seen + added);
    SubsetSize(kept, seen);
    SubsetSize(kept, kept + added);
    forall x, y | x in now && y in seen + added - now
      ensures Dist(target, x) < Dist(target, y)
    {
      if y in kept + added {
        NearerThanRest(target, kept + added, now, w, x, y);
      } else if x in kept {
        NearerThanRest(target, seen, kept, w, x, y);
      } else {
        var z := SomeoneDropped(kept, now, x);
        NearerThanRest(target, kept + added, now, w, x, z);
        NearerThanRest(target, seen, kept, w, z, y);
      }
    }
  }

  /**
   Trimming loses nothing: with `kept` the nearest `w` of everything seen, adding new identifiers to
   `kept` or to everything gives the same nearest `w`.
   */
  lemma TrimLosesNothing(target: NodeId, seen: set<NodeId>, kept: set<NodeId>, added: set<NodeId>, now: set<NodeId>, w: nat)
    requires IsNearest(target, seen, kept, w)
    ensures IsNearest(target, kept + added, now, w) <==> IsNearest(target, seen + added, now, w)
  {
    var best := NearestExists(target, kept + added, w);
    KeptIsEnough(target, seen, kept, added, best, w);
    if IsNearest(target, kept + added, now, w) {
      NearestIsUnique(target, kept + added, best, now, w);
    }
    if IsNearest(target, seen + added, now, w) {
      NearestIsUnique(target, seen + added, best, now, w);
    }
  }

  /** Two sets have the same nearest `w`. */
  ghost predicate SameNearest(target: NodeId, a: set<NodeId>, b: set<NodeId>, w: nat) {
    forall c: set<NodeId> :: IsNearest(target, a, c, w) <==> IsNearest(target, b, c, w)
  }

  /** Sets with the same nearest `w` keep them when both learn the same identifiers. */
  lemma SameNearestGrows(target: NodeId, a: set<NodeId>, b: set<NodeId>, added: set<NodeId>, w: nat)
    requires SameNearest(target, a, b, w)
    ensures SameNearest(target, a + added, b + added, w)
  {
    var kept := NearestExists(target, a, w);
    forall c: set<NodeId>
      ensures IsNearest(target, a + added, c, w) <==> IsNearest(target, b + added, c, w)
    {
      TrimLosesNothing(target, a, kept, added, c, w);
      TrimLosesNothing(target, b, kept, added, c, w);
    }
  }

  /** Trimming itself changes nothing about the nearest `w`. */
  lemma TrimmedIsSame(target: NodeId, all: set<NodeId>, trimmed: set<NodeId>, w: nat)
    requires IsNearest(target, all, trimmed, w)
    ensures SameNearest(target, trimmed, all, w)
  {
    forall c: set<NodeId>
      ensures IsNearest(target, trimmed, c, w) <==> IsNearest(target, all, c, w)
    {
      TrimLosesNothing(target, all, trimmed, {}, c, w);
      assert trimmed + {} == trimmed && all + {} == all;
    }
  }

  lemma SomeoneDropped(kept: set<NodeId>, now: set<NodeId>, x: NodeId) returns (z: NodeId)
    requires |now| <= |kept| && x in now && x !in kept
    ensures z in kept && z !in now
  {
    SubsetSize(kept, now + kept);
    if kept <= now {
      SubsetSize(kept + {x}, now);
    }
    z :| z in kept && z !in now;
  }
}
