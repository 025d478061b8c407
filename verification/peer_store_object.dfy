/**
 The store of `dht/server/peerstore.go` as the program keeps it: an object with a map, an order list
 and an index into the list, proved against the operations of `PeerStores`.
 */
module PeerStoreObjects {

  import opened Common
  import opened NodeIds
  import opened PeerStores

  /** An element of the order list; two elements with one key are still two elements. */
  class ListElement {
    const key: Key

    constructor (key: Key)
      ensures this.key == key
    {
      this.key := key;
    }
  }

  function KeysOf(elements: seq<ListElement>): (keys: seq<Key>) {
    seq(|elements|, i requires 0 <= i < |elements| => elements[i].key)
  }

  /** `list.Remove` */
  function Unlink(elements: seq<ListElement>, el: ListElement): seq<ListElement> {
    if elements == [] then []
    else if elements[|elements| - 1] == el then elements[..|elements| - 1]
    else Unlink(elements[..|elements| - 1], el) + [elements[|elements| - 1]]
  }

  /** The index leads from every listed key to its one element, and from nothing else. */
  ghost predicate Linked(elements: seq<ListElement>, index: map<Key, ListElement>) {
    && Distinct(KeysOf(elements))
    && (forall i :: 0 <= i < |elements| ==> elements[i].key in index && index[elements[i].key] == elements[i])
    && (forall k :: k in index ==> index[k] in elements && index[k].key == k)
  }

  lemma {:induction false} UnlinkAt(elements: seq<ListElement>, i: nat)
    requires i < |elements| && Distinct(elements)
    ensures Unlink(elements, elements[i]) == elements[..i] + elements[i + 1..]
    ensures Distinct(elements[..i] + elements[i + 1..])
    ensures KeysOf(elements[..i] + elements[i + 1..]) == KeysOf(elements)[..i] + KeysOf(elements)[i + 1..]
  {
    var n := |elements| - 1;
    assert elements[i] == elements[n] <==> i == n;
    if i < n {
      UnlinkAt(elements[..n], i);
      assert elements[..n][..i] + elements[..n][i + 1..] + [elements[n]] == elements[..i] + elements[i + 1..];
    }
  }

  /** Elements with different keys are different. */
  lemma LinkedIsDistinct(elements: seq<ListElement>, index: map<Key, ListElement>)
    requires Linked(elements, index)
    ensures Distinct(elements)
  {
    assert forall i :: 0 <= i < |elements| ==> KeysOf(elements)[i] == elements[i].key;
  }

  lemma {:induction false} RemoveAbsent(order: seq<Key>, ih: Key)
    requires ih !in order
    ensures Remove(order, ih) == order
  {
    if order != [] {
      RemoveAbsent(order[..|order| - 1], ih);
    }
  }

  lemma {:induction false} RemoveAt(order: seq<Key>, i: nat)
    requires i < |order| && Distinct(order)
    ensures Remove(order, order[i]) == order[..i] + order[i + 1..]
  {
    var n := |order| - 1;
    if i < n {
      RemoveAt(order[..n], i);
    } else {
      RemoveAbsent(order[..n], order[n]);
    }
  }

  lemma LinkedWithout(elements: seq<ListElement>, index: map<Key, ListElement>, i: nat)
    requires i < |elements| && Linked(elements, index)
    ensures Linked(elements[..i] + elements[i + 1..], index - {elements[i].key})
    ensures KeysOf(elements[..i] + elements[i + 1..]) == KeysOf(elements)[..i] + KeysOf(elements)[i + 1..]
  {
    var rest, gone := elements[..i] + elements[i + 1..], elements[i].key;
    assert KeysOf(rest) == KeysOf(elements)[..i] + KeysOf(elements)[i + 1..];
    assert forall j :: 0 <= j < |elements| ==> KeysOf(elements)[j] == elements[j].key;
    forall k | k in index - {gone}
      ensures index[k] in rest
    {
      var j :| 0 <= j < |elements| && elements[j] == index[k];
      assert rest[if j < i then j else j - 1] == index[k];
    }
  }

  lemma LinkedAppend(elements: seq<ListElement>, index: map<Key, ListElement>, el: ListElement)
    requires Linked(elements, index) && el.key !in KeysOf(elements)
    ensures Linked(elements + [el], index[el.key := el])
    ensures KeysOf(elements + [el]) == KeysOf(elements) + [el.key]
  {
    assert KeysOf(elements + [el]) == KeysOf(elements) + [el.key];
    assert forall j :: 0 <= j < |elements| ==> KeysOf(elements)[j] == elements[j].key;
    assert forall j :: 0 <= j < |elements| ==> KeysOf(elements)[j] in KeysOf(elements);
  }

  /** `filterLivePeers` */
  method FilterLivePeers(ps: seq<Peer>, now: int, ttl: int) returns (live: seq<Peer>)
    ensures live == Live(ps, now, ttl)
  {
    var cutoff := now - ttl;
    live := [];
    for i := 0 to |ps|
      invariant live == Live(ps[..i], now, ttl)
    {
      assert ps[..i + 1][..i] == ps[..i];
      if ps[i].seenAt > cutoff {
        live := live + [ps[i]];
      }
    }
    assert ps[..|ps|] == ps;
  }

  class PeerStore {
    var entries: map<Key, seq<Peer>>
    var insertOrder: seq<ListElement>
    var orderIndex: map<Key, ListElement>
    const caps: Caps

    ghost function View(): Store
      reads this
    {
      Store(entries, KeysOf(insertOrder))
    }

    /** Without room for a peer nothing is stored; the order may then list an infohash more than once. */
    ghost predicate Valid()
      reads this
    {
      && Distinct(insertOrder)
      && if caps.peers >= 1 then Linked(insertOrder, orderIndex) && Agree(View(), caps) else entries == map[]
    }

    constructor (caps: Caps)
      ensures Valid() && this.caps == caps && View() == Store(map[], [])
    {
      this.entries := map[];
      this.insertOrder := [];
      this.orderIndex := map[];
      this.caps := caps;
    }

    method Add(ih: Key, ip: seq<Byte>, port: int, now: int)
      requires Valid()
      modifies this
      ensures Valid() && View() == PeerStores.Add(old(View()), ih, ip, port, now, caps)
    {
      if caps.peers >= 1 {
        AddKeepsAgree(View(), ih, ip, port, now, caps);
      } else {
        NothingStored(View(), DoAdd(ih, ip, port, now), caps);
      }
      hide Agree, Prepare, IndexOf, Linked;
      var existing, done := GetOrPrepare(ih, ip, port, now);
      assert [] + [Peer(ip, port, now)] == [Peer(ip, port, now)];
      if !done && |existing| < caps.peers {
        entries := entries[ih := existing + [Peer(ip, port, now)]];
      }
    }

    /** The peers known before, and whether the peer was among them and has been refreshed. */
    method GetOrPrepare(ih: Key, ip: seq<Byte>, port: int, now: int) returns (existing: seq<Peer>, done: bool)
      requires Valid()
      modifies this
      ensures Distinct(insertOrder) && (caps.peers >= 1 ==> Linked(insertOrder, orderIndex))
      ensures var s := old(View());
        if ih !in s.entries then
          existing == [] && !done && View() == Prepare(s, ih, caps)
        else
          var i := IndexOf(s.entries[ih], ip, port);
          && done == (i < |s.entries[ih]|)
          && (!done ==> existing == s.entries[ih] && View() == s)
          && (done ==> View() == PeerStores.Add(s, ih, ip, port, now, caps))
    {
      assert caps.peers >= 1 && ih !in entries ==> ih !in KeysOf(insertOrder);
      hide Agree, Linked, KeysOf, Prepare, IpEqual;
      if ih !in entries {
        PrepareNewInfohash(ih);
        return [], false;
      }
      existing := entries[ih];
      for i := 0 to |existing|
        invariant existing == entries[ih]
        invariant forall j :: 0 <= j < i ==> !SamePeer(existing[j], ip, port)
      {
        if SamePeer(existing[i], ip, port) {
          existing := existing[i := existing[i].(seenAt := now)];
          entries := entries[ih := existing];
          return existing, true;
        }
      }
      done := false;
    }

    method PrepareNewInfohash(ih: Key)
      requires Distinct(insertOrder)
      modifies this
      ensures Distinct(insertOrder) && View() == Prepare(old(View()), ih, caps)
      ensures old(Linked(insertOrder, orderIndex) && ih !in KeysOf(insertOrder)) ==> Linked(insertOrder, orderIndex)
    {
      if |entries| >= caps.hashes {
        EvictOldest();
      }
      var el := new ListElement(ih);
      if Linked(insertOrder, orderIndex) && ih !in KeysOf(insertOrder) {
        LinkedAppend(insertOrder, orderIndex, el);
      }
      assert KeysOf(insertOrder + [el]) == KeysOf(insertOrder) + [ih];
      insertOrder := insertOrder + [el];
      orderIndex := orderIndex[ih := el];
    }

    method EvictOldest()
      requires Distinct(insertOrder)
      modifies this
      ensures Distinct(insertOrder) && View() == PeerStores.EvictOldest(old(View()))
      ensures old(Linked(insertOrder, orderIndex)) ==> Linked(insertOrder, orderIndex)
      ensures forall el :: el in insertOrder ==> el in old(insertOrder)
      ensures forall k :: k in KeysOf(insertOrder) ==> k in old(KeysOf(insertOrder))
    {
      hide Linked, KeysOf;
      while |insertOrder| > 0
        invariant Distinct(insertOrder)
        invariant PeerStores.EvictOldest(View()) == PeerStores.EvictOldest(old(View()))
        invariant old(Linked(insertOrder, orderIndex)) ==> Linked(insertOrder, orderIndex)
        invariant forall el :: el in insertOrder ==> el in old(insertOrder)
        invariant forall k :: k in KeysOf(insertOrder) ==> k in old(KeysOf(insertOrder))
      {
        var front := insertOrder[0];
        var ih := front.key;
        FrontGoes(insertOrder);
        if Linked(insertOrder, orderIndex) {
          LinkedWithout(insertOrder, orderIndex, 0);
        }
        insertOrder := Unlink(insertOrder, front);
        orderIndex := orderIndex - {ih};
        if ih in entries {
          entries := entries - {ih};
          return;
        }
      }
      NothingListed(insertOrder);
    }

    method Get(ih: Key, now: int) returns (live: seq<Peer>)
      requires Valid()
      modifies this
      ensures Valid() && (View(), live) == PeerStores.Get(old(View()), ih, now, caps)
    {
      if ih !in entries {
        return [];
      }
      GetKeepsAgree(View(), ih, now, caps);
      live := FilterLivePeers(entries[ih], now, caps.ttl);
      if |live| == 0 {
        entries := entries - {ih};
        RemoveFromOrder(ih);
        return [];
      }
      entries := entries[ih := live];
    }

    method RemoveFromOrder(ih: Key)
      requires Linked(insertOrder, orderIndex)
      modifies `insertOrder, `orderIndex
      ensures Distinct(insertOrder) && Linked(insertOrder, orderIndex)
      ensures KeysOf(insertOrder) == Remove(old(KeysOf(insertOrder)), ih)
    {
      LinkedIsDistinct(insertOrder, orderIndex);
      if ih !in orderIndex {
        RemoveAbsent(KeysOf(insertOrder), ih);
        return;
      }
      var el := orderIndex[ih];
      ghost var i :| 0 <= i < |insertOrder| && insertOrder[i] == el;
      UnlinkAt(insertOrder, i);
      LinkedWithout(insertOrder, orderIndex, i);
      RemoveAt(KeysOf(insertOrder), i);
      insertOrder := Unlink(insertOrder, el);
      orderIndex := orderIndex - {ih};
    }

    /**
     One pass from the front of the list, removing the element under the cursor when nothing in it lives;
     `clock` is the time read at each infohash.
     */
    method PruneExpired(clock: Clock)
      requires Valid()
      modifies this
      ensures Valid() && View() == Prune(old(View()), clock, caps)
    {
      hide Live, KeepLive, PruneSome, Prune, Agree, Unlink, Linked, KeysOf, Distinct, Prunable, Walk, HasLive;
      ghost var s, all := View(), insertOrder;
      if caps.peers >= 1 {
        PruneKeepsAgree(s, clock, caps);
      }
      ghost var j := 0;
      var i := 0;
      WalkStarts(s, all, clock, caps);
      while i < |insertOrder|
        invariant Walk(s, all, insertOrder, entries, i, j, clock, caps)
        invariant caps.peers >= 1 ==> Linked(insertOrder, orderIndex)
        decreases |all| - j
      {
        var el := insertOrder[i];
        var ih := el.key;
        WalkOn(s, all, insertOrder, entries, i, j, clock, caps);
        if caps.peers >= 1 {
          CursorLinked(insertOrder, orderIndex, i);
        }
        j := j + 1;
        if ih !in entries {
          assert entries - {ih} == entries;
          insertOrder := Unlink(insertOrder, el);
          orderIndex := orderIndex - {ih};
          continue;
        }
        LiveKeeps(entries[ih], clock(ih), caps.ttl);
        var live := FilterLivePeers(entries[ih], clock(ih), caps.ttl);
        if |live| == 0 {
          entries := entries - {ih};
          insertOrder := Unlink(insertOrder, el);
          orderIndex := orderIndex - {ih};
          continue;
        }
        if |live| < |entries[ih]| {
          entries := entries[ih := live];
        } else {
          assert entries[ih := live] == entries;
        }
        i := i + 1;
      }
      WalkEnds(s, all, insertOrder, entries, i, j, clock, caps);
    }
  }

  /** The walk has visited `all[..j]`, kept `elements[..i]` of them, and has the rest of the list ahead. */
  ghost predicate Walk(s: Store, all: seq<ListElement>, elements: seq<ListElement>, entries: map<Key, seq<Peer>>,
                       i: nat, j: nat, clock: Clock, caps: Caps) {
    && s.order == KeysOf(all) && Prunable(s)
    && i <= |elements| && j <= |all| && elements[i..] == all[j..] && Distinct(elements)
    && KeysOf(elements)[..i] == KeepLive(s, s.order[..j], clock, caps)
    && entries == PruneSome(s, s.order[..j], clock, caps)
  }

  lemma WalkStarts(s: Store, all: seq<ListElement>, clock: Clock, caps: Caps)
    requires s.order == KeysOf(all) && Distinct(all)
    requires if caps.peers >= 1 then Agree(s, caps) else s.entries == map[]
    ensures Walk(s, all, all, s.entries, 0, 0, clock, caps)
  {
  }

  /** One visit: an infohash without live peers goes, element and all; any other stays with its live peers. */
  lemma WalkOn(s: Store, all: seq<ListElement>, elements: seq<ListElement>, entries: map<Key, seq<Peer>>,
               i: nat, j: nat, clock: Clock, caps: Caps)
    requires Walk(s, all, elements, entries, i, j, clock, caps) && i < |elements|
    ensures j < |all| && Distinct(elements)
    ensures var el := elements[i]; var ih := el.key;
      if ih in entries && Live(entries[ih], clock(ih), caps.ttl) != [] then
        Walk(s, all, elements, entries[ih := Live(entries[ih], clock(ih), caps.ttl)], i + 1, j + 1, clock, caps)
      else
        Walk(s, all, Unlink(elements, el), entries - {ih}, i, j + 1, clock, caps)
  {
    hide Live, KeepLive, PruneSome, Unlink, Distinct, KeysOf, Prunable;
    Cursor(elements, i, all, j);
    PruneStep(s, j, clock, caps);
  }

  lemma WalkEnds(s: Store, all: seq<ListElement>, elements: seq<ListElement>, entries: map<Key, seq<Peer>>,
                 i: nat, j: nat, clock: Clock, caps: Caps)
    requires Walk(s, all, elements, entries, i, j, clock, caps) && i >= |elements|
    ensures Distinct(elements) && Prune(s, clock, caps) == Store(entries, KeysOf(elements))
    ensures s.entries == map[] ==> entries == map[]
  {
    hide Live, KeepLive, Distinct;
    assert |elements[i..]| == |all[j..]| == 0;
    assert s.order[..j] == s.order && KeysOf(elements)[..i] == KeysOf(elements);
    EndPrune(s, elements, clock, caps);
  }

  lemma FrontGoes(elements: seq<ListElement>)
    requires Distinct(elements) && elements != []
    ensures var rest := Unlink(elements, elements[0]);
      && Distinct(rest) && KeysOf(rest) == KeysOf(elements)[1..] && KeysOf(elements)[0] == elements[0].key
      && |KeysOf(elements)| == |elements| && rest == elements[..0] + elements[1..]
  {
    hide Unlink, KeysOf, Distinct;
    UnlinkAt(elements, 0);
    KeysMatch(elements);
    assert KeysOf(elements)[..0] + KeysOf(elements)[1..] == KeysOf(elements)[1..];
  }

  lemma KeysMatch(elements: seq<ListElement>)
    ensures |KeysOf(elements)| == |elements|
    ensures forall i :: 0 <= i < |elements| ==> KeysOf(elements)[i] == elements[i].key
  {
  }

  lemma NothingListed(elements: seq<ListElement>)
    requires elements == []
    ensures KeysOf(elements) == []
  {
  }

  /** No infohash is listed twice, unless nothing at all is stored. */
  predicate Prunable(s: Store) {
    && (Distinct(s.order) || s.entries == map[])
    && forall k :: k in s.entries ==> k in s.order
  }

  /** What the cursor at `i` does when it removes its element, and when it moves on. */
  lemma Cursor(elements: seq<ListElement>, i: nat, all: seq<ListElement>, j: nat)
    requires i < |elements| && j <= |all| && elements[i..] == all[j..] && Distinct(elements)
    ensures j < |all| && |KeysOf(all)| == |all| && KeysOf(all)[j] == elements[i].key
    ensures elements[i + 1..] == all[j + 1..]
    ensures KeysOf(elements)[..i + 1] == KeysOf(elements)[..i] + [elements[i].key]
    ensures var rest := Unlink(elements, elements[i]);
      && |KeysOf(rest)| == |rest| == |elements| - 1
      && rest[i..] == all[j + 1..]
      && KeysOf(rest)[..i] == KeysOf(elements)[..i]
      && Distinct(rest)
  {
    hide Unlink;
    UnlinkAt(elements, i);
    assert elements[i..][0] == elements[i] && all[j..][0] == all[j] && KeysOf(all)[j] == all[j].key;
    assert elements[i + 1..] == elements[i..][1..] && all[j + 1..] == all[j..][1..];
  }

  lemma CursorLinked(elements: seq<ListElement>, index: map<Key, ListElement>, i: nat)
    requires i < |elements| && Distinct(elements) && Linked(elements, index)
    ensures Linked(Unlink(elements, elements[i]), index - {elements[i].key})
  {
    hide Unlink;
    UnlinkAt(elements, i);
    LinkedWithout(elements, index, i);
  }

  /** The entries once the infohashes in `done` have been visited. */
  function PruneSome(s: Store, done: seq<Key>, clock: Clock, caps: Caps): map<Key, seq<Peer>> {
    map ih | ih in s.entries && (ih in done ==> HasLive(s, ih, clock, caps)) ::
      if ih in done then Live(s.entries[ih], clock(ih), caps.ttl) else s.entries[ih]
  }

  lemma PruneStep(s: Store, j: nat, clock: Clock, caps: Caps)
    requires Prunable(s) && j < |s.order|
    ensures var k, done, after := s.order[j], s.order[..j], s.order[..j + 1];
      && (k in PruneSome(s, done, clock, caps) <==> k in s.entries)
      && (k in s.entries ==> PruneSome(s, done, clock, caps)[k] == s.entries[k])
      && (if HasLive(s, k, clock, caps) then
            && PruneSome(s, after, clock, caps)
            == PruneSome(s, done, clock, caps)[k := Live(s.entries[k], clock(k), caps.ttl)]
            && KeepLive(s, after, clock, caps) == KeepLive(s, done, clock, caps) + [k]
          else
            && PruneSome(s, after, clock, caps) == PruneSome(s, done, clock, caps) - {k}
            && KeepLive(s, after, clock, caps) == KeepLive(s, done, clock, caps))
  {
    var k, done, after := s.order[j], s.order[..j], s.order[..j + 1];
    assert after == done + [k] && after[..j] == done;
    assert s.entries == map[] || k !in done;
    KeepStep(s, done, k, clock, caps);
    hide Live, KeepLive;
    VisitStep(s, done, k, clock, caps);
  }

  lemma KeepStep(s: Store, done: seq<Key>, k: Key, clock: Clock, caps: Caps)
    ensures KeepLive(s, done + [k], clock, caps) ==
            KeepLive(s, done, clock, caps) + if HasLive(s, k, clock, caps) then [k] else []
  {
    assert (done + [k])[..|done|] == done;
  }

  lemma VisitStep(s: Store, done: seq<Key>, k: Key, clock: Clock, caps: Caps)
    requires s.entries == map[] || k !in done
    ensures k in PruneSome(s, done, clock, caps) <==> k in s.entries
    ensures k in s.entries ==> PruneSome(s, done, clock, caps)[k] == s.entries[k]
    ensures PruneSome(s, done + [k], clock, caps) ==
            if HasLive(s, k, clock, caps) then
              PruneSome(s, done, clock, caps)[k := Live(s.entries[k], clock(k), caps.ttl)]
            else
              PruneSome(s, done, clock, caps) - {k}
  {
    hide Live;
  }

  lemma EndPrune(s: Store, elements: seq<ListElement>, clock: Clock, caps: Caps)
    requires Prunable(s) && KeysOf(elements) == KeepLive(s, s.order, clock, caps)
    ensures Prune(s, clock, caps) == Store(PruneSome(s, s.order, clock, caps), KeysOf(elements))
    ensures s.entries == map[] ==> Prune(s, clock, caps).entries == map[]
  {
    hide KeysOf, Live;
  }
}
