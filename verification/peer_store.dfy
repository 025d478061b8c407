/**
 The announce store of `dht/server/peerstore.go`: peers by infohash, with first-in-first-out
 eviction of infohashes and expiry of peers: the store as a value, its operations, and what they keep.
 */
module PeerStores {

  import opened Common
  import opened NodeIds
  import opened Compact

  type Key = NodeId

  datatype Peer = Peer(ip: seq<Byte>, port: int, seenAt: int)

  /** `order` lists the infohashes, the one stored longest first. */
  datatype Store = Store(entries: map<Key, seq<Peer>>, order: seq<Key>)

  datatype Caps = Caps(hashes: int, peers: int, ttl: int)

  // ----- operations

  /** `net.IP.Equal`: an IPv4 address equals its v4-in-v6 form. */
  predicate IpEqual(a: seq<Byte>, b: seq<Byte>) {
    if |a| == |b| then a == b
    else if |a| == 4 && |b| == 16 then b[..12] == V4_PREFIX && a == b[12..]
    else |a| == 16 && |b| == 4 && a[..12] == V4_PREFIX && b == a[12..]
  }

  predicate SamePeer(p: Peer, ip: seq<Byte>, port: int) {
    IpEqual(p.ip, ip) && p.port == port
  }

  /** The same port, and the same address up to the two forms of an IPv4 address. */
  lemma SamePeerIs(p: Peer, ip: seq<Byte>, port: int)
    ensures SamePeer(p, ip, port) <==> p.port == port && (p.ip == ip || (To4(p.ip) != [] && To4(p.ip) == To4(ip)))
  {
    if |p.ip| == 16 && |ip| == 16 {
      assert p.ip == p.ip[..12] + p.ip[12..] && ip == ip[..12] + ip[12..];
    }
  }

  function IndexOf(ps: seq<Peer>, ip: seq<Byte>, port: int): (i: nat)
    ensures i <= |ps|
    ensures i < |ps| ==> SamePeer(ps[i], ip, port)
    ensures forall j :: 0 <= j < i ==> !SamePeer(ps[j], ip, port)
  {
    if ps == [] || SamePeer(ps[0], ip, port) then 0 else 1 + IndexOf(ps[1..], ip, port)
  }

  /** `filterLivePeers` */
  function Live(ps: seq<Peer>, now: int, ttl: int): seq<Peer> {
    if ps == [] then []
    else Live(ps[..|ps| - 1], now, ttl) + if ps[|ps| - 1].seenAt > now - ttl then [ps[|ps| - 1]] else []
  }

  /** `evictOldest`: drop from the front until an infohash with peers has gone. */
  function EvictOldest(s: Store): Store
    decreases |s.order|
  {
    if s.order == [] then s
    else if s.order[0] in s.entries then Store(s.entries - {s.order[0]}, s.order[1..])
    else EvictOldest(Store(s.entries, s.order[1..]))
  }

  function Prepare(s: Store, ih: Key, caps: Caps): Store {
    var t := if |s.entries| >= caps.hashes then EvictOldest(s) else s;
    t.(order := t.order + [ih])
  }

  function Add(s: Store, ih: Key, ip: seq<Byte>, port: int, now: int, caps: Caps): Store {
    if ih !in s.entries then
      var t := Prepare(s, ih, caps);
      if 0 >= caps.peers then t else t.(entries := t.entries[ih := [Peer(ip, port, now)]])
    else
      var ps := s.entries[ih];
      var i := IndexOf(ps, ip, port);
      if i < |ps| then s.(entries := s.entries[ih := ps[i := ps[i].(seenAt := now)]])
      else if |ps| >= caps.peers then s
      else s.(entries := s.entries[ih := ps + [Peer(ip, port, now)]])
  }

  function Remove(order: seq<Key>, ih: Key): seq<Key> {
    if order == [] then []
    else if order[|order| - 1] == ih then Remove(order[..|order| - 1], ih)
    else Remove(order[..|order| - 1], ih) + [order[|order| - 1]]
  }

  /** What `Get` returns, and the store it leaves: an infohash without live peers is forgotten. */
  function Get(s: Store, ih: Key, now: int, caps: Caps): (Store, seq<Peer>) {
    if ih !in s.entries then (s, [])
    else
      var live := Live(s.entries[ih], now, caps.ttl);
      if live == [] then (Store(s.entries - {ih}, Remove(s.order, ih)), [])
      else (s.(entries := s.entries[ih := live]), live)
  }

  /** The time at which a walk over the store is at each infohash. */
  type Clock = Key -> int

  predicate HasLive(s: Store, ih: Key, clock: Clock, caps: Caps) {
    ih in s.entries && Live(s.entries[ih], clock(ih), caps.ttl) != []
  }

  function KeepLive(s: Store, order: seq<Key>, clock: Clock, caps: Caps): seq<Key> {
    if order == [] then []
    else KeepLive(s, order[..|order| - 1], clock, caps)
         + if HasLive(s, order[|order| - 1], clock, caps) then [order[|order| - 1]] else []
  }

  function Prune(s: Store, clock: Clock, caps: Caps): Store {
    Store(map ih | ih in s.entries && HasLive(s, ih, clock, caps) :: Live(s.entries[ih], clock(ih), caps.ttl),
          KeepLive(s, s.order, clock, caps))
  }

  // ----- the invariant

  predicate Clash(p: Peer, q: Peer) {
    SamePeer(p, q.ip, q.port)
  }

  /** No (address, port) pair occurs twice. */
  predicate DistinctPeers(ps: seq<Peer>) {
    forall i, j :: 0 <= i < j < |ps| ==> !Clash(ps[i], ps[j])
  }

  predicate ListOk(ps: seq<Peer>, caps: Caps) {
    ps != [] && |ps| <= caps.peers && DistinctPeers(ps)
  }

  /** One infohash is kept even when the cap is not positive. */
  function Capacity(caps: Caps): int {
    if caps.hashes >= 1 then caps.hashes else 1
  }

  /** Entries and order agree, the order has no duplicates, and every list keeps to its cap. */
  predicate Agree(s: Store, caps: Caps) {
    && Distinct(s.order)
    && (forall ih :: ih in s.entries ==> ih in s.order)
    && (forall ih :: ih in s.order ==> ih in s.entries)
    && |s.entries| <= Capacity(caps)
    && (forall ih :: ih in s.entries ==> ListOk(s.entries[ih], caps))
  }

  /** ... and the cap on infohashes holds as configured. */
  predicate Inv(s: Store, caps: Caps) {
    Agree(s, caps) && |s.entries| <= caps.hashes
  }

  lemma IpEqualSymmetric(a: seq<Byte>, b: seq<Byte>)
    ensures IpEqual(a, b) == IpEqual(b, a)
  {
  }

  /** Which of two peers comes first does not matter: no two of a list are the same, either way round. */
  lemma ClashEitherWay(ps: seq<Peer>, i: nat, j: nat)
    requires DistinctPeers(ps) && i < |ps| && j < |ps| && i != j
    ensures !Clash(ps[i], ps[j])
  {
    hide IpEqual;
    IpEqualSymmetric(ps[i].ip, ps[j].ip);
    if i < j {
      assert !Clash(ps[i], ps[j]);
    } else {
      assert !Clash(ps[j], ps[i]);
    }
  }

  lemma AppendPeer(ps: seq<Peer>, p: Peer, caps: Caps)
    requires ListOk(ps, caps) && |ps| < caps.peers && IndexOf(ps, p.ip, p.port) == |ps|
    ensures ListOk(ps + [p], caps)
  {
  }

  lemma {:induction false} LiveKeeps(ps: seq<Peer>, now: int, ttl: int)
    ensures |Live(ps, now, ttl)| <= |ps|
    ensures forall p :: p in Live(ps, now, ttl) <==> p in ps && p.seenAt > now - ttl
    ensures |Live(ps, now, ttl)| == |ps| ==> Live(ps, now, ttl) == ps
  {
    if ps != [] {
      LiveKeeps(ps[..|ps| - 1], now, ttl);
      assert ps == ps[..|ps| - 1] + [ps[|ps| - 1]];
    }
  }

  /** ... in the order in which they were. */
  lemma {:induction false} LiveInOrder(ps: seq<Peer>, now: int, ttl: int)
    ensures Subsequence(Live(ps, now, ttl), ps)
  {
    if ps != [] {
      var init, last := ps[..|ps| - 1], ps[|ps| - 1];
      LiveInOrder(init, now, ttl);
      LiveKeeps(init, now, ttl);
      assert Live(init, now, ttl) + [] == Live(init, now, ttl);
    }
  }

  lemma {:induction false} LiveDistinct(ps: seq<Peer>, now: int, ttl: int)
    requires DistinctPeers(ps)
    ensures DistinctPeers(Live(ps, now, ttl))
  {
    if ps != [] {
      var init, last := ps[..|ps| - 1], ps[|ps| - 1];
      assert ps == init + [last];
      LiveDistinct(init, now, ttl);
      ForEachLive(init, last, now, ttl);
      AppendDistinct(Live(init, now, ttl), last);
    }
  }

  lemma ForEachLive(init: seq<Peer>, last: Peer, now: int, ttl: int)
    requires DistinctPeers(init + [last])
    ensures forall p :: p in Live(init, now, ttl) ==> !Clash(p, last)
  {
    hide Live, Clash;
    LiveKeeps(init, now, ttl);
    forall p | p in Live(init, now, ttl)
      ensures !Clash(p, last)
    {
      assert p in init;
      var j :| 0 <= j < |init| && init[j] == p;
      assert (init + [last])[j] == p && (init + [last])[|init|] == last;
    }
  }

  lemma AppendDistinct(ps: seq<Peer>, p: Peer)
    requires DistinctPeers(ps) && forall q :: q in ps ==> !Clash(q, p)
    ensures DistinctPeers(ps + [p])
  {
  }

  lemma LiveListOk(ps: seq<Peer>, now: int, caps: Caps)
    requires ListOk(ps, caps) && Live(ps, now, caps.ttl) != []
    ensures ListOk(Live(ps, now, caps.ttl), caps)
  {
    LiveKeeps(ps, now, caps.ttl);
    LiveDistinct(ps, now, caps.ttl);
  }

  lemma {:induction false} RemoveKeeps(order: seq<Key>, ih: Key)
    requires Distinct(order)
    ensures Distinct(Remove(order, ih))
    ensures forall k :: k in Remove(order, ih) <==> k in order && k != ih
  {
    if order != [] {
      var init, last := order[..|order| - 1], order[|order| - 1];
      RemoveKeeps(init, ih);
      assert order == init + [last];
      assert forall k :: k in init ==> k != last;
      assert forall i :: 0 <= i < |Remove(init, ih)| ==> Remove(init, ih)[i] in Remove(init, ih);
    }
  }

  lemma {:induction false} KeepLiveKeeps(s: Store, order: seq<Key>, clock: Clock, caps: Caps)
    requires Distinct(order)
    ensures Distinct(KeepLive(s, order, clock, caps))
    ensures forall k :: k in KeepLive(s, order, clock, caps) <==> k in order && HasLive(s, k, clock, caps)
  {
    if order != [] {
      KeepLiveKeeps(s, order[..|order| - 1], clock, caps);
      assert order == order[..|order| - 1] + [order[|order| - 1]];
    }
  }

  lemma SubmapSize<K, V, W>(a: map<K, V>, b: map<K, W>)
    requires a.Keys <= b.Keys
    ensures |a| <= |b|
  {
    assert b.Keys == a.Keys + (b.Keys - a.Keys);
    assert |a| == |a.Keys| && |b| == |b.Keys|;
  }

  /** Making room for a new infohash: at capacity exactly the one stored longest goes. */
  lemma PrepareEvicts(s: Store, ih: Key, caps: Caps)
    requires Agree(s, caps) && ih !in s.entries
    ensures |s.entries| < Capacity(caps) ==> Prepare(s, ih, caps) == Store(s.entries, s.order + [ih])
    ensures |s.entries| >= Capacity(caps) ==>
              s.order != [] && Prepare(s, ih, caps) == Store(s.entries - {s.order[0]}, s.order[1..] + [ih])
  {
    if |s.entries| >= Capacity(caps) {
      var k :| k in s.entries;
      assert k in s.order;
    } else if s.order != [] {
      assert s.order[0] in s.order;
    }
  }

  lemma AddKeepsAgree(s: Store, ih: Key, ip: seq<Byte>, port: int, now: int, caps: Caps)
    requires Agree(s, caps) && caps.peers >= 1
    ensures Agree(Add(s, ih, ip, port, now, caps), caps)
  {
    if ih !in s.entries {
      AddNewKeepsAgree(s, ih, ip, port, now, caps);
    } else {
      var ps := s.entries[ih];
      var i := IndexOf(ps, ip, port);
      if i == |ps| && |ps| < caps.peers {
        AppendPeer(ps, Peer(ip, port, now), caps);
      }
    }
  }

  lemma AddKeepsInv(s: Store, ih: Key, ip: seq<Byte>, port: int, now: int, caps: Caps)
    requires Inv(s, caps) && caps.hashes >= 1 && caps.peers >= 1
    ensures Inv(Add(s, ih, ip, port, now, caps), caps)
  {
    AddKeepsAgree(s, ih, ip, port, now, caps);
    hide Add, Distinct, ListOk;
  }

  lemma AddNewKeepsAgree(s: Store, ih: Key, ip: seq<Byte>, port: int, now: int, caps: Caps)
    requires Agree(s, caps) && caps.peers >= 1 && ih !in s.entries
    ensures Agree(Add(s, ih, ip, port, now, caps), caps)
  {
    hide Prepare, ListOk;
    PrepareEvicts(s, ih, caps);
    FreshListOk(ip, port, now, caps);
    if |s.entries| >= Capacity(caps) {
      StoreAfterEvict(s, ih, [Peer(ip, port, now)], caps);
    } else {
      StoreWithRoom(s, ih, [Peer(ip, port, now)], caps);
    }
  }

  lemma StoreAfterEvict(s: Store, ih: Key, ps: seq<Peer>, caps: Caps)
    requires Agree(s, caps) && ih !in s.entries && ListOk(ps, caps) && s.order != []
    ensures Agree(Store((s.entries - {s.order[0]})[ih := ps], s.order[1..] + [ih]), caps)
  {
    EvictKeepsAgree(s, caps);
    StoreWithRoom(Store(s.entries - {s.order[0]}, s.order[1..]), ih, ps, caps);
  }

  lemma EvictKeepsAgree(s: Store, caps: Caps)
    requires Agree(s, caps) && s.order != []
    ensures Agree(Store(s.entries - {s.order[0]}, s.order[1..]), caps)
    ensures |s.entries - {s.order[0]}| < Capacity(caps)
  {
    hide ListOk;
    assert s.order[0] in s.order;
    OneLess(s.entries, s.order[0]);
    TailKeys(s.order);
  }

  lemma TailKeys(order: seq<Key>)
    requires Distinct(order) && order != []
    ensures Distinct(order[1..])
    ensures forall k :: k in order[1..] <==> k in order && k != order[0]
  {
    forall k | k in order && k != order[0]
      ensures k in order[1..]
    {
      var i :| 0 <= i < |order| && order[i] == k;
      assert order[1..][i - 1] == k;
    }
  }

  lemma StoreWithRoom(s: Store, ih: Key, ps: seq<Peer>, caps: Caps)
    requires Agree(s, caps) && ih !in s.entries && ListOk(ps, caps) && |s.entries| < Capacity(caps)
    ensures Agree(Store(s.entries[ih := ps], s.order + [ih]), caps)
  {
    hide ListOk;
    OneMore(s.entries, ih, ps);
  }

  lemma FreshListOk(ip: seq<Byte>, port: int, now: int, caps: Caps)
    requires caps.peers >= 1
    ensures ListOk([Peer(ip, port, now)], caps)
  {
  }

  lemma OneLess<V>(m: map<Key, V>, k: Key)
    requires k in m
    ensures |m - {k}| == |m| - 1
  {
    assert (m - {k}).Keys == m.Keys - {k};
    assert |m| == |m.Keys| && |m - {k}| == |(m - {k}).Keys|;
  }

  lemma OneMore<V>(m: map<Key, V>, k: Key, v: V)
    requires k !in m
    ensures |m[k := v]| == |m| + 1
  {
    assert m[k := v].Keys == m.Keys + {k};
    assert |m| == |m.Keys| && |m[k := v]| == |m[k := v].Keys|;
  }

  lemma GetKeepsAgree(s: Store, ih: Key, now: int, caps: Caps)
    requires Agree(s, caps)
    ensures Agree(Get(s, ih, now, caps).0, caps)
    ensures |Get(s, ih, now, caps).0.entries| <= |s.entries|
  {
    if ih in s.entries {
      RemoveKeeps(s.order, ih);
      SubmapSize(Get(s, ih, now, caps).0.entries, s.entries);
      if Live(s.entries[ih], now, caps.ttl) != [] {
        LiveListOk(s.entries[ih], now, caps);
      }
    }
  }

  lemma GetKeepsInv(s: Store, ih: Key, now: int, caps: Caps)
    requires Inv(s, caps)
    ensures Inv(Get(s, ih, now, caps).0, caps)
  {
    GetKeepsAgree(s, ih, now, caps);
  }

  lemma PruneKeepsAgree(s: Store, clock: Clock, caps: Caps)
    requires Agree(s, caps)
    ensures Agree(Prune(s, clock, caps), caps)
    ensures |Prune(s, clock, caps).entries| <= |s.entries|
  {
    KeepLiveKeeps(s, s.order, clock, caps);
    SubmapSize(Prune(s, clock, caps).entries, s.entries);
    forall ih | ih in Prune(s, clock, caps).entries
      ensures ListOk(Prune(s, clock, caps).entries[ih], caps)
    {
      LiveListOk(s.entries[ih], clock(ih), caps);
    }
  }

  lemma PruneKeepsInv(s: Store, clock: Clock, caps: Caps)
    requires Inv(s, caps)
    ensures Inv(Prune(s, clock, caps), caps)
  {
    PruneKeepsAgree(s, clock, caps);
  }

  // ----- what an operation does to the lists

  lemma IpEqualTransitive(a: seq<Byte>, b: seq<Byte>, c: seq<Byte>)
    requires IpEqual(a, b) && IpEqual(b, c)
    ensures IpEqual(a, c)
  {
    if |a| == 16 && |b| == 4 && |c| == 16 {
      assert a == a[..12] + a[12..] && c == c[..12] + c[12..];
    }
  }

  /** At most one peer of a list is the one announced. */
  lemma OneMatch(ps: seq<Peer>, i: nat, j: nat, ip: seq<Byte>, port: int)
    requires DistinctPeers(ps) && i < |ps| && j < |ps|
    requires SamePeer(ps[i], ip, port) && SamePeer(ps[j], ip, port)
    ensures i == j
  {
    hide IpEqual;
    if i != j {
      IpEqualSymmetric(ip, ps[j].ip);
      IpEqualTransitive(ps[i].ip, ip, ps[j].ip);
      ClashEitherWay(ps, i, j);
    }
  }

  /** `qs` is `ps` with the time of the announced peer set to `now` where it is listed, and perhaps one more at the end. */
  ghost predicate Announced(ps: seq<Peer>, qs: seq<Peer>, ip: seq<Byte>, port: int, now: int, cap: int) {
    && (forall j :: 0 <= j < |ps| ==>
          && j < |qs| && qs[j].ip == ps[j].ip && qs[j].port == ps[j].port
          && qs[j].seenAt == if SamePeer(ps[j], ip, port) then now else ps[j].seenAt)
    && if |ps| < cap && forall j :: 0 <= j < |ps| ==> !SamePeer(ps[j], ip, port) then
         |qs| == |ps| + 1 && qs[|ps|] == Peer(ip, port, now)
       else
         |qs| == |ps|
  }

  lemma KnownAnnounce(ps: seq<Peer>, ip: seq<Byte>, port: int, now: int, cap: int)
    requires DistinctPeers(ps)
    ensures var i := IndexOf(ps, ip, port);
      Announced(ps, if i < |ps| then ps[i := ps[i].(seenAt := now)]
                    else if |ps| >= cap then ps else ps + [Peer(ip, port, now)], ip, port, now, cap)
  {
    hide SamePeer, DistinctPeers;
    var i := IndexOf(ps, ip, port);
    if i < |ps| {
      forall j | 0 <= j < |ps| && SamePeer(ps[j], ip, port)
        ensures j == i
      {
        OneMatch(ps, i, j, ip, port);
      }
    }
  }

  /** An announce changes the list of its own infohash alone; a new infohash may cost another its place. */
  lemma AnnounceEffect(s: Store, ih: Key, ip: seq<Byte>, port: int, now: int, caps: Caps)
    requires Agree(s, caps) && caps.peers >= 1
    ensures var t := Add(s, ih, ip, port, now, caps);
      && ih in t.entries
      && (forall k :: k in t.entries && k != ih ==> k in s.entries && t.entries[k] == s.entries[k])
      && Announced(if ih in s.entries then s.entries[ih] else [], t.entries[ih], ip, port, now, caps.peers)
      && (ih in s.entries ==> t.entries.Keys == s.entries.Keys && t.order == s.order)
  {
    if ih in s.entries {
      KnownAnnounce(s.entries[ih], ip, port, now, caps.peers);
      hide Announced, IndexOf, Prepare, Agree;
    } else {
      NewEntry(s, ih, ip, port, now, caps);
      NewAnnounce(ip, port, now, caps.peers);
      hide Add, Announced, Agree;
    }
  }

  lemma NewEntry(s: Store, ih: Key, ip: seq<Byte>, port: int, now: int, caps: Caps)
    requires Agree(s, caps) && caps.peers >= 1 && ih !in s.entries
    ensures var t := Add(s, ih, ip, port, now, caps);
      && ih in t.entries && t.entries[ih] == [Peer(ip, port, now)]
      && (forall k :: k in t.entries && k != ih ==> k in s.entries && t.entries[k] == s.entries[k])
  {
    PrepareEvicts(s, ih, caps);
    hide Prepare, Agree, IndexOf;
  }

  lemma NewAnnounce(ip: seq<Byte>, port: int, now: int, cap: int)
    requires cap >= 1
    ensures Announced([], [Peer(ip, port, now)], ip, port, now, cap)
  {
  }

  /** `qs` are the peers of `ps` seen after the cutoff, in their order. */
  ghost predicate LivePart(ps: seq<Peer>, qs: seq<Peer>, cutoff: int) {
    Subsequence(qs, ps) && forall p :: p in qs <==> p in ps && p.seenAt > cutoff
  }

  lemma LiveIsPart(ps: seq<Peer>, now: int, ttl: int)
    ensures LivePart(ps, Live(ps, now, ttl), now - ttl)
    ensures Live(ps, now, ttl) == [] <==> forall p :: p in ps ==> p.seenAt <= now - ttl
  {
    LiveKeeps(ps, now, ttl);
    LiveInOrder(ps, now, ttl);
    var live := Live(ps, now, ttl);
    assert live != [] ==> live[0] in live;
    hide Live, Subsequence;
  }

  /** Reading returns the live peers and keeps exactly those; an infohash without any is forgotten, others stay as they are. */
  lemma GetEffect(s: Store, ih: Key, now: int, caps: Caps)
    ensures var (t, ps) := Get(s, ih, now, caps);
      && LivePart(if ih in s.entries then s.entries[ih] else [], ps, now - caps.ttl)
      && t.entries.Keys == (if ps == [] then s.entries.Keys - {ih} else s.entries.Keys)
      && (ps != [] ==> t.entries[ih] == ps && t.order == s.order)
      && (forall k :: k in t.entries && k != ih ==> t.entries[k] == s.entries[k])
  {
    if ih in s.entries {
      LiveIsPart(s.entries[ih], now, caps.ttl);
    }
    hide Live, Subsequence, Remove;
  }

  /** Pruning keeps exactly the infohashes with live peers, each with exactly those. */
  lemma PruneEffect(s: Store, clock: Clock, caps: Caps, ih: Key)
    ensures var t := Prune(s, clock, caps);
      && (ih in t.entries <==> ih in s.entries && exists p :: p in s.entries[ih] && p.seenAt > clock(ih) - caps.ttl)
      && (ih in t.entries ==> LivePart(s.entries[ih], t.entries[ih], clock(ih) - caps.ttl))
  {
    if ih in s.entries {
      LiveIsPart(s.entries[ih], clock(ih), caps.ttl);
    }
    hide Live, LivePart, KeepLive;
  }

  // ----- what an announce achieves

  ghost predicate Returned(ps: seq<Peer>, ip: seq<Byte>, port: int) {
    exists p :: p in ps && SamePeer(p, ip, port)
  }

  /**
   While it lives, an announced peer is returned exactly when its infohash was new, it was known already, or
   its list, expired peers included, was not full. So a fresh announce is not always stored.
   */
  lemma AnnouncedIsReturned(s: Store, ih: Key, ip: seq<Byte>, port: int, now: int, later: int, caps: Caps)
    requires Inv(s, caps) && caps.hashes >= 1 && caps.peers >= 1
    requires now > later - caps.ttl
    ensures Returned(Get(Add(s, ih, ip, port, now, caps), ih, later, caps).1, ip, port)
            <==> ih !in s.entries || IndexOf(s.entries[ih], ip, port) < |s.entries[ih]| || |s.entries[ih]| < caps.peers
  {
    hide Live, IndexOf, Inv, Prepare;
    var t := Add(s, ih, ip, port, now, caps);
    if ih in t.entries {
      LiveKeeps(t.entries[ih], later, caps.ttl);
    }
    if ih !in s.entries {
      assert Peer(ip, port, now) in t.entries[ih];
    } else {
      var ps := s.entries[ih];
      var i := IndexOf(ps, ip, port);
      if i < |ps| {
        var p := ps[i].(seenAt := now);
        assert t.entries[ih][i] == p && p in t.entries[ih] && SamePeer(p, ip, port);
        assert p in Live(t.entries[ih], later, caps.ttl);
      } else if |ps| < caps.peers {
        assert t.entries[ih][|ps|] in t.entries[ih];
      }
    }
  }

  // ----- whole runs, with the time each infohash was stored

  datatype Op =
    | DoAdd(ih: Key, ip: seq<Byte>, port: int, now: int)
    | DoGet(ih: Key, now: int)
    | DoPrune(clock: Clock)

  function Apply(s: Store, op: Op, caps: Caps): Store {
    match op
    case DoAdd(ih, ip, port, now) => Add(s, ih, ip, port, now, caps)
    case DoGet(ih, now) => Get(s, ih, now, caps).0
    case DoPrune(clock) => Prune(s, clock, caps)
  }

  function RunFrom(s: Store, ops: seq<Op>, caps: Caps): Store {
    if ops == [] then s else Apply(RunFrom(s, ops[..|ops| - 1], caps), ops[|ops| - 1], caps)
  }

  function Run(ops: seq<Op>, caps: Caps): Store {
    RunFrom(Store(map[], []), ops, caps)
  }

  /** The number of the operation that stored `ih` most recently as a new infohash. */
  function StoredBy(ops: seq<Op>, caps: Caps, ih: Key): nat {
    if ops == [] then 0
    else
      var op := ops[|ops| - 1];
      if op.DoAdd? && op.ih == ih && ih !in Run(ops[..|ops| - 1], caps).entries then |ops|
      else StoredBy(ops[..|ops| - 1], caps, ih)
  }

  /** In every reachable store the three structures agree and both caps hold. */
  lemma {:induction false} RunKeepsInv(ops: seq<Op>, caps: Caps)
    requires caps.hashes >= 1 && caps.peers >= 1
    ensures Inv(Run(ops, caps), caps)
  {
    if ops != [] {
      var s, op := Run(ops[..|ops| - 1], caps), ops[|ops| - 1];
      RunKeepsInv(ops[..|ops| - 1], caps);
      match op
      case DoAdd(ih, ip, port, now) => AddKeepsInv(s, ih, ip, port, now, caps);
      case DoGet(ih, now) => GetKeepsInv(s, ih, now, caps);
      case DoPrune(clock) => PruneKeepsInv(s, clock, caps);
    }
  }

  /**
   Whatever the caps: with room for a peer the structures agree in every reachable store, and without room
   nothing is ever stored.
   */
  lemma {:induction false} RunAgrees(ops: seq<Op>, caps: Caps)
    ensures caps.peers >= 1 ==> Agree(Run(ops, caps), caps)
    ensures caps.peers < 1 ==> Run(ops, caps).entries == map[]
  {
    hide Agree, Add, Get, Prune;
    if ops == [] {
      EmptyAgrees(caps);
    } else {
      RunAgrees(ops[..|ops| - 1], caps);
      var s, op := Run(ops[..|ops| - 1], caps), ops[|ops| - 1];
      if caps.peers >= 1 {
        match op
        case DoAdd(ih, ip, port, now) => AddKeepsAgree(s, ih, ip, port, now, caps);
        case DoGet(ih, now) => GetKeepsAgree(s, ih, now, caps);
        case DoPrune(clock) => PruneKeepsAgree(s, clock, caps);
      } else {
        NothingStored(s, op, caps);
      }
    }
  }

  lemma EmptyAgrees(caps: Caps)
    ensures Agree(Store(map[], []), caps)
  {
  }

  lemma NothingStored(s: Store, op: Op, caps: Caps)
    requires s.entries == map[] && caps.peers < 1
    ensures Apply(s, op, caps).entries == map[]
  {
    NothingToEvict(s);
  }

  lemma {:induction false} NothingToEvict(s: Store)
    requires s.entries == map[]
    ensures EvictOldest(s) == Store(map[], [])
    decreases |s.order|
  {
    if s.order != [] {
      NothingToEvict(Store(s.entries, s.order[1..]));
    }
  }

  // ----- expiry is invisible

  lemma {:induction false} LiveTwice(ps: seq<Peer>, now: int, later: int, ttl: int)
    requires now <= later
    ensures Live(Live(ps, now, ttl), later, ttl) == Live(ps, later, ttl)
  {
    if ps != [] {
      var init, last := ps[..|ps| - 1], ps[|ps| - 1];
      LiveTwice(init, now, later, ttl);
      var kept := Live(init, now, ttl);
      assert (kept + [last])[..|kept|] == kept && kept + [] == kept;
    }
  }

  /** An operation that only reads or prunes, at no time after `later`. */
  ghost predicate OnlyExpires(op: Op, later: int) {
    match op
    case DoAdd(_, _, _, _) => false
    case DoGet(_, now) => now <= later
    case DoPrune(clock) => forall ih :: clock(ih) <= later
  }

  lemma ExpiresOnce(s: Store, op: Op, ih: Key, later: int, caps: Caps)
    requires OnlyExpires(op, later)
    ensures Get(Apply(s, op, caps), ih, later, caps).1 == Get(s, ih, later, caps).1
  {
    match op
    case DoGet(k, now) => GetOnce(s, k, now, ih, later, caps);
    case DoPrune(clock) => PruneOnce(s, clock, ih, later, caps);
  }

  lemma GetOnce(s: Store, k: Key, now: int, ih: Key, later: int, caps: Caps)
    requires now <= later
    ensures Get(Get(s, k, now, caps).0, ih, later, caps).1 == Get(s, ih, later, caps).1
  {
    assert Live([], later, caps.ttl) == [];
    hide Live, Remove;
    if k == ih && ih in s.entries {
      LiveTwice(s.entries[ih], now, later, caps.ttl);
    }
  }

  lemma PruneOnce(s: Store, clock: Clock, ih: Key, later: int, caps: Caps)
    requires clock(ih) <= later
    ensures Get(Prune(s, clock, caps), ih, later, caps).1 == Get(s, ih, later, caps).1
  {
    assert Live([], later, caps.ttl) == [];
    hide Live, KeepLive, Remove;
    if ih in s.entries {
      LiveTwice(s.entries[ih], clock(ih), later, caps.ttl);
    }
  }

  /** With no announce in between and a clock that never goes back, reading and pruning change no later result. */
  lemma {:induction false} ExpiryIsInvisible(s: Store, ops: seq<Op>, ih: Key, later: int, caps: Caps)
    requires forall op :: op in ops ==> OnlyExpires(op, later)
    ensures Get(RunFrom(s, ops, caps), ih, later, caps).1 == Get(s, ih, later, caps).1
  {
    hide Get, OnlyExpires, Apply;
    if ops != [] {
      assert ops[|ops| - 1] in ops;
      ExpiryIsInvisible(s, ops[..|ops| - 1], ih, later, caps);
      ExpiresOnce(RunFrom(s, ops[..|ops| - 1], caps), ops[|ops| - 1], ih, later, caps);
    }
  }

  // ----- a fresh announce that is lost

  /** Announces of as many peers as the cap allows, all at time zero. */
  function Fill(ih: Key, ip: seq<Byte>, n: nat): seq<Op> {
    if n == 0 then [] else Fill(ih, ip, n - 1) + [DoAdd(ih, ip, n - 1, 0)]
  }

  function Filled(ip: seq<Byte>, n: nat): seq<Peer> {
    seq(n, i => Peer(ip, i, 0))
  }

  lemma NotAmongFilled(ip: seq<Byte>, n: nat)
    ensures IndexOf(Filled(ip, n), ip, n) == n
  {
    var ps := Filled(ip, n);
    assert forall i :: 0 <= i < n ==> !SamePeer(ps[i], ip, n);
  }

  lemma {:induction false} FillFills(ih: Key, ip: seq<Byte>, n: nat, caps: Caps)
    requires caps.hashes >= 1 && n <= caps.peers
    ensures var s := Run(Fill(ih, ip, n), caps);
      if n == 0 then s.entries == map[] else ih in s.entries && s.entries[ih] == Filled(ip, n)
  {
    hide IndexOf;
    if n > 0 {
      FillFills(ih, ip, n - 1, caps);
      var before, op := Fill(ih, ip, n - 1), DoAdd(ih, ip, n - 1, 0);
      assert (before + [op])[..|before| + 1 - 1] == before;
      NotAmongFilled(ip, n - 1);
      assert Filled(ip, n) == Filled(ip, n - 1) + [Peer(ip, n - 1, 0)];
    }
  }

  lemma {:induction false} FilledExpires(ip: seq<Byte>, n: nat, now: int, ttl: int)
    requires now >= ttl
    ensures Live(Filled(ip, n), now, ttl) == []
  {
    if n > 0 {
      FilledExpires(ip, n - 1, now, ttl);
      assert Filled(ip, n)[..n - 1] == Filled(ip, n - 1);
    }
  }

  /**
   For every positive caps and time to live there is a run after which a fresh announce is lost at once, although
   no live peer is in its way: the list is full of peers that have all expired.
   */
  lemma FreshAnnounceIsLost(ih: Key, ip: seq<Byte>, caps: Caps)
    requires caps.hashes >= 1 && caps.peers >= 1 && caps.ttl > 0
    ensures var s := Run(Fill(ih, ip, caps.peers), caps); var now := caps.ttl;
      && Get(s, ih, now, caps).1 == []
      && !Returned(Get(Add(s, ih, ip, caps.peers, now, caps), ih, now, caps).1, ip, caps.peers)
  {
    FillFills(ih, ip, caps.peers, caps);
    NotAmongFilled(ip, caps.peers);
    FilledExpires(ip, caps.peers, caps.ttl, caps.ttl);
    hide IndexOf, Live;
  }

  ghost predicate Increasing(order: seq<Key>, age: Key -> int) {
    forall i, j :: 0 <= i < j < |order| ==> age(order[i]) < age(order[j])
  }

  ghost predicate ByAge(order: seq<Key>, ops: seq<Op>, caps: Caps) {
    Increasing(order, (k: Key) => StoredBy(ops, caps, k))
  }

  lemma {:induction false} RemoveIncreasing(order: seq<Key>, ih: Key, age: Key -> int)
    requires Increasing(order, age)
    ensures Increasing(Remove(order, ih), age)
    ensures forall k :: k in Remove(order, ih) ==> k in order
  {
    if order != [] {
      var init, last := order[..|order| - 1], order[|order| - 1];
      RemoveIncreasing(init, ih, age);
      LastIsOldest(Remove(init, ih), init, last, age);
    }
  }

  lemma LastIsOldest(sub: seq<Key>, init: seq<Key>, last: Key, age: Key -> int)
    requires Increasing(init + [last], age) && Increasing(sub, age)
    requires forall k :: k in sub ==> k in init
    ensures Increasing(sub + [last], age)
  {
    forall i | 0 <= i < |sub|
      ensures age(sub[i]) < age(last)
    {
      assert sub[i] in init;
      var p :| 0 <= p < |init| && init[p] == sub[i];
      assert (init + [last])[p] == sub[i] && (init + [last])[|init|] == last;
    }
  }

  lemma {:induction false} KeepLiveIncreasing(s: Store, order: seq<Key>, clock: Clock, caps: Caps, age: Key -> int)
    requires Increasing(order, age)
    ensures Increasing(KeepLive(s, order, clock, caps), age)
    ensures forall k :: k in KeepLive(s, order, clock, caps) ==> k in order
  {
    if order != [] {
      var init, last := order[..|order| - 1], order[|order| - 1];
      assert order == init + [last];
      KeepLiveIncreasing(s, init, clock, caps, age);
      LastIsOldest(KeepLive(s, init, clock, caps), init, last, age);
    }
  }

  lemma {:induction false} StoredByBound(ops: seq<Op>, caps: Caps, ih: Key)
    ensures StoredBy(ops, caps, ih) <= |ops|
  {
    if ops != [] {
      StoredByBound(ops[..|ops| - 1], caps, ih);
    }
  }

  /** The order list is always in order of storing time. */
  lemma {:induction false} OrderIsByAge(ops: seq<Op>, caps: Caps)
    requires caps.hashes >= 1 && caps.peers >= 1
    ensures ByAge(Run(ops, caps).order, ops, caps)
  {
    if ops != [] {
      var before, op := ops[..|ops| - 1], ops[|ops| - 1];
      var s := Run(before, caps);
      var age := (k: Key) => StoredBy(before, caps, k);
      OrderIsByAge(before, caps);
      RunKeepsInv(before, caps);
      match op
      case DoAdd(ih, ip, port, now) =>
        AddByAge(ops, caps);
      case DoGet(ih, now) =>
        RemoveIncreasing(s.order, ih, age);
        SameAge(ops, caps, Get(s, ih, now, caps).0.order);
      case DoPrune(clock) =>
        KeepLiveIncreasing(s, s.order, clock, caps, age);
        SameAge(ops, caps, KeepLive(s, s.order, clock, caps));
    }
  }

  lemma SameAge(ops: seq<Op>, caps: Caps, order: seq<Key>)
    requires ops != [] && !ops[|ops| - 1].DoAdd?
    requires ByAge(order, ops[..|ops| - 1], caps)
    ensures ByAge(order, ops, caps)
  {
    assert forall k :: StoredBy(ops, caps, k) == StoredBy(ops[..|ops| - 1], caps, k);
  }

  lemma AddByAge(ops: seq<Op>, caps: Caps)
    requires caps.hashes >= 1 && caps.peers >= 1
    requires ops != [] && ops[|ops| - 1].DoAdd?
    requires var before := ops[..|ops| - 1];
      Inv(Run(before, caps), caps) && ByAge(Run(before, caps).order, before, caps)
    ensures ByAge(Run(ops, caps).order, ops, caps)
  {
    hide Prepare, IndexOf, ListOk;
    var before, op := ops[..|ops| - 1], ops[|ops| - 1];
    var s, ih := Run(before, caps), op.ih;
    var age := (k: Key) => StoredBy(ops, caps, k);
    assert forall k :: k in s.order ==> age(k) == StoredBy(before, caps, k);
    assert Increasing(s.order, age);
    if ih !in s.entries {
      PrepareEvicts(s, ih, caps);
      var kept := if |s.entries| >= caps.hashes then s.order[1..] else s.order;
      assert Run(ops, caps).order == kept + [ih];
      NewestLast(ops, caps, kept);
    }
  }

  lemma NewestLast(ops: seq<Op>, caps: Caps, kept: seq<Key>)
    requires ops != [] && ops[|ops| - 1].DoAdd?
    requires var before, ih := ops[..|ops| - 1], ops[|ops| - 1].ih;
      ih !in Run(before, caps).entries && ih !in kept && ByAge(kept, before, caps)
    ensures ByAge(kept + [ops[|ops| - 1].ih], ops, caps)
  {
    var before, ih := ops[..|ops| - 1], ops[|ops| - 1].ih;
    forall i | 0 <= i < |kept|
      ensures StoredBy(ops, caps, kept[i]) == StoredBy(before, caps, kept[i]) < StoredBy(ops, caps, ih)
    {
      assert kept[i] in kept;
      StoredByBound(before, caps, kept[i]);
    }
  }

  /**
   In every reachable store, adding a new infohash at capacity evicts exactly one other: the one that
   was stored longest ago.
   */
  lemma EvictsStoredLongest(ops: seq<Op>, caps: Caps, ih: Key, ip: seq<Byte>, port: int, now: int)
    requires caps.hashes >= 1 && caps.peers >= 1
    requires ih !in Run(ops, caps).entries && |Run(ops, caps).entries| == caps.hashes
    ensures var s := Run(ops, caps);
      && s.order != []
      && Add(s, ih, ip, port, now, caps).entries == (s.entries - {s.order[0]})[ih := [Peer(ip, port, now)]]
      && s.order[0] in s.entries
      && forall k :: k in s.entries && k != s.order[0] ==> StoredBy(ops, caps, s.order[0]) < StoredBy(ops, caps, k)
  {
    var s := Run(ops, caps);
    RunKeepsInv(ops, caps);
    OrderIsByAge(ops, caps);
    PrepareEvicts(s, ih, caps);
    forall k | k in s.entries && k != s.order[0]
      ensures StoredBy(ops, caps, s.order[0]) < StoredBy(ops, caps, k)
    {
      assert k in s.order;
      var i :| 0 <= i < |s.order| && s.order[i] == k;
    }
  }

  ghost predicate AlwaysOk(caps: Caps) {
    forall ops: seq<Op> :: Inv(Run(ops, caps), caps)
  }

  /** The invariant holds over every run exactly when both caps are at least one. */
  lemma CapsMustBePositive(caps: Caps, ih: Key, ip: seq<Byte>)
    ensures AlwaysOk(caps) <==> caps.hashes >= 1 && caps.peers >= 1
  {
    if caps.hashes >= 1 && caps.peers >= 1 {
      forall ops: seq<Op>
        ensures Inv(Run(ops, caps), caps)
      {
        RunKeepsInv(ops, caps);
      }
    } else {
      FirstAddBreaks(caps, ih, ip);
    }
  }

  lemma FirstAddBreaks(caps: Caps, ih: Key, ip: seq<Byte>)
    requires caps.hashes < 1 || caps.peers < 1
    ensures !Inv(Run([DoAdd(ih, ip, 0, 0)], caps), caps)
  {
    var op := DoAdd(ih, ip, 0, 0);
    assert [op][..|[op]| - 1] == [];
    assert Run([], caps) == Store(map[], []);
    var s := Run([op], caps);
    assert s == Add(Store(map[], []), ih, ip, 0, 0, caps);
    assert s.order == [ih];
    assert s.order[0] in s.order;
    if caps.peers >= 1 {
      OneMore(map[], ih, [Peer(ip, 0, 0)]);
    }
  }
}
