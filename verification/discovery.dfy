/**
 The iterative get_peers lookup of `dht/crawler/discovery.go`. The network is an arbitrary function
 from the round and the nodes asked to the responses received, so the properties hold whatever
 anyone answers.
 */
module Discovery {

  import opened Common
  import opened NodeIds
  import opened Buckets
  import opened Compact
  import opened Bep42
  import opened Nearest

  /** The reply dictionary of a response: compact peers and compact nodes, still encoded. */
  datatype Reply = NoReply | Reply(values: seq<seq<Byte>>, nodes: seq<Byte>)

  datatype Ending = MaxIterations | EmptyShortlist | AllQueried

  type Network = (nat, seq<Node>) -> seq<Reply>

  type NodeMap = map<NodeId, Node>

  /** Every entry is stored under its own identifier. */
  predicate Keyed(nodes: NodeMap) {
    forall k :: k in nodes ==> nodes[k].id == k
  }

  function Ids(ns: seq<Node>): seq<NodeId> {
    seq(|ns|, i requires 0 <= i < |ns| => ns[i].id)
  }

  lemma IdsAppend(ns: seq<Node>, n: Node)
    ensures Ids(ns + [n]) == Ids(ns) + [n.id]
    ensures Elements(Ids(ns + [n])) == Elements(Ids(ns)) + {n.id}
  {
    assert Ids(ns + [n]) == Ids(ns) + [n.id];
  }

  // ----- the shortlist

  /** `sortByDistance`: the map's nodes, nearest first. */
  method SortByDistance(nodes: NodeMap, target: NodeId) returns (entries: seq<Node>)
    requires Keyed(nodes)
    ensures Ascending(target, Ids(entries))
    ensures Elements(Ids(entries)) == nodes.Keys
    ensures forall n :: n in entries ==> n.id in nodes && nodes[n.id] == n
  {
    var unsorted: seq<Node> := [];
    var left := nodes.Keys;
    while left != {}
      invariant left <= nodes.Keys
      invariant Elements(Ids(unsorted)) == nodes.Keys - left
      invariant forall i, j :: 0 <= i < j < |unsorted| ==> unsorted[i].id != unsorted[j].id
      invariant forall n :: n in unsorted ==> n.id in nodes && nodes[n.id] == n
      decreases left
    {
      var k :| k in left;
      IdsAppend(unsorted, nodes[k]);
      forall i | 0 <= i < |unsorted|
        ensures unsorted[i].id != k
      {
        assert Ids(unsorted)[i] in Elements(Ids(unsorted));
      }
      unsorted := unsorted + [nodes[k]];
      left := left - {k};
    }
    entries := SortBy(unsorted, (n: Node) => Dist(target, n.id));
    SortedIds(unsorted, entries, target);
  }

  lemma SortedIds(unsorted: seq<Node>, sorted: seq<Node>, target: NodeId)
    requires multiset(sorted) == multiset(unsorted)
    requires SortedBy(sorted, (n: Node) => Dist(target, n.id))
    requires forall i, j :: 0 <= i < j < |unsorted| ==> unsorted[i].id != unsorted[j].id
    ensures Ascending(target, Ids(sorted))
    ensures Elements(Ids(sorted)) == Elements(Ids(unsorted))
    ensures forall n :: n in sorted <==> n in unsorted
  {
    MultisetElements(unsorted, sorted);
    DistinctPermutation(unsorted, sorted);
    forall i, j | 0 <= i < j < |sorted|
      ensures Dist(target, sorted[i].id) < Dist(target, sorted[j].id)
    {
      assert sorted[i] in unsorted && sorted[j] in unsorted;
      var p :| 0 <= p < |unsorted| && unsorted[p] == sorted[i];
      var q :| 0 <= q < |unsorted| && unsorted[q] == sorted[j];
      if Dist(target, sorted[i].id) == Dist(target, sorted[j].id) {
        DistInjective(target, sorted[i].id, sorted[j].id);
      }
    }
    SameElements(unsorted, sorted);
  }

  lemma SameElements(ns: seq<Node>, ms: seq<Node>)
    requires forall n :: n in ns <==> n in ms
    ensures Elements(Ids(ns)) == Elements(Ids(ms))
  {
    forall x
      ensures x in Elements(Ids(ns)) <==> x in Elements(Ids(ms))
    {
      IdsMember(ns, x);
      IdsMember(ms, x);
    }
  }

  lemma IdsMember(ns: seq<Node>, x: NodeId)
    ensures x in Elements(Ids(ns)) <==> exists n :: n in ns && n.id == x
  {
    if x in Elements(Ids(ns)) {
      var i :| 0 <= i < |ns| && Ids(ns)[i] == x;
      assert ns[i] in ns;
    }
    if n :| n in ns && n.id == x {
      var i :| 0 <= i < |ns| && ns[i] == n;
      assert Ids(ns)[i] == x;
    }
  }

  /** `trimToKClosest`: the nearest `w` nodes, each with its record. */
  method TrimToKClosest(nodes: NodeMap, target: NodeId, w: nat) returns (result: NodeMap)
    requires Keyed(nodes)
    ensures Keyed(result) && (forall k :: k in result ==> k in nodes && result[k] == nodes[k])
    ensures IsNearest(target, nodes.Keys, result.Keys, w)
  {
    if |nodes| <= w {
      assert |nodes.Keys| == |nodes|;
      return nodes;
    }
    var sorted := SortByDistance(nodes, target);
    AscendingSize(target, Ids(sorted));
    assert |nodes.Keys| == |nodes|;
    result := FirstNodes(sorted, w, nodes);
    PrefixIsNearest(target, Ids(sorted), w);
  }

  method FirstNodes(sorted: seq<Node>, w: nat, ghost nodes: NodeMap) returns (result: NodeMap)
    requires w <= |sorted| && forall n :: n in sorted ==> n.id in nodes && nodes[n.id] == n
    ensures Keyed(result) && (forall k :: k in result ==> k in nodes && result[k] == nodes[k])
    ensures result.Keys == Elements(Ids(sorted)[..w])
  {
    result := map[];
    for i := 0 to w
      invariant Keyed(result) && (forall k :: k in result ==> k in nodes && result[k] == nodes[k])
      invariant result.Keys == Elements(Ids(sorted)[..i])
    {
      assert Ids(sorted)[..i + 1] == Ids(sorted)[..i] + [sorted[i].id];
      assert sorted[i] in sorted;
      result := result[sorted[i].id := sorted[i]];
    }
  }

  /** `mergeNodes`: a fresh map in which new records replace old ones. */
  function Merge(shortlist: NodeMap, added: NodeMap): NodeMap {
    shortlist + added
  }

  // ----- responses

  /** The records of a list of nodes that fit their address; the last of several for one identifier counts. */
  function Accepted(crc: Checksum, nodes: seq<Node>): NodeMap {
    if nodes == [] then map[]
    else
      var rest, n := Accepted(crc, nodes[..|nodes| - 1]), nodes[|nodes| - 1];
      if ValidForIp(crc, n.addr.ip, n.id) then rest[n.id := n] else rest
  }

  function NodesOf(crc: Checksum, r: Reply): NodeMap {
    if r.NoReply? || |r.nodes| % RECORD != 0 then map[] else Accepted(crc, Decoded(r.nodes))
  }

  /** The list of nodes in `r` is well-formed, and its record `i`, read from its bytes, is for `k` and fits its address. */
  ghost predicate Fitting(crc: Checksum, r: Reply, i: nat, k: NodeId) {
    && r.Reply? && |r.nodes| % 26 == 0 && 26 * i + 26 <= |r.nodes|
    && RecordAt(r.nodes, i).id == k && FitsAddress(crc, RecordAt(r.nodes, i))
  }

  ghost predicate NamedBy(crc: Checksum, r: Reply, k: NodeId) {
    exists i: nat :: Fitting(crc, r, i, k)
  }

  /** `n` is the last record for `k` in `r` that fits its address. */
  ghost predicate LastFitting(crc: Checksum, r: Reply, k: NodeId, n: Node) {
    exists i: nat :: Fitting(crc, r, i, k) && n == RecordAt(r.nodes, i) && forall j: nat :: i < j ==> !Fitting(crc, r, j, k)
  }

  /** `n` is the last record for `k` among `nodes` that fits its address. */
  ghost predicate LastIn(crc: Checksum, nodes: seq<Node>, k: NodeId, n: Node) {
    exists i :: 0 <= i < |nodes| && IsFor(crc, nodes[i], k) && n == nodes[i]
                && forall j :: i < j < |nodes| ==> !IsFor(crc, nodes[j], k)
  }

  ghost predicate IsFor(crc: Checksum, n: Node, k: NodeId) {
    n.id == k && FitsAddress(crc, n)
  }

  lemma {:induction false} AcceptedIs(crc: Checksum, nodes: seq<Node>, k: NodeId)
    ensures k in Accepted(crc, nodes) <==> exists i :: 0 <= i < |nodes| && IsFor(crc, nodes[i], k)
    ensures k in Accepted(crc, nodes) ==> LastIn(crc, nodes, k, Accepted(crc, nodes)[k])
  {
    if nodes == [] {
      return;
    }
    AcceptedLast(crc, nodes);
    hide Accepted, FitsAddress, LastIn;
    var init, last := nodes[..|nodes| - 1], nodes[|nodes| - 1];
    AcceptedIs(crc, init, k);
    assert forall i :: 0 <= i < |init| ==> init[i] == nodes[i];
    if IsFor(crc, last, k) {
      NewLastIn(crc, nodes, k);
    } else if k in Accepted(crc, init) {
      StillLastIn(crc, nodes, k, Accepted(crc, init)[k]);
    }
  }

  lemma AcceptedLast(crc: Checksum, nodes: seq<Node>)
    requires nodes != []
    ensures var rest, n := Accepted(crc, nodes[..|nodes| - 1]), nodes[|nodes| - 1];
      Accepted(crc, nodes) == if FitsAddress(crc, n) then rest[n.id := n] else rest
  {
    hide ValidForIp;
  }

  lemma NewLastIn(crc: Checksum, nodes: seq<Node>, k: NodeId)
    requires nodes != [] && IsFor(crc, nodes[|nodes| - 1], k)
    ensures LastIn(crc, nodes, k, nodes[|nodes| - 1])
  {
    hide FitsAddress;
  }

  lemma StillLastIn(crc: Checksum, nodes: seq<Node>, k: NodeId, n: Node)
    requires nodes != [] && !IsFor(crc, nodes[|nodes| - 1], k) && LastIn(crc, nodes[..|nodes| - 1], k, n)
    ensures LastIn(crc, nodes, k, n)
  {
    hide IsFor;
    var init := nodes[..|nodes| - 1];
    var i :| 0 <= i < |init| && IsFor(crc, init[i], k) && n == init[i]
             && forall j :: i < j < |init| ==> !IsFor(crc, init[j], k);
    assert forall j :: 0 <= j < |init| ==> init[j] == nodes[j];
    assert IsFor(crc, nodes[i], k);
  }

  /** What a reply yields, read off its bytes: every fitting record's identifier, each with its last fitting record. */
  lemma NodesOfIs(crc: Checksum, r: Reply, k: NodeId)
    ensures k in NodesOf(crc, r) <==> NamedBy(crc, r, k)
    ensures k in NodesOf(crc, r) ==> LastFitting(crc, r, k, NodesOf(crc, r)[k])
  {
    hide Accepted, Decoded, ValidForIp, FitsAddress;
    if r.Reply? && |r.nodes| % RECORD == 0 {
      var nodes := Decoded(r.nodes);
      forall i: nat
        ensures Fitting(crc, r, i, k) <==> i < |nodes| && IsFor(crc, nodes[i], k)
      {
        if RECORD * i < |r.nodes| {
          DecodedAt(r.nodes, i);
        } else {
          NoSuchRecord(r.nodes, i);
        }
      }
      AcceptedIs(crc, nodes, k);
      if k in Accepted(crc, nodes) {
        var n := Accepted(crc, nodes)[k];
        var i :| 0 <= i < |nodes| && IsFor(crc, nodes[i], k) && n == nodes[i]
                 && forall j :: i < j < |nodes| ==> !IsFor(crc, nodes[j], k);
        DecodedAt(r.nodes, i);
        assert Fitting(crc, r, i, k);
      }
    }
  }

  lemma NoSuchRecord(s: seq<Byte>, i: nat)
    requires |s| % RECORD == 0 && RECORD * i >= |s|
    ensures i >= |Decoded(s)|
  {
    hide Decoded;
    assert |s| == RECORD * (|s| / RECORD);
  }

  /**
   `extractNodes`: decode and check; a malformed list yields nothing. Otherwise exactly the identifiers of the
   records that fit their address are in the result, each with the last such record.
   */
  method ExtractNodes(crc: Checksum, r: Reply) returns (result: NodeMap)
    requires r.Reply?
    ensures result == NodesOf(crc, r)
    ensures forall k :: k in result <==> NamedBy(crc, r, k)
    ensures forall k :: k in result ==> LastFitting(crc, r, k, result[k])
  {
    forall k
      ensures k in NodesOf(crc, r) <==> NamedBy(crc, r, k)
      ensures k in NodesOf(crc, r) ==> LastFitting(crc, r, k, NodesOf(crc, r)[k])
    {
      NodesOfIs(crc, r, k);
    }
    hide Decoded, ValidForIp, Accepted, LastFitting, NamedBy;
    result := map[];
    NoneAccepted(crc, r);
    if |r.nodes| == 0 {
      return;
    }
    var decoded := DecodeNodes(r.nodes);
    if decoded.Err? {
      return;
    }
    var nodes := decoded.value;
    assert nodes[..0] == [];
    for i := 0 to |nodes|
      invariant result == Accepted(crc, nodes[..i])
    {
      AcceptNext(crc, nodes, i);
      if ValidForIp(crc, nodes[i].addr.ip, nodes[i].id) {
        result := result[nodes[i].id := nodes[i]];
      }
    }
    assert nodes[..|nodes|] == nodes;
  }

  lemma NoneAccepted(crc: Checksum, r: Reply)
    requires r.Reply?
    ensures |r.nodes| == 0 ==> NodesOf(crc, r) == map[]
    ensures Accepted(crc, []) == map[]
  {
  }

  lemma AcceptNext(crc: Checksum, nodes: seq<Node>, i: nat)
    requires i < |nodes|
    ensures Accepted(crc, nodes[..i + 1]) ==
            if ValidForIp(crc, nodes[i].addr.ip, nodes[i].id) then Accepted(crc, nodes[..i])[nodes[i].id := nodes[i]]
            else Accepted(crc, nodes[..i])
  {
    hide ValidForIp;
    assert nodes[..i + 1][..i] == nodes[..i];
  }

  /** `extractPeers`: one malformed record and there are none; otherwise address and port of each, high byte first. */
  method ExtractPeers(r: Reply) returns (peers: seq<Addr>)
    requires r.Reply?
    ensures peers == PeersOf(r) && PeersAre(r, peers)
  {
    PeersOfAre(r);
    hide PeersAre;
    var decoded := DecodePeers(r.values);
    if decoded.Err? {
      return [];
    }
    assert decoded.value == PeersOf(r);
    return decoded.value;
  }

  /** The peers of a reply: none when any record has the wrong length. */
  function PeersOf(r: Reply): seq<Addr> {
    if r.Reply? && forall v :: v in r.values ==> |v| == 6
    then seq(|r.values|, i requires 0 <= i < |r.values| => PeerAddr(r.values[i]))
    else []
  }

  /** What the bytes of a reply say about its peers. */
  ghost predicate PeersAre(r: Reply, peers: seq<Addr>) {
    if r.NoReply? || exists v :: v in r.values && |v| != 6 then peers == []
    else
      && |peers| == |r.values|
      && forall i :: 0 <= i < |peers| ==>
           var v := r.values[i]; peers[i] == Addr([v[0], v[1], v[2], v[3]], 256 * (v[4] as nat) + v[5] as nat)
  }

  lemma PeersOfAre(r: Reply)
    ensures PeersAre(r, PeersOf(r))
  {
    hide GetPort;
    if r.Reply? && forall v :: v in r.values ==> |v| == 6 {
      forall i | 0 <= i < |r.values|
        ensures var v := r.values[i];
          PeersOf(r)[i] == Addr([v[0], v[1], v[2], v[3]], 256 * (v[4] as nat) + v[5] as nat)
      {
        var v := r.values[i];
        PeerBytes([], 0, v);
        assert v[0..4] == [v[0], v[1], v[2], v[3]];
      }
    }
  }

  /** The peers of several replies are those of each, one reply after the other. */
  lemma PeersInOrder(rs: seq<Reply>, r: Reply) returns (more: seq<Addr>)
    ensures AllPeers(rs + [r]) == AllPeers(rs) + more && PeersAre(r, more)
    ensures AllPeers([]) == []
  {
    more := PeersOf(r);
    PeersOfAre(r);
    assert (rs + [r])[..|rs|] == rs;
  }

  function AllNodes(crc: Checksum, rs: seq<Reply>): NodeMap {
    if rs == [] then map[] else Merge(AllNodes(crc, rs[..|rs| - 1]), NodesOf(crc, rs[|rs| - 1]))
  }

  function AllPeers(rs: seq<Reply>): seq<Addr> {
    if rs == [] then [] else AllPeers(rs[..|rs| - 1]) + PeersOf(rs[|rs| - 1])
  }

  lemma NothingIn(crc: Checksum, r: Reply)
    requires r.NoReply?
    ensures PeersOf(r) == [] && NodesOf(crc, r) == map[]
  {
  }

  method ProcessResponses(crc: Checksum, rs: seq<Reply>) returns (peers: seq<Addr>, nodes: NodeMap)
    ensures peers == AllPeers(rs) && nodes == AllNodes(crc, rs)
  {
    hide PeersOf, NodesOf;
    peers, nodes := [], map[];
    for i := 0 to |rs|
      invariant peers == AllPeers(rs[..i]) && nodes == AllNodes(crc, rs[..i])
    {
      assert rs[..i + 1][..i] == rs[..i];
      if rs[i].NoReply? {
        NothingIn(crc, rs[i]);
        assert AllPeers(rs[..i + 1]) == AllPeers(rs[..i]) && AllNodes(crc, rs[..i + 1]) == AllNodes(crc, rs[..i]);
        continue;
      }
      var more := ExtractPeers(rs[i]);
      peers := peers + more;
      var extracted := ExtractNodes(crc, rs[i]);
      nodes := Merge(nodes, extracted);
    }
    assert rs[..|rs|] == rs;
  }

  /** Some reply names `k` in a record that fits its address. */
  ghost predicate Named(crc: Checksum, rs: seq<Reply>, k: NodeId) {
    exists a :: 0 <= a < |rs| && NamedBy(crc, rs[a], k)
  }

  /** `n` is the last fitting record for `k` in the last reply that has one. */
  ghost predicate Newest(crc: Checksum, rs: seq<Reply>, k: NodeId, n: Node) {
    exists a :: 0 <= a < |rs| && NamedBy(crc, rs[a], k) && LastFitting(crc, rs[a], k, n)
                && forall b :: a < b < |rs| ==> !NamedBy(crc, rs[b], k)
  }

  /** Everything named in a fitting record is learned, with its newest one, and nothing else is. */
  lemma {:induction false} NewestWins(crc: Checksum, rs: seq<Reply>, k: NodeId)
    ensures k in AllNodes(crc, rs) <==> Named(crc, rs, k)
    ensures k in AllNodes(crc, rs) ==> Newest(crc, rs, k, AllNodes(crc, rs)[k])
  {
    hide NodesOf, NamedBy, LastFitting;
    if rs != [] {
      var init, last := rs[..|rs| - 1], rs[|rs| - 1];
      NewestWins(crc, init, k);
      NodesOfIs(crc, last, k);
      assert forall a :: 0 <= a < |init| ==> init[a] == rs[a];
      if NamedBy(crc, last, k) {
        assert rs[|rs| - 1] == last;
      } else if k in AllNodes(crc, init) {
        var n := AllNodes(crc, init)[k];
        var a :| 0 <= a < |init| && NamedBy(crc, init[a], k) && LastFitting(crc, init[a], k, n)
                 && forall b :: a < b < |init| ==> !NamedBy(crc, init[b], k);
        assert NamedBy(crc, rs[a], k);
      }
    }
  }

  lemma {:induction false} AcceptedFit(crc: Checksum, nodes: seq<Node>)
    ensures Keyed(Accepted(crc, nodes))
    ensures forall k :: k in Accepted(crc, nodes) ==> FitsAddress(crc, Accepted(crc, nodes)[k])
  {
    if nodes != [] {
      AcceptedFit(crc, nodes[..|nodes| - 1]);
    }
  }

  /** Everything learned is stored under its own identifier and fits its address. */
  lemma {:induction false} LearnedNodesFit(crc: Checksum, rs: seq<Reply>)
    ensures Keyed(AllNodes(crc, rs))
    ensures forall k :: k in AllNodes(crc, rs) ==> FitsAddress(crc, AllNodes(crc, rs)[k])
  {
    if rs != [] {
      LearnedNodesFit(crc, rs[..|rs| - 1]);
      if rs[|rs| - 1].Reply? && |rs[|rs| - 1].nodes| % RECORD == 0 {
        AcceptedFit(crc, Decoded(rs[|rs| - 1].nodes));
      }
    }
  }

  // ----- the lookup

  lemma AppendFarther(target: NodeId, entries: seq<Node>, i: nat, toQuery: seq<Node>)
    requires Ascending(target, Ids(entries)) && i < |entries|
    requires Ascending(target, Ids(toQuery)) && forall n :: n in toQuery ==> n in entries[..i]
    ensures Ascending(target, Ids(toQuery + [entries[i]]))
  {
    forall j | 0 <= j < |toQuery|
      ensures Dist(target, toQuery[j].id) < Dist(target, entries[i].id)
    {
      assert toQuery[j] in entries[..i];
      var p :| 0 <= p < i && entries[p] == toQuery[j];
      assert Ids(entries)[p] == toQuery[j].id && Ids(entries)[i] == entries[i].id;
    }
    IdsAppend(toQuery, entries[i]);
    assert forall j :: 0 <= j < |toQuery| ==> Ids(toQuery)[j] == toQuery[j].id;
  }

  method Unqueried(entries: seq<Node>, queried: set<NodeId>, target: NodeId) returns (toQuery: seq<Node>)
    requires Ascending(target, Ids(entries))
    ensures Ascending(target, Ids(toQuery))
    ensures forall n :: n in toQuery <==> n in entries && n.id !in queried
  {
    toQuery := [];
    for i := 0 to |entries|
      invariant forall n :: n in toQuery <==> n in entries[..i] && n.id !in queried
      invariant Ascending(target, Ids(toQuery))
    {
      assert entries[..i + 1] == entries[..i] + [entries[i]];
      if entries[i].id !in queried {
        AppendFarther(target, entries, i, toQuery);
        toQuery := toQuery + [entries[i]];
      }
    }
    assert entries[..|entries|] == entries;
  }

  /** The nodes about to be asked are distinct, known, and none of them was asked before. */
  lemma DispatchedAreNew(target: NodeId, sent: seq<NodeId>, toQuery: seq<Node>, d: nat, known: set<NodeId>)
    requires d <= |toQuery| && Ascending(target, Ids(toQuery))
    requires Distinct(sent) && forall n :: n in toQuery ==> n.id !in Elements(sent) && n.id in known
    ensures Distinct(sent + Ids(toQuery[..d]))
    ensures Elements(sent + Ids(toQuery[..d])) <= Elements(sent) + known
  {
    var all := sent + Ids(toQuery[..d]);
    forall j | |sent| <= j < |all|
      ensures all[j] == Ids(toQuery)[j - |sent|] && all[j] !in Elements(sent) && all[j] in known
    {
      assert toQuery[j - |sent|] in toQuery;
    }
    forall i, j | 0 <= i < j < |all|
      ensures all[i] != all[j]
    {
      if i < |sent| {
        assert all[i] in Elements(sent);
      }
    }
  }

  lemma NearestIsReflexive(target: NodeId, all: set<NodeId>, w: nat)
    ensures SameNearest(target, all, all, w)
  {
  }

  lemma NearestAreIn(target: NodeId, shortlist: set<NodeId>, learned: set<NodeId>, queried: set<NodeId>, w: nat)
    requires SameNearest(target, shortlist, learned, w) && shortlist <= queried
    ensures forall c: set<NodeId> :: IsNearest(target, learned, c, w) ==> c <= queried
  {
    forall c: set<NodeId> | IsNearest(target, learned, c, w)
      ensures c <= queried
    {
      assert IsNearest(target, shortlist, c, w);
    }
  }

  lemma Budget(alpha: nat, iter: nat, maxIterations: nat)
    requires 1 <= iter <= maxIterations
    ensures alpha * (iter - 1) + alpha == alpha * iter <= alpha * maxIterations
  {
    assert alpha * maxIterations == alpha * iter + alpha * (maxIterations - iter);
  }

  /** Merge what was learned and trim. */
  method Learn(target: NodeId, shortlist: NodeMap, added: NodeMap, w: nat, ghost learned: set<NodeId>)
    returns (next: NodeMap)
    requires Keyed(shortlist) && Keyed(added) && shortlist.Keys <= learned && added != map[]
    requires SameNearest(target, shortlist.Keys, learned, w)
    ensures Keyed(next) && next.Keys <= learned + added.Keys
    ensures SameNearest(target, next.Keys, learned + added.Keys, w)
    ensures forall k :: k in next ==>
              if k in added then next[k] == added[k] else k in shortlist && next[k] == shortlist[k]
    ensures next == map[] ==> w == 0
  {
    var merged := Merge(shortlist, added);
    SameNearestGrows(target, shortlist.Keys, learned, added.Keys, w);
    next := TrimToKClosest(merged, target, w);
    TrimmedIsSame(target, merged.Keys, next.Keys, w);
    assert merged.Keys == shortlist.Keys + added.Keys;
    var k :| k in added;
    assert k in merged.Keys && |next.Keys| == Min(w, |merged.Keys|);
  }

  /** Every reply of a lookup that asked `rounds[i]` in round `i`. */
  function Received(net: Network, rounds: seq<seq<Node>>): seq<Reply> {
    if rounds == [] then []
    else Received(net, rounds[..|rounds| - 1]) + net(|rounds| - 1, rounds[|rounds| - 1])
  }

  function AskedIds(rounds: seq<seq<Node>>): seq<NodeId> {
    if rounds == [] then [] else AskedIds(rounds[..|rounds| - 1]) + Ids(rounds[|rounds| - 1])
  }

  /** What the lookup knows: where it started and what the replies have named. */
  function Learned(crc: Checksum, start: NodeMap, net: Network, rounds: seq<seq<Node>>): set<NodeId> {
    start.Keys + AllNodes(crc, Received(net, rounds)).Keys
  }

  /** What the lookup knows is where it started and every identifier of a fitting record it has received. */
  lemma LearnedIs(crc: Checksum, start: NodeMap, net: Network, rounds: seq<seq<Node>>, k: NodeId)
    ensures k in Learned(crc, start, net, rounds) <==> k in start || Named(crc, Received(net, rounds), k)
  {
    NewestWins(crc, Received(net, rounds), k);
  }

  /** Every node of `shortlist` has the newest record received for it, or the one it started with. */
  ghost predicate UpToDate(crc: Checksum, start: NodeMap, rs: seq<Reply>, shortlist: NodeMap) {
    forall k :: k in shortlist ==>
      if Named(crc, rs, k) then Newest(crc, rs, k, shortlist[k]) else k in start && shortlist[k] == start[k]
  }

  ghost predicate FromReplies(start: NodeMap, learned: NodeMap, shortlist: NodeMap) {
    forall k :: k in shortlist ==>
      if k in learned then shortlist[k] == learned[k] else k in start && shortlist[k] == start[k]
  }

  lemma FromRepliesIsUpToDate(crc: Checksum, start: NodeMap, rs: seq<Reply>, shortlist: NodeMap)
    requires FromReplies(start, AllNodes(crc, rs), shortlist)
    ensures UpToDate(crc, start, rs, shortlist)
  {
    hide AllNodes, Named, Newest;
    forall k | k in shortlist
      ensures if Named(crc, rs, k) then Newest(crc, rs, k, shortlist[k]) else k in start && shortlist[k] == start[k]
    {
      NewestWins(crc, rs, k);
    }
  }

  /** New replies bring the records up to date, whether any of their nodes is kept or not. */
  lemma RepliesArrive(crc: Checksum, start: NodeMap, net: Network, rounds: seq<seq<Node>>, asked: seq<Node>,
                      shortlist: NodeMap, next: NodeMap)
    requires FromReplies(start, AllNodes(crc, Received(net, rounds)), shortlist)
    requires var added := AllNodes(crc, net(|rounds|, asked));
      forall k :: k in next ==>
        if k in added then next[k] == added[k] else k in shortlist && next[k] == shortlist[k]
    ensures FromReplies(start, AllNodes(crc, Received(net, rounds + [asked])), next)
  {
    hide AllNodes;
    assert (rounds + [asked])[..|rounds|] == rounds;
    AllNodesAppend(crc, Received(net, rounds), net(|rounds|, asked));
  }

  lemma NoneReceived(crc: Checksum, start: NodeMap, net: Network)
    ensures FromReplies(start, AllNodes(crc, Received(net, [])), start)
  {
  }

  lemma MergeTwice(a: NodeMap, b: NodeMap, c: NodeMap)
    ensures Merge(Merge(a, b), c) == Merge(a, Merge(b, c))
  {
  }

  lemma {:induction false} AllNodesAppend(crc: Checksum, rs: seq<Reply>, more: seq<Reply>)
    ensures AllNodes(crc, rs + more) == Merge(AllNodes(crc, rs), AllNodes(crc, more))
    decreases |more|
  {
    hide NodesOf;
    if more == [] {
      assert rs + more == rs && AllNodes(crc, rs) + map[] == AllNodes(crc, rs);
    } else {
      var init, last := more[..|more| - 1], more[|more| - 1];
      assert (rs + more)[..|rs + more| - 1] == rs + init && (rs + more)[|rs + more| - 1] == last;
      AllNodesAppend(crc, rs, init);
      MergeTwice(AllNodes(crc, rs), AllNodes(crc, init), NodesOf(crc, last));
    }
  }

  lemma {:induction false} AllPeersAppend(rs: seq<Reply>, more: seq<Reply>)
    ensures AllPeers(rs + more) == AllPeers(rs) + AllPeers(more)
    decreases |more|
  {
    hide PeersOf;
    if more == [] {
      assert rs + more == rs;
    } else {
      assert (rs + more)[..|rs + more| - 1] == rs + more[..|more| - 1];
      AllPeersAppend(rs, more[..|more| - 1]);
    }
  }

  /** One more round: its identifiers, its peers and its nodes join the others. */
  lemma RoundJoins(crc: Checksum, start: NodeMap, net: Network, rounds: seq<seq<Node>>, asked: seq<Node>)
    ensures var replies := net(|rounds|, asked);
      && AskedIds(rounds + [asked]) == AskedIds(rounds) + Ids(asked)
      && AllPeers(Received(net, rounds + [asked])) == AllPeers(Received(net, rounds)) + AllPeers(replies)
      && Learned(crc, start, net, rounds + [asked]) == Learned(crc, start, net, rounds) + AllNodes(crc, replies).Keys
  {
    hide AllNodes, AllPeers, Ids;
    assert (rounds + [asked])[..|rounds|] == rounds;
    AllNodesAppend(crc, Received(net, rounds), net(|rounds|, asked));
    AllPeersAppend(Received(net, rounds), net(|rounds|, asked));
  }

  /** The nodes of `nodes` that have not been asked. */
  function Open(nodes: NodeMap, queried: set<NodeId>): set<NodeId> {
    nodes.Keys - queried
  }

  lemma UnqueriedIds(shortlist: NodeMap, entries: seq<Node>, queried: set<NodeId>, toQuery: seq<Node>)
    requires Keyed(shortlist) && Elements(Ids(entries)) == shortlist.Keys
    requires forall n :: n in toQuery <==> n in entries && n.id !in queried
    ensures Elements(Ids(toQuery)) == Open(shortlist, queried)
  {
    forall x
      ensures x in Elements(Ids(toQuery)) <==> x in Open(shortlist, queried)
    {
      IdsMember(toQuery, x);
      IdsMember(entries, x);
    }
  }

  /** The nodes to ask in a round: of those not asked yet, the nearest `alpha`. */
  method Dispatch(target: NodeId, shortlist: NodeMap, queried: set<NodeId>, alpha: nat)
    returns (entries: seq<Node>, toQuery: seq<Node>, dispatched: seq<Node>)
    requires Keyed(shortlist)
    ensures Elements(Ids(entries)) == shortlist.Keys && (entries == [] ==> shortlist == map[])
    ensures Elements(Ids(toQuery)) == Open(shortlist, queried)
    ensures Ascending(target, Ids(toQuery)) && dispatched == toQuery[..Min(|toQuery|, alpha)]
    ensures |Ids(dispatched)| <= alpha
    ensures IsNearest(target, Open(shortlist, queried), Elements(Ids(dispatched)), alpha)
    ensures forall n :: n in toQuery ==> n.id in shortlist && shortlist[n.id] == n && n.id !in queried
  {
    hide IsNearest, Ascending;
    entries := SortByDistance(shortlist, target);
    toQuery := Unqueried(entries, queried, target);
    UnqueriedIds(shortlist, entries, queried, toQuery);
    dispatched := toQuery[..Min(|toQuery|, alpha)];
    assert Ids(dispatched) == Ids(toQuery)[..Min(|toQuery|, alpha)];
    PrefixIsNearest(target, Ids(toQuery), alpha);
  }

  /**
   Round `i` asked, of the shortlist at the time, the nearest `alpha` nodes that had not been asked, each at the
   address of its newest record; and the nearest `w` of that shortlist were the nearest `w` of everything known.
   */
  ghost predicate RoundOk(crc: Checksum, target: NodeId, start: NodeMap, net: Network, w: nat, alpha: nat,
                          rounds: seq<seq<Node>>, shortlists: seq<NodeMap>, i: nat)
    requires i < |rounds| == |shortlists|
  {
    var before, shortlist := rounds[..i], shortlists[i];
    && (forall n :: n in rounds[i] ==> n.id in shortlist && shortlist[n.id] == n)
    && IsNearest(target, Open(shortlist, Elements(AskedIds(before))), Elements(Ids(rounds[i])), alpha)
    && SameNearest(target, shortlist.Keys, Learned(crc, start, net, before), w)
    && UpToDate(crc, start, Received(net, before), shortlist)
  }

  ghost predicate AllRoundsOk(crc: Checksum, target: NodeId, start: NodeMap, net: Network, w: nat, alpha: nat,
                              rounds: seq<seq<Node>>, shortlists: seq<NodeMap>)
    requires |rounds| == |shortlists|
  {
    forall i :: 0 <= i < |rounds| ==> RoundOk(crc, target, start, net, w, alpha, rounds, shortlists, i)
  }

  lemma NoRounds(crc: Checksum, target: NodeId, start: NodeMap, net: Network, w: nat, alpha: nat)
    ensures AskedIds([]) == [] && AllPeers(Received(net, [])) == [] && Learned(crc, start, net, []) == start.Keys
    ensures AllRoundsOk(crc, target, start, net, w, alpha, [], []) && Distinct<NodeId>([]) && Elements([]) == {}
  {
  }

  lemma RoundsGrow(crc: Checksum, target: NodeId, start: NodeMap, net: Network, w: nat, alpha: nat,
                   rounds: seq<seq<Node>>, shortlists: seq<NodeMap>, asked: seq<Node>, shortlist: NodeMap)
    requires |rounds| == |shortlists| && AllRoundsOk(crc, target, start, net, w, alpha, rounds, shortlists)
    requires RoundOk(crc, target, start, net, w, alpha, rounds + [asked], shortlists + [shortlist], |rounds|)
    ensures AllRoundsOk(crc, target, start, net, w, alpha, rounds + [asked], shortlists + [shortlist])
  {
    hide IsNearest, SameNearest, Learned, Open, UpToDate, Received, AskedIds, Ids, Elements;
    forall i | 0 <= i < |rounds|
      ensures RoundOk(crc, target, start, net, w, alpha, rounds + [asked], shortlists + [shortlist], i)
    {
      assert (rounds + [asked])[..i] == rounds[..i];
      assert RoundOk(crc, target, start, net, w, alpha, rounds, shortlists, i);
    }
  }

  lemma LastOfAll<T>(s: seq<T>, x: T)
    ensures (s + [x])[..|s|] == s && (s + [x])[|s|] == x
  {
  }

  lemma NewRoundOk(crc: Checksum, target: NodeId, start: NodeMap, net: Network, w: nat, alpha: nat,
                   rounds: seq<seq<Node>>, shortlists: seq<NodeMap>, asked: seq<Node>, shortlist: NodeMap)
    requires |rounds| == |shortlists|
    requires forall n :: n in asked ==> n.id in shortlist && shortlist[n.id] == n
    requires IsNearest(target, Open(shortlist, Elements(AskedIds(rounds))), Elements(Ids(asked)), alpha)
    requires SameNearest(target, shortlist.Keys, Learned(crc, start, net, rounds), w)
    requires UpToDate(crc, start, Received(net, rounds), shortlist)
    ensures RoundOk(crc, target, start, net, w, alpha, rounds + [asked], shortlists + [shortlist], |rounds|)
  {
    hide IsNearest, SameNearest, Learned, Open, UpToDate, Received, AskedIds, Ids, Elements;
    LastOfAll(rounds, asked);
    LastOfAll(shortlists, shortlist);
  }

  lemma ElementsConcat(xs: seq<NodeId>, ys: seq<NodeId>)
    ensures Elements(xs + ys) == Elements(xs) + Elements(ys)
  {
    forall x
      ensures x in Elements(xs + ys) <==> x in Elements(xs) + Elements(ys)
    {
      assert x in Elements(xs + ys) <==> x in xs + ys;
    }
  }

  /** The loop that marks the nodes chosen as queried. */
  method Mark(queried: set<NodeId>, dispatched: seq<Node>) returns (marked: set<NodeId>)
    ensures marked == queried + Elements(Ids(dispatched))
  {
    marked := queried;
    for i := 0 to |dispatched|
      invariant marked == queried + Elements(Ids(dispatched[..i]))
    {
      assert dispatched[..i + 1] == dispatched[..i] + [dispatched[i]];
      IdsAppend(dispatched[..i], dispatched[i]);
      marked := marked + {dispatched[i].id};
    }
    assert dispatched[..|dispatched|] == dispatched;
  }

  /** `queryParallel` takes a prefix of its own choice of all the nodes handed to it, and asks those. */
  method QueryParallel(net: Network, round: nat, nodes: seq<Node>, alpha: nat)
    returns (asked: seq<Node>, responses: seq<Reply>)
    ensures asked == nodes[..Min(|nodes|, alpha)] && responses == net(round, asked)
  {
    asked := [];
    for i := 0 to Min(|nodes|, alpha)
      invariant asked == nodes[..i]
    {
      asked := asked + [nodes[i]];
    }
    responses := net(round, asked);
  }

  /**
   `discoverPeers`. The ghost results are the rounds: whom each asked, and the shortlist it chose from. No
   identifier is asked twice, those marked are those asked, and at most alpha queries go out per round. Every round
   asks the nearest `alpha` open nodes of its shortlist, and trimming never costs anything: the nearest `w` of each
   shortlist are the nearest `w` of everything learned so far, which is where the lookup started and every
   identifier that a reply named in a fitting record, and each node is known by its newest record. All peers
   received are returned. When the lookup ends because everything was queried, the nearest `w` of all it learned
   were asked.
   */
  method DiscoverPeers(crc: Checksum, target: NodeId, start: NodeMap, w: nat, alpha: nat, maxIterations: nat, net: Network)
    returns (ending: Ending, peers: seq<Addr>, queried: set<NodeId>, sent: seq<NodeId>, shortlist: NodeMap,
             ghost rounds: seq<seq<Node>>, ghost shortlists: seq<NodeMap>)
    requires Keyed(start)
    ensures sent == AskedIds(rounds) && peers == AllPeers(Received(net, rounds))
    ensures queried == Elements(sent) && Distinct(sent) && |sent| <= alpha * maxIterations
    ensures |rounds| == |shortlists| <= maxIterations
    ensures AllRoundsOk(crc, target, start, net, w, alpha, rounds, shortlists)
    ensures Keyed(shortlist) && SameNearest(target, shortlist.Keys, Learned(crc, start, net, rounds), w)
    ensures UpToDate(crc, start, Received(net, rounds), shortlist)
    ensures forall k :: k in Learned(crc, start, net, rounds) <==> k in start || Named(crc, Received(net, rounds), k)
    ensures ending == AllQueried ==>
              forall c: set<NodeId> :: IsNearest(target, Learned(crc, start, net, rounds), c, w) ==> c <= Elements(sent)
    ensures ending == MaxIterations ==> |rounds| == maxIterations
    ensures ending == EmptyShortlist ==> start == map[] || w == 0
  {
    hide IsNearest, SameNearest, Ascending, AllNodes, AllPeers, FitsAddress, Learned, AskedIds, Received,
         RoundOk, AllRoundsOk, Open, Distinct, Elements, Ids, UpToDate, FromReplies, Named;
    shortlist := start;
    NoneReceived(crc, start, net);
    NoRounds(crc, target, start, net, w, alpha);
    NearestIsReflexive(target, start.Keys, w);
    queried := {};
    peers, sent, rounds, shortlists := [], [], [], [];
    var iter := 0;
    while iter < maxIterations
      invariant |rounds| == |shortlists| == iter <= maxIterations && |sent| <= alpha * iter
      invariant sent == AskedIds(rounds) && peers == AllPeers(Received(net, rounds))
      invariant queried == Elements(sent)
      invariant Distinct(sent)
      invariant Keyed(shortlist) && shortlist.Keys <= Learned(crc, start, net, rounds)
      invariant SameNearest(target, shortlist.Keys, Learned(crc, start, net, rounds), w)
      invariant FromReplies(start, AllNodes(crc, Received(net, rounds)), shortlist)
      invariant AllRoundsOk(crc, target, start, net, w, alpha, rounds, shortlists)
      invariant shortlist == map[] ==> start == map[] || w == 0
    {
      var entries, toQuery, dispatched := Dispatch(target, shortlist, queried, alpha);
      if |entries| == 0 {
        KnownNow(crc, start, net, rounds, shortlist);
        return EmptyShortlist, peers, queried, sent, shortlist, rounds, shortlists;
      }
      if |toQuery| == 0 {
        NothingOpen(shortlist, queried, toQuery);
        NearestAreIn(target, shortlist.Keys, Learned(crc, start, net, rounds), queried, w);
        KnownNow(crc, start, net, rounds, shortlist);
        return AllQueried, peers, queried, sent, shortlist, rounds, shortlists;
      }
      queried := Mark(queried, dispatched);
      var asked, responses := QueryParallel(net, iter, toQuery, alpha);
      DispatchedAreNew(target, sent, toQuery, |asked|, shortlist.Keys);
      ElementsConcat(sent, Ids(asked));
      KnownNow(crc, start, net, rounds, shortlist);
      NewRoundOk(crc, target, start, net, w, alpha, rounds, shortlists, asked, shortlist);
      RoundsGrow(crc, target, start, net, w, alpha, rounds, shortlists, asked, shortlist);
      RoundJoins(crc, start, net, rounds, asked);
      sent := sent + Ids(asked);
      var newPeers, newNodes := ProcessResponses(crc, responses);
      LearnedNodesFit(crc, responses);
      peers := peers + newPeers;
      ghost var learned := Learned(crc, start, net, rounds);
      rounds, shortlists := rounds + [asked], shortlists + [shortlist];
      iter := iter + 1;
      Budget(alpha, iter, maxIterations);
      if |newNodes| == 0 {
        NothingNew(learned, newNodes);
        RepliesArrive(crc, start, net, rounds[..|rounds| - 1], asked, shortlist, shortlist);
        continue;
      }
      ghost var before := shortlist;
      shortlist := Learn(target, shortlist, newNodes, w, learned);
      RepliesArrive(crc, start, net, rounds[..|rounds| - 1], asked, before, shortlist);
    }
    KnownNow(crc, start, net, rounds, shortlist);
    return MaxIterations, peers, queried, sent, shortlist, rounds, shortlists;
  }

  lemma KnownNow(crc: Checksum, start: NodeMap, net: Network, rounds: seq<seq<Node>>, shortlist: NodeMap)
    requires FromReplies(start, AllNodes(crc, Received(net, rounds)), shortlist)
    ensures UpToDate(crc, start, Received(net, rounds), shortlist)
    ensures forall k :: k in Learned(crc, start, net, rounds) <==> k in start || Named(crc, Received(net, rounds), k)
  {
    hide FromReplies, UpToDate, AllNodes, Named, Learned;
    FromRepliesIsUpToDate(crc, start, Received(net, rounds), shortlist);
    forall k
      ensures k in Learned(crc, start, net, rounds) <==> k in start || Named(crc, Received(net, rounds), k)
    {
      LearnedIs(crc, start, net, rounds, k);
    }
  }

  lemma NothingOpen(shortlist: NodeMap, queried: set<NodeId>, toQuery: seq<Node>)
    requires toQuery == [] && Elements(Ids(toQuery)) == Open(shortlist, queried)
    ensures shortlist.Keys <= queried
  {
    forall x | x in shortlist.Keys
      ensures x in queried
    {
      assert x in Open(shortlist, queried) ==> x in Elements(Ids(toQuery));
    }
  }

  lemma NothingNew(learned: set<NodeId>, added: NodeMap)
    requires |added| == 0
    ensures learned + added.Keys == learned
  {
  }
}
