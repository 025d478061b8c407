/**
 Compact node and peer records of `dht/table/table.go`: 20 bytes of identifier, 4 of IPv4 address
 and 2 of port for a node, the last six for a peer ("Contact Encoding" section of BEP-05).
 */
module Compact {

  import opened NodeIds
  import opened Buckets

  datatype Result<+T> = Ok(value: T) | Err

  const RECORD: nat := 26

  // ----- bytes and ports

  function ToByte(x: nat): Byte
    requires x < 256
  {
    x as Byte
  }

  /** `binary.BigEndian.PutUint16(_, uint16(port))`: ports wrap at 16 bits. */
  function PutPort(port: int): seq<Byte> {
    [ToByte(port % 0x10000 / 256), ToByte(port % 0x10000 % 256)]
  }

  function GetPort(s: seq<Byte>): nat
    requires |s| == 2
  {
    s[0] as nat * 256 + s[1] as nat
  }

  lemma NextByte(b: Byte)
    requires b < 0xFF
    ensures (b + 1) as nat == b as nat + 1
  {
  }

  lemma ByteOfNat(b: Byte)
    ensures (b as nat) < 256 && ToByte(b as nat) == b
  {
  }

  lemma {:induction false} ByteRoundTrip(x: nat)
    requires x < 256
    ensures ToByte(x) as nat == x
  {
    if x > 0 {
      ByteRoundTrip(x - 1);
      var b := ToByte(x - 1);
      ByteOrder(b, 0xFF);
      NextByte(b);
      ByteOfNat(b + 1);
    }
  }

  lemma PortRoundTrip(port: int)
    ensures GetPort(PutPort(port)) == port % 0x10000
  {
    hide ToByte;
    ByteRoundTrip(port % 0x10000 / 256);
    ByteRoundTrip(port % 0x10000 % 256);
  }

  lemma JoinPort(hi: nat, lo: nat)
    requires hi < 256 && lo < 256
    ensures (hi * 256 + lo) % 0x10000 / 256 == hi && (hi * 256 + lo) % 0x10000 % 256 == lo
  {
  }

  lemma PortBytes(s: seq<Byte>)
    requires |s| == 2
    ensures GetPort(s) < 0x10000
    ensures PutPort(GetPort(s)) == s
  {
    hide ToByte;
    ByteOfNat(s[0]);
    ByteOfNat(s[1]);
    JoinPort(s[0] as nat, s[1] as nat);
    assert PutPort(GetPort(s)) == [ToByte(s[0] as nat), ToByte(s[1] as nat)];
  }

  // ----- addresses

  const V4_PREFIX: seq<Byte> := [0, 0, 0, 0, 0, 0, 0, 0, 0, 0, 0xFF, 0xFF]

  /** `net.IP.To4`: four bytes, or the last four of a v4-in-v6 address; empty otherwise. */
  function To4(ip: seq<Byte>): (r: seq<Byte>)
    ensures r == [] || |r| == 4
    ensures |ip| == 4 ==> r == ip
  {
    if |ip| == 4 then ip
    else if |ip| == 16 && ip[..12] == V4_PREFIX then ip[12..]
    else []
  }

  /** Exactly the four-byte addresses and the v4-in-v6 ones have an IPv4 form, which is their last four bytes. */
  lemma To4Is(ip: seq<Byte>)
    ensures To4(ip) != [] <==>
            |ip| == 4 || (|ip| == 16 && ip[10] == 0xFF && ip[11] == 0xFF && forall i :: 0 <= i < 10 ==> ip[i] == 0)
    ensures To4(ip) != [] ==> To4(ip) == ip[|ip| - 4..]
  {
    if |ip| == 16 {
      assert ip[..12] == V4_PREFIX <==> forall i :: 0 <= i < 12 ==> ip[i] == V4_PREFIX[i];
      if ip[10] == 0xFF && ip[11] == 0xFF && forall i :: 0 <= i < 10 ==> ip[i] == 0 {
        assert ip[..12] == V4_PREFIX;
      } else if ip[..12] == V4_PREFIX {
        assert forall i :: 0 <= i < 12 ==> ip[..12][i] == ip[i];
      }
    }
  }

  predicate IsV4(n: Node) {
    To4(n.addr.ip) != []
  }

  // ----- node records

  function Record(n: Node): (s: seq<Byte>)
    requires IsV4(n)
    ensures |s| == RECORD
  {
    n.id + To4(n.addr.ip) + PutPort(n.addr.port)
  }

  /** The bytes written for a list of nodes: those that are not IPv4 are skipped. */
  function Encoded(nodes: seq<Node>): (s: seq<Byte>)
    ensures |s| % RECORD == 0
  {
    if nodes == [] then []
    else Encoded(nodes[..|nodes| - 1]) + if IsV4(nodes[|nodes| - 1]) then Record(nodes[|nodes| - 1]) else []
  }

  method EncodeNodes(nodes: seq<Node>) returns (buf: seq<Byte>)
    ensures buf == Encoded(nodes)
  {
    buf := [];
    for i := 0 to |nodes|
      invariant buf == Encoded(nodes[..i])
    {
      assert nodes[..i + 1][..i] == nodes[..i];
      var ip := To4(nodes[i].addr.ip);
      if ip == [] {
        continue;
      }
      var record := Zeros(RECORD);
      record := nodes[i].id + record[20..];
      record := record[..20] + ip + record[24..];
      record := record[..24] + PutPort(nodes[i].addr.port);
      assert record == Record(nodes[i]);
      buf := buf + record;
    }
    assert nodes[..|nodes|] == nodes;
  }

  function Parsed(s: seq<Byte>): Node
    requires |s| == RECORD
  {
    Node(s[..20], Addr(s[20..24], GetPort(s[24..26])), 0, 0)
  }

  function Decoded(s: seq<Byte>): (nodes: seq<Node>)
    requires |s| % RECORD == 0
    ensures |nodes| == |s| / RECORD
  {
    if s == [] then []
    else
      assert |s| >= RECORD && (|s| - RECORD) % RECORD == 0 && |s| / RECORD == (|s| - RECORD) / RECORD + 1;
      Decoded(s[..|s| - RECORD]) + [Parsed(s[|s| - RECORD..])]
  }

  /** Record `i` of a list, byte by byte; the port comes high byte first. */
  function RecordAt(s: seq<Byte>, i: nat): Node
    requires 26 * i + 26 <= |s|
  {
    var r := s[26 * i..26 * i + 26];
    Node(r[0..20], Addr(r[20..24], 256 * (r[24] as nat) + r[25] as nat), 0, 0)
  }

  lemma {:induction false} DecodedAt(s: seq<Byte>, i: nat)
    requires |s| % RECORD == 0 && RECORD * i < |s|
    ensures RECORD * i + RECORD <= |s| && i < |Decoded(s)| && Decoded(s)[i] == RecordAt(s, i)
    decreases |s|
  {
    var n := |s| - RECORD;
    NextMultiple(RECORD * i, |s|);
    WholeRecords(s, i);
    if RECORD * i < n {
      DecodedAt(s[..n], i);
      assert s[..n][RECORD * i..RECORD * i + RECORD] == s[RECORD * i..RECORD * i + RECORD];
    } else {
      assert s[RECORD * i..RECORD * i + RECORD] == s[n..];
    }
  }

  lemma WholeRecords(s: seq<Byte>, i: nat)
    requires |s| % RECORD == 0 && RECORD * i < |s|
    ensures (|s| - RECORD) % RECORD == 0 && |s[..|s| - RECORD]| == |s| - RECORD
    ensures |s| / RECORD == (|s| - RECORD) / RECORD + 1 && i <= (|s| - RECORD) / RECORD
    ensures RECORD * i >= |s| - RECORD ==> RECORD * i == |s| - RECORD && i == (|s| - RECORD) / RECORD
  {
  }

  method DecodeNodes(s: seq<Byte>) returns (r: Result<seq<Node>>)
    ensures r == if |s| % RECORD != 0 then Err else Ok(Decoded(s))
  {
    hide GetPort, Decoded;
    if |s| % RECORD != 0 {
      return Err;
    }
    var nodes: seq<Node> := [];
    var off := 0;
    NothingDecoded(s);
    while off < |s|
      invariant 0 <= off <= |s| && off % RECORD == 0
      invariant nodes == Decoded(s[..off])
    {
      NextRecord(s, off);
      nodes := nodes + [Node(s[off..off + 20], Addr(s[off + 20..off + 24], GetPort(s[off + 24..off + 26])), 0, 0)];
      off := off + RECORD;
    }
    assert s[..off] == s;
    return Ok(nodes);
  }

  lemma NothingDecoded(s: seq<Byte>)
    ensures Decoded(s[..0]) == []
  {
  }

  lemma NextRecord(s: seq<Byte>, off: nat)
    requires |s| % RECORD == 0 && off % RECORD == 0 && off < |s|
    ensures off + RECORD <= |s| && (off + RECORD) % RECORD == 0
    ensures Decoded(s[..off + RECORD]) == Decoded(s[..off]) +
              [Node(s[off..off + 20], Addr(s[off + 20..off + 24], GetPort(s[off + 24..off + 26])), 0, 0)]
  {
    hide GetPort, Decoded;
    NextMultiple(off, |s|);
    var record := s[off..off + RECORD];
    assert s[..off + RECORD] == s[..off] + record;
    DecodeAppend(s[..off], record);
    assert record[..20] == s[off..off + 20] && record[20..24] == s[off + 20..off + 24];
    assert record[24..26] == s[off + 24..off + 26];
  }

  lemma NextMultiple(off: nat, n: nat)
    requires off % RECORD == 0 && n % RECORD == 0 && off < n
    ensures off + RECORD <= n && (off + RECORD) % RECORD == 0
  {
  }

  /** What a node becomes on the wire: identifier, IPv4 address and 16-bit port. */
  function Wire(n: Node): Node {
    Node(n.id, Addr(To4(n.addr.ip), n.addr.port % 0x10000), 0, 0)
  }

  function WireNodes(nodes: seq<Node>): seq<Node> {
    if nodes == [] then []
    else WireNodes(nodes[..|nodes| - 1]) + if IsV4(nodes[|nodes| - 1]) then [Wire(nodes[|nodes| - 1])] else []
  }

  lemma ParseRecord(n: Node)
    requires IsV4(n)
    ensures Parsed(Record(n)) == Wire(n)
  {
    var s := Record(n);
    assert s[..20] == n.id && s[20..24] == To4(n.addr.ip) && s[24..26] == PutPort(n.addr.port);
    PortRoundTrip(n.addr.port);
  }

  lemma DecodeAppend(s: seq<Byte>, t: seq<Byte>)
    requires |s| % RECORD == 0 && |t| == RECORD
    ensures |s + t| % RECORD == 0
    ensures Decoded(s + t) == Decoded(s) + [Parsed(t)]
  {
    assert (s + t)[..|s + t| - RECORD] == s && (s + t)[|s + t| - RECORD..] == t;
  }

  /** Decoding what was encoded gives back every IPv4 node, in order. */
  lemma {:induction false} DecodeEncode(nodes: seq<Node>)
    ensures Decoded(Encoded(nodes)) == WireNodes(nodes)
  {
    if nodes != [] {
      var init, last := nodes[..|nodes| - 1], nodes[|nodes| - 1];
      DecodeEncode(init);
      if IsV4(last) {
        DecodeAppend(Encoded(init), Record(last));
        ParseRecord(last);
      } else {
        assert Encoded(nodes) == Encoded(init);
      }
    }
  }

  /** The record written for a node, byte by byte; the port goes high byte first. */
  lemma RecordBytes(n: Node)
    requires IsV4(n)
    ensures var r := Record(n);
      && r[0..20] == n.id && r[20..24] == n.addr.ip[|n.addr.ip| - 4..]
      && r[24] as nat == n.addr.port % 0x10000 / 256 && r[25] as nat == n.addr.port % 256
  {
    To4Is(n.addr.ip);
    PortHighFirst(n.addr.port);
    assert Record(n)[24..26] == PutPort(n.addr.port);
    assert Record(n)[24] == Record(n)[24..26][0] && Record(n)[25] == Record(n)[24..26][1];
  }

  lemma PortHighFirst(port: int)
    ensures |PutPort(port)| == 2
    ensures PutPort(port)[0] as nat == port % 0x10000 / 256 && PutPort(port)[1] as nat == port % 256
  {
    hide ToByte;
    ByteRoundTrip(port % 0x10000 / 256);
    ByteRoundTrip(port % 0x10000 % 256);
    assert port % 0x10000 % 256 == port % 256;
  }

  /** A node as the wire carries it: four-byte address, 16-bit port, nothing else. */
  predicate IsWire(n: Node) {
    |n.addr.ip| == 4 && 0 <= n.addr.port < 0x10000 && n.lastSeen == 0 && n.failures == 0
  }

  lemma WireUnchanged(n: Node)
    requires IsWire(n)
    ensures IsV4(n) && Wire(n) == n
  {
  }

  /** Such nodes come back unchanged. */
  lemma {:induction false} WireIsIdentity(nodes: seq<Node>)
    requires forall n :: n in nodes ==> IsWire(n)
    ensures WireNodes(nodes) == nodes
  {
    if nodes != [] {
      hide Wire, IsWire;
      WireIsIdentity(nodes[..|nodes| - 1]);
      WireUnchanged(nodes[|nodes| - 1]);
      assert nodes == nodes[..|nodes| - 1] + [nodes[|nodes| - 1]];
    }
  }

  lemma RecordOfParsed(r: seq<Byte>)
    requires |r| == RECORD
    ensures IsV4(Parsed(r)) && Record(Parsed(r)) == r
  {
    PortBytes(r[24..26]);
    assert r == r[..20] + r[20..24] + r[24..26];
  }

  lemma EncodeSnoc(nodes: seq<Node>, n: Node)
    requires IsV4(n)
    ensures Encoded(nodes + [n]) == Encoded(nodes) + Record(n)
  {
    assert (nodes + [n])[..|nodes|] == nodes;
  }

  /** Encoding what was decoded gives back every well-formed string. */
  lemma {:induction false} EncodeDecode(s: seq<Byte>)
    requires |s| % RECORD == 0
    ensures Encoded(Decoded(s)) == s
  {
    hide Parsed, Record;
    if s != [] {
      var init, last := s[..|s| - RECORD], s[|s| - RECORD..];
      EncodeDecode(init);
      RecordOfParsed(last);
      EncodeSnoc(Decoded(init), Parsed(last));
      assert s == init + last;
    }
  }

  // ----- peer records

  function PeerRecord(ip: seq<Byte>, port: int): (s: seq<Byte>)
    ensures |s| == 6
  {
    (if To4(ip) == [] then Zeros(4) else To4(ip)) + PutPort(port)
  }

  method EncodePeer(ip: seq<Byte>, port: int) returns (buf: seq<Byte>)
    ensures buf == PeerRecord(ip, port)
  {
    buf := Zeros(6);
    if To4(ip) != [] {
      buf := To4(ip) + buf[4..];
    }
    buf := buf[..4] + PutPort(port);
  }

  function PeerAddr(v: seq<Byte>): Addr
    requires |v| == 6
  {
    Addr(v[..4], GetPort(v[4..6]))
  }

  /** One record of the wrong length fails the list. */
  function DecodedPeers(values: seq<seq<Byte>>): Result<seq<Addr>> {
    if forall i :: 0 <= i < |values| ==> |values[i]| == 6
    then Ok(seq(|values|, i requires 0 <= i < |values| => PeerAddr(values[i])))
    else Err
  }

  method DecodePeers(values: seq<seq<Byte>>) returns (r: Result<seq<Addr>>)
    ensures r == DecodedPeers(values)
  {
    var addrs := [];
    for i := 0 to |values|
      invariant |addrs| == i
      invariant forall j :: 0 <= j < i ==> |values[j]| == 6 && addrs[j] == PeerAddr(values[j])
    {
      if |values[i]| != 6 {
        return Err;
      }
      addrs := addrs + [PeerAddr(values[i])];
    }
    assert addrs == seq(|values|, i requires 0 <= i < |values| => PeerAddr(values[i]));
    return Ok(addrs);
  }

  /** A peer record, byte by byte: both ways, the port goes high byte first. */
  lemma PeerBytes(ip: seq<Byte>, port: int, v: seq<Byte>)
    requires |v| == 6
    ensures To4(ip) != [] ==> PeerRecord(ip, port)[0..4] == ip[|ip| - 4..]
    ensures To4(ip) == [] ==> PeerRecord(ip, port)[0..4] == [0, 0, 0, 0]
    ensures PeerRecord(ip, port)[4] as nat == port % 0x10000 / 256 && PeerRecord(ip, port)[5] as nat == port % 256
    ensures PeerAddr(v) == Addr(v[0..4], 256 * (v[4] as nat) + v[5] as nat)
  {
    To4Is(ip);
    PortHighFirst(port);
    var r := PeerRecord(ip, port);
    assert r[4..6] == PutPort(port);
    assert r[4] == r[4..6][0] && r[5] == r[4..6][1];
  }

  /** What a peer becomes on the wire: four address bytes, zero unless it is IPv4, and a 16-bit port. */
  function WirePeer(p: Addr): Addr {
    Addr(if To4(p.ip) == [] then Zeros(4) else To4(p.ip), p.port % 0x10000)
  }

  lemma PeerRoundTrip(p: Addr)
    ensures PeerAddr(PeerRecord(p.ip, p.port)) == WirePeer(p)
  {
    hide PutPort, GetPort;
    var s := PeerRecord(p.ip, p.port);
    assert s[..4] == WirePeer(p).ip && s[4..6] == PutPort(p.port);
    PortRoundTrip(p.port);
  }

  lemma RecordRoundTrip(v: seq<Byte>)
    requires |v| == 6
    ensures PeerRecord(PeerAddr(v).ip, PeerAddr(v).port) == v
  {
    hide PutPort, GetPort;
    PortBytes(v[4..6]);
    assert v == v[..4] + v[4..6];
  }

  function PeerRecords(peers: seq<Addr>): seq<seq<Byte>> {
    seq(|peers|, i requires 0 <= i < |peers| => PeerRecord(peers[i].ip, peers[i].port))
  }

  function WirePeers(peers: seq<Addr>): seq<Addr> {
    seq(|peers|, i requires 0 <= i < |peers| => WirePeer(peers[i]))
  }

  /** A list of any peers, encoded one by one, is read back as what the wire carries of each, in order. */
  lemma PeersRoundTrip(peers: seq<Addr>)
    ensures DecodedPeers(PeerRecords(peers)) == Ok(WirePeers(peers))
  {
    var records := PeerRecords(peers);
    assert forall i :: 0 <= i < |records| ==> |records[i]| == 6;
    var decoded := DecodedPeers(records).value;
    hide PeerRecord, PeerAddr, WirePeer;
    forall i | 0 <= i < |peers|
      ensures decoded[i] == WirePeers(peers)[i]
    {
      PeerRoundTrip(peers[i]);
    }
    assert decoded == WirePeers(peers);
  }

  /** Every list of records that decodes is given back by encoding what it decodes to. */
  lemma RecordsRoundTrip(values: seq<seq<Byte>>)
    requires DecodedPeers(values).Ok?
    ensures PeerRecords(DecodedPeers(values).value) == values
  {
    var records := PeerRecords(DecodedPeers(values).value);
    hide PeerRecord, PeerAddr;
    forall i | 0 <= i < |values|
      ensures records[i] == values[i]
    {
      RecordRoundTrip(values[i]);
    }
    assert records == values;
  }
}
