/**
 Node identifiers bound to IPv4 addresses (BEP-42): `DeriveNodeIDFromIP` and `ValidateNodeIDForIP`
 of `dht/table/nodeid.go`, with the CRC32-C checksum as an arbitrary function, and what the check
 at insertion means for the whole routing table.
 */
module Bep42 {

  import opened Common
  import opened NodeIds
  import opened Buckets
  import opened Compact
  import opened TableModel
  import opened TableTheorems
  import opened TableRuns
  import opened TableConservation

  type Checksum = seq<Byte> -> bv32

  function Uint32(s: seq<Byte>): bv32
    requires |s| == 4
  {
    (s[0] as bv32 << 24) | (s[1] as bv32 << 16) | (s[2] as bv32 << 8) | s[3] as bv32
  }

  /** `byte(v >> shift)` */
  function ByteAt(v: bv32, shift: nat): Byte
    requires shift <= 24
  {
    ((v >> shift) & 0xFF) as Byte
  }

  function PutUint32(v: bv32): seq<Byte> {
    [ByteAt(v, 24), ByteAt(v, 16), ByteAt(v, 8), ByteAt(v, 0)]
  }

  /** The checksum an identifier for this address and random value must start with. */
  function SeedChecksum(crc: Checksum, ip4: seq<Byte>, r: Byte): bv32
    requires |ip4| == 4
  {
    crc(PutUint32((Uint32(ip4) & 0x030F3FFF) | (r as bv32 << 29)))
  }

  /** `ValidateNodeIDForIP` reports no error. */
  predicate ValidForIp(crc: Checksum, ip: seq<Byte>, id: NodeId) {
    && To4(ip) != []
    && var c := SeedChecksum(crc, To4(ip), id[19] & 0x07);
       && ByteAt(c, 24) == id[0]
       && ByteAt(c, 16) == id[1]
       && ByteAt(c, 8) & 0xF8 == id[2] & 0xF8
  }

  function Join(a: Byte, b: Byte, c: Byte, d: Byte): bv32 {
    (a as bv32 << 24) | (b as bv32 << 16) | (c as bv32 << 8) | d as bv32
  }

  lemma JoinBytes(a: Byte, b: Byte, c: Byte, d: Byte)
    ensures ByteAt(Join(a, b, c, d), 24) == a && ByteAt(Join(a, b, c, d), 16) == b
    ensures ByteAt(Join(a, b, c, d), 8) == c && ByteAt(Join(a, b, c, d), 0) == d
  {
  }

  lemma PutJoined(s: seq<Byte>)
    requires |s| == 4
    ensures Uint32(s) == Join(s[0], s[1], s[2], s[3])
    ensures PutUint32(Uint32(s)) == s
  {
    JoinBytes(s[0], s[1], s[2], s[3]);
    hide ByteAt, Join;
  }

  lemma MaskedJoin(a: Byte, b: Byte, c: Byte, d: Byte, r: Byte)
    requires r < 8
    ensures (Join(a, b, c, d) & 0x030F3FFF) | (r as bv32 << 29) == Join((a & 0x03) | (r << 5), b & 0x0F, c & 0x3F, d)
  {
  }

  /**
   The bytes under the checksum: of an address, two bits, four bits, six bits and the last byte, with the random
   number in the top three bits ("node ID" rule of BEP-42).
   */
  function Masked(ip4: seq<Byte>, r: Byte): (s: seq<Byte>)
    requires |ip4| == 4
    ensures |s| == 4
  {
    [(ip4[0] & 0x03) | (r << 5), ip4[1] & 0x0F, ip4[2] & 0x3F, ip4[3]]
  }

  lemma MaskedUint(ip4: seq<Byte>, r: Byte)
    requires |ip4| == 4 && r < 8
    ensures (Uint32(ip4) & 0x030F3FFF) | (r as bv32 << 29) == Uint32(Masked(ip4, r))
  {
    PutJoined(ip4);
    PutJoined(Masked(ip4, r));
    MaskedJoin(ip4[0], ip4[1], ip4[2], ip4[3], r);
    hide Join, Uint32;
  }

  lemma SeedBytes(crc: Checksum, ip4: seq<Byte>, r: Byte)
    requires |ip4| == 4 && r < 8
    ensures SeedChecksum(crc, ip4, r) == crc(Masked(ip4, r))
  {
    hide PutUint32, Uint32, Masked;
    MaskedUint(ip4, r);
    PutJoined(Masked(ip4, r));
  }

  /** The first 21 bits of the checksum are those of an identifier that starts with these bytes. */
  predicate Same21(c: bv32, x: Byte, y: Byte, z: Byte) {
    c >> 11 == (x as bv32 << 13) | (y as bv32 << 5) | (z as bv32 >> 3)
  }

  predicate FirstAgree(c: bv32, x: Byte, y: Byte, z: Byte) {
    ByteAt(c, 24) == x && ByteAt(c, 16) == y && ByteAt(c, 8) & 0xF8 == z & 0xF8
  }

  lemma FirstBits(c: bv32, x: Byte, y: Byte, z: Byte)
    ensures FirstAgree(c, x, y, z) <==> Same21(c, x, y, z)
  {
  }

  lemma SmallRandom(b: Byte)
    ensures (b & 0x07) & 0x07 == b & 0x07 && b & 0x07 < 8
  {
  }

  lemma ValidParts(crc: Checksum, ip: seq<Byte>, id: NodeId)
    ensures ValidForIp(crc, ip, id) <==>
            To4(ip) != [] && FirstAgree(SeedChecksum(crc, To4(ip), id[19] & 0x07), id[0], id[1], id[2])
  {
    hide SeedChecksum, ByteAt;
  }

  /** Validation is agreement of the first 21 bits of the identifier with those of the checksum of the masked address. */
  lemma ValidIsPrefix(crc: Checksum, ip: seq<Byte>, id: NodeId)
    ensures ValidForIp(crc, ip, id) <==>
            To4(ip) != [] && Same21(crc(Masked(ip[|ip| - 4..], id[19] & 0x07)), id[0], id[1], id[2])
  {
    To4Is(ip);
    ValidParts(crc, ip, id);
    hide SeedChecksum, Masked, Same21, ValidForIp, FirstAgree;
    if To4(ip) != [] {
      SmallRandom(id[19]);
      SeedBytes(crc, To4(ip), id[19] & 0x07);
      FirstBits(SeedChecksum(crc, To4(ip), id[19] & 0x07), id[0], id[1], id[2]);
    }
  }

  lemma LowBits(x: Byte, r: Byte)
    requires r & 0x07 == r
    ensures ((x & 0xF8) | r) & 0x07 == r && ((x & 0xF8) | r) & 0xF8 == x & 0xF8
  {
  }

  lemma HighBits(c: Byte, x: Byte)
    ensures ((c & 0xF8) | (x & 0x07)) & 0xF8 == c & 0xF8 && ((c & 0xF8) | (x & 0x07)) & 0x07 == x & 0x07
  {
  }

  /**
   Derivation from one random byte and twenty more: the result passes validation for every IPv4
   address, and every bit the rule leaves open is still random.
   */
  method DeriveNodeId(crc: Checksum, ip: seq<Byte>, random: Byte, randomId: NodeId) returns (id: NodeId)
    ensures To4(ip) == [] ==> id == ZERO_ID
    ensures To4(ip) != [] ==> ValidForIp(crc, ip, id)
    ensures To4(ip) != [] ==> id[3..19] == randomId[3..19] && id[2] & 0x07 == randomId[2] & 0x07
    ensures To4(ip) != [] ==> id[19] & 0xF8 == randomId[19] & 0xF8 && id[19] & 0x07 == random & 0x07
  {
    if To4(ip) == [] {
      return ZERO_ID;
    }
    var r := random & 0x07;
    var c := SeedChecksum(crc, To4(ip), r);
    id := randomId;
    id := id[0 := ByteAt(c, 24)];
    id := id[1 := ByteAt(c, 16)];
    id := id[2 := (ByteAt(c, 8) & 0xF8) | (id[2] & 0x07)];
    id := id[19 := (id[19] & 0xF8) | r];
    SmallRandom(random);
    LowBits(randomId[19], r);
    HighBits(ByteAt(c, 8), randomId[2]);
    hide SeedChecksum, ByteAt;
  }

  /** `InsertValidNode`: an identifier that does not fit its address is dropped. */
  function InsertValid(crc: Checksum, t: Table, n: Node): Outcome
    requires Inv(t)
  {
    if ValidForIp(crc, n.addr.ip, n.id) then Insert(t, n) else Outcome(t, Dropped)
  }

  /** Refused by the check: the result says dropped and no entry changes. Otherwise it is an insertion. */
  lemma InsertValidEffect(crc: Checksum, t: Table, n: Node, x: NodeId)
    requires Inv(t)
    ensures var o := InsertValid(crc, t, n);
      && Inv(o.table)
      && if ValidForIp(crc, n.addr.ip, n.id) then EntryEffect(Lookup(t, x), Lookup(o.table, x), o.result, n, x)
         else o.result == Dropped && Lookup(o.table, x) == Lookup(t, x)
  {
    hide ValidForIp, Lookup, Insert;
    InsertRefinesMap(t, n, x);
  }

  ghost predicate FitsAddress(crc: Checksum, n: Node) {
    ValidForIp(crc, n.addr.ip, n.id)
  }

  /** The table after any operations whose insertions all pass through `InsertValid`. */
  function RunValid(crc: Checksum, t: Table, ops: seq<Op>): (u: Table)
    requires Inv(t)
    ensures Inv(u)
    decreases |ops|
  {
    if ops == [] then t
    else
      ApplyKeepsInv(t, ops[0]);
      RunValid(crc, if ops[0].DoInsert? then InsertValid(crc, t, ops[0].node).table else Apply(t, ops[0]), ops[1..])
  }

  predicate Passes(crc: Checksum, op: Op) {
    op.DoInsert? ==> ValidForIp(crc, op.node.addr.ip, op.node.id)
  }

  function Passing(crc: Checksum, ops: seq<Op>): seq<Op> {
    if ops == [] then []
    else (if Passes(crc, ops[0]) then [ops[0]] else []) + Passing(crc, ops[1..])
  }

  lemma {:induction false} PassingPass(crc: Checksum, ops: seq<Op>)
    ensures forall op :: op in Passing(crc, ops) ==> Passes(crc, op)
  {
    hide ValidForIp;
    if ops != [] {
      PassingPass(crc, ops[1..]);
    }
  }

  /** The check drops the operations that fail it and changes nothing else. */
  lemma {:induction false} CheckDrops(crc: Checksum, t: Table, ops: seq<Op>)
    requires Inv(t)
    ensures RunValid(crc, t, ops) == Run(t, Passing(crc, ops))
    decreases |ops|
  {
    hide ValidForIp, Inv, Insert, MarkSuccess, MarkFailure;
    if ops != [] {
      ApplyKeepsInv(t, ops[0]);
      var rest := Passing(crc, ops[1..]);
      if Passes(crc, ops[0]) {
        CheckDrops(crc, Apply(t, ops[0]), ops[1..]);
        assert ([ops[0]] + rest)[1..] == rest;
      } else {
        CheckDrops(crc, t, ops[1..]);
        assert [] + rest == rest;
      }
    }
  }

  /**
   When all insertions pass through the check, every node ever stored fits its current address: the
   check survives refresh with a new address, splits, evictions and promotions.
   */
  lemma StoredNodesFit(crc: Checksum, self: NodeId, k: int, threshold: int, ops: seq<Op>, i: nat, p: nat)
    requires k >= 1
    ensures Inv(New(self, k, threshold))
    ensures var t := RunValid(crc, New(self, k, threshold), ops);
      i < |t.buckets| && p < |t.buckets[i].All()| ==> FitsAddress(crc, t.buckets[i].All()[p])
  {
    NewIsValid(self, k, threshold);
    hide ValidForIp, Inv, Run, RunValid, AllStored;
    var start, kept := New(self, k, threshold), Passing(crc, ops);
    var fits := (n: Node) => ValidForIp(crc, n.addr.ip, n.id);
    NothingStoredYet(self, k, threshold, fits);
    PassingPass(crc, ops);
    CheckDrops(crc, start, ops);
    forall op | op in kept
      ensures Respects(op, threshold, fits)
    {
      PassingRespects(crc, op, threshold, fits);
    }
    hide Respects, Passes, New;
    KeptEverywhere(start, kept, fits, i, p);
  }

  lemma PassingRespects(crc: Checksum, op: Op, threshold: int, fits: Node -> bool)
    requires Passes(crc, op) && forall n: Node :: fits(n) == ValidForIp(crc, n.addr.ip, n.id)
    ensures Respects(op, threshold, fits)
  {
    hide ValidForIp;
  }

  lemma NothingStoredYet(self: NodeId, k: int, threshold: int, p: Node -> bool)
    ensures AllStored(New(self, k, threshold), p)
  {
  }

  lemma KeptEverywhere(start: Table, ops: seq<Op>, p: Node -> bool, i: nat, q: nat)
    requires Inv(start) && AllStored(start, p) && forall op :: op in ops ==> Respects(op, start.threshold, p)
    ensures var t := Run(start, ops);
      i < |t.buckets| && q < |t.buckets[i].All()| ==> p(t.buckets[i].All()[q])
  {
    hide Respects;
    RunKeepsProperty(start, ops, p);
    var t := Run(start, ops);
    if i < |t.buckets| && q < |t.buckets[i].All()| {
      StoredIsFound(t, i, q);
    }
  }
}
