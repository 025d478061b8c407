/**
 The peer connection of `metadata/fetch.go`: the handshake, length-prefixed messages (BEP-10), and the
 loop that requests the pieces of the metadata and puts them together (BEP-9).
 */
module PeerWire {

  import opened Common
  import opened NodeIds
  import opened Compact

  // ----- 32-bit lengths, big-endian

  const U32: nat := 0x1_0000_0000

  /** `binary.BigEndian.PutUint32(_, uint32(n))`: lengths wrap at 32 bits. */
  function PutU32(n: nat): (s: seq<Byte>)
    ensures |s| == 4
  {
    var d := n % U32;
    var c := d / 256;
    var b := c / 256;
    [ToByte(b / 256), ToByte(b % 256), ToByte(c % 256), ToByte(d % 256)]
  }

  function GetU32(s: seq<Byte>): nat
    requires |s| == 4
  {
    ((s[0] as nat * 256 + s[1] as nat) * 256 + s[2] as nat) * 256 + s[3] as nat
  }

  lemma LengthRoundTrip(n: nat)
    ensures GetU32(PutU32(n)) == n % U32
  {
    hide ToByte;
    var d := n % U32;
    ByteRoundTrip(d / 256 / 256 / 256);
    ByteRoundTrip(d / 256 / 256 % 256);
    ByteRoundTrip(d / 256 % 256);
    ByteRoundTrip(d % 256);
  }

  /** The four bytes of a length, the most significant one first. */
  ghost predicate LengthBytes(s: seq<Byte>, n: nat) {
    && |s| >= 4
    && n == 0x100_0000 * (s[0] as nat) + 0x1_0000 * (s[1] as nat) + 0x100 * (s[2] as nat) + s[3] as nat
  }

  lemma PutsLength(n: nat)
    ensures LengthBytes(PutU32(n), n % U32)
  {
    LengthRoundTrip(n);
  }

  // ----- a connection

  /** One direction of a connection: bytes written and not read yet. A read that finds too few fails. */
  class Pipe {
    var bytes: seq<Byte>

    constructor ()
      ensures bytes == []
    {
      bytes := [];
    }

    method Write(s: seq<Byte>)
      modifies this
      ensures bytes == old(bytes) + s
    {
      bytes := bytes + s;
    }

    /** `io.ReadFull` */
    method ReadFull(n: nat) returns (r: Option<seq<Byte>>)
      modifies this
      ensures if n <= old(|bytes|) then
                r == Some(old(bytes)[..n]) && bytes == old(bytes)[n..]
              else
                r == None && bytes == []
    {
      if n > |bytes| {
        bytes := [];
        return None;
      }
      r := Some(bytes[..n]);
      bytes := bytes[n..];
    }
  }

  // ----- messages

  /** What a peer puts on the wire. */
  datatype Item = Message(kind: Byte, ext: Byte, payload: seq<Byte>) | KeepAlive

  /** What `readMsg` returns for one message: its type and the bytes after the type. */
  datatype Received = Received(kind: Byte, payload: seq<Byte>)

  datatype Parsed = Failed | Parsed(msg: Received, rest: seq<Byte>)

  function Frame(it: Item): seq<Byte> {
    match it
    case Message(kind, ext, payload) => PutU32(2 + |payload|) + [kind, ext] + payload
    case KeepAlive => PutU32(0)
  }

  function Stream(items: seq<Item>): seq<Byte> {
    if items == [] then [] else Frame(items[0]) + Stream(items[1..])
  }

  function Seen(it: Item): Received {
    match it
    case Message(kind, ext, payload) => Received(kind, [ext] + payload)
    case KeepAlive => Received(0, [])
  }

  function Parse(s: seq<Byte>, maxMsgSize: int): (p: Parsed)
    ensures p.Parsed? ==> |p.rest| < |s|
  {
    if |s| < 4 then Failed
    else
      var length := GetU32(s[..4]);
      if length == 0 then Parsed(Received(0, []), s[4..])
      else if length > maxMsgSize % U32 || length > |s| - 4 then Failed
      else Parsed(Received(s[4], s[5..4 + length]), s[4 + length..])
  }

  /** What is read, from the bytes: a keep-alive, one whole message of a length that is not too great, or nothing. */
  lemma ParseIs(s: seq<Byte>, maxMsgSize: int)
    ensures |s| < 4 ==> Parse(s, maxMsgSize).Failed?
    ensures |s| >= 4 ==>
              var n := GetU32(s[..4]);
              && LengthBytes(s, n)
              && Parse(s, maxMsgSize) ==
                 if n == 0 then Parsed(Received(0, []), s[4..])
                 else if n <= maxMsgSize % 0x1_0000_0000 && 4 + n <= |s| then Parsed(Received(s[4], s[5..4 + n]), s[4 + n..])
                 else Failed
  {
    OnlyLength(s);
    hide GetU32, LengthBytes;
  }

  lemma OnlyLength(s: seq<Byte>)
    ensures |s| >= 4 ==> LengthBytes(s, GetU32(s[..4]))
  {
  }

  /** All that can be read before a read fails. */
  function Messages(s: seq<Byte>, maxMsgSize: int): seq<Received>
    decreases |s|
  {
    match Parse(s, maxMsgSize)
    case Failed => []
    case Parsed(msg, rest) => [msg] + Messages(rest, maxMsgSize)
  }

  method SendMsg(w: Pipe, kind: Byte, ext: Byte, payload: seq<Byte>)
    modifies w
    ensures w.bytes == old(w.bytes) + Frame(Message(kind, ext, payload))
  {
    hide PutU32;
    w.Write(PutU32(1 + 1 + |payload|));
    w.Write([kind, ext]);
    if |payload| > 0 {
      w.Write(payload);
    }
  }

  method ReadMsg(r: Pipe, maxMsgSize: int) returns (m: Option<Received>)
    modifies r
    ensures match Parse(old(r.bytes), maxMsgSize)
            case Failed => m == None
            case Parsed(msg, rest) => m == Some(msg) && r.bytes == rest
  {
    ghost var s := r.bytes;
    var lenBuf := r.ReadFull(4);
    if lenBuf.None? {
      return None;
    }
    var length := GetU32(lenBuf.value);
    if length == 0 {
      return Some(Received(0, []));
    }
    if length > maxMsgSize % U32 {
      return None;
    }
    var body := r.ReadFull(length);
    if body.None? {
      return None;
    }
    assert body.value == s[4..4 + length] && s[4..][length..] == s[4 + length..];
    m := Some(Received(body.value[0], body.value[1..]));
  }

  predicate Fits(it: Item, maxMsgSize: int) {
    it.KeepAlive? || 2 + |it.payload| <= maxMsgSize % U32
  }

  /** One message on the wire, byte by byte: the length of what follows, the type, the extension id, the payload. */
  lemma FrameBytes(kind: Byte, ext: Byte, payload: seq<Byte>)
    ensures var s := Frame(Message(kind, ext, payload));
      && |s| == 6 + |payload| && LengthBytes(s, (2 + |payload|) % 0x1_0000_0000)
      && s[4] == kind && s[5] == ext && s[6..] == payload
    ensures Frame(KeepAlive) == [0, 0, 0, 0]
  {
    PutsLength(2 + |payload|);
    PutsLength(0);
    hide PutU32;
    assert forall i :: 0 <= i < 4 ==> PutU32(0)[i] == 0;
  }

  lemma ParseFrame(it: Item, rest: seq<Byte>, maxMsgSize: int)
    requires Fits(it, maxMsgSize)
    ensures Parse(Frame(it) + rest, maxMsgSize) == Parsed(Seen(it), rest)
  {
    hide PutU32, GetU32;
    var s := Frame(it) + rest;
    match it
    case KeepAlive =>
      LengthRoundTrip(0);
      assert s[..4] == PutU32(0) && s[4..] == rest;
    case Message(kind, ext, payload) =>
      var n := 2 + |payload|;
      LengthRoundTrip(n);
      assert s[..4] == PutU32(n) && s[4..] == [kind, ext] + payload + rest;
      assert s[5..4 + n] == [ext] + payload && s[4 + n..] == rest;
  }

  /** A message that does not fit is never read back: it fails, or a shorter one is read. */
  lemma ParseTooLong(it: Item, rest: seq<Byte>, maxMsgSize: int)
    requires !Fits(it, maxMsgSize)
    ensures var p := Parse(Frame(it) + rest, maxMsgSize); p.Failed? || p.msg != Seen(it)
  {
    hide PutU32, GetU32;
    var s, n := Frame(it) + rest, 2 + |it.payload|;
    LengthRoundTrip(n);
    assert s[..4] == PutU32(n);
    assert |Seen(it).payload| == n - 1;
  }

  function SeenAll(items: seq<Item>): seq<Received> {
    seq(|items|, i requires 0 <= i < |items| => Seen(items[i]))
  }

  /** What was sent is read back, message by message, exactly when every message fits. */
  lemma {:induction false} ReadsBack(items: seq<Item>, maxMsgSize: int)
    ensures Messages(Stream(items), maxMsgSize) == SeenAll(items)
            <==> forall it :: it in items ==> Fits(it, maxMsgSize)
  {
    if items != [] {
      var first, rest := items[0], items[1..];
      assert SeenAll(items) == [Seen(first)] + SeenAll(rest);
      assert items == [first] + rest;
      if Fits(first, maxMsgSize) {
        ParseFrame(first, Stream(rest), maxMsgSize);
        ReadsBack(rest, maxMsgSize);
        assert Messages(Stream(items), maxMsgSize)[1..] == Messages(Stream(rest), maxMsgSize);
        assert SeenAll(items)[1..] == SeenAll(rest);
      } else {
        ParseTooLong(first, Stream(rest), maxMsgSize);
        assert first in items && SeenAll(items)[0] == Seen(first);
      }
    }
  }

  // ----- the handshake

  const PSTRLEN: Byte := 0x13

  /** "BitTorrent protocol" */
  const PSTR: seq<Byte> := [0x42, 0x69, 0x74, 0x54, 0x6F, 0x72, 0x72, 0x65, 0x6E, 0x74, 0x20,
                            0x70, 0x72, 0x6F, 0x74, 0x6F, 0x63, 0x6F, 0x6C]

  datatype Hello = Hello(reserved: seq<Byte>, infohash: NodeId)

  function Copied(buf: seq<Byte>, at: nat, src: seq<Byte>): (r: seq<Byte>)
    requires at + |src| <= |buf|
    ensures |r| == |buf| && r[at..at + |src|] == src
    ensures r[..at] == buf[..at] && r[at + |src|..] == buf[at + |src|..]
  {
    buf[..at] + src + buf[at + |src|..]
  }

  const RESERVED: seq<Byte> := [0, 0, 0, 0, 0, 0x10, 0, 0]

  function HandshakeBytes(infohash: NodeId, peerId: NodeId): (s: seq<Byte>)
    ensures |s| == 68
  {
    [PSTRLEN] + PSTR + RESERVED + infohash + peerId
  }

  function SetExtensionBit(buf: seq<Byte>): (r: seq<Byte>)
    requires |buf| == 68
    ensures |r| == 68 && r[..20] == buf[..20]
    ensures buf[20..][..8] == [0, 0, 0, 0, 0, 0, 0, 0] ==> r[..28] == buf[..20] + RESERVED
  {
    var r := buf[25 := buf[25] | 0x10];
    assert buf[20..][..8] == [0, 0, 0, 0, 0, 0, 0, 0] ==> r[20..28] == RESERVED by {
      if buf[20..][..8] == [0, 0, 0, 0, 0, 0, 0, 0] {
        var t := buf[20..][..8];
        assert buf[20] == t[0] && buf[21] == t[1] && buf[22] == t[2] && buf[23] == t[3];
        assert buf[24] == t[4] && buf[25] == t[5] && buf[26] == t[6] && buf[27] == t[7];
        assert r[20..28] == [buf[20], buf[21], buf[22], buf[23], buf[24], buf[25] | 0x10, buf[26], buf[27]];
      }
    }
    assert r[..28] == r[..20] + r[20..28];
    r
  }

  /** The handshake, byte by byte. */
  lemma HandshakeLayout(infohash: NodeId, peerId: NodeId)
    ensures var s := HandshakeBytes(infohash, peerId);
      && |s| == 68 && s[0] == 19
      && (forall i :: 0 <= i < 19 ==> s[1 + i] as int == "BitTorrent protocol"[i] as int)
      && (forall i :: 20 <= i < 28 ==> s[i] == if i == 25 then 0x10 else 0)
      && s[28..48] == infohash && s[48..68] == peerId
  {
    var s := HandshakeBytes(infohash, peerId);
    assert forall i :: 0 <= i < 19 ==> s[1 + i] == PSTR[i];
    ProtocolName();
    assert forall i :: 20 <= i < 28 ==> s[i] == RESERVED[i - 20];
    assert s[28..48] == infohash && s[48..68] == peerId;
  }

  lemma ProtocolName()
    ensures |"BitTorrent protocol"| == |PSTR| == 19
    ensures forall i :: 0 <= i < 19 ==> PSTR[i] as int == "BitTorrent protocol"[i] as int
  {
  }

  method SendHandshake(w: Pipe, infohash: NodeId, peerId: NodeId)
    modifies w
    ensures w.bytes == old(w.bytes) + HandshakeBytes(infohash, peerId)
  {
    hide Copied;
    var buf := Zeros(68);
    buf := buf[0 := PSTRLEN];
    buf := Copied(buf, 1, PSTR);
    assert buf[..20] == [PSTRLEN] + PSTR by {
      assert buf[..1] == [PSTRLEN] && buf[..20] == buf[..1] + buf[1..20];
    }
    assert buf[20..][..8] == [0, 0, 0, 0, 0, 0, 0, 0];
    ghost var start := buf[..20];
    buf := SetExtensionBit(buf);
    buf := Copied(buf, 28, infohash);
    buf := Copied(buf, 48, peerId);
    assert buf == start + RESERVED + infohash + peerId by {
      assert buf[..48][..28] == start + RESERVED && buf[..48][28..] == infohash;
      assert buf == buf[..28] + buf[28..48] + buf[48..];
    }
    w.Write(buf);
  }

  /** Accepted: a full handshake with the right protocol string. */
  predicate IsHandshake(s: seq<Byte>) {
    |s| >= 68 && s[0] == PSTRLEN && s[1..20] == PSTR
  }

  method ReadHandshake(r: Pipe) returns (h: Option<Hello>)
    modifies r
    ensures h.Some? <==> old(IsHandshake(r.bytes))
    ensures h.Some? ==> h == Some(Hello(old(r.bytes)[20..28], old(r.bytes)[28..48])) && r.bytes == old(r.bytes)[68..]
  {
    var buf := r.ReadFull(68);
    assert buf.Some? ==> buf.value[1..20] == old(r.bytes)[1..20];
    if buf.None? || buf.value[0] != PSTRLEN || buf.value[1..20] != PSTR {
      return None;
    }
    assert buf.value[20..28] == old(r.bytes)[20..28] && buf.value[28..48] == old(r.bytes)[28..48];
    h := Some(Hello(buf.value[20..28], buf.value[28..48]));
  }

  /** A handshake is accepted, and read back with its infohash and with the extension bit set. */
  lemma HandshakeRoundTrip(infohash: NodeId, peerId: NodeId, rest: seq<Byte>)
    ensures var s := HandshakeBytes(infohash, peerId) + rest;
      IsHandshake(s) && s[20..28][5] & 0x10 != 0 && s[28..48] == infohash && s[68..] == rest
  {
    var s := HandshakeBytes(infohash, peerId) + rest;
    assert s[1..20] == PSTR && s[20..28] == RESERVED && s[28..48] == infohash && s[68..] == rest;
  }
}
