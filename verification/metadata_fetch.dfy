/**
 The piece loop of `metadata/fetch.go`: one request at a time, the first matching reply taken, everything
 else on the connection skipped. Bencoding is left abstract.
 */
module MetadataFetch {

  import opened Common
  import opened NodeIds
  import opened Compact
  import opened PeerWire

  const PIECE: nat := 16384

  /** A decoded reply header and the bytes after it. */
  datatype Decoded = Decoded(kind: int, piece: int, rest: seq<Byte>)

  type Decoder = seq<Byte> -> Option<Decoded>

  /** The piece that `m` carries as an answer to request `i`, if it is one. */
  function PieceData(m: Received, i: nat, decode: Decoder): Option<seq<Byte>> {
    if m.kind != 20 || m.payload == [] || m.payload[0] == 0 then None
    else
      match decode(m.payload[1..])
      case None => None
      case Some(d) => if d.kind != 1 || d.piece != i then None else Some(d.rest)
  }

  /** `m` is an extension message, not a handshake, that decodes to data (type 1) for piece `i`, and `x` is what follows. */
  ghost predicate Carries(m: Received, i: nat, x: seq<Byte>, decode: Decoder) {
    && m.kind == 20 && |m.payload| > 0 && m.payload[0] != 0
    && decode(m.payload[1..]) == Some(Decoded(1, i, x))
  }

  lemma PieceDataIs(m: Received, i: nat, decode: Decoder)
    ensures forall x :: PieceData(m, i, decode) == Some(x) <==> Carries(m, i, x, decode)
  {
  }

  function Prepend(s: seq<Byte>, r: Option<seq<Byte>>): Option<seq<Byte>> {
    match r
    case None => None
    case Some(t) => Some(s + t)
  }

  /** Pieces `i` to `n - 1`, each from the first message that answers its request. */
  function Assemble(ms: seq<Received>, i: nat, n: nat, decode: Decoder): Option<seq<Byte>>
    decreases |ms|
  {
    if i >= n then Some([])
    else if ms == [] then None
    else
      match PieceData(ms[0], i, decode)
      case None => Assemble(ms[1..], i, n, decode)
      case Some(d) => Prepend(d, Assemble(ms[1..], i + 1, n, decode))
  }

  function NumPieces(totalSize: nat): nat {
    (totalSize + PIECE - 1) / PIECE
  }

  function Requests(n: nat, ext: Byte, encode: nat -> seq<Byte>): seq<Byte> {
    if n == 0 then [] else Requests(n - 1, ext, encode) + Frame(Message(20, ext, encode(n - 1)))
  }

  method FetchPieces(r: Pipe, w: Pipe, extId: int, totalSize: int, maxMsgSize: int, maxMetadataSize: int,
                     encode: nat -> seq<Byte>, decode: Decoder)
    returns (assembled: Option<seq<Byte>>)
    requires r != w
    modifies r, w
    ensures extId == 0 || totalSize <= 0 || totalSize > maxMetadataSize ==>
              assembled == None && w.bytes == old(w.bytes) && r.bytes == old(r.bytes)
    ensures extId != 0 && 0 < totalSize <= maxMetadataSize ==>
              assembled == Assemble(Messages(old(r.bytes), maxMsgSize), 0, NumPieces(totalSize), decode)
    ensures assembled.Some? ==>
              w.bytes == old(w.bytes) + Requests(NumPieces(totalSize), ToByte(extId % 256), encode)
  {
    hide Parse, Frame, Messages, Assemble;
    if extId == 0 || totalSize <= 0 || totalSize > maxMetadataSize {
      return None;
    }
    var n := NumPieces(totalSize);
    var data := [];
    ghost var all := Messages(r.bytes, maxMsgSize);
    PrependNothing(Assemble(all, 0, n, decode));
    for i := 0 to n
      invariant Assemble(all, 0, n, decode) == Prepend(data, Assemble(Messages(r.bytes, maxMsgSize), i, n, decode))
      invariant w.bytes == old(w.bytes) + Requests(i, ToByte(extId % 256), encode)
    {
      SendMsg(w, 20, ToByte(extId % 256), encode(i));
      var d := AwaitPiece(r, i, maxMsgSize, decode, n);
      if d.None? {
        return None;
      }
      PrependTwice(data, d.value, Assemble(Messages(r.bytes, maxMsgSize), i + 1, n, decode));
      data := data + d.value;
    }
    AssembleNothing(Messages(r.bytes, maxMsgSize), n, decode);
    PrependAll(data);
    return Some(data);
  }

  /** Reads until a message answers request `i`. */
  method AwaitPiece(r: Pipe, i: nat, maxMsgSize: int, decode: Decoder, ghost n: nat) returns (d: Option<seq<Byte>>)
    requires i < n
    modifies r
    ensures Assemble(Messages(old(r.bytes), maxMsgSize), i, n, decode) ==
            match d
            case None => None
            case Some(x) => Prepend(x, Assemble(Messages(r.bytes, maxMsgSize), i + 1, n, decode))
  {
    hide Messages, PieceData, Parse;
    while true
      invariant Assemble(Messages(old(r.bytes), maxMsgSize), i, n, decode)
             == Assemble(Messages(r.bytes, maxMsgSize), i, n, decode)
      decreases |r.bytes|
    {
      MessagesStep(r.bytes, maxMsgSize);
      var m := ReadMsg(r, maxMsgSize);
      if m.None? {
        return None;
      }
      d := PieceData(m.value, i, decode);
      if d.Some? {
        return d;
      }
    }
  }

  lemma AssembleNothing(ms: seq<Received>, n: nat, decode: Decoder)
    ensures Assemble(ms, n, n, decode) == Some([])
  {
  }

  lemma MessagesStep(s: seq<Byte>, maxMsgSize: int)
    ensures match Parse(s, maxMsgSize)
            case Failed => Messages(s, maxMsgSize) == []
            case Parsed(msg, rest) =>
              && Messages(s, maxMsgSize) == [msg] + Messages(rest, maxMsgSize)
              && Messages(s, maxMsgSize)[1..] == Messages(rest, maxMsgSize)
  {
  }

  lemma PrependNothing(r: Option<seq<Byte>>)
    ensures Prepend([], r) == r
  {
    if r.Some? {
      assert [] + r.value == r.value;
    }
  }

  lemma PrependAll(s: seq<Byte>)
    ensures Prepend(s, Some([])) == Some(s)
  {
    assert s + [] == s;
  }

  lemma PrependTwice(s: seq<Byte>, t: seq<Byte>, r: Option<seq<Byte>>)
    ensures Prepend(s, Prepend(t, r)) == Prepend(s + t, r)
  {
    if r.Some? {
      assert s + (t + r.value) == s + t + r.value;
    }
  }

  /** The requests as messages, in order: one for each piece. */
  function RequestItems(n: nat, ext: Byte, encode: nat -> seq<Byte>): seq<Item> {
    seq(n, i requires 0 <= i < n => Message(20, ext, encode(i)))
  }

  lemma {:induction false} StreamSnoc(items: seq<Item>, it: Item)
    ensures Stream(items + [it]) == Stream(items) + Frame(it)
  {
    hide Frame;
    if items == [] {
      assert [it][1..] == [] && items + [it] == [it];
    } else {
      assert (items + [it])[1..] == items[1..] + [it];
      StreamSnoc(items[1..], it);
    }
  }

  lemma {:induction false} RequestsAreMessages(n: nat, ext: Byte, encode: nat -> seq<Byte>)
    ensures Requests(n, ext, encode) == Stream(RequestItems(n, ext, encode))
  {
    hide Frame;
    if n > 0 {
      RequestsAreMessages(n - 1, ext, encode);
      assert RequestItems(n, ext, encode) == RequestItems(n - 1, ext, encode) + [Message(20, ext, encode(n - 1))];
      StreamSnoc(RequestItems(n - 1, ext, encode), Message(20, ext, encode(n - 1)));
    }
  }

  /** The peer reads one request for each piece, in order, each with its extension id and its own number. */
  lemma RequestsReadBack(n: nat, ext: Byte, encode: nat -> seq<Byte>, maxMsgSize: int)
    requires forall i :: 0 <= i < n ==> 2 + |encode(i)| <= maxMsgSize % U32
    ensures var ms := Messages(Requests(n, ext, encode), maxMsgSize);
      |ms| == n && forall i :: 0 <= i < n ==> ms[i] == Received(20, [ext] + encode(i))
  {
    RequestsAreMessages(n, ext, encode);
    ReadsBack(RequestItems(n, ext, encode), maxMsgSize);
    hide Messages, Stream, Requests;
  }

  // ----- what comes out is the metadata

  /** The `i`-th piece of `data`; the last one may be shorter. */
  function Slice(data: seq<Byte>, i: nat): seq<Byte>
    requires i < NumPieces(|data|)
  {
    data[i * PIECE..if (i + 1) * PIECE <= |data| then (i + 1) * PIECE else |data|]
  }

  /** The pieces cover the data exactly, and none is empty. */
  lemma SlicesCover(data: seq<Byte>, i: nat)
    requires i < NumPieces(|data|)
    ensures 0 < |Slice(data, i)| <= 16384
    ensures 16384 * i + |Slice(data, i)| <= |data| && Slice(data, i) == data[16384 * i..16384 * i + |Slice(data, i)|]
    ensures i + 1 < NumPieces(|data|) ==> |Slice(data, i)| == 16384
    ensures if i + 1 < NumPieces(|data|) then
              (i + 1) * PIECE <= |data| && Slice(data, i) + data[(i + 1) * PIECE..] == data[i * PIECE..]
            else
              Slice(data, i) == data[i * PIECE..]
  {
  }

  /** The place after the answer to the request before `i`. */
  function After(at: seq<nat>, i: nat): nat
    requires i <= |at|
  {
    if i == 0 then 0 else at[i - 1] + 1
  }

  /** `at[i]` is the place of the first answer to request `i`, and it carries the `i`-th piece. */
  ghost predicate Answers(ms: seq<Received>, at: seq<nat>, data: seq<Byte>, decode: Decoder) {
    && |at| == NumPieces(|data|)
    && (forall i :: 0 <= i < |at| ==> at[i] < |ms| && Carries(ms[at[i]], i, Slice(data, i), decode))
    && (forall i :: 0 <= i < |at| ==> After(at, i) <= at[i])
    && (forall i, k, x :: 0 <= i < |at| && After(at, i) <= k < at[i] ==> !Carries(ms[k], i, x, decode))
  }

  lemma {:induction false} AnswersAssemble(ms: seq<Received>, at: seq<nat>, data: seq<Byte>, decode: Decoder,
                                           i: nat, p: nat)
    requires Answers(ms, at, data, decode) && i < |at| && After(at, i) <= p <= at[i]
    ensures Assemble(ms[p..], i, |at|, decode) == Some(data[i * PIECE..])
    decreases |ms| - p
  {
    hide PieceData, Slice, Carries;
    PieceDataIs(ms[p], i, decode);
    assert ms[p..][0] == ms[p] && ms[p..][1..] == ms[p + 1..];
    if p < at[i] {
      AnswersAssemble(ms, at, data, decode, i, p + 1);
    } else {
      SlicesCover(data, i);
      if i + 1 < |at| {
        AnswersAssemble(ms, at, data, decode, i + 1, p + 1);
      } else {
        PrependAll(Slice(data, i));
      }
    }
  }

  /**
   Whatever else is mixed in, and however the answers are spread, the loop returns the metadata when the
   first answer to each request carries its piece.
   */
  lemma FetchesMetadata(items: seq<Item>, at: seq<nat>, data: seq<Byte>, maxMsgSize: int, decode: Decoder)
    requires data != [] && Answers(SeenAll(items), at, data, decode)
    requires forall it :: it in items ==> Fits(it, maxMsgSize)
    ensures Assemble(Messages(Stream(items), maxMsgSize), 0, NumPieces(|data|), decode) == Some(data)
  {
    ReadsBack(items, maxMsgSize);
    AnswersAssemble(SeenAll(items), at, data, decode, 0, 0);
    assert SeenAll(items)[0..] == SeenAll(items) && data[0..] == data;
  }

  /** No message answers a request with anything but its piece. */
  ghost predicate Honest(ms: seq<Received>, data: seq<Byte>, decode: Decoder) {
    forall m, i, x :: m in ms && 0 <= i < NumPieces(|data|) && Carries(m, i, x, decode) ==> x == Slice(data, i)
  }

  /** From an honest peer the loop never returns anything but the metadata, on any bytes, cut off or not. */
  lemma {:induction false} NeverWrong(ms: seq<Received>, data: seq<Byte>, decode: Decoder, i: nat)
    requires Honest(ms, data, decode) && i < NumPieces(|data|)
    ensures var r := Assemble(ms, i, NumPieces(|data|), decode); r.None? || r.value == data[i * PIECE..]
    decreases |ms|
  {
    hide PieceData, Slice, Carries;
    if ms != [] {
      var n := NumPieces(|data|);
      PieceDataIs(ms[0], i, decode);
      assert ms[0] in ms;
      assert forall m :: m in ms[1..] ==> m in ms;
      match PieceData(ms[0], i, decode)
      case None =>
        NeverWrong(ms[1..], data, decode, i);
      case Some(d) =>
        SlicesCover(data, i);
        assert d == Slice(data, i);
        if i + 1 < n {
          NeverWrong(ms[1..], data, decode, i + 1);
        } else {
          PrependAll(d);
        }
    }
  }
}
