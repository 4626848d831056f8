/** The protocol's bytes, spelled out (communication/types.h). */
module Vectors {
  import opened Wrappers
  import opened Bytes
  import opened Messages
  import opened TlvViews
  import opened FMessages
  import opened Tools
  import opened Schedulers
  import C = Connections

  /** A segment with a short value. */
  function Short(kind: byte, value: seq<byte>): seq<byte>
    requires |value| < 256
  {
    [kind, 0, 0, 0, |value|] + value
  }

  lemma ShortIs(t: Tlv)
    requires |t.value| < 256
    ensures EncodeTlv(t) == Short(t.kind, t.value)
  {
    SmallLength(|t.value|);
  }

  lemma TwoSegments(msgType: byte, a: Tlv, b: Tlv)
    requires |a.value| < 256 && |b.value| < 256
    ensures EncodeMessage(msgType, [a, b]) == [msgType] + Short(a.kind, a.value) + Short(b.kind, b.value)
  {
    ShortIs(a);
    ShortIs(b);
    EncodeTlvsOne(b);
    EncodeCons(a, [b]);
    assert [a] + [b] == [a, b];
  }

  /** The type bytes of the three requests, and of their replies. */
  function TypeByte(kind: Kind): byte {
    match kind case Create => 1 case Update => 2 case Erase => 3
  }

  /** A positive reply: the request's type, the sign in a segment of type 2, an empty segment of type 4. */
  lemma PositiveReply(op: Op)
    requires |op.path| + 1 + |op.digest| < 256
    ensures var sign := op.path + [0] + op.digest;
            Confirmed(op.kind, op.Sign(), Some([TypeByte(op.kind)] + Short(2, sign) + Short(4, [])))
  {
    var ts := [Tlv(ITEM, op.Sign()), Tlv(OK, [])];
    TwoSegments(op.kind.MsgType(), ts[0], ts[1]);
    ConfirmsEncoding(op.kind.MsgType(), ts, op.kind, op.Sign());
  }

  /** A negative one, with a segment of type 5 in that place. */
  lemma NegativeReply(op: Op, code: seq<byte>)
    requires |op.path| + 1 + |op.digest| < 256 && |code| < 256
    ensures var sign := op.path + [0] + op.digest;
            !Confirmed(op.kind, op.Sign(), Some([TypeByte(op.kind)] + Short(2, sign) + Short(5, code)))
  {
    var ts := [Tlv(ITEM, op.Sign()), Tlv(ERROR, code)];
    TwoSegments(op.kind.MsgType(), ts[0], ts[1]);
    ConfirmsEncoding(op.kind.MsgType(), ts, op.kind, op.Sign());
  }

  /** The request of an ERASE. */
  lemma EraseRequestBytes(op: Op)
    requires op.kind == Erase && |op.path| + 1 + |op.digest| < 256
    ensures EncodeMessage(ERASE, [Tlv(ITEM, op.Sign()), END_TLV]) ==
            [3] + Short(2, op.path + [0] + op.digest) + [3, 0, 0, 0, 0]
  {
    TwoSegments(ERASE, Tlv(ITEM, op.Sign()), END_TLV);
  }

  /** The last chunk of an upload, when sign and chunk are short. */
  lemma LastChunkBytes(op: Op, chunk: seq<byte>)
    requires |op.path| + 1 + |op.digest| < 256 && |chunk| < 256
    ensures ChunkMessage(op.kind.MsgType(), op.Sign(), chunk, true) ==
            [TypeByte(op.kind)] + Short(2, op.path + [0] + op.digest) + Short(6, chunk) + [3, 0, 0, 0, 0]
  {
    var item, content := Tlv(ITEM, op.Sign()), Tlv(CONTENT, chunk);
    ChunkMessageBytes(op.kind.MsgType(), op.Sign(), chunk);
    ShortIs(item);
    ShortIs(content);
    ShortIs(END_TLV);
  }

  /** The frame of the request of `sync`: eight bytes of length, least significant first, then six of message. */
  lemma SyncRequestBytes()
    ensures C.FrameBytes(EncodeMessage(SYNC, [END_TLV])) == [6, 0, 0, 0, 0, 0, 0, 0, 4, 3, 0, 0, 0, 0]
  {
    hide BigEndian, LittleEndian;
    var request: seq<byte> := [4, 3, 0, 0, 0, 0];
    ShortIs(END_TLV);
    EncodeTlvsOne(END_TLV);
    assert EncodeMessage(SYNC, [END_TLV]) == request;
    SmallHeader(6);
    assert C.FrameBytes(request) == [6, 0, 0, 0, 0, 0, 0, 0] + request;
  }

  lemma SmallHeader(n: nat)
    requires n < 256
    ensures LittleEndian(n, HEADER_SIZE) == [n, 0, 0, 0, 0, 0, 0, 0]
  {
    hide LittleEndian, Pow256;
    forall i | 0 <= i < 8
      ensures LittleEndian(n, 8)[i] == if i == 0 then n else 0
    {
      LittleEndianAt(n, 8, i);
      Weights(i);
    }
  }

  lemma Weights(i: nat)
    ensures Pow256(0) == 1 && (i > 0 ==> Pow256(i) >= 256)
  {
  }

  /** The answer by which the server refuses `sync`, and an empty listing. */
  lemma SyncAnswers(code: seq<byte>)
    requires |code| < 256
    ensures !Listing([4] + Short(5, code) + [3, 0, 0, 0, 0])
    ensures Listing([4, 3, 0, 0, 0, 0])
  {
    TwoSegments(SYNC, Tlv(ERROR, code), END_TLV);
    ListingEncoding(SYNC, [Tlv(ERROR, code), END_TLV]);
    hide BigEndian;
    ShortIs(END_TLV);
    EncodeTlvsOne(END_TLV);
    assert EncodeMessage(SYNC, [END_TLV]) == [4, 3, 0, 0, 0, 0];
    ListingEncoding(SYNC, [END_TLV]);
  }

  /** The shortest response there is: a frame of the five bytes that end a response. */
  lemma ShortestResponse(rest: seq<byte>)
    ensures C.Receive([5, 0, 0, 0, 0, 0, 0, 0, 3, 0, 0, 0, 0] + rest, [], true) == C.Received([3, 0, 0, 0, 0], rest)
  {
    var payload: seq<byte> := [3, 0, 0, 0, 0];
    SmallHeader(5);
    assert [5, 0, 0, 0, 0, 0, 0, 0, 3, 0, 0, 0, 0] == C.FrameBytes(payload);
    C.ReceiveFrame(payload, rest, [], true);
    assert payload[0..] == payload && [] + payload == payload;
  }
}
