/** Messages: one type byte followed by TLV segments (communication/message.cpp). */
module Messages {
  import opened Wrappers
  import opened Bytes

  // message types
  const CREATE: byte := 1
  const UPDATE: byte := 2
  const ERASE: byte := 3
  const SYNC: byte := 4

  // TLV types
  const ITEM: byte := 2
  const END: byte := 3
  const OK: byte := 4
  const ERROR: byte := 5
  const CONTENT: byte := 6

  datatype Tlv = Tlv(kind: byte, value: seq<byte>)

  const END_TLV := Tlv(END, [])

  /** The values `add_TLV` and the parser can carry: its loop counter and its length are 32-bit signed. */
  ghost predicate Fits(ts: seq<Tlv>) {
    forall t :: t in ts ==> |t.value| < TWO_31
  }

  function EncodeTlv(t: Tlv): seq<byte> {
    [t.kind] + BigEndian(|t.value|) + t.value
  }

  function EncodeTlvs(ts: seq<Tlv>): seq<byte> {
    if ts == [] then [] else EncodeTlv(ts[0]) + EncodeTlvs(ts[1..])
  }

  function EncodeMessage(msgType: byte, ts: seq<Tlv>): seq<byte> {
    [msgType] + EncodeTlvs(ts)
  }

  /** The segments of a byte string, or `None` when it is not a whole number of them. */
  function Parse(bs: seq<byte>): Option<seq<Tlv>> {
    if bs == [] then Some([])
    else if |bs| < 5 then None
    else
      var n := DecodeLength(bs[1..5]);
      if n >= TWO_31 || |bs| < 5 + n then None
      else
        var rest := Parse(bs[5 + n..]);
        if rest.None? then None else Some([Tlv(bs[0], bs[5..5 + n])] + rest.value)
  }

  lemma {:induction false} EncodeTlvsAppend(a: seq<Tlv>, b: seq<Tlv>)
    ensures EncodeTlvs(a + b) == EncodeTlvs(a) + EncodeTlvs(b)
  {
    if a == [] {
      assert a + b == b;
    } else {
      assert (a + b)[1..] == a[1..] + b;
      EncodeTlvsAppend(a[1..], b);
    }
  }

  lemma EncodeTlvsOne(t: Tlv)
    ensures EncodeTlvs([t]) == EncodeTlv(t)
  {
    assert EncodeTlvs([t][1..]) == [];
  }

  lemma {:induction false} EncodeTlvsSize(ts: seq<Tlv>)
    ensures |EncodeTlvs(ts)| >= 5 * |ts|
  {
    if ts != [] {
      EncodeTlvsSize(ts[1..]);
    }
  }

  /** Reading back the first segment of an encoding. */
  lemma EncodedHead(t: Tlv, tail: seq<byte>)
    requires |t.value| < TWO_31
    ensures var bs := EncodeTlv(t) + tail;
            && DecodeLength(bs[1..5]) == |t.value|
            && bs[0] == t.kind && bs[5..5 + |t.value|] == t.value && bs[5 + |t.value|..] == tail
  {
    var bs := EncodeTlv(t) + tail;
    assert bs[1..5] == BigEndian(|t.value|);
    LengthSurvives(|t.value|);
  }

  /** Parsing undoes encoding ... */
  lemma {:induction false} ParseEncoded(ts: seq<Tlv>)
    requires Fits(ts)
    ensures Parse(EncodeTlvs(ts)) == Some(ts)
  {
    if ts != [] {
      EncodedHead(ts[0], EncodeTlvs(ts[1..]));
      ParseEncoded(ts[1..]);
      assert ts == [ts[0]] + ts[1..];
    }
  }

  /** The first segment of a parsed byte string, and what is left after it. */
  lemma ParsedHead(bs: seq<byte>)
    requires Parse(bs).Some? && bs != []
    ensures |bs| >= 5
    ensures var n := DecodeLength(bs[1..5]);
            && n < TWO_31 && 5 + n <= |bs|
            && Parse(bs[5 + n..]).Some?
            && Parse(bs).value == [Tlv(bs[0], bs[5..5 + n])] + Parse(bs[5 + n..]).value
  {
  }

  lemma SegmentBytes(bs: seq<byte>, n: nat)
    requires 5 + n <= |bs| && BigEndian(n) == bs[1..5]
    ensures EncodeTlv(Tlv(bs[0], bs[5..5 + n])) + bs[5 + n..] == bs
  {
    assert bs == [bs[0]] + bs[1..5] + bs[5..5 + n] + bs[5 + n..];
  }

  /** ... and encoding undoes parsing, so `Parse` accepts exactly the encodings. */
  lemma {:induction false} EncodeParsed(bs: seq<byte>)
    requires Parse(bs).Some?
    ensures EncodeTlvs(Parse(bs).value) == bs && Fits(Parse(bs).value)
    decreases |bs|
  {
    if bs != [] {
      ParsedHead(bs);
      var n := DecodeLength(bs[1..5]);
      var head, tail := Tlv(bs[0], bs[5..5 + n]), Parse(bs[5 + n..]).value;
      EncodeParsed(bs[5 + n..]);
      LengthBytesRecovered(bs[1..5]);
      SegmentBytes(bs, n);
      EncodeCons(head, tail);
    }
  }

  lemma EncodeCons(t: Tlv, ts: seq<Tlv>)
    ensures EncodeTlvs([t] + ts) == EncodeTlv(t) + EncodeTlvs(ts)
  {
    assert ([t] + ts)[1..] == ts;
  }

  /** A growing byte buffer; the C++ object shares it through a pointer. */
  class Message {
    var raw: seq<byte>

    constructor (msgType: byte)
      ensures raw == [msgType]
    {
      raw := [msgType];
    }

    constructor FromBuffer(buffer: seq<byte>)
      ensures raw == buffer
    {
      raw := buffer;
    }

    method AddTlv(kind: byte, value: seq<byte> := [])
      requires |value| < TWO_31
      modifies this
      ensures raw == old(raw) + EncodeTlv(Tlv(kind, value))
    {
      raw := raw + [kind];
      for i := 0 to 4
        invariant raw == old(raw) + [kind] + BigEndian(|value|)[..i]
      {
        raw := raw + [LengthByte(|value|, i)];
      }
      for i := 0 to |value|
        invariant raw == old(raw) + [kind] + BigEndian(|value|) + value[..i]
      {
        raw := raw + [value[i]];
      }
    }

    /** `std::vector::resize`: cut the tail off, or pad with zeros. */
    method Resize(length: nat)
      modifies this
      ensures |raw| == length
      ensures length <= |old(raw)| ==> raw == old(raw)[..length]
      ensures |old(raw)| <= length ==> old(raw) <= raw && forall i :: |old(raw)| <= i < length ==> raw[i] == 0
    {
      if length <= |raw| {
        raw := raw[..length];
      } else {
        raw := raw + seq(length - |raw|, _ => 0);
      }
    }

    /** The getter `msg_type`; the buffer of a message is never empty. */
    function MsgType(): byte
      requires raw != []
      reads this
    {
      raw[0]
    }
  }
}
