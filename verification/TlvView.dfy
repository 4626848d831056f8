/** The TLV iterator (communication/tlv_view.cpp). */
module TlvViews {
  import opened Wrappers
  import opened Bytes
  import opened Messages

  /** The five bytes of an empty END segment. */
  const END_BYTES: seq<byte> := [END, 0, 0, 0, 0]

  ghost predicate EndsWithEnd(raw: seq<byte>) {
    |raw| >= 5 && raw[|raw| - 5..] == END_BYTES
  }

  /** Buffers on which the comparison stays inside: it needs five bytes only if it meets nothing but zeros. */
  ghost predicate Comparable(raw: seq<byte>) {
    |raw| >= 5 || exists i :: 0 <= i < |raw| && raw[i] != 0
  }

  /** A message buffer the iterator can walk: a type byte and whole segments. */
  ghost predicate WellFormed(raw: seq<byte>) {
    raw != [] && Parse(raw[1..]).Some?
  }

  ghost function Segments(raw: seq<byte>): seq<Tlv>
    requires WellFormed(raw)
  {
    Parse(raw[1..]).value
  }

  lemma WellFormedEncoding(msgType: byte, ts: seq<Tlv>)
    requires Fits(ts)
    ensures WellFormed(EncodeMessage(msgType, ts)) && Segments(EncodeMessage(msgType, ts)) == ts
  {
    assert EncodeMessage(msgType, ts)[1..] == EncodeTlvs(ts);
    ParseEncoded(ts);
  }

  /** One step of the iteration over a buffer whose bytes from `at` on are whole segments. */
  lemma Advance(raw: seq<byte>, at: nat)
    requires at < |raw| && Parse(raw[at..]).Some?
    ensures at + 5 <= |raw|
    ensures var n := DecodeLength(raw[at + 1..at + 5]);
            && at + 5 + n <= |raw|
            && Parse(raw[at + 5 + n..]).Some?
            && Parse(raw[at..]).value ==
               [Tlv(raw[at], raw[at + 5..at + 5 + n])] + Parse(raw[at + 5 + n..]).value
  {
    var unread := raw[at..];
    ParsedHead(unread);
    SliceOfSuffix(raw, at, 1, 5);
    var n := DecodeLength(unread[1..5]);
    SliceOfSuffix(raw, at, 5, 5 + n);
    SuffixOfSuffix(raw, at, 5 + n);
  }

  lemma NothingLeft(raw: seq<byte>)
    ensures Parse(raw[|raw|..]) == Some([])
  {
  }

  class TlvView {
    const raw: seq<byte>
    var tlvType: byte
    var length: size_t
    var dataBegin: nat
    var dataEnd: nat
    var valid: bool
    var finished: bool

    ghost predicate Valid()
      reads this
    {
      && 1 <= dataBegin <= dataEnd <= |raw|
      && Parse(raw[dataEnd..]).Some?
      && (finished ==> !valid && dataEnd == |raw|)
      && (valid ==> length == dataEnd - dataBegin)
    }

    /** The segments the iterator has still to show. */
    ghost function Remaining(): seq<Tlv>
      requires Valid()
      reads this
    {
      Parse(raw[dataEnd..]).value
    }

    /** The segment the iterator shows. */
    ghost function Current(): Tlv
      requires valid && dataBegin <= dataEnd <= |raw|
      reads this
    {
      Tlv(tlvType, raw[dataBegin..dataEnd])
    }

    constructor (msg: Message)
      requires msg.raw != []
      ensures raw == msg.raw && !valid && !finished
      ensures WellFormed(raw) ==> Valid() && Remaining() == Segments(raw)
    {
      raw := msg.raw;
      tlvType, length := 0, 0;
      dataBegin, dataEnd := 1, 1;
      valid, finished := false, false;
    }

    method NextTlv() returns (more: bool)
      requires Valid()
      modifies this
      ensures Valid()
      ensures more == (!old(finished) && old(Remaining()) != [])
      ensures more ==>
                && valid && !finished
                && old(Remaining()) == [Current()] + Remaining()
                && |raw| - dataEnd <= |raw| - old(dataEnd) - 5
      ensures !more ==> finished && !valid && Remaining() == []
    {
      hide Parse, DecodeLength;
      NothingLeft(raw);
      if finished {
        return false;
      }
      dataBegin := dataEnd;
      if dataBegin == |raw| {
        finished, valid := true, false;
        return false;
      }
      Advance(raw, dataBegin);
      tlvType := raw[dataBegin];
      dataBegin := dataBegin + 1;
      ReadLength();
      dataEnd := dataBegin + length;
      valid := true;
      more := true;
    }

    /** The four additions that rebuild the length. */
    method ReadLength()
      requires dataBegin + 4 <= |raw|
      modifies this`length, this`dataBegin
      ensures dataBegin == old(dataBegin) + 4
      ensures length == DecodeLength(raw[old(dataBegin)..dataBegin])
    {
      length := 0;
      ghost var start := dataBegin;
      for i := 0 to 4
        invariant dataBegin == start + i
        invariant length == DecodePrefix(raw[start..start + 4], i)
      {
        length := AddShifted(length, raw[dataBegin], i);
        dataBegin := dataBegin + 1;
      }
    }

    /** The guarded getter `tlv_type`: the exception on an invalid view is `None`. */
    function TlvType(): Option<byte>
      reads this
    {
      if valid then Some(tlvType) else None
    }

    /** The bytes between the guarded `cbegin` and `cend`. */
    function Value(): Option<seq<byte>>
      requires valid ==> dataBegin <= dataEnd <= |raw|
      reads this
    {
      if valid then Some(raw[dataBegin..dataEnd]) else None
    }

    /** Looks at the last five bytes of the buffer at most, from the back, and stops at the first that differs. */
    method VerifyEnd() returns (ended: bool)
      requires Comparable(raw)
      ensures ended <==> EndsWithEnd(raw)
    {
      var ptr := |raw| - 1;
      for i := 0 to 4
        invariant ptr == |raw| - 1 - i >= 0
        invariant forall k :: ptr < k < |raw| ==> raw[k] == 0
      {
        if raw[ptr] != 0 {
          assert |raw| >= 5 ==> raw[|raw| - 5..][4 - i] != 0 == END_BYTES[4 - i];
          return false;
        }
        ptr := ptr - 1;
      }
      if raw[ptr] != END {
        assert raw[|raw| - 5..][0] != END_BYTES[0];
        return false;
      } else {
        return true;
      }
    }
  }

  /** The loop of the printing operator, collecting the segments it prints. */
  method Collect(msg: Message) returns (ts: seq<Tlv>)
    requires WellFormed(msg.raw)
    ensures ts == Segments(msg.raw)
  {
    hide Parse;
    ghost var all := Segments(msg.raw);
    var view := new TlvView(msg);
    ts := [];
    var more := view.NextTlv();
    while more
      invariant fresh(view) && view.Valid() && view.raw == msg.raw
      invariant more ==> view.valid && all == ts + ([view.Current()] + view.Remaining())
      invariant !more ==> all == ts
      decreases |all| - |ts|, more
    {
      var shown := Tlv(view.tlvType, view.raw[view.dataBegin..view.dataEnd]);
      ts := ts + [shown];
      assert all == ts + view.Remaining();
      more := view.NextTlv();
    }
  }

  // ---------------------------------------------------------------- meaning of verify_end

  /** A non-empty segment value that ends like an empty END segment. */
  ghost predicate LooksLikeEnd(value: seq<byte>) {
    |value| >= 5 && value[|value| - 5..] == END_BYTES
  }

  lemma LastSegmentIsSuffix(ts: seq<Tlv>)
    requires ts != []
    ensures EncodeTlvs(ts) == EncodeTlvs(ts[..|ts| - 1]) + EncodeTlv(ts[|ts| - 1])
  {
    var front, last := ts[..|ts| - 1], ts[|ts| - 1];
    assert ts == front + [last];
    EncodeTlvsAppend(front, [last]);
    EncodeTlvsOne(last);
  }

  /** `verify_end` answers true for a real END at the end, and for a last value that merely looks like one. */
  lemma VerifyEndMeaning(msgType: byte, ts: seq<Tlv>)
    requires ts != [] && Fits(ts)
    ensures var last := ts[|ts| - 1];
            EndsWithEnd(EncodeMessage(msgType, ts)) <==> last == END_TLV || LooksLikeEnd(last.value)
  {
    var last := ts[|ts| - 1];
    LastSegmentIsSuffix(ts);
    var front := [msgType] + EncodeTlvs(ts[..|ts| - 1]);
    assert EncodeMessage(msgType, ts) == front + EncodeTlv(last);
    SuffixOfAppend(front, EncodeTlv(last));
    EndOfSegment(last);
  }

  lemma SuffixOfAppend(a: seq<byte>, b: seq<byte>)
    requires |b| >= 5
    ensures (a + b)[|a + b| - 5..] == b[|b| - 5..]
  {
  }

  lemma EndOfSegment(t: Tlv)
    ensures EncodeTlv(t)[|t.value|..] == END_BYTES <==> t == END_TLV || LooksLikeEnd(t.value)
  {
    var v, tail := t.value, EncodeTlv(t);
    if |v| >= 5 {
      assert tail[|v|..] == v[|v| - 5..];
    } else {
      SmallLength(|v|);
      assert tail[|v|..][0] == tail[|v|];
    }
  }

  /** The comparison is exact on messages whose last value, if any, does not end in a zero byte. */
  lemma VerifyEndExact(msgType: byte, ts: seq<Tlv>)
    requires ts != [] && Fits(ts)
    requires var v := ts[|ts| - 1].value; v != [] ==> v[|v| - 1] != 0
    ensures EndsWithEnd(EncodeMessage(msgType, ts)) <==> ts[|ts| - 1] == END_TLV
  {
    VerifyEndMeaning(msgType, ts);
    var v := ts[|ts| - 1].value;
    if |v| >= 5 {
      assert v[|v| - 5..][4] == v[|v| - 1];
    }
  }

  /** The suffix comparison is fooled: a message without an END segment that passes it. */
  lemma VerifyEndFooled()
    ensures exists ts: seq<Tlv> ::
              Fits(ts) && ts != [] && END_TLV !in ts && EndsWithEnd(EncodeMessage(SYNC, ts))
  {
    var ts := [Tlv(CONTENT, END_BYTES)];
    VerifyEndMeaning(SYNC, ts);
    assert END_BYTES[|END_BYTES| - 5..] == END_BYTES;
    assert LooksLikeEnd(ts[|ts| - 1].value);
  }
}
