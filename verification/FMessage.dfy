/** The in-place file chunker (communication/f_message.cpp). */
module FMessages {
  import opened Wrappers
  import opened Bytes
  import opened Messages
  import opened TlvViews

  const CHUNK_SIZE: nat := 4096

  /** `tellg` on a stream that failed to open, converted to `size_t`. */
  const NO_SIZE: nat := 0xFFFF_FFFF_FFFF_FFFF

  /** Signs for which the buffer arithmetic stays inside the 4096 bytes. */
  predicate SignFits(sign: seq<byte>) {
    1 + 5 + |sign| + 10 <= CHUNK_SIZE
  }

  /** These are the signs with which the message of an empty file fits the buffer. */
  lemma SignFitsIff(msgType: byte, sign: seq<byte>)
    ensures SignFits(sign) <==> |ChunkMessage(msgType, sign, [], true)| <= 4096
  {
    ChunkMessageBytes(msgType, sign, []);
  }

  /** Content bytes of a full chunk. */
  function Capacity(sign: seq<byte>): (c: nat)
    requires SignFits(sign)
    ensures 5 <= c <= CHUNK_SIZE - 11
  {
    CHUNK_SIZE - (6 + |sign|) - 5
  }

  function Header(msgType: byte, sign: seq<byte>): seq<byte> {
    [msgType] + EncodeTlv(Tlv(ITEM, sign))
  }

  function ChunkTlvs(sign: seq<byte>, chunk: seq<byte>, last: bool): seq<Tlv> {
    [Tlv(ITEM, sign), Tlv(CONTENT, chunk)] + if last then [END_TLV] else []
  }

  /** The message that carries one chunk. */
  function ChunkMessage(msgType: byte, sign: seq<byte>, chunk: seq<byte>, last: bool): seq<byte> {
    EncodeMessage(msgType, ChunkTlvs(sign, chunk, last))
  }

  function ChunkBody(msgType: byte, sign: seq<byte>, chunk: seq<byte>): seq<byte> {
    Header(msgType, sign) + [CONTENT] + BigEndian(|chunk|) + chunk
  }

  lemma ChunkMessageBytes(msgType: byte, sign: seq<byte>, chunk: seq<byte>)
    ensures ChunkMessage(msgType, sign, chunk, false) ==
            ChunkBody(msgType, sign, chunk)
    ensures ChunkMessage(msgType, sign, chunk, true) ==
            ChunkBody(msgType, sign, chunk) + EncodeTlv(END_TLV)
    ensures |ChunkBody(msgType, sign, chunk)| == 6 + |sign| + 5 + |chunk|
  {
    var item, content := Tlv(ITEM, sign), Tlv(CONTENT, chunk);
    EncodeTlvsOne(content);
    EncodeCons(item, [content]);
    EncodeTlvsOne(END_TLV);
    EncodeCons(content, [END_TLV]);
    EncodeCons(item, [content, END_TLV]);
    assert ChunkTlvs(sign, chunk, false) == [item] + [content];
    assert ChunkTlvs(sign, chunk, true) == [item] + ([content] + [END_TLV]);
  }

  lemma ChunkMessageType(msgType: byte, sign: seq<byte>, chunk: seq<byte>)
    ensures ChunkMessage(msgType, sign, chunk, false)[0] == msgType == ChunkMessage(msgType, sign, chunk, true)[0]
  {
  }

  datatype ChunkStatus = Ready | Exhausted | UnexpectedEof

  class FMessage {
    const msg: Message
    const msgType: byte
    const sign: seq<byte>
    const file: Option<seq<byte>>  // what the stream reads; `None` when it could not be opened
    var good: bool                 // the stream state
    var pos: nat                   // the stream position
    var fContent: nat              // where the length of the CONTENT segment starts
    var headerSize: nat
    var remaining: nat
    var completed: bool

    /** The bytes of the file the stream has still to deliver. */
    ghost function Unread(): seq<byte>
      requires good ==> file.Some? && pos <= |file.value|
      reads this
    {
      if good then file.value[pos..] else []
    }

    ghost predicate Valid()
      reads this, msg
    {
      && SignFits(sign)
      && headerSize == 6 + |sign| && fContent == headerSize + 1
      && (good ==> file.Some? && pos <= |file.value|)
      && (good && !completed ==> remaining == |Unread()|)
      && (!good ==> !completed && remaining > Capacity(sign) - 5)
      && (!completed ==>
            && |msg.raw| == CHUNK_SIZE
            && Header(msgType, sign) + [CONTENT] <= msg.raw)
    }

    constructor (msgType: byte, file: Option<seq<byte>>, sign: seq<byte>)
      requires 6 + |sign| < CHUNK_SIZE
      ensures fresh(msg) && !completed
      ensures this.msgType == msgType && this.sign == sign && this.file == file
      ensures good == file.Some? && pos == 0
      ensures |msg.raw| == 4096 && Header(msgType, sign) + [CONTENT] <= msg.raw && msg.raw[0] == msgType
      ensures headerSize == 6 + |sign| && fContent == headerSize + 1
      ensures remaining == if file.Some? then |file.value| else 0xFFFF_FFFF_FFFF_FFFF
      ensures SignFits(sign) ==> Valid() && Unread() == file.GetOr([])
    {
      this.msgType, this.sign, this.file := msgType, sign, file;
      msg := new Message(msgType);
      good, pos, completed := file.Some?, 0, false;
      remaining := if file.Some? then |file.value| else NO_SIZE;
      new;
      msg.AddTlv(ITEM, sign);
      assert msg.raw == Header(msgType, sign);
      headerSize := |msg.raw|;
      msg.Resize(CHUNK_SIZE);
      fContent := headerSize;
      msg.raw := msg.raw[fContent := CONTENT];
      fContent := fContent + 1;
    }

    /** `ifstream::read` into the buffer: a short read delivers what there is and fails the stream. */
    method ReadInto(at: nat, n: nat)
      requires good ==> file.Some? && pos <= |file.value|
      requires at + n <= |msg.raw|
      modifies this`good, this`pos, msg
      ensures good ==> file.Some? && pos <= |file.value|
      ensures |msg.raw| == |old(msg.raw)| && msg.raw[..at] == old(msg.raw)[..at]
      ensures good == (old(good) && n <= |old(Unread())|)
      ensures good ==> pos == old(pos) + n && msg.raw[at..at + n] == old(Unread())[..n]
    {
      if good {
        var count := if pos + n <= |file.value| then n else |file.value| - pos;
        ghost var data := file.value[pos..pos + count];
        assert data == Unread()[..count];
        msg.raw := msg.raw[..at] + file.value[pos..pos + count] + msg.raw[at + count..];
        pos := pos + count;
        good := count == n;
      }
    }

    method WriteLength(n: nat)
      requires fContent + 4 <= |msg.raw|
      modifies msg
      ensures |msg.raw| == |old(msg.raw)|
      ensures msg.raw[..fContent] == old(msg.raw)[..fContent]
      ensures msg.raw[fContent..fContent + 4] == BigEndian(n)
    {
      for i := 0 to 4
        invariant |msg.raw| == |old(msg.raw)|
        invariant msg.raw[..fContent] == old(msg.raw)[..fContent]
        invariant msg.raw[fContent..fContent + i] == BigEndian(n)[..i]
      {
        msg.raw := msg.raw[fContent + i := LengthByte(n, i)];
        assert msg.raw[fContent..fContent + i + 1] == msg.raw[fContent..fContent + i] + [LengthByte(n, i)];
      }
    }

    method NextChunk() returns (status: ChunkStatus)
      requires Valid()
      modifies this, msg
      ensures Valid()
      ensures status == Ready ==> msg.raw != [] && msg.raw[0] == msgType
      // nothing more to send
      ensures old(completed) ==> status == Exhausted && completed && msg.raw == old(msg.raw)
      // a full chunk
      ensures !old(completed) && old(good) && |old(Unread())| >= Capacity(sign) ==>
                && status == Ready && !completed && good
                && msg.raw == ChunkMessage(msgType, sign, old(Unread())[..Capacity(sign)], false)
                && Unread() == old(Unread())[Capacity(sign)..]
      // the last chunk
      ensures !old(completed) && old(good) && |old(Unread())| <= Capacity(sign) - 5 ==>
                && status == Ready && completed
                && msg.raw == ChunkMessage(msgType, sign, old(Unread()), true)
                && remaining == 0
      // the read asks for more than there is
      ensures !old(completed) && (!old(good) || Capacity(sign) - 5 < |old(Unread())| < Capacity(sign)) ==>
                status == UnexpectedEof && !completed && !good && remaining == old(remaining)
    {
      hide ChunkMessage, ChunkBody, Header, EncodeTlv, BigEndian;
      if completed {
        return Exhausted;
      }
      var toRead;
      if remaining > CHUNK_SIZE - headerSize - 5 - 5 {
        toRead := CHUNK_SIZE - headerSize - 5;
      } else {
        toRead := remaining;
        completed := true;
      }
      ghost var unread := Unread();
      FillChunk(toRead);
      if !good {
        return UnexpectedEof;
      }
      ghost var chunk := unread[..toRead];
      ghost var body := ChunkBody(msgType, sign, chunk);
      ChunkMessageBytes(msgType, sign, chunk);
      ChunkMessageType(msgType, sign, chunk);
      if completed {
        assert chunk == unread;
        msg.Resize(headerSize + 5 + remaining);
        msg.AddTlv(END);
        assert msg.raw == body + EncodeTlv(END_TLV);
      } else {
        assert msg.raw == body;
      }
      remaining := remaining - toRead;
      return Ready;
    }

    /** Writes the length and the content over the ones of the previous chunk. */
    method FillChunk(n: nat)
      requires SignFits(sign) && headerSize == 6 + |sign| && fContent == headerSize + 1
      requires good ==> file.Some? && pos <= |file.value|
      requires |msg.raw| == CHUNK_SIZE && n <= Capacity(sign)
      requires Header(msgType, sign) + [CONTENT] <= msg.raw
      modifies this`good, this`pos, msg
      ensures |msg.raw| == CHUNK_SIZE && Header(msgType, sign) + [CONTENT] <= msg.raw
      ensures good == (old(good) && n <= |old(Unread())|)
      ensures good ==>
                && file.Some? && pos <= |file.value| && Unread() == old(Unread())[n..]
                && ChunkBody(msgType, sign, old(Unread())[..n]) <= msg.raw
    {
      ghost var front := Header(msgType, sign) + [CONTENT];
      WriteLength(n);
      assert msg.raw[..fContent] == front;
      assert msg.raw[..fContent + 4] == front + BigEndian(n);
      ReadInto(fContent + 4, n);
      assert msg.raw[..fContent] == msg.raw[..fContent + 4][..fContent] == front;
      if good {
        assert msg.raw[..fContent + 4 + n] == msg.raw[..fContent + 4] + msg.raw[fContent + 4..fContent + 4 + n];
      }
    }
  }

  // ---------------------------------------------------------------- the sequence of chunks

  /** The chunks a file is cut into, and whether the cutting reaches the end of the file. */
  datatype Cut = Cut(chunks: seq<seq<byte>>, complete: bool)

  ghost function CutFile(content: seq<byte>, c: nat): Cut
    requires c >= 5
    decreases |content|
  {
    if |content| <= c - 5 then Cut([content], true)
    else if |content| < c then Cut([], false)
    else
      var rest := CutFile(content[c..], c);
      Cut([content[..c]] + rest.chunks, rest.complete)
  }

  ghost function Join(chunks: seq<seq<byte>>): seq<byte> {
    if chunks == [] then [] else chunks[0] + Join(chunks[1..])
  }

  lemma DivModStep(n: nat, c: nat)
    requires 0 < c <= n
    ensures (n - c) % c == n % c && n / c == (n - c) / c + 1
  {
    var q, r := (n - c) / c, (n - c) % c;
    assert n - c == c * q + r;
    assert n == c * (q + 1) + r;
    DivModUnique(n, c, q + 1, r);
  }

  /**
   * Chunking reaches the end of the file exactly when the length leaves no remainder among the last
   * four values before a full chunk, c - 4 to c - 1; it then takes one message more than there are full chunks.
   */
  lemma {:induction false} CutLength(content: seq<byte>, c: nat)
    requires c >= 5
    ensures CutFile(content, c).complete <==> |content| % c <= c - 5
    ensures |CutFile(content, c).chunks| ==
            |content| / c + if CutFile(content, c).complete then 1 else 0
    decreases |content|
  {
    if |content| < c {
      DivModUnique(|content|, c, 0, |content|);
    } else {
      CutLength(content[c..], c);
      DivModStep(|content|, c);
    }
  }

  /** Chunking conserves the file: all chunks but the last are full, and together they are the file. */
  lemma {:induction false} CutConserves(content: seq<byte>, c: nat)
    requires c >= 5
    ensures var cut := CutFile(content, c);
            && (cut.complete ==> cut.chunks != [] && Join(cut.chunks) == content &&
                                 |cut.chunks[|cut.chunks| - 1]| <= c - 5)
            && (!cut.complete ==> Join(cut.chunks) < content && |content| - |Join(cut.chunks)| < c)
            && forall i :: 0 <= i < |cut.chunks| - (if cut.complete then 1 else 0) ==> |cut.chunks[i]| == c
    decreases |content|
  {
    if |content| <= c - 5 {
      assert Join([content][1..]) == [];
    } else if |content| >= c {
      CutConserves(content[c..], c);
      var cut, rest := CutFile(content, c), CutFile(content[c..], c);
      assert cut.chunks[1..] == rest.chunks;
      assert content == content[..c] + content[c..];
    }
  }

  /** Every chunk message parses back to its segments; only the last ends in END, and it fits the buffer. */
  lemma ChunkMessageParses(msgType: byte, sign: seq<byte>, chunk: seq<byte>, last: bool)
    requires SignFits(sign)
    requires if last then |chunk| <= Capacity(sign) - 5 else |chunk| == Capacity(sign)
    ensures var raw := ChunkMessage(msgType, sign, chunk, last);
            && WellFormed(raw) && raw[0] == msgType && Segments(raw) == ChunkTlvs(sign, chunk, last)
            && (if last then |raw| <= 4096 && EndsWithEnd(raw) else |raw| == 4096)
  {
    WellFormedEncoding(msgType, ChunkTlvs(sign, chunk, last));
    ChunkMessageBytes(msgType, sign, chunk);
    if last {
      VerifyEndMeaning(msgType, ChunkTlvs(sign, chunk, true));
    }
  }
}
