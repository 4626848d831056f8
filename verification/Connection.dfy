/** Framing, reassembly and the callback discipline of posts (core/connection.cpp). */
module Connections {
  import opened Wrappers
  import opened Bytes
  import opened Messages
  import opened TlvViews
  import opened FMessages

  // ---------------------------------------------------------------- frames

  /** A native 8-byte size, then the payload. */
  function FrameBytes(payload: seq<byte>): seq<byte> {
    LittleEndian(|payload|, HEADER_SIZE) + payload
  }

  /**
   * What `read` makes of the incoming bytes, given what it has gathered so far. `Undefined` stands
   * for frames on which the C++ code leaves its buffer: a continuation frame without a type byte,
   * or fewer than five bytes gathered, all zero, for the suffix comparison.
   */
  datatype Reception = Received(message: seq<byte>, rest: seq<byte>) | Lost | Undefined

  ghost function Receive(inbox: seq<byte>, gathered: seq<byte>, first: bool): Reception
    decreases |inbox|
  {
    if |inbox| < HEADER_SIZE then Lost
    else
      var size, body := FromLittleEndian(inbox[..HEADER_SIZE]), inbox[HEADER_SIZE..];
      var skipped := if first then 0 else 1;
      if size < skipped then Undefined
      else if |body| < size then Lost
      else
        var gathered' := gathered + body[skipped..size];
        if !Comparable(gathered') then Undefined
        else if EndsWithEnd(gathered') then Received(gathered', body[size..])
        else Receive(body[size..], gathered', false)
  }

  lemma ReceiveUnrolled(inbox: seq<byte>, gathered: seq<byte>, first: bool)
    ensures |inbox| < HEADER_SIZE ==> Receive(inbox, gathered, first) == Lost
    ensures |inbox| >= HEADER_SIZE ==>
              var size, body := FromLittleEndian(inbox[..HEADER_SIZE]), inbox[HEADER_SIZE..];
              var skipped := if first then 0 else 1;
              && (size < skipped ==> Receive(inbox, gathered, first) == Undefined)
              && (skipped <= size && |body| < size ==> Receive(inbox, gathered, first) == Lost)
              && (skipped <= size <= |body| ==>
                    var gathered' := gathered + body[skipped..size];
                    Receive(inbox, gathered, first) ==
                    if !Comparable(gathered') then Undefined
                    else if EndsWithEnd(gathered') then Received(gathered', body[size..])
                    else Receive(body[size..], gathered', false))
  {
  }

  function Min(a: nat, b: nat): nat {
    if a <= b then a else b
  }

  datatype WriteFault = Healthy | Broken(delivered: nat) | Rejected(delivered: nat)

  class Connection {
    var inbox: seq<byte>   // bytes from the server not yet read
    var outbox: seq<byte>  // bytes handed to the socket

    constructor (incoming: seq<byte>)
      ensures inbox == incoming && outbox == []
    {
      inbox, outbox := incoming, [];
    }

    /** A failing socket takes some prefix of the frame; only a broken connection is indeterminate. */
    method Write(request: Message, fault: WriteFault) returns (status: Tribool)
      modifies this`outbox
      ensures status == match fault case Healthy => True case Broken(_) => Indeterminate case Rejected(_) => False
      ensures old(outbox) <= outbox <= old(outbox) + FrameBytes(request.raw)
      ensures status.True? ==> outbox == old(outbox) + FrameBytes(request.raw)
      ensures !status.True? ==>
                outbox == old(outbox) + FrameBytes(request.raw)[..Min(fault.delivered, |FrameBytes(request.raw)|)]
    {
      var frame := LittleEndian(|request.raw|, HEADER_SIZE) + request.raw;
      match fault
      case Healthy =>
        outbox := outbox + frame;
        return True;
      case Broken(n) =>
        outbox := outbox + if n <= |frame| then frame[..n] else frame;
        return Indeterminate;
      case Rejected(n) =>
        outbox := outbox + if n <= |frame| then frame[..n] else frame;
        return False;
    }

    /** `boost::asio::read`: all n bytes, or end of file. */
    method ReadExactly(n: nat) returns (data: Option<seq<byte>>)
      modifies this`inbox
      ensures n <= |old(inbox)| ==> data == Some(old(inbox)[..n]) && inbox == old(inbox)[n..]
      ensures n > |old(inbox)| ==> data == None && inbox == []
    {
      if n <= |inbox| {
        data := Some(inbox[..n]);
        inbox := inbox[n..];
      } else {
        data := None;
        inbox := [];
      }
    }

    method Read() returns (status: Tribool, response: Option<seq<byte>>)
      requires Receive(inbox, [], true) != Undefined
      modifies this`inbox
      ensures match Receive(old(inbox), [], true)
              case Received(m, rest) => status == True && response == Some(m) && inbox == rest
              case _ => status == Indeterminate && response == None
    {
      hide Receive, FromLittleEndian, EndsWithEnd;
      var rawMsg: seq<byte>, first, ended := [], true, false;
      while !ended
        invariant !ended ==> Receive(inbox, rawMsg, first) == Receive(old(inbox), [], true)
        invariant ended ==> Receive(old(inbox), [], true) == Received(rawMsg, inbox)
        decreases !ended, |inbox|
      {
        ghost var start := inbox;
        ReceiveUnrolled(inbox, rawMsg, first);
        var header := ReadExactly(HEADER_SIZE);
        if header.None? {
          return Indeterminate, None;
        }
        var size := FromLittleEndian(header.value);
        if !first {
          size := size - 1;
          var msgType := ReadExactly(1);
          if msgType.None? {
            return Indeterminate, None;
          }
        }
        ghost var body := start[HEADER_SIZE..];
        var payload := ReadExactly(size);
        if payload.None? {
          return Indeterminate, None;
        }
        ghost var skipped := if first then 0 else 1;
        assert payload.value == body[skipped..skipped + size] && inbox == body[skipped + size..];
        rawMsg := rawMsg + payload.value;
        first := false;
        var tempMsg := new Message.FromBuffer(rawMsg);
        var view := new TlvView(tempMsg);
        ended := view.VerifyEnd();
      }
      return True, Some(rawMsg);
    }

    /** `sync_post` */
    method SyncPost(request: Message, fault: WriteFault) returns (status: Tribool, response: Option<seq<byte>>)
      requires Receive(inbox, [], true) != Undefined
      modifies this
      ensures old(outbox) <= outbox <= old(outbox) + FrameBytes(request.raw)
      ensures fault != Healthy ==> inbox == old(inbox) && response == None &&
                                   status == if fault.Broken? then Indeterminate else False
      ensures fault == Healthy ==>
                && outbox == old(outbox) + FrameBytes(request.raw)
                && match Receive(old(inbox), [], true)
                   case Received(m, rest) => status == True && response == Some(m) && inbox == rest
                   case _ => status == Indeterminate && response == None
    {
      status := Write(request, fault);
      if status != True {
        return status, None;
      }
      status, response := Read();
    }
  }

  // ---------------------------------------------------------------- reassembly

  /** One frame of a response: a type byte and whole segments. */
  datatype Part = Part(msgType: byte, tlvs: seq<Tlv>) {
    function Payload(): seq<byte> {
      EncodeMessage(msgType, tlvs)
    }
  }

  function AllTlvs(parts: seq<Part>): seq<Tlv> {
    if parts == [] then [] else AllTlvs(parts[..|parts| - 1]) + parts[|parts| - 1].tlvs
  }

  function Wire(parts: seq<Part>): seq<byte> {
    if parts == [] then [] else FrameBytes(parts[0].Payload()) + Wire(parts[1..])
  }

  /** What the suffix comparison takes for the end, in terms of segments. */
  ghost predicate SeemsEnded(ts: seq<Tlv>) {
    ts != [] && (ts[|ts| - 1] == END_TLV || LooksLikeEnd(ts[|ts| - 1].value))
  }

  /** A response in frames cut at segment boundaries, which seems ended after its last frame only. */
  ghost predicate Framing(parts: seq<Part>) {
    && parts != [] && (parts[0].tlvs != [] || parts[0].msgType != 0)
    && Fits(AllTlvs(parts))
    && (forall i :: 0 <= i < |parts| ==> |parts[i].Payload()| < TWO_64)
    && (forall k :: 0 < k < |parts| ==> !SeemsEnded(AllTlvs(parts[..k])))
    && SeemsEnded(AllTlvs(parts))
  }

  /** The message the frames carry together: the first type byte and all segments. */
  function Whole(parts: seq<Part>): seq<byte>
    requires parts != []
  {
    EncodeMessage(parts[0].msgType, AllTlvs(parts))
  }

  lemma AllTlvsStep(parts: seq<Part>, k: nat)
    requires k < |parts|
    ensures AllTlvs(parts[..k + 1]) == AllTlvs(parts[..k]) + parts[k].tlvs
  {
    assert parts[..k + 1][..k] == parts[..k];
  }

  lemma {:induction false} AllTlvsPrefix(parts: seq<Part>, k: nat)
    requires k <= |parts|
    ensures AllTlvs(parts[..k]) <= AllTlvs(parts)
    decreases |parts| - k
  {
    if k == |parts| {
      assert parts[..k] == parts;
    } else {
      AllTlvsStep(parts, k);
      AllTlvsPrefix(parts, k + 1);
    }
  }

  ghost function Gathered(parts: seq<Part>, k: nat): seq<byte>
    requires k <= |parts| && parts != []
  {
    if k == 0 then [] else EncodeMessage(parts[0].msgType, AllTlvs(parts[..k]))
  }

  lemma NoTlvs()
    ensures AllTlvs([]) == [] && EncodeTlvs([]) == []
  {
  }

  lemma GatheredStep(parts: seq<Part>, k: nat)
    requires k < |parts|
    ensures Gathered(parts, k + 1) == Gathered(parts, k) + parts[k].Payload()[if k == 0 then 0 else 1..]
  {
    hide EncodeTlvs, AllTlvs;
    AllTlvsStep(parts, k);
    EncodeTlvsAppend(AllTlvs(parts[..k]), parts[k].tlvs);
    NoTlvs();
    if k == 0 {
      assert parts[..0] == [];
    }
  }

  lemma SomethingStays(parts: seq<Part>, k: nat)
    requires 0 < k <= |parts|
    ensures parts[0].tlvs != [] ==> AllTlvs(parts[..k]) != []
  {
    AllTlvsStep(parts, 0);
    assert parts[..k][..1] == parts[..1];
    AllTlvsPrefix(parts[..k], 1);
  }

  lemma GatheredSeemsEnded(parts: seq<Part>, k: nat)
    requires Framing(parts) && 0 < k <= |parts|
    ensures Comparable(Gathered(parts, k))
    ensures EndsWithEnd(Gathered(parts, k)) <==> SeemsEnded(AllTlvs(parts[..k]))
  {
    var ts := AllTlvs(parts[..k]);
    AllTlvsPrefix(parts, k);
    assert forall t :: t in ts ==> t in AllTlvs(parts);
    if ts == [] {
      SomethingStays(parts, k);
      assert Gathered(parts, k)[0] == parts[0].msgType;
    } else {
      EncodeTlvsSize(ts);
      VerifyEndMeaning(parts[0].msgType, ts);
    }
  }

  lemma FrameHead(payload: seq<byte>, tail: seq<byte>)
    requires |payload| < TWO_64
    ensures var bs := FrameBytes(payload) + tail;
            && |bs| >= HEADER_SIZE && FromLittleEndian(bs[..HEADER_SIZE]) == |payload|
            && bs[HEADER_SIZE..] == payload + tail
  {
    hide LittleEndian, FromLittleEndian;
    HeaderRoundTrip(|payload|);
    HeadOfThree(LittleEndian(|payload|, HEADER_SIZE), payload, tail);
  }

  lemma HeadOfThree(a: seq<byte>, b: seq<byte>, c: seq<byte>)
    ensures (a + b + c)[..|a|] == a && (a + b + c)[|a|..] == b + c
  {
  }

  /** Reading one whole frame. */
  lemma ReceiveFrame(payload: seq<byte>, tail: seq<byte>, gathered: seq<byte>, first: bool)
    requires 0 < |payload| < TWO_64
    ensures var gathered' := gathered + payload[if first then 0 else 1..];
            Comparable(gathered') ==>
              Receive(FrameBytes(payload) + tail, gathered, first) ==
              if EndsWithEnd(gathered') then Received(gathered', tail) else Receive(tail, gathered', false)
  {
    FrameHead(payload, tail);
    hide FrameBytes, FromLittleEndian, EndsWithEnd;
    var body, skipped := payload + tail, if first then 0 else 1;
    assert body[skipped..|payload|] == payload[skipped..] && body[|payload|..] == tail;
  }

  /** What the frames up to the k-th have to do with the end of the response. */
  lemma FrameFacts(parts: seq<Part>, k: nat)
    requires Framing(parts) && k < |parts|
    ensures 0 < |parts[k].Payload()| < TWO_64
    ensures var gathered' := Gathered(parts, k) + parts[k].Payload()[if k == 0 then 0 else 1..];
            && gathered' == Gathered(parts, k + 1) && Comparable(gathered')
            && (EndsWithEnd(gathered') <==> k + 1 == |parts|)
    ensures Gathered(parts, |parts|) == Whole(parts)
  {
    hide EndsWithEnd, SeemsEnded, AllTlvs, EncodeTlvs, Fits;
    GatheredStep(parts, k);
    GatheredSeemsEnded(parts, k + 1);
    assert parts[..|parts|] == parts;
  }

  lemma ReceiveStep(parts: seq<Part>, k: nat, rest: seq<byte>)
    requires Framing(parts) && k < |parts|
    ensures var tail := Wire(parts[k + 1..]) + rest;
            Receive(Wire(parts[k..]) + rest, Gathered(parts, k), k == 0) ==
            if k + 1 == |parts| then Received(Whole(parts), rest) else Receive(tail, Gathered(parts, k + 1), false)
  {
    hide Receive, Framing, Gathered, EndsWithEnd, Whole;
    FrameFacts(parts, k);
    WireStep(parts, k, rest);
    if k + 1 == |parts| {
      assert Wire(parts[k + 1..]) + rest == rest;
    }
    ReceiveFrame(parts[k].Payload(), Wire(parts[k + 1..]) + rest, Gathered(parts, k), k == 0);
  }

  /** From any frame on, reading gathers the rest of the response and leaves what follows it. */
  lemma {:induction false} ReceiveFrom(parts: seq<Part>, k: nat, rest: seq<byte>)
    requires Framing(parts) && k < |parts|
    ensures Receive(Wire(parts[k..]) + rest, Gathered(parts, k), k == 0) == Received(Whole(parts), rest)
    decreases |parts| - k
  {
    hide *;
    ReceiveStep(parts, k, rest);
    if k + 1 < |parts| {
      ReceiveFrom(parts, k + 1, rest);
    }
  }

  lemma WireStep(parts: seq<Part>, k: nat, rest: seq<byte>)
    requires k < |parts|
    ensures Wire(parts[k..]) + rest == FrameBytes(parts[k].Payload()) + (Wire(parts[k + 1..]) + rest)
  {
    assert parts[k..][1..] == parts[k + 1..];
  }

  /** Reassembly: a framed response is read whole, and nothing beyond it is consumed. */
  lemma ReceiveWhole(parts: seq<Part>, rest: seq<byte>)
    requires Framing(parts)
    ensures Receive(Wire(parts) + rest, [], true) == Received(Whole(parts), rest)
    ensures WellFormed(Whole(parts)) && Segments(Whole(parts)) == AllTlvs(parts)
  {
    hide Receive, EncodeMessage;
    assert parts[0..] == parts;
    ReceiveFrom(parts, 0, rest);
    WellFormedEncoding(parts[0].msgType, AllTlvs(parts));
  }

  /** A frame that breaks off. */
  lemma ReceiveBroken(payload: seq<byte>, n: nat, gathered: seq<byte>, first: bool)
    requires 0 < |payload| < TWO_64 && n < |FrameBytes(payload)|
    ensures Receive(FrameBytes(payload)[..n], gathered, first) == Lost
  {
    var broken := FrameBytes(payload)[..n];
    if n >= HEADER_SIZE {
      FrameHead(payload, []);
      hide FrameBytes, FromLittleEndian;
      assert FrameBytes(payload) + [] == FrameBytes(payload);
      assert broken[..HEADER_SIZE] == FrameBytes(payload)[..HEADER_SIZE];
    }
  }

  lemma {:induction false} ReceiveCut(parts: seq<Part>, k: nat, n: nat)
    requires Framing(parts) && k <= |parts| && n < |Wire(parts[k..])|
    ensures Receive(Wire(parts[k..])[..n], Gathered(parts, k), k == 0) == Lost
    decreases |parts| - k
  {
    hide Receive, Framing, Gathered, EndsWithEnd, FrameBytes;
    FrameFacts(parts, k);
    var frame, tail := FrameBytes(parts[k].Payload()), Wire(parts[k + 1..]);
    WireStep(parts, k, []);
    assert Wire(parts[k..]) == frame + tail;
    if n < |frame| {
      assert (frame + tail)[..n] == frame[..n];
      ReceiveBroken(parts[k].Payload(), n, Gathered(parts, k), k == 0);
    } else {
      assert (frame + tail)[..n] == frame + tail[..n - |frame|];
      ReceiveFrame(parts[k].Payload(), tail[..n - |frame|], Gathered(parts, k), k == 0);
      ReceiveCut(parts, k + 1, n - |frame|);
    }
  }

  /** A response that breaks off anywhere is a lost connection, and never taken for a message. */
  lemma TruncatedIsLost(parts: seq<Part>, n: nat)
    requires Framing(parts) && n < |Wire(parts)|
    ensures Receive(Wire(parts)[..n], [], true) == Lost
  {
    hide Receive, Framing;
    assert parts[0..] == parts;
    ReceiveCut(parts, 0, n);
  }

  /** k calls of `read` in a row. */
  ghost function ReceiveMany(inbox: seq<byte>, k: nat): Option<(seq<seq<byte>>, seq<byte>)>
    decreases k
  {
    if k == 0 then Some(([], inbox))
    else match Receive(inbox, [], true)
      case Received(m, rest) =>
        (match ReceiveMany(rest, k - 1)
         case Some((ms, rest')) => Some(([m] + ms, rest'))
         case None => None)
      case _ => None
  }

  function WireAll(responses: seq<seq<Part>>): seq<byte> {
    if responses == [] then [] else Wire(responses[0]) + WireAll(responses[1..])
  }

  ghost function Wholes(responses: seq<seq<Part>>): seq<seq<byte>>
    requires forall i :: 0 <= i < |responses| ==> Framing(responses[i])
  {
    if responses == [] then []
    else
      assert Framing(responses[0]);
      [Whole(responses[0])] + Wholes(responses[1..])
  }

  lemma NotEmpty(parts: seq<Part>)
    requires Framing(parts)
    ensures parts != []
  {
  }

  lemma ReceiveManyStep(inbox: seq<byte>, k: nat, m: seq<byte>, rest: seq<byte>)
    requires k > 0 && Receive(inbox, [], true) == Received(m, rest) && ReceiveMany(rest, k - 1).Some?
    ensures var (ms, rest') := ReceiveMany(rest, k - 1).value;
            ReceiveMany(inbox, k) == Some(([m] + ms, rest'))
  {
  }

  lemma NoneAligned(rest: seq<byte>)
    ensures ReceiveMany(WireAll([]) + rest, 0) == Some((Wholes([]), rest))
  {
    assert WireAll([]) + rest == rest;
  }

  lemma OneMoreResponse(responses: seq<seq<Part>>, rest: seq<byte>)
    requires responses != [] && forall i :: 0 <= i < |responses| ==> Framing(responses[i])
    ensures responses[0] != []
    ensures WireAll(responses) + rest == Wire(responses[0]) + (WireAll(responses[1..]) + rest)
    ensures Wholes(responses) == [Whole(responses[0])] + Wholes(responses[1..])
  {
    hide Framing, Wire, Whole, WireAll;
    NotEmpty(responses[0]);
    WireAllStep(responses, rest);
  }

  lemma WireAllStep(responses: seq<seq<Part>>, rest: seq<byte>)
    requires responses != []
    ensures WireAll(responses) + rest == Wire(responses[0]) + (WireAll(responses[1..]) + rest)
  {
    hide Wire;
  }

  /** Alignment: the i-th of k reads returns the i-th of k framed responses. */
  lemma {:induction false} StreamAligned(responses: seq<seq<Part>>, rest: seq<byte>)
    requires forall i :: 0 <= i < |responses| ==> Framing(responses[i])
    ensures ReceiveMany(WireAll(responses) + rest, |responses|) == Some((Wholes(responses), rest))
  {
    hide *;
    if responses == [] {
      NoneAligned(rest);
    } else {
      var tail := WireAll(responses[1..]) + rest;
      OneMoreResponse(responses, rest);
      ReceiveWhole(responses[0], tail);
      StreamAligned(responses[1..], rest);
      ReceiveManyStep(Wire(responses[0]) + tail, |responses|, Whole(responses[0]), tail);
    }
  }

  /** Reading undoes writing for a message that ends in END and fits one frame. */
  lemma ReadUndoesWrite(msgType: byte, ts: seq<Tlv>, rest: seq<byte>)
    requires Fits(ts) && SeemsEnded(ts) && |EncodeMessage(msgType, ts)| < TWO_64
    ensures Receive(FrameBytes(EncodeMessage(msgType, ts)) + rest, [], true) ==
            Received(EncodeMessage(msgType, ts), rest)
  {
    hide Receive, EncodeMessage, FrameBytes;
    var parts := [Part(msgType, ts)];
    AllTlvsStep(parts, 0);
    assert AllTlvs(parts[..0]) == [];
    assert parts[..1] == parts;
    assert AllTlvs(parts) == ts;
    assert Wire(parts[1..]) == [];
    assert Wire(parts) == FrameBytes(EncodeMessage(msgType, ts));
    ReceiveWhole(parts, rest);
  }

  // ---------------------------------------------------------------- callbacks

  /** What `read` returned: a response, a failure, or a lost connection. */
  datatype Reply = Answered(message: seq<byte>) | Failed | Gone {
    function Status(): Tribool {
      match this case Answered(_) => True case Failed => False case Gone => Indeterminate
    }
    function Body(): Option<seq<byte>> {
      if Answered? then Some(message) else None
    }
  }

  /** What `write` returned, and what `read` returns if it is reached. */
  datatype Exchange = Exchange(write: Tribool, read: Reply) {
    predicate Succeeds() {
      write.True? && read.Answered?
    }
    /** The last status a post gets, that of the write or of the read after a good write, tells of a lost connection. */
    predicate LosesConnection() {
      write.Indeterminate? || (write.True? && read.Gone?)
    }
  }

  /** The calls a plain-message post makes of its callback. */
  function PlainCallbacks(exchange: Exchange): seq<Option<seq<byte>>> {
    if exchange.Succeeds() then [] else [None]
  }

  /** The plain-message `async_post`: its callback runs on failure only. */
  method AsyncPost(exchange: Exchange) returns (callbacks: seq<Option<seq<byte>>>, reconnections: nat)
    ensures callbacks == PlainCallbacks(exchange)
    ensures callbacks == if exchange.write.True? && exchange.read.Answered? then [] else [None]
    ensures exchange.write.Indeterminate? ==> reconnections == 1
    ensures exchange.write.False? ==> reconnections == 0
    ensures exchange.write.True? ==> reconnections == if exchange.read.Gone? then 1 else 0
  {
    callbacks := [];
    var failed, second;
    failed, second, reconnections := TryExchange(exchange, None);
    if failed {
      callbacks := callbacks + [second];
    }
  }

  /** Write and read as both posts make them; `second` is the response part of the result variable. */
  method TryExchange(exchange: Exchange, second: Option<seq<byte>>)
    returns (failed: bool, second': Option<seq<byte>>, reconnections: nat)
    ensures failed == !exchange.Succeeds()
    ensures second' == if exchange.write.True? then exchange.read.Body() else second
    ensures reconnections == if exchange.LosesConnection() then 1 else 0
  {
    var first := exchange.write;
    second', reconnections := second, 0;
    if first.Indeterminate? {
      reconnections := reconnections + 1;
    }
    if !first.True? {
      return true, second', reconnections;
    }
    first, second' := exchange.read.Status(), exchange.read.Body();
    if first.Indeterminate? {
      reconnections := reconnections + 1;
    }
    return !first.True?, second', reconnections;
  }

  /** The chunks an upload is cut into; a file that cannot be opened yields none. */
  ghost function CutOf(file: Option<seq<byte>>, sign: seq<byte>): Cut
    requires SignFits(sign)
  {
    if file.None? then Cut([], false) else CutFile(file.value, Capacity(sign))
  }

  ghost function ChunkMessages(msgType: byte, sign: seq<byte>, cut: Cut): (ms: seq<seq<byte>>)
    ensures |ms| == |cut.chunks|
  {
    seq(|cut.chunks|, i requires 0 <= i < |cut.chunks| =>
      ChunkMessage(msgType, sign, cut.chunks[i], cut.complete && i == |cut.chunks| - 1))
  }

  /** The first of the exchanges i, i + 1, ..., n - 1 that fails, or n. */
  ghost function FirstFailure(link: nat -> Exchange, i: nat, n: nat): (k: nat)
    requires i <= n
    ensures i <= k <= n
    ensures forall j :: i <= j < k ==> link(j).Succeeds()
    ensures k < n ==> !link(k).Succeeds()
    decreases n - i
  {
    if i == n then n else if link(i).Succeeds() then FirstFailure(link, i + 1, n) else i
  }

  /**
   * The argument of the upload's callback. When a later write fails, the result variable still holds
   * the reply to the chunk before, and that is what the callback gets.
   */
  ghost function UploadResult(cut: Cut, link: nat -> Exchange): Option<seq<byte>> {
    var n := |cut.chunks|;
    var k := FirstFailure(link, 0, n);
    if k == n then (if cut.complete && n > 0 then link(n - 1).read.Body() else None)
    else if !link(k).write.True? && k > 0 then link(k - 1).read.Body()
    else None
  }

  ghost predicate AllSucceed(link: nat -> Exchange, n: nat) {
    forall i: nat :: i < n ==> link(i).Succeeds()
  }

  /** A later write is the first thing to fail. */
  ghost predicate LaterWriteFails(link: nat -> Exchange, n: nat) {
    exists k: nat :: 0 < k < n && !link(k).write.True? && AllSucceed(link, k)
  }

  /** When the callback gets a response: after a whole upload, but also after a later write failed. */
  lemma UploadResultMeaning(file: Option<seq<byte>>, sign: seq<byte>, link: nat -> Exchange)
    requires SignFits(sign)
    ensures var cut := CutOf(file, sign);
            var n := |cut.chunks|;
            && (UploadResult(cut, link).Some? <==>
                  (cut.complete && AllSucceed(link, n)) || LaterWriteFails(link, n))
            && (cut.complete && AllSucceed(link, n) ==>
                  n > 0 && link(n - 1).read.Answered? && UploadResult(cut, link) == Some(link(n - 1).read.message))
            && forall k: nat :: 0 < k < n && !link(k).write.True? && AllSucceed(link, k) ==>
                  link(k - 1).read.Answered? && UploadResult(cut, link) == Some(link(k - 1).read.message)
  {
  }

  /** The messages of an upload that goes through carry the file, chunk by chunk, under the same sign. */
  lemma UploadMessages(msgType: byte, sign: seq<byte>, content: seq<byte>, i: nat)
    requires SignFits(sign)
    requires var cut := CutFile(content, Capacity(sign)); cut.complete && i < |cut.chunks|
    ensures var cut := CutFile(content, Capacity(sign));
            var raw, last := ChunkMessages(msgType, sign, cut)[i], i == |cut.chunks| - 1;
            && Join(cut.chunks) == content
            && WellFormed(raw) && raw[0] == msgType && Segments(raw) == ChunkTlvs(sign, cut.chunks[i], last)
            && (if last then |raw| <= 4096 && EndsWithEnd(raw) else |raw| == 4096)
  {
    hide ChunkMessage, CutFile, Join, Parse, EndsWithEnd;
    CutConserves(content, Capacity(sign));
    var cut := CutFile(content, Capacity(sign));
    ChunkMessageParses(msgType, sign, cut.chunks[i], i == |cut.chunks| - 1);
  }

  /** A failed upload can hand a response to its callback exactly when it takes two chunks or more. */
  lemma StaleReplyIff(cut: Cut, m: seq<byte>)
    ensures (exists link: nat -> Exchange ::
               UploadResult(cut, link) == Some(m) && !AllSucceed(link, |cut.chunks|))
            <==> |cut.chunks| >= 2
  {
    var n := |cut.chunks|;
    if n >= 2 {
      var link: nat -> Exchange :=
        (i: nat) => if i == 0 then Exchange(True, Answered(m)) else Exchange(False, Failed);
      assert link(0).Succeeds() && !link(1).Succeeds();
      assert FirstFailure(link, 0, n) == 1;
      assert UploadResult(cut, link) == Some(m) && !AllSucceed(link, n);
    }
  }

  /** The chunks from i on are the ones still to be made. */
  ghost predicate ToBeMade(request: FMessage, cut: Cut, i: nat)
    requires request.Valid() && i <= |cut.chunks|
    reads request, request.msg
  {
    if request.completed then i == |cut.chunks| && i > 0 && cut.complete
    else if request.good then
      CutFile(request.Unread(), Capacity(request.sign)) == Cut(cut.chunks[i..], cut.complete)
    else cut == Cut([], false)
  }

  /** Chunk i is in the buffer, or there is none. */
  ghost predicate Made(request: FMessage, cut: Cut, i: nat, status: ChunkStatus)
    requires request.Valid() && i <= |cut.chunks|
    reads request, request.msg
  {
    match status
    case Ready =>
      && i < |cut.chunks|
      && request.msg.raw == ChunkMessages(request.msgType, request.sign, cut)[i]
      && ToBeMade(request, cut, i + 1)
    case Exhausted => i == |cut.chunks| && i > 0 && cut.complete
    case UnexpectedEof => i == |cut.chunks| && !cut.complete
  }

  lemma ChunkMade(request: FMessage, cut: Cut, i: nat)
    requires request.Valid() && i <= |cut.chunks| && Made(request, cut, i, Ready)
    ensures i < |cut.chunks| && request.msg.raw == ChunkMessages(request.msgType, request.sign, cut)[i]
    ensures ToBeMade(request, cut, i + 1)
  {
  }

  lemma NoChunkMade(request: FMessage, cut: Cut, i: nat, status: ChunkStatus)
    requires request.Valid() && i <= |cut.chunks| && Made(request, cut, i, status) && status != Ready
    ensures i == |cut.chunks| && (status == Exhausted ==> i > 0 && cut.complete)
    ensures status == UnexpectedEof ==> !cut.complete
  {
  }

  lemma AllToBeMade(request: FMessage) returns (cut: Cut)
    requires request.Valid() && !request.completed
    requires request.good == request.file.Some? && request.Unread() == request.file.GetOr([])
    ensures SignFits(request.sign) && cut == CutOf(request.file, request.sign) && ToBeMade(request, cut, 0)
  {
    cut := CutOf(request.file, request.sign);
    assert cut.chunks[0..] == cut.chunks;
  }

  method MakeChunk(request: FMessage, ghost cut: Cut, ghost i: nat) returns (status: ChunkStatus)
    requires request.Valid() && i <= |cut.chunks| && ToBeMade(request, cut, i)
    modifies request, request.msg
    ensures request.Valid() && Made(request, cut, i, status)
  {
    ghost var c := Capacity(request.sign);
    ghost var unread := request.Unread();
    status := request.NextChunk();
    if status == Ready {
      assert cut.chunks[i..][0] == cut.chunks[i];
      assert cut.chunks[i..][1..] == cut.chunks[i + 1..];
      if |unread| >= c {
        assert CutFile(unread, c).chunks[1..] == CutFile(unread[c..], c).chunks;
      }
    }
  }

  lemma FirstFailureStep(link: nat -> Exchange, i: nat, n: nat)
    requires i <= n
    ensures FirstFailure(link, i, n) ==
            if i == n then n else if link(i).Succeeds() then FirstFailure(link, i + 1, n) else i
  {
  }

  lemma UploadStops(cut: Cut, link: nat -> Exchange, k: nat)
    requires k < |cut.chunks|
    ensures FirstFailure(link, 0, |cut.chunks|) == k ==>
              UploadResult(cut, link) ==
              if link(k).write.True? || k == 0 then None else link(k - 1).read.Body()
  {
  }

  lemma UploadEnds(cut: Cut, link: nat -> Exchange)
    ensures var n := |cut.chunks|;
            FirstFailure(link, 0, n) == n ==>
              UploadResult(cut, link) == if cut.complete && n > 0 then link(n - 1).read.Body() else None
  {
  }

  /** The chunked `async_post`. `written` holds the messages handed to `write`. */
  method AsyncPostFile(request: FMessage, link: nat -> Exchange)
    returns (written: seq<seq<byte>>, callbacks: seq<Option<seq<byte>>>, reconnections: nat)
    requires request.Valid() && !request.completed
    requires request.good == request.file.Some? && request.Unread() == request.file.GetOr([])
    modifies request, request.msg
    ensures var cut := CutOf(request.file, request.sign);
            var n := |cut.chunks|;
            var k := FirstFailure(link, 0, n);
            && callbacks == [UploadResult(cut, link)]
            && written == ChunkMessages(request.msgType, request.sign, cut)[..if k < n then k + 1 else n]
            && (k == n ==> reconnections == 0)
            && (k < n && link(k).write.Indeterminate? ==> reconnections == 1)
            && (k < n && link(k).write.False? ==> reconnections == 0)
            && (k < n && link(k).write.True? ==> reconnections == if link(k).read.Gone? then 1 else 0)
  {
    hide CutFile, ChunkMessage, ChunkMessages, CutOf, FMessage.Valid, ToBeMade, Made, FirstFailure, UploadResult;
    ghost var cut := AllToBeMade(request);
    ghost var n := |cut.chunks|;
    ghost var all := ChunkMessages(request.msgType, request.sign, cut);
    var second: Option<seq<byte>> := None;
    var i: nat := 0;
    written, callbacks, reconnections := [], [], 0;
    var status := MakeChunk(request, cut, 0);
    while status == Ready
      invariant request.Valid() && callbacks == [] && reconnections == 0
      invariant 0 <= i <= n && written == all[..i]
      invariant FirstFailure(link, 0, n) == FirstFailure(link, i, n)
      invariant second == if i > 0 then link(i - 1).read.Body() else None
      invariant Made(request, cut, i, status)
      decreases n - i
    {
      ChunkMade(request, cut, i);
      FirstFailureStep(link, i, n);
      UploadStops(cut, link, i);
      written := written + [request.msg.raw];
      assert written == all[..i + 1];
      var failed;
      failed, second, reconnections := TryExchange(link(i), second);
      if failed {
        callbacks := callbacks + [second];
        return;
      }
      i := i + 1;
      status := MakeChunk(request, cut, i);
    }
    NoChunkMade(request, cut, i, status);
    FirstFailureStep(link, i, n);
    UploadEnds(cut, link);
    if status == Exhausted {
      callbacks := callbacks + [second];
    } else {
      callbacks := callbacks + [None];
    }
  }
}
