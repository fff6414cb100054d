/** The protocol stack as the BMC manager sees it: blocks in, requests out; responses in, blocks out. */
module ProtocolHdlr {
  import opened Common
  import opened Rtos
  import opened Mctp
  import opened MctpRuns
  import opened Pldm

  /** What a received block leads to at the PLDM level. */
  datatype Received = NoRequest | Request(msg: PldmMsg) | Oversize

  function Receive(st: Reasm, m: RxMsg): (Reasm, Received) {
    var (next, r) := Step(st, m);
    match r
    case Incomplete => (next, NoRequest)
    case TooLong(_) => (next, Oversize)
    case Complete(pkt) =>
      match Parse(pkt.payload)
      case None => (next, NoRequest)
      case Some(msg) => (next, Request(msg))
  }

  /** The link to the BMC: the blocks handed to it, each of which it may fail to send. */
  class BmcHal {
    var attempts: seq<Bytes>
    ghost var results: seq<Err>

    constructor ()
      ensures attempts == [] && results == []
    {
      attempts := [];
      results := [];
    }

    method Transmit(data: array<Byte>, length: nat) returns (err: Err)
      requires length <= data.Length
      modifies this
      ensures attempts == old(attempts) + [data[..length]] && results == old(results) + [err]
      ensures err == Ok || err == Fail
    {
      attempts := attempts + [data[..length]];
      var sent: bool := *;
      err := if sent then Ok else Fail;
      results := results + [err];
    }
  }

  method ProcessRx(mctp: Reassembler, m: RxMsg, out: MsgBuf) returns (r: RxResult, parsed: bool)
    requires mctp.Valid() && out.Valid() && mctp.buf != out.payload
    modifies mctp, mctp.buf, out, out.payload
    ensures mctp.Valid() && out.Valid()
    ensures mctp.State() == Receive(old(mctp.State()), m).0
    ensures r.TooLong? <==> Receive(old(mctp.State()), m).1 == Oversize
    ensures if parsed then Receive(old(mctp.State()), m).1 == Request(out.Value())
            else !Receive(old(mctp.State()), m).1.Request?
  {
    r := mctp.ProcessRx(m);
    if !r.Complete? {
      return r, false;
    }
    StepFits(old(mctp.State()), m);
    var err := PldmParse(r.packet, out);
    parsed := err == Ok;
  }

  lemma StepFits(st: Reasm, m: RxMsg)
    ensures Step(st, m).1.Complete? ==> |Step(st, m).1.packet.payload| <= PACKET_PAYLOAD
  {}

  /** The most data a response can carry in the 32-byte transmit buffer, after two headers of four bytes. */
  const MAX_RESPONSE_DATA := SMB_MAX_BLOCK_SIZE - 8

  /**
   * Builds, frames and transmits a response; the three header bytes are whatever the local packet held. The
   * response fits the transmit buffer if and only if it carries at most 24 bytes; the code does not check, and
   * past that nothing is claimed. Without a data pointer the data are whatever the local packet held, too; there
   * the 16-bit sum of header and data length can wrap, which cuts the header short.
   */
  method SendResponse(hal: BmcHal, request: PldmMsg, respData: array?<Byte>, respLen: nat, cc: Byte)
    returns (fits: bool, err: Err, ghost v: Byte, ghost d: Byte, ghost s: Byte, ghost data: Bytes)
    requires respLen < 0x1_0000 && (respData != null ==> respLen <= respData.Length)
    modifies hal
    ensures fits ==> hal.results == old(hal.results) + [err]
    ensures fits <==> respLen <= MAX_RESPONSE_DATA || (respData == null && respLen >= 0xFFFC)
    ensures fits && respLen <= MAX_RESPONSE_DATA ==>
      && |data| == respLen && (respData != null ==> data == respData[..respLen])
      && hal.attempts == old(hal.attempts) + [Frame(v, d, s, Response(request, cc, data))]
    ensures fits && respLen > MAX_RESPONSE_DATA ==>
      hal.attempts == old(hal.attempts) + [Frame(v, d, s, Response(request, cc, [])[..respLen - 0xFFFC])]
  {
    var v0: Byte, d0: Byte, s0: Byte, f0: Byte := *, *, *, *;
    v, d, s := v0, d0, s0;
    var pkt := new PacketBuf(v0, d0, s0, f0);
    var txBuf := new Byte[SMB_MAX_BLOCK_SIZE];
    err := PldmBuildResponse(request, respData, respLen, cc, pkt);
    var txLen;
    fits, txLen := FrameTx(pkt, txBuf);
    data := [];
    if !fits { return; }
    if respLen <= MAX_RESPONSE_DATA {
      data := pkt.payload[4..pkt.payloadLen];
      assert pkt.payload[..pkt.payloadLen] == pkt.payload[..4] + data;
      assert pkt.payload[..pkt.payloadLen] == Response(request, cc, data);
    } else {
      assert pkt.payload[..pkt.payloadLen] == pkt.payload[..4][..pkt.payloadLen];
    }
    err := hal.Transmit(txBuf, txLen);
  }

  /**
   * A framed response, received by any peer running this stack in whatever state, comes out
   * as a message with the request's identity and the completion code ahead of the data.
   */
  lemma ResponseRoundTrip(st: Reasm, v: Byte, d: Byte, s: Byte, request: PldmMsg, cc: Byte, data: Bytes)
    requires 8 + |data| <= SMB_MAX_BLOCK_SIZE
    ensures
      var block := Frame(v, d, s, Response(request, cc, data));
      |block| <= SMB_MAX_BLOCK_SIZE &&
      Receive(st, block).1 ==
        Request(PldmMsg(request.instanceId, request.pldmType, request.command, 0, [cc] + data))
  {
    var payload := Response(request, cc, data);
    var block: RxMsg := Frame(v, d, s, payload);
    hide Step, Frame, Response;
    FrameFlags(v, d, s, payload);
    StepAtStart(st, block);
    ChainOne(block);
    assert Parse(payload) == Some(PldmMsg(request.instanceId, request.pldmType, request.command, 0, [cc] + data)) by {
      ParseResponse(request, cc, data);
    }
  }

  lemma FrameFlags(v: Byte, d: Byte, s: Byte, payload: Bytes)
    requires 4 + |payload| <= SMB_MAX_BLOCK_SIZE
    ensures
      var block := Frame(v, d, s, payload);
      |block| == 4 + |payload| && Payload(block) == payload && Som(block) && Eom(block)
  {}

  lemma ParseResponse(request: PldmMsg, cc: Byte, data: Bytes)
    ensures
      Parse(Response(request, cc, data)) ==
      Some(PldmMsg(request.instanceId, request.pldmType, request.command, 0, [cc] + data))
  {
    assert Response(request, cc, data)[3..] == [cc] + data;
  }

  /** A closed run of packets with more payload than the output packet holds. */
  ghost predicate Overlong(run: seq<RxMsg>) {
    Closed(run) && |Payloads(run)| > PACKET_PAYLOAD
  }

  /** Whether packet m completes, after history h, a message longer than the output packet holds. */
  ghost predicate Overruns(h: seq<RxMsg>, m: RxMsg) {
    |m| >= 4 && exists i: nat :: i < |Long(h + [m])| && Overlong(Long(h + [m])[i..])
  }

  /**
   * The copy past the end of the output packet happens exactly when a packet closes a run with more than 64
   * payload bytes, over every history.
   */
  lemma OversizeIffOverlongRun(h: seq<RxMsg>, m: RxMsg)
    ensures Receive(After(INIT, h), m).1 == Oversize <==> Overruns(h, m)
  {
    hide Step, After, Long, Closed, Payloads, Parse;
    DeliveryIsClosedRun(h, m);
    var r := Step(After(INIT, h), m).1;
    var l := Long(h + [m]);
    if r != Incomplete {
      var i: nat :| i < |l| && Closed(l[i..]);
      assert r == Delivery(m, Payloads(l[i..]));
      assert r.TooLong? ==> Overlong(l[i..]);
    }
  }

  /** A closed run whose payload fits the packet buffer and is a PLDM message. */
  ghost predicate Carries(run: seq<RxMsg>, msg: PldmMsg) {
    Closed(run) && |Payloads(run)| <= PACKET_PAYLOAD && Parse(Payloads(run)) == Some(msg)
  }

  /** Whether packet m completes, after history h, a run that carries the message. */
  ghost predicate Completes(h: seq<RxMsg>, m: RxMsg, msg: PldmMsg) {
    |m| >= 4 && exists i: nat :: i < |Long(h + [m])| && Carries(Long(h + [m])[i..], msg)
  }

  /**
   * What a received block leads to, on the bytes of the run it closes: from 3 to 64 of them are a request whose first
   * three bytes are instance, type and command and whose rest, possibly empty, is its data; fewer are none; more
   * overrun the packet. A block that closes no run leads to nothing.
   */
  lemma RequestBytes(h: seq<RxMsg>, m: RxMsg)
    ensures
      var l, r := Long(h + [m]), Receive(After(INIT, h), m).1;
      && (r != NoRequest ==> |m| >= 4 && exists i: nat :: i < |l| && Closed(l[i..]))
      && forall i: nat | |m| >= 4 && i < |l| && Closed(l[i..]) ::
           var p := Payloads(l[i..]);
           if |p| < 3 then r == NoRequest
           else if |p| <= 64 then r == Request(PldmMsg(p[0], p[1], p[2], 0, p[3..]))
           else r == Oversize
  {
    hide Step, After, Long, Closed, Payloads;
    DeliveryIsClosedRun(h, m);
  }

  /** The requests that come out are exactly the messages that the history's closed runs carry. */
  lemma RequestIffClosedRun(h: seq<RxMsg>, m: RxMsg, msg: PldmMsg)
    ensures Receive(After(INIT, h), m).1 == Request(msg) <==> Completes(h, m, msg)
  {
    hide Step, After, Long, Closed, Payloads, Parse;
    DeliveryIsClosedRun(h, m);
    var r := Step(After(INIT, h), m).1;
    var l := Long(h + [m]);
    if r != Incomplete {
      var i: nat :| i < |l| && Closed(l[i..]);
      assert r == Delivery(m, Payloads(l[i..]));
      assert Receive(After(INIT, h), m).1 == Request(msg) ==> Carries(l[i..], msg);
    }
  }
}
