/**
 * MCTP transport: reassembly of fragments into messages, and framing of responses.
 * Step is the receiver as a function on values; the class is the code that keeps the
 * same state in a fixed buffer.
 */
module Mctp {
  import opened Common

  const BUFFER := 256
  const PACKET_PAYLOAD := 64
  const SMB_MAX_BLOCK_SIZE := 32

  /** The bytes of one received SMBus block. */
  type RxMsg = m: Bytes | |m| <= SMB_MAX_BLOCK_SIZE

  /** Start of message: flag 0x80 of the flags byte. */
  predicate Som(m: RxMsg) requires |m| >= 4 { m[3] / 0x80 % 2 == 1 }

  /** End of message: flag 0x40. */
  predicate Eom(m: RxMsg) requires |m| >= 4 { m[3] / 0x40 % 2 == 1 }

  /** The two-bit packet sequence number, mask 0x30. */
  function Seq(m: RxMsg): (s: nat)
    requires |m| >= 4
    ensures s < 4
  {
    m[3] / 0x10 % 4
  }

  function Payload(m: RxMsg): Bytes requires |m| >= 4 { m[4..] }

  /** The flags byte taken apart: a start bit, an end bit, two bits of sequence number and four of tag. */
  lemma FlagsByte(m: RxMsg, start: nat, end: nat, number: nat, tag: nat)
    requires |m| >= 4 && start < 2 && end < 2 && number < 4 && tag < 16
    requires m[3] == 128 * start + 64 * end + 16 * number + tag
    ensures (Som(m) <==> start == 1) && (Eom(m) <==> end == 1) && Seq(m) == number
  {}

  datatype MctpPacket = MctpPacket(hdrVersion: Byte, destEid: Byte, srcEid: Byte, flagsSeq: Byte, payload: Bytes)

  /**
   * What one received block leads to. The output packet holds 64 payload bytes while the
   * reassembly buffer holds 256; a message in between does not fit the packet, and nothing
   * is claimed about the packet then.
   */
  datatype RxResult = Incomplete | Complete(packet: MctpPacket) | TooLong(total: nat)

  /** The receiver: the bytes gathered so far, the next sequence number, and whether a message is open. */
  datatype Reasm = Reasm(buf: Bytes, expected: nat, active: bool)

  const INIT := Reasm([], 0, false)

  function Delivery(m: RxMsg, payload: Bytes): RxResult
    requires |m| >= 4
  {
    if |payload| <= PACKET_PAYLOAD then Complete(MctpPacket(m[0], m[1], m[2], m[3], payload)) else TooLong(|payload|)
  }

  function Step(st: Reasm, m: RxMsg): (Reasm, RxResult)
  {
    if |m| < 4 then (st, Incomplete)
    else
      var s := if Som(m) then Reasm([], Seq(m), true) else st;
      if !s.active then (s, Incomplete)
      else if Seq(m) != s.expected || |s.buf| + |Payload(m)| > BUFFER then (INIT, Incomplete)
      else
        var buf := s.buf + Payload(m);
        var next := (s.expected + 1) % 4;
        if Eom(m) then (Reasm([], next, false), Delivery(m, buf)) else (Reasm(buf, next, true), Incomplete)
  }

  class Reassembler {
    const buf: array<Byte>
    var offset: nat
    var expectedSeq: nat
    var active: bool

    ghost predicate Valid()
      reads this
    {
      buf.Length == BUFFER && offset <= BUFFER && expectedSeq < 4
    }

    ghost function State(): Reasm
      reads this, buf
      requires Valid()
    {
      Reasm(buf[..offset], expectedSeq, active)
    }

    constructor ()
      ensures Valid() && State() == INIT && fresh(buf)
    {
      buf := new Byte[BUFFER](_ => 0);
      offset, expectedSeq, active := 0, 0, false;
    }

    method Reset()
      requires Valid()
      modifies this
      ensures Valid() && State() == INIT
    {
      offset := 0;
      expectedSeq := 0;
      active := false;
    }

    method ProcessRx(m: RxMsg) returns (r: RxResult)
      requires Valid()
      modifies this, buf
      ensures Valid()
      ensures (State(), r) == Step(old(State()), m)
    {
      if |m| < 4 {
        return Incomplete;
      }
      var payload := m[4..];
      if Som(m) {
        offset := 0;
        active := true;
        expectedSeq := Seq(m);
      }
      if !active {
        return Incomplete;
      }
      if Seq(m) != expectedSeq {
        Reset();
        return Incomplete;
      }
      if offset + |payload| > buf.Length {
        Reset();
        return Incomplete;
      }
      ghost var gathered := buf[..offset];
      forall i | 0 <= i < |payload| {
        buf[offset + i] := payload[i];
      }
      offset := offset + |payload|;
      assert buf[..offset] == gathered + payload;
      expectedSeq := (expectedSeq + 1) % 4;
      if Eom(m) {
        r := Delivery(m, buf[..offset]);
        active := false;
        offset := 0;
        return;
      }
      return Incomplete;
    }
  }

  /** A packet buffer the code fills in place. */
  class PacketBuf {
    var hdrVersion: Byte
    var destEid: Byte
    var srcEid: Byte
    var flagsSeq: Byte
    var payloadLen: nat
    const payload: array<Byte>

    ghost predicate Valid()
      reads this
    {
      payload.Length == PACKET_PAYLOAD
    }

    /** A local buffer starts with whatever the stack held. */
    constructor (v: Byte, d: Byte, s: Byte, f: Byte)
      ensures Valid() && fresh(payload)
      ensures hdrVersion == v && destEid == d && srcEid == s && flagsSeq == f
    {
      hdrVersion, destEid, srcEid, flagsSeq := v, d, s, f;
      payloadLen := 0;
      payload := new Byte[PACKET_PAYLOAD];
    }
  }

  /** The block that carries a payload in a single packet: sequence number 0, start and end flags. */
  function Frame(v: Byte, d: Byte, s: Byte, payload: Bytes): Bytes {
    [v, d, s, 0xC0] + payload
  }

  /**
   * Frames a packet as one block. The code checks neither length against its buffer: a payload length beyond the
   * packet's 64 bytes or the caller's buffer makes the copy run outside them, and nothing is claimed then.
   */
  method FrameTx(pkt: PacketBuf, txBuf: array<Byte>) returns (fits: bool, txLen: nat)
    requires pkt.Valid() && txBuf != pkt.payload
    modifies txBuf
    ensures fits <==> pkt.payloadLen <= PACKET_PAYLOAD && 4 + pkt.payloadLen <= txBuf.Length
    ensures fits ==> txLen == 4 + pkt.payloadLen
    ensures fits ==>
      txBuf[..txLen] == Frame(pkt.hdrVersion, pkt.destEid, pkt.srcEid, pkt.payload[..pkt.payloadLen])
    ensures fits ==> txBuf[txLen..] == old(txBuf[txLen..])
  {
    fits := pkt.payloadLen <= PACKET_PAYLOAD && 4 + pkt.payloadLen <= txBuf.Length;
    if !fits {
      return false, 0;
    }
    txBuf[0] := pkt.hdrVersion;
    txBuf[1] := pkt.destEid;
    txBuf[2] := pkt.srcEid;
    txBuf[3] := 0x80 + 0x40;
    forall i | 0 <= i < pkt.payloadLen {
      txBuf[4 + i] := pkt.payload[i];
    }
    txLen := 4 + pkt.payloadLen;
    assert txBuf[4..txLen] == pkt.payload[..pkt.payloadLen];
    assert txBuf[..txLen] == txBuf[..4] + txBuf[4..txLen];
  }
}
