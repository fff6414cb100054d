/** PLDM messages: parsing a delivered MCTP payload, and building a response payload. */
module Pldm {
  import opened Common
  import opened Rtos
  import opened Mctp

  const PLDM_MAX_PAYLOAD := 256

  datatype PldmMsg = PldmMsg(instanceId: Byte, pldmType: Byte, command: Byte, completionCode: Byte, payload: Bytes)

  /** A payload too short for the three header bytes is no message. */
  function Parse(payload: Bytes): (r: Option<PldmMsg>) {
    if |payload| < 3 then None else Some(PldmMsg(payload[0], payload[1], payload[2], 0, payload[3..]))
  }

  /** Three bytes of header and any data, also none, are a message; anything shorter is not. */
  lemma ParseBytes(i: Byte, t: Byte, c: Byte, data: Bytes)
    ensures Parse([i, t, c] + data) == Some(PldmMsg(i, t, c, 0, data))
    ensures Parse([]) == Parse([i]) == Parse([i, t]) == None
  {
    assert ([i, t, c] + data)[3..] == data;
  }

  /** The payload of a response: the request's header, the completion code, the data. */
  function Response(request: PldmMsg, cc: Byte, data: Bytes): Bytes {
    [request.instanceId, request.pldmType, request.command, cc] + data
  }

  /** A message buffer the code fills in place. */
  class MsgBuf {
    var instanceId: Byte
    var pldmType: Byte
    var command: Byte
    var completionCode: Byte
    var payloadLen: nat
    const payload: array<Byte>

    constructor ()
      ensures Valid() && fresh(payload)
    {
      instanceId, pldmType, command, completionCode, payloadLen := *, *, *, *, 0;
      payload := new Byte[PLDM_MAX_PAYLOAD];
    }

    ghost predicate Valid()
      reads this
    {
      payload.Length == PLDM_MAX_PAYLOAD && payloadLen <= PLDM_MAX_PAYLOAD
    }

    function Value(): PldmMsg
      requires Valid()
      reads this, payload
    {
      PldmMsg(instanceId, pldmType, command, completionCode, payload[..payloadLen])
    }
  }

  method PldmParse(pkt: MctpPacket, out: MsgBuf) returns (err: Err)
    requires |pkt.payload| <= PACKET_PAYLOAD && out.Valid()
    modifies out, out.payload
    ensures out.Valid()
    ensures if Parse(pkt.payload) == None then err == Fail else err == Ok && out.Value() == Parse(pkt.payload).value
  {
    if |pkt.payload| < 3 { return Fail; }
    out.instanceId := pkt.payload[0];
    out.pldmType := pkt.payload[1];
    out.command := pkt.payload[2];
    out.completionCode := 0;
    var dataLen := |pkt.payload| - 3;
    if dataLen > PLDM_MAX_PAYLOAD { dataLen := PLDM_MAX_PAYLOAD; }
    out.payloadLen := dataLen;
    if dataLen > 0 {
      forall i | 0 <= i < dataLen {
        out.payload[i] := pkt.payload[3 + i];
      }
    }
    assert out.payload[..dataLen] == pkt.payload[3..];
    return Ok;
  }

  /**
   * Builds a response payload. Data that would not fit the packet is cut off; without a data
   * pointer the length is taken as given and the bytes after the completion code are not set.
   */
  method PldmBuildResponse(request: PldmMsg, respData: array?<Byte>, respLen: nat, cc: Byte, out: PacketBuf)
    returns (err: Err)
    requires out.Valid() && respLen < 0x1_0000 && respData != out.payload
    requires respData != null ==> respLen <= respData.Length
    modifies out`payloadLen, out.payload
    ensures err == Ok && out.Valid()
    ensures respData != null ==>
      var n := if respLen > PACKET_PAYLOAD - 4 then PACKET_PAYLOAD - 4 else respLen;
      out.payloadLen == 4 + n && out.payload[..out.payloadLen] == Response(request, cc, respData[..n])
    ensures respData == null ==>
      out.payloadLen == (4 + respLen) % 0x1_0000 && out.payload[..4] == Response(request, cc, [])
  {
    out.payload[0] := request.instanceId;
    out.payload[1] := request.pldmType;
    out.payload[2] := request.command;
    out.payload[3] := cc;
    ghost var header := [request.instanceId, request.pldmType, request.command, cc];
    assert out.payload[..4] == header;
    var n := respLen;
    if respLen > 0 && respData != null {
      if n > PACKET_PAYLOAD - 4 {
        n := PACKET_PAYLOAD - 4;
      }
      forall i | 0 <= i < n {
        out.payload[4 + i] := respData[i];
      }
      assert out.payload[..4] == header;
      assert out.payload[4..4 + n] == respData[..n];
      assert out.payload[..4 + n] == header + respData[..n];
    } else if respData != null {
      assert out.payload[..4] == header + respData[..0];
    }
    out.payloadLen := (4 + n) % 0x1_0000;
    return Ok;
  }
}
