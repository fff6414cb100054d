/** Dispatch of parsed requests: what each PLDM command answers and whether it posts a flash command. */
module Dispatch {
  import opened Common
  import opened Pldm
  import opened SensorMgr
  import opened NicFlashMgr

  const PLDM_TYPE_SENSOR_MONITORING := 2
  const PLDM_TYPE_FW_UPDATE := 5
  const PLDM_CMD_GET_SENSOR_READING := 0x11
  const PLDM_CMD_REQUEST_UPDATE := 0x10
  const PLDM_CC_SUCCESS: Byte := 0x00
  const PLDM_CC_ERROR: Byte := 0x01
  const PLDM_CC_INVALID_CMD: Byte := 0x04
  const QUEUE_DEPTH_FLASH := 2
  const RECORD_SIZE := 16

  // ---- Little-endian layout ------------------------------------------------------

  function Le16(n: nat): (b: Bytes)
    ensures |b| == 2
  {
    [n % 0x100, n / 0x100 % 0x100]
  }

  function Le32(n: nat): (b: Bytes)
    ensures |b| == 4
  {
    Le16(n % 0x1_0000) + Le16(n / 0x1_0000)
  }

  function FromLe16(b: Bytes): (n: nat)
    requires |b| == 2
    ensures n < 0x1_0000
  {
    var lo: nat, hi: nat := b[0], b[1];
    lo + hi * 0x100
  }

  function FromLe32(b: Bytes): (n: nat)
    requires |b| == 4
    ensures n < 0x1_0000_0000
  {
    FromLe16(b[..2]) + FromLe16(b[2..]) * 0x1_0000
  }

  lemma Le16RoundTrip(n: nat)
    requires n < 0x1_0000
    ensures FromLe16(Le16(n)) == n
  {}

  lemma Le32RoundTrip(n: nat)
    requires n < 0x1_0000_0000
    ensures FromLe32(Le32(n)) == n
  {
    hide Le16, FromLe16;
    var b := Le32(n);
    assert b[..2] == Le16(n % 0x1_0000) && b[2..] == Le16(n / 0x1_0000);
    Le16RoundTrip(n % 0x1_0000);
    Le16RoundTrip(n / 0x1_0000);
  }

  function StateCode(s: SensorState): Byte {
    match s
    case Normal => 0
    case Warning => 1
    case Critical => 2
    case Failed => 3
    case Unavailable => 4
  }

  /** A signed 16-bit value as it lies in memory, and back. */
  function Unsigned16(x: Int16): (n: nat)
    ensures n < 0x1_0000
  {
    x % 0x1_0000
  }

  lemma Signed16RoundTrip(x: Int16)
    ensures Wrap16(Unsigned16(x)) == x
  {}

  /** The 16 bytes of a sensor record as the structure lies in memory. */
  function Pack(rec: SensorRecord): (b: Bytes)
    ensures |b| == RECORD_SIZE
  {
    Le16(rec.sensorId % 0x1_0000) + [rec.sensorType, StateCode(rec.state)]
    + Le16(Unsigned16(rec.raw)) + Le16(Unsigned16(rec.scaled)) + [rec.unit, 0, 0, 0] + Le32(rec.timestamp % 0x1_0000_0000)
  }

  // ---- Dispatch ---------------------------------------------------------------------

  /** What a cached read answers: for a sensor the cache covers, the record that was copied under the mutex. */
  function GetCached(id: nat, rec: SensorRecord): Option<SensorRecord> {
    if id >= POPULATED then None else Some(rec)
  }

  /** The flash command an update request asks for: offset and size from its first eight bytes, or zeros. */
  function UpdateCommand(msg: PldmMsg): FlashCmd {
    if |msg.payload| >= 8 then FlashCmd(UpdateStart, FromLe32(msg.payload[..4]), FromLe32(msg.payload[4..8]))
    else FlashCmd(UpdateStart, 0, 0)
  }

  /** A request that carries an offset and a size asks for exactly that update. */
  lemma UpdateCommandCarries(msg: PldmMsg, offset: nat, size: nat, rest: Bytes)
    requires offset < ADDRESS_MODULUS && size < ADDRESS_MODULUS
    requires msg.payload == Le32(offset) + Le32(size) + rest
    ensures UpdateCommand(msg) == FlashCmd(UpdateStart, offset, size)
  {
    hide Le32, FromLe32;
    assert msg.payload[..4] == Le32(offset) && msg.payload[4..8] == Le32(size);
    Le32RoundTrip(offset);
    Le32RoundTrip(size);
  }

  predicate IsReading(msg: PldmMsg) {
    msg.pldmType == PLDM_TYPE_SENSOR_MONITORING && msg.command == PLDM_CMD_GET_SENSOR_READING
  }

  predicate IsUpdate(msg: PldmMsg) {
    msg.pldmType == PLDM_TYPE_FW_UPDATE && msg.command == PLDM_CMD_REQUEST_UPDATE
  }

  function SensorAsked(msg: PldmMsg): nat { if |msg.payload| > 0 then msg.payload[0] else 0 }

  /** Completion code, response data, and the flash command posted, if any. */
  datatype Outcome = Outcome(cc: Byte, data: Bytes, cmd: Option<FlashCmd>)

  /** How a request is answered; rec is the record that its cache read, if it makes one, returns. */
  function OutcomeOf(msg: PldmMsg, rec: SensorRecord, flashQueued: nat): Outcome {
    if IsReading(msg) then
      match GetCached(SensorAsked(msg), rec)
      case Some(found) => Outcome(PLDM_CC_SUCCESS, Pack(found), None)
      case None => Outcome(PLDM_CC_ERROR, [], None)
    else if IsUpdate(msg) then
      if flashQueued < QUEUE_DEPTH_FLASH then Outcome(PLDM_CC_SUCCESS, [], Some(UpdateCommand(msg)))
      else Outcome(PLDM_CC_ERROR, [], None)
    else Outcome(PLDM_CC_INVALID_CMD, [], None)
  }

  // ---- The same on bytes ----------------------------------------------------------------

  /** The number that two bytes stand for, the low one first. */
  lemma TwoBytes(lo: Byte, hi: Byte)
    ensures FromLe16([lo, hi]) == lo + 256 * hi
  {}

  lemma FourBytes(b0: Byte, b1: Byte, b2: Byte, b3: Byte)
    ensures FromLe32([b0, b1, b2, b3]) == b0 + 256 * b1 + 65536 * b2 + 16777216 * b3
  {
    var b := [b0, b1, b2, b3];
    assert b[..2] == [b0, b1] && b[2..] == [b2, b3];
    TwoBytes(b0, b1);
    TwoBytes(b2, b3);
  }

  lemma Le16Bytes(n: nat)
    requires n < 0x1_0000
    ensures Le16(n)[0] as int + 256 * Le16(n)[1] as int == n
  {
    var b := Le16(n);
    assert b == [b[0], b[1]];
    TwoBytes(b[0], b[1]);
    Le16RoundTrip(n);
  }

  lemma Le32Bytes(n: nat)
    requires n < 0x1_0000_0000
    ensures
      var b := Le32(n);
      b[0] as int + 256 * b[1] as int + 65536 * b[2] as int + 16777216 * b[3] as int == n
  {
    hide Le32;
    var b := Le32(n);
    assert b == [b[0], b[1], b[2], b[3]];
    FourBytes(b[0], b[1], b[2], b[3]);
    Le32RoundTrip(n);
  }

  /** The sixteen bytes of a record, one field after the other. */
  lemma PackBytes(rec: SensorRecord)
    ensures
      var b := Pack(rec);
      && b[0] as int + 256 * b[1] as int == rec.sensorId % 0x1_0000
      && b[2] == rec.sensorType
      && (b[3] == 0 <==> rec.state == Normal) && (b[3] == 1 <==> rec.state == Warning)
      && (b[3] == 2 <==> rec.state == Critical) && (b[3] == 3 <==> rec.state == Failed)
      && (b[3] == 4 <==> rec.state == Unavailable)
      && b[4] as int + 256 * b[5] as int == rec.raw % 0x1_0000
      && b[6] as int + 256 * b[7] as int == rec.scaled % 0x1_0000
      && b[8] == rec.unit && b[9..12] == [0, 0, 0]
      && (b[12] as int + 256 * b[13] as int + 65536 * b[14] as int + 16777216 * b[15] as int ==
          rec.timestamp % 0x1_0000_0000)
  {
    hide Le16, Le32;
    Le16Bytes(rec.sensorId % 0x1_0000);
    Le16Bytes(Unsigned16(rec.raw));
    Le16Bytes(Unsigned16(rec.scaled));
    Le32Bytes(rec.timestamp % 0x1_0000_0000);
  }

  /** A reading request asks for the sensor in its first payload byte, or for sensor 0 if it has none. */
  lemma AskedByBytes(msg: PldmMsg)
    ensures IsReading(msg) <==> msg.pldmType == 2 && msg.command == 0x11
    ensures SensorAsked(msg) == if msg.payload == [] then 0 else msg.payload[0]
  {}

  /** The offset and size in the bytes of an update request: the first eight if it has them, or none. */
  lemma UpdateBytes(msg: PldmMsg)
    ensures
      var p, c := msg.payload, UpdateCommand(msg);
      && c.cmdType == UpdateStart
      && (|p| < 8 ==> c.imageOffset == 0 && c.imageSize == 0)
      && (|p| >= 8 ==>
        && c.imageOffset == p[0] as int + 256 * p[1] as int + 65536 * p[2] as int + 16777216 * p[3] as int
        && c.imageSize == p[4] as int + 256 * p[5] as int + 65536 * p[6] as int + 16777216 * p[7] as int)
  {
    hide FromLe32;
    var p := msg.payload;
    if |p| >= 8 {
      assert p[..4] == [p[0], p[1], p[2], p[3]] && p[4..8] == [p[4], p[5], p[6], p[7]];
      FourBytes(p[0], p[1], p[2], p[3]);
      FourBytes(p[4], p[5], p[6], p[7]);
    }
  }

  /** How each kind of request is answered, on its bytes. */
  lemma AnswerOf(msg: PldmMsg, rec: SensorRecord, queued: nat)
    ensures
      var o, p := OutcomeOf(msg, rec, queued), msg.payload;
      if msg.pldmType == 2 && msg.command == 0x11 then
        if p == [] || p[0] < 2 then o == Outcome(0, Pack(rec), None) else o == Outcome(1, [], None)
      else if msg.pldmType == 5 && msg.command == 0x10 then
        if queued < 2 then o == Outcome(0, [], Some(UpdateCommand(msg))) else o == Outcome(1, [], None)
      else o == Outcome(4, [], None)
  {
    hide Pack, UpdateCommand;
  }

  // ---- Reading an answer back ---------------------------------------------------------

  datatype Reading = Reading(raw: Int16, scaled: Int16, stateCode: Byte, timestamp: nat)

  /** What the BMC reads out of a sensor response's 16 data bytes. */
  function Unpack(b: Bytes): Reading
    requires |b| == RECORD_SIZE
  {
    Reading(Wrap16(FromLe16(b[4..6])), Wrap16(FromLe16(b[6..8])), b[3], FromLe32(b[12..16]))
  }

  /** The record survives the layout, its timestamp modulo 2^32. */
  lemma UnpackPack(rec: SensorRecord)
    ensures Unpack(Pack(rec)) == Reading(rec.raw, rec.scaled, StateCode(rec.state), rec.timestamp % 0x1_0000_0000)
  {
    hide Le16, FromLe16, Le32, FromLe32, Unsigned16, Wrap16;
    var b := Pack(rec);
    assert b[4..6] == Le16(Unsigned16(rec.raw));
    assert b[6..8] == Le16(Unsigned16(rec.scaled));
    assert b[12..16] == Le32(rec.timestamp % 0x1_0000_0000);
    Le16RoundTrip(Unsigned16(rec.raw));
    Le16RoundTrip(Unsigned16(rec.scaled));
    Le32RoundTrip(rec.timestamp % 0x1_0000_0000);
    Signed16RoundTrip(rec.raw);
    Signed16RoundTrip(rec.scaled);
  }
}
