/** Sensor calibration, thresholds and the unrolled polling loop over the cache. */
module SensorMgr {
  import opened Common

  const MAX_SENSORS := 16
  const POPULATED := 2

  type Int16 = x: int | -0x8000 <= x < 0x8000

  /** Conversion of a 32-bit value to int16_t: the low 16 bits, as two's complement. */
  function Wrap16(x: int): Int16 { (x + 0x8000) % 0x1_0000 - 0x8000 }

  /** C division: truncation toward zero. */
  function TruncDiv(a: int, b: int): int
    requires b > 0
  {
    if a >= 0 then a / b else -(-a / b)
  }

  datatype SensorState = Normal | Warning | Critical | Failed | Unavailable

  datatype SensorRecord = SensorRecord(
    sensorId: nat, sensorType: Byte, state: SensorState, raw: Int16, scaled: Int16, unit: Byte, timestamp: nat)

  const ZERO_RECORD := SensorRecord(0, 0, Normal, 0, 0, 0, 0)

  datatype Cal = Cal(offset: Int16, scaleNum: nat, scaleDen: nat, upperCritical: Int16, lowerCritical: Int16)

  /** The calibration table: two populated temperature sensors, the other entries zero. */
  function Table(): (t: seq<Cal>)
    ensures |t| == MAX_SENSORS
  {
    seq(MAX_SENSORS, i => if i < POPULATED then Cal(0, 1, 16, 85, -40) else Cal(0, 0, 0, 0, 0))
  }

  /** The calibration has no division by zero and no 32-bit overflow on this reading. */
  predicate Defined(cal: Cal, raw: Int16) {
    cal.scaleDen > 0 && -0x8000_0000 <= (raw + cal.offset) * cal.scaleNum < 0x8000_0000
  }

  function ApplyCalibration(cal: Cal, raw: Int16): Int16
    requires Defined(cal, raw)
  {
    Wrap16(TruncDiv((raw + cal.offset) * cal.scaleNum, cal.scaleDen))
  }

  function CheckThresholds(cal: Cal, scaled: Int16): SensorState {
    if scaled >= cal.upperCritical || scaled <= cal.lowerCritical then Critical else Normal
  }

  // ---- Calibration ------------------------------------------------------------------

  /** A populated sensor's calibration is defined on every reading and never wraps. */
  lemma PopulatedCalibration(id: nat, raw: Int16)
    requires id < POPULATED
    ensures Defined(Table()[id], raw)
    ensures ApplyCalibration(Table()[id], raw) == TruncDiv(raw, 16)
    ensures -2048 <= ApplyCalibration(Table()[id], raw) <= 2047
  {
    assert TruncDiv(raw * 1, 16) == TruncDiv(raw, 16);
  }

  /** A populated sensor is normal on the open range of raw readings (-640, 1360) and critical outside it. */
  lemma CriticalIff(id: nat, raw: Int16)
    requires id < POPULATED
    ensures Defined(Table()[id], raw)
    ensures
      (CheckThresholds(Table()[id], ApplyCalibration(Table()[id], raw)) ==
       if -640 < raw < 1360 then Normal else Critical)
  {
    PopulatedCalibration(id, raw);
  }

  /** C's division: the remainder is smaller than the divisor and has the sign of the dividend. */
  lemma TruncDivIs(a: int, b: int)
    requires b > 0
    ensures
      var rest := a - b * TruncDiv(a, b);
      -b < rest < b && (a >= 0 ==> rest >= 0) && (a <= 0 ==> rest <= 0)
  {}

  /** Conversion to 16 bits keeps the value modulo 2^16. */
  lemma Wrap16Is(x: int)
    ensures (x - Wrap16(x)) % 0x1_0000 == 0
    ensures -0x8000 <= x < 0x8000 ==> Wrap16(x) == x
  {}

  lemma DivMonotone(a: int, b: int, d: int)
    requires d > 0 && 0 <= a <= b
    ensures 0 <= a / d <= b / d
  {
    var q, r := a / d, b / d;
    assert a == d * q + a % d && b == d * r + b % d;
    if q > r {
      assert d * q >= d * (r + 1) by { MulMonotone(r + 1, q, d); }
    }
    if q < 0 {
      assert d * q <= d * -1 by { MulMonotone(q, -1, d); }
    }
  }

  lemma MulMonotone(a: int, b: int, d: int)
    requires a <= b && d >= 0
    ensures d * a <= d * b && a * d <= b * d
  {}

  /** Truncating division keeps order, also across zero. */
  lemma TruncDivMonotone(a: int, b: int, d: int)
    requires d > 0 && a <= b
    ensures TruncDiv(a, d) <= TruncDiv(b, d)
  {
    if a >= 0 {
      DivMonotone(a, b, d);
    } else if b >= 0 {
      DivMonotone(0, b, d);
      DivMonotone(0, -a, d);
    } else {
      DivMonotone(-b, -a, d);
    }
  }

  /** A higher reading never calibrates lower, as long as neither result wraps. */
  lemma CalibrationMonotone(cal: Cal, low: Int16, high: Int16)
    requires Defined(cal, low) && Defined(cal, high) && low <= high
    requires TruncDiv((low + cal.offset) * cal.scaleNum, cal.scaleDen) >= -0x8000
    requires TruncDiv((high + cal.offset) * cal.scaleNum, cal.scaleDen) < 0x8000
    ensures ApplyCalibration(cal, low) <= ApplyCalibration(cal, high)
  {
    MulMonotone(low + cal.offset, high + cal.offset, cal.scaleNum);
    TruncDivMonotone((low + cal.offset) * cal.scaleNum, (high + cal.offset) * cal.scaleNum, cal.scaleDen);
  }

  // ---- Polling -------------------------------------------------------------------------

  /** A record after a poll of its sensor: refreshed by a reading, kept when the read fails. */
  function Refreshed(rec: SensorRecord, cal: Cal, read: Option<Int16>, tick: nat): SensorRecord
    requires read.Some? ==> Defined(cal, read.value)
  {
    match read
    case None => rec
    case Some(raw) =>
      var scaled := ApplyCalibration(cal, raw);
      rec.(raw := raw, scaled := scaled, state := CheckThresholds(cal, scaled), timestamp := tick)
  }

  /** What the sensors answer during one poll, and the tick count when each answer is stored. */
  datatype Readings = Readings(read: seq<Option<Int16>>, tick: seq<nat>)

  ghost predicate Readable(cals: seq<Cal>, r: Readings, count: nat) {
    && count <= |cals| && count <= |r.read| && count <= |r.tick|
    && forall i :: 0 <= i < count && r.read[i].Some? ==> Defined(cals[i], r.read[i].value)
  }

  /** The cache after polling the first n sensors one at a time. */
  ghost function Polled(records: seq<SensorRecord>, cals: seq<Cal>, r: Readings, n: nat): (p: seq<SensorRecord>)
    requires n <= |records| && Readable(cals, r, n)
    ensures |p| == |records|
    decreases n
  {
    if n == 0 then records
    else
      var p := Polled(records, cals, r, n - 1);
      p[n - 1 := Refreshed(p[n - 1], cals[n - 1], r.read[n - 1], r.tick[n - 1])]
  }

  /** Each sensor polled so far shows its own reading; a failed read keeps its record, and the rest are untouched. */
  lemma {:induction false} PolledAt(records: seq<SensorRecord>, cals: seq<Cal>, r: Readings, n: nat, i: nat)
    requires n <= |records| && Readable(cals, r, n) && i < |records|
    ensures Polled(records, cals, r, n)[i] ==
      if i < n then Refreshed(records[i], cals[i], r.read[i], r.tick[i]) else records[i]
    decreases n
  {
    hide Refreshed;
    if n > 0 {
      PolledAt(records, cals, r, n - 1, i);
    }
  }

  /**
   * What one poll leaves in the record of a sensor it polled, field by field: the reading, its calibrated value under
   * C's division and conversion, the state by the sensor's own two thresholds, the time; the rest as it was. After a
   * failed read nothing has changed.
   */
  lemma PolledFields(records: seq<SensorRecord>, cals: seq<Cal>, r: Readings, n: nat, i: nat)
    requires n <= |records| && Readable(cals, r, n) && i < n
    ensures
      var was, now, cal := records[i], Polled(records, cals, r, n)[i], cals[i];
      if r.read[i] == None then now == was
      else
        var raw := r.read[i].value;
        && now.raw == raw && now.timestamp == r.tick[i]
        && cal.scaleDen > 0
        && now.scaled == Wrap16(TruncDiv((raw + cal.offset) * cal.scaleNum, cal.scaleDen))
        && now.state == (if cal.lowerCritical < now.scaled < cal.upperCritical then Normal else Critical)
        && now.sensorId == was.sensorId && now.sensorType == was.sensorType && now.unit == was.unit
  {
    hide Polled, TruncDiv, Wrap16;
    PolledAt(records, cals, r, n, i);
  }

  lemma PolledNone(records: seq<SensorRecord>, cals: seq<Cal>, r: Readings)
    ensures Polled(records, cals, r, 0) == records
  {}

  class Poller {
    const records: array<SensorRecord>
    const cals: seq<Cal>
    var count: nat

    ghost predicate Valid()
      reads this
    {
      records.Length == MAX_SENSORS && |cals| == MAX_SENSORS && count <= MAX_SENSORS
    }

    constructor (cals: seq<Cal>)
      requires |cals| == MAX_SENSORS
      ensures Valid() && fresh(records) && this.cals == cals && count == POPULATED
      ensures forall i :: 0 <= i < MAX_SENSORS ==> records[i] == ZERO_RECORD
    {
      this.cals := cals;
      records := new SensorRecord[MAX_SENSORS](_ => ZERO_RECORD);
      count := POPULATED;
    }

    /** Polls one sensor, the next after the first i. */
    method PollSensor(i: nat, r: Readings, ghost was: seq<SensorRecord>)
      requires Valid() && i < count && Readable(cals, r, count)
      requires |was| == MAX_SENSORS && records[..] == Polled(was, cals, r, i)
      modifies records
      ensures records[..] == Polled(was, cals, r, i + 1)
    {
      if r.read[i].Some? {
        var raw := r.read[i].value;
        var scaled := ApplyCalibration(cals[i], raw);
        records[i] := records[i].(raw := raw);
        records[i] := records[i].(scaled := scaled);
        records[i] := records[i].(state := CheckThresholds(cals[i], scaled));
        records[i] := records[i].(timestamp := r.tick[i]);
      }
      assert records[..] == Polled(was, cals, r, i)[i := Refreshed(Polled(was, cals, r, i)[i], cals[i], r.read[i], r.tick[i])];
    }

    /** The loop over four sensors a round plus the rest does what polling one at a time would. */
    method PollAllSensors(r: Readings)
      requires Valid() && Readable(cals, r, count)
      modifies records
      ensures records[..] == Polled(old(records[..]), cals, r, count)
    {
      hide Polled, Refreshed, Defined;
      ghost var was := records[..];
      PolledNone(was, cals, r);
      var i := 0;
      var unrolled := count - count % 4;
      while i < unrolled
        invariant i <= unrolled && i % 4 == 0
        invariant records[..] == Polled(was, cals, r, i)
      {
        PollSensor(i, r, was);
        PollSensor(i + 1, r, was);
        PollSensor(i + 2, r, was);
        PollSensor(i + 3, r, was);
        i := i + 4;
      }
      while i < count
        invariant i <= count
        invariant records[..] == Polled(was, cals, r, i)
      {
        PollSensor(i, r, was);
        i := i + 1;
      }
    }
  }
}
