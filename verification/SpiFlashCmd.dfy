/** The JEDEC command layer: each function builds one SPI frame and sends it. */
module SpiFlashCmd {
  import opened Common
  import opened Rtos
  import opened NorFlash

  /** The 24 low bits of an address, most significant byte first. */
  function AddressBytes(addr: nat): (b: Bytes)
    ensures |b| == 3
  {
    [addr / 0x1_0000 % 0x100, addr / 0x100 % 0x100, addr % 0x100]
  }

  /** The device reads back the address that was sent, without its top byte. */
  lemma AddressRoundTrip(addr: nat, tx: Bytes)
    requires |tx| >= 4 && tx[1..4] == AddressBytes(addr)
    ensures Address(tx) == addr % SIZE
  {
    assert tx[1] == tx[1..4][0] && tx[2] == tx[1..4][1] && tx[3] == tx[1..4][2];
    SplitAddress(addr);
  }

  lemma SplitAddress(addr: nat)
    ensures Join(addr / 0x1_0000 % 0x100, addr / 0x100 % 0x100, addr % 0x100) == addr % SIZE
  {
    var a := addr / 0x100;
    assert a / 0x100 == addr / 0x1_0000;
  }

  function ToErr(ok: bool): Err { if ok then Ok else Fail }

  method WriteEnableCmd(dev: Device) returns (err: Err, ghost met: bool)
    requires dev.Valid()
    modifies dev
    ensures err == Ok || err == Fail
    ensures dev.Sent(WriteEnable, err == Ok, met)
  {
    var ok;
    ok, met := dev.Transfer([0x06]);
    err := ToErr(ok);
  }

  method SectorEraseCmd(dev: Device, addr: nat) returns (err: Err, ghost met: bool)
    requires dev.Valid()
    modifies dev
    ensures err == Ok || err == Fail
    ensures dev.Sent(SectorErase(addr % SIZE), err == Ok, met)
  {
    var tx := [0x20] + AddressBytes(addr);
    AddressRoundTrip(addr, tx);
    var ok;
    ok, met := dev.Transfer(tx);
    err := ToErr(ok);
  }

  /** The command a program frame of len data bytes amounts to; a frame without data is not one. */
  function ProgramOf(addr: nat, data: Bytes): Command {
    if data == [] then Unknown else PageProgram(addr % SIZE, data)
  }

  method PageProgramCmd(dev: Device, addr: nat, data: array<Byte>, start: nat, len: nat)
    returns (err: Err, ghost met: bool)
    requires dev.Valid() && start + len <= data.Length
    modifies dev
    ensures len > PAGE ==> err == Fail && dev.State() == old(dev.State()) && dev.log == old(dev.log)
    ensures len <= PAGE ==> err == Ok || err == Fail
    ensures len <= PAGE ==> dev.Sent(ProgramOf(addr, data[start..start + len]), err == Ok, met)
    ensures dev.Valid()
  {
    if len > PAGE {
      return Fail, false;
    }
    var frame := ProgramFrame(addr, data, start, len);
    DecodeProgram(addr, data[start..start + len]);
    var ok;
    ok, met := dev.Transfer(frame);
    err := ToErr(ok);
  }

  method ProgramFrame(addr: nat, data: array<Byte>, start: nat, len: nat) returns (frame: Bytes)
    requires start + len <= data.Length && len <= PAGE
    ensures frame == [0x02] + AddressBytes(addr) + data[start..start + len]
  {
    var tx := new Byte[4 + PAGE];
    var hi, mid, lo := addr / 0x1_0000 % 0x100, addr / 0x100 % 0x100, addr % 0x100;
    tx[0] := 0x02;
    tx[1] := hi;
    tx[2] := mid;
    tx[3] := lo;
    forall i | 0 <= i < len {
      tx[4 + i] := data[start + i];
    }
    frame := tx[..4 + len];
    assert AddressBytes(addr) == [hi, mid, lo];
    assert frame[..4] == [0x02, hi, mid, lo];
    assert frame[4..] == data[start..start + len];
    assert frame == frame[..4] + frame[4..];
  }

  lemma DecodeProgram(addr: nat, data: Bytes)
    ensures Decode([0x02] + AddressBytes(addr) + data) == ProgramOf(addr, data)
  {
    hide AddressBytes;
    var frame := [0x02] + AddressBytes(addr) + data;
    assert |AddressBytes(addr)| == 3;
    assert frame[1..4] == AddressBytes(addr) && frame[4..] == data;
    AddressRoundTrip(addr, frame);
  }

  // ---- When polling the tick is sure to end -----------------------------------------

  /** The timeout and the longest gap for which no look at the clock can step over the end of the wait. */
  predicate PollEnds(timeout: nat, maxGap: nat) {
    timeout == 0 || timeout + maxGap <= TICK_MODULUS
  }

  function Elapsed(gaps: seq<nat>): nat {
    if gaps == [] then 0 else Elapsed(gaps[..|gaps| - 1]) + gaps[|gaps| - 1]
  }

  predicate Paced(gaps: seq<nat>, maxGap: nat) {
    forall i :: 0 <= i < |gaps| ==> 1 <= gaps[i] <= maxGap
  }

  /** Whether every look at the 32-bit tick, after each of these gaps, finds the wait not yet over. */
  predicate StillWaiting(gaps: seq<nat>, timeout: nat) {
    forall k :: 1 <= k <= |gaps| ==> Elapsed(gaps[..k]) % TICK_MODULUS < timeout
  }

  /** No schedule of n gaps keeps the loop polling. */
  ghost predicate EndsWithin(n: nat, timeout: nat, maxGap: nat) {
    forall gaps: seq<nat> | |gaps| == n && Paced(gaps, maxGap) :: !StillWaiting(gaps, timeout)
  }

  /** On a device that stays busy the poll is sure to end exactly when no gap can step over the time left. */
  lemma PollEndsIff(timeout: nat, maxGap: nat)
    requires timeout < TICK_MODULUS && maxGap > 0
    ensures PollEnds(timeout, maxGap) <==> exists n: nat :: EndsWithin(n, timeout, maxGap)
  {
    hide EndsWithin;
    if PollEnds(timeout, maxGap) {
      EndsInTime(timeout, maxGap);
    } else {
      forall n: nat
        ensures !EndsWithin(n, timeout, maxGap)
      {
        StepsOver(n, timeout, maxGap);
      }
    }
  }

  lemma EndsInTime(timeout: nat, maxGap: nat)
    requires PollEnds(timeout, maxGap)
    ensures EndsWithin(if timeout == 0 then 1 else timeout, timeout, maxGap)
  {
    forall gaps: seq<nat> | |gaps| == (if timeout == 0 then 1 else timeout) && Paced(gaps, maxGap)
      ensures !StillWaiting(gaps, timeout)
    {
      if StillWaiting(gaps, timeout) {
        assert Elapsed(gaps[..1]) % TICK_MODULUS < timeout;
        WaitingIsShort(gaps, timeout, maxGap);
      }
    }
  }

  lemma {:induction false} WaitingIsShort(gaps: seq<nat>, timeout: nat, maxGap: nat)
    requires 0 < timeout && timeout + maxGap <= TICK_MODULUS && Paced(gaps, maxGap) && StillWaiting(gaps, timeout)
    ensures |gaps| <= Elapsed(gaps) < timeout
  {
    if gaps != [] {
      var before := gaps[..|gaps| - 1];
      assert forall k :: 1 <= k <= |before| ==> before[..k] == gaps[..k];
      WaitingIsShort(before, timeout, maxGap);
      assert gaps[..|gaps|] == gaps;
    }
  }

  /** Otherwise one long gap, taken just before the end, wraps the tick difference back to zero every time. */
  lemma {:induction false} StepsOver(n: nat, timeout: nat, maxGap: nat)
    requires 0 < timeout < TICK_MODULUS < timeout + maxGap
    ensures !EndsWithin(n, timeout, maxGap)
  {
    var gaps := EndlessWait(n, timeout, maxGap);
    assert |gaps| == n && Paced(gaps, maxGap) && StillWaiting(gaps, timeout);
  }

  lemma EvasiveGap(e: nat, timeout: nat) returns (gap: nat)
    requires 0 < timeout < TICK_MODULUS && e % TICK_MODULUS < timeout
    ensures 1 <= gap <= TICK_MODULUS - timeout + 1 && (e + gap) % TICK_MODULUS < timeout
  {
    gap := if e % TICK_MODULUS == timeout - 1 then TICK_MODULUS - timeout + 1 else 1;
    assert (e % TICK_MODULUS + gap) % TICK_MODULUS == (e + gap) % TICK_MODULUS;
  }

  lemma {:induction false} EndlessWait(n: nat, timeout: nat, maxGap: nat) returns (gaps: seq<nat>)
    requires 0 < timeout < TICK_MODULUS < timeout + maxGap
    ensures |gaps| == n && Paced(gaps, maxGap) && StillWaiting(gaps, timeout)
    ensures Elapsed(gaps) % TICK_MODULUS < timeout
  {
    if n == 0 {
      return [];
    }
    var before := EndlessWait(n - 1, timeout, maxGap);
    var e := Elapsed(before);
    var gap := EvasiveGap(e, timeout);
    gaps := before + [gap];
    assert gaps[..|gaps| - 1] == before;
    forall k | 1 <= k <= n
      ensures Elapsed(gaps[..k]) % TICK_MODULUS < timeout
    {
      assert gaps[..k] == if k < n then before[..k] else gaps;
    }
  }

  predicate BusyRead(a: Attempt) { a.cmd == ReadStatus && a.ok && a.busy }

  /**
   * The transfers of a wait with this result: status reads only, each but the last reported ok and showing the device
   * busy. A failure is a last read that was reported failed, and nothing else; success is one that shows it ready.
   */
  ghost predicate Polls(was: seq<Attempt>, now: seq<Attempt>, err: Err) {
    && was < now
    && (forall i :: |was| <= i < |now| - 1 ==> BusyRead(now[i]))
    && var last := now[|now| - 1];
       last.cmd == ReadStatus &&
       match err
       case Ok => last.ok && !last.busy
       case Fail => !last.ok
       case Timeout => last.ok && last.busy
       case _ => false
  }

  /**
   * Polls the status register until it reads not busy. A timeout is only reported after
   * timeout milliseconds of true time, however the 32-bit tick count wraps in between.
   * Without the second precondition the loop need not end, by PollEndsIff.
   */
  method WaitReady(dev: Device, clock: Clock, timeout: nat) returns (err: Err)
    requires dev.Valid() && PollEnds(timeout, clock.maxGap)
    modifies dev`busy, dev`log, clock
    ensures Polls(old(dev.log), dev.log, err)
    ensures clock.now >= old(clock.now)
    ensures err == Ok ==> !dev.busy && (clock.now - old(clock.now) < timeout || clock.now == old(clock.now))
    ensures err == Timeout ==> dev.busy && clock.now - old(clock.now) >= timeout
    ensures dev.busy ==> old(dev.busy)
  {
    var start := clock.GetTickMs();
    ghost var t0 := clock.now;
    var polling := true;
    while polling
      invariant dev.busy ==> old(dev.busy)
      invariant clock.now >= t0
      invariant polling ==> clock.now == t0 || clock.now - t0 < timeout
      invariant !polling ==> clock.now - t0 >= timeout && dev.busy
      invariant old(dev.log) <= dev.log && (!polling ==> old(dev.log) < dev.log)
      invariant forall i :: |old(dev.log)| <= i < |dev.log| ==> BusyRead(dev.log[i])
      decreases polling, t0 + timeout - clock.now
    {
      var ok, status := dev.TransferStatus([0x05, 0x00]);
      if !ok {
        return Fail;
      }
      if status % 2 == 0 {
        return Ok;
      }
      clock.DelayMs();
      var now := clock.GetTickMs();
      TickDiffWraps(t0, clock.now);
      polling := TickDiff(now, start) < timeout;
    }
    return Timeout;
  }
}
