/**
 * The flash manager: the staging writer's loop, the update state it keeps, and the
 * dispatch of flash commands. Staged says what a run that meets no failing transfer writes,
 * from a device that is ready or still busy with an earlier operation.
 */
module NicFlashMgr {
  import opened Common
  import opened Rtos
  import opened NorFlash
  import opened SpiFlashCmd

  const ADDRESS_MODULUS := 0x1_0000_0000

  function Chunks(size: nat): nat { (size + PAGE - 1) / PAGE }

  function ChunkEnd(size: nat, k: nat): nat
    requires k < Chunks(size)
  {
    if PAGE * (k + 1) <= size then PAGE * (k + 1) else size
  }

  /** The k-th page-sized piece of the image; the last one may be shorter. */
  function Chunk(d: Bytes, k: nat): Bytes
    requires k < Chunks(|d|)
  {
    d[PAGE * k..ChunkEnd(|d|, k)]
  }

  /** The 32-bit address the k-th chunk is written to. */
  function ChunkAddr(offset: nat, k: nat): nat { (offset + PAGE * k) % ADDRESS_MODULUS }

  /**
   * One round of the loop: erase on a sector boundary, then program. A device found busy ignores the first of these
   * operations; the wait that follows it ends with the device ready.
   */
  function StageChunk(c: Bytes, busy: bool, addr: nat, chunk: Bytes): (r: Bytes)
    requires |c| == SIZE
    ensures |r| == SIZE
  {
    if addr % SECTOR == 0 then Programmed(if busy then c else Erased(c, addr % SIZE), addr % SIZE, chunk)
    else if busy then c
    else Programmed(c, addr % SIZE, chunk)
  }

  /** The device contents after the first n chunks; the first one found the device busy or not. */
  function Staged(c: Bytes, busy: bool, offset: nat, d: Bytes, n: nat): (r: Bytes)
    requires |c| == SIZE && n <= Chunks(|d|)
    ensures |r| == SIZE
    decreases n
  {
    if n == 0 then c
    else StageChunk(Staged(c, busy, offset, d, n - 1), busy && n == 1, ChunkAddr(offset, n - 1), Chunk(d, n - 1))
  }

  /** The bytes that the round writing to addr may touch: the sector it erases, or its page. */
  predicate Touches(addr: nat, x: nat) {
    if addr % SECTOR == 0 then x / SECTOR == addr % SIZE / SECTOR else x / PAGE == addr % SIZE / PAGE
  }

  lemma ReachesWithin(addr: nat, data: Bytes, x: nat)
    ensures addr % SECTOR == 0 && Reaches(SectorErase(addr % SIZE), x) ==> Touches(addr, x)
    ensures Reaches(PageProgram(addr % SIZE, data), x) ==> Touches(addr, x)
  {
    var a := addr % SIZE;
    assert a / SECTOR == a / PAGE / 16 && x / SECTOR == x / PAGE / 16;
  }

  lemma ErasedWithin(c: Bytes, addr: nat)
    requires |c| == SIZE && addr % SECTOR == 0
    ensures forall x: nat | x < SIZE && !Touches(addr, x) :: Erased(c, addr % SIZE)[x] == c[x]
  {}

  /**
   * Contents c1 of a run that stopped in round k: all earlier rounds are in place, only round k's bytes are in
   * doubt.
   */
  ghost predicate Interrupted(c: Bytes, busy: bool, offset: nat, d: Bytes, k: nat, c1: Bytes)
    requires |c| == |c1| == SIZE && k < Chunks(|d|)
  {
    forall x: nat | x < SIZE && !Touches(ChunkAddr(offset, k), x) :: c1[x] == Staged(c, busy, offset, d, k)[x]
  }

  /** Where round k starts and whether another follows. */
  lemma RoundsOf(offset: nat, size: nat, k: nat)
    ensures k < Chunks(size) <==> PAGE * k < size
    ensures k + 1 == Chunks(size) <==> PAGE * k < size <= PAGE * (k + 1)
    ensures 0 == Chunks(size) <==> size == 0
    ensures offset < ADDRESS_MODULUS ==> ChunkAddr(offset, 0) == offset
    ensures ChunkAddr(offset, k + 1) == (ChunkAddr(offset, k) + PAGE) % ADDRESS_MODULUS
  {
    NextAddress(offset + PAGE * k);
    assert PAGE * (k + 1) == PAGE * k + PAGE;
  }

  lemma NextAddress(a: nat)
    ensures (a + PAGE) % ADDRESS_MODULUS == (a % ADDRESS_MODULUS + PAGE) % ADDRESS_MODULUS
  {}

  /** The k-th chunk of an image, as a slice of the array that holds it. */
  lemma ChunkInArray(data: array<Byte>, size: nat, k: nat)
    requires size <= data.Length && k < Chunks(size)
    ensures data[PAGE * k..if size - PAGE * k > PAGE then PAGE * (k + 1) else size] == Chunk(data[..size], k)
  {
    assert data[PAGE * k..ChunkEnd(size, k)] == data[..size][PAGE * k..ChunkEnd(size, k)];
  }

  /** Only the first round can find the device busy. */
  lemma FirstFound(c: Bytes, found: bool, round: bool, offset: nat, d: Bytes, k: nat)
    requires |c| == SIZE && k < Chunks(|d|) && (found ==> k > 0) && (round ==> k == 0)
    ensures
      (Staged(c, found || round, offset, d, k + 1) ==
       StageChunk(Staged(c, found, offset, d, k), round, ChunkAddr(offset, k), Chunk(d, k)))
  {
    hide StageChunk, ChunkAddr, Chunk, Chunks;
    if round {
      assert Staged(c, true, offset, d, 0) == Staged(c, false, offset, d, 0);
    }
  }

  datatype FwState = Idle | Receiving | Verifying | Activating | Error

  datatype FlashCmdType = UpdateStart | UpdateAbort | Verify | Activate

  datatype FlashCmd = FlashCmd(cmdType: FlashCmdType, imageOffset: nat, imageSize: nat)

  /** Every erase and program among the new log entries met a ready device with the latch set. */
  ghost predicate NewlyDisciplined(was: seq<Attempt>, now: seq<Attempt>) {
    && was <= now
    && forall i :: |was| <= i < |now| ==> Disciplined(now[i])
  }

  lemma DisciplineComposes(was: seq<Attempt>, mid: seq<Attempt>, now: seq<Attempt>)
    requires was <= mid <= now
    ensures NewlyDisciplined(was, now) <==> NewlyDisciplined(was, mid) && NewlyDisciplined(mid, now)
  {
    hide Disciplined;
    if NewlyDisciplined(was, now) {
      forall i | |was| <= i < |mid|
        ensures Disciplined(mid[i])
      {
        assert mid[i] == now[i];
      }
    }
  }

  /**
   * The transfers of an operation with this result. Nothing is sent after a failed transfer; the result is a failure
   * exactly if there was one; and a timeout comes from a status read that still showed the device busy.
   */
  ghost predicate Reports(was: seq<Attempt>, now: seq<Attempt>, err: Err) {
    && was <= now
    && (err == Ok || err == Fail || err == Timeout)
    && (forall i :: |was| <= i < |now| - 1 ==> now[i].ok)
    && (err == Fail <==> |was| < |now| && !now[|now| - 1].ok)
    && (err == Timeout ==> |was| < |now| && BusyRead(now[|now| - 1]))
  }

  lemma ReportsNothing(log: seq<Attempt>)
    ensures Reports(log, log, Ok) && NewlyDisciplined(log, log)
  {}

  lemma ReportsCompose(was: seq<Attempt>, mid: seq<Attempt>, now: seq<Attempt>, err: Err)
    requires Reports(was, mid, Ok) && Reports(mid, now, err)
    ensures Reports(was, now, err)
    ensures NewlyDisciplined(was, now) <==> NewlyDisciplined(was, mid) && NewlyDisciplined(mid, now)
  {
    DisciplineComposes(was, mid, now);
    forall i | |was| <= i < |now| - 1
      ensures now[i].ok
    {
      if i < |mid| {
        assert now[i] == mid[i];
      }
    }
  }

  lemma TransferReports(was: seq<Attempt>, a: Attempt)
    ensures Reports(was, was + [a], ToErr(a.ok))
    ensures NewlyDisciplined(was, was + [a]) <==> Disciplined(a)
  {}

  lemma PollsReport(was: seq<Attempt>, now: seq<Attempt>, err: Err)
    requires Polls(was, now, err)
    ensures Reports(was, now, err) && NewlyDisciplined(was, now)
  {}

  /** Both properties of an operation's transfers are properties of the part of the log it added. */
  lemma AddedToLog(was: seq<Attempt>, now: seq<Attempt>, err: Err)
    requires was <= now
    ensures Reports([], now[|was|..], err) <==> Reports(was, now, err)
    ensures NewlyDisciplined([], now[|was|..]) <==> NewlyDisciplined(was, now)
  {
    hide Disciplined;
    var added := now[|was|..];
    assert forall i :: 0 <= i < |added| ==> added[i] == now[|was| + i];
    assert forall i :: |was| <= i < |now| ==> now[i] == added[i - |was|];
  }

  /** The device as one command finds or leaves it. */
  datatype Memory = Memory(contents: Bytes, busy: bool)

  /**
   * One command served: what it was, the device before and after, the transfers made and the milliseconds it took,
   * whether its first operation was ignored because the device was still busy, and how far a failed update got.
   */
  datatype Turn = Turn(
    cmd: FlashCmd, image: Bytes, before: Memory, err: Err, transfers: seq<Attempt>, took: nat,
    found: bool, done: nat, after: Memory)

  /**
   * A successful update has staged its image and waited; a failed one was interrupted, by a failed transfer or by a
   * wait that ran its full time; the rest do nothing. A device that is ready is not found busy; one that is busy may
   * have finished by the time the update's first commands reach it.
   */
  ghost predicate TurnRight(t: Turn) {
    && |t.before.contents| == |t.after.contents| == SIZE
    && if t.cmd.cmdType != UpdateStart then t.err == Ok && t.transfers == [] && t.after == t.before
       else
         && Reports([], t.transfers, t.err)
         && (t.err == Timeout ==> t.took >= 100)
         && (t.image == [] ==> t.transfers == [])
         && (t.err == Ok ==> (NewlyDisciplined([], t.transfers) <==> !t.found))
         && (t.found ==> t.before.busy)
         && if t.err == Ok then t.after == AfterUpdate(t.before, t.found, t.cmd.imageOffset, t.image)
            else
              && t.done < Chunks(|t.image|)
              && Interrupted(t.before.contents, t.found, t.cmd.imageOffset, t.image, t.done, t.after.contents)
              && (t.err == Timeout ==> t.after.busy)
  }

  function AfterUpdate(m: Memory, found: bool, offset: nat, image: Bytes): Memory
    requires |m.contents| == SIZE
  {
    Memory(Staged(m.contents, found, offset, image, Chunks(|image|)), m.busy && image == [])
  }

  /** The turns of a run that begins with the device as first and ends with it as last. */
  ghost predicate Chained(first: Memory, run: seq<Turn>, last: Memory) {
    if run == [] then first == last
    else
      var t := run[|run| - 1];
      TurnRight(t) && t.after == last && Chained(first, run[..|run| - 1], t.before)
  }

  /** Whether the update stands as active after these turns: set by an update, cleared by its success or an abort. */
  function ActiveAfter(run: seq<Turn>, active: bool): bool {
    if run == [] then active
    else
      var t := run[|run| - 1];
      match t.cmd.cmdType
      case UpdateStart => t.err != Ok
      case UpdateAbort => false
      case _ => ActiveAfter(run[..|run| - 1], active)
  }

  function TransfersOf(run: seq<Turn>): seq<Attempt> {
    if run == [] then [] else TransfersOf(run[..|run| - 1]) + run[|run| - 1].transfers
  }

  lemma NoTurnsYet(now: Memory, active: bool)
    ensures Chained(now, [], now) && ActiveAfter([], active) == active && TransfersOf([]) == []
  {}

  lemma OneMoreTurn(first: Memory, run: seq<Turn>, t: Turn, active: bool)
    requires Chained(first, run, t.before) && TurnRight(t)
    ensures Chained(first, run + [t], t.after)
    ensures ActiveAfter(run + [t], active) == ActiveAfter([t], ActiveAfter(run, active))
    ensures TransfersOf(run + [t]) == TransfersOf(run) + t.transfers
  {
    hide TurnRight;
    assert (run + [t])[..|run|] == run && [t][..0] == [];
  }

  /** Offset and size are 32-bit numbers, and the source image holds that many bytes. */
  predicate Sized(cmd: FlashCmd, image: array<Byte>) {
    cmd.imageOffset < ADDRESS_MODULUS && cmd.imageSize < ADDRESS_MODULUS && cmd.imageSize <= image.Length
  }

  /** A command taken from the queue, and where an update reads its image. */
  datatype Order = Order(cmd: FlashCmd, source: array<Byte>)

  predicate Carries(t: Turn, o: Order)
    reads o.source
  {
    && t.cmd == o.cmd
    && t.cmd.imageSize <= o.source.Length
    && t.image == o.source[..t.cmd.imageSize]
  }

  class FlashMgr {
    const dev: Device
    const clock: Clock
    var fwState: FwState
    var updateActive: bool

    constructor (dev: Device, clock: Clock)
      ensures this.dev == dev && this.clock == clock
      ensures fwState == Idle && !updateActive
    {
      this.dev, this.clock := dev, clock;
      fwState, updateActive := Idle, false;
    }

    /** The two waits of the writer, 3000 and 100 ms, are sure to end. */
    ghost predicate Usable()
      reads dev
    {
      dev.Valid() && PollEnds(3000, clock.maxGap)
    }

    ghost function Present(): Memory
      reads dev
    {
      Memory(dev.contents, dev.busy)
    }

    /** What every operation keeps, however it ends: time runs on, and the device's log only grows. */
    twostate predicate Onward()
      reads dev, clock
    {
      old(dev.log) <= dev.log && old(clock.now) <= clock.now
    }

    /**
     * The erase of one round: write enable, erase command, wait. A device found busy by either command ignores the
     * erase; one that was ready does not.
     */
    method EraseSector(addr: nat) returns (err: Err, ghost found: bool)
      requires Usable() && addr % SECTOR == 0
      modifies dev, clock
      ensures Usable() && Onward() && Reports(old(dev.log), dev.log, err) && (found ==> old(dev.busy))
      ensures err == Ok ==> !dev.busy && clock.now < old(clock.now) + 3000
      ensures err == Ok ==>
        dev.contents == if found then old(dev.contents) else Erased(old(dev.contents), addr % SIZE)
      ensures err != Ok ==> AgreeOutside(dev.contents, old(dev.contents), SectorErase(addr % SIZE))
      ensures err == Timeout ==> dev.busy && clock.now >= old(clock.now) + 3000
      ensures !old(dev.busy) ==> NewlyDisciplined(old(dev.log), dev.log)
      ensures err == Ok ==> (NewlyDisciplined(old(dev.log), dev.log) <==> !found)
    {
      hide Reports, Polls, NewlyDisciplined;
      found := false;
      ghost var met, was := false, dev.log;
      err, met := WriteEnableCmd(dev);
      TransferReports(was, dev.log[|was|]);
      if err != Ok { return; }
      ghost var latched, mid := dev.latch, dev.log;
      err, met := SectorEraseCmd(dev, addr);
      TransferReports(mid, dev.log[|mid|]);
      ReportsCompose(was, mid, dev.log, err);
      if err != Ok { return; }
      found := met || !latched;
      mid := dev.log;
      err := WaitReady(dev, clock, 3000);
      PollsReport(mid, dev.log, err);
      ReportsCompose(was, mid, dev.log, err);
    }

    /** The programming of one round: write enable, program command, wait. A device found busy ignores it. */
    method ProgramPage(addr: nat, data: array<Byte>, start: nat, len: nat) returns (err: Err, ghost found: bool)
      requires Usable() && start + len <= data.Length && 0 < len <= PAGE
      modifies dev, clock
      ensures Usable() && Onward() && Reports(old(dev.log), dev.log, err) && (found ==> old(dev.busy))
      ensures err == Ok ==> !dev.busy && clock.now < old(clock.now) + 100
      ensures err == Ok && found ==> dev.contents == old(dev.contents)
      ensures err == Ok && !found ==>
        dev.contents == Programmed(old(dev.contents), addr % SIZE, data[start..start + len])
      ensures err != Ok ==>
        AgreeOutside(dev.contents, old(dev.contents), PageProgram(addr % SIZE, data[start..start + len]))
      ensures err == Timeout ==> dev.busy && clock.now >= old(clock.now) + 100
      ensures !old(dev.busy) ==> NewlyDisciplined(old(dev.log), dev.log)
      ensures err == Ok ==> (NewlyDisciplined(old(dev.log), dev.log) <==> !found)
    {
      hide Reports, Polls, NewlyDisciplined;
      found := false;
      ghost var met, was := false, dev.log;
      err, met := WriteEnableCmd(dev);
      TransferReports(was, dev.log[|was|]);
      if err != Ok { return; }
      ghost var latched, mid := dev.latch, dev.log;
      err, met := PageProgramCmd(dev, addr, data, start, len);
      TransferReports(mid, dev.log[|mid|]);
      ReportsCompose(was, mid, dev.log, err);
      if err != Ok { return; }
      found := met || !latched;
      mid := dev.log;
      err := WaitReady(dev, clock, 100);
      PollsReport(mid, dev.log, err);
      ReportsCompose(was, mid, dev.log, err);
    }

    /** One round of the loop: erase on a sector boundary, then program one chunk. */
    method StageRound(addr: nat, data: array<Byte>, start: nat, len: nat) returns (err: Err, ghost found: bool)
      requires Usable() && start + len <= data.Length && 0 < len <= PAGE
      modifies dev, clock
      ensures Usable() && Onward() && Reports(old(dev.log), dev.log, err) && (found ==> old(dev.busy))
      ensures err == Ok ==> !dev.busy
      ensures err == Ok ==> dev.contents == StageChunk(old(dev.contents), found, addr, data[start..start + len])
      ensures err != Ok ==>
        forall x: nat | x < SIZE && !Touches(addr, x) :: dev.contents[x] == old(dev.contents)[x]
      ensures err == Timeout ==> dev.busy && clock.now >= old(clock.now) + 100
      ensures !old(dev.busy) ==> NewlyDisciplined(old(dev.log), dev.log)
      ensures err == Ok ==> (NewlyDisciplined(old(dev.log), dev.log) <==> !found)
    {
      hide Touches, Reaches, Programmed, Erased, NewlyDisciplined, PollEnds, Reports;
      forall x: nat {
        ReachesWithin(addr, data[start..start + len], x);
      }
      ghost var was, mid := dev.log, dev.log;
      if addr % SECTOR == 0 {
        err, found := EraseSector(addr);
        if err != Ok { return; }
        ErasedWithin(old(dev.contents), addr);
        mid := dev.log;
        ghost var again;
        err, again := ProgramPage(addr, data, start, len);
      } else {
        ReportsNothing(dev.log);
        err, found := ProgramPage(addr, data, start, len);
      }
      ReportsCompose(was, mid, dev.log, err);
    }

    /**
     * The staging writer. On success the image is staged; otherwise done rounds were
     * completed and only the bytes of the next round are in doubt. The device's rules were
     * kept throughout exactly when the first operation did not find it busy.
     */
    method WriteImageToStaging(offset: nat, data: array<Byte>, size: nat)
      returns (err: Err, ghost found: bool, ghost done: nat)
      requires offset < ADDRESS_MODULUS && size < ADDRESS_MODULUS && size <= data.Length
      requires Usable()
      modifies dev, clock
      ensures Usable() && Onward() && Reports(old(dev.log), dev.log, err) && (found ==> old(dev.busy) && size > 0)
      ensures err == Ok ==> dev.busy == (old(dev.busy) && size == 0)
      ensures err == Ok ==> dev.contents == Staged(old(dev.contents), found, offset, data[..size], Chunks(size))
      ensures err != Ok ==>
        && done < Chunks(size)
        && Interrupted(old(dev.contents), found, offset, data[..size], done, dev.contents)
      ensures err == Timeout ==> dev.busy && clock.now >= old(clock.now) + 100
      ensures size == 0 ==> dev.log == old(dev.log)
      ensures !old(dev.busy) ==> NewlyDisciplined(old(dev.log), dev.log)
      ensures err == Ok ==> (NewlyDisciplined(old(dev.log), dev.log) <==> !found)
    {
      hide StageChunk, Touches, NewlyDisciplined, Chunks, ChunkAddr, PollEnds, Reports;
      var addr, pos, remaining := offset, 0, size;
      ghost var image := data[..size];
      found, done := false, 0;
      RoundsOf(offset, size, 0);
      ReportsNothing(dev.log);
      while remaining > 0
        invariant Usable() && Onward() && (found ==> old(dev.busy) && done > 0)
        invariant dev.busy == (old(dev.busy) && done == 0)
        invariant pos + remaining == size
        invariant if remaining > 0 then pos == PAGE * done && done < Chunks(size) else done == Chunks(size)
        invariant remaining > 0 ==> addr == ChunkAddr(offset, done)
        invariant dev.contents == Staged(old(dev.contents), found, offset, image, done)
        invariant NewlyDisciplined(old(dev.log), dev.log) <==> !found
        invariant Reports(old(dev.log), dev.log, Ok) && (done == 0 ==> dev.log == old(dev.log))
      {
        var chunk := if remaining > PAGE then PAGE else remaining;
        RoundsOf(offset, size, done);
        ChunkInArray(data, size, done);
        ghost var mid, round := dev.log, false;
        err, round := StageRound(addr, data, pos, chunk);
        ReportsCompose(old(dev.log), mid, dev.log, err);
        if err != Ok { return; }
        FirstFound(old(dev.contents), found, round, offset, image, done);
        found := found || round;
        addr := (addr + chunk) % ADDRESS_MODULUS;
        pos := pos + chunk;
        remaining := remaining - chunk;
        done := done + 1;
      }
      return Ok, found, done;
    }

    /** An update that succeeds leaves the manager idle; one that fails leaves it in error, still active. */
    method HandleUpdateStart(cmd: FlashCmd, image: array<Byte>) returns (err: Err, ghost found: bool, ghost done: nat)
      requires Sized(cmd, image) && Usable()
      modifies this, dev, clock
      ensures Usable() && Onward() && Reports(old(dev.log), dev.log, err) && (found ==> old(dev.busy))
      ensures err == Ok ==> fwState == Idle && !updateActive
      ensures err != Ok ==> fwState == Error && updateActive
      ensures err == Ok ==> Present() == AfterUpdate(old(Present()), found, cmd.imageOffset, image[..cmd.imageSize])
      ensures err != Ok ==>
        && done < Chunks(cmd.imageSize)
        && Interrupted(old(dev.contents), found, cmd.imageOffset, image[..cmd.imageSize], done, dev.contents)
      ensures err == Timeout ==> dev.busy && clock.now >= old(clock.now) + 100
      ensures cmd.imageSize == 0 ==> dev.log == old(dev.log)
      ensures !old(dev.busy) ==> NewlyDisciplined(old(dev.log), dev.log)
      ensures err == Ok ==> (NewlyDisciplined(old(dev.log), dev.log) <==> !found)
    {
      fwState := Receiving;
      updateActive := true;
      err, found, done := WriteImageToStaging(cmd.imageOffset, image, cmd.imageSize);
      if err != Ok {
        fwState := Error;
        return;
      }
      fwState := Verifying;
      fwState := Idle;
      updateActive := false;
    }

    method HandleUpdateAbort() returns (err: Err)
      modifies this
      ensures err == Ok && fwState == Idle && !updateActive
    {
      fwState := Idle;
      updateActive := false;
      return Ok;
    }

    /** Between commands the manager is idle, or in error with the failed update still marked active. */
    ghost predicate Settled()
      reads this
    {
      fwState == (if updateActive then Error else Idle)
    }

    /** One turn of the task loop: the command just received, with the image an update is to write. */
    method ServeCommand(cmd: FlashCmd, image: array<Byte>) returns (ghost turn: Turn)
      requires Sized(cmd, image) && Settled() && Usable()
      modifies this, dev, clock
      ensures Settled() && Usable() && Onward()
      ensures Carries(turn, Order(cmd, image))
      ensures turn.before == old(Present()) && turn.after == Present() && TurnRight(turn)
      ensures dev.log == old(dev.log) + turn.transfers && clock.now == old(clock.now) + turn.took
      ensures updateActive == ActiveAfter([turn], old(updateActive))
    {
      hide Interrupted, Staged, PollEnds, Chunks, Reports, NewlyDisciplined;
      ghost var err, found, done := Ok, false, 0;
      match cmd.cmdType {
        case UpdateStart =>
          err, found, done := HandleUpdateStart(cmd, image);
        case UpdateAbort =>
          var _ := HandleUpdateAbort();
        case Verify =>
        case Activate =>
      }
      ghost var transfers := dev.log[|old(dev.log)|..];
      AddedToLog(old(dev.log), dev.log, err);
      turn := Turn(cmd, image[..cmd.imageSize], old(Present()), err, transfers, clock.now - old(clock.now), found, done,
        Present());
      assert [turn][..0] == [];
    }

    /** The task loop over the commands its queue hands it: a run of turns, from any state of the device. */
    method Serve(orders: seq<Order>) returns (ghost run: seq<Turn>)
      requires forall i :: 0 <= i < |orders| ==> Sized(orders[i].cmd, orders[i].source)
      requires Settled() && Usable()
      modifies this, dev, clock
      ensures Settled() && Usable() && Onward()
      ensures |run| == |orders| && Chained(old(Present()), run, Present())
      ensures forall i :: 0 <= i < |run| ==> Carries(run[i], orders[i])
      ensures updateActive == ActiveAfter(run, old(updateActive)) && dev.log == old(dev.log) + TransfersOf(run)
    {
      hide TurnRight, PollEnds, Chained, ActiveAfter, TransfersOf, Carries, Settled, Usable, Sized;
      run := [];
      NoTurnsYet(Present(), updateActive);
      for i := 0 to |orders|
        invariant Settled() && Usable() && Onward()
        invariant |run| == i && Chained(old(Present()), run, Present())
        invariant forall j :: 0 <= j < i ==> Carries(run[j], orders[j])
        invariant updateActive == ActiveAfter(run, old(updateActive)) && dev.log == old(dev.log) + TransfersOf(run)
      {
        ghost var turn := ServeCommand(orders[i].cmd, orders[i].source);
        OneMoreTurn(old(Present()), run, turn, old(updateActive));
        run := run + [turn];
      }
    }
  }
}
