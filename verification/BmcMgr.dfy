/**
 * The BMC manager's task as the code has it: two drain loops over bounded queues, dispatch,
 * and the liveness check, with interrupts and other tasks let in at every queue operation.
 * A ghost copy of the transition system runs alongside; the code never leaves it.
 */
module BmcMgr {
  import opened Common
  import opened Rtos
  import opened Mctp
  import opened Pldm
  import opened ProtocolHdlr
  import opened NicFlashMgr
  import opened NicGenMgr
  import opened IsrHandlers
  import opened Dispatch
  import opened BmcSystem
  import opened SensorMgr

  const RESPONSE_BUFFER := 64

  /** A reading request: the record packed into the response buffer, or an error for a sensor without a record. */
  method ReadSensor(msg: MsgBuf, rec: SensorRecord, respBuf: array<Byte>) returns (cc: Byte, respLen: nat)
    requires msg.Valid() && IsReading(msg.Value()) && respBuf.Length == RESPONSE_BUFFER && respBuf != msg.payload
    modifies respBuf
    ensures respLen <= RECORD_SIZE
    ensures forall queued: nat :: OutcomeOf(msg.Value(), rec, queued) == Outcome(cc, respBuf[..respLen], None)
  {
    hide Pack;
    var sensorId: nat := if msg.payloadLen > 0 then msg.payload[0] else 0;
    var cached := GetCached(sensorId, rec);
    if cached == None {
      return PLDM_CC_ERROR, 0;
    }
    var packed := Pack(cached.value);
    forall i | 0 <= i < RECORD_SIZE {
      respBuf[i] := packed[i];
    }
    assert respBuf[..RECORD_SIZE] == packed;
    return PLDM_CC_SUCCESS, RECORD_SIZE;
  }

  /** An update request: its flash command is posted without waiting, or refused by a full queue. */
  method RequestUpdate(msg: MsgBuf, flashQueue: Queue<FlashCmd>) returns (cc: Byte)
    requires msg.Valid() && flashQueue.Valid() && flashQueue.depth == QUEUE_DEPTH_FLASH
    modifies flashQueue
    ensures flashQueue.Valid()
    ensures
      var room := old(|flashQueue.items|) < QUEUE_DEPTH_FLASH;
      && cc == (if room then PLDM_CC_SUCCESS else PLDM_CC_ERROR)
      && flashQueue.items == old(flashQueue.items) + (if room then [UpdateCommand(msg.Value())] else [])
  {
    hide FromLe32;
    var offset, size := 0, 0;
    if msg.payloadLen >= 8 {
      assert msg.payload[0..4] == msg.Value().payload[..4] && msg.payload[4..8] == msg.Value().payload[4..8];
      offset := FromLe32(msg.payload[0..4]);
      size := FromLe32(msg.payload[4..8]);
    }
    var err := flashQueue.Send(FlashCmd(UpdateStart, offset, size));
    cc := if err == Ok then PLDM_CC_SUCCESS else PLDM_CC_ERROR;
  }

  /** Answers one request: picks the completion code, packs the data, posts the flash command, sends. */
  method DispatchPldm(msg: MsgBuf, rec: SensorRecord, flashQueue: Queue<FlashCmd>, hal: BmcHal)
    returns (ghost v: Byte, ghost d: Byte, ghost s: Byte)
    requires msg.Valid() && flashQueue.Valid() && flashQueue.depth == QUEUE_DEPTH_FLASH
    requires hal as object != flashQueue
    modifies flashQueue, hal
    ensures flashQueue.Valid()
    ensures
      var o := OutcomeOf(msg.Value(), rec, old(|flashQueue.items|));
      && flashQueue.items == old(flashQueue.items) + (if o.cmd.Some? then [o.cmd.value] else [])
      && hal.attempts == old(hal.attempts) + [Frame(v, d, s, Response(msg.Value(), o.cc, o.data))]
  {
    hide Pack, UpdateCommand, Frame, Response;
    var respBuf := new Byte[RESPONSE_BUFFER];
    var respLen := 0;
    var cc := PLDM_CC_INVALID_CMD;
    if msg.pldmType == PLDM_TYPE_SENSOR_MONITORING {
      if msg.command == PLDM_CMD_GET_SENSOR_READING {
        cc, respLen := ReadSensor(msg, rec, respBuf);
      }
    } else if msg.pldmType == PLDM_TYPE_FW_UPDATE {
      if msg.command == PLDM_CMD_REQUEST_UPDATE {
        cc := RequestUpdate(msg, flashQueue);
      }
    }
    var fits, err, v0, d0, s0, data := SendResponse(hal, msg.Value(), respBuf, respLen, cc);
    v, d, s := v0, d0, s0;
  }

  /** The blocks that a list of exchanges handed to the transmitter. */
  ghost function Blocks(xs: seq<Exchange>): seq<Bytes>
    decreases |xs|
  {
    if xs == [] then [] else Blocks(xs[..|xs| - 1]) + [xs[|xs| - 1].block]
  }

  lemma BlocksSnoc(xs: seq<Exchange>, x: Exchange)
    ensures Blocks(xs + [x]) == Blocks(xs) + [x.block]
  {
    assert (xs + [x])[..|xs|] == xs;
  }

  /** Events other than the task's own. */
  predicate Outside(e: Event) { !e.TaskStep? && !e.WaitReturns? }

  function OutsideOf(es: seq<Event>): seq<Event> {
    if es == [] then []
    else OutsideOf(es[..|es| - 1]) + (if Outside(es[|es| - 1]) then [es[|es| - 1]] else [])
  }

  /** How often the task has been woken. */
  function Wakes(es: seq<Event>): nat {
    if es == [] then 0 else Wakes(es[..|es| - 1]) + (if es[|es| - 1].WaitReturns? then 1 else 0)
  }

  /**
   * What a part of the code adds to the record of steps: of the pending outside events a first part, in order, with
   * the rest still to come, and a number of wake-ups.
   */
  ghost predicate Adds(was: seq<Event>, now: seq<Event>, pending: seq<Event>, rest: seq<Event>, wakes: nat) {
    && was <= now
    && OutsideOf(now) + rest == OutsideOf(was) + pending
    && Wakes(now) == Wakes(was) + wakes
  }

  lemma AddsNothing(es: seq<Event>, pending: seq<Event>)
    ensures Adds(es, es, pending, pending, 0)
  {}

  lemma AddsOne(was: seq<Event>, e: Event, rest: seq<Event>)
    ensures Adds(was, was + [e], if Outside(e) then [e] + rest else rest, rest, if e.WaitReturns? then 1 else 0)
  {
    assert (was + [e])[..|was|] == was;
  }

  lemma OwnEvents(e: Event)
    ensures e.TaskStep? || e.WaitReturns? ==> !Outside(e)
  {}

  lemma AddsCompose(was: seq<Event>, mid: seq<Event>, now: seq<Event>,
                    pending: seq<Event>, some: seq<Event>, rest: seq<Event>, first: nat, second: nat)
    requires Adds(was, mid, pending, some, first) && Adds(mid, now, some, rest, second)
    ensures Adds(was, now, pending, rest, first + second)
  {
    hide OutsideOf, Wakes;
  }

  /** A step of the task itself adds neither an outside event nor a wake-up. */
  lemma OwnStep(was: seq<Event>, e: Event, rest: seq<Event>, first: seq<Event>, pending: seq<Event>, wakes: nat)
    requires e.TaskStep? && Adds(first, was, pending, rest, wakes)
    ensures Adds(first, was + [e], pending, rest, wakes)
  {
    hide Adds;
    OwnEvents(e);
    AddsOne(was, e, rest);
    AddsCompose(first, was, was + [e], pending, rest, rest, wakes, 0);
  }

  class Manager {
    const rxQueue: Queue<RxMsg>
    const nicQueue: Queue<NicEvent>
    const flashQueue: Queue<FlashCmd>
    const mctp: Reassembler
    const hal: BmcHal
    const sel: SelLog
    const clock: Clock
    var lastSeenMs: nat
    var flashCmd: Option<FlashCmd>
    ghost var started: nat
    ghost var events: seq<Event>
    ghost var sys: Sys

    ghost function Repr(): set<object> {
      {this, rxQueue, nicQueue, flashQueue, mctp, mctp.buf, hal, sel, sel.table, clock}
    }

    ghost predicate Separate() {
      && rxQueue as object != nicQueue && rxQueue as object != flashQueue && nicQueue as object != flashQueue
      && mctp.buf as object != sel.table
    }

    /** The code's state is the transition system's, after the events so far. */
    ghost predicate Valid()
      reads Repr()
    {
      && Separate()
      && rxQueue.depth == QUEUE_DEPTH_BMC && rxQueue.Valid() && rxQueue.items == sys.bmc.queue
      && nicQueue.depth == QUEUE_DEPTH_NIC && nicQueue.Valid() && nicQueue.items == sys.nic.queue
      && flashQueue.depth == QUEUE_DEPTH_FLASH && flashQueue.Valid() && flashQueue.items == sys.flash.queue
      && flashCmd == sys.flashBusy
      && mctp.Valid() && mctp.State() == sys.reasm
      && sel.Valid() && sel.history == sys.sel
      && clock.now == sys.now && lastSeenMs == Tick(sys.lastSeen)
      && hal.attempts == Blocks(sys.exchanges)
      && sys == Run(Start(started), events)
    }

    /** Takes the queues over empty, and the protocol stack, link and log freshly initialised. */
    constructor (rxQueue: Queue<RxMsg>, nicQueue: Queue<NicEvent>, flashQueue: Queue<FlashCmd>,
                 mctp: Reassembler, hal: BmcHal, sel: SelLog, clock: Clock)
      requires rxQueue as object != nicQueue && rxQueue as object != flashQueue && nicQueue as object != flashQueue
      requires mctp.buf as object != sel.table
      requires rxQueue.items == [] && rxQueue.depth == QUEUE_DEPTH_BMC
      requires nicQueue.items == [] && nicQueue.depth == QUEUE_DEPTH_NIC
      requires flashQueue.items == [] && flashQueue.depth == QUEUE_DEPTH_FLASH
      requires mctp.Valid() && mctp.State() == INIT && hal.attempts == [] && sel.Valid() && sel.history == []
      ensures Valid() && sys.pc == Waiting && events == [] && started == clock.now
    {
      this.rxQueue, this.nicQueue, this.flashQueue := rxQueue, nicQueue, flashQueue;
      this.mctp, this.hal, this.sel, this.clock := mctp, hal, sel, clock;
      lastSeenMs := Tick(clock.now);
      flashCmd := None;
      started := clock.now;
      events := [];
      sys := Start(clock.now);
    }

    /** Whatever the code has done, every property of the transition system's runs holds of it. */
    lemma CodeStaysInvariant()
      requires Valid()
      ensures Inv(sys)
    {
      hide Run, Inv;
      RunInv(started, events);
    }

    /** Reading the log table back gives the last 32 of the alerts and liveness misses so far, in order. */
    lemma LogReadBack()
      requires Valid()
      ensures
        var log := Logged(sys.trace);
        && sel.head < 32 && sel.count <= 32
        && sel.Entries() == if |log| <= 32 then log else log[|log| - 32..]
    {
      hide Run, Logged;
      CodeStaysInvariant();
      sel.EntriesAreRecent();
    }

    /** Records one step of the transition system. */
    ghost method Did(e: Event)
      requires sys == Run(Start(started), events)
      modifies this`events, this`sys
      ensures events == old(events) + [e] && sys == Next(old(sys), e)
      ensures sys == Run(Start(started), events)
    {
      assert (events + [e])[..|events|] == events;
      events := events + [e];
      sys := Next(sys, e);
    }

    /** What an interrupt or another task does between two steps of this one. */
    method Environment(e: Event)
      requires Valid() && Outside(e)
      modifies rxQueue, nicQueue, flashQueue, clock, this`flashCmd, this`events, this`sys
      ensures Valid() && events == old(events) + [e] && sys.pc == old(sys.pc)
      ensures |rxQueue.items| + |nicQueue.items| <= old(|rxQueue.items| + |nicQueue.items|) + 1
    {
      hide Run, Clamped, Tick;
      match e {
        case RxInterrupt(data) =>
          var block := new Byte[|data|](i requires 0 <= i < |data| => data[i]);
          assert block[..|data|] == data;
          BmcI2cRxIsr(rxQueue, block, |data|);
        case AlertInterrupt =>
          NicAlertIsr(nicQueue);
        case FlashReceives =>
          if flashCmd == None {
            var err, cmd := flashQueue.Receive();
            flashCmd := cmd;
          }
        case FlashFinishes =>
          flashCmd := None;
        case TimePasses(ms) =>
          clock.now := clock.now + ms;
      }
      Did(e);
    }

    /** Any number of the pending outside events happen now. */
    method Interrupts(pending: seq<Event>) returns (rest: seq<Event>)
      requires Valid() && AllOutside(pending)
      modifies rxQueue, nicQueue, flashQueue, clock, this`flashCmd, this`events, this`sys
      ensures Valid() && Adds(old(events), events, pending, rest, 0) && sys.pc == old(sys.pc)
      ensures AllOutside(rest)
      ensures |rest| + |rxQueue.items| + |nicQueue.items| <= |pending| + old(|rxQueue.items| + |nicQueue.items|)
    {
      hide Adds;
      rest := pending;
      AddsNothing(events, rest);
      while rest != []
        invariant Valid() && Adds(old(events), events, pending, rest, 0) && sys.pc == old(sys.pc)
        invariant AllOutside(rest)
        invariant |rest| + |rxQueue.items| + |nicQueue.items| <= |pending| + old(|rxQueue.items| + |nicQueue.items|)
        decreases |rest|
      {
        if * { break; }
        ghost var was := events;
        Environment(rest[0]);
        AddsOne(was, rest[0], rest[1..]);
        assert [rest[0]] + rest[1..] == rest;
        AddsCompose(old(events), was, events, pending, rest, rest[1..], 0, 0);
        rest := rest[1..];
      }
    }

    /** The protocol stack and, for a complete request, dispatch: the rest of the loop body. */
    method ProcessBlock(m: RxMsg, rec: SensorRecord)
      returns (tooLong: bool, ghost v: Byte, ghost d: Byte, ghost s: Byte)
      requires Separate() && mctp.Valid() && flashQueue.Valid() && flashQueue.depth == QUEUE_DEPTH_FLASH
      modifies mctp, mctp.buf, flashQueue, hal
      ensures mctp.Valid() && flashQueue.Valid()
      ensures mctp.State() == Receive(old(mctp.State()), m).0
      ensures tooLong <==> Receive(old(mctp.State()), m).1 == Oversize
      ensures
        match Receive(old(mctp.State()), m).1
        case Request(msg) =>
          var o := OutcomeOf(msg, rec, old(|flashQueue.items|));
          && flashQueue.items == old(flashQueue.items) + (if o.cmd.Some? then [o.cmd.value] else [])
          && hal.attempts == old(hal.attempts) + [Frame(v, d, s, Response(msg, o.cc, o.data))]
        case _ => flashQueue.items == old(flashQueue.items) && hal.attempts == old(hal.attempts)
    {
      hide Receive, OutcomeOf, Frame, Response;
      var msg := new MsgBuf();
      v, d, s := 0, 0, 0;
      var r, parsed := ProcessRx(mctp, m, msg);
      tooLong := r.TooLong?;
      if parsed {
        var v0, d0, s0 := DispatchPldm(msg, rec, flashQueue, hal);
        v, d, s := v0, d0, s0;
      }
    }

    /** One step of the transition system has been recorded, in which the task's cache read returned rec. */
    twostate predicate Handling(rec: SensorRecord)
      reads this
    {
      exists v: Byte, d: Byte, s: Byte :: events == old(events) + [TaskStep(rec, v, d, s)]
    }

    /** The liveness update, before anything is done with the block. */
    method NoteLiveness(m: RxMsg)
      requires Valid() && sys.pc == TookBmc(m)
      modifies this`lastSeenMs, this`events, this`sys
      ensures Valid() && events == old(events) + [STEP] && sys.pc == HandleBmc(m)
      ensures lastSeenMs == Tick(clock.now)
    {
      hide Run, Tick, Handled, Blocks;
      lastSeenMs := clock.GetTickMs();
      Did(STEP);
    }

    /** Takes one block through protocol stack and dispatch. Past a message too long for its packet the model stops. */
    method HandleBlock(m: RxMsg, rec: SensorRecord) returns (halted: bool)
      requires Valid() && sys.pc == HandleBmc(m)
      modifies this, mctp, mctp.buf, flashQueue, hal
      ensures Valid() && Handling(rec)
      ensures |rxQueue.items| == old(|rxQueue.items|) && |nicQueue.items| == old(|nicQueue.items|)
      ensures sys.pc == if halted then Halted else DrainBmc
    {
      hide Run, Receive, OutcomeOf, Frame, Response, Tick, Handled, Blocks;
      ghost var v, d, s;
      halted, v, d, s := ProcessBlock(m, rec);
      HandledEffect(sys, m, rec, v, d, s);
      Did(TaskStep(rec, v, d, s));
    }

    /** One receive on the BMC queue: a block to handle, or the queue found empty. */
    method TakeBlock() returns (m: Option<RxMsg>)
      requires Valid() && sys.pc == DrainBmc
      modifies rxQueue, this`events, this`sys
      ensures Valid() && events == old(events) + [STEP]
      ensures if m.Some? then sys.pc == TookBmc(m.value) && |rxQueue.items| < old(|rxQueue.items|) else sys.pc == DrainNic
    {
      hide Run, Tick, Handled, Blocks;
      var err, x := rxQueue.Receive();
      Did(STEP);
      m := if err == Ok then x else None;
    }

    /** One receive on the NIC queue: an event to handle, or the queue found empty. */
    method TakeEvent() returns (e: Option<NicEvent>)
      requires Valid() && sys.pc == DrainNic
      modifies nicQueue, this`events, this`sys
      ensures Valid() && events == old(events) + [STEP]
      ensures if e.Some? then sys.pc == HandleNic(e.value) && |nicQueue.items| < old(|nicQueue.items|) else sys.pc == Liveness
    {
      hide Run, Tick, Handled, Blocks;
      var err, x := nicQueue.Receive();
      Did(STEP);
      e := if err == Ok then x else None;
    }

    method HandleEvent(e: NicEvent)
      requires Valid() && sys.pc == HandleNic(e)
      modifies sel, sel.table, this`events, this`sys
      ensures Valid() && events == old(events) + [STEP] && sys.pc == DrainNic
    {
      hide Run, Tick, Handled, Blocks;
      sel.HandleNicEvent(e, clock);
      Did(STEP);
    }

    method HeardRecently()
      requires Valid() && sys.pc == Liveness && LivenessCheck(Tick(clock.now), lastSeenMs)
      modifies this`events, this`sys
      ensures Valid() && events == old(events) + [STEP] && sys.pc == Waiting
    {
      hide Run, Tick, Handled, Blocks, LivenessCheck;
      Did(STEP);
    }

    method GoneSilent()
      requires Valid() && sys.pc == Liveness && !LivenessCheck(Tick(clock.now), lastSeenMs)
      modifies sel, sel.table, this`events, this`sys
      ensures Valid() && events == old(events) + [STEP] && sys.pc == Waiting
    {
      hide Run, Tick, Handled, Blocks, LivenessCheck;
      sel.LogSelEvent(MSG_TYPE_LIVENESS, 0, clock);
      Did(STEP);
    }

    /** The liveness check, and the log entry when the BMC has gone silent. */
    method CheckLiveness()
      requires Valid() && sys.pc == Liveness
      modifies sel, sel.table, this`events, this`sys
      ensures Valid() && events == old(events) + [STEP] && sys.pc == Waiting
    {
      hide Run, Tick, Handled, Blocks, LivenessCheck, Next;
      TickIsTick(sys.lastSeen);
      var alive := LivenessOk(clock, lastSeenMs);
      if alive {
        HeardRecently();
      } else {
        GoneSilent();
      }
    }

    ghost predicate AllOutside(es: seq<Event>) {
      forall i :: 0 <= i < |es| ==> Outside(es[i])
    }

    /** The loop body of the first drain, for a block just taken. */
    method ServeBlock(m: RxMsg, pending: seq<Event>) returns (rest: seq<Event>, halted: bool)
      requires Valid() && sys.pc == TookBmc(m) && AllOutside(pending)
      modifies Repr()
      ensures Valid() && Adds(old(events), events, pending, rest, 0) && AllOutside(rest)
      ensures |rest| + |rxQueue.items| + |nicQueue.items| <= |pending| + old(|rxQueue.items| + |nicQueue.items|)
      ensures sys.pc == if halted then Halted else DrainBmc
    {
      hide Valid, Outside, AllOutside, Adds, Tick, LivenessCheck;
      rest := Interrupts(pending);
      ghost var was, some := events, rest;
      NoteLiveness(m);
      OwnStep(was, STEP, rest, old(events), pending, 0);
      was := events;
      rest := Interrupts(rest);
      AddsCompose(old(events), was, events, pending, some, rest, 0, 0);
      was := events;
      var rec: SensorRecord := *;
      halted := HandleBlock(m, rec);
      OwnStep(was, events[|was|], rest, old(events), pending, 0);
    }

    /** The first drain loop: blocks from the BMC until the queue is found empty. */
    method DrainBmcQueue(pending: seq<Event>) returns (rest: seq<Event>, halted: bool)
      requires Valid() && sys.pc == DrainBmc && AllOutside(pending)
      modifies Repr()
      ensures Valid() && Adds(old(events), events, pending, rest, 0) && AllOutside(rest)
      ensures sys.pc == if halted then Halted else DrainNic
    {
      hide Valid, Outside, AllOutside, Adds, Tick, LivenessCheck;
      rest := pending;
      AddsNothing(events, rest);
      while true
        invariant Valid() && Adds(old(events), events, pending, rest, 0) && sys.pc == DrainBmc && AllOutside(rest)
        decreases |rest| + |rxQueue.items| + |nicQueue.items|
      {
        ghost var was, some := events, rest;
        rest := Interrupts(rest);
        AddsCompose(old(events), was, events, pending, some, rest, 0, 0);
        was := events;
        var m := TakeBlock();
        OwnStep(was, STEP, rest, old(events), pending, 0);
        if m.None? { return rest, false; }
        was, some := events, rest;
        rest, halted := ServeBlock(m.value, rest);
        AddsCompose(old(events), was, events, pending, some, rest, 0, 0);
        if halted { return; }
      }
    }

    /** The loop body of the second drain, for an event just taken. */
    method ServeEvent(e: NicEvent, pending: seq<Event>) returns (rest: seq<Event>)
      requires Valid() && sys.pc == HandleNic(e) && AllOutside(pending)
      modifies Repr()
      ensures Valid() && Adds(old(events), events, pending, rest, 0) && AllOutside(rest)
      ensures |rest| + |rxQueue.items| + |nicQueue.items| <= |pending| + old(|rxQueue.items| + |nicQueue.items|)
      ensures sys.pc == DrainNic
    {
      hide Valid, Outside, AllOutside, Adds, Tick, LivenessCheck;
      rest := Interrupts(pending);
      ghost var was := events;
      HandleEvent(e);
      OwnStep(was, STEP, rest, old(events), pending, 0);
    }

    /** The second drain loop: NIC events until their queue is found empty. */
    method DrainNicQueue(pending: seq<Event>) returns (rest: seq<Event>)
      requires Valid() && sys.pc == DrainNic && AllOutside(pending)
      modifies Repr()
      ensures Valid() && Adds(old(events), events, pending, rest, 0) && AllOutside(rest)
      ensures sys.pc == Liveness
    {
      hide Valid, Outside, AllOutside, Adds, Tick, LivenessCheck;
      rest := pending;
      AddsNothing(events, rest);
      while true
        invariant Valid() && Adds(old(events), events, pending, rest, 0) && sys.pc == DrainNic && AllOutside(rest)
        decreases |rest| + |rxQueue.items| + |nicQueue.items|
      {
        ghost var was, some := events, rest;
        rest := Interrupts(rest);
        AddsCompose(old(events), was, events, pending, some, rest, 0, 0);
        was := events;
        var e := TakeEvent();
        OwnStep(was, STEP, rest, old(events), pending, 0);
        if e.None? { return; }
        was, some := events, rest;
        rest := ServeEvent(e.value, rest);
        AddsCompose(old(events), was, events, pending, some, rest, 0, 0);
      }
    }

    method Wake(bits: nat)
      requires Valid() && sys.pc == Waiting
      modifies this`events, this`sys
      ensures Valid() && events == old(events) + [WaitReturns(bits)] && sys.pc == DrainBmc
    {
      hide Run, Tick, Handled, Blocks;
      Did(WaitReturns(bits));
    }

    /**
     * One turn of the task's endless loop: the task is woken once, some of what is pending arrives meanwhile, and the
     * run of the transition system ends back at waiting, or at a halt.
     */
    method TaskIteration(pending: seq<Event>) returns (rest: seq<Event>)
      requires Valid() && sys.pc == Waiting && AllOutside(pending)
      modifies Repr()
      ensures Valid() && Adds(old(events), events, pending, rest, 1)
      ensures sys.pc == Waiting || sys.pc == Halted
    {
      hide Valid, Outside, AllOutside, Adds, Tick, LivenessCheck;
      rest := Interrupts(pending);
      ghost var was, some := events, rest;
      var bits: nat := *;
      Wake(bits);
      AddsOne(was, WaitReturns(bits), rest);
      assert !Outside(WaitReturns(bits)) by { OwnEvents(WaitReturns(bits)); }
      AddsCompose(old(events), was, events, pending, rest, rest, 0, 1);
      was := events;
      var halted;
      rest, halted := DrainBmcQueue(rest);
      AddsCompose(old(events), was, events, pending, some, rest, 1, 0);
      if halted { return; }
      was, some := events, rest;
      rest := DrainNicQueue(rest);
      AddsCompose(old(events), was, events, pending, some, rest, 1, 0);
      was := events;
      CheckLiveness();
      OwnStep(was, STEP, rest, old(events), pending, 1);
    }
  }

  method LivenessOk(clock: Clock, lastSeenMs: nat) returns (alive: bool)
    requires lastSeenMs < TICK_MODULUS
    ensures Tick(clock.now) < TICK_MODULUS && alive == LivenessCheck(Tick(clock.now), lastSeenMs)
  {
    var now := clock.GetTickMs();
    alive := (now - lastSeenMs) % TICK_MODULUS < LIVENESS_TIMEOUT;
  }

  lemma TickIsTick(now: nat)
    ensures Tick(now) < TICK_MODULUS
  {}

  /** What handling a block changes outside the histories. */
  lemma HandledEffect(s: Sys, m: RxMsg, rec: SensorRecord, v: Byte, d: Byte, b: Byte)
    ensures
      var t := Handled(s, m, rec, v, d, b);
      && t.reasm == Receive(s.reasm, m).0
      && t.bmc.queue == s.bmc.queue && t.nic == s.nic && t.flashBusy == s.flashBusy && t.sel == s.sel
      && t.now == s.now && t.lastSeen == s.lastSeen && t.pc == (if Receive(s.reasm, m).1 == Oversize then Halted else DrainBmc)
      && match Receive(s.reasm, m).1
         case Request(msg) =>
           var o := OutcomeOf(msg, rec, |s.flash.queue|);
           && t.flash.queue == s.flash.queue + (if o.cmd.Some? then [o.cmd.value] else [])
           && Blocks(t.exchanges) == Blocks(s.exchanges) + [Frame(v, d, b, Response(msg, o.cc, o.data))]
         case _ => t.flash.queue == s.flash.queue && Blocks(t.exchanges) == Blocks(s.exchanges)
  {
    hide Receive, OutcomeOf, Frame, Response, IsUpdate, Blocks;
    var r := Receive(s.reasm, m).1;
    if r.Request? {
      var o := OutcomeOf(r.msg, rec, |s.flash.queue|);
      BlocksSnoc(s.exchanges, Exchange(r.msg, o, Frame(v, d, b, Response(r.msg, o.cc, o.data))));
    }
  }
}
