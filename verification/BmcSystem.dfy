/**
 * The queues, the BMC manager's task and the flash task as one transition system. An event
 * is one atomic step of the hardware or of a task; an event that is not enabled changes
 * nothing, so every sequence of events is a run. The task touches at most one thing shared
 * with another task in each of its steps.
 */
module BmcSystem {
  import opened Common
  import opened Rtos
  import opened Mctp
  import opened MctpRuns
  import opened Pldm
  import opened ProtocolHdlr
  import opened NicFlashMgr
  import opened NicGenMgr
  import opened IsrHandlers
  import opened Dispatch
  import opened SensorMgr

  const QUEUE_DEPTH_BMC := 8
  const QUEUE_DEPTH_NIC := 4
  const LIVENESS_TIMEOUT := 5000
  const MSG_TYPE_LIVENESS := 8

  /**
   * Where the BMC task is; a block it took is first noted for liveness and then handled. Halted: a message longer than the packet buffer was completed, and nothing is claimed
   * from then on; BmcRuns says exactly when.
   */
  datatype Pc =
    | Waiting
    | DrainBmc
    | TookBmc(m: RxMsg)
    | HandleBmc(m: RxMsg)
    | DrainNic
    | HandleNic(e: NicEvent)
    | Liveness
    | Halted

  /** What the BMC task did, in order. */
  datatype Action =
    | Woken
    | BmcTaken(m: RxMsg)
    | BmcHeard(at: nat)
    | BmcHandled
    | BmcEmpty(held: nat)
    | NicTaken(e: NicEvent)
    | NicLogged(e: NicEvent, tick: nat)
    | NicEmpty(held: nat)
    | BmcAlive(at: nat)
    | BmcSilent(at: nat, tick: nat)

  /** One request with the block that answered it and the flash command it posted. */
  datatype Exchange = Exchange(request: PldmMsg, outcome: Outcome, block: Bytes)

  /** A queue with everything ever accepted into it and everything its consumer has finished with. */
  datatype Channel<T> = Channel(queue: seq<T>, accepted: seq<T>, done: seq<T>)

  /** A send that was refused: how much the queue held, and its depth. */
  datatype Refusal = Refusal(held: nat, depth: nat)

  datatype Sys = Sys(
    bmc: Channel<RxMsg>, nic: Channel<NicEvent>, flash: Channel<FlashCmd>,
    flashBusy: Option<FlashCmd>,
    pc: Pc, reasm: Reasm, started: nat, now: nat, lastSeen: nat,
    exchanges: seq<Exchange>, sel: seq<SelEntry>, trace: seq<Action>, refused: seq<Refusal>)

  datatype Event =
    | RxInterrupt(data: Bytes)
    | AlertInterrupt
    | WaitReturns(bits: nat)
    | TaskStep(rec: SensorRecord, v: Byte, d: Byte, s: Byte)
    | FlashReceives
    | FlashFinishes
    | TimePasses(ms: nat)

  /** A step of the task in which no choice of the environment matters. */
  const STEP: Event := TaskStep(ZERO_RECORD, 0, 0, 0)

  function Fresh<T>(): Channel<T> { Channel([], [], []) }

  function Start(now: nat): Sys {
    Sys(Fresh(), Fresh(), Fresh(), None, Waiting, INIT, now, now, now, [], [], [], [])
  }

  function Accept<T>(c: Channel<T>, x: T): Channel<T> { c.(queue := c.queue + [x], accepted := c.accepted + [x]) }

  function Taken<T>(c: Channel<T>): Channel<T>
    requires c.queue != []
  {
    c.(queue := c.queue[1..])
  }

  function Finish<T>(c: Channel<T>, x: T): Channel<T> { c.(done := c.done + [x]) }

  function Refuse(s: Sys, held: nat, depth: nat): Sys { s.(refused := s.refused + [Refusal(held, depth)]) }

  /** Handling one received block: reassembly, and for a complete request its dispatch and answer. */
  function Handled(s: Sys, m: RxMsg, rec: SensorRecord, v: Byte, d: Byte, b: Byte): Sys {
    var (next, r) := Receive(s.reasm, m);
    var t := s.(bmc := Finish(s.bmc, m), reasm := next, pc := DrainBmc, trace := s.trace + [BmcHandled]);
    match r
    case NoRequest => t
    case Oversize => t.(pc := Halted)
    case Request(msg) =>
      var o := OutcomeOf(msg, rec, |s.flash.queue|);
      var x := Exchange(msg, o, Frame(v, d, b, Response(msg, o.cc, o.data)));
      var u := t.(exchanges := t.exchanges + [x]);
      if o.cmd.Some? then u.(flash := Accept(u.flash, o.cmd.value))
      else if IsUpdate(msg) then Refuse(u, |u.flash.queue|, QUEUE_DEPTH_FLASH)
      else u
  }

  function Task(s: Sys, rec: SensorRecord, v: Byte, d: Byte, b: Byte): Sys {
    match s.pc
    case Waiting => s
    case DrainBmc =>
      if s.bmc.queue != [] then
        s.(bmc := Taken(s.bmc), pc := TookBmc(s.bmc.queue[0]), trace := s.trace + [BmcTaken(s.bmc.queue[0])])
      else s.(pc := DrainNic, trace := s.trace + [BmcEmpty(|s.bmc.queue|)])
    case TookBmc(m) => s.(pc := HandleBmc(m), lastSeen := s.now, trace := s.trace + [BmcHeard(s.now)])
    case HandleBmc(m) => Handled(s, m, rec, v, d, b)
    case DrainNic =>
      if s.nic.queue != [] then
        s.(nic := Taken(s.nic), pc := HandleNic(s.nic.queue[0]), trace := s.trace + [NicTaken(s.nic.queue[0])])
      else s.(pc := Liveness, trace := s.trace + [NicEmpty(|s.nic.queue|)])
    case HandleNic(e) =>
      s.(nic := Finish(s.nic, e), pc := DrainNic,
         sel := s.sel + [SelEntry(e.eventType, e.eventData, Tick(s.now))], trace := s.trace + [NicLogged(e, Tick(s.now))])
    case Liveness =>
      if LivenessCheck(Tick(s.now), Tick(s.lastSeen)) then
        s.(pc := Waiting, trace := s.trace + [BmcAlive(s.now)])
      else
        s.(pc := Waiting, sel := s.sel + [SelEntry(MSG_TYPE_LIVENESS, 0, Tick(s.now))],
           trace := s.trace + [BmcSilent(s.now, Tick(s.now))])
    case Halted => s
  }

  /** The code's test, on 32-bit tick counts. */
  predicate LivenessCheck(now: nat, lastSeen: nat)
    requires now < TICK_MODULUS && lastSeen < TICK_MODULUS
  {
    TickDiff(now, lastSeen) < LIVENESS_TIMEOUT
  }

  function Next(s: Sys, e: Event): Sys {
    match e
    case RxInterrupt(data) =>
      if |s.bmc.queue| < QUEUE_DEPTH_BMC then s.(bmc := Accept(s.bmc, Clamped(data)))
      else Refuse(s, |s.bmc.queue|, QUEUE_DEPTH_BMC)
    case AlertInterrupt =>
      if |s.nic.queue| < QUEUE_DEPTH_NIC then s.(nic := Accept(s.nic, ALERT_EVENT))
      else Refuse(s, |s.nic.queue|, QUEUE_DEPTH_NIC)
    case WaitReturns(_) =>
      if s.pc == Waiting then s.(pc := DrainBmc, trace := s.trace + [Woken]) else s
    case TaskStep(rec, v, d, b) => Task(s, rec, v, d, b)
    case FlashReceives =>
      if s.flashBusy == None && s.flash.queue != []
      then s.(flash := Taken(s.flash), flashBusy := Some(s.flash.queue[0])) else s
    case FlashFinishes =>
      if s.flashBusy.Some? then s.(flash := Finish(s.flash, s.flashBusy.value), flashBusy := None) else s
    case TimePasses(ms) => s.(now := s.now + ms)
  }

  function Run(s: Sys, events: seq<Event>): Sys
    decreases |events|
  {
    if events == [] then s else Next(Run(s, events[..|events| - 1]), events[|events| - 1])
  }

  // ---- What the histories should be -------------------------------------------------------

  /** The requests a history of blocks contains, by the protocol alone. */
  function Requests(h: seq<RxMsg>): seq<PldmMsg>
    decreases |h|
  {
    if h == [] then []
    else
      var r := Receive(After(INIT, h[..|h| - 1]), h[|h| - 1]).1;
      Requests(h[..|h| - 1]) + (if r.Request? then [r.msg] else [])
  }

  function Asked(xs: seq<Exchange>): (ms: seq<PldmMsg>)
    ensures |ms| == |xs|
    decreases |xs|
  {
    if xs == [] then [] else Asked(xs[..|xs| - 1]) + [xs[|xs| - 1].request]
  }

  /** The flash commands that a list of exchanges posted. */
  function Posted(xs: seq<Exchange>): seq<FlashCmd>
    decreases |xs|
  {
    if xs == [] then []
    else
      var x := xs[|xs| - 1];
      Posted(xs[..|xs| - 1]) + (if IsUpdate(x.request) && x.outcome.cc == PLDM_CC_SUCCESS then [UpdateCommand(x.request)] else [])
  }

  /**
   * The log entries that a list of actions should have written: alerts as they are handled, liveness misses as
   * they are found.
   */
  function Logged(trace: seq<Action>): seq<SelEntry>
    decreases |trace|
  {
    if trace == [] then [] else Logged(trace[..|trace| - 1]) + EntryOf(trace[|trace| - 1])
  }

  function EntryOf(a: Action): seq<SelEntry> {
    match a
    case NicLogged(e, tick) => [SelEntry(e.eventType, e.eventData, tick)]
    case BmcSilent(_, tick) => [SelEntry(MSG_TYPE_LIVENESS, 0, tick)]
    case _ => []
  }

  function LoggedEvents(trace: seq<Action>): seq<NicEvent>
    decreases |trace|
  {
    if trace == [] then []
    else LoggedEvents(trace[..|trace| - 1]) + (if trace[|trace| - 1].NicLogged? then [trace[|trace| - 1].e] else [])
  }

  /** Every NIC event is taken after the BMC queue was seen empty, with nothing but NIC events in between. */
  ghost predicate NicAfterEmpty(trace: seq<Action>, i: nat)
    requires i <= |trace|
  {
    exists j: nat :: j < i && trace[j] == BmcEmpty(0) && forall k: nat :: j < k < i ==> trace[k].NicTaken? || trace[k].NicLogged?
  }

  ghost predicate DrainOrder(trace: seq<Action>) {
    forall i: nat :: i < |trace| && trace[i].NicTaken? ==> NicAfterEmpty(trace, i)
  }

  /** The order of the code's statements: what may come right after what in a turn of the loop. */
  predicate MayFollow(last: Option<Action>, a: Action) {
    match a
    case Woken => last == None || last.value.BmcAlive? || last.value.BmcSilent?
    case BmcTaken(_) => last.Some? && (last.value.Woken? || last.value.BmcHandled?)
    case BmcHeard(_) => last.Some? && last.value.BmcTaken?
    case BmcHandled => last.Some? && last.value.BmcHeard?
    case BmcEmpty(held) => held == 0 && last.Some? && (last.value.Woken? || last.value.BmcHandled?)
    case NicTaken(_) => last.Some? && (last.value.BmcEmpty? || last.value.NicLogged?)
    case NicLogged(e, _) => last == Some(NicTaken(e))
    case NicEmpty(held) => held == 0 && last.Some? && (last.value.BmcEmpty? || last.value.NicLogged?)
    case BmcAlive(_) => last == Some(NicEmpty(0))
    case BmcSilent(_, _) => last == Some(NicEmpty(0))
  }

  function Last(trace: seq<Action>): Option<Action> {
    if trace == [] then None else Some(trace[|trace| - 1])
  }

  /** The whole record is turns of the loop: wake, BMC blocks, BMC empty, NIC events, NIC empty, one liveness verdict. */
  ghost predicate LoopOrder(trace: seq<Action>) {
    forall i: nat :: i < |trace| ==> MayFollow(Last(trace[..i]), trace[i])
  }

  /** The true time at which the BMC was last heard, from what the task did. */
  function LastHeard(started: nat, trace: seq<Action>): nat
    decreases |trace|
  {
    if trace == [] then started
    else if trace[|trace| - 1].BmcHeard? then trace[|trace| - 1].at
    else LastHeard(started, trace[..|trace| - 1])
  }

  /** The true time the BMC had been silent for when action i was taken. */
  function Silence(started: nat, trace: seq<Action>, i: nat): int
    requires i < |trace| && (trace[i].BmcAlive? || trace[i].BmcSilent?)
  {
    trace[i].at - LastHeard(started, trace[..i])
  }

  /** The verdict is life exactly when the true silence, modulo one turn of the 32-bit tick count, is short. */
  ghost predicate Verdict(started: nat, trace: seq<Action>, i: nat)
    requires i < |trace|
  {
    trace[i].BmcAlive? || trace[i].BmcSilent? ==>
      var silence := Silence(started, trace, i);
      silence >= 0 && (trace[i].BmcAlive? <==> silence % TICK_MODULUS < LIVENESS_TIMEOUT)
  }

  /** An exchange as the requirements have it, from the request alone except for what the moment decided. */
  ghost predicate Answered(x: Exchange) {
    && (exists v: Byte, d: Byte, b: Byte :: x.block == Frame(v, d, b, Response(x.request, x.outcome.cc, x.outcome.data)))
    && (|x.block| == 8 || |x.block| == 8 + RECORD_SIZE)
    && (|x.block| == 8 + RECORD_SIZE <==> IsReading(x.request) && x.outcome.cc == PLDM_CC_SUCCESS)
    && (x.outcome.cc == PLDM_CC_INVALID_CMD <==> !IsReading(x.request) && !IsUpdate(x.request))
    && (x.outcome.cc == PLDM_CC_SUCCESS || x.outcome.cc == PLDM_CC_ERROR || x.outcome.cc == PLDM_CC_INVALID_CMD)
    && (IsReading(x.request) ==> (x.outcome.cc == PLDM_CC_SUCCESS <==> SensorAsked(x.request) < POPULATED))
    && (x.outcome.cmd.Some? <==> IsUpdate(x.request) && x.outcome.cc == PLDM_CC_SUCCESS)
    && (x.outcome.cmd.Some? ==> x.outcome.cmd.value == UpdateCommand(x.request))
  }

  // ---- Invariant -----------------------------------------------------------------------------

  function InHand<T>(x: Option<T>): seq<T> { if x.Some? then [x.value] else [] }

  ghost predicate Conserved<T(!new)>(c: Channel<T>, inHand: Option<T>, depth: nat) {
    c.accepted == c.done + InHand(inHand) + c.queue && |c.queue| <= depth
  }

  function BmcInHand(pc: Pc): Option<RxMsg> { if pc.TookBmc? || pc.HandleBmc? then Some(pc.m) else None }

  function NicInHand(pc: Pc): Option<NicEvent> { if pc.HandleNic? then Some(pc.e) else None }

  ghost predicate QueueInv(s: Sys) {
    && Conserved(s.bmc, BmcInHand(s.pc), QUEUE_DEPTH_BMC)
    && Conserved(s.nic, NicInHand(s.pc), QUEUE_DEPTH_NIC)
    && Conserved(s.flash, s.flashBusy, QUEUE_DEPTH_FLASH)
    && forall i: nat :: i < |s.refused| ==> s.refused[i].held == s.refused[i].depth
  }

  ghost predicate RequestInv(s: Sys) {
    && s.reasm == After(INIT, s.bmc.done)
    && Asked(s.exchanges) == Requests(s.bmc.done)
    && Posted(s.exchanges) == s.flash.accepted
    && forall i: nat :: i < |s.exchanges| ==> Answered(s.exchanges[i])
  }

  ghost predicate TraceInv(s: Sys) {
    && s.sel == Logged(s.trace)
    && s.nic.done == LoggedEvents(s.trace)
    && DrainOrder(s.trace)
    && (s.pc.DrainNic? || s.pc.HandleNic? ==> NicAfterEmpty(s.trace, |s.trace|))
  }

  ghost predicate TimeInv(s: Sys) {
    && s.lastSeen <= s.now
    && s.lastSeen == LastHeard(s.started, s.trace)
    && forall i: nat :: i < |s.trace| ==> Verdict(s.started, s.trace, i)
  }

  ghost predicate OrderInv(s: Sys) {
    && LoopOrder(s.trace)
    && var last := Last(s.trace);
       match s.pc
       case Waiting => last == None || last.value.BmcAlive? || last.value.BmcSilent?
       case DrainBmc => last.Some? && (last.value.Woken? || last.value.BmcHandled?)
       case TookBmc(m) => last == Some(BmcTaken(m))
       case HandleBmc(_) => last.Some? && last.value.BmcHeard?
       case DrainNic => last.Some? && (last.value.BmcEmpty? || last.value.NicLogged?)
       case HandleNic(e) => last == Some(NicTaken(e))
       case Liveness => last == Some(NicEmpty(0))
       case Halted => last.Some? && last.value.BmcHandled?
  }

  // ---- Every step keeps it --------------------------------------------------------------------

  lemma OutcomeFacts(msg: PldmMsg, rec: SensorRecord, queued: nat)
    ensures
      var o := OutcomeOf(msg, rec, queued);
      && (o.cmd.Some? <==> IsUpdate(msg) && queued < QUEUE_DEPTH_FLASH)
      && (o.cmd.Some? <==> IsUpdate(msg) && o.cc == PLDM_CC_SUCCESS)
      && (o.cmd.Some? ==> o.cmd.value == UpdateCommand(msg))
      && (|o.data| == RECORD_SIZE || |o.data| == 0)
      && (|o.data| == RECORD_SIZE <==> IsReading(msg) && o.cc == PLDM_CC_SUCCESS)
      && (o.cc == PLDM_CC_INVALID_CMD <==> !IsReading(msg) && !IsUpdate(msg))
      && (o.cc == PLDM_CC_SUCCESS || o.cc == PLDM_CC_ERROR || o.cc == PLDM_CC_INVALID_CMD)
      && (IsReading(msg) ==> (o.cc == PLDM_CC_SUCCESS <==> SensorAsked(msg) < POPULATED))
  {
    hide Pack, UpdateCommand;
  }

  lemma {:induction false} HandledQueues(s: Sys, m: RxMsg, rec: SensorRecord, v: Byte, d: Byte, b: Byte)
    requires QueueInv(s) && s.pc == HandleBmc(m)
    ensures QueueInv(Handled(s, m, rec, v, d, b))
  {
    hide Receive, OutcomeOf, Frame, Response, IsUpdate, IsReading;
    var r := Receive(s.reasm, m).1;
    if r.Request? {
      OutcomeFacts(r.msg, rec, |s.flash.queue|);
    }
    assert s.bmc.done + [m] + s.bmc.queue == s.bmc.done + InHand(Some(m)) + s.bmc.queue;
    assert (s.bmc.done + [m]) + [] + s.bmc.queue == s.bmc.done + [m] + s.bmc.queue;
  }

  lemma TakenConserved<T(!new)>(c: Channel<T>, depth: nat)
    requires Conserved(c, None, depth) && c.queue != []
    ensures Conserved(Taken(c), Some(c.queue[0]), depth)
  {
    assert c.queue == [c.queue[0]] + c.queue[1..];
  }

  lemma FinishConserved<T(!new)>(c: Channel<T>, x: T, depth: nat)
    requires Conserved(c, Some(x), depth)
    ensures Conserved(Finish(c, x), None, depth)
  {
    assert c.done + InHand(Some(x)) + c.queue == (c.done + [x]) + [] + c.queue;
  }

  lemma AcceptConserved<T(!new)>(c: Channel<T>, x: T, inHand: Option<T>, depth: nat)
    requires Conserved(c, inHand, depth) && |c.queue| < depth
    ensures Conserved(Accept(c, x), inHand, depth)
  {
    assert (c.done + InHand(inHand) + c.queue) + [x] == c.done + InHand(inHand) + (c.queue + [x]);
  }

  lemma KeepsQueues(s: Sys, e: Event)
    requires QueueInv(s)
    ensures QueueInv(Next(s, e))
  {
    hide Handled, Clamped, Conserved, TickDiff, Tick, Accept, Finish, Taken;
    Bounds(s);
    match e
    case RxInterrupt(data) =>
      if |s.bmc.queue| < QUEUE_DEPTH_BMC {
        AcceptConserved(s.bmc, Clamped(data), BmcInHand(s.pc), QUEUE_DEPTH_BMC);
      }
    case AlertInterrupt =>
      if |s.nic.queue| < QUEUE_DEPTH_NIC {
        AcceptConserved(s.nic, ALERT_EVENT, NicInHand(s.pc), QUEUE_DEPTH_NIC);
      }
    case TaskStep(rec, v, d, b) =>
      if s.pc.DrainBmc? && s.bmc.queue != [] {
        TakenConserved(s.bmc, QUEUE_DEPTH_BMC);
      } else if s.pc.HandleBmc? {
        HandledQueues(s, s.pc.m, rec, v, d, b);
      } else if s.pc.DrainNic? && s.nic.queue != [] {
        TakenConserved(s.nic, QUEUE_DEPTH_NIC);
      } else if s.pc.HandleNic? {
        FinishConserved(s.nic, s.pc.e, QUEUE_DEPTH_NIC);
      }
    case FlashReceives =>
      if s.flashBusy == None && s.flash.queue != [] {
        TakenConserved(s.flash, QUEUE_DEPTH_FLASH);
      }
    case FlashFinishes =>
      if s.flashBusy.Some? {
        FinishConserved(s.flash, s.flashBusy.value, QUEUE_DEPTH_FLASH);
      }
    case _ =>
  }

  lemma Bounds(s: Sys)
    requires QueueInv(s)
    ensures |s.bmc.queue| <= QUEUE_DEPTH_BMC && |s.nic.queue| <= QUEUE_DEPTH_NIC && |s.flash.queue| <= QUEUE_DEPTH_FLASH
  {}

  lemma RequestsSnoc(h: seq<RxMsg>, m: RxMsg)
    ensures
      var r := Receive(After(INIT, h), m).1;
      Requests(h + [m]) == Requests(h) + (if r.Request? then [r.msg] else [])
  {
    hide Receive, After;
    assert (h + [m])[..|h|] == h;
  }

  lemma ExchangesSnoc(xs: seq<Exchange>, x: Exchange)
    ensures Asked(xs + [x]) == Asked(xs) + [x.request]
    ensures Posted(xs + [x]) ==
      Posted(xs) + (if IsUpdate(x.request) && x.outcome.cc == PLDM_CC_SUCCESS then [UpdateCommand(x.request)] else [])
  {
    hide IsUpdate, UpdateCommand;
    assert (xs + [x])[..|xs|] == xs;
  }

  lemma ReceiveState(st: Reasm, m: RxMsg)
    ensures Receive(st, m).0 == Step(st, m).0
  {}

  lemma HandledRequests(s: Sys, m: RxMsg, rec: SensorRecord, v: Byte, d: Byte, b: Byte)
    requires RequestInv(s)
    ensures RequestInv(Handled(s, m, rec, v, d, b))
  {
    hide Receive, OutcomeOf, Frame, Response, IsUpdate, IsReading, After, Step, Answered, Asked, Posted, Requests, UpdateCommand;
    var r := Receive(s.reasm, m).1;
    SnocRun(INIT, s.bmc.done, m);
    ReceiveState(s.reasm, m);
    RequestsSnoc(s.bmc.done, m);
    if r.Request? {
      var o := OutcomeOf(r.msg, rec, |s.flash.queue|);
      var x := Exchange(r.msg, o, Frame(v, d, b, Response(r.msg, o.cc, o.data)));
      OutcomeFacts(r.msg, rec, |s.flash.queue|);
      ExchangesSnoc(s.exchanges, x);
      AnsweredWell(r.msg, rec, |s.flash.queue|, v, d, b);
    }
  }

  lemma AnsweredWell(msg: PldmMsg, rec: SensorRecord, queued: nat, v: Byte, d: Byte, b: Byte)
    ensures
      var o := OutcomeOf(msg, rec, queued);
      Answered(Exchange(msg, o, Frame(v, d, b, Response(msg, o.cc, o.data))))
  {
    hide OutcomeOf, IsUpdate, IsReading, UpdateCommand, SensorAsked;
    OutcomeFacts(msg, rec, queued);
  }

  lemma KeepsRequests(s: Sys, e: Event)
    requires RequestInv(s)
    ensures RequestInv(Next(s, e))
  {
    hide Handled, Clamped, After, Answered, Asked, Posted, Requests, Tick, TickDiff;
    if e.TaskStep? && s.pc.HandleBmc? {
      HandledRequests(s, s.pc.m, e.rec, e.v, e.d, e.s);
    }
  }

  lemma TraceSnoc(trace: seq<Action>, a: Action)
    ensures Logged(trace + [a]) == Logged(trace) + EntryOf(a)
    ensures LoggedEvents(trace + [a]) == LoggedEvents(trace) + (if a.NicLogged? then [a.e] else [])
  {
    hide EntryOf;
    assert (trace + [a])[..|trace|] == trace;
  }

  lemma NicAfterEmptyLater(trace: seq<Action>, a: Action, i: nat)
    requires i <= |trace|
    ensures NicAfterEmpty(trace + [a], i) <==> NicAfterEmpty(trace, i)
  {
    var longer := trace + [a];
    assert forall k: nat :: k < i ==> longer[k] == trace[k];
    if NicAfterEmpty(trace, i) {
      var j: nat :| j < i && trace[j] == BmcEmpty(0) && forall k: nat :: j < k < i ==> trace[k].NicTaken? || trace[k].NicLogged?;
      assert longer[j] == BmcEmpty(0);
    }
    if NicAfterEmpty(longer, i) {
      var j: nat :| j < i && longer[j] == BmcEmpty(0) && forall k: nat :: j < k < i ==> longer[k].NicTaken? || longer[k].NicLogged?;
      assert trace[j] == BmcEmpty(0);
      assert forall k: nat :: j < k < i ==> trace[k] == longer[k];
    }
  }

  lemma DrainOrderSnoc(trace: seq<Action>, a: Action)
    requires DrainOrder(trace) && (a.NicTaken? ==> NicAfterEmpty(trace, |trace|))
    ensures DrainOrder(trace + [a])
    ensures a == BmcEmpty(0) ==> NicAfterEmpty(trace + [a], |trace| + 1)
    ensures (a.NicTaken? || a.NicLogged?) && NicAfterEmpty(trace, |trace|) ==> NicAfterEmpty(trace + [a], |trace| + 1)
  {
    var longer := trace + [a];
    forall i: nat | i < |longer| && longer[i].NicTaken?
      ensures NicAfterEmpty(longer, i)
    {
      NicAfterEmptyLater(trace, a, i);
    }
    if a == BmcEmpty(0) {
      assert longer[|trace|] == BmcEmpty(0);
    } else if (a.NicTaken? || a.NicLogged?) && NicAfterEmpty(trace, |trace|) {
      var j: nat :| j < |trace| && trace[j] == BmcEmpty(0)
        && forall k: nat :: j < k < |trace| ==> trace[k].NicTaken? || trace[k].NicLogged?;
      assert longer[j] == BmcEmpty(0);
      assert forall k: nat :: j < k < |longer| ==> longer[k].NicTaken? || longer[k].NicLogged?;
    }
  }

  /** What handling a block means for the task's own record. */
  lemma HandledRecord(s: Sys, m: RxMsg, rec: SensorRecord, v: Byte, d: Byte, b: Byte)
    ensures
      var t := Handled(s, m, rec, v, d, b);
      && t.trace == s.trace + [BmcHandled]
      && (t.pc == DrainBmc || t.pc == Halted)
      && t.lastSeen == s.lastSeen && t.now == s.now && t.started == s.started
      && t.sel == s.sel && t.nic == s.nic
  {
    hide Receive, OutcomeOf, IsUpdate, Frame, Response;
  }

  lemma KeepsTrace(s: Sys, e: Event)
    requires TraceInv(s)
    ensures TraceInv(Next(s, e))
  {
    hide Handled, Clamped, DrainOrder, NicAfterEmpty, Logged, LoggedEvents, Tick, TickDiff;
    if e.TaskStep? && s.pc.HandleBmc? {
      HandledRecord(s, s.pc.m, e.rec, e.v, e.d, e.s);
    }
    var t := Next(s, e);
    if t.trace != s.trace {
      var a := t.trace[|s.trace|];
      assert t.trace == s.trace + [a];
      TraceSnoc(s.trace, a);
      DrainOrderSnoc(s.trace, a);
    }
  }

  lemma LoopOrderSnoc(trace: seq<Action>, a: Action)
    requires LoopOrder(trace) && MayFollow(Last(trace), a)
    ensures LoopOrder(trace + [a]) && Last(trace + [a]) == Some(a)
  {
    hide MayFollow;
    var longer := trace + [a];
    forall i: nat | i < |longer|
      ensures MayFollow(Last(longer[..i]), longer[i])
    {
      assert longer[..i] == trace[..i];
      assert trace[..|trace|] == trace;
    }
  }

  lemma KeepsOrder(s: Sys, e: Event)
    requires OrderInv(s)
    ensures OrderInv(Next(s, e))
  {
    hide Handled, Clamped, LoopOrder, Last, Tick, LivenessCheck;
    if e.TaskStep? && s.pc.HandleBmc? {
      HandledRecord(s, s.pc.m, e.rec, e.v, e.d, e.s);
    }
    var t := Next(s, e);
    if t.trace != s.trace {
      var a := t.trace[|s.trace|];
      assert t.trace == s.trace + [a];
      LoopOrderSnoc(s.trace, a);
    }
  }

  lemma VerdictLater(started: nat, trace: seq<Action>, a: Action, i: nat)
    requires i < |trace|
    ensures Verdict(started, trace + [a], i) <==> Verdict(started, trace, i)
  {
    hide LastHeard;
    assert (trace + [a])[i] == trace[i] && (trace + [a])[..i] == trace[..i];
  }

  /** The tick test against the true silence. */
  lemma CheckAgainstTruth(now: nat, lastSeen: nat)
    requires lastSeen <= now
    ensures
      LivenessCheck(Tick(now), Tick(lastSeen)) <==> (now - lastSeen) % TICK_MODULUS < LIVENESS_TIMEOUT
  {
    TickDiffWraps(lastSeen, now);
  }

  lemma LastHeardSnoc(started: nat, trace: seq<Action>, a: Action)
    ensures LastHeard(started, trace + [a]) == if a.BmcHeard? then a.at else LastHeard(started, trace)
  {
    assert (trace + [a])[..|trace|] == trace;
  }

  lemma KeepsTime(s: Sys, e: Event)
    requires TimeInv(s)
    ensures TimeInv(Next(s, e))
  {
    hide Handled, Clamped, Tick, LivenessCheck, LastHeard, Verdict;
    if e.TaskStep? && s.pc.HandleBmc? {
      HandledRecord(s, s.pc.m, e.rec, e.v, e.d, e.s);
    }
    var t := Next(s, e);
    if t.trace != s.trace {
      var a := t.trace[|s.trace|];
      assert t.trace == s.trace + [a];
      LastHeardSnoc(s.started, s.trace, a);
      CheckAgainstTruth(s.now, s.lastSeen);
      forall i: nat | i < |t.trace|
        ensures Verdict(s.started, t.trace, i)
      {
        if i < |s.trace| {
          VerdictLater(s.started, s.trace, a, i);
        } else {
          VerdictNow(s.started, s.trace, a);
        }
      }
    }
  }

  lemma VerdictNow(started: nat, trace: seq<Action>, a: Action)
    requires
      var heard := LastHeard(started, trace);
      a.BmcAlive? || a.BmcSilent? ==>
        a.at >= heard && (a.BmcAlive? <==> (a.at - heard) % TICK_MODULUS < LIVENESS_TIMEOUT)
    ensures Verdict(started, trace + [a], |trace|)
  {
    assert (trace + [a])[..|trace|] == trace;
  }

  ghost predicate Inv(s: Sys) {
    QueueInv(s) && RequestInv(s) && TraceInv(s) && TimeInv(s) && OrderInv(s)
  }

  lemma StartInv(now: nat)
    ensures Inv(Start(now))
  {}

  lemma StepInv(s: Sys, e: Event)
    requires Inv(s)
    ensures Inv(Next(s, e))
  {
    hide Next, QueueInv, RequestInv, TraceInv, TimeInv, OrderInv;
    KeepsQueues(s, e);
    KeepsRequests(s, e);
    KeepsTrace(s, e);
    KeepsTime(s, e);
    KeepsOrder(s, e);
  }

  /** The invariant holds in every reachable state of every run. */
  lemma {:induction false} RunInv(now: nat, events: seq<Event>)
    ensures Inv(Run(Start(now), events))
    decreases |events|
  {
    hide Inv, Next, Start;
    if events == [] {
      StartInv(now);
    } else {
      RunInv(now, events[..|events| - 1]);
      StepInv(Run(Start(now), events[..|events| - 1]), events[|events| - 1]);
    }
  }

  // ---- What holds in every run ------------------------------------------------------------------

  /** Nothing accepted into a queue is lost, repeated or reordered on its way through. */
  lemma Conservation(now: nat, events: seq<Event>)
    ensures
      var s := Run(Start(now), events);
      && s.bmc.accepted == s.bmc.done + InHand(BmcInHand(s.pc)) + s.bmc.queue
      && s.nic.accepted == s.nic.done + InHand(NicInHand(s.pc)) + s.nic.queue
      && s.flash.accepted == s.flash.done + InHand(s.flashBusy) + s.flash.queue
  {
    hide Run, Start;
    RunInv(now, events);
  }

  /**
   * Each request the received blocks contain is answered once, in order, by a block of 8 or 24 bytes that fits
   * the transmit buffer.
   */
  lemma EachRequestAnsweredOnce(now: nat, events: seq<Event>, i: nat)
    ensures
      var s := Run(Start(now), events);
      && Asked(s.exchanges) == Requests(s.bmc.done)
      && (i < |s.exchanges| ==> Answered(s.exchanges[i]) && |s.exchanges[i].block| <= SMB_MAX_BLOCK_SIZE)
  {
    hide Run, Start, Requests, Asked;
    RunInv(now, events);
  }

  /**
   * The flash commands ever queued are those of the update requests answered with success, in order, each with
   * its own offset and size.
   */
  lemma FlashCommandsFromUpdates(now: nat, events: seq<Event>)
    ensures
      var s := Run(Start(now), events);
      Posted(s.exchanges) == s.flash.done + InHand(s.flashBusy) + s.flash.queue
  {
    hide Run, Start, Posted;
    RunInv(now, events);
  }

  /** Every NIC event is taken after the BMC queue was found empty, with only NIC events handled in between. */
  lemma NicOnlyAfterBmcDrained(now: nat, events: seq<Event>)
    ensures DrainOrder(Run(Start(now), events).trace)
  {
    hide Run, Start, DrainOrder;
    RunInv(now, events);
  }

  /** The task's whole record is turns of its loop in the code's order, each ending in one liveness verdict. */
  lemma TurnsInOrder(now: nat, events: seq<Event>)
    ensures LoopOrder(Run(Start(now), events).trace)
  {
    hide Run, Start, LoopOrder;
    RunInv(now, events);
  }

  /** The event log is the handled alerts and the liveness misses in the order they occurred. */
  lemma LogIsWhatHappened(now: nat, events: seq<Event>)
    ensures
      var s := Run(Start(now), events);
      s.sel == Logged(s.trace) && s.nic.done == LoggedEvents(s.trace)
  {
    hide Run, Start, Logged, LoggedEvents;
    RunInv(now, events);
  }

  /**
   * Every liveness verdict of every run, against the true silence: life exactly when the silence modulo 2^32 ms is
   * shorter than the timeout. So a report of silence is always true, and a report of life is true exactly when the
   * silence is shorter than 2^32 ms.
   */
  lemma LivenessVerdicts(now: nat, events: seq<Event>, i: nat)
    requires
      var trace := Run(Start(now), events).trace;
      i < |trace| && (trace[i].BmcAlive? || trace[i].BmcSilent?)
    ensures
      var trace := Run(Start(now), events).trace;
      var silence := Silence(now, trace, i);
      && silence >= 0
      && (trace[i].BmcAlive? <==> silence % 0x1_0000_0000 < 5000)
      && (trace[i].BmcSilent? ==> silence >= 5000)
      && (trace[i].BmcAlive? ==> (silence < 5000 <==> silence < 0x1_0000_0000))
  {
    hide Run, Start, Silence;
    RunInv(now, events);
    StartedNever(now, events);
    assert Verdict(now, Run(Start(now), events).trace, i);
    ShortModulo(Silence(now, Run(Start(now), events).trace, i));
  }

  lemma ShortModulo(silence: int)
    ensures 0 <= silence < 0x1_0000_0000 ==> silence % 0x1_0000_0000 == silence
    ensures 0 <= silence % 0x1_0000_0000 < 0x1_0000_0000
  {}

  lemma {:induction false} StartedNever(now: nat, events: seq<Event>)
    ensures Run(Start(now), events).started == now
    decreases |events|
  {
    hide Receive, OutcomeOf, IsUpdate, Frame, Response, Tick, TickDiff, Clamped;
    if events != [] {
      StartedNever(now, events[..|events| - 1]);
    }
  }
}
