/**
 * What the runs of BmcSystem guarantee beyond its invariant, each with the exact condition
 * under which it fails: what is admitted and refused, when a message overruns its packet,
 * what is left when the drain loops end, and when a silent BMC is reported alive.
 */
module BmcRuns {
  import opened Common
  import opened Rtos
  import opened Mctp
  import opened MctpRuns
  import opened MctpFaults
  import opened Pldm
  import opened ProtocolHdlr
  import opened SensorMgr
  import opened IsrHandlers
  import opened NicGenMgr
  import opened Dispatch
  import opened BmcSystem

  function RunFrom(s: Sys, events: seq<Event>): Sys
    decreases |events|
  {
    if events == [] then s else RunFrom(Next(s, events[0]), events[1..])
  }

  /** A run may be read from either end. */
  lemma {:induction false} RunIsRunFrom(s: Sys, events: seq<Event>)
    ensures Run(s, events) == RunFrom(s, events)
    decreases |events|
  {
    hide Next;
    if |events| > 1 {
      var n := |events| - 1;
      RunIsRunFrom(s, events[..n]);
      RunIsRunFrom(Next(s, events[0]), events[1..]);
      RunIsRunFrom(Next(s, events[0]), events[1..][..n - 1]);
      assert events[..n][1..] == events[1..][..n - 1];
      assert events[1..][n - 1] == events[n];
    }
  }

  // ---- What is admitted and refused ------------------------------------------------------

  /** A send that a queue turned away in this step. */
  predicate Refuses(s: Sys, e: Event) { |Next(s, e).refused| > |s.refused| }

  /** The task is about to handle the block that completes an update request. */
  predicate AboutToUpdate(s: Sys) {
    && s.pc.HandleBmc?
    && var r := Receive(After(INIT, s.bmc.done), s.pc.m).1;
       r.Request? && IsUpdate(r.msg)
  }

  /** A message is refused exactly when it is sent to a queue that holds its full depth. */
  lemma RefusedIffFull(now: nat, events: seq<Event>, e: Event)
    ensures
      var s := Run(Start(now), events);
      Refuses(s, e) <==>
        match e
        case RxInterrupt(_) => |s.bmc.queue| == 8
        case AlertInterrupt => |s.nic.queue| == 4
        case TaskStep(_, _, _, _) => AboutToUpdate(s) && |s.flash.queue| == 2
        case _ => false
  {
    hide Run, Start, Receive, OutcomeOf, IsUpdate, Frame, Response, Tick, TickDiff, Clamped, After;
    RunInv(now, events);
    var s := Run(Start(now), events);
    Bounds(s);
    if e.TaskStep? && s.pc.HandleBmc? && Receive(s.reasm, s.pc.m).1.Request? {
      OutcomeFacts(Receive(s.reasm, s.pc.m).1.msg, e.rec, |s.flash.queue|);
    }
  }

  /** The blocks of the receive interrupts that were not refused, as the handler clamps them. */
  function Admitted(s: Sys, events: seq<Event>): seq<RxMsg>
    decreases |events|
  {
    if events == [] then []
    else
      var before, e := events[..|events| - 1], events[|events| - 1];
      Admitted(s, before) + (if e.RxInterrupt? && !Refuses(Run(s, before), e) then [Clamped(e.data)] else [])
  }

  /** One event for each alert interrupt that was not refused. */
  function Alerted(s: Sys, events: seq<Event>): seq<NicEvent>
    decreases |events|
  {
    if events == [] then []
    else
      var before, e := events[..|events| - 1], events[|events| - 1];
      Alerted(s, before) + (if e.AlertInterrupt? && !Refuses(Run(s, before), e) then [ALERT_EVENT] else [])
  }

  /** What the task gets to see is exactly what the interrupts brought and the queues had room for. */
  lemma {:induction false} AcceptedIsAdmitted(now: nat, events: seq<Event>)
    ensures
      var s := Run(Start(now), events);
      s.bmc.accepted == Admitted(Start(now), events) && s.nic.accepted == Alerted(Start(now), events)
    decreases |events|
  {
    hide Start, Next, Refuses, Clamped;
    if events == [] {
      NothingAccepted(now);
    } else {
      var before, e := events[..|events| - 1], events[|events| - 1];
      AcceptedIsAdmitted(now, before);
      StepAccepts(Run(Start(now), before), e);
    }
  }

  lemma StepAccepts(s: Sys, e: Event)
    ensures
      var t, taken := Next(s, e), !Refuses(s, e);
      && t.bmc.accepted == s.bmc.accepted + (if e.RxInterrupt? && taken then [Clamped(e.data)] else [])
      && t.nic.accepted == s.nic.accepted + (if e.AlertInterrupt? && taken then [ALERT_EVENT] else [])
  {
    hide Handled, Clamped, Tick, LivenessCheck;
    if e.TaskStep? && s.pc.HandleBmc? {
      HandledAccepts(s, s.pc.m, e.rec, e.v, e.d, e.s);
    }
  }

  lemma NothingAccepted(now: nat)
    ensures Start(now).bmc.accepted == [] && Start(now).nic.accepted == []
  {}

  lemma HandledAccepts(s: Sys, m: RxMsg, rec: SensorRecord, v: Byte, d: Byte, b: Byte)
    ensures
      var t := Handled(s, m, rec, v, d, b);
      t.bmc.accepted == s.bmc.accepted && t.nic.accepted == s.nic.accepted && t.bmc.done == s.bmc.done + [m]
  {
    hide Receive, OutcomeOf, IsUpdate, Frame, Response;
  }

  // ---- What goes out on the wire and into the log --------------------------------------------

  /**
   * An answer's bytes: a header with start and end flags, the request's three bytes, a completion code, and a record's
   * sixteen bytes after a successful reading. The code is 0, 1 or 4 as the request and the queue decide; an update is
   * granted exactly with code 0.
   */
  predicate OnTheWire(x: Exchange) {
    var q, p, b := x.request, x.request.payload, x.block;
    && |b| >= 8 && b[3] == 128 + 64 && b[4..7] == [q.instanceId, q.pldmType, q.command]
    && b[7] == x.outcome.cc && b[8..] == x.outcome.data
    && if q.pldmType == 2 && q.command == 0x11 then
         x.outcome.cmd == None && if p == [] || p[0] < 2 then b[7] == 0 && |b| == 24 else b[7] == 1 && |b| == 8
       else if q.pldmType == 5 && q.command == 0x10 then
         |b| == 8 && b[7] == if x.outcome.cmd.Some? then 0 else 1
       else x.outcome.cmd == None && b[7] == 4 && |b| == 8
  }

  /** Every answer of every run is such a block, and every command it posts is the one in its request's bytes. */
  lemma AnswersOnTheWire(now: nat, events: seq<Event>, i: nat)
    requires i < |Run(Start(now), events).exchanges|
    ensures
      var x := Run(Start(now), events).exchanges[i];
      OnTheWire(x) && (x.outcome.cmd.Some? ==> x.outcome.cmd.value == UpdateCommand(x.request))
  {
    hide Run, Start, Answered, OnTheWire, UpdateCommand;
    RunInv(now, events);
    AnswerBytes(Run(Start(now), events).exchanges[i]);
  }

  lemma AnswerBytes(x: Exchange)
    requires Answered(x)
    ensures OnTheWire(x) && (x.outcome.cmd.Some? ==> x.outcome.cmd.value == UpdateCommand(x.request))
  {
    hide UpdateCommand;
    AskedByBytes(x.request);
    var q, o := x.request, x.outcome;
    var v: Byte, d: Byte, s: Byte :| x.block == Frame(v, d, s, Response(q, o.cc, o.data));
    assert x.block == [v, d, s, 0xC0] + ([q.instanceId, q.pldmType, q.command, o.cc] + o.data);
  }

  lemma {:induction false} OnlyAlerts(s: Sys, events: seq<Event>)
    ensures forall e :: e in Alerted(s, events) ==> e == NicEvent(0, 0)
    decreases |events|
  {
    hide Refuses, Run;
    if events != [] {
      OnlyAlerts(s, events[..|events| - 1]);
    }
  }

  /** A log entry of a hardware error alert, or of a liveness miss. */
  predicate AlertOrMiss(e: SelEntry) { e.eventData == 0 && (e.eventType == 0 || e.eventType == 8) }

  lemma {:induction false} LoggedKinds(trace: seq<Action>)
    requires forall e :: e in LoggedEvents(trace) ==> e == NicEvent(0, 0)
    ensures forall e :: e in Logged(trace) ==> AlertOrMiss(e)
    decreases |trace|
  {
    if trace != [] {
      var before := trace[..|trace| - 1];
      assert forall e :: e in LoggedEvents(before) ==> e in LoggedEvents(trace);
      LoggedKinds(before);
      if trace[|trace| - 1].NicLogged? {
        assert trace[|trace| - 1].e in LoggedEvents(trace);
      }
    }
  }

  /** In every run the event log holds nothing but hardware error alerts and liveness misses. */
  lemma LogHoldsAlertsAndMisses(now: nat, events: seq<Event>, i: nat)
    requires i < |Run(Start(now), events).sel|
    ensures AlertOrMiss(Run(Start(now), events).sel[i])
  {
    hide Run, Start, Alerted, Admitted, Logged, LoggedEvents, AlertOrMiss;
    var s := Run(Start(now), events);
    LogIsWhatHappened(now, events);
    Conservation(now, events);
    AcceptedIsAdmitted(now, events);
    OnlyAlerts(Start(now), events);
    assert forall e :: e in s.nic.done ==> e in s.nic.accepted;
    LoggedKinds(s.trace);
    assert s.sel[i] in Logged(s.trace);
  }

  // ---- Messages too long for their packet ---------------------------------------------------

  /** Block i of the handled blocks completes a message of more than 64 bytes. */
  ghost predicate OverrunAt(done: seq<RxMsg>, i: nat) {
    i < |done| && Overruns(done[..i], done[i])
  }

  ghost predicate HaltInv(s: Sys) {
    s.pc == Halted <==> exists i: nat :: OverrunAt(s.bmc.done, i)
  }

  lemma OverrunSnoc(done: seq<RxMsg>, m: RxMsg)
    ensures
      (exists i: nat :: OverrunAt(done + [m], i)) <==> (exists i: nat :: OverrunAt(done, i)) || Overruns(done, m)
  {
    hide Overruns;
    var longer := done + [m];
    assert longer[..|done|] == done && longer[|done|] == m;
    forall i: nat | i <= |done|
      ensures OverrunAt(longer, i) <==> OverrunAt(done, i) || (i == |done| && Overruns(done, m))
    {
      assert i < |done| ==> longer[..i] == done[..i];
    }
    assert OverrunAt(longer, |done|) <==> Overruns(done, m);
  }

  lemma KeepsHalt(s: Sys, e: Event)
    requires HaltInv(s) && RequestInv(s)
    ensures HaltInv(Next(s, e))
  {
    hide OverrunAt, Overruns, Clamped, After, Asked, Requests, Posted, Answered, Tick, LivenessCheck, Handled;
    if e.TaskStep? && s.pc.HandleBmc? {
      OverrunSnoc(s.bmc.done, s.pc.m);
      OversizeIffOverlongRun(s.bmc.done, s.pc.m);
      HandledHalts(s, s.pc.m, e.rec, e.v, e.d, e.s);
      HandledAccepts(s, s.pc.m, e.rec, e.v, e.d, e.s);
    }
  }

  lemma HandledHalts(s: Sys, m: RxMsg, rec: SensorRecord, v: Byte, d: Byte, b: Byte)
    ensures Handled(s, m, rec, v, d, b).pc == if Receive(s.reasm, m).1 == Oversize then Halted else DrainBmc
  {
    hide Receive, OutcomeOf, IsUpdate, Frame, Response;
  }

  /**
   * In every run, the packet is overrun exactly if the blocks handled so far contain a message of more than 64
   * bytes: a closed run of packets whose payloads add up to more.
   */
  lemma {:induction false} HaltsIffOverrun(now: nat, events: seq<Event>)
    ensures
      var s := Run(Start(now), events);
      s.pc == Halted <==> exists i: nat :: OverrunAt(s.bmc.done, i)
    decreases |events|
  {
    hide Start, Next, OverrunAt;
    if events == [] {
      NotHaltedYet(now);
    } else {
      var before := events[..|events| - 1];
      HaltsIffOverrun(now, before);
      RunInv(now, before);
      KeepsHalt(Run(Start(now), before), events[|events| - 1]);
    }
  }

  lemma NotHaltedYet(now: nat)
    ensures HaltInv(Start(now))
  {}

  // ---- The drain loops end ---------------------------------------------------------------------

  /** How many more steps of the task, at most, until it waits again, if nothing more arrives. */
  function Work(s: Sys): nat {
    match s.pc
    case DrainBmc => 3 * |s.bmc.queue| + 2 * |s.nic.queue| + 3
    case TookBmc(_) => 3 * |s.bmc.queue| + 2 * |s.nic.queue| + 5
    case HandleBmc(_) => 3 * |s.bmc.queue| + 2 * |s.nic.queue| + 4
    case DrainNic => 2 * |s.nic.queue| + 2
    case HandleNic(_) => 2 * |s.nic.queue| + 3
    case Liveness => 1
    case Waiting => 0
    case Halted => 0
  }

  predicate TaskOnly(events: seq<Event>) {
    forall i :: 0 <= i < |events| ==> events[i].TaskStep?
  }

  /** The blocks that this turn of the loop will not look at any more. */
  function BmcLeft(s: Sys): seq<RxMsg> { if s.pc.DrainBmc? || s.pc.TookBmc? || s.pc.HandleBmc? then [] else s.bmc.queue }

  /** The NIC events that this turn of the loop will not look at any more. */
  function NicLeft(s: Sys): seq<NicEvent> { if s.pc.Waiting? || s.pc.Liveness? then s.nic.queue else [] }

  /**
   * From any state, once arrivals stop the task's loops end. The task comes back to waiting, or has halted; what
   * arrived behind the loop that would have drained it is left in its queue, in order, and nothing else is.
   */
  lemma DrainsEnd(s: Sys, events: seq<Event>)
    requires TaskOnly(events) && |events| >= Work(s)
    ensures
      var t := Run(s, events);
      t.pc == Halted || (t.pc == Waiting && t.bmc.queue == BmcLeft(s) && t.nic.queue == NicLeft(s))
  {
    hide Run, Work, TaskOnly, BmcLeft, NicLeft;
    RunIsRunFrom(s, events);
    DrainsFrom(s, events);
  }

  lemma {:induction false} DrainsFrom(s: Sys, events: seq<Event>)
    requires TaskOnly(events) && |events| >= Work(s)
    ensures
      var t := RunFrom(s, events);
      t.pc == Halted || (t.pc == Waiting && t.bmc.queue == BmcLeft(s) && t.nic.queue == NicLeft(s))
    decreases |events|
  {
    hide Next;
    if events != [] {
      StepDrains(s, events[0]);
      if Next(s, events[0]).pc == Halted {
        HaltedFrom(Next(s, events[0]), events[1..]);
      } else {
        DrainsFrom(Next(s, events[0]), events[1..]);
      }
    }
  }

  lemma StepDrains(s: Sys, e: Event)
    requires e.TaskStep?
    ensures
      var t := Next(s, e);
      && (s.pc == Halted ==> t.pc == Halted)
      && (t.pc == Halted || (BmcLeft(t) == BmcLeft(s) && NicLeft(t) == NicLeft(s)))
      && (t.pc != Halted ==> if s.pc == Waiting then t == s else Work(t) < Work(s))
  {
    hide Handled, LivenessCheck, Tick;
    if s.pc.HandleBmc? {
      HandledHalts(s, s.pc.m, e.rec, e.v, e.d, e.s);
      HandledLeaves(s, s.pc.m, e.rec, e.v, e.d, e.s);
    }
  }

  lemma HandledLeaves(s: Sys, m: RxMsg, rec: SensorRecord, v: Byte, d: Byte, b: Byte)
    ensures
      var t := Handled(s, m, rec, v, d, b);
      t.bmc.queue == s.bmc.queue && t.nic.queue == s.nic.queue
  {
    hide Receive, OutcomeOf, IsUpdate, Frame, Response;
  }

  /** Nothing is queued behind the place the task has come to in this turn. */
  predicate NothingBehind(s: Sys) {
    && (s.pc.DrainNic? || s.pc.HandleNic? || s.pc.Liveness? || s.pc.Waiting? ==> s.bmc.queue == [])
    && (s.pc.Liveness? || s.pc.Waiting? ==> s.nic.queue == [])
  }

  /**
   * The turn during which arrivals stop ends with both queues empty exactly if nothing had arrived behind the
   * task's place in it.
   */
  lemma TurnEmptiesIff(s: Sys, events: seq<Event>)
    requires TaskOnly(events) && |events| >= Work(s)
    ensures
      var t := Run(s, events);
      t.pc == Halted || (t.bmc.queue == [] && t.nic.queue == [] <==> NothingBehind(s))
  {
    hide Run, TaskOnly, Work;
    if s.pc == Halted {
      StaysHalted(s, events);
    } else {
      DrainsEnd(s, events);
    }
  }

  lemma StaysHalted(s: Sys, events: seq<Event>)
    requires s.pc == Halted && TaskOnly(events)
    ensures Run(s, events).pc == Halted
  {
    hide Run, BmcLeft, NicLeft;
    RunIsRunFrom(s, events);
    HaltedFrom(s, events);
  }

  lemma {:induction false} HaltedFrom(s: Sys, events: seq<Event>)
    requires s.pc == Halted && TaskOnly(events)
    ensures RunFrom(s, events).pc == Halted
    decreases |events|
  {
    if events != [] {
      HaltedFrom(Next(s, events[0]), events[1..]);
    }
  }

  /** From waiting, one wake-up is enough: without further arrivals its turn empties both queues. */
  lemma WakeDrains(s: Sys, bits: nat, events: seq<Event>)
    requires s.pc == Waiting && TaskOnly(events) && |events| >= 3 * |s.bmc.queue| + 2 * |s.nic.queue| + 3
    ensures
      var t := Run(s, [WaitReturns(bits)] + events);
      t.pc == Halted || (t.pc == Waiting && t.bmc.queue == [] && t.nic.queue == [])
  {
    hide Run, TaskOnly;
    var all := [WaitReturns(bits)] + events;
    var woken := Next(s, all[0]);
    assert all[1..] == events;
    RunIsRunFrom(s, all);
    RunIsRunFrom(woken, events);
    DrainsEnd(woken, events);
  }

  /**
   * A block that arrives just after the BMC queue was found empty stays there when the turn ends: it waits for
   * the next wake-up.
   */
  lemma LateBlockIsLeft(now: nat, bits: nat, data: Bytes)
    ensures
      var t := Run(Start(now), [WaitReturns(bits), STEP, RxInterrupt(data), STEP, STEP]);
      t.pc == Waiting && t.bmc.queue == [Clamped(data)] && t.nic.queue == []
  {
    hide Run, Clamped, Tick, LivenessCheck;
    RunFive(Start(now), WaitReturns(bits), STEP, RxInterrupt(data), STEP, STEP);
  }

  lemma RunFive(s: Sys, a: Event, b: Event, c: Event, d: Event, e: Event)
    ensures Run(s, [a, b, c, d, e]) == Next(Next(Next(Next(Next(s, a), b), c), d), e)
  {
    hide Next;
    assert [a, b, c, d, e][..4] == [a, b, c, d];
    assert [a, b, c, d][..3] == [a, b, c];
    assert [a, b, c][..2] == [a, b];
    assert [a, b][..1] == [a];
    assert [a][..0] == [];
    assert Run(s, [a]) == Next(s, a);
    assert Run(s, [a, b]) == Next(Run(s, [a]), b);
    assert Run(s, [a, b, c]) == Next(Run(s, [a, b]), c);
    assert Run(s, [a, b, c, d]) == Next(Run(s, [a, b, c]), d);
  }

  lemma {:induction false} RunConcat(s: Sys, a: seq<Event>, b: seq<Event>)
    ensures Run(s, a + b) == Run(Run(s, a), b)
    decreases |b|
  {
    hide Next;
    if b == [] {
      assert a + b == a;
    } else {
      var n := |b| - 1;
      assert (a + b)[..|a| + n] == a + b[..n];
      RunConcat(s, a, b[..n]);
    }
  }

  lemma {:induction false} KeepsAccepted(s: Sys, events: seq<Event>)
    requires forall i :: 0 <= i < |events| ==> !events[i].RxInterrupt?
    ensures Run(s, events).bmc.accepted == s.bmc.accepted
    decreases |events|
  {
    hide Next, Refuses;
    if events != [] {
      var n := |events| - 1;
      KeepsAccepted(s, events[..n]);
      StepAccepts(Run(s, events[..n]), events[n]);
    }
  }

  lemma ThreeArrive(now: nat, a: RxMsg, b: RxMsg, c: RxMsg)
    ensures
      var s := Run(Start(now), [RxInterrupt(a), RxInterrupt(b), RxInterrupt(c)]);
      s.pc == Waiting && s.bmc.queue == s.bmc.accepted == [a, b, c] && s.nic.queue == []
  {
    hide Clamped;
    var s1 := Next(Start(now), RxInterrupt(a));
    var s2 := Next(s1, RxInterrupt(b));
    ClampedBlock(a);
    ClampedBlock(b);
    ClampedBlock(c);
    var e0, e1, e2 := RxInterrupt(a), RxInterrupt(b), RxInterrupt(c);
    assert [e0][..0] == [] && [e0, e1][..1] == [e0] && [e0, e1, e2][..2] == [e0, e1];
    assert Run(Start(now), [e0]) == s1;
    assert Run(Start(now), [e0, e1]) == s2;
  }

  lemma ClampedBlock(m: RxMsg)
    ensures Clamped(m) == m
  {}

  lemma OverrunsAtLast(a: Bytes, b: Bytes, c: Bytes, hdr: Header, seq0: nat)
    requires |a| == |b| == |c| == MAX_FRAGMENT && hdr.tag < 16
    ensures OverrunAt(Fragments([a, b, c], hdr, seq0), 2)
  {
    hide Fragments, Step, Overruns, Results, After;
    var ms := Fragments([a, b, c], hdr, seq0);
    ThreeFragmentsOverrun(INIT, a, b, c, hdr, seq0);
    SnocRun(INIT, ms[..2], ms[2]);
    assert ms == ms[..2] + [ms[2]];
    assert Results(INIT, ms)[2] == Step(After(INIT, ms[..2]), ms[2]).1;
    OversizeIffOverlongRun(ms[..2], ms[2]);
    OversizeIsTooLong(After(INIT, ms[..2]), ms[2]);
  }

  lemma OversizeIsTooLong(st: Reasm, m: RxMsg)
    ensures Receive(st, m).1 == Oversize <==> Step(st, m).1.TooLong?
  {
    hide Step, Parse;
  }

  /** Such a message: three full fragments received one after the other halt the next turn. */
  lemma ThreeFragmentsHalt(now: nat, a: Bytes, b: Bytes, c: Bytes, hdr: Header, seq0: nat, bits: nat, steps: seq<Event>)
    requires |a| == |b| == |c| == MAX_FRAGMENT && hdr.tag < 16
    requires TaskOnly(steps) && |steps| >= 12
    ensures
      var ms := Fragments([a, b, c], hdr, seq0);
      var events := [RxInterrupt(ms[0]), RxInterrupt(ms[1]), RxInterrupt(ms[2])] + ([WaitReturns(bits)] + steps);
      Run(Start(now), events).pc == Halted
  {
    hide Run, Start, Fragments, OverrunAt;
    var ms := Fragments([a, b, c], hdr, seq0);
    var arrivals := [RxInterrupt(ms[0]), RxInterrupt(ms[1]), RxInterrupt(ms[2])];
    var events := arrivals + ([WaitReturns(bits)] + steps);
    var s, t := Run(Start(now), arrivals), Run(Start(now), events);
    assert s.pc == Waiting && s.bmc.queue == s.bmc.accepted == ms && s.nic.queue == [] by {
      ThreeArrive(now, ms[0], ms[1], ms[2]);
    }
    RunConcat(Start(now), arrivals, [WaitReturns(bits)] + steps);
    WakeDrains(s, bits, steps);
    KeepsAccepted(s, [WaitReturns(bits)] + steps);
    if t.pc != Halted {
      Conservation(now, events);
      assert t.bmc.done == ms;
      OverrunsAtLast(a, b, c, hdr, seq0);
      HaltsIffOverrun(now, events);
      assert false;
    }
  }

  // ---- The liveness report --------------------------------------------------------------------------

  /**
   * After a silence of any length, the task's next turn reports the BMC alive exactly if the silence modulo 2^32
   * is below the timeout. The last clause is the input: 2^32 ms of silence are reported as life.
   */
  lemma SilenceReported(now: nat, silence: nat, bits: nat)
    ensures
      var t := Run(Start(now), [TimePasses(silence), WaitReturns(bits), STEP, STEP, STEP]);
      var told := silence % TICK_MODULUS < LIVENESS_TIMEOUT;
      && t.trace == [Woken, BmcEmpty(0), NicEmpty(0)]
        + [if told then BmcAlive(now + silence) else BmcSilent(now + silence, Tick(now + silence))]
      && Silence(t.started, t.trace, 3) == silence
      && (silence == TICK_MODULUS ==> told)
  {
    hide Run, Tick;
    RunFive(Start(now), TimePasses(silence), WaitReturns(bits), STEP, STEP, STEP);
    TickDiffWraps(now, now + silence);
    NeverHeard(now, BmcEmpty(0), NicEmpty(0));
  }

  lemma NeverHeard(now: nat, a: Action, b: Action)
    requires !a.BmcHeard? && !b.BmcHeard?
    ensures LastHeard(now, [Woken, a, b]) == now
  {
    assert [Woken, a, b][..2] == [Woken, a] && [Woken, a][..1] == [Woken] && [Woken][..0] == [];
    assert LastHeard(now, [Woken]) == now;
    assert LastHeard(now, [Woken, a]) == now;
  }
}
