/**
 * From update request to flash: the queues and tasks run together with the flash device. The
 * flash task's serving of a command is a turn of its writer. The theorems say whose offsets
 * and sizes the turns have, and what the device holds after any run of the two together.
 */
module UpdatePath {
  import opened Common
  import opened Rtos
  import opened Pldm
  import opened NorFlash
  import opened NicFlashMgr
  import opened FlashStaging
  import opened FlashRuns
  import opened Dispatch
  import opened BmcSystem

  /** The system, the device as it is between commands, and the turns served so far. */
  datatype Path = Path(sys: Sys, device: Memory, turns: seq<Turn>)

  /** The flash task finishes its command with a turn; every other step is the system's own. */
  datatype PathEvent = Step(e: Event) | Serves(t: Turn)

  /** The turn is of the command the flash task has in hand, on the device as it is, with an image of that size. */
  ghost predicate Servable(p: Path, t: Turn) {
    p.sys.flashBusy == Some(t.cmd) && |t.image| == t.cmd.imageSize && t.before == p.device && TurnRight(t)
  }

  ghost function PathNext(p: Path, pe: PathEvent): Path {
    match pe
    case Step(e) => if e.FlashFinishes? then p else p.(sys := Next(p.sys, e))
    case Serves(t) => if Servable(p, t) then Path(Next(p.sys, FlashFinishes), t.after, p.turns + [t]) else p
  }

  ghost function PathRun(p: Path, events: seq<PathEvent>): Path
    decreases |events|
  {
    if events == [] then p else PathNext(PathRun(p, events[..|events| - 1]), events[|events| - 1])
  }

  function PathStart(now: nat, device: Memory): Path { Path(Start(now), device, []) }

  function Commands(turns: seq<Turn>): (cs: seq<FlashCmd>)
    ensures |cs| == |turns| && forall i :: 0 <= i < |turns| ==> cs[i] == turns[i].cmd
  {
    seq(|turns|, i requires 0 <= i < |turns| => turns[i].cmd)
  }

  /** The update requests that were answered with success. */
  function Granted(xs: seq<Exchange>): seq<PldmMsg>
    decreases |xs|
  {
    if xs == [] then []
    else
      var x := xs[|xs| - 1];
      Granted(xs[..|xs| - 1]) + (if IsUpdate(x.request) && x.outcome.cc == PLDM_CC_SUCCESS then [x.request] else [])
  }

  lemma {:induction false} PostedByGranted(xs: seq<Exchange>)
    ensures |Posted(xs)| == |Granted(xs)|
    ensures forall i :: 0 <= i < |Posted(xs)| ==> Posted(xs)[i] == UpdateCommand(Granted(xs)[i])
    decreases |xs|
  {
    hide UpdateCommand, IsUpdate;
    if xs != [] {
      PostedByGranted(xs[..|xs| - 1]);
    }
  }

  ghost predicate PathInv(start: Memory, p: Path) {
    && Chained(start, p.turns, p.device)
    && Commands(p.turns) == p.sys.flash.done
    && forall i :: 0 <= i < |p.turns| ==> |p.turns[i].image| == p.turns[i].cmd.imageSize
  }

  lemma OnlyFinishing(s: Sys, e: Event)
    ensures !e.FlashFinishes? ==> Next(s, e).flash.done == s.flash.done
  {
    hide Handled, LivenessCheck, Tick;
    if e.TaskStep? && s.pc.HandleBmc? {
      HandledFinishesNothing(s, e);
    }
  }

  lemma HandledFinishesNothing(s: Sys, e: Event)
    requires e.TaskStep? && s.pc.HandleBmc?
    ensures Handled(s, s.pc.m, e.rec, e.v, e.d, e.s).flash.done == s.flash.done
  {
    hide OutcomeOf, IsUpdate, Response;
  }

  lemma {:induction false} PathRunInv(now: nat, device: Memory, events: seq<PathEvent>)
    ensures PathInv(device, PathRun(PathStart(now, device), events))
    decreases |events|
  {
    hide TurnRight, Next, Start;
    if events == [] {
      NothingServed(now);
    } else {
      var before, pe := events[..|events| - 1], events[|events| - 1];
      PathRunInv(now, device, before);
      var p := PathRun(PathStart(now, device), before);
      match pe
      case Step(e) => OnlyFinishing(p.sys, e);
      case Serves(t) =>
        if Servable(p, t) {
          FinishServed(p.sys);
          assert (p.turns + [t])[..|p.turns|] == p.turns;
          assert Commands(p.turns + [t]) == Commands(p.turns) + [t.cmd];
        }
    }
  }

  lemma NothingServed(now: nat)
    ensures Start(now).flash.done == []
  {}

  lemma FinishServed(s: Sys)
    requires s.flashBusy.Some?
    ensures Next(s, FlashFinishes).flash.done == s.flash.done + [s.flashBusy.value]
  {}

  /** The system's part is a run of the system, so all that was proved of those holds here. */
  lemma {:induction false} PathIsRun(now: nat, device: Memory, events: seq<PathEvent>) returns (es: seq<Event>)
    ensures PathRun(PathStart(now, device), events).sys == Run(Start(now), es)
    decreases |events|
  {
    hide Next, Start, Servable;
    if events == [] {
      return [];
    }
    var pe := events[|events| - 1];
    es := PathIsRun(now, device, events[..|events| - 1]);
    var p := PathRun(PathStart(now, device), events[..|events| - 1]);
    var e := if pe.Step? then pe.e else FlashFinishes;
    if (pe.Step? && !pe.e.FlashFinishes?) || (pe.Serves? && Servable(p, pe.t)) {
      assert (es + [e])[..|es|] == es;
      es := es + [e];
    }
  }

  /**
   * In every run of the system with its device, the flash task's turns serve the successful update requests, one
   * each and in order, with their offsets and sizes; those not yet served are in its hand or its queue. What the
   * device holds is the effect of these turns on what it held at the start.
   */
  lemma TurnsServeRequests(now: nat, device: Memory, events: seq<PathEvent>)
    ensures
      var p := PathRun(PathStart(now, device), events);
      var requests := Granted(p.sys.exchanges);
      && Chained(device, p.turns, p.device)
      && |requests| == |p.turns| + |InHand(p.sys.flashBusy)| + |p.sys.flash.queue|
      && forall j: nat | j < |p.turns| ::
           p.turns[j].cmd == UpdateCommand(requests[j]) && |p.turns[j].image| == p.turns[j].cmd.imageSize
  {
    hide PathRun, PathStart, Chained, UpdateCommand, Posted, Granted, Run;
    var p := PathRun(PathStart(now, device), events);
    PathRunInv(now, device, events);
    var es := PathIsRun(now, device, events);
    FlashCommandsFromUpdates(now, es);
    PostedByGranted(p.sys.exchanges);
    assert Posted(p.sys.exchanges) == Commands(p.turns) + InHand(p.sys.flashBusy) + p.sys.flash.queue;
    forall j: nat | j < |p.turns|
      ensures p.turns[j].cmd == UpdateCommand(Granted(p.sys.exchanges)[j])
    {
      assert Posted(p.sys.exchanges)[j] == p.turns[j].cmd;
    }
  }

  lemma {:induction false} GrantedAreUpdates(xs: seq<Exchange>)
    ensures forall q :: q in Granted(xs) ==> q.pldmType == 5 && q.command == 0x10
    decreases |xs|
  {
    if xs != [] {
      GrantedAreUpdates(xs[..|xs| - 1]);
    }
  }

  /** An update without an image makes no transfer, succeeds and leaves the device as it was. */
  lemma NothingToWrite(t: Turn)
    requires TurnRight(t) && t.cmd.cmdType == UpdateStart && t.image == []
    ensures t.err == Ok && t.transfers == [] && t.after == t.before
  {}

  /**
   * The same on the bytes of the requests. With eight or more of them, the first four are the offset and the next four
   * the size of what the turn writes; with fewer the turn writes nothing, makes no transfer and succeeds.
   */
  lemma TurnsCarryRequestBytes(now: nat, device: Memory, events: seq<PathEvent>, j: nat)
    requires j < |PathRun(PathStart(now, device), events).turns|
    ensures
      var run := PathRun(PathStart(now, device), events);
      j < |Granted(run.sys.exchanges)| &&
      var q, t := Granted(run.sys.exchanges)[j], run.turns[j];
      var p := q.payload;
      && q.pldmType == 5 && q.command == 0x10 && t.cmd.cmdType == UpdateStart
      && (|p| >= 8 ==>
        && t.cmd.imageOffset == p[0] as int + 256 * p[1] as int + 65536 * p[2] as int + 16777216 * p[3] as int
        && |t.image| == p[4] as int + 256 * p[5] as int + 65536 * p[6] as int + 16777216 * p[7] as int)
      && (|p| < 8 ==> t.image == [] && t.err == Ok && t.transfers == [] && t.after == t.before)
  {
    hide PathRun, PathStart, UpdateCommand, Granted, Chained, TurnRight;
    var run := PathRun(PathStart(now, device), events);
    TurnsServeRequests(now, device, events);
    var q := Granted(run.sys.exchanges)[j];
    assert q in Granted(run.sys.exchanges);
    GrantedAreUpdates(run.sys.exchanges);
    UpdateBytes(q);
    TurnOf(device, run.turns, run.device, j);
    if |q.payload| < 8 {
      NothingToWrite(run.turns[j]);
    }
  }

  /**
   * In every such run, an update request that was granted and served with success, at a sector-aligned offset and
   * with no failure behind it, has stored an image of the size it asked for at the offset it asked for.
   */
  lemma GrantedUpdateIsStored(now: nat, device: Memory, events: seq<PathEvent>, j: nat)
    requires
      var p := PathRun(PathStart(now, device), events);
      && j < |p.turns| && Prepared(device, p.turns[..j]) && p.turns[j].err == Ok
      && p.turns[j].cmd.imageOffset % SECTOR == 0 && p.turns[j].cmd.imageSize <= SIZE
    ensures
      var p := PathRun(PathStart(now, device), events);
      var t := p.turns[j];
      && j < |Granted(p.sys.exchanges)|
      && var asked := UpdateCommand(Granted(p.sys.exchanges)[j]);
         && |t.image| == asked.imageSize && |t.after.contents| == SIZE
         && Stores(t.after.contents, asked.imageOffset, t.image)
  {
    hide PathRun, PathStart, Chained, UpdateCommand, Granted, Stores, Prepared;
    var p := PathRun(PathStart(now, device), events);
    TurnsServeRequests(now, device, events);
    AlwaysAnUpdate(Granted(p.sys.exchanges)[j]);
    PreparedUpdateStores(device, p.turns, p.device, j);
  }

  lemma AlwaysAnUpdate(msg: PldmMsg)
    ensures UpdateCommand(msg).cmdType == UpdateStart
  {}
}
