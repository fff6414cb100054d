/**
 * The poll trigger: the timer callback sets a flag, the sensor task tests it, clears it and
 * polls, each as a separate step. Times count steps; they are recorded for the theorem only.
 */
module PollTrigger {
  import opened Common

  /**
   * Where the task is in its loop: at the test, about to clear, cleared but not yet polling, polling, at the
   * alert queue.
   */
  datatype Pc = Testing | Clearing | Gap | Polling | Alerts

  datatype State = State(flag: bool, pc: Pc, now: nat, lastFire: Option<nat>, lastPoll: Option<nat>, fires: nat, polls: nat)

  datatype Event = TimerFires | TaskSteps

  const START := State(false, Testing, 0, None, None, 0, 0)

  function Next(s: State, e: Event): State {
    var t := s.(now := s.now + 1);
    match e
    case TimerFires => t.(flag := true, lastFire := Some(s.now), fires := s.fires + 1)
    case TaskSteps =>
      match s.pc
      case Testing => t.(pc := if s.flag then Clearing else Alerts)
      case Clearing => t.(flag := false, pc := Gap)
      case Gap => t.(pc := Polling, lastPoll := Some(s.now), polls := s.polls + 1)
      case Polling => t.(pc := Alerts)
      case Alerts => t.(pc := Testing)
  }

  function Run(events: seq<Event>): State
    decreases |events|
  {
    if events == [] then START else Next(Run(events[..|events| - 1]), events[|events| - 1])
  }

  /** A poll has started since the timer last fired. */
  predicate Served(s: State) {
    s.lastFire.Some? ==> s.lastPoll.Some? && s.lastPoll.value > s.lastFire.value
  }

  ghost predicate Inv(s: State) {
    && (s.lastFire.Some? ==> s.lastFire.value < s.now)
    && (s.pc == Clearing ==> s.flag)
    && (!s.flag && s.pc != Gap ==> Served(s))
    && s.polls + (if s.flag then 1 else 0) + (if s.pc == Gap then 1 else 0) <= s.fires
  }

  lemma StepInv(s: State, e: Event)
    requires Inv(s)
    ensures Inv(Next(s, e))
  {}

  /**
   * No trigger is lost: in every interleaving, whenever the flag is down and the task is not
   * between clearing it and polling, a poll has started since the timer last fired.
   */
  lemma {:induction false} NoLostTrigger(events: seq<Event>)
    ensures Inv(Run(events))
    ensures !Run(events).flag && Run(events).pc != Gap ==> Served(Run(events))
    decreases |events|
  {
    if events != [] {
      NoLostTrigger(events[..|events| - 1]);
      StepInv(Run(events[..|events| - 1]), events[|events| - 1]);
    }
  }

  /** No poll is spurious: in every interleaving the timer has fired at least once for each poll started. */
  lemma NoSpuriousPoll(events: seq<Event>)
    ensures Run(events).polls <= Run(events).fires
  {
    hide Run;
    NoLostTrigger(events);
  }

  function RunFrom(s: State, events: seq<Event>): State
    decreases |events|
  {
    if events == [] then s else RunFrom(Next(s, events[0]), events[1..])
  }

  function TaskStepsIn(events: seq<Event>): nat
    decreases |events|
  {
    if events == [] then 0 else (if events[0].TaskSteps? then 1 else 0) + TaskStepsIn(events[1..])
  }

  /** How many steps the task takes from here to the start of a poll, the flag being up. */
  function StepsToPoll(pc: Pc): nat {
    match pc
    case Gap => 1
    case Clearing => 2
    case Testing => 3
    case Alerts => 4
    case Polling => 5
  }

  /**
   * Once the flag is up, a poll starts within five steps of the task, however many more times the timer fires in
   * between.
   */
  lemma {:induction false} PollFollows(s: State, events: seq<Event>, since: nat)
    requires s.flag || s.pc == Gap
    requires TaskStepsIn(events) >= StepsToPoll(s.pc) && since <= s.now
    ensures RunFrom(s, events).lastPoll.Some? && RunFrom(s, events).lastPoll.value >= since
    decreases |events|
  {
    var t := Next(s, events[0]);
    if s.pc == Gap && events[0].TaskSteps? {
      PollStays(t, events[1..], since);
    } else {
      PollFollows(t, events[1..], since);
    }
  }

  lemma {:induction false} PollStays(s: State, events: seq<Event>, since: nat)
    requires s.lastPoll.Some? && s.lastPoll.value >= since && since <= s.now
    ensures RunFrom(s, events).lastPoll.Some? && RunFrom(s, events).lastPoll.value >= since
    decreases |events|
  {
    if events != [] {
      PollStays(Next(s, events[0]), events[1..], since);
    }
  }
}
