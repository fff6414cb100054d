/** The services of the RTOS layer that the model needs: error codes and a 32-bit millisecond tick. */
module Rtos {
  import opened Common

  datatype Err = Ok | Timeout | Full | Empty | NoMem | Fail

  const TICK_MODULUS := 0x1_0000_0000

  /** The 32-bit tick count at true time now. */
  function Tick(now: nat): nat { now % TICK_MODULUS }

  /** Unsigned 32-bit subtraction of tick counts. */
  function TickDiff(a: nat, b: nat): nat
    requires a < TICK_MODULUS && b < TICK_MODULUS
  {
    (a - b) % TICK_MODULUS
  }

  /** The tick difference is the true elapsed time, modulo 2^32. */
  lemma TickDiffWraps(start: nat, now: nat)
    requires start <= now
    ensures TickDiff(Tick(now), Tick(start)) == (now - start) % TICK_MODULUS
  {}

  type Gap = n: nat | n > 0 witness 1

  class Clock {
    var now: nat

    /** Longest time between two looks at the clock; a task is never held off the processor longer. */
    const maxGap: Gap

    constructor (maxGap: Gap)
      ensures now == 0 && this.maxGap == maxGap
    {
      now := 0;
      this.maxGap := maxGap;
    }

    method GetTickMs() returns (t: nat)
      ensures t == Tick(now)
    {
      t := now % TICK_MODULUS;
    }

    /** A one-millisecond delay: time advances, by more if the task is preempted. */
    method DelayMs()
      modifies this
      ensures old(now) < now <= old(now) + maxGap
    {
      var gap: nat :| 1 <= gap <= maxGap;
      now := now + gap;
    }
  }

  /** A bounded queue; no caller here waits for space. */
  class Queue<T> {
    const depth: nat
    var items: seq<T>

    ghost predicate Valid()
      reads this
    {
      |items| <= depth
    }

    constructor (depth: nat)
      ensures Valid() && items == [] && this.depth == depth
    {
      this.depth := depth;
      items := [];
    }

    method Send(x: T) returns (err: Err)
      requires Valid()
      modifies this
      ensures Valid()
      ensures if old(|items|) < depth then err == Ok && items == old(items) + [x] else err == Full && items == old(items)
    {
      if |items| == depth {
        return Full;
      }
      items := items + [x];
      return Ok;
    }

    method Receive() returns (err: Err, x: Option<T>)
      requires Valid()
      modifies this
      ensures Valid()
      ensures if old(items) == [] then err == Timeout && x == None && items == []
              else err == Ok && x == Some(old(items)[0]) && items == old(items)[1..]
    {
      if items == [] {
        return Timeout, None;
      }
      x := Some(items[0]);
      items := items[1..];
      return Ok, x;
    }
  }
}
