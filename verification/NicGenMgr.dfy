/** The system event log: a circular table of 32 entries that stands for an unbounded history. */
module NicGenMgr {
  import opened Rtos

  const SEL_MAX_ENTRIES := 32

  datatype SelEntry = SelEntry(eventType: nat, eventData: nat, timestamp: nat)

  datatype NicEvent = NicEvent(eventType: nat, eventData: nat)

  /** The slot that entry i of the history goes to. */
  function Slot(i: nat): (s: nat)
    ensures s < SEL_MAX_ENTRIES
  {
    i % SEL_MAX_ENTRIES
  }

  class SelLog {
    const table: array<SelEntry>
    var head: nat
    var count: nat
    ghost var history: seq<SelEntry>

    /** Slot i modulo 32 of the table holds entry i of the history, for the entries not yet overwritten. */
    ghost predicate Valid()
      reads this, table
    {
      && table.Length == SEL_MAX_ENTRIES
      && head == Slot(|history|)
      && count == (if |history| <= SEL_MAX_ENTRIES then |history| else SEL_MAX_ENTRIES)
      && forall i: nat :: |history| - count <= i < |history| ==> table[Slot(i)] == history[i]
    }

    constructor ()
      ensures Valid() && fresh(table) && history == []
    {
      table := new SelEntry[SEL_MAX_ENTRIES](_ => SelEntry(0, 0, 0));
      head, count := 0, 0;
      history := [];
    }

    /** The table read back: count entries ending just before head. */
    function Entries(): (es: seq<SelEntry>)
      requires table.Length == SEL_MAX_ENTRIES && head < SEL_MAX_ENTRIES && count <= SEL_MAX_ENTRIES
      reads this, table
      ensures |es| == count
    {
      seq(count, i requires 0 <= i < count reads this, table
        requires table.Length == SEL_MAX_ENTRIES && head < SEL_MAX_ENTRIES && count <= SEL_MAX_ENTRIES =>
        table[Slot(head + SEL_MAX_ENTRIES - count + i)])
    }

    lemma EntryAt(i: nat)
      requires Valid() && i < count
      ensures head < SEL_MAX_ENTRIES && count <= SEL_MAX_ENTRIES && count <= |history|
      ensures Entries()[i] == history[|history| - count + i]
    {
      hide Slot;
      SameSlot(|history|, count, i);
    }

    /** Reading back gives exactly the last 32 entries of the history, or all there are, in order. */
    lemma EntriesAreRecent()
      requires Valid()
      ensures head < 32 && count <= 32
      ensures Entries() == if |history| <= 32 then history else history[|history| - 32..]
    {
      hide Slot, Entries;
      forall i: nat | i < count
        ensures Entries()[i] == history[|history| - count + i]
      {
        EntryAt(i);
      }
      assert Entries() == history[|history| - count..];
    }

    method LogSelEvent(eventType: nat, eventData: nat, clock: Clock)
      requires Valid()
      modifies this, table
      ensures Valid()
      ensures history == old(history) + [SelEntry(eventType, eventData, Tick(clock.now))]
    {
      hide Slot;
      var tick := clock.GetTickMs();
      ghost var n := |history|;
      table[head] := SelEntry(eventType, eventData, tick);
      NextSlot(n);
      head := (head + 1) % SEL_MAX_ENTRIES;
      if count < SEL_MAX_ENTRIES { count := count + 1; }
      history := history + [SelEntry(eventType, eventData, tick)];
      forall i: nat | |history| - count <= i < |history|
        ensures table[Slot(i)] == history[i]
      {
        if i < n {
          OtherSlot(n, i);
        }
      }
    }

    method HandleNicEvent(event: NicEvent, clock: Clock)
      requires Valid()
      modifies this, table
      ensures Valid()
      ensures history == old(history) + [SelEntry(event.eventType, event.eventData, Tick(clock.now))]
    {
      LogSelEvent(event.eventType, event.eventData, clock);
    }
  }

  lemma SameSlot(n: nat, count: nat, i: nat)
    requires i < count <= n && count <= SEL_MAX_ENTRIES
    ensures Slot(Slot(n) + SEL_MAX_ENTRIES - count + i) == Slot(n - count + i)
  {}

  lemma OtherSlot(n: nat, i: nat)
    requires n - SEL_MAX_ENTRIES < i < n
    ensures Slot(i) != Slot(n)
  {}

  lemma NextSlot(n: nat)
    ensures (Slot(n) + 1) % SEL_MAX_ENTRIES == Slot(n + 1)
  {}
}
