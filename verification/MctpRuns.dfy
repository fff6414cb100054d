/**
 * Reassembly over whole packet histories (section 8 of DMTF DSP0236). A history's open run
 * is described without the receiver: the packets since the last start flag, in sequence,
 * without an end flag, at most 256 payload bytes in all. The receiver's state is that run
 * and nothing else, and it delivers exactly the runs that an end flag closes.
 */
module MctpRuns {
  import opened Common
  import opened Mctp

  function After(st: Reasm, ms: seq<RxMsg>): Reasm
    decreases |ms|
  {
    if ms == [] then st else After(Step(st, ms[0]).0, ms[1..])
  }

  function Results(st: Reasm, ms: seq<RxMsg>): (rs: seq<RxResult>)
    ensures |rs| == |ms|
    decreases |ms|
  {
    if ms == [] then [] else [Step(st, ms[0]).1] + Results(Step(st, ms[0]).0, ms[1..])
  }

  // ---- What a run of packets is -------------------------------------------------

  /** The packets long enough to carry a header; the receiver ignores the others. */
  function Long(ms: seq<RxMsg>): (l: seq<RxMsg>)
    ensures forall i :: 0 <= i < |l| ==> |l[i]| >= 4
    decreases |ms|
  {
    if ms == [] then []
    else Long(ms[..|ms| - 1]) + (if |ms[|ms| - 1]| >= 4 then [ms[|ms| - 1]] else [])
  }

  function Payloads(run: seq<RxMsg>): Bytes
    requires AllLong(run)
    decreases |run|
  {
    if run == [] then [] else Payloads(run[..|run| - 1]) + Payload(run[|run| - 1])
  }

  /** The sequence number of the i-th packet of a run. */
  function SeqAt(first: RxMsg, i: nat): nat
    requires |first| >= 4
  {
    (Seq(first) + i) % 4
  }

  /** Packet p stands as the i-th of a run that starts with first. */
  predicate InPlace(first: RxMsg, p: RxMsg, i: nat) {
    && |p| >= 4 && |first| >= 4
    && (Som(p) <==> i == 0)
    && Seq(p) == SeqAt(first, i)
  }

  predicate AllLong(run: seq<RxMsg>) {
    forall i :: 0 <= i < |run| ==> |run[i]| >= 4
  }

  /** One start flag, at the front; consecutive sequence numbers modulo 4; a total that fits the buffer. */
  ghost predicate Chain(run: seq<RxMsg>) {
    && run != [] && AllLong(run)
    && (forall i: nat :: i < |run| ==> InPlace(run[0], run[i], i))
    && |Payloads(run)| <= BUFFER
  }

  /** A message still being received. */
  ghost predicate Open(run: seq<RxMsg>) {
    Chain(run) && forall i :: 0 <= i < |run| ==> !Eom(run[i])
  }

  /** A whole message: its last packet, and no other, carries the end flag. */
  ghost predicate Closed(run: seq<RxMsg>) {
    Chain(run) && forall i :: 0 <= i < |run| ==> (Eom(run[i]) <==> i == |run| - 1)
  }

  /** The receiver after an open run. */
  ghost function Gathered(run: seq<RxMsg>): Reasm
    requires Chain(run)
  {
    Reasm(Payloads(run), SeqAt(run[0], |run|), true)
  }

  // ---- Any open or closed run, from any state -------------------------------------

  lemma {:induction false} AfterConcat(st: Reasm, a: seq<RxMsg>, b: seq<RxMsg>)
    ensures After(st, a + b) == After(After(st, a), b)
    ensures Results(st, a + b) == Results(st, a) + Results(After(st, a), b)
    decreases |a|
  {
    hide Step;
    if a == [] {
      assert a + b == b;
    } else {
      assert (a + b)[0] == a[0] && (a + b)[1..] == a[1..] + b;
      AfterConcat(Step(st, a[0]).0, a[1..], b);
    }
  }

  function Nothing(n: nat): (rs: seq<RxResult>)
    ensures |rs| == n
  {
    seq(n, _ => Incomplete)
  }

  lemma PayloadsSnoc(run: seq<RxMsg>, m: RxMsg)
    requires |m| >= 4 && AllLong(run)
    ensures Payloads(run + [m]) == Payloads(run) + Payload(m)
  {
    assert (run + [m])[..|run|] == run;
  }

  /** A packet extends a run exactly when it carries no start flag, is next in sequence, and fits. */
  lemma ChainSnoc(run: seq<RxMsg>, m: RxMsg)
    requires run != [] && |m| >= 4 && AllLong(run)
    ensures Payloads(run + [m]) == Payloads(run) + Payload(m)
    ensures Chain(run + [m]) <==>
      Chain(run) && !Som(m) && Seq(m) == SeqAt(run[0], |run|) && |Payloads(run)| + |Payload(m)| <= BUFFER
  {
    hide InPlace, Payloads;
    PayloadsSnoc(run, m);
    var longer := run + [m];
    assert longer[|run|] == m && longer[0] == run[0];
    if Chain(longer) {
      forall i: nat | i < |run|
        ensures InPlace(run[0], run[i], i)
      {
        assert longer[i] == run[i];
      }
    }
    LastInPlace(run[0], m, |run|);
  }

  lemma LastInPlace(first: RxMsg, m: RxMsg, i: nat)
    requires |first| >= 4 && |m| >= 4 && i > 0
    ensures InPlace(first, m, i) <==> !Som(m) && Seq(m) == SeqAt(first, i)
  {}

  lemma ChainOne(m: RxMsg)
    requires |m| >= 4
    ensures Payloads([m]) == Payload(m)
    ensures Chain([m]) <==> Som(m)
  {
    hide Som, Eom;
    assert [m][..0] == [];
  }

  lemma MarksSnoc(run: seq<RxMsg>, m: RxMsg)
    requires |m| >= 4 && AllLong(run)
    ensures Open(run + [m]) <==> Chain(run + [m]) && !Eom(m) && (run != [] ==> Open(run))
    ensures Closed(run + [m]) <==> Chain(run + [m]) && Eom(m) && (run != [] ==> Open(run))
  {
    hide Som, Eom, Seq, Payloads;
    var longer := run + [m];
    assert forall i :: 0 <= i < |run| ==> longer[i] == run[i];
    assert longer[|run|] == m;
    if run != [] {
      ChainSnoc(run, m);
    }
  }

  /** The receiver's next state and result when it holds a run. */
  lemma StepInRun(run: seq<RxMsg>, m: RxMsg)
    requires Chain(run) && |m| >= 4 && !Som(m)
    ensures Step(Gathered(run), m) ==
      if !Chain(run + [m]) then (INIT, Incomplete)
      else if Eom(m) then (Gathered(run + [m]).(buf := [], active := false), Delivery(m, Payloads(run + [m])))
      else (Gathered(run + [m]), Incomplete)
  {
    hide Som, Eom, Seq, Payloads, Chain, Delivery;
    ChainFacts(run);
    ChainSnoc(run, m);
  }

  lemma ChainFacts(run: seq<RxMsg>)
    requires Chain(run)
    ensures run != [] && AllLong(run)
  {}

  /** A start flag opens a new run whatever went before. */
  lemma StepAtStart(st: Reasm, m: RxMsg)
    requires |m| >= 4 && Som(m)
    ensures Chain([m])
    ensures Step(st, m) ==
      if Eom(m) then (Gathered([m]).(buf := [], active := false), Delivery(m, Payloads([m])))
      else (Gathered([m]), Incomplete)
  {
    hide Som, Eom, Seq, Payloads, Chain, Delivery;
    ChainOne(m);
    assert [] + Payload(m) == Payload(m);
    assert |Payload(m)| <= BUFFER;
  }

  lemma SnocRun(st: Reasm, ms: seq<RxMsg>, m: RxMsg)
    ensures After(st, ms + [m]) == Step(After(st, ms), m).0
    ensures Results(st, ms + [m]) == Results(st, ms) + [Step(After(st, ms), m).1]
  {
    hide Step;
    AfterConcat(st, ms, [m]);
    assert [m][1..] == [];
    assert Results(After(st, ms), [m]) == [Step(After(st, ms), m).1];
  }

  /** Whatever state the receiver is in, an open run leaves it gathering exactly that run. */
  lemma {:induction false} OpenRunGathers(st: Reasm, run: seq<RxMsg>)
    requires Open(run)
    ensures After(st, run) == Gathered(run)
    ensures Results(st, run) == Nothing(|run|)
    decreases |run|
  {
    hide Som, Eom, Seq, Step, After, Results, Gathered, Chain, Open, AllLong, Payloads, Payload;
    OpenFacts(run);
    LongTail(run);
    var init, m := run[..|run| - 1], run[|run| - 1];
    assert run == init + [m];
    SnocRun(st, init, m);
    MarksSnoc(init, m);
    if init == [] {
      assert run == [m];
      ChainOne(m);
      StepAtStart(st, m);
      NothingRun(st);
    } else {
      OpenRunGathers(st, init);
      ChainSnoc(init, m);
      OpenFacts(init);
      StepInRun(init, m);
    }
  }

  lemma LongTail(run: seq<RxMsg>)
    requires run != []
    ensures AllLong(run) ==> AllLong(run[..|run| - 1]) && |run[|run| - 1]| >= 4
  {}

  lemma NothingRun(st: Reasm)
    ensures After(st, []) == st && Results(st, []) == []
  {}

  lemma OpenFacts(run: seq<RxMsg>)
    requires Open(run)
    ensures Chain(run) && run != [] && AllLong(run)
  {}

  /**
   * Whatever state the receiver is in, a closed run delivers its payload with its last packet, and nothing
   * earlier.
   */
  lemma ClosedRunDelivers(st: Reasm, run: seq<RxMsg>)
    requires Closed(run)
    ensures run != [] && |run[|run| - 1]| >= 4 && Chain(run)
    ensures Results(st, run) == Nothing(|run| - 1) + [Delivery(run[|run| - 1], Payloads(run))]
    ensures After(st, run) == Gathered(run).(buf := [], active := false)
  {
    hide Som, Eom, Seq, Step, After, Results, Gathered, Chain, Open, Closed, Delivery, AllLong, Payloads, Payload;
    ClosedFacts(run);
    LongTail(run);
    var init, m := run[..|run| - 1], run[|run| - 1];
    assert run == init + [m];
    SnocRun(st, init, m);
    MarksSnoc(init, m);
    if init == [] {
      assert run == [m];
      ChainOne(m);
      StepAtStart(st, m);
      NothingRun(st);
    } else {
      OpenRunGathers(st, init);
      ChainSnoc(init, m);
      OpenFacts(init);
      StepInRun(init, m);
    }
  }

  lemma ClosedFacts(run: seq<RxMsg>)
    requires Closed(run)
    ensures Chain(run) && run != [] && AllLong(run)
  {}

  // ---- The receiver against the history ---------------------------------------------

  lemma {:induction false} ShortIgnored(st: Reasm, ms: seq<RxMsg>)
    ensures After(st, ms) == After(st, Long(ms))
    decreases |ms|
  {
    hide After;
    if ms != [] {
      var init, m := ms[..|ms| - 1], ms[|ms| - 1];
      assert ms == init + [m];
      ShortIgnored(st, init);
      SnocRun(st, init, m);
      if |m| >= 4 {
        SnocRun(st, Long(init), m);
      } else {
        assert Long(ms) == Long(init);
      }
    }
  }

  lemma LongSnoc(h: seq<RxMsg>, m: RxMsg)
    ensures Long(h + [m]) == if |m| >= 4 then Long(h) + [m] else Long(h)
  {
    assert (h + [m])[..|h|] == h;
  }

  /** The packets the receiver is holding, if it is active: where in the history its run starts. */
  lemma {:induction false} ActiveRun(h: seq<RxMsg>) returns (i: nat)
    ensures i <= |Long(h)|
    ensures After(INIT, h).active ==> Open(Long(h)[i..]) && After(INIT, h) == Gathered(Long(h)[i..])
    decreases |h|
  {
    hide Som, Eom, Seq, Step, After, Gathered, Chain, Open, Long, Payloads, Delivery;
    i := 0;
    if h == [] {
      NothingRun(INIT);
    } else {
      var init, m := h[..|h| - 1], h[|h| - 1];
      assert h == init + [m];
      SnocRun(INIT, init, m);
      LongSnoc(init, m);
      var j := ActiveRun(init);
      i := j;
      if |m| < 4 {
        StepShort(After(INIT, init), m);
      } else if Som(m) {
        i := |Long(init)|;
        assert Long(h)[i..] == [m] == [] + [m];
        StepAtStart(After(INIT, init), m);
        MarksSnoc([], m);
        InactiveRun([m]);
      } else if After(INIT, init).active {
        var run := Long(init)[j..];
        OpenFacts(run);
        assert Long(h)[j..] == run + [m];
        StepInRun(run, m);
        MarksSnoc(run, m);
        InactiveRun(run + [m]);
      } else {
        StepInactive(After(INIT, init), m);
      }
    }
  }

  lemma InactiveRun(run: seq<RxMsg>)
    ensures Chain(run) ==> !Gathered(run).(buf := [], active := false).active
  {}

  lemma StepShort(st: Reasm, m: RxMsg)
    requires |m| < 4
    ensures Step(st, m) == (st, Incomplete)
  {}

  lemma StepInactive(st: Reasm, m: RxMsg)
    requires !st.active && |m| >= 4 && !Som(m)
    ensures Step(st, m) == (st, Incomplete)
  {}

  /** The receiver is gathering exactly when the history ends in an open run, and then it holds that run. */
  lemma StateIsOpenRun(h: seq<RxMsg>)
    ensures After(INIT, h).active <==> exists i: nat :: i < |Long(h)| && Open(Long(h)[i..])
    ensures forall i: nat | i < |Long(h)| && Open(Long(h)[i..]) :: After(INIT, h) == Gathered(Long(h)[i..])
  {
    hide Step, After, Chain, Long, Payloads;
    var l := Long(h);
    var j := ActiveRun(h);
    if After(INIT, h).active {
      OpenFacts(l[j..]);
      assert j < |l| && Open(l[j..]);
    }
    forall i: nat | i < |l| && Open(l[i..])
      ensures After(INIT, h) == Gathered(l[i..])
    {
      ShortIgnored(INIT, h);
      assert l == l[..i] + l[i..];
      AfterConcat(INIT, l[..i], l[i..]);
      OpenRunGathers(After(INIT, l[..i]), l[i..]);
    }
  }

  /** A packet delivers exactly when it closes a run of the history, and then it delivers that run's payload. */
  lemma DeliveryIsClosedRun(h: seq<RxMsg>, m: RxMsg)
    ensures
      var r := Step(After(INIT, h), m).1;
      var l := Long(h + [m]);
      && (r != Incomplete <==> |m| >= 4 && exists i: nat :: i < |l| && Closed(l[i..]))
      && forall i: nat | |m| >= 4 && i < |l| && Closed(l[i..]) :: r == Delivery(m, Payloads(l[i..]))
  {
    hide Som, Eom, Seq, Step, After, Gathered, Chain, Open, Closed, Long, Payloads;
    var st := After(INIT, h);
    var l := Long(h + [m]);
    LongSnoc(h, m);
    if |m| < 4 {
      StepShort(st, m);
    } else {
      var r := Step(st, m).1;
      if r != Incomplete {
        var i := ClosingRun(h, m);
      }
      forall i: nat | i < |l| && Closed(l[i..])
        ensures r == Delivery(m, Payloads(l[i..])) && r != Incomplete
      {
        var run := Long(h)[i..];
        assert l[i..] == run + [m];
        MarksSnoc(run, m);
        if run == [] {
          assert l[i..] == [m];
          ChainOne(m);
          StepAtStart(st, m);
        } else {
          StateIsOpenRun(h);
          OpenFacts(run);
          ChainSnoc(run, m);
          StepInRun(run, m);
        }
      }
    }
  }

  lemma ClosingRun(h: seq<RxMsg>, m: RxMsg) returns (i: nat)
    requires |m| >= 4 && Step(After(INIT, h), m).1 != Incomplete
    ensures i < |Long(h + [m])| && Closed(Long(h + [m])[i..])
  {
    hide Som, Eom, Seq, Step, After, Gathered, Chain, Open, Closed, Long, Payloads, Delivery;
    var st := After(INIT, h);
    LongSnoc(h, m);
    if Som(m) {
      i := |Long(h)|;
      assert Long(h + [m])[i..] == [m] == [] + [m];
      StepAtStart(st, m);
      MarksSnoc([], m);
    } else {
      i := ActiveRun(h);
      if st.active {
        var run := Long(h)[i..];
        OpenFacts(run);
        assert Long(h + [m])[i..] == run + [m];
        StepInRun(run, m);
        MarksSnoc(run, m);
      } else {
        StepInactive(st, m);
      }
    }
  }
}
