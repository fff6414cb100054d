/**
 * Whole streams of messages over a lossy link. As long as no four packets in a row are lost,
 * what the receiver delivers is exactly the messages that arrived whole.
 */
module MctpStream {
  import opened Mctp
  import opened MctpRuns
  import opened MctpFaults

  /** The packets of a list of messages, in order. */
  function Flatten(msgs: seq<seq<RxMsg>>): seq<RxMsg>
    decreases |msgs|
  {
    if msgs == [] then [] else Flatten(msgs[..|msgs| - 1]) + msgs[|msgs| - 1]
  }

  /** Where message t begins in the stream. */
  function Base(msgs: seq<seq<RxMsg>>, t: nat): nat
    requires t <= |msgs|
  {
    |Flatten(msgs[..t])|
  }

  /** Whole messages, each numbered on from the one before. */
  ghost predicate Stream(msgs: seq<seq<RxMsg>>) {
    && (forall t: nat | t < |msgs| :: Closed(msgs[t]))
    && (forall t: nat | t + 1 < |msgs| :: Continues(msgs[t], msgs[t + 1]))
  }

  ghost predicate Continues(a: seq<RxMsg>, b: seq<RxMsg>) {
    && a != [] && b != [] && |a[0]| >= 4 && |b[0]| >= 4
    && Seq(b[0]) == SeqAt(a[0], |a|)
  }

  /** The places in a stream of n packets whose packets arrive: in order, with at most three missing in a row. */
  predicate Arrives(pos: seq<nat>, n: nat) {
    && (forall q :: 0 <= q < |pos| ==> pos[q] < n)
    && (forall q :: 0 < q < |pos| ==> pos[q - 1] < pos[q] <= pos[q - 1] + 4)
  }

  function Received(stream: seq<RxMsg>, pos: seq<nat>): (ms: seq<RxMsg>)
    requires Arrives(pos, |stream|)
    ensures |ms| == |pos|
  {
    seq(|pos|, q requires 0 <= q < |pos| => stream[pos[q]])
  }

  /** The packets that arrived last are message t, all of it. */
  predicate EndsWith(msgs: seq<seq<RxMsg>>, pos: seq<nat>, t: nat) {
    && t < |msgs| && 0 < |msgs[t]| <= |pos|
    && var i := |pos| - |msgs[t]|;
       forall k: nat | i <= k < |pos| :: pos[k] == Base(msgs, t) + (k - i)
  }

  // ---- Places in the stream ------------------------------------------------------------

  lemma {:induction false} Locate(msgs: seq<seq<RxMsg>>, p: nat) returns (t: nat, q: nat)
    requires p < |Flatten(msgs)|
    ensures t < |msgs| && q < |msgs[t]| && p == Base(msgs, t) + q
    decreases |msgs|
  {
    var n := |msgs| - 1;
    if p < |Flatten(msgs[..n])| {
      t, q := Locate(msgs[..n], p);
      assert msgs[..n][..t] == msgs[..t];
    } else {
      t, q := n, p - |Flatten(msgs[..n])|;
    }
  }

  lemma {:induction false} PacketAt(msgs: seq<seq<RxMsg>>, t: nat, q: nat)
    requires t < |msgs| && q < |msgs[t]|
    ensures Base(msgs, t) + q < |Flatten(msgs)| && Flatten(msgs)[Base(msgs, t) + q] == msgs[t][q]
    decreases |msgs|
  {
    var n := |msgs| - 1;
    if t < n {
      PacketAt(msgs[..n], t, q);
      assert msgs[..n][..t] == msgs[..t];
    }
  }

  /** Sequence numbers run on through the whole stream. */
  lemma {:induction false} NumberAt(msgs: seq<seq<RxMsg>>, t: nat, q: nat)
    requires Stream(msgs) && t < |msgs| && q < |msgs[t]|
    ensures |msgs[0]| > 0 && |msgs[0][0]| >= 4 && |msgs[t][q]| >= 4
    ensures Seq(msgs[t][q]) == SeqAt(msgs[0][0], Base(msgs, t) + q)
    decreases t
  {
    hide Seq, Closed;
    assert Closed(msgs[t]) && Closed(msgs[0]);
    ClosedFacts(msgs[0]);
    FragmentAt(msgs[0], 0);
    FragmentAt(msgs[t], q);
    if t == 0 {
      assert Base(msgs, 0) == 0;
    } else {
      assert Closed(msgs[t - 1]) && Continues(msgs[t - 1], msgs[t - 1 + 1]);
      NumberAt(msgs, t - 1, 0);
      assert msgs[..t][..t - 1] == msgs[..t - 1];
      assert Base(msgs, t) == Base(msgs, t - 1) + |msgs[t - 1]|;
      SeqAdds(msgs[0][0], msgs[t - 1][0], Base(msgs, t - 1), |msgs[t - 1]|);
      SeqAdds(msgs[0][0], msgs[t][0], Base(msgs, t), q);
    }
  }

  lemma SeqAdds(first: RxMsg, second: RxMsg, n: nat, k: nat)
    requires |first| >= 4 && |second| >= 4 && Seq(second) == SeqAt(first, n)
    ensures SeqAt(second, k) == SeqAt(first, n + k)
  {
    hide Seq;
  }

  // ---- A closed run of what arrived is a message -----------------------------------------

  /** Of two packets that arrive one after the other, the second carries the next number only if none is missing. */
  lemma NoGap(first: RxMsg, a: nat, b: nat)
    requires |first| >= 4 && a < b <= a + 4 && SeqAt(first, b) == (SeqAt(first, a) + 1) % 4
    ensures b == a + 1
  {
    hide Seq;
  }

  lemma ChainCounts(run: seq<RxMsg>, k: nat)
    requires Chain(run) && 0 < k < |run|
    ensures |run[k - 1]| >= 4 && |run[k]| >= 4 && Seq(run[k]) == (Seq(run[k - 1]) + 1) % 4
  {
    hide Seq, Som, Payloads;
    assert InPlace(run[0], run[k], k) && InPlace(run[0], run[k - 1], k - 1);
  }

  /** The number of the packet at a place. */
  lemma SeqOfPlace(msgs: seq<seq<RxMsg>>, p: nat)
    requires Stream(msgs) && p < |Flatten(msgs)|
    ensures |msgs| > 0 && |msgs[0]| > 0 && |msgs[0][0]| >= 4
    ensures |Flatten(msgs)[p]| >= 4 && Seq(Flatten(msgs)[p]) == SeqAt(msgs[0][0], p)
  {
    hide Seq, SeqAt, Stream, Flatten;
    var t, q := Locate(msgs, p);
    PacketAt(msgs, t, q);
    NumberAt(msgs, t, q);
  }

  /** Consecutive numbers mean consecutive places. */
  lemma {:induction false} Consecutive(msgs: seq<seq<RxMsg>>, pos: seq<nat>, i: nat, k: nat)
    requires Stream(msgs) && Arrives(pos, |Flatten(msgs)|) && i + k < |pos|
    requires Chain(Received(Flatten(msgs), pos)[i..])
    ensures pos[i + k] == pos[i] + k
    decreases k
  {
    hide Seq, SeqAt, Stream, Flatten, Chain;
    if k > 0 {
      Consecutive(msgs, pos, i, k - 1);
      ChainCounts(Received(Flatten(msgs), pos)[i..], k);
      SeqOfPlace(msgs, pos[i + k]);
      SeqOfPlace(msgs, pos[i + k - 1]);
      NoGap(msgs[0][0], pos[i + k - 1], pos[i + k]);
    }
  }

  lemma RunIsMessage(msgs: seq<seq<RxMsg>>, pos: seq<nat>, i: nat) returns (t: nat)
    requires Stream(msgs) && Arrives(pos, |Flatten(msgs)|) && i < |pos|
    requires Closed(Received(Flatten(msgs), pos)[i..])
    ensures EndsWith(msgs, pos, t) && Received(Flatten(msgs), pos)[i..] == msgs[t]
  {
    hide Seq, Flatten, Payloads, Som, Eom, Chain, Base;
    var stream := Flatten(msgs);
    var run := Received(stream, pos)[i..];
    ClosedFacts(run);
    var q;
    t, q := Locate(msgs, pos[i]);
    var msg := msgs[t];
    assert Closed(msg);
    PacketAt(msgs, t, q);
    FragmentAt(run, 0);
    FragmentAt(msg, q);
    assert q == 0;
    forall k: nat | k < |run| && k < |msg|
      ensures run[k] == msg[k] && pos[i + k] == Base(msgs, t) + k && (k == |run| - 1 <==> k == |msg| - 1)
    {
      Consecutive(msgs, pos, i, k);
      PacketAt(msgs, t, k);
      FragmentAt(run, k);
      FragmentAt(msg, k);
    }
    var last := if |run| < |msg| then |run| - 1 else |msg| - 1;
    assert run[last] == msg[last];
    assert |run| == |msg| && run == msg;
    forall k: nat | i <= k < |pos|
      ensures pos[k] == Base(msgs, t) + (k - i)
    {
      assert run[k - i] == msg[k - i];
    }
  }

  lemma MessageIsRun(msgs: seq<seq<RxMsg>>, pos: seq<nat>, t: nat)
    requires Arrives(pos, |Flatten(msgs)|) && EndsWith(msgs, pos, t)
    ensures Received(Flatten(msgs), pos)[|pos| - |msgs[t]|..] == msgs[t]
  {
    hide Flatten, Base;
    var run := Received(Flatten(msgs), pos)[|pos| - |msgs[t]|..];
    forall q: nat | q < |run|
      ensures run[q] == msgs[t][q]
    {
      assert pos[|pos| - |msgs[t]| + q] == Base(msgs, t) + q;
      PacketAt(msgs, t, q);
    }
  }

  lemma {:induction false} NoneShort(ms: seq<RxMsg>)
    requires AllLong(ms)
    ensures Long(ms) == ms
    decreases |ms|
  {
    if ms != [] {
      NoneShort(ms[..|ms| - 1]);
    }
  }

  lemma AllReceivedLong(msgs: seq<seq<RxMsg>>, pos: seq<nat>)
    requires Stream(msgs) && Arrives(pos, |Flatten(msgs)|)
    ensures AllLong(Received(Flatten(msgs), pos))
  {
    hide Stream, Flatten, Seq, SeqAt;
    forall q: nat | q < |pos|
      ensures |Received(Flatten(msgs), pos)[q]| >= 4
    {
      SeqOfPlace(msgs, pos[q]);
    }
  }

  /**
   * Whatever is lost of a stream, as long as it is never four packets in a row: an arriving packet delivers exactly
   * if it completes a message all of whose packets arrived, and then it delivers that message. So nothing is ever
   * delivered that was not sent, and no message that arrived whole is missed.
   */
  lemma DeliveriesAreMessages(msgs: seq<seq<RxMsg>>, pos: seq<nat>)
    requires Stream(msgs) && Arrives(pos, |Flatten(msgs)|) && pos != []
    ensures
      var ms := Received(Flatten(msgs), pos);
      var n := |pos| - 1;
      var r := Step(After(INIT, ms[..n]), ms[n]).1;
      && |ms[n]| >= 4
      && (r != Incomplete <==> exists t: nat :: EndsWith(msgs, pos, t))
      && forall t: nat | EndsWith(msgs, pos, t) :: AllLong(msgs[t]) && r == Delivery(ms[n], Payloads(msgs[t]))
  {
    hide Step, After, Stream, Flatten, Payloads, Delivery, Closed, Arrives, EndsWith, Received, Long;
    var ms := Received(Flatten(msgs), pos);
    var n := |pos| - 1;
    var r := Step(After(INIT, ms[..n]), ms[n]).1;
    AllReceivedLong(msgs, pos);
    assert ms == ms[..n] + [ms[n]];
    NoneShort(ms);
    DeliveryIsClosedRun(ms[..n], ms[n]);
    if r != Incomplete {
      var i: nat :| i < |ms| && Closed(ms[i..]);
      var t := RunIsMessage(msgs, pos, i);
    }
    forall t: nat | EndsWith(msgs, pos, t)
      ensures t < |msgs| && AllLong(msgs[t]) && r == Delivery(ms[n], Payloads(msgs[t])) && r != Incomplete
    {
      MessageFits(msgs, pos, t);
      MessageIsRun(msgs, pos, t);
    }
  }

  lemma MessageFits(msgs: seq<seq<RxMsg>>, pos: seq<nat>, t: nat)
    requires Stream(msgs) && EndsWith(msgs, pos, t)
    ensures t < |msgs| && 0 < |msgs[t]| <= |pos| && Closed(msgs[t]) && AllLong(msgs[t])
  {
    hide Payloads;
  }
}
