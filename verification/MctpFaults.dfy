/**
 * Fragmented messages: every fragmentation is delivered whole from any receiver state, and
 * what losing, repeating or swapping fragments does.
 */
module MctpFaults {
  import opened Common
  import opened Mctp
  import opened MctpRuns

  const MAX_FRAGMENT := 28

  /** What a sender may put in the header besides flags and sequence number. */
  datatype Header = Header(version: Byte, dest: Byte, src: Byte, tag: nat)

  /** The flags byte of packet i of n: start, end, sequence number, tag. */
  function Flags(i: nat, n: nat, seq0: nat, tag: nat): Byte
    requires tag < 16
  {
    (if i == 0 then 0x80 else 0) + (if i + 1 == n then 0x40 else 0) + (seq0 + i) % 4 * 0x10 + tag
  }

  function Packet(piece: Bytes, hdr: Header, i: nat, n: nat, seq0: nat): RxMsg
    requires |piece| <= MAX_FRAGMENT && hdr.tag < 16
  {
    [hdr.version, hdr.dest, hdr.src, Flags(i, n, seq0, hdr.tag)] + piece
  }

  predicate Pieces(pieces: seq<Bytes>) {
    pieces != [] && forall i :: 0 <= i < |pieces| ==> |pieces[i]| <= MAX_FRAGMENT
  }

  /** A message cut into pieces, one packet each. */
  function Fragments(pieces: seq<Bytes>, hdr: Header, seq0: nat): (ms: seq<RxMsg>)
    requires Pieces(pieces) && hdr.tag < 16
    ensures |ms| == |pieces|
  {
    seq(|pieces|, i requires 0 <= i < |pieces| => Packet(pieces[i], hdr, i, |pieces|, seq0))
  }

  function Concat(pieces: seq<Bytes>): Bytes
    decreases |pieces|
  {
    if pieces == [] then [] else Concat(pieces[..|pieces| - 1]) + pieces[|pieces| - 1]
  }

  lemma PacketFields(piece: Bytes, hdr: Header, i: nat, n: nat, seq0: nat)
    requires |piece| <= MAX_FRAGMENT && hdr.tag < 16
    ensures
      var p := Packet(piece, hdr, i, n, seq0);
      |p| >= 4 && (Som(p) <==> i == 0) && (Eom(p) <==> i + 1 == n) && Seq(p) == (seq0 + i) % 4 && Payload(p) == piece
  {
    var p := Packet(piece, hdr, i, n, seq0);
    assert p[3] == Flags(i, n, seq0, hdr.tag);
  }

  lemma {:induction false} PayloadsOfPieces(ms: seq<RxMsg>, pieces: seq<Bytes>)
    requires |ms| == |pieces| && AllLong(ms)
    requires forall i :: 0 <= i < |ms| ==> Payload(ms[i]) == pieces[i]
    ensures Payloads(ms) == Concat(pieces)
    decreases |ms|
  {
    if ms != [] {
      PayloadsOfPieces(ms[..|ms| - 1], pieces[..|pieces| - 1]);
    }
  }

  lemma FragmentInPlace(head: Bytes, piece: Bytes, hdr: Header, i: nat, n: nat, seq0: nat)
    requires |head| <= MAX_FRAGMENT && |piece| <= MAX_FRAGMENT && hdr.tag < 16
    ensures
      var p := Packet(piece, hdr, i, n, seq0);
      |p| >= 4 && InPlace(Packet(head, hdr, 0, n, seq0), p, i) && (Eom(p) <==> i == n - 1) && Payload(p) == piece
  {
    hide Packet, Som, Eom, Seq, Payload;
    PacketFields(head, hdr, 0, n, seq0);
    PacketFields(piece, hdr, i, n, seq0);
  }

  /** A closed run but for its total, which may exceed the buffer. */
  ghost predicate Numbered(run: seq<RxMsg>) {
    && run != [] && AllLong(run)
    && (forall i: nat :: i < |run| ==> InPlace(run[0], run[i], i))
    && forall i :: 0 <= i < |run| ==> (Eom(run[i]) <==> i == |run| - 1)
  }

  /** Fragmentation numbers the packets, whatever the length of the message. */
  lemma FragmentsNumbered(pieces: seq<Bytes>, hdr: Header, seq0: nat)
    requires Pieces(pieces) && hdr.tag < 16
    ensures
      var ms := Fragments(pieces, hdr, seq0);
      Numbered(ms) && Payloads(ms) == Concat(pieces)
  {
    hide Packet, Som, Eom, Seq, Payload, InPlace, Concat, Payloads;
    var ms := Fragments(pieces, hdr, seq0);
    forall i: nat | i < |ms|
      ensures InPlace(ms[0], ms[i], i) && |ms[i]| >= 4
      ensures (Eom(ms[i]) <==> i == |ms| - 1) && Payload(ms[i]) == pieces[i]
    {
      FragmentInPlace(pieces[0], pieces[i], hdr, i, |ms|, seq0);
    }
    PayloadsOfPieces(ms, pieces);
  }

  /** Fragmentation gives a closed run that carries the message. */
  lemma FragmentsClosed(pieces: seq<Bytes>, hdr: Header, seq0: nat)
    requires Pieces(pieces) && hdr.tag < 16 && |Concat(pieces)| <= BUFFER
    ensures
      var ms := Fragments(pieces, hdr, seq0);
      Closed(ms) && Payloads(ms) == Concat(pieces)
  {
    hide Fragments, Som, Eom, Seq, Payload, InPlace, Concat, Payloads;
    FragmentsNumbered(pieces, hdr, seq0);
  }

  /**
   * Every message of at most 64 bytes, however it is cut and whatever came before, is delivered with its last
   * fragment and not earlier.
   */
  lemma FragmentsDelivered(st: Reasm, pieces: seq<Bytes>, hdr: Header, seq0: nat)
    requires Pieces(pieces) && hdr.tag < 16 && |Concat(pieces)| <= 64
    ensures
      var n := |pieces|;
      Results(st, Fragments(pieces, hdr, seq0)) ==
      Nothing(n - 1) + [Complete(MctpPacket(hdr.version, hdr.dest, hdr.src, Flags(n - 1, n, seq0, hdr.tag), Concat(pieces)))]
  {
    hide Closed, Chain, Payloads, Results, Concat;
    FragmentsClosed(pieces, hdr, seq0);
    ClosedRunDelivers(st, Fragments(pieces, hdr, seq0));
  }

  /** A response frame is the one fragment of an uncut message: number 0, no tag. */
  lemma FrameIsFragment(v: Byte, d: Byte, s: Byte, payload: Bytes)
    requires |payload| <= MAX_FRAGMENT
    ensures Frame(v, d, s, payload) == Fragments([payload], Header(v, d, s, 0), 0)[0] == [v, d, s, 128 + 64] + payload
  {}

  // ---- Faults -----------------------------------------------------------------------

  predicate NoStart(ms: seq<RxMsg>) {
    forall i :: 0 <= i < |ms| ==> |ms[i]| >= 4 && !Som(ms[i])
  }

  lemma {:induction false} IdleStaysIdle(st: Reasm, ms: seq<RxMsg>)
    requires !st.active && NoStart(ms)
    ensures Results(st, ms) == Nothing(|ms|) && After(st, ms) == st
    decreases |ms|
  {
    hide Step, Som;
    if ms != [] {
      StepInactive(st, ms[0]);
      IdleStaysIdle(st, ms[1..]);
    }
  }

  /** After an open run, a packet that neither starts a message nor extends the run loses it. */
  lemma Broken(st: Reasm, head: seq<RxMsg>, rest: seq<RxMsg>)
    requires Open(head) && rest != [] && NoStart(rest) && !Chain(head + [rest[0]])
    ensures Results(st, head + rest) == Nothing(|head| + |rest|)
    ensures !After(st, head + rest).active
  {
    hide Som, Eom, Chain, Open, Results, After, Step, Payloads, Gathered, SeqAt, Seq, AllLong;
    var m := rest[0];
    OpenFacts(head);
    OpenRunGathers(st, head);
    AfterConcat(st, head, rest);
    assert rest == [m] + rest[1..];
    AfterConcat(Gathered(head), [m], rest[1..]);
    SnocRun(Gathered(head), [], m);
    NothingRun(Gathered(head));
    assert [] + [m] == [m];
    StepInRun(head, m);
    IdleStaysIdle(INIT, rest[1..]);
    assert Results(Gathered(head), [m]) == [Incomplete];
    assert Nothing(|head|) + ([Incomplete] + Nothing(|rest| - 1)) == Nothing(|head| + |rest|);
  }

  /** The first k packets of a closed run, not all of them, are an open run. */
  lemma {:induction false} ClosedPrefix(run: seq<RxMsg>, k: nat)
    requires Closed(run) && 0 < k < |run|
    ensures Open(run[..k])
    decreases |run|
  {
    hide Chain, Open, Closed, AllLong;
    ClosedFacts(run);
    var init, m := run[..|run| - 1], run[|run| - 1];
    assert run == init + [m];
    LongTail(run);
    MarksSnoc(init, m);
    OpenPrefix(init, k);
    assert init[..k] == run[..k];
  }

  lemma {:induction false} OpenPrefix(run: seq<RxMsg>, k: nat)
    requires Open(run) && 0 < k <= |run|
    ensures Open(run[..k])
    decreases |run|
  {
    hide Chain, Open, AllLong;
    OpenFacts(run);
    if k < |run| {
      var init, m := run[..|run| - 1], run[|run| - 1];
      assert run == init + [m];
      LongTail(run);
      MarksSnoc(init, m);
      OpenPrefix(init, k);
      assert init[..k] == run[..k];
    } else {
      assert run[..k] == run;
    }
  }

  /** Out of step: after the first k packets of a run, any fragment but the next one in sequence loses the message. */
  lemma OutOfStep(st: Reasm, run: seq<RxMsg>, k: nat, rest: seq<RxMsg>)
    requires Closed(run) && 0 < k < |run| && rest != [] && NoStart(rest)
    requires Seq(rest[0]) != SeqAt(run[0], k)
    ensures Results(st, run[..k] + rest) == Nothing(k + |rest|)
  {
    hide Som, Eom, Chain, Open, Results, After, Payloads, Closed, SeqAt, Seq, AllLong;
    ClosedFacts(run);
    ClosedPrefix(run, k);
    OpenFacts(run[..k]);
    ChainSnoc(run[..k], rest[0]);
    Broken(st, run[..k], rest);
  }

  /** A fragment of a closed run in its place. */
  lemma FragmentAt(run: seq<RxMsg>, i: nat)
    requires Closed(run) && i < |run|
    ensures |run[0]| >= 4 && |run[i]| >= 4 && Seq(run[i]) == SeqAt(run[0], i)
    ensures Som(run[i]) <==> i == 0
    ensures Eom(run[i]) <==> i == |run| - 1
  {
    assert InPlace(run[0], run[i], i);
  }

  lemma TailHasNoStart(run: seq<RxMsg>, i: nat)
    requires Closed(run) && 0 < i <= |run|
    ensures NoStart(run[i..])
  {
    forall j: nat | j < |run| - i
      ensures |run[i..][j]| >= 4 && !Som(run[i..][j])
    {
      FragmentAt(run, i + j);
    }
  }

  /** The run without packets i to i + k - 1. */
  function Drop(run: seq<RxMsg>, i: nat, k: nat): seq<RxMsg>
    requires i + k <= |run|
  {
    run[..i] + run[i + k..]
  }

  /**
   * Losing k middle fragments goes unnoticed exactly when k is a multiple of four: then the
   * last fragment delivers what is left, and otherwise nothing is delivered at all.
   */
  lemma LossUndetectedIff(st: Reasm, run: seq<RxMsg>, i: nat, k: nat)
    requires Closed(run) && 0 < i && 0 < k && i + k < |run|
    ensures Results(st, Drop(run, i, k)) == Nothing(|run| - k) <==> k % 4 != 0
    ensures k % 4 == 0 ==>
      AllLong(Drop(run, i, k)) &&
      Results(st, Drop(run, i, k)) == Nothing(|run| - k - 1) + [Delivery(run[|run| - 1], Payloads(Drop(run, i, k)))]
  {
    hide Results, Delivery, Closed, Payloads, Som, Eom, Seq, SeqAt, AllLong, NoStart;
    if k % 4 != 0 {
      LossDetected(st, run, i, k);
    } else {
      DropIsClosed(run, i, k);
      ClosedFacts(Drop(run, i, k));
      FragmentAt(run, |run| - 1);
      ClosedRunDelivers(st, Drop(run, i, k));
      Delivered(run[|run| - 1], Payloads(Drop(run, i, k)), |run| - k - 1);
    }
  }

  lemma LossDetected(st: Reasm, run: seq<RxMsg>, i: nat, k: nat)
    requires Closed(run) && 0 < i && i + k < |run| && k % 4 != 0
    ensures Results(st, Drop(run, i, k)) == Nothing(|run| - k)
  {
    hide Results, Closed, Som, Eom, Seq, SeqAt;
    FragmentAt(run, i + k);
    TailHasNoStart(run, i + k);
    SeqWraps(run[0], i, k);
    OutOfStep(st, run, i, run[i + k..]);
  }

  lemma Delivered(m: RxMsg, payload: Bytes, n: nat)
    requires |m| >= 4
    ensures Nothing(n) + [Delivery(m, payload)] != Nothing(n + 1)
  {
    assert (Nothing(n) + [Delivery(m, payload)])[n] != Nothing(n + 1)[n];
  }

  lemma {:induction false} PayloadsConcat(a: seq<RxMsg>, b: seq<RxMsg>)
    requires AllLong(a) && AllLong(b)
    ensures Payloads(a + b) == Payloads(a) + Payloads(b)
    decreases |b|
  {
    hide Payloads, Payload;
    if b == [] {
      assert a + b == a;
      NoPayloads();
    } else {
      var init, m := b[..|b| - 1], b[|b| - 1];
      assert b == init + [m];
      PayloadsConcat(a, init);
      PayloadsSnoc(a + init, m);
      PayloadsSnoc(init, m);
      assert a + b == (a + init) + [m];
    }
  }

  lemma NoPayloads()
    ensures Payloads([]) == []
  {}

  lemma DropPayloads(run: seq<RxMsg>, i: nat, k: nat)
    requires AllLong(run) && i + k <= |run|
    ensures AllLong(Drop(run, i, k)) && |Payloads(Drop(run, i, k))| <= |Payloads(run)|
  {
    hide Payloads;
    var a, b, c := run[..i], run[i..i + k], run[i + k..];
    assert run == a + (b + c);
    PayloadsConcat(a, b + c);
    PayloadsConcat(b, c);
    PayloadsConcat(a, c);
  }

  /** Dropping a multiple of four packets leaves the sequence numbers consecutive. */
  lemma DropIsClosed(run: seq<RxMsg>, i: nat, k: nat)
    requires Closed(run) && 0 < i && i + k < |run| && k % 4 == 0
    ensures Closed(Drop(run, i, k))
  {
    hide Som, Eom, Payloads, SeqAt, Seq;
    ClosedFacts(run);
    DropPayloads(run, i, k);
    var left := Drop(run, i, k);
    forall j: nat | j < |left|
      ensures InPlace(left[0], left[j], j) && (Eom(left[j]) <==> j == |left| - 1)
    {
      var was := if j < i then j else j + k;
      assert left[j] == run[was] && left[0] == run[0];
      FragmentAt(run, was);
      SeqWraps(run[0], j, k);
    }
  }

  lemma SeqWraps(first: RxMsg, j: nat, k: nat)
    requires |first| >= 4
    ensures SeqAt(first, j + k) == SeqAt(first, j) <==> k % 4 == 0
  {}

  /** Repeating a middle fragment always loses the message. */
  lemma DuplicateMiddleLoses(st: Reasm, run: seq<RxMsg>, i: nat)
    requires Closed(run) && 0 < i < |run| - 1
    ensures Results(st, run[..i + 1] + run[i..]) == Nothing(|run| + 1)
  {
    hide Results, Closed, Som, Eom, Seq, SeqAt;
    FragmentAt(run, i);
    TailHasNoStart(run, i);
    SeqWraps(run[0], i, 1);
    OutOfStep(st, run, i + 1, run[i..]);
  }

  /** Repeating the first fragment at once, when it is not also the last, changes nothing. */
  lemma DuplicateFirstHarmless(st: Reasm, run: seq<RxMsg>)
    requires Closed(run) && |run| > 1
    ensures run != [] && Results(st, [run[0]] + run) == [Incomplete] + Results(st, run)
    ensures After(st, [run[0]] + run) == After(st, run)
  {
    hide Results, After, Closed, Open, Chain;
    ClosedFacts(run);
    ClosedPrefix(run, 1);
    assert run[..1] == [run[0]];
    OpenFacts([run[0]]);
    OpenRunGathers(st, [run[0]]);
    AfterConcat(st, [run[0]], run);
    ClosedRunDelivers(st, run);
    ClosedRunDelivers(Gathered([run[0]]), run);
    assert Nothing(1) == [Incomplete];
  }

  /** Repeating the last fragment of a message that had more than one delivers nothing more. */
  lemma DuplicateLastDeliversNothing(st: Reasm, run: seq<RxMsg>)
    requires Closed(run) && |run| > 1
    ensures run != [] && Results(st, run + [run[|run| - 1]]) == Results(st, run) + [Incomplete]
  {
    hide Results, After, Closed, Chain, Som, Eom, Seq;
    FragmentAt(run, |run| - 1);
    ClosedRunDelivers(st, run);
    SnocRun(st, run, run[|run| - 1]);
    InactiveRun(run);
    StepInactive(After(st, run), run[|run| - 1]);
  }

  /** A message in one packet, by contrast, is delivered as often as it arrives. */
  lemma DuplicateSingleDeliversTwice(st: Reasm, m: RxMsg)
    requires Closed([m])
    ensures |m| >= 4 && Results(st, [m, m]) == [Delivery(m, Payload(m)), Delivery(m, Payload(m))]
  {
    hide Results, After, Closed, Chain, Som, Eom, Seq, Delivery;
    ClosedRunDelivers(st, [m]);
    ClosedRunDelivers(After(st, [m]), [m]);
    AfterConcat(st, [m], [m]);
    assert [m, m] == [m] + [m];
    ChainOne(m);
    assert Nothing(0) == [];
  }

  /** Two neighbouring middle fragments arriving in the wrong order lose the message. */
  lemma SwapLoses(st: Reasm, run: seq<RxMsg>, i: nat)
    requires Closed(run) && 0 < i && i + 1 < |run|
    ensures Results(st, run[..i] + ([run[i + 1], run[i]] + run[i + 2..])) == Nothing(|run|)
  {
    hide Results, Closed, Som, Eom, Seq, SeqAt;
    var rest := [run[i + 1], run[i]] + run[i + 2..];
    FragmentAt(run, i);
    FragmentAt(run, i + 1);
    TailHasNoStart(run, i + 2);
    SeqWraps(run[0], i, 1);
    OutOfStep(st, run, i, rest);
  }

  // ---- Loss across two messages -----------------------------------------------------------

  /** How many of the first packets fit the reassembly buffer, when not all of them do. */
  lemma {:induction false} FirstOverflow(run: seq<RxMsg>) returns (k: nat)
    requires AllLong(run) && |Payloads(run)| > BUFFER
    ensures 0 < k < |run| && |Payloads(run[..k])| <= BUFFER < |Payloads(run[..k + 1])|
    decreases |run|
  {
    var init := run[..|run| - 1];
    if |Payloads(init)| <= BUFFER {
      assert init != [];
      assert run[..|run| - 1 + 1] == run;
      return |run| - 1;
    }
    k := FirstOverflow(init);
    assert init[..k] == run[..k] && init[..k + 1] == run[..k + 1];
  }

  /** Packets that together exceed the buffer deliver nothing, from any receiver state. */
  lemma OverflowLoses(st: Reasm, run: seq<RxMsg>)
    requires Numbered(run) && |Payloads(run)| > BUFFER
    ensures Results(st, run) == Nothing(|run|)
  {
    hide Som, Eom, Seq, Payload, Payloads, Results, After, SeqAt;
    var k := FirstOverflow(run);
    var head, rest := run[..k], run[k..];
    assert InPlace(run[0], run[0], 0);
    assert Open(head) by {
      forall i: nat | i < k
        ensures InPlace(head[0], head[i], i) && !Eom(head[i])
      {
        assert InPlace(run[0], run[i], i);
      }
    }
    assert NoStart(rest) by {
      forall j: nat | j < |rest|
        ensures |rest[j]| >= 4 && !Som(rest[j])
      {
        assert InPlace(run[0], run[k + j], k + j);
      }
    }
    assert head + [rest[0]] == run[..k + 1];
    Broken(st, head, rest);
    assert run == head + rest;
  }

  /** What a numbered run of packets leads to, from any receiver state: delivery at the end, or nothing. */
  lemma NumberedOutcome(st: Reasm, run: seq<RxMsg>)
    requires Numbered(run)
    ensures Results(st, run) ==
      if |Payloads(run)| <= BUFFER then Nothing(|run| - 1) + [Delivery(run[|run| - 1], Payloads(run))]
      else Nothing(|run|)
  {
    hide Som, Eom, Seq, InPlace, Payloads, Results, After, Delivery;
    if |Payloads(run)| <= BUFFER {
      ClosedRunDelivers(st, run);
    } else {
      OverflowLoses(st, run);
    }
  }

  /** What is left of two messages when the last packets of the first and the first packets of the second are lost. */
  function Splice(a: seq<RxMsg>, b: seq<RxMsg>, i: nat, j: nat): seq<RxMsg>
    requires i <= |a| && j <= |b|
  {
    a[..i] + b[j..]
  }

  /**
   * Two messages of which the packets across the boundary are lost, whatever their numbers: what is left is delivered
   * as one message exactly if the number that comes next is the one that was due, and the buffer holds it all.
   * Otherwise nothing is delivered.
   */
  lemma LossAcrossMessages(st: Reasm, a: seq<RxMsg>, b: seq<RxMsg>, i: nat, j: nat)
    requires Closed(a) && Closed(b) && 0 < i < |a| && 0 < j < |b|
    ensures |a[0]| >= 4 && |b[0]| >= 4 && AllLong(Splice(a, b, i, j))
    ensures
      var left := Splice(a, b, i, j);
      Results(st, left) ==
      if SeqAt(b[0], j) == SeqAt(a[0], i) && |Payloads(left)| <= BUFFER
      then Nothing(|left| - 1) + [Delivery(b[|b| - 1], Payloads(left))]
      else Nothing(|left|)
  {
    hide Som, Eom, Seq, SeqAt, InPlace, Payloads, Results, After, Delivery, Closed, Numbered;
    var left := Splice(a, b, i, j);
    assert AllLong(left) by { ClosedFacts(a); ClosedFacts(b); }
    FragmentAt(a, 0);
    FragmentAt(b, 0);
    FragmentAt(b, j);
    if SeqAt(b[0], j) == SeqAt(a[0], i) {
      SpliceIsNumbered(a, b, i, j);
      NumberedOutcome(st, left);
    } else {
      TailHasNoStart(b, j);
      OutOfStep(st, a, i, b[j..]);
    }
  }

  lemma SpliceIsNumbered(a: seq<RxMsg>, b: seq<RxMsg>, i: nat, j: nat)
    requires Closed(a) && Closed(b) && |a[0]| >= 4 && |b[0]| >= 4
    requires 0 < i < |a| && 0 < j < |b| && SeqAt(b[0], j) == SeqAt(a[0], i)
    ensures Numbered(Splice(a, b, i, j))
  {
    hide Som, Eom, Seq, SeqAt, Payloads;
    ClosedFacts(a);
    ClosedFacts(b);
    var left := Splice(a, b, i, j);
    forall k: nat | k < |left|
      ensures InPlace(left[0], left[k], k) && (Eom(left[k]) <==> k == |left| - 1)
    {
      if k < i {
        FragmentAt(a, k);
      } else {
        FragmentAt(b, j + (k - i));
        SeqGoesOn(a[0], b[0], i, j, k - i);
      }
    }
  }

  lemma SeqGoesOn(first: RxMsg, second: RxMsg, i: nat, j: nat, n: nat)
    requires |first| >= 4 && |second| >= 4 && SeqAt(second, j) == SeqAt(first, i)
    ensures SeqAt(second, j + n) == SeqAt(first, i + n)
  {
    hide Seq;
    SameModFour(Seq(second) + j, Seq(first) + i);
    SameModFour(Seq(second) + j + n, Seq(first) + i + n);
  }

  lemma SameModFour(x: nat, y: nat)
    ensures x % 4 == y % 4 <==> (x - y) % 4 == 0
  {}

  /** When the second message's numbers continue the first's, the loss goes unnoticed exactly at multiples of four. */
  lemma LossAcrossContinuing(st: Reasm, a: seq<RxMsg>, b: seq<RxMsg>, i: nat, j: nat)
    requires Closed(a) && Closed(b) && 0 < i < |a| && 0 < j < |b| && Seq(b[0]) == SeqAt(a[0], |a|)
    ensures AllLong(Splice(a, b, i, j))
    ensures
      var left, lost := Splice(a, b, i, j), |a| - i + j;
      Results(st, left) != Nothing(|left|) <==> lost % 4 == 0 && |Payloads(left)| <= BUFFER
  {
    hide Som, Eom, Seq, SeqAt, InPlace, Payloads, Results, After, Delivery, Closed;
    FragmentAt(a, 0);
    FragmentAt(b, 0);
    LossAcrossMessages(st, a, b, i, j);
    ContinuedSeq(a[0], b[0], |a|, i, j);
    FragmentAt(b, |b| - 1);
    var left := Splice(a, b, i, j);
    Delivered(b[|b| - 1], Payloads(left), |left| - 1);
  }

  /** Where packet j of the second message stands in the first one's numbering. */
  lemma ContinuedSeq(first: RxMsg, second: RxMsg, n: nat, i: nat, j: nat)
    requires |first| >= 4 && |second| >= 4 && Seq(second) == SeqAt(first, n)
    ensures SeqAt(second, j) == SeqAt(first, i) <==> (n - i + j) % 4 == 0
  {
    hide Seq;
    assert SeqAt(second, j) == (Seq(first) + n + j) % 4;
    SameModFour(Seq(first) + n + j, Seq(first) + i);
  }

  lemma PayloadsThree(a: RxMsg, b: RxMsg, c: RxMsg)
    requires |a| >= 4 && |b| >= 4 && |c| >= 4
    ensures |Payloads([a] + [b] + [c])| == |Payload(a)| + |Payload(b)| + |Payload(c)|
  {
    hide Payloads, Payload;
    NoPayloads();
    PayloadsSnoc([], a);
    PayloadsSnoc([a], b);
    PayloadsSnoc([a] + [b], c);
    assert [] + [a] == [a];
  }

  /**
   * When both messages are numbered from the same start, another count goes unnoticed: of two messages of three
   * packets, the last of the first and the first two of the second.
   */
  lemma LossOfThreeUnnoticed(st: Reasm, a: seq<RxMsg>, b: seq<RxMsg>)
    requires Closed(a) && Closed(b) && |a| == |b| == 3 && Seq(b[0]) == Seq(a[0])
    ensures AllLong(Splice(a, b, 2, 2)) && |b[2]| >= 4
    ensures Results(st, Splice(a, b, 2, 2)) == Nothing(2) + [Delivery(b[2], Payloads(Splice(a, b, 2, 2)))]
  {
    hide Som, Eom, Seq, Payloads, Payload, Results, Delivery, Closed;
    FragmentAt(a, 0);
    FragmentAt(b, 2);
    LossAcrossMessages(st, a, b, 2, 2);
    assert |Payloads(Splice(a, b, 2, 2))| <= BUFFER by {
      assert Splice(a, b, 2, 2) == [a[0]] + [a[1]] + [b[2]];
      FragmentAt(a, 1);
      PayloadsThree(a[0], a[1], b[2]);
      PayloadIsShort(a[0]);
      PayloadIsShort(a[1]);
      PayloadIsShort(b[2]);
    }
  }

  lemma PayloadIsShort(m: RxMsg)
    requires |m| >= 4
    ensures |Payload(m)| <= MAX_FRAGMENT
  {}

  // ---- Messages longer than the packet ---------------------------------------------------

  /**
   * What becomes of a message of any length, however it is cut and from any receiver state: up to 64 bytes it is
   * delivered, from 65 to 256 its last fragment overruns the packet, beyond that it is dropped.
   */
  lemma MessageOutcome(st: Reasm, pieces: seq<Bytes>, hdr: Header, seq0: nat)
    requires Pieces(pieces) && hdr.tag < 16
    ensures
      var n, total, rs := |pieces|, |Concat(pieces)|, Results(st, Fragments(pieces, hdr, seq0));
      && rs[..n - 1] == Nothing(n - 1)
      && (rs[n - 1].Complete? <==> total <= 64)
      && (rs[n - 1].Complete? ==> rs[n - 1].packet.payload == Concat(pieces))
      && (rs[n - 1] == TooLong(total) <==> 64 < total <= 256)
      && (rs[n - 1] == Incomplete <==> total > 256)
  {
    hide Fragments, Numbered, Payloads, Results, Concat;
    FragmentsNumbered(pieces, hdr, seq0);
    NumberedOutcome(st, Fragments(pieces, hdr, seq0));
  }

  /** Three full fragments are already too many: 84 bytes for a packet of 64, from any receiver state. */
  lemma ThreeFragmentsOverrun(st: Reasm, a: Bytes, b: Bytes, c: Bytes, hdr: Header, seq0: nat)
    requires |a| == |b| == |c| == MAX_FRAGMENT && hdr.tag < 16
    ensures Results(st, Fragments([a, b, c], hdr, seq0)) == [Incomplete, Incomplete, TooLong(84)]
  {
    hide Fragments, Results, Concat;
    var pieces := [a, b, c];
    assert Concat(pieces) == a + b + c by { ConcatThree(a, b, c); }
    MessageOutcome(st, pieces, hdr, seq0);
    var rs := Results(st, Fragments(pieces, hdr, seq0));
    assert rs == rs[..2] + [rs[2]];
    assert Nothing(2) == [Incomplete, Incomplete];
  }

  lemma ConcatThree(a: Bytes, b: Bytes, c: Bytes)
    ensures Concat([a, b, c]) == a + b + c
  {
    assert [a, b, c][..2] == [a, b] && [a, b][..1] == [a] && [a][..0] == [];
    assert Concat([a]) == a;
    assert Concat([a, b]) == a + b;
  }

  /**
   * Keeping every message within 64 bytes does not prevent this: when four packets are lost across the boundary
   * of two such messages, what is left can be delivered as one message that is too long.
   */
  lemma ShortMessagesOverrun(st: Reasm, a: seq<RxMsg>, b: seq<RxMsg>)
    requires Closed(a) && Closed(b) && |a| == 3 && |b| == 4 && Seq(b[0]) == SeqAt(a[0], 3)
    requires |Payloads(a)| <= 64 && |Payloads(b)| <= 64
    requires |Payload(a[0])| == |Payload(a[1])| == |Payload(b[3])| == MAX_FRAGMENT
    ensures Results(st, Splice(a, b, 2, 3)) == [Incomplete, Incomplete, TooLong(84)]
  {
    hide Closed, Results, Som, Eom, Seq, SeqAt, Payload, AllLong;
    var left := Splice(a, b, 2, 3);
    FragmentAt(a, 0);
    FragmentAt(b, 0);
    LossAcrossMessages(st, a, b, 2, 3);
    ContinuedSeq(a[0], b[0], 3, 2, 3);
    assert |Payloads(left)| == 84 by {
      assert left == [a[0]] + [a[1]] + [b[3]];
      ClosedFacts(a);
      ClosedFacts(b);
      PayloadsThree(a[0], a[1], b[3]);
    }
    assert Nothing(2) == [Incomplete, Incomplete];
  }
}
