/**
 * From sensor to BMC: the BMC task and the sensor cache run side by side, the task being
 * reader 0 of the cache. It calls for a record while it handles a reading request, waits for
 * the mutex like any reader, and answers with what its copy holds. The theorems say what
 * every answer of every such run carries.
 */
module SensorAnswers {
  import opened Common
  import opened Pldm
  import opened ProtocolHdlr
  import opened SensorMgr
  import opened Dispatch
  import opened BmcRuns
  import opened BmcSystem
  import SC = SensorCache

  /** Both systems; what the task's read returned, until it is used; the commits when it took its block. */
  datatype Joint = Joint(sys: Sys, cache: SC.State, result: Option<SensorRecord>, arrived: nat)

  datatype JointEvent = Bmc(e: Event) | Cache(c: SC.Event)

  /** The sensor whose record the task needs before it can take its next step. */
  function Needed(s: Sys): Option<nat> {
    if !s.pc.HandleBmc? then None
    else
      match Receive(s.reasm, s.pc.m).1
      case Request(msg) => if IsReading(msg) && SensorAsked(msg) < POPULATED then Some(SensorAsked(msg)) else None
      case _ => None
  }

  /** Reader 0 calls only for the record the task needs and has not got; other readers call as they like. */
  predicate CacheEnabled(j: Joint, c: SC.Event) {
    c.Call? && c.k == 0 ==> c.want.One? && Needed(j.sys) == Some(c.want.id) && j.result == None
  }

  /** The task answers a reading request only with the record its read returned. */
  predicate BmcEnabled(j: Joint, e: Event) {
    e.TaskStep? && Needed(j.sys).Some? ==> j.result == Some(e.rec)
  }

  /** Reader 0 returns from its read in this step. */
  predicate Returns(s: SC.State, c: SC.Event) {
    c.ReaderGives? && c.k == 0 && |SC.Next(s, c).finished| > |s.finished|
  }

  function JointNext(j: Joint, je: JointEvent): Joint {
    match je
    case Cache(c) =>
      if !CacheEnabled(j, c) then j
      else
        var t := SC.Next(j.cache, c);
        var read := Returns(j.cache, c) && t.finished[|j.cache.finished|].out != [];
        j.(cache := t, result := if read then Some(t.finished[|j.cache.finished|].out[0]) else j.result)
    case Bmc(e) =>
      if !BmcEnabled(j, e) then j
      else
        j.(sys := Next(j.sys, e),
           result := if e.TaskStep? then None else j.result,
           arrived := if e.TaskStep? && j.sys.pc.DrainBmc? then |j.cache.commits| else j.arrived)
  }

  function JointRun(j: Joint, events: seq<JointEvent>): Joint
    decreases |events|
  {
    if events == [] then j else JointNext(JointRun(j, events[..|events| - 1]), events[|events| - 1])
  }

  /** The task and any number of further readers. */
  function JointStart(now: nat, others: nat): Joint {
    Joint(Start(now), SC.Start(others + 1), None, 0)
  }

  // ---- Its parts are runs of the two systems ----------------------------------------------

  /** What was proved of each system's runs holds of its part in every joint run. */
  lemma {:induction false} PartsAreRuns(now: nat, others: nat, events: seq<JointEvent>)
    returns (es: seq<Event>, cs: seq<SC.Event>)
    ensures
      var j := JointRun(JointStart(now, others), events);
      j.sys == Run(Start(now), es) && j.cache == SC.Run(SC.Start(others + 1), cs)
    decreases |events|
  {
    hide Next, SC.Next, Start, SC.Start, CacheEnabled, BmcEnabled, Returns;
    if events == [] {
      return [], [];
    }
    var e := events[|events| - 1];
    es, cs := PartsAreRuns(now, others, events[..|events| - 1]);
    var j := JointRun(JointStart(now, others), events[..|events| - 1]);
    if e.Bmc? && BmcEnabled(j, e.e) {
      assert (es + [e.e])[..|es|] == es;
      es := es + [e.e];
    }
    if e.Cache? && CacheEnabled(j, e.c) {
      assert (cs + [e.c])[..|cs|] == cs;
      cs := cs + [e.c];
    }
  }

  // ---- What every answer carries --------------------------------------------------------------

  predicate ReadingGiven(x: Exchange) {
    IsReading(x.request) && x.outcome.cc == PLDM_CC_SUCCESS
  }

  /** A record is the sensor's after some whole number of the updates so far, at least low of them. */
  ghost predicate Current(commits: seq<SC.Commit>, id: nat, rec: SensorRecord, low: nat) {
    id < POPULATED && exists n: nat :: low <= n <= |commits| && rec == SC.Replay(commits[..n])[id]
  }

  /** An answer carries the record of the sensor asked for after at least low updates. */
  ghost predicate Fresh(commits: seq<SC.Commit>, x: Exchange, low: nat) {
    exists rec: SensorRecord ::
      Current(commits, SensorAsked(x.request), rec, low) && x.outcome.data == Pack(rec)
  }

  /** The task's read, from its call to its return. */
  ghost predicate ReadInv(j: Joint) {
    && j.arrived <= |j.cache.commits|
    && 0 < |j.cache.readers|
    && (j.result.Some? ==>
      Needed(j.sys).Some?
      && Current(j.cache.commits, Needed(j.sys).value, j.result.value, j.arrived))
    && var r := j.cache.readers[0];
       || r.Outside?
       || (Needed(j.sys).Some? && j.result == None && r.want == SC.One(Needed(j.sys).value) && j.arrived <= r.since)
  }

  ghost predicate AnswerInv(j: Joint) {
    forall i: nat | i < |j.sys.exchanges| && ReadingGiven(j.sys.exchanges[i]) ::
      Fresh(j.cache.commits, j.sys.exchanges[i], 0)
  }

  ghost predicate JointInv(j: Joint) {
    SC.Inv(j.cache) && ReadInv(j) && AnswerInv(j)
  }

  lemma CurrentLater(commits: seq<SC.Commit>, later: seq<SC.Commit>, id: nat, rec: SensorRecord, low: nat)
    requires Current(commits, id, rec, low) && commits <= later
    ensures Current(later, id, rec, low)
  {
    hide SC.Replay;
    var n: nat :| low <= n <= |commits| && rec == SC.Replay(commits[..n])[id];
    assert later[..n] == commits[..n];
  }

  lemma FreshLater(commits: seq<SC.Commit>, later: seq<SC.Commit>, x: Exchange, low: nat)
    requires Fresh(commits, x, low) && commits <= later
    ensures Fresh(later, x, 0)
  {
    hide SC.Replay, Pack;
    var rec: SensorRecord :| Current(commits, SensorAsked(x.request), rec, low) && x.outcome.data == Pack(rec);
    CurrentLater(commits, later, SensorAsked(x.request), rec, low);
    assert Current(later, SensorAsked(x.request), rec, 0);
  }

  /** Reader 0 stays, returns, calls, or goes on with what it called for. */
  predicate ReaderMoves(was: SC.Reader, now: SC.Reader, c: SC.Event, commits: nat) {
    || now == was
    || now.Outside?
    || (was.Outside? && c.Call? && c.k == 0 && now == SC.Asking(c.want, commits))
    || (!was.Outside? && now.want == was.want && now.since == was.since)
  }

  /** A step of the cache: commits are only added, and reader 0 moves as its own events say. */
  lemma CacheStep(s: SC.State, c: SC.Event)
    requires 0 < |s.readers|
    ensures
      var t := SC.Next(s, c);
      s.commits <= t.commits && |t.readers| == |s.readers| && ReaderMoves(s.readers[0], t.readers[0], c, |s.commits|)
    ensures Returns(s, c) ==> SC.Next(s, c).commits == s.commits && SC.Next(s, c).readers[0].Outside?
    ensures Returns(s, c) ==> s.readers[0].Copying? && |s.readers[0].out| == SC.Span(s.readers[0].want)
    ensures Returns(s, c) ==> SC.Next(s, c).finished[|s.finished|].out == s.readers[0].out
    ensures SC.Next(s, c).readers[0].Outside? && !s.readers[0].Outside? ==> Returns(s, c)
  {
    hide SC.WriteField;
  }

  lemma CacheKeepsRead(j: Joint, c: SC.Event)
    requires SC.Inv(j.cache) && ReadInv(j) && CacheEnabled(j, c)
    ensures ReadInv(JointNext(j, Cache(c)))
  {
    hide Needed, SC.Next, SC.Locked, SC.PollerInv, SC.ReaderInv, SC.Linearized, SC.Replay, Returns, Current;
    var s, t := j.cache, SC.Next(j.cache, c);
    CacheStep(s, c);
    if Returns(s, c) {
      var r := s.readers[0];
      assert SC.ReaderInv(s, r);
      CopiedRecord(s, r);
    } else if j.result.Some? {
      CurrentLater(s.commits, t.commits, Needed(j.sys).value, j.result.value, j.arrived);
    }
  }

  /** A finished copy of one record is the record as the commits so far have left it. */
  lemma CopiedRecord(s: SC.State, r: SC.Reader)
    requires r.Copying? && SC.ReaderInv(s, r) && r.want.One? && |r.out| == SC.Span(r.want)
    ensures r.out == [SC.Replay(s.commits)[r.want.id]]
    ensures forall low: nat | low <= |s.commits| :: Current(s.commits, r.want.id, r.out[0], low)
  {
    hide SC.Replay;
    assert SC.View(SC.Replay(s.commits), r.want)[..1] == SC.View(SC.Replay(s.commits), r.want);
    assert s.commits[..|s.commits|] == s.commits;
  }

  lemma CacheKeepsAnswers(j: Joint, c: SC.Event)
    requires AnswerInv(j) && 0 < |j.cache.readers| && CacheEnabled(j, c)
    ensures AnswerInv(JointNext(j, Cache(c)))
  {
    hide SC.Next, Returns, CacheEnabled, ReadingGiven, Fresh;
    var t := JointNext(j, Cache(c));
    CacheStep(j.cache, c);
    forall i: nat | i < |t.sys.exchanges| && ReadingGiven(t.sys.exchanges[i])
      ensures Fresh(t.cache.commits, t.sys.exchanges[i], 0)
    {
      FreshLater(j.cache.commits, t.cache.commits, t.sys.exchanges[i], 0);
    }
  }

  /** A step of the BMC system: what it does to the request in hand and to the list of answers. */
  lemma BmcStep(s: Sys, e: Event)
    ensures
      var t := Next(s, e);
      && (!e.TaskStep? ==> Needed(t) == Needed(s) && t.exchanges == s.exchanges)
      && (e.TaskStep? && !s.pc.HandleBmc? ==> t.exchanges == s.exchanges)
      && (e.TaskStep? && !s.pc.HandleBmc? && !s.pc.TookBmc? ==> Needed(t) == None)
      && (e.TaskStep? && s.pc.HandleBmc? ==>
        Needed(t) == None
        && match Receive(s.reasm, s.pc.m).1
           case Request(msg) =>
             |t.exchanges| == |s.exchanges| + 1 && t.exchanges[..|s.exchanges|] == s.exchanges
             && t.exchanges[|s.exchanges|].request == msg
             && t.exchanges[|s.exchanges|].outcome == OutcomeOf(msg, e.rec, |s.flash.queue|)
           case _ => t.exchanges == s.exchanges)
  {
    hide Receive, OutcomeOf, IsReading, IsUpdate, SensorAsked, LivenessCheck, Response;
  }

  lemma BmcKeepsRead(j: Joint, e: Event)
    requires ReadInv(j) && BmcEnabled(j, e)
    ensures ReadInv(JointNext(j, Bmc(e)))
  {
    hide Needed, Next, Current;
    BmcStep(j.sys, e);
    assert !j.sys.pc.HandleBmc? ==> Needed(j.sys) == None by { NeededInHand(j.sys); }
  }

  lemma NeededInHand(s: Sys)
    ensures Needed(s).Some? ==> s.pc.HandleBmc?
  {}

  /** The answer sent in this step is no older than the moment its block was taken. */
  lemma AnswerNow(j: Joint, e: Event)
    requires ReadInv(j) && BmcEnabled(j, e)
    ensures
      var n, xs := |j.sys.exchanges|, Next(j.sys, e).exchanges;
      && n <= |xs| <= n + 1 && xs[..n] == j.sys.exchanges
      && (|xs| > n && ReadingGiven(xs[n]) ==> Fresh(j.cache.commits, xs[n], j.arrived))
  {
    hide Needed, Next, Current, ReadingGiven, Fresh, Receive, OutcomeOf;
    BmcStep(j.sys, e);
    var s, n, xs := j.sys, |j.sys.exchanges|, Next(j.sys, e).exchanges;
    if |xs| > n && ReadingGiven(xs[n]) {
      var msg := Receive(s.reasm, s.pc.m).1.msg;
      AnswerCarries(msg, e.rec, |s.flash.queue|, xs[n]);
      assert Needed(s) == Some(SensorAsked(msg)) by { NeededByReading(s, msg); }
      FreshNow(j.cache.commits, xs[n], e.rec, j.arrived);
    }
  }

  lemma BmcKeepsAnswers(j: Joint, e: Event)
    requires ReadInv(j) && AnswerInv(j) && BmcEnabled(j, e)
    ensures AnswerInv(JointNext(j, Bmc(e)))
  {
    hide Needed, Next, ReadInv, ReadingGiven, Fresh;
    AnswerNow(j, e);
    var s, t := j.sys, JointNext(j, Bmc(e));
    forall i: nat | i < |t.sys.exchanges| && ReadingGiven(t.sys.exchanges[i])
      ensures Fresh(t.cache.commits, t.sys.exchanges[i], 0)
    {
      if i < |s.exchanges| {
        assert t.sys.exchanges[i] == s.exchanges[i];
      } else {
        FreshLater(j.cache.commits, t.cache.commits, t.sys.exchanges[i], j.arrived);
      }
    }
  }

  lemma AnswerCarries(msg: PldmMsg, rec: SensorRecord, queued: nat, x: Exchange)
    requires x.request == msg && x.outcome == OutcomeOf(msg, rec, queued) && ReadingGiven(x)
    ensures IsReading(msg) && SensorAsked(msg) < POPULATED && x.outcome.data == Pack(rec)
  {
    hide Pack;
  }

  lemma NeededByReading(s: Sys, msg: PldmMsg)
    requires s.pc.HandleBmc? && Receive(s.reasm, s.pc.m).1 == Request(msg)
    requires IsReading(msg) && SensorAsked(msg) < POPULATED
    ensures Needed(s) == Some(SensorAsked(msg))
  {
    hide Receive, IsReading, SensorAsked;
  }

  lemma FreshNow(commits: seq<SC.Commit>, x: Exchange, rec: SensorRecord, low: nat)
    requires Current(commits, SensorAsked(x.request), rec, low) && x.outcome.data == Pack(rec)
    ensures Fresh(commits, x, low)
  {
    hide Current, Pack;
  }

  lemma JointStepInv(j: Joint, je: JointEvent)
    requires JointInv(j)
    ensures JointInv(JointNext(j, je))
  {
    hide SC.Inv, SC.Next, Next, ReadInv, AnswerInv, CacheEnabled, BmcEnabled, Returns;
    match je
    case Cache(c) =>
      if CacheEnabled(j, c) {
        SC.StepInv(j.cache, c);
        CacheKeepsRead(j, c);
        HasReaders(j);
        CacheKeepsAnswers(j, c);
      }
    case Bmc(e) =>
      if BmcEnabled(j, e) {
        BmcKeepsRead(j, e);
        BmcKeepsAnswers(j, e);
      }
  }

  lemma HasReaders(j: Joint)
    requires ReadInv(j)
    ensures 0 < |j.cache.readers|
  {}

  lemma JointStartInv(now: nat, others: nat)
    ensures JointInv(JointStart(now, others))
  {
    hide SC.Inv;
    SC.StartInv(others + 1);
  }

  lemma {:induction false} JointRunInv(now: nat, others: nat, events: seq<JointEvent>)
    ensures JointInv(JointRun(JointStart(now, others), events))
    decreases |events|
  {
    hide JointInv, JointNext, JointStart;
    if events == [] {
      JointStartInv(now, others);
    } else {
      JointRunInv(now, others, events[..|events| - 1]);
      JointStepInv(JointRun(JointStart(now, others), events[..|events| - 1]), events[|events| - 1]);
    }
  }

  /** The run so far ends with the task handling a block that it took off its queue in step i. */
  ghost predicate TakenIn(start: Joint, events: seq<JointEvent>, i: nat) {
    && i < |events|
    && JointRun(start, events[..i]).sys.pc == DrainBmc
    && forall k: nat | i < k <= |events| ::
         BmcInHand(JointRun(start, events[..k]).sys.pc).Some?
  }

  lemma {:induction false} ArrivedWhenTaken(now: nat, others: nat, events: seq<JointEvent>) returns (i: nat)
    requires BmcInHand(JointRun(JointStart(now, others), events).sys.pc).Some?
    ensures TakenIn(JointStart(now, others), events, i)
    ensures
      var start := JointStart(now, others);
      JointRun(start, events).arrived == |JointRun(start, events[..i]).cache.commits|
    decreases |events|
  {
    hide JointNext, JointStart;
    var start := JointStart(now, others);
    assert events[..|events|] == events;
    NothingInHand(now, others);
    var n := |events| - 1;
    var j := JointRun(start, events[..n]);
    HandStep(j, events[n]);
    if BmcInHand(j.sys.pc).Some? {
      i := ArrivedWhenTaken(now, others, events[..n]);
      assert forall k: nat | k <= n :: events[..n][..k] == events[..k];
    } else {
      i := n;
    }
  }

  lemma NothingInHand(now: nat, others: nat)
    ensures BmcInHand(JointStart(now, others).sys.pc) == None
  {}

  /** A block in hand was in hand before the step, or the step took it. */
  lemma HandStep(j: Joint, je: JointEvent)
    ensures
      var t := JointNext(j, je);
      BmcInHand(t.sys.pc).Some? ==>
        if BmcInHand(j.sys.pc).Some? then t.arrived == j.arrived
        else j.sys.pc == DrainBmc && t.arrived == |j.cache.commits|
  {
    hide Receive, OutcomeOf, IsUpdate, Needed, SC.Next, LivenessCheck, Response;
  }

  /**
   * In every joint run, a sensor answer carries the record of the sensor asked for after a whole number of the
   * poller's updates: at most those finished by now, and at least those that were finished when the task took the
   * block that completed the request, in step i.
   */
  lemma SensorAnswersFresh(now: nat, others: nat, events: seq<JointEvent>, je: JointEvent) returns (i: nat)
    ensures
      var start := JointStart(now, others);
      var j, t := JointRun(start, events), JointNext(JointRun(start, events), je);
      var n := |j.sys.exchanges|;
      && n <= |t.sys.exchanges| <= n + 1 && t.sys.exchanges[..n] == j.sys.exchanges
      && (|t.sys.exchanges| > n && ReadingGiven(t.sys.exchanges[n]) ==>
        && TakenIn(start, events, i)
        && Fresh(t.cache.commits, t.sys.exchanges[n], |JointRun(start, events[..i]).cache.commits|))
  {
    hide JointRun, JointStart, ReadInv, SC.Inv, SC.Next, Next, Fresh, ReadingGiven, BmcEnabled, CacheEnabled, TakenIn;
    i := 0;
    var j := JointRun(JointStart(now, others), events);
    JointRunInv(now, others, events);
    if je.Bmc? && BmcEnabled(j, je.e) {
      AnswerNow(j, je.e);
      if |Next(j.sys, je.e).exchanges| > |j.sys.exchanges| {
        BmcStep(j.sys, je.e);
        i := ArrivedWhenTaken(now, others, events);
      }
    }
  }

  /** The 16 bytes say what a reading of the sensor asked for should say. */
  ghost predicate TellsTruth(x: Exchange) {
    |x.outcome.data| == RECORD_SIZE &&
    var r := Unpack(x.outcome.data);
    && r.scaled == TruncDiv(r.raw, 16)
    && r.stateCode == if -640 < r.raw < 1360 then 0 else 2
  }

  lemma FreshTellsTruth(commits: seq<SC.Commit>, x: Exchange)
    requires Fresh(commits, x, 0)
    ensures TellsTruth(x)
  {
    hide Pack, Unpack, Table, ApplyCalibration, CheckThresholds, Defined, SC.Replay;
    var id := SensorAsked(x.request);
    var rec: SensorRecord :| Current(commits, id, rec, 0) && x.outcome.data == Pack(rec);
    var n: nat :| n <= |commits| && rec == SC.Replay(commits[..n])[id];
    SC.ReplayConsistent(commits[..n], id);
    PopulatedCalibration(id, rec.raw);
    CriticalIff(id, rec.raw);
    UnpackPack(rec);
  }

  // ---- The answers on their bytes ----------------------------------------------------------------

  /**
   * The sixteen bytes of an answer, against the sensor's last reading: identity, type, unit and reserved bytes zero; the
   * state 0 inside the thresholds and 2 outside; raw and scaled value in two's complement and the time, each low byte
   * first; all zero before the first reading.
   */
  predicate RecordBytes(b: Bytes, last: Option<SC.Commit>) {
    && |b| == 16 && b[0..3] == [0, 0, 0] && b[8..12] == [0, 0, 0, 0]
    && match last
       case None => b[3..8] == [0, 0, 0, 0, 0] && b[12..] == [0, 0, 0, 0]
       case Some(u) =>
         && b[3] == (if -640 < u.raw < 1360 then 0 else 2)
         && b[4] as int + 256 * b[5] as int == u.raw % 0x1_0000
         && b[6] as int + 256 * b[7] as int == TruncDiv(u.raw, 16) % 0x1_0000
         && (b[12] as int + 256 * b[13] as int + 65536 * b[14] as int + 16777216 * b[15] as int ==
             u.tick % 0x1_0000_0000)
  }

  /** The sensor's last reading after some whole number of updates, at least low of them, is in these bytes. */
  ghost predicate CarriesReading(b: Bytes, commits: seq<SC.Commit>, id: nat, low: nat) {
    exists n: nat :: low <= n <= |commits| && RecordBytes(b, SC.Latest(commits[..n], id))
  }

  lemma PackedRecord(commits: seq<SC.Commit>, id: nat)
    requires id < POPULATED
    ensures RecordBytes(Pack(SC.Replay(commits)[id]), SC.Latest(commits, id))
  {
    hide Pack, SC.Replay, SC.Latest, TruncDiv;
    var rec := SC.Replay(commits)[id];
    SC.ReplayIsLatest(commits, id);
    PackBytes(rec);
    var b := Pack(rec);
    if SC.Latest(commits, id).Some? {
      ScaledFits(SC.Latest(commits, id).value.raw);
    }
    assert b[0..3] == [b[0], b[1], b[2]] && b[8..12] == [b[8]] + b[9..12];
    assert b[3..8] == [b[3], b[4], b[5], b[6], b[7]] && b[12..] == [b[12], b[13], b[14], b[15]];
  }

  lemma ScaledFits(raw: Int16)
    ensures -0x8000 <= TruncDiv(raw, 16) < 0x8000
  {}

  lemma FreshBytes(commits: seq<SC.Commit>, x: Exchange, low: nat)
    requires Fresh(commits, x, low)
    ensures CarriesReading(x.outcome.data, commits, SensorAsked(x.request), low)
  {
    hide Pack, SC.Replay, RecordBytes, SC.Latest;
    var id := SensorAsked(x.request);
    var rec: SensorRecord :| Current(commits, id, rec, low) && x.outcome.data == Pack(rec);
    var n: nat :| low <= n <= |commits| && rec == SC.Replay(commits[..n])[id];
    PackedRecord(commits[..n], id);
  }

  /**
   * In every joint run, the answer to a reading request with first payload byte 0 or 1, or with none, which means 0,
   * is given with code 0 and carries that sensor's last reading as of a moment after its block was taken in step i;
   * with any other byte it is refused with code 1 and no data.
   */
  lemma SensorAnswerBytes(now: nat, others: nat, events: seq<JointEvent>, je: JointEvent) returns (i: nat)
    ensures
      var start := JointStart(now, others);
      var j, t := JointRun(start, events), JointNext(JointRun(start, events), je);
      var n := |j.sys.exchanges|;
      |t.sys.exchanges| > n ==>
        var x := t.sys.exchanges[n];
        var id: nat := if x.request.payload == [] then 0 else x.request.payload[0];
        (x.request.pldmType == 2 && x.request.command == 0x11 ==>
          if id >= 2 then x.outcome.cc == 1 && x.outcome.data == []
          else
            && x.outcome.cc == 0 && TakenIn(start, events, i)
            && CarriesReading(x.outcome.data, t.cache.commits, id, |JointRun(start, events[..i]).cache.commits|))
  {
    hide JointRun, JointStart, JointNext, Fresh, CarriesReading;
    var start := JointStart(now, others);
    var j, t := JointRun(start, events), JointNext(JointRun(start, events), je);
    i := SensorAnswersFresh(now, others, events, je);
    var n := |j.sys.exchanges|;
    if |t.sys.exchanges| > n {
      var x := t.sys.exchanges[n];
      AskedByBytes(x.request);
      JointRunSnoc(start, events, je);
      AnswerCode(now, others, events + [je], n);
      if ReadingGiven(x) {
        FreshBytes(t.cache.commits, x, |JointRun(start, events[..i]).cache.commits|);
      }
    }
  }

  lemma JointRunSnoc(j: Joint, events: seq<JointEvent>, je: JointEvent)
    ensures JointRun(j, events + [je]) == JointNext(JointRun(j, events), je)
  {
    hide JointNext;
    assert (events + [je])[..|events|] == events;
  }

  /** The completion code of an exchange of a joint run, by its request's bytes. */
  lemma AnswerCode(now: nat, others: nat, events: seq<JointEvent>, n: nat)
    requires n < |JointRun(JointStart(now, others), events).sys.exchanges|
    ensures
      var x := JointRun(JointStart(now, others), events).sys.exchanges[n];
      x.request.pldmType == 2 && x.request.command == 0x11 ==>
        if x.request.payload == [] || x.request.payload[0] < 2 then x.outcome.cc == 0
        else x.outcome.cc == 1 && x.outcome.data == []
  {
    hide JointRun, JointStart, Run;
    var es, cs := PartsAreRuns(now, others, events);
    AnswersOnTheWire(now, es, n);
    var x := Run(Start(now), es).exchanges[n];
    assert |x.block| == 8 ==> x.outcome.data == x.block[8..] == [];
  }

  /** In every joint run, every sensor answer tells the BMC the truth about the raw value it carries. */
  lemma SensorAnswersTruthful(now: nat, others: nat, events: seq<JointEvent>, i: nat)
    ensures
      var s := JointRun(JointStart(now, others), events).sys;
      i < |s.exchanges| && ReadingGiven(s.exchanges[i]) ==> TellsTruth(s.exchanges[i])
  {
    hide JointRun, JointStart, ReadInv, SC.Inv, Fresh, TellsTruth, ReadingGiven;
    var j := JointRun(JointStart(now, others), events);
    JointRunInv(now, others, events);
    if i < |j.sys.exchanges| && ReadingGiven(j.sys.exchanges[i]) {
      FreshTellsTruth(j.cache.commits, j.sys.exchanges[i]);
    }
  }

  /**
   * The answer does come: whenever the mutex is free, four steps of the task's read and one of the task answer a
   * pending reading request with the record as the cache now holds it.
   */
  lemma ReadingIsAnswered(j: Joint, v: Byte, d: Byte, b: Byte)
    requires JointInv(j) && Needed(j.sys).Some? && j.result == None
    requires j.cache.owner == SC.Nobody && j.cache.readers[0].Outside?
    ensures
      var id := Needed(j.sys).value;
      var rec := SC.Replay(j.cache.commits)[id];
      var t := JointRun(j, [Cache(SC.Call(0, SC.One(id))), Cache(SC.ReaderTakes(0)), Cache(SC.ReaderCopies(0)),
        Cache(SC.ReaderGives(0)), Bmc(TaskStep(rec, v, d, b))]);
      && |t.sys.exchanges| == |j.sys.exchanges| + 1
      && var x := t.sys.exchanges[|j.sys.exchanges|];
         ReadingGiven(x) && x.outcome.data == Pack(rec)
  {
    hide JointRun, JointNext, JointInv, Next, Needed, SC.Replay, Pack;
    var id := Needed(j.sys).value;
    CacheHolds(j);
    var rec := SC.Replay(j.cache.commits)[id];
    var called, taken := Cache(SC.Call(0, SC.One(id))), Cache(SC.ReaderTakes(0));
    var copied, given := Cache(SC.ReaderCopies(0)), Cache(SC.ReaderGives(0));
    var answered := Bmc(TaskStep(rec, v, d, b));
    JointRunFive(j, called, taken, copied, given, answered);
    var j4 := JointNext(JointNext(JointNext(JointNext(j, called), taken), copied), given);
    ReadReturns(j, id, rec);
    BmcStep(j.sys, TaskStep(rec, v, d, b));
    NeededAnswered(j.sys, rec);
    AnswerStep(j4, rec, v, d, b);
  }

  /** The same on bytes: the answer carries the last reading of the sensor in the request's first payload byte. */
  lemma ReadingIsAnsweredBytes(j: Joint, msg: PldmMsg, v: Byte, d: Byte, b: Byte)
    requires JointInv(j) && j.sys.pc.HandleBmc? && Receive(j.sys.reasm, j.sys.pc.m).1 == Request(msg)
    requires msg.pldmType == 2 && msg.command == 0x11 && (msg.payload == [] || msg.payload[0] < 2)
    requires j.result == None && j.cache.owner == SC.Nobody && 0 < |j.cache.readers| && j.cache.readers[0].Outside?
    ensures
      var id: nat := if msg.payload == [] then 0 else msg.payload[0];
      var rec := SC.Replay(j.cache.commits)[id];
      var t := JointRun(j, [Cache(SC.Call(0, SC.One(id))), Cache(SC.ReaderTakes(0)), Cache(SC.ReaderCopies(0)),
        Cache(SC.ReaderGives(0)), Bmc(TaskStep(rec, v, d, b))]);
      && |t.sys.exchanges| == |j.sys.exchanges| + 1
      && t.sys.exchanges[|j.sys.exchanges|].outcome.cc == 0
      && RecordBytes(t.sys.exchanges[|j.sys.exchanges|].outcome.data, SC.Latest(j.cache.commits, id))
  {
    hide JointRun, JointNext, JointInv, Receive, SC.Replay, SC.Latest, Pack, RecordBytes;
    AskedByBytes(msg);
    NeededByReading(j.sys, msg);
    ReadingIsAnswered(j, v, d, b);
    PackedRecord(j.cache.commits, SensorAsked(msg));
  }

  lemma AnswerStep(j: Joint, rec: SensorRecord, v: Byte, d: Byte, b: Byte)
    requires j.result == Some(rec)
    ensures JointNext(j, Bmc(TaskStep(rec, v, d, b))).sys == Next(j.sys, TaskStep(rec, v, d, b))
  {
    hide Next, Needed;
  }

  /** The task's read, undisturbed: call, lock, copy, unlock. */
  lemma ReadReturns(j: Joint, id: nat, rec: SensorRecord)
    requires Needed(j.sys) == Some(id) && j.result == None && id < POPULATED && rec == j.cache.cache[id]
    requires 0 < |j.cache.readers| && j.cache.owner == SC.Nobody && j.cache.readers[0].Outside?
    ensures
      var j1 := JointNext(j, Cache(SC.Call(0, SC.One(id))));
      var j2 := JointNext(j1, Cache(SC.ReaderTakes(0)));
      var j3 := JointNext(j2, Cache(SC.ReaderCopies(0)));
      var j4 := JointNext(j3, Cache(SC.ReaderGives(0)));
      j4.result == Some(rec) && j4.sys == j.sys
  {
    hide Needed;
    var c := j.cache;
    var asking, copying := SC.Asking(SC.One(id), |c.commits|), SC.Copying(SC.One(id), |c.commits|, []);
    var j1 := JointNext(j, Cache(SC.Call(0, SC.One(id))));
    assert j1 == j.(cache := c.(readers := c.readers[0 := asking]));
    var j2 := JointNext(j1, Cache(SC.ReaderTakes(0)));
    assert j2 == j.(cache := c.(owner := SC.ReaderOwns(0), readers := c.readers[0 := copying]));
    var j3 := JointNext(j2, Cache(SC.ReaderCopies(0)));
    assert copying.out + [c.cache[id]] == [rec];
    assert j3 == j.(cache := c.(owner := SC.ReaderOwns(0), readers := c.readers[0 := copying.(out := [rec])]));
  }

  lemma CacheHolds(j: Joint)
    requires JointInv(j) && Needed(j.sys).Some? && j.cache.owner == SC.Nobody
    ensures 0 < |j.cache.readers| && Needed(j.sys).value < POPULATED && j.cache.cache == SC.Replay(j.cache.commits)
  {
    hide SC.Replay, Receive;
  }

  lemma NeededAnswered(s: Sys, rec: SensorRecord)
    requires Needed(s).Some?
    ensures s.pc.HandleBmc? && Receive(s.reasm, s.pc.m).1.Request?
    ensures
      var msg := Receive(s.reasm, s.pc.m).1.msg;
      && IsReading(msg)
      && OutcomeOf(msg, rec, |s.flash.queue|) == Outcome(PLDM_CC_SUCCESS, Pack(rec), None)
  {
    hide Receive, Pack;
  }

  lemma JointRunFive(j: Joint, a: JointEvent, b: JointEvent, c: JointEvent, d: JointEvent, e: JointEvent)
    ensures JointRun(j, [a, b, c, d, e]) == JointNext(JointNext(JointNext(JointNext(JointNext(j, a), b), c), d), e)
  {
    hide JointNext;
    assert [a, b, c, d, e][..4] == [a, b, c, d];
    assert [a, b, c, d][..3] == [a, b, c];
    assert [a, b, c][..2] == [a, b];
    assert [a, b][..1] == [a];
    assert [a][..0] == [];
    assert JointRun(j, [a]) == JointNext(j, a);
    assert JointRun(j, [a, b]) == JointNext(JointRun(j, [a]), b);
    assert JointRun(j, [a, b, c]) == JointNext(JointRun(j, [a, b]), c);
    assert JointRun(j, [a, b, c, d]) == JointNext(JointRun(j, [a, b, c]), d);
  }
}
