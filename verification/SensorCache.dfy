/**
 * The sensor cache under concurrency: the poller writes a record field by field, any number
 * of readers copy records one at a time, and a mutex guards both. Each event is one step of
 * one thread; a step that is not enabled changes nothing, so every sequence of events is an
 * interleaving. Commits and finished reads are recorded for the theorems only.
 */
module SensorCache {
  import opened Common
  import opened SensorMgr

  type Cache = c: seq<SensorRecord> | |c| == MAX_SENSORS witness seq(MAX_SENSORS, _ => ZERO_RECORD)

  /** The cache after initialisation: all bytes zero. */
  function InitialCache(): Cache { seq(MAX_SENSORS, _ => ZERO_RECORD) }

  datatype Owner = Nobody | PollerOwns | ReaderOwns(k: nat)

  /** The poller: idle, holding a reading and waiting for the mutex, or inside with some fields written. */
  datatype Poller = Idle | Waiting(id: nat, raw: Int16) | Writing(id: nat, raw: Int16, stage: nat, tick: nat)

  /** What a reader asked for: one record, or the whole table. */
  datatype Want = One(id: nat) | All

  /** A reader: idle, waiting for the mutex, or copying. since is how many commits there were when it called. */
  datatype Reader = Outside | Asking(want: Want, since: nat) | Copying(want: Want, since: nat, out: seq<SensorRecord>)

  datatype Commit = Commit(id: nat, raw: Int16, tick: nat)

  /** A finished read: what was asked, what came back, and the commits before the call and at the return. */
  datatype Read = Read(want: Want, out: seq<SensorRecord>, since: nat, until: nat)

  datatype State = State(
    cache: Cache, owner: Owner, poller: Poller, readers: seq<Reader>, commits: seq<Commit>, finished: seq<Read>)

  datatype Event =
    | Sample(id: nat, raw: Int16)
    | PollerTakes
    | PollerWrites(tick: nat)
    | PollerGives
    | Call(k: nat, want: Want)
    | ReaderTakes(k: nat)
    | ReaderCopies(k: nat)
    | ReaderGives(k: nat)

  function Span(want: Want): nat { if want.One? then 1 else MAX_SENSORS }

  function Base(want: Want): nat { if want.One? then want.id else 0 }

  predicate Sensor(id: nat) { id < POPULATED }

  /** One more field of a record: raw, scaled, state, timestamp in this order. */
  function WriteField(rec: SensorRecord, id: nat, raw: Int16, stage: nat, tick: nat): SensorRecord
    requires Sensor(id)
  {
    var scaled := ApplyCalibration(Table()[id], raw);
    if stage == 0 then rec.(raw := raw)
    else if stage == 1 then rec.(scaled := scaled)
    else if stage == 2 then rec.(state := CheckThresholds(Table()[id], scaled))
    else rec.(timestamp := tick)
  }

  function Next(s: State, e: Event): State {
    match e
    case Sample(id, raw) =>
      if s.poller.Idle? && Sensor(id) then s.(poller := Waiting(id, raw)) else s
    case PollerTakes =>
      if s.poller.Waiting? && s.owner == Nobody
      then s.(owner := PollerOwns, poller := Writing(s.poller.id, s.poller.raw, 0, 0)) else s
    case PollerWrites(tick) =>
      if s.poller.Writing? && s.poller.stage < 4 && Sensor(s.poller.id) then
        var p := s.poller;
        s.(cache := s.cache[p.id := WriteField(s.cache[p.id], p.id, p.raw, p.stage, tick)],
           poller := Writing(p.id, p.raw, p.stage + 1, tick))
      else s
    case PollerGives =>
      if s.poller.Writing? && s.poller.stage == 4 then
        s.(owner := Nobody, poller := Idle, commits := s.commits + [Commit(s.poller.id, s.poller.raw, s.poller.tick)])
      else s
    case Call(k, want) =>
      if k < |s.readers| && s.readers[k].Outside? && (want.One? ==> Sensor(want.id))
      then s.(readers := s.readers[k := Asking(want, |s.commits|)]) else s
    case ReaderTakes(k) =>
      if k < |s.readers| && s.readers[k].Asking? && s.owner == Nobody
      then s.(owner := ReaderOwns(k), readers := s.readers[k := Copying(s.readers[k].want, s.readers[k].since, [])]) else s
    case ReaderCopies(k) =>
      if k < |s.readers| && s.readers[k].Copying? && |s.readers[k].out| < Span(s.readers[k].want)
         && Base(s.readers[k].want) + |s.readers[k].out| < MAX_SENSORS then
        var r := s.readers[k];
        s.(readers := s.readers[k := r.(out := r.out + [s.cache[Base(r.want) + |r.out|]])])
      else s
    case ReaderGives(k) =>
      if k < |s.readers| && s.readers[k].Copying? && |s.readers[k].out| == Span(s.readers[k].want) then
        var r := s.readers[k];
        s.(owner := Nobody, readers := s.readers[k := Outside],
           finished := s.finished + [Read(r.want, r.out, r.since, |s.commits|)])
      else s
  }

  function Start(n: nat): State {
    State(InitialCache(), Nobody, Idle, seq(n, _ => Outside), [], [])
  }

  /** The state after a run. */
  function Run(s: State, events: seq<Event>): State
    decreases |events|
  {
    if events == [] then s else Next(Run(s, events[..|events| - 1]), events[|events| - 1])
  }

  // ---- What a sequential cache would hold ------------------------------------------------

  /** A whole record update, done at once. */
  function Update(c: Cache, u: Commit): Cache
  {
    if !Sensor(u.id) then c
    else c[u.id := Refreshed(c[u.id], Table()[u.id], Some(u.raw), u.tick)]
  }

  function Replay(commits: seq<Commit>): Cache
    decreases |commits|
  {
    if commits == [] then InitialCache() else Update(Replay(commits[..|commits| - 1]), commits[|commits| - 1])
  }

  /** A record with its first fields written. */
  function Partly(rec: SensorRecord, id: nat, raw: Int16, stage: nat, tick: nat): SensorRecord
    requires Sensor(id) && stage <= 4
  {
    if stage == 0 then rec else WriteField(Partly(rec, id, raw, stage - 1, tick), id, raw, stage - 1, tick)
  }

  /** The part of a cache a reader asked for. */
  function View(c: Cache, want: Want): seq<SensorRecord>
    requires want.One? ==> Sensor(want.id)
  {
    if want.One? then [c[want.id]] else c
  }

  predicate Asked(want: Want) { want.One? ==> Sensor(want.id) }

  // ---- Invariant ---------------------------------------------------------------------------

  ghost predicate Locked(s: State) {
    && (s.owner == PollerOwns <==> s.poller.Writing?)
    && forall k: nat | k < |s.readers| :: s.owner == ReaderOwns(k) <==> s.readers[k].Copying?
  }

  ghost predicate PollerInv(s: State) {
    match s.poller
    case Idle => s.cache == Replay(s.commits)
    case Waiting(id, _) => Sensor(id) && s.cache == Replay(s.commits)
    case Writing(id, raw, stage, tick) =>
      && Sensor(id) && stage <= 4
      && s.cache == Replay(s.commits)[id := Partly(Replay(s.commits)[id], id, raw, stage, tick)]
  }

  ghost predicate ReaderInv(s: State, r: Reader) {
    match r
    case Outside => true
    case Asking(want, since) => Asked(want) && since <= |s.commits|
    case Copying(want, since, out) =>
      && Asked(want) && since <= |s.commits| && |out| <= Span(want)
      && out == View(Replay(s.commits), want)[..|out|]
  }

  /** A finished read is the cache as it stood after some number of whole commits, between its call and its return. */
  ghost predicate Linearized(s: State, r: Read) {
    Asked(r.want) && exists n: nat :: r.since <= n <= r.until <= |s.commits| && r.out == View(Replay(s.commits[..n]), r.want)
  }

  ghost predicate Inv(s: State) {
    && Locked(s)
    && PollerInv(s)
    && (forall k: nat | k < |s.readers| :: ReaderInv(s, s.readers[k]))
    && (forall i: nat | i < |s.finished| :: Linearized(s, s.finished[i]))
  }

  // ---- Every step keeps it --------------------------------------------------------------------

  lemma PartlyIgnoresTick(rec: SensorRecord, id: nat, raw: Int16, stage: nat, t: nat, u: nat)
    requires Sensor(id) && stage <= 3
    ensures Partly(rec, id, raw, stage, t) == Partly(rec, id, raw, stage, u)
    decreases stage
  {
    if stage > 0 {
      PartlyIgnoresTick(rec, id, raw, stage - 1, t, u);
    }
  }

  /** The four field writes together are the whole update. */
  lemma FourFields(rec: SensorRecord, id: nat, raw: Int16, tick: nat)
    requires Sensor(id)
    ensures Defined(Table()[id], raw)
    ensures Partly(rec, id, raw, 4, tick) == Refreshed(rec, Table()[id], Some(raw), tick)
  {
    PopulatedCalibration(id, raw);
    var one := Partly(rec, id, raw, 1, tick);
    assert one == rec.(raw := raw) by { assert Partly(rec, id, raw, 0, tick) == rec; }
    var two := Partly(rec, id, raw, 2, tick);
    assert two == one.(scaled := ApplyCalibration(Table()[id], raw));
    assert Partly(rec, id, raw, 3, tick) == WriteField(two, id, raw, 2, tick);
  }

  lemma ReplaySnoc(commits: seq<Commit>, u: Commit)
    ensures Replay(commits + [u]) == Update(Replay(commits), u)
  {
    assert (commits + [u])[..|commits|] == commits;
  }

  lemma KeepsLocked(s: State, e: Event)
    requires Locked(s)
    ensures Locked(Next(s, e))
  {
    hide WriteField;
  }

  lemma KeepsPoller(s: State, e: Event)
    requires PollerInv(s)
    ensures PollerInv(Next(s, e))
  {
    hide WriteField, Replay, Update;
    match e
    case PollerWrites(tick) =>
      if s.poller.Writing? && s.poller.stage < 4 {
        var p := s.poller;
        PartlyIgnoresTick(Replay(s.commits)[p.id], p.id, p.raw, p.stage, p.tick, tick);
      }
    case PollerGives =>
      if s.poller.Writing? && s.poller.stage == 4 {
        var p := s.poller;
        FourFields(Replay(s.commits)[p.id], p.id, p.raw, p.tick);
        ReplaySnoc(s.commits, Commit(p.id, p.raw, p.tick));
        UpdateIs(Replay(s.commits), Commit(p.id, p.raw, p.tick));
      }
    case _ =>
  }

  lemma UpdateIs(c: Cache, u: Commit)
    requires Sensor(u.id)
    ensures Defined(Table()[u.id], u.raw)
    ensures Update(c, u) == c[u.id := Refreshed(c[u.id], Table()[u.id], Some(u.raw), u.tick)]
  {
    PopulatedCalibration(u.id, u.raw);
  }

  lemma KeepsReaders(s: State, e: Event)
    requires Locked(s) && PollerInv(s) && forall k: nat | k < |s.readers| :: ReaderInv(s, s.readers[k])
    ensures forall k: nat | k < |Next(s, e).readers| :: ReaderInv(Next(s, e), Next(s, e).readers[k])
  {
    hide WriteField, Replay, Update, Partly;
    var t := Next(s, e);
    forall k: nat | k < |t.readers|
      ensures ReaderInv(t, t.readers[k])
    {
      assert ReaderInv(s, s.readers[k]);
      if s.readers[k].Copying? {
        assert s.owner == ReaderOwns(k);
        if t.readers[k].Copying? && t.readers[k] != s.readers[k] {
          var r := s.readers[k];
          ViewExtends(Replay(s.commits), r.want, |r.out|);
        }
      }
    }
  }

  lemma ViewExtends(c: Cache, want: Want, n: nat)
    requires Asked(want) && n < Span(want)
    ensures Base(want) + n < MAX_SENSORS
    ensures View(c, want)[..n + 1] == View(c, want)[..n] + [c[Base(want) + n]]
  {}

  lemma KeepsReads(s: State, e: Event)
    requires Inv(s)
    ensures forall i: nat | i < |Next(s, e).finished| :: Linearized(Next(s, e), Next(s, e).finished[i])
  {
    hide WriteField, Replay, Update, Partly;
    var t := Next(s, e);
    assert s.commits <= t.commits && s.finished <= t.finished;
    forall i: nat | i < |t.finished|
      ensures Linearized(t, t.finished[i])
    {
      if i < |s.finished| {
        assert Linearized(s, s.finished[i]);
        StillLinearized(s, t, s.finished[i]);
      } else {
        assert e.ReaderGives?;
        var r := s.readers[e.k];
        assert ReaderInv(s, r);
        assert s.commits[..|s.commits|] == s.commits;
        assert View(Replay(s.commits), r.want)[..|r.out|] == View(Replay(s.commits), r.want);
      }
    }
  }

  lemma StillLinearized(s: State, t: State, r: Read)
    requires Linearized(s, r) && s.commits <= t.commits
    ensures Linearized(t, r)
  {
    hide Replay;
    var n: nat :| r.since <= n <= r.until <= |s.commits| && r.out == View(Replay(s.commits[..n]), r.want);
    assert t.commits[..n] == s.commits[..n];
  }

  lemma StartInv(n: nat)
    ensures Inv(Start(n))
  {}

  /** The invariant holds in every reachable state of every interleaving, with any number of readers. */
  lemma {:induction false} RunInv(n: nat, events: seq<Event>)
    ensures Inv(Run(Start(n), events))
    decreases |events|
  {
    hide Inv, Next, Start;
    if events == [] {
      StartInv(n);
    } else {
      var s := Run(Start(n), events[..|events| - 1]);
      RunInv(n, events[..|events| - 1]);
      StepInv(s, events[|events| - 1]);
    }
  }

  lemma StepInv(s: State, e: Event)
    requires Inv(s)
    ensures Inv(Next(s, e))
  {
    hide Next, Locked, PollerInv, ReaderInv, Linearized;
    KeepsLocked(s, e);
    KeepsPoller(s, e);
    KeepsReaders(s, e);
    KeepsReads(s, e);
  }

  // ---- The polling loop as commits ------------------------------------------------------------

  /** The commits that one poll of the first n sensors makes: one for each read that succeeds, in order. */
  ghost function CommitsOf(r: Readings, n: nat): seq<Commit>
    requires n <= |r.read| && n <= |r.tick|
    decreases n
  {
    if n == 0 then []
    else CommitsOf(r, n - 1) + (if r.read[n - 1].Some? then [Commit(n - 1, r.read[n - 1].value, r.tick[n - 1])] else [])
  }

  /** The unrolled loop's effect on the table and the replayed commits of its successful reads are one and the same. */
  lemma {:induction false} PolledIsReplay(commits: seq<Commit>, r: Readings, n: nat)
    requires n <= POPULATED && Readable(Table(), r, n)
    ensures Polled(Replay(commits), Table(), r, n) == Replay(commits + CommitsOf(r, n))
    decreases n
  {
    hide Table, Replay, Update, ApplyCalibration, CheckThresholds, Defined;
    if n == 0 {
      assert commits + CommitsOf(r, 0) == commits;
    } else {
      PolledIsReplay(commits, r, n - 1);
      var soFar := commits + CommitsOf(r, n - 1);
      if r.read[n - 1].Some? {
        var u := Commit(n - 1, r.read[n - 1].value, r.tick[n - 1]);
        assert commits + CommitsOf(r, n) == soFar + [u];
        ReplaySnoc(soFar, u);
        UpdateIs(Replay(soFar), u);
      } else {
        assert commits + CommitsOf(r, n) == soFar;
      }
    }
  }

  // ---- What readers get --------------------------------------------------------------------------

  /** The scaled value and the state belong to the raw value. */
  predicate Consistent(id: nat, rec: SensorRecord)
    requires Sensor(id)
  {
    && rec.scaled == ApplyCalibration(Table()[id], rec.raw)
    && rec.state == CheckThresholds(Table()[id], rec.scaled)
  }

  lemma {:induction false} ReplayConsistent(commits: seq<Commit>, id: nat)
    requires Sensor(id)
    ensures Consistent(id, Replay(commits)[id])
    decreases |commits|
  {
    if commits == [] {
      PopulatedCalibration(id, 0);
    } else {
      var u := commits[|commits| - 1];
      ReplayConsistent(commits[..|commits| - 1], id);
      if Sensor(u.id) {
        UpdateIs(Replay(commits[..|commits| - 1]), u);
      }
    }
  }

  /** What a read brought back is the whole of this cache, or the record asked for of it. */
  predicate Shows(r: Read, c: Cache) {
    if r.want.All? then r.out == c else r.want.id < POPULATED && r.out == [c[r.want.id]]
  }

  /** The last commit of a sensor, if there is one. */
  function Latest(commits: seq<Commit>, id: nat): Option<Commit>
    decreases |commits|
  {
    if commits == [] then None
    else if commits[|commits| - 1].id == id then Some(commits[|commits| - 1])
    else Latest(commits[..|commits| - 1], id)
  }

  /**
   * What the cache holds for a populated sensor is its last reading, or zeros before there is one; the code sets no
   * other field.
   */
  lemma {:induction false} ReplayIsLatest(commits: seq<Commit>, id: nat)
    requires Sensor(id)
    ensures
      (Replay(commits)[id] ==
       match Latest(commits, id)
       case None => SensorRecord(0, 0, Normal, 0, 0, 0, 0)
       case Some(u) =>
         var state := if -640 < u.raw < 1360 then Normal else Critical;
         SensorRecord(0, 0, state, u.raw, TruncDiv(u.raw, 16), 0, u.tick))
    decreases |commits|
  {
    hide Table, ApplyCalibration, CheckThresholds, TruncDiv, Defined;
    if commits != [] {
      var before, u := commits[..|commits| - 1], commits[|commits| - 1];
      ReplayIsLatest(before, id);
      if Sensor(u.id) {
        UpdateIs(Replay(before), u);
        PopulatedCalibration(u.id, u.raw);
        CriticalIff(u.id, u.raw);
      }
    }
  }

  /**
   * In every run, every read, of one record or of the whole table, is the cache after some whole number of
   * commits made between its call and its return.
   */
  lemma SnapshotIsPrefix(n: nat, events: seq<Event>, i: nat)
    requires i < |Run(Start(n), events).finished|
    ensures
      var s := Run(Start(n), events);
      var r := s.finished[i];
      exists m: nat :: r.since <= m <= r.until <= |s.commits| && Shows(r, Replay(s.commits[..m]))
  {
    hide Next, Start, Locked, PollerInv, ReaderInv, Replay;
    RunInv(n, events);
    var s := Run(Start(n), events);
    var r := s.finished[i];
    assert Linearized(s, r);
    var m: nat :| r.since <= m <= r.until <= |s.commits| && r.out == View(Replay(s.commits[..m]), r.want);
    assert Shows(r, Replay(s.commits[..m]));
  }

  /** In every run, no reader ever gets a torn record of a populated sensor. */
  lemma ReadsConsistent(n: nat, events: seq<Event>, i: nat, j: nat)
    requires i < |Run(Start(n), events).finished|
    requires
      var r := Run(Start(n), events).finished[i];
      j < Span(r.want) && Sensor(Base(r.want) + j)
    ensures
      var r := Run(Start(n), events).finished[i];
      j < |r.out| && Consistent(Base(r.want) + j, r.out[j])
  {
    hide Next, Start, Locked, PollerInv, ReaderInv, Replay, Consistent;
    RunInv(n, events);
    var s := Run(Start(n), events);
    var r := s.finished[i];
    assert Linearized(s, r);
    var m: nat :| r.since <= m <= r.until <= |s.commits| && r.out == View(Replay(s.commits[..m]), r.want);
    ReplayConsistent(s.commits[..m], Base(r.want) + j);
  }

  /** Without the mutex this would fail: inside the poller's critical section the shared record can be torn. */
  lemma TornInside()
    ensures
      var s := Run(Start(1), [Sample(0, 1360), PollerTakes, PollerWrites(0)]);
      s.owner == PollerOwns && !Consistent(0, s.cache[0])
  {
    hide Run, Table, ApplyCalibration, CheckThresholds;
    var s1 := Next(Start(1), Sample(0, 1360));
    assert s1 == Start(1).(poller := Waiting(0, 1360));
    var s2 := Next(s1, PollerTakes);
    assert s2 == s1.(owner := PollerOwns, poller := Writing(0, 1360, 0, 0));
    RunThree(Start(1), Sample(0, 1360), PollerTakes, PollerWrites(0));
    PopulatedCalibration(0, 1360);
  }

  lemma RunThree(s: State, a: Event, b: Event, c: Event)
    ensures Run(s, [a, b, c]) == Next(Next(Next(s, a), b), c)
  {
    hide Next;
    assert [a][..0] == [];
    assert [a, b][..1] == [a];
    assert [a, b, c][..2] == [a, b];
    assert Run(s, [a]) == Next(s, a);
    assert Run(s, [a, b]) == Next(Run(s, [a]), b);
  }
}
