/** Liveness of the idle exit, over infinite schedules, by a ranking measure on requests. */
module ProtocolLiveness {
  import opened Basics
  import opened Protocol
  import opened ProtocolInvariants
  import opened ProtocolTraces

  // ---------------------------------------------------------------- infinite schedules

  ghost predicate Stepped(c: Config, ss: nat -> State, es: nat -> Event, k: nat) {
    Enabled(c, ss(k), es(k)) && ss(k + 1) == Next(c, ss(k), es(k))
  }

  ghost predicate IsSchedule(c: Config, ss: nat -> State, es: nat -> Event) {
    ss(0) == INIT && forall k: nat :: Stepped(c, ss, es, k)
  }

  lemma {:induction false} InvOnSchedule(c: Config, ss: nat -> State, es: nat -> Event, n: nat)
    requires c.design.innerFirst && IsSchedule(c, ss, es)
    ensures Inv(c, ss(n))
  {
    if n == 0 {
    } else {
      InvOnSchedule(c, ss, es, n - 1);
      assert Stepped(c, ss, es, n - 1);
      InvStep(c, ss(n - 1), es(n - 1));
    }
  }

  // ---------------------------------------------------------------- the ranking measure

  function RequestRank(q: Request): nat {
    match q.phase
    case Validating => 8
    case Probing => 7
    case Detected => 6
    case Fetching => 5
    case Failing => 4
    case Sending(_) => 3
    case Unwinding => |q.owned|
    case Ended => 0
  }

  function Rank(qs: seq<Request>): nat {
    if qs == [] then 0 else Rank(qs[..|qs| - 1]) + RequestRank(qs[|qs| - 1])
  }

  lemma {:induction false} RankUpdate(qs: seq<Request>, r: nat, q: Request)
    requires r < |qs|
    ensures Rank(qs[r := q]) == Rank(qs) - RequestRank(qs[r]) + RequestRank(q)
  {
    var n := |qs| - 1;
    if r == n {
      assert qs[r := q][..n] == qs[..n];
    } else {
      RankUpdate(qs[..n], r, q);
      assert qs[r := q][..n] == qs[..n][r := q];
    }
  }

  lemma {:induction false} RankZeroMeansEnded(qs: seq<Request>)
    requires Rank(qs) == 0 && forall r | 0 <= r < |qs| :: OwnsByPhase(qs[r])
    ensures forall r | 0 <= r < |qs| :: qs[r].phase.Ended?
  {
    if qs == [] {
    } else {
      RankZeroMeansEnded(qs[..|qs| - 1]);
      assert OwnsByPhase(qs[|qs| - 1]);
    }
  }

  /** The events that bring a request closer to its end: all of its events except handing out a chunk. */
  predicate Progress(e: Event) {
    Subject(e) >= 0 && !e.Emit?
  }

  /** Without new requests the rank never grows, and every progress event makes it smaller. */
  lemma RankStep(c: Config, s: State, e: Event)
    requires c.design.innerFirst && Inv(c, s) && Enabled(c, s, e) && !e.Enter?
    ensures Rank(Next(c, s, e).requests) <= Rank(s.requests)
    ensures Progress(e) ==> Rank(Next(c, s, e).requests) < Rank(s.requests)
  {
    if Subject(e) >= 0 {
      var q := s.requests[Subject(e)];
      RequestRankStep(c.design, s.locked, q, e);
      RankUpdate(s.requests, Subject(e), NextRequest(c.design, s.locked, q, e));
    }
    hide NextRequest, RequestRank, Inv;
  }

  lemma RequestRankStep(d: Design, locked: bool, q: Request, e: Event)
    requires d.innerFirst && OwnsByPhase(q) && EnabledFor(q, e)
    ensures RequestRank(NextRequest(d, locked, q, e)) <= RequestRank(q)
    ensures Progress(e) ==> RequestRank(NextRequest(d, locked, q, e)) < RequestRank(q)
  {
  }

  lemma {:induction false} RankShrinks(c: Config, ss: nat -> State, es: nat -> Event, i: nat, j: nat)
    requires c.design.innerFirst && IsSchedule(c, ss, es) && i <= j
    requires forall k: nat | k >= i :: !es(k).Enter?
    ensures Rank(ss(j).requests) <= Rank(ss(i).requests)
    decreases j - i
  {
    if i == j {
    } else {
      RankShrinks(c, ss, es, i, j - 1);
      InvOnSchedule(c, ss, es, j - 1);
      assert Stepped(c, ss, es, j - 1);
      RankStep(c, ss(j - 1), es(j - 1));
    }
  }

  // ---------------------------------------------------------------- fairness

  /** As long as some request has not ended, some request eventually makes progress. */
  ghost predicate RequestsFinish(ss: nat -> State, es: nat -> Event, n: nat) {
    forall i: nat | i >= n && !AllEnded(ss(i)) :: exists j: nat :: j >= i && Progress(es(j))
  }

  /** At whatever time, the idle task is eventually polled, unless the process stops serving. */
  ghost predicate IdleKeepsBeingPolled(ss: nat -> State, es: nat -> Event) {
    forall i: nat, t: nat {:trigger PolledLater(ss, es, i, t)} :: PolledLater(ss, es, i, t)
  }

  ghost predicate PolledLater(ss: nat -> State, es: nat -> Event, i: nat, t: nat) {
    exists j: nat :: j >= i && (!ss(j).process.Serving? || (es(j).PollIdle? && ss(j).now >= t))
  }

  lemma EventuallyAllEnded(c: Config, ss: nat -> State, es: nat -> Event, n: nat) returns (m: nat)
    requires c.design.innerFirst && IsSchedule(c, ss, es)
    requires forall k: nat | k >= n :: !es(k).Enter?
    requires RequestsFinish(ss, es, n)
    ensures m >= n && AllEnded(ss(m))
    decreases Rank(ss(n).requests)
  {
    InvOnSchedule(c, ss, es, n);
    if AllEnded(ss(n)) {
      m := n;
    } else {
      var j: nat :| j >= n && Progress(es(j));
      RankShrinks(c, ss, es, n, j);
      InvOnSchedule(c, ss, es, j);
      assert Stepped(c, ss, es, j);
      RankStep(c, ss(j), es(j));
      m := EventuallyAllEnded(c, ss, es, j + 1);
    }
  }

  /** Once everything has ended and nothing enters, the state of the requests and the watch is final. */
  lemma {:induction false} QuietForever(c: Config, ss: nat -> State, es: nat -> Event, m: nat, n: nat)
    requires c.design.innerFirst && IsSchedule(c, ss, es) && m <= n && AllEnded(ss(m))
    requires forall k: nat | k >= m :: !es(k).Enter?
    ensures ss(n).requests == ss(m).requests && ss(n).watch == ss(m).watch && ss(n).now >= ss(m).now
    ensures ss(m).watch.value == 0
    decreases n - m
  {
    InvOnSchedule(c, ss, es, m);
    CountZero(ss(m).requests, ActivityToken);
    if m == n {
    } else {
      QuietForever(c, ss, es, m, n - 1);
      assert Stepped(c, ss, es, n - 1);
    }
  }

  /** In the quiet phase, after a poll, the window open has its deadline within the timeout. */
  lemma {:induction false} WindowStaysOpen(c: Config, ss: nat -> State, es: nat -> Event, m: nat, p: nat, n: nat)
    requires c.design == THE_DESIGN && IsSchedule(c, ss, es) && m <= p < n && AllEnded(ss(m))
    requires forall k: nat | k >= m :: !es(k).Enter?
    requires es(p).PollIdle? && DeadlinesAreNear(c, ss(p))
    ensures !ss(n).process.Serving? ||
            (&& ss(n).idle.Window? && ss(n).idle.seen == ss(n).watch.version
             && ss(n).idle.deadline <= ss(p).now + c.timeout)
    decreases n - p
  {
    QuietForever(c, ss, es, m, n - 1);
    QuietForever(c, ss, es, m, n);
    QuietForever(c, ss, es, m, p);
    assert Stepped(c, ss, es, n - 1);
    InvOnSchedule(c, ss, es, n);
    if n > p + 1 {
      WindowStaysOpen(c, ss, es, m, p, n - 1);
    } else {
      SeenMeansWindow(c, ss, es, p);
    }
  }

  /** A receiver that has seen the current version saw the current value with it. */
  ghost predicate DeadlinesAreNear(c: Config, s: State) {
    && (s.idle.Window? ==> s.idle.deadline <= s.now + c.timeout)
    && (s.idle.Waiting? && s.idle.seen == s.watch.version ==> s.watch.value != 0)
  }

  lemma {:induction false} SeenMeansWindow(c: Config, ss: nat -> State, es: nat -> Event, n: nat)
    requires c.design == THE_DESIGN && IsSchedule(c, ss, es)
    ensures DeadlinesAreNear(c, ss(n))
  {
    if n == 0 {
    } else {
      SeenMeansWindow(c, ss, es, n - 1);
      InvOnSchedule(c, ss, es, n - 1);
      assert Stepped(c, ss, es, n - 1);
    }
  }

  /** In the quiet phase the second of two polls at least the timeout apart ends the serving. */
  lemma SecondPollReturns(c: Config, ss: nat -> State, es: nat -> Event, m: nat, p: nat, q: nat)
    requires c.design == THE_DESIGN && IsSchedule(c, ss, es) && m <= p < q && AllEnded(ss(m))
    requires forall k: nat | k >= m :: !es(k).Enter?
    requires es(p).PollIdle? && es(q).PollIdle? && ss(q).now >= ss(p).now + c.timeout
    ensures ss(q + 1).idle.Returned? && ss(q + 1).process.Draining?
  {
    SeenMeansWindow(c, ss, es, p);
    WindowStaysOpen(c, ss, es, m, p, q);
    assert Stepped(c, ss, es, q);
  }

  /** Liveness: in a socket-activated process, if from some point on no request enters, the requests
      finish and the idle task keeps being polled, then the process stops serving; and if no signal
      asked it to, the idle task is what stopped it. */
  lemma ServingEventuallyStops(c: Config, ss: nat -> State, es: nat -> Event, n: nat) returns (k: nat)
    requires c.design == THE_DESIGN && c.activated && IsSchedule(c, ss, es)
    requires forall k: nat | k >= n :: !es(k).Enter?
    requires RequestsFinish(ss, es, n) && IdleKeepsBeingPolled(ss, es)
    ensures k >= n && !ss(k).process.Serving?
    ensures (forall i: nat :: !es(i).Signal?) ==> ss(k).idle.Returned?
  {
    var m := EventuallyAllEnded(c, ss, es, n);
    assert PolledLater(ss, es, m, 0);
    var p: nat :| p >= m && (!ss(p).process.Serving? || (es(p).PollIdle? && ss(p).now >= 0));
    if !ss(p).process.Serving? {
      k := p;
    } else {
      assert PolledLater(ss, es, p + 1, ss(p).now + c.timeout);
      var q: nat :| q >= p + 1 && (!ss(q).process.Serving? || (es(q).PollIdle? && ss(q).now >= ss(p).now + c.timeout));
      if !ss(q).process.Serving? {
        k := q;
      } else {
        SecondPollReturns(c, ss, es, m, p, q);
        k := q + 1;
      }
    }
    if forall i: nat :: !es(i).Signal? {
      UnsignalledStopIsIdle(c, ss, es, k);
    }
  }

  lemma {:induction false} UnsignalledStopIsIdle(c: Config, ss: nat -> State, es: nat -> Event, n: nat)
    requires IsSchedule(c, ss, es) && forall i: nat :: !es(i).Signal?
    ensures !ss(n).signalled && (!ss(n).process.Serving? ==> ss(n).idle.Returned?)
  {
    if n == 0 {
    } else {
      UnsignalledStopIsIdle(c, ss, es, n - 1);
      assert Stepped(c, ss, es, n - 1);
    }
  }

  // ---------------------------------------------------------------- what can always happen

  /** Until it has exited, a process can be asked for more, can be signalled, and time can pass.  The idle task
      is polled exactly while an activated process serves, a signal is acted on as soon as it is there, and
      a draining process exits as soon as all requests have ended. */
  lemma OpenToTheWorld(c: Config, s: State, kind: Kind, elapsed: nat)
    requires c.design == THE_DESIGN && s.process != Exited
    ensures Enabled(c, s, Enter(kind)) && Enabled(c, s, Tick(elapsed)) && Enabled(c, s, Signal)
    ensures Enabled(c, s, PollIdle(false)) <==> c.activated && s.process.Serving? && !s.idle.Returned?
    ensures !Enabled(c, s, PollIdle(true))
    ensures Enabled(c, s, StartDrain) <==> s.process.Serving? && s.signalled
    ensures Enabled(c, s, Exit) <==> s.process.Draining? && AllEnded(s)
  {
  }

  /** The ways in which a request can end, from where it is. */
  lemma EndingsOfARequest(c: Config, s: State, r: RequestId, why: Ending)
    requires s.process != Exited && r < |s.requests|
    ensures var phase := s.requests[r].phase;
            Enabled(c, s, End(r, why)) <==>
              || (why.Cancelled? && (phase.Probing? || phase.Fetching?))
              || (phase.Sending? && (why.Completed? || why.Disconnected? || (why.StreamError? && phase.status == 200)))
  {
  }

  /** The next event of a request if all goes well. */
  function WayOn(r: RequestId, q: Request): Event {
    match q.phase
    case Validating => Validate(r)
    case Probing => ProbeDone(r, true)
    case Detected => TryLock(r)
    case Fetching => FetchDone(r, true)
    case Failing => Release(r)
    case Sending(_) => End(r, Completed)
    case Unwinding => Release(r)
    case Ended => Release(r)
  }

  /** No request is ever stuck: whoever has not ended can make progress at once. */
  lemma NoRequestIsStuck(c: Config, s: State, r: RequestId)
    requires c.design.innerFirst && Inv(c, s) && s.process != Exited
    requires r < |s.requests| && !s.requests[r].phase.Ended?
    ensures Enabled(c, s, WayOn(r, s.requests[r])) && Progress(WayOn(r, s.requests[r]))
  {
    var q := s.requests[r];
    assert OwnsByPhase(q);
    if q.phase.Unwinding? && q.owned == [] {
      assert false;
    }
  }

  /** From every state that keeps the invariant all requests can be brought to their ends, without a new one. */
  lemma {:induction false} AllCanEnd(c: Config, s: State) returns (fs: seq<Event>)
    requires c.design.innerFirst && Inv(c, s) && s.process != Exited
    ensures Perform(c, s, fs).Some?
    ensures var t := Perform(c, s, fs).value;
            AllEnded(t) && t.process == s.process && t.signalled == s.signalled
    decreases Rank(s.requests)
  {
    if AllEnded(s) {
      fs := [];
    } else {
      var r: nat :| r < |s.requests| && !s.requests[r].phase.Ended?;
      var e := WayOn(r, s.requests[r]);
      NoRequestIsStuck(c, s, r);
      InvStep(c, s, e);
      RankStep(c, s, e);
      var rest := AllCanEnd(c, Next(c, s, e));
      fs := [e] + rest;
      assert fs[1..] == rest;
    }
  }

  /** A signal is enough: a run of a serving process can always be extended, over the signal and the ends of its
      requests, to one at whose end the process has exited, activated or not. */
  lemma EveryRunCanExit(c: Config, ss: seq<State>, es: seq<Event>) returns (ts: seq<State>, fs: seq<Event>)
    requires c.design == THE_DESIGN && IsRun(c, ss, es) && ss[|es|].process.Serving?
    ensures IsRun(c, ts, es + fs) && ss <= ts && ts[|es + fs|].process.Exited?
  {
    var s := ss[|es|];
    InvAlways(c, ss, es, |es|);
    var signalled := Next(c, s, Signal);
    InvStep(c, s, Signal);
    var draining := Next(c, signalled, StartDrain);
    InvStep(c, signalled, StartDrain);
    var ends := AllCanEnd(c, draining);
    var t := Perform(c, draining, ends).value;
    PerformThen(c, draining, ends, Exit);
    fs := [Signal] + ([StartDrain] + (ends + [Exit]));
    assert fs[1..] == [StartDrain] + (ends + [Exit]);
    assert fs[1..][1..] == ends + [Exit];
    hide IsRun;
    ts := PerformedIsARun(c, ss, es, fs);
  }

  lemma {:induction false} PerformThen(c: Config, s: State, fs: seq<Event>, e: Event)
    requires Perform(c, s, fs).Some? && Enabled(c, Perform(c, s, fs).value, e)
    ensures Perform(c, s, fs + [e]) == Some(Next(c, Perform(c, s, fs).value, e))
    decreases |fs|
  {
    hide Enabled, Next;
    if fs == [] {
      assert (fs + [e])[1..] == [];
    } else {
      assert (fs + [e])[1..] == fs[1..] + [e];
      PerformThen(c, Next(c, s, fs[0]), fs[1..], e);
    }
  }

  // ---------------------------------------------------------------- the assumptions can be met

  function QuietEvent(c: Config, n: nat): Event {
    if n == 0 || n == 2 then PollIdle(false) else Tick(c.timeout)
  }

  function QuietState(c: Config, n: nat): State {
    if n == 0 then INIT
    else if n <= 2 then INIT.(idle := Window(0, c.timeout), now := (n - 1) * c.timeout)
    else INIT.(idle := Returned, process := Draining, now := (n - 2) * c.timeout)
  }

  /** There are schedules as the liveness results assume them. */
  lemma AFairSchedule(c: Config) returns (ss: nat -> State, es: nat -> Event)
    requires c.design == THE_DESIGN && c.activated
    ensures IsSchedule(c, ss, es) && (forall k: nat :: !es(k).Enter?)
    ensures RequestsFinish(ss, es, 0) && IdleKeepsBeingPolled(ss, es)
  {
    ss, es := (n: nat) => QuietState(c, n), (n: nat) => QuietEvent(c, n);
    forall k: nat ensures Stepped(c, ss, es, k) {
    }
    forall i: nat, t: nat ensures PolledLater(ss, es, i, t) {
      var j: nat := if i < 3 then 3 else i;
      assert j >= i && !ss(j).process.Serving?;
    }
  }
}
