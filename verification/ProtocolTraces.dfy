/** Properties of whole runs: idle exit, serialised imports, no leaks, shutdown. */
module ProtocolTraces {
  import opened Basics
  import opened Protocol
  import opened ProtocolInvariants

  // ---------------------------------------------------------------- basic facts about runs

  lemma StepOf(c: Config, ss: seq<State>, es: seq<Event>, k: nat)
    requires IsRun(c, ss, es) && k < |es|
    ensures StepAt(c, ss, es, k)
  {
  }

  lemma {:induction false} TimeAdvances(c: Config, ss: seq<State>, es: seq<Event>, i: nat, n: nat)
    requires IsRun(c, ss, es) && i <= n < |ss|
    ensures ss[i].now <= ss[n].now
    decreases n - i
  {
    if i == n {
    } else {
      TimeAdvances(c, ss, es, i, n - 1);
      StepOf(c, ss, es, n - 1);
    }
  }

  lemma OneMoreStep(c: Config, ss: seq<State>, es: seq<Event>, e: Event)
    requires IsRun(c, ss, es) && Enabled(c, ss[|es|], e)
    ensures IsRun(c, ss + [Next(c, ss[|es|], e)], es + [e])
  {
    hide Enabled, Next;
    var ss', es' := ss + [Next(c, ss[|es|], e)], es + [e];
    forall k: nat | k < |es'| ensures StepAt(c, ss', es', k) {
      if k < |es| {
        assert StepAt(c, ss, es, k);
      }
    }
  }

  /** Events that can be performed one after the other at the end of a run extend it to a longer run. */
  lemma {:induction false} PerformedIsARun(c: Config, ss: seq<State>, es: seq<Event>, fs: seq<Event>)
    returns (ts: seq<State>)
    requires IsRun(c, ss, es) && Perform(c, ss[|es|], fs).Some?
    ensures IsRun(c, ts, es + fs) && ss <= ts
    ensures Some(ts[|es + fs|]) == Perform(c, ss[|es|], fs)
    decreases |fs|
  {
    hide Enabled, Next, StepAt;
    if fs == [] {
      ts := ss;
      assert es + fs == es;
    } else {
      OneMoreStep(c, ss, es, fs[0]);
      var ss' := ss + [Next(c, ss[|es|], fs[0])];
      assert ss'[|es + [fs[0]]|] == Next(c, ss[|es|], fs[0]);
      ts := PerformedIsARun(c, ss', es + [fs[0]], fs[1..]);
      assert es + [fs[0]] + fs[1..] == es + fs;
    }
  }

  /** No event at an index in [i, n) modified the watch channel. */
  ghost predicate Untouched(ss: seq<State>, es: seq<Event>, i: nat, n: nat)
    requires n <= |es| < |ss|
  {
    forall k: nat | i <= k < n :: !Touches(ss[k], es[k])
  }

  lemma {:induction false} UntouchedKeepsWatch(c: Config, ss: seq<State>, es: seq<Event>, i: nat, n: nat)
    requires IsRun(c, ss, es) && i <= n <= |es| && Untouched(ss, es, i, n)
    ensures ss[n].watch == ss[i].watch
    decreases n - i
  {
    if i == n {
    } else {
      UntouchedKeepsWatch(c, ss, es, i, n - 1);
      StepOf(c, ss, es, n - 1);
    }
  }

  lemma {:induction false} VersionGrows(c: Config, ss: seq<State>, es: seq<Event>, i: nat, n: nat)
    requires IsRun(c, ss, es) && i <= n <= |es|
    ensures ss[i].watch.version <= ss[n].watch.version
    ensures ss[i].watch.version == ss[n].watch.version ==> Untouched(ss, es, i, n)
    decreases n - i
  {
    if i == n {
    } else {
      VersionGrows(c, ss, es, i, n - 1);
      StepOf(c, ss, es, n - 1);
      if ss[i].watch.version == ss[n].watch.version {
        forall k: nat | i <= k < n ensures !Touches(ss[k], es[k]) {
          if k == n - 1 {
            assert !Touches(ss[n - 1], es[n - 1]);
          }
        }
      }
    }
  }

  // ---------------------------------------------------------------- change detection

  /** The poll at index i is the last one before state n that observed the counter. */
  ghost predicate LastObservation(c: Config, ss: seq<State>, es: seq<Event>, i: nat, n: nat)
    requires n <= |es| < |ss|
  {
    && i < n
    && es[i].PollIdle?
    && ss[i + 1].idle == Observe(c, ss[i].watch, ss[i].now)
    && forall k: nat | i < k <= n :: ss[k].idle == ss[i + 1].idle
  }

  lemma {:induction false} ObservationExists(c: Config, ss: seq<State>, es: seq<Event>, n: nat) returns (i: nat)
    requires IsRun(c, ss, es) && n <= |es|
    requires ss[n].idle.Window? || ss[n].idle.Waiting?
    ensures LastObservation(c, ss, es, i, n)
  {
    StepOf(c, ss, es, n - 1);
    if ss[n].idle == ss[n - 1].idle {
      i := ObservationExists(c, ss, es, n - 1);
    } else {
      i := n - 1;
    }
  }

  /** "A change is ready" holds exactly when some request began or ended since the last observation,
      also when the counter is back at the observed value. */
  lemma ChangeReadyIffTouched(c: Config, ss: seq<State>, es: seq<Event>, n: nat) returns (i: nat)
    requires c.design.byVersion && IsRun(c, ss, es) && n <= |es|
    requires ss[n].idle.Window? || ss[n].idle.Waiting?
    ensures LastObservation(c, ss, es, i, n)
    ensures Stamp(c.design, ss[n].watch) != ss[n].idle.seen <==> exists k: nat :: i <= k < n && Touches(ss[k], es[k])
  {
    i := ObservationExists(c, ss, es, n);
    VersionGrows(c, ss, es, i, n);
    if Untouched(ss, es, i, n) {
      UntouchedKeepsWatch(c, ss, es, i, n);
    } else {
      var k: nat :| i <= k < n && Touches(ss[k], es[k]);
      if k == i {
        assert false;
      }
    }
  }

  // ---------------------------------------------------------------- idle exit

  /** At poll p the idle task saw no activity, and up to poll q, at least the timeout later, no
      request began or ended. */
  ghost predicate QuietWindow(c: Config, ss: seq<State>, es: seq<Event>, p: nat, q: nat)
    requires q < |es| < |ss|
  {
    && p < q
    && es[p].PollIdle?
    && ss[p].watch.value == 0
    && Untouched(ss, es, p, q)
    && ss[q].now - ss[p].now >= c.timeout
  }

  lemma ReturnNeedsQuietWindow(c: Config, ss: seq<State>, es: seq<Event>, q: nat) returns (p: nat)
    requires c.design.biased && c.design.byVersion
    requires IsRun(c, ss, es) && q < |es|
    requires es[q].PollIdle? && ss[q + 1].idle.Returned?
    ensures QuietWindow(c, ss, es, p, q)
  {
    StepOf(c, ss, es, q);
    p := ChangeReadyIffTouched(c, ss, es, q);
    assert Untouched(ss, es, p, q);
    UntouchedKeepsWatch(c, ss, es, p, q);
  }

  /** After a poll in a quiet stretch the deadline is never later than that poll plus the timeout. */
  lemma {:induction false} QuietDeadline(c: Config, ss: seq<State>, es: seq<Event>, p: nat, n: nat)
    requires IsRun(c, ss, es) && p < n <= |es|
    requires es[p].PollIdle? && ss[p].watch.value == 0 && Untouched(ss, es, p, n)
    requires c.design.byVersion && c.design.innerFirst
    ensures ss[n].idle.Returned? ||
            (&& ss[n].idle.Window? && ss[n].idle.seen == ss[n].watch.version
             && ss[n].idle.deadline <= ss[p].now + c.timeout)
    decreases n
  {
    StepOf(c, ss, es, n - 1);
    if n == p + 1 {
      if ss[p].idle.Window? || ss[p].idle.Waiting? {
        var i := ChangeReadyIffTouched(c, ss, es, p);
        TimeAdvances(c, ss, es, i, p);
        if ss[p].idle.seen == ss[p].watch.version {
          UntouchedKeepsWatch(c, ss, es, i, p);
        }
      }
    } else {
      QuietDeadline(c, ss, es, p, n - 1);
      assert !Touches(ss[n - 1], es[n - 1]);
    }
  }

  lemma QuietWindowReturns(c: Config, ss: seq<State>, es: seq<Event>, p: nat, q: nat)
    requires c.design.byVersion && c.design.innerFirst
    requires IsRun(c, ss, es) && q < |es| && es[q].PollIdle?
    requires QuietWindow(c, ss, es, p, q)
    ensures ss[q + 1].idle.Returned?
  {
    StepOf(c, ss, es, q);
    QuietDeadline(c, ss, es, p, q);
  }

  /** The exact behaviour of the idle task over every run: a poll lets the process exit if and only if
      some earlier poll saw no activity, the timeout has passed since, and nothing began or ended in
      between, however late the polls came. */
  lemma IdleReturnsIffQuietWindow(c: Config, ss: seq<State>, es: seq<Event>, q: nat)
    requires c.design == THE_DESIGN && IsRun(c, ss, es) && q < |es| && es[q].PollIdle?
    ensures ss[q + 1].idle.Returned? <==> exists p: nat :: p < q && QuietWindow(c, ss, es, p, q)
  {
    if ss[q + 1].idle.Returned? {
      var p := ReturnNeedsQuietWindow(c, ss, es, q);
    }
    if p: nat :| p < q && QuietWindow(c, ss, es, p, q) {
      QuietWindowReturns(c, ss, es, p, q);
    }
  }

  /** What an idle exit guarantees to requests: throughout the window nothing was active, the lock was
      free, and every request had been dropped completely at least a full timeout before. */
  lemma IdleExitIsSafe(c: Config, ss: seq<State>, es: seq<Event>, q: nat) returns (p: nat)
    requires c.design == THE_DESIGN && IsRun(c, ss, es) && q < |es|
    requires es[q].PollIdle? && ss[q + 1].idle.Returned?
    ensures p < q && ss[q].now - ss[p].now >= c.timeout
    ensures forall k: nat | p <= k <= q + 1 :: ss[k].watch.value == 0 && !ss[k].locked && AllEnded(ss[k])
    ensures forall k: nat | k < q && Touches(ss[k], es[k]) :: ss[q].now - ss[k].now >= c.timeout
  {
    p := ReturnNeedsQuietWindow(c, ss, es, q);
    StepOf(c, ss, es, q);
    forall k: nat | p <= k <= q + 1
      ensures ss[k].watch.value == 0 && !ss[k].locked && AllEnded(ss[k])
    {
      UntouchedKeepsWatch(c, ss, es, p, if k <= q then k else q);
      QuietMeansUnlocked(c, ss, es, k);
    }
    forall k: nat | k < q && Touches(ss[k], es[k])
      ensures ss[q].now - ss[k].now >= c.timeout
    {
      TimeAdvances(c, ss, es, k, p);
    }
  }

  // ---------------------------------------------------------------- the counter and its history

  function Enters(es: seq<Event>): nat {
    if es == [] then 0 else Enters(es[..|es| - 1]) + if es[|es| - 1].Enter? then 1 else 0
  }

  function Leaves(ss: seq<State>, es: seq<Event>): nat
    requires |ss| >= |es|
  {
    if es == [] then 0
    else Leaves(ss, es[..|es| - 1]) + if Drops(ss[|es| - 1], es[|es| - 1], ActivityToken) then 1 else 0
  }

  /** The watch channel is a summary of the history: its version counts the requests that entered and
      left, its value is their difference and the number of live tokens. */
  lemma {:induction false} WatchIsHistory(c: Config, ss: seq<State>, es: seq<Event>, n: nat)
    requires c.design.innerFirst && IsRun(c, ss, es) && n <= |es|
    ensures ss[n].watch.version == Enters(es[..n]) + Leaves(ss, es[..n])
    ensures ss[n].watch.value == Enters(es[..n]) - Leaves(ss, es[..n])
    ensures ss[n].watch.value == CountHolding(ss[n].requests, ActivityToken)
    ensures |ss[n].requests| == Enters(es[..n])
  {
    InvAlways(c, ss, es, n);
    if n == 0 {
    } else {
      WatchIsHistory(c, ss, es, n - 1);
      StepOf(c, ss, es, n - 1);
      assert es[..n][..n - 1] == es[..n - 1];
    }
  }

  // ---------------------------------------------------------------- imports serialise

  ghost predicate AcquiresAt(ss: seq<State>, es: seq<Event>, k: nat, r: RequestId)
    requires k < |es| < |ss|
  {
    Acquires(ss[k], es[k]) && Subject(es[k]) == r
  }

  ghost predicate DropsAt(ss: seq<State>, es: seq<Event>, k: nat, r: RequestId, res: Resource)
    requires k < |es| < |ss|
  {
    Drops(ss[k], es[k], res) && Subject(es[k]) == r
  }

  /** Whoever holds the guard acquired it at some event and has not dropped it since. */
  ghost predicate HoldingSince(ss: seq<State>, es: seq<Event>, i: nat, n: nat, r: RequestId)
    requires n <= |es| < |ss|
  {
    && i < n
    && AcquiresAt(ss, es, i, r)
    && (forall k: nat | i < k < n :: !DropsAt(ss, es, k, r, LockGuard))
    && (forall k: nat | i < k <= n :: ss[k].locked && Holds(ss[k], r, LockGuard))
  }

  lemma HoldingStepOf(c: Config, ss: seq<State>, es: seq<Event>, n: nat, r: RequestId)
    requires c.design.innerFirst && IsRun(c, ss, es) && n < |es|
    ensures Holds(ss[n + 1], r, LockGuard) <==>
            AcquiresAt(ss, es, n, r) || (Holds(ss[n], r, LockGuard) && !DropsAt(ss, es, n, r, LockGuard))
    ensures Holds(ss[n + 1], r, LockGuard) ==> ss[n + 1].locked
  {
    StepOf(c, ss, es, n);
    InvAlways(c, ss, es, n);
    InvAlways(c, ss, es, n + 1);
    HoldingStep(c, ss[n], es[n], r, LockGuard);
  }

  lemma {:induction false} HolderAcquired(c: Config, ss: seq<State>, es: seq<Event>, n: nat, r: RequestId)
    returns (i: nat)
    requires c.design.innerFirst && IsRun(c, ss, es) && n <= |es| && Holds(ss[n], r, LockGuard)
    ensures HoldingSince(ss, es, i, n, r)
  {
    HoldingStepOf(c, ss, es, n - 1, r);
    if AcquiresAt(ss, es, n - 1, r) {
      i := n - 1;
    } else {
      i := HolderAcquired(c, ss, es, n - 1, r);
    }
  }

  /** From an acquisition up to the matching drop the lock stays with its holder. */
  lemma {:induction false} HolderKeepsLock(c: Config, ss: seq<State>, es: seq<Event>, i: nat, n: nat, r: RequestId)
    requires c.design.innerFirst && IsRun(c, ss, es) && i < n <= |es| && AcquiresAt(ss, es, i, r)
    requires forall k: nat | i < k < n :: !DropsAt(ss, es, k, r, LockGuard)
    ensures ss[n].locked && Holds(ss[n], r, LockGuard)
    decreases n
  {
    HoldingStepOf(c, ss, es, n - 1, r);
    if i == n - 1 {
    } else {
      HolderKeepsLock(c, ss, es, i, n - 1, r);
    }
  }

  /** The lock-holding intervals of two imports never overlap: between two acquisitions the first
      holder drops its guard. */
  lemma ImportsSerialise(c: Config, ss: seq<State>, es: seq<Event>, i: nat, j: nat, a: RequestId, b: RequestId)
    requires c.design.innerFirst && IsRun(c, ss, es) && i < j < |es|
    requires AcquiresAt(ss, es, i, a) && AcquiresAt(ss, es, j, b)
    ensures exists k: nat :: i < k < j && DropsAt(ss, es, k, a, LockGuard)
  {
    if forall k: nat | i < k < j :: !DropsAt(ss, es, k, a, LockGuard) {
      HolderKeepsLock(c, ss, es, i, j, a);
    }
  }

  predicate InPhase(s: State, r: RequestId, phase: Phase) {
    r < |s.requests| && s.requests[r].phase == phase
  }

  /** Trying the lock is answered 409 exactly if it happens strictly inside the interval in which another
      request holds the lock; the lock is granted whenever nobody holds it. */
  lemma RefusedIffHeld(c: Config, ss: seq<State>, es: seq<Event>, j: nat, b: RequestId)
    requires c.design.innerFirst && IsRun(c, ss, es) && j < |es| && es[j] == TryLock(b)
    ensures InPhase(ss[j + 1], b, Sending(409)) <==>
            exists i: nat, a: RequestId :: i < j && a != b && HoldingSince(ss, es, i, j, a)
    ensures InPhase(ss[j + 1], b, Fetching) <==> !ss[j].locked
  {
    StepOf(c, ss, es, j);
    InvAlways(c, ss, es, j);
    if InPhase(ss[j + 1], b, Sending(409)) {
      var a :| Holds(ss[j], a, LockGuard);
      var i := HolderAcquired(c, ss, es, j, a);
    }
    if i: nat, a: RequestId :| i < j && a != b && HoldingSince(ss, es, i, j, a) {
      assert ss[j].locked;
    }
  }

  /** In every run, a request that is being answered 409 tried the lock earlier, strictly inside the interval
      in which another request held it. */
  lemma {:induction false} ConflictOnlyDuringAnImport(c: Config, ss: seq<State>, es: seq<Event>, n: nat, b: RequestId)
    returns (j: nat, i: nat, a: RequestId)
    requires c.design.innerFirst && IsRun(c, ss, es) && n <= |es| && InPhase(ss[n], b, Sending(409))
    ensures i < j < n && es[j] == TryLock(b)
    ensures a != b && HoldingSince(ss, es, i, j, a)
    decreases n
  {
    StepOf(c, ss, es, n - 1);
    if InPhase(ss[n - 1], b, Sending(409)) {
      j, i, a := ConflictOnlyDuringAnImport(c, ss, es, n - 1, b);
    } else {
      j := n - 1;
      InvAlways(c, ss, es, j);
      a :| Holds(ss[j], a, LockGuard);
      i := HolderAcquired(c, ss, es, j, a);
    }
  }

  /** What the phase of a request says about its kind. */
  predicate PhaseFits(q: Request) {
    match q.phase
    case Probing => q.kind.AmbiguousFormat?
    case Detected => q.kind.KnownFormat? || q.kind.AmbiguousFormat?
    case Fetching => q.kind.KnownFormat? || q.kind.AmbiguousFormat?
    case Failing => q.kind.KnownFormat? || q.kind.AmbiguousFormat?
    case Sending(status) =>
      && (status == 404 <==> q.kind.UnknownPath?)
      && (status == 400 <==> q.kind.BadSource?)
      && status in {200, 400, 404, 409, 502}
    case _ => true
  }

  /** In every run a 404 tells of an unknown path and a 400 of a bad source, always and only; every other answer
      is 200, 409 or 502; and only requests whose format is not known from the path are ever probing. */
  lemma {:induction false} StatusTellsKind(c: Config, ss: seq<State>, es: seq<Event>, n: nat, r: RequestId)
    requires IsRun(c, ss, es) && n <= |es| && r < |ss[n].requests|
    ensures PhaseFits(ss[n].requests[r])
  {
    if n == 0 {
    } else {
      StepOf(c, ss, es, n - 1);
      if r < |ss[n - 1].requests| {
        StatusTellsKind(c, ss, es, n - 1, r);
      }
    }
  }

  /** Nothing but its own events changes a request: whatever other requests do, in particular being
      rejected, its delivered bytes, its phase and what it owns stay as they are. */
  lemma {:induction false} OthersLeaveARequestAlone(c: Config, ss: seq<State>, es: seq<Event>, i: nat, n: nat,
                                                    a: RequestId)
    requires IsRun(c, ss, es) && i <= n <= |es| && a < |ss[i].requests|
    requires forall k: nat | i <= k < n :: Subject(es[k]) != a
    ensures a < |ss[n].requests| && ss[n].requests[a] == ss[i].requests[a]
    decreases n - i
  {
    if i == n {
    } else {
      OthersLeaveARequestAlone(c, ss, es, i, n - 1, a);
      StepOf(c, ss, es, n - 1);
    }
  }

  // ---------------------------------------------------------------- no leaks

  function Acquisitions(ss: seq<State>, es: seq<Event>, r: RequestId): nat
    requires |ss| >= |es|
  {
    if es == [] then 0
    else
      var e := es[|es| - 1];
      Acquisitions(ss, es[..|es| - 1], r) + if Acquires(ss[|es| - 1], e) && Subject(e) == r then 1 else 0
  }

  function Releases(ss: seq<State>, es: seq<Event>, r: RequestId, res: Resource): nat
    requires |ss| >= |es|
  {
    if es == [] then 0
    else
      var e := es[|es| - 1];
      Releases(ss, es[..|es| - 1], r, res) + if Drops(ss[|es| - 1], e, res) && Subject(e) == r then 1 else 0
  }

  predicate BeforeLock(p: Phase) {
    p.Validating? || p.Probing? || p.Detected?
  }

  /** A request in front of the lock was there one step earlier, or has just entered. */
  lemma BeforeLockStep(c: Config, s: State, e: Event, r: RequestId)
    requires Enabled(c, s, e)
    ensures r < |Next(c, s, e).requests| && BeforeLock(Next(c, s, e).requests[r].phase) ==>
            !(Acquires(s, e) && Subject(e) == r) && (r < |s.requests| ==> BeforeLock(s.requests[r].phase))
    ensures Acquires(s, e) && Subject(e) == r ==> r < |s.requests| && BeforeLock(s.requests[r].phase)
    ensures |s.requests| <= |Next(c, s, e).requests|
    ensures r < |Next(c, s, e).requests| && r >= |s.requests| ==> e.Enter? && r == |s.requests|
  {
  }

  /** Bookkeeping of one request over a run. */
  ghost predicate Balanced(ss: seq<State>, es: seq<Event>, n: nat, r: RequestId)
    requires n <= |es| < |ss|
  {
    var guards := Acquisitions(ss, es[..n], r);
    && guards <= 1
    && Releases(ss, es[..n], r, LockGuard) == guards - (if Holds(ss[n], r, LockGuard) then 1 else 0)
    && Releases(ss, es[..n], r, ActivityToken)
         == (if r < |ss[n].requests| && !Holds(ss[n], r, ActivityToken) then 1 else 0)
    && (r < |ss[n].requests| && BeforeLock(ss[n].requests[r].phase) ==> guards == 0)
    && (r >= |ss[n].requests| ==> guards == 0)
  }

  lemma {:induction false} BalanceAlways(c: Config, ss: seq<State>, es: seq<Event>, n: nat, r: RequestId)
    requires c.design.innerFirst && IsRun(c, ss, es) && n <= |es|
    ensures Balanced(ss, es, n, r)
  {
    if n == 0 {
    } else {
      BalanceAlways(c, ss, es, n - 1, r);
      StepOf(c, ss, es, n - 1);
      InvAlways(c, ss, es, n - 1);
      HoldingStep(c, ss[n - 1], es[n - 1], r, LockGuard);
      HoldingStep(c, ss[n - 1], es[n - 1], r, ActivityToken);
      BeforeLockStep(c, ss[n - 1], es[n - 1], r);
      assert es[..n][..n - 1] == es[..n - 1];
    }
  }

  /** However each request ended, once all have ended the lock is free, the counter is zero, every
      token was dropped exactly once and every guard exactly as often as it was acquired, which is at
      most once. */
  lemma NoLeaks(c: Config, ss: seq<State>, es: seq<Event>)
    requires c.design.innerFirst && IsRun(c, ss, es) && AllEnded(ss[|es|])
    ensures !ss[|es|].locked && ss[|es|].watch.value == 0
    ensures forall r: nat | r < |ss[|es|].requests| ::
              && Releases(ss, es, r, ActivityToken) == 1
              && Releases(ss, es, r, LockGuard) == Acquisitions(ss, es, r) <= 1
  {
    var n := |es|;
    InvAlways(c, ss, es, n);
    CountZero(ss[n].requests, ActivityToken);
    assert es[..n] == es;
    forall r: nat | r < |ss[n].requests|
      ensures && Releases(ss, es, r, ActivityToken) == 1
              && Releases(ss, es, r, LockGuard) == Acquisitions(ss, es, r) <= 1
    {
      BalanceAlways(c, ss, es, n, r);
    }
  }

  // ---------------------------------------------------------------- shutdown

  /** Why the process stopped serving: a signal, or, only when socket-activated, an idle window. */
  ghost predicate LeftServing(c: Config, ss: seq<State>, es: seq<Event>, q: nat)
    requires q < |es| < |ss|
  {
    && ss[q].process.Serving? && ss[q + 1].process.Draining?
    && ( || (es[q].StartDrain? && exists k: nat :: k < q && es[k].Signal?)
         || (c.activated && es[q].PollIdle? && exists p: nat :: p < q && QuietWindow(c, ss, es, p, q)))
  }

  lemma {:induction false} SignalledByEvent(c: Config, ss: seq<State>, es: seq<Event>, n: nat) returns (k: nat)
    requires IsRun(c, ss, es) && n <= |es| && ss[n].signalled
    ensures k < n && es[k].Signal?
  {
    StepOf(c, ss, es, n - 1);
    if ss[n - 1].signalled {
      k := SignalledByEvent(c, ss, es, n - 1);
    } else {
      k := n - 1;
    }
  }

  lemma {:induction false} NotServingHasReason(c: Config, ss: seq<State>, es: seq<Event>, n: nat) returns (q: nat)
    requires c.design == THE_DESIGN && IsRun(c, ss, es) && n <= |es| && !ss[n].process.Serving?
    ensures q < n && LeftServing(c, ss, es, q)
  {
    StepOf(c, ss, es, n - 1);
    if !ss[n - 1].process.Serving? {
      q := NotServingHasReason(c, ss, es, n - 1);
    } else {
      q := n - 1;
      if es[q].StartDrain? {
        var k := SignalledByEvent(c, ss, es, q);
      } else {
        var p := ReturnNeedsQuietWindow(c, ss, es, q);
      }
    }
  }

  /** A process that was not socket-activated never leaves serving without a signal. */
  lemma StandaloneNeedsASignal(c: Config, ss: seq<State>, es: seq<Event>, n: nat)
    requires c.design == THE_DESIGN && !c.activated && IsRun(c, ss, es) && n <= |es|
    requires forall k: nat | k < n :: !es[k].Signal?
    ensures ss[n].process.Serving?
  {
    if !ss[n].process.Serving? {
      var q := NotServingHasReason(c, ss, es, n);
    }
  }

  lemma ExitDrains(c: Config, ss: seq<State>, es: seq<Event>, n: nat)
    requires c.design == THE_DESIGN && IsRun(c, ss, es) && n <= |es| && ss[n].process.Exited?
    ensures AllEnded(ss[n])
  {
    StepOf(c, ss, es, n - 1);
    if ss[n - 1].process.Exited? {
      assert false;
    }
  }

  /** When the process has exited it had a reason to stop serving, every request that ever entered has
      ended, nothing is held, and each token and guard was released exactly once. */
  lemma ExitIsClean(c: Config, ss: seq<State>, es: seq<Event>) returns (q: nat)
    requires c.design == THE_DESIGN && IsRun(c, ss, es) && ss[|es|].process.Exited?
    ensures q < |es| && LeftServing(c, ss, es, q)
    ensures AllEnded(ss[|es|]) && !ss[|es|].locked && ss[|es|].watch.value == 0
    ensures forall r: nat | r < |ss[|es|].requests| ::
              && Releases(ss, es, r, ActivityToken) == 1
              && Releases(ss, es, r, LockGuard) == Acquisitions(ss, es, r)
  {
    q := NotServingHasReason(c, ss, es, |es|);
    ExitDrains(c, ss, es, |es|);
    NoLeaks(c, ss, es);
  }
}
