/** The guarantees of the protocol hold for the code's three design decisions and for no others. */
module ProtocolDesign {
  import opened Protocol
  import opened ProtocolInvariants
  import opened ProtocolTraces

  /** In every state of the run a held lock is covered by an activity token of its owner. */
  ghost predicate LockAlwaysCovered(c: Config, ss: seq<State>) {
    forall k: nat | k < |ss| :: LockWithinActivity(ss[k])
  }

  /** Every idle exit of the run follows a full window without activity. */
  ghost predicate IdleExitsAreQuiet(c: Config, ss: seq<State>, es: seq<Event>)
    requires |ss| == |es| + 1
  {
    forall q: nat | q < |es| && es[q].PollIdle? && ss[q + 1].idle.Returned? ::
      exists p: nat :: p < q && QuietWindow(c, ss, es, p, q)
  }

  /** The lock guarantee holds in every run. */
  ghost predicate CoversTheLock(d: Design, timeout: Timeout) {
    forall ss: seq<State>, es: seq<Event> | IsRun(Config(true, timeout, d), ss, es) ::
      LockAlwaysCovered(Config(true, timeout, d), ss)
  }

  /** The idle guarantee holds in every run. */
  ghost predicate ExitsQuietly(d: Design, timeout: Timeout) {
    forall ss: seq<State>, es: seq<Event> | IsRun(Config(true, timeout, d), ss, es) ::
      IdleExitsAreQuiet(Config(true, timeout, d), ss, es)
  }

  ghost predicate SafeDesign(d: Design, timeout: Timeout) {
    CoversTheLock(d, timeout) && ExitsQuietly(d, timeout)
  }

  function Importing(phase: Phase, owned: seq<Resource>, value: int, version: nat): State {
    State([Request(KnownFormat, phase, owned, [])], LockGuard in owned, Watch(value, version), NotPolled, 0, false,
        Serving)
  }

  const IMPORT_EVENTS: seq<Event> :=
    [Enter(KnownFormat), Validate(0), TryLock(0), FetchDone(0, true), End(0, Disconnected), Release(0)]

  /** An import that is cut off, with the token as the first field of its body. */
  const IMPORT_STATES: seq<State> :=
    [ INIT,
      Importing(Validating, [ActivityToken], 1, 1),
      Importing(Detected, [ActivityToken], 1, 1),
      Importing(Fetching, [LockGuard, ActivityToken], 1, 1),
      Importing(Sending(200), [ActivityToken, LockGuard], 1, 1),
      Importing(Unwinding, [ActivityToken, LockGuard], 1, 1),
      Importing(Unwinding, [LockGuard], 0, 2)]

  /** One event of the only request of a state. */
  lemma SingleStep(c: Config, s: State, e: Event, q: Request)
    requires |s.requests| == 1 && Subject(e) == 0 && Enabled(c, s, e)
    requires NextRequest(c.design, s.locked, s.requests[0], e) == q
    ensures Next(c, s, e) == s.(requests := [q], locked := NextLocked(s, e), watch := NextWatch(s, e))
  {
    assert s.requests[0 := q] == [q];
    assert NextRequests(c, s, e) == [q];
  }

  lemma ImportRequestStep(c: Config, k: nat)
    requires 0 < k < 6 && !c.design.innerFirst
    ensures EnabledFor(IMPORT_STATES[k].requests[0], IMPORT_EVENTS[k])
    ensures NextRequest(c.design, IMPORT_STATES[k].locked, IMPORT_STATES[k].requests[0], IMPORT_EVENTS[k])
            == IMPORT_STATES[k + 1].requests[0]
  {
    var s, e, t := IMPORT_STATES[k], IMPORT_EVENTS[k], IMPORT_STATES[k + 1];
    assert NextRequest(c.design, s.locked, s.requests[0], e).owned == t.requests[0].owned;
  }

  /** The lock and the watch along the import. */
  lemma ImportShared(k: nat)
    requires 0 < k < 6
    ensures NextLocked(IMPORT_STATES[k], IMPORT_EVENTS[k]) == IMPORT_STATES[k + 1].locked
    ensures NextWatch(IMPORT_STATES[k], IMPORT_EVENTS[k]) == IMPORT_STATES[k + 1].watch
  {
  }

  lemma ImportEnters(c: Config)
    ensures StepAt(c, IMPORT_STATES, IMPORT_EVENTS, 0)
  {
    assert NextRequests(c, IMPORT_STATES[0], IMPORT_EVENTS[0]) == IMPORT_STATES[1].requests;
  }

  lemma ImportStep(c: Config, k: nat)
    requires k < 6 && !c.design.innerFirst
    ensures StepAt(c, IMPORT_STATES, IMPORT_EVENTS, k)
  {
    var s, e, t := IMPORT_STATES[k], IMPORT_EVENTS[k], IMPORT_STATES[k + 1];
    if k == 0 {
      ImportEnters(c);
    } else {
      ImportRequestStep(c, k);
      ImportShared(k);
      assert t.requests == [t.requests[0]];
      assert Subject(e) == 0;
      hide NextRequest, EnabledFor, NextLocked, NextWatch;
      SingleStep(c, s, e, t.requests[0]);
      hide Next;
    }
  }

  /** If the body dropped its token before its inner body, a disconnect during an import would have a
      moment, between the two drops, in which the lock is held while nothing counts as active. */
  lemma TokenFirstIsUnsafe(d: Design, timeout: Timeout)
    requires !d.innerFirst
    ensures !CoversTheLock(d, timeout)
  {
    var c := Config(true, timeout, d);
    forall k: nat | k < 6 ensures StepAt(c, IMPORT_STATES, IMPORT_EVENTS, k) {
      ImportStep(c, k);
    }
    var last := IMPORT_STATES[6];
    assert last.requests[0].owned == [LockGuard];
    assert Holds(last, 0, LockGuard) && !Holds(last, 0, ActivityToken);
    assert IsRun(c, IMPORT_STATES, IMPORT_EVENTS) && !LockAlwaysCovered(c, IMPORT_STATES);
  }

  function Visited(c: Config, qs: seq<Request>, value: int, version: nat, now: nat): State {
    State(qs, false, Watch(value, version), Window(0, c.timeout), now, false, Serving)
  }

  function Visitor(phase: Phase): Request {
    Request(BadSource, phase, if phase.Ended? then [] else [ActivityToken], [])
  }

  function Visit(timeout: Timeout, sleepFirst: bool): seq<Event> {
    [PollIdle(false), Enter(BadSource), Validate(0), End(0, Completed), Release(0), Tick(timeout), PollIdle(sleepFirst)]
  }

  /** A request that enters after the window was opened and ends before the next poll. */
  function VisitStates(c: Config): seq<State> {
    [ INIT,
      Visited(c, [], 0, 0, 0),
      Visited(c, [Visitor(Validating)], 1, 1, 0),
      Visited(c, [Visitor(Sending(400))], 1, 1, 0),
      Visited(c, [Visitor(Unwinding)], 1, 1, 0),
      Visited(c, [Visitor(Ended)], 0, 2, 0),
      Visited(c, [Visitor(Ended)], 0, 2, c.timeout),
      Visited(c, [Visitor(Ended)], 0, 2, c.timeout).(idle := Returned, process := Draining)]
  }

  lemma VisitRequestStep(c: Config, k: nat)
    requires 2 <= k < 5
    ensures var s, e := VisitStates(c)[k], Visit(c.timeout, false)[k];
            && EnabledFor(s.requests[0], e)
            && NextRequest(c.design, s.locked, s.requests[0], e) == VisitStates(c)[k + 1].requests[0]
            && NextLocked(s, e) == VisitStates(c)[k + 1].locked && NextWatch(s, e) == VisitStates(c)[k + 1].watch
  {
  }

  lemma VisitPollStep(c: Config, sleepFirst: bool)
    requires c.activated && ((sleepFirst && !c.design.biased) || (!sleepFirst && !c.design.byVersion))
    ensures StepAt(c, VisitStates(c), Visit(c.timeout, sleepFirst), 6)
  {
  }

  lemma VisitStep(c: Config, sleepFirst: bool, k: nat)
    requires c.activated && k < 7
    requires (sleepFirst && !c.design.biased) || (!sleepFirst && !c.design.byVersion)
    ensures StepAt(c, VisitStates(c), Visit(c.timeout, sleepFirst), k)
  {
    var ss, es := VisitStates(c), Visit(c.timeout, sleepFirst);
    if k == 6 {
      VisitPollStep(c, sleepFirst);
    } else if 2 <= k < 5 {
      VisitRequestStep(c, k);
      assert ss[k + 1].requests == [ss[k + 1].requests[0]];
      assert Subject(es[k]) == 0;
      hide NextRequest, EnabledFor, NextLocked, NextWatch;
      SingleStep(c, ss[k], es[k], ss[k + 1].requests[0]);
      hide Next;
    } else {
      VisitOtherStep(c, sleepFirst, k);
    }
  }

  lemma VisitOtherStep(c: Config, sleepFirst: bool, k: nat)
    requires c.activated && (k < 2 || k == 5)
    ensures StepAt(c, VisitStates(c), Visit(c.timeout, sleepFirst), k)
  {
    assert NextRequests(c, VisitStates(c)[k], Visit(c.timeout, sleepFirst)[k]) == VisitStates(c)[k + 1].requests;
  }

  /** Such a request goes unnoticed when the timer is asked first, or when only the values are compared:
      the idle task returns although its window was broken. */
  lemma VisitIsUnsafe(d: Design, timeout: Timeout, sleepFirst: bool)
    requires (sleepFirst && !d.biased) || (!sleepFirst && !d.byVersion)
    ensures !ExitsQuietly(d, timeout)
  {
    var c := Config(true, timeout, d);
    var ss, es := VisitStates(c), Visit(timeout, sleepFirst);
    forall k: nat | k < |es| ensures StepAt(c, ss, es, k) {
      VisitStep(c, sleepFirst, k);
    }
    forall p: nat | p < 6 ensures !QuietWindow(c, ss, es, p, 6) {
      if p == 0 {
        assert Touches(ss[1], es[1]);
      }
    }
    assert es[6].PollIdle? && ss[7].idle.Returned?;
    assert IsRun(c, ss, es) && !IdleExitsAreQuiet(c, ss, es);
  }

  /** The drop order alone carries the lock guarantee, whatever the idle task does. */
  lemma LockIsCoveredIffInnerFirst(d: Design, timeout: Timeout)
    ensures CoversTheLock(d, timeout) <==> d.innerFirst
  {
    var c := Config(true, timeout, d);
    if d.innerFirst {
      forall ss: seq<State>, es: seq<Event>, k: nat | IsRun(c, ss, es) && k < |ss| ensures LockWithinActivity(ss[k]) {
        InvAlways(c, ss, es, k);
      }
    } else {
      TokenFirstIsUnsafe(d, timeout);
    }
  }

  /** The other two decisions together carry the idle guarantee, whatever the drop order. */
  lemma ExitsAreQuietIffBiasedByVersion(d: Design, timeout: Timeout)
    ensures ExitsQuietly(d, timeout) <==> d.biased && d.byVersion
  {
    var c := Config(true, timeout, d);
    if !d.biased {
      VisitIsUnsafe(d, timeout, true);
    } else if !d.byVersion {
      VisitIsUnsafe(d, timeout, false);
    } else {
      forall ss: seq<State>, es: seq<Event> | IsRun(c, ss, es) ensures IdleExitsAreQuiet(c, ss, es) {
        forall q: nat | q < |es| && es[q].PollIdle? && ss[q + 1].idle.Returned?
          ensures exists p: nat :: p < q && QuietWindow(c, ss, es, p, q)
        {
          var p := ReturnNeedsQuietWindow(c, ss, es, q);
        }
      }
    }
  }

  /** Dropping the inner body before the token, asking for changes before the timer, and comparing
      versions instead of values are together exactly what the two guarantees need: with all three every
      run is safe, and without any one of them some run is not, whatever the other two are and however
      long the timeout. */
  lemma SafeIffTheDesign(d: Design, timeout: Timeout)
    ensures SafeDesign(d, timeout) <==> d == THE_DESIGN
  {
    LockIsCoveredIffInnerFirst(d, timeout);
    ExitsAreQuietIffBiasedByVersion(d, timeout);
  }
}
