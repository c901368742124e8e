/** What every reachable state of the protocol satisfies, between any two drops. */
module ProtocolInvariants {
  import opened Protocol

  function CountHolding(qs: seq<Request>, res: Resource): nat {
    if qs == [] then 0
    else CountHolding(qs[..|qs| - 1], res) + if res in qs[|qs| - 1].owned then 1 else 0
  }

  predicate Holds(s: State, r: RequestId, res: Resource) {
    r < |s.requests| && res in s.requests[r].owned
  }

  /** What a request owns in each phase. */
  predicate OwnsByPhase(q: Request) {
    match q.phase
    case Validating => q.owned == [ActivityToken]
    case Probing => q.owned == [ActivityToken]
    case Detected => q.owned == [ActivityToken]
    case Fetching => q.owned == [LockGuard, ActivityToken]
    case Failing => q.owned == [LockGuard, ActivityToken]
    case Sending(status) => q.owned == if status == 200 then [LockGuard, ActivityToken] else [ActivityToken]
    case Unwinding => q.owned == [LockGuard, ActivityToken] || q.owned == [ActivityToken]
    case Ended => q.owned == []
  }

  /** A held lock has exactly one owner, and that owner still has its activity token. */
  ghost predicate LockWithinActivity(s: State) {
    && (s.locked <==> exists r :: Holds(s, r, LockGuard))
    && (forall a, b | Holds(s, a, LockGuard) && Holds(s, b, LockGuard) :: a == b)
    && (forall r | Holds(s, r, LockGuard) :: Holds(s, r, ActivityToken))
  }

  predicate SeenIsPast(s: State) {
    (s.idle.Window? || s.idle.Waiting?) ==> s.idle.seen <= s.watch.version
  }

  ghost predicate Inv(c: Config, s: State) {
    && (forall r | 0 <= r < |s.requests| :: OwnsByPhase(s.requests[r]))
    && LockWithinActivity(s)
    && s.watch.value == CountHolding(s.requests, ActivityToken)
    && (c.design.byVersion ==> SeenIsPast(s))
    && (s.process.Serving? ==> !s.idle.Returned?)
  }

  lemma {:induction false} CountUpdate(qs: seq<Request>, r: nat, q: Request, res: Resource)
    requires r < |qs|
    ensures CountHolding(qs[r := q], res) + (if res in qs[r].owned then 1 else 0)
         == CountHolding(qs, res) + (if res in q.owned then 1 else 0)
  {
    var n := |qs| - 1;
    if r == n {
      assert qs[r := q][..n] == qs[..n];
    } else {
      CountUpdate(qs[..n], r, q, res);
      assert qs[r := q][..n] == qs[..n][r := q];
    }
  }

  lemma {:induction false} CountPositive(qs: seq<Request>, r: nat, res: Resource)
    requires r < |qs| && res in qs[r].owned
    ensures CountHolding(qs, res) > 0
  {
    if r == |qs| - 1 {
    } else {
      CountPositive(qs[..|qs| - 1], r, res);
    }
  }

  lemma {:induction false} CountZero(qs: seq<Request>, res: Resource)
    requires forall r | 0 <= r < |qs| :: res !in qs[r].owned
    ensures CountHolding(qs, res) == 0
  {
    if qs == [] {
    } else {
      CountZero(qs[..|qs| - 1], res);
    }
  }

  lemma OwnershipStep(c: Config, s: State, e: Event)
    requires c.design.innerFirst && Inv(c, s) && Enabled(c, s, e)
    ensures forall r | 0 <= r < |Next(c, s, e).requests| :: OwnsByPhase(Next(c, s, e).requests[r])
  {
  }

  /** A request holds a guard or a token after a step exactly if the step gave it to the request, or the
      request had it and the step did not drop it. */
  lemma HoldingStep(c: Config, s: State, e: Event, r: RequestId, res: Resource)
    requires c.design.innerFirst && Inv(c, s) && Enabled(c, s, e)
    ensures Holds(Next(c, s, e), r, res) <==>
            || (res.LockGuard? && Acquires(s, e) && Subject(e) == r)
            || (res.ActivityToken? && e.Enter? && r == |s.requests|)
            || (Holds(s, r, res) && !(Drops(s, e, res) && Subject(e) == r))
  {
    var t := Next(c, s, e);
    if Subject(e) == r {
      var q, q' := s.requests[r], t.requests[r];
      assert OwnsByPhase(q);
      if e.Release? {
        assert q.owned == [q.owned[0]] + q'.owned;
      }
    }
  }

  lemma LockBit(c: Config, s: State, e: Event)
    requires c.design.innerFirst && Inv(c, s) && Enabled(c, s, e)
    ensures Next(c, s, e).locked <==> Acquires(s, e) || (s.locked && !Drops(s, e, LockGuard))
    ensures Acquires(s, e) ==> !s.locked && Subject(e) >= 0
    ensures Drops(s, e, LockGuard) ==> Subject(e) >= 0 && Holds(s, Subject(e), LockGuard)
  {
  }

  lemma HolderHasToken(s: State)
    requires forall r | 0 <= r < |s.requests| :: OwnsByPhase(s.requests[r])
    ensures forall r | Holds(s, r, LockGuard) :: Holds(s, r, ActivityToken)
  {
    assert LockGuard in [LockGuard, ActivityToken] && ActivityToken in [LockGuard, ActivityToken];
  }

  lemma LockStep(c: Config, s: State, e: Event)
    requires c.design.innerFirst && Inv(c, s) && Enabled(c, s, e)
    ensures LockWithinActivity(Next(c, s, e))
  {
    var t := Next(c, s, e);
    OwnershipStep(c, s, e);
    HolderHasToken(t);
    LockBit(c, s, e);
    forall r: RequestId {
      HoldingStep(c, s, e, r, LockGuard);
    }
    hide Next, Enabled, Acquires, Drops, Subject, Holds;
    if Acquires(s, e) {
      assert Holds(t, Subject(e), LockGuard);
    } else if t.locked {
      var h: RequestId :| Holds(s, h, LockGuard);
      assert Holds(t, h, LockGuard);
    }
  }

  lemma CountStep(c: Config, s: State, e: Event)
    requires c.design.innerFirst && Inv(c, s) && Enabled(c, s, e)
    ensures Next(c, s, e).watch.value == CountHolding(Next(c, s, e).requests, ActivityToken)
  {
    var t := Next(c, s, e);
    if e.Enter? {
      assert t.requests[..|s.requests|] == s.requests;
    } else if Subject(e) >= 0 {
      CountUpdate(s.requests, Subject(e), t.requests[Subject(e)], ActivityToken);
    }
  }

  lemma InvStep(c: Config, s: State, e: Event)
    requires c.design.innerFirst && Inv(c, s) && Enabled(c, s, e)
    ensures Inv(c, Next(c, s, e))
  {
    OwnershipStep(c, s, e);
    LockStep(c, s, e);
    CountStep(c, s, e);
  }

  /** Safety over whole runs: the invariant holds in every state of every run. */
  lemma {:induction false} InvAlways(c: Config, ss: seq<State>, es: seq<Event>, n: nat)
    requires c.design.innerFirst && IsRun(c, ss, es) && n < |ss|
    ensures Inv(c, ss[n])
  {
    if n == 0 {
    } else {
      InvAlways(c, ss, es, n - 1);
      assert StepAt(c, ss, es, n - 1);
      InvStep(c, ss[n - 1], es[n - 1]);
    }
  }

  /** The counter is positive whenever a token is about to be dropped, so the decrement of the
      unsigned counter cannot underflow, and it is zero exactly when no token is left. */
  lemma CounterNeverUnderflows(c: Config, ss: seq<State>, es: seq<Event>, n: nat)
    requires c.design.innerFirst && IsRun(c, ss, es) && n < |ss|
    ensures ss[n].watch.value >= 0
    ensures ss[n].watch.value == 0 <==> forall r :: !Holds(ss[n], r, ActivityToken)
    ensures n < |es| && Drops(ss[n], es[n], ActivityToken) ==> ss[n].watch.value >= 1
  {
    InvAlways(c, ss, es, n);
    var s := ss[n];
    if r :| Holds(s, r, ActivityToken) {
      CountPositive(s.requests, r, ActivityToken);
    } else {
      forall r | 0 <= r < |s.requests| ensures ActivityToken !in s.requests[r].owned {
        assert !Holds(s, r, ActivityToken);
      }
      CountZero(s.requests, ActivityToken);
    }
    if n < |es| && Drops(s, es[n], ActivityToken) {
      assert Holds(s, es[n].r, ActivityToken);
    }
  }

  /** A quiet counter means no import: the lock is free and nobody holds a guard. */
  lemma QuietMeansUnlocked(c: Config, ss: seq<State>, es: seq<Event>, n: nat)
    requires c.design.innerFirst && IsRun(c, ss, es) && n < |ss| && ss[n].watch.value == 0
    ensures !ss[n].locked && AllEnded(ss[n])
    ensures forall r, res :: !Holds(ss[n], r, res)
  {
    InvAlways(c, ss, es, n);
    CounterNeverUnderflows(c, ss, es, n);
    forall r | 0 <= r < |ss[n].requests| ensures ss[n].requests[r].phase.Ended? {
      assert !Holds(ss[n], r, ActivityToken);
    }
  }
}
