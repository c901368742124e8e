/** The request, import-lock and idle-exit protocol as a transition system.

    Requests are interleaved tasks on a single-threaded runtime, so one event is one indivisible
    piece of work between two suspension points, or finer: every drop is split into the single
    resources it releases.  Finer steps only add interleavings, so what holds here of every run
    holds of the runs in which several steps happen in one poll. */
module Protocol {
  import opened Basics

  /** The idle timeout is at least one unit: zero is replaced by the default at start-up. */
  type Timeout = t: nat | t > 0 witness 60

  type RequestId = nat

  /** What the owner of a request releases when it is dropped. */
  datatype Resource = LockGuard | ActivityToken

  /** What validation will find out about a request. */
  datatype Kind = UnknownPath | BadSource | KnownFormat | AmbiguousFormat

  datatype Phase =
    | Validating             // the token is taken, the handler has not looked at the request yet
    | Probing                // suspended in the HEAD probe
    | Detected               // the format is known, the import lock is tried next
    | Fetching               // the lock guard is held, suspended until the upstream headers arrive
    | Failing                // the upstream failed: the guard is being dropped on the error path
    | Sending(status: nat)   // the response body is in the hands of the connection
    | Unwinding              // the handler or the body is being dropped, one resource at a time
    | Ended

  /** `owned` lists what is still to be released, in the order in which it will be dropped. */
  datatype Request = Request(kind: Kind, phase: Phase, owned: seq<Resource>, delivered: Bytes)

  /** The watch channel: its current value, and a version that every modification bumps. */
  datatype Watch = Watch(value: int, version: nat)

  /** The idle task between two polls.  `seen` is what the receiver observed last. */
  datatype Idle = NotPolled | Window(seen: int, deadline: nat) | Waiting(seen: int) | Returned

  datatype Process = Serving | Draining | Exited

  /** Three decisions of the code on which its guarantees rest.  The code is `Design(true, true, true)`.
      innerFirst: the tracked body drops its inner body before its activity token.
      biased:     the idle task looks at the change notification before it looks at the timer.
      byVersion:  a change is recognised by the version, not by comparing values. */
  datatype Design = Design(innerFirst: bool, biased: bool, byVersion: bool)

  const THE_DESIGN := Design(true, true, true)

  datatype Config = Config(activated: bool, timeout: Timeout, design: Design)

  datatype State = State(
    requests: seq<Request>,
    locked: bool,
    watch: Watch,
    idle: Idle,
    now: nat,
    signalled: bool,
    process: Process)

  datatype Ending = Completed | StreamError | Disconnected | Cancelled

  datatype Event =
    | Enter(kind: Kind)
    | Validate(r: RequestId)
    | ProbeDone(r: RequestId, ok: bool)
    | TryLock(r: RequestId)
    | FetchDone(r: RequestId, ok: bool)
    | Emit(r: RequestId, chunk: Bytes)
    | End(r: RequestId, why: Ending)
    | Release(r: RequestId)
    | Tick(elapsed: nat)
    | PollIdle(sleepFirst: bool)
    | Signal
    | StartDrain
    | Exit

  const INIT := State([], false, Watch(0, 0), NotPolled, 0, false, Serving)

  // ---------------------------------------------------------------- the watch channel

  function Entered(w: Watch): Watch {
    Watch(w.value + 1, w.version + 1)
  }

  function Left(w: Watch): Watch {
    Watch(w.value - 1, w.version + 1)
  }

  /** What a receiver compares with its last observation. */
  function Stamp(d: Design, w: Watch): int {
    if d.byVersion then w.version else w.value
  }

  // ---------------------------------------------------------------- the idle task

  /** One turn at the top of the loop: observe the counter, then open a window or wait for a change. */
  function Observe(c: Config, w: Watch, now: nat): Idle {
    if w.value == 0 then Window(Stamp(c.design, w), now + c.timeout) else Waiting(Stamp(c.design, w))
  }

  /** One poll of the idle task.  `sleepFirst` is the branch order an unbiased `select!` picked. */
  function Polled(c: Config, w: Watch, idle: Idle, now: nat, sleepFirst: bool): Idle {
    match idle
    case NotPolled => Observe(c, w, now)
    case Window(seen, deadline) =>
      if sleepFirst && now >= deadline then Returned
      else if Stamp(c.design, w) != seen then Observe(c, w, now)
      else if now >= deadline then Returned
      else idle
    case Waiting(seen) =>
      if Stamp(c.design, w) != seen then Observe(c, w, now) else idle
    case Returned => Returned
  }

  // ---------------------------------------------------------------- requests

  function Status(k: Kind): nat
    requires k.UnknownPath? || k.BadSource?
  {
    if k.UnknownPath? then 404 else 400
  }

  function Validated(k: Kind): Phase {
    match k
    case UnknownPath => Sending(Status(k))
    case BadSource => Sending(Status(k))
    case KnownFormat => Detected
    case AmbiguousFormat => Probing
  }

  /** The fields of a tracked import body, in the order in which they are dropped. */
  function BodyFields(d: Design): seq<Resource> {
    if d.innerFirst then [LockGuard, ActivityToken] else [ActivityToken, LockGuard]
  }

  predicate MayEnd(phase: Phase, why: Ending) {
    match why
    case Completed => phase.Sending?
    case StreamError => phase == Sending(200)
    case Disconnected => phase.Sending?
    case Cancelled => phase.Probing? || phase.Fetching?
  }

  function Subject(e: Event): (r: int) {
    match e
    case Validate(r) => r
    case ProbeDone(r, _) => r
    case TryLock(r) => r
    case FetchDone(r, _) => r
    case Emit(r, _) => r
    case End(r, _) => r
    case Release(r) => r
    case _ => -1
  }

  predicate AllEnded(s: State) {
    forall r | 0 <= r < |s.requests| :: s.requests[r].phase.Ended?
  }

  // ---------------------------------------------------------------- transitions

  predicate EnabledFor(q: Request, e: Event) {
    match e
    case Validate(_) => q.phase.Validating?
    case ProbeDone(_, _) => q.phase.Probing?
    case TryLock(_) => q.phase.Detected?
    case FetchDone(_, _) => q.phase.Fetching?
    case Emit(_, _) => q.phase.Sending?
    case End(_, why) => MayEnd(q.phase, why)
    case Release(_) => (q.phase.Unwinding? || q.phase.Failing?) && q.owned != []
    case _ => false
  }

  predicate Enabled(c: Config, s: State, e: Event) {
    && s.process != Exited
    && match e
       case Enter(_) => true
       case Tick(_) => true
       case Signal => true
       case PollIdle(sleepFirst) =>
         c.activated && s.process.Serving? && !s.idle.Returned? && (c.design.biased ==> !sleepFirst)
       case StartDrain => s.process.Serving? && s.signalled
       case Exit => s.process.Draining? && AllEnded(s)
       case _ => Subject(e) < |s.requests| && EnabledFor(s.requests[Subject(e)], e)
  }

  /** What one event does to the request it is about. */
  function NextRequest(d: Design, locked: bool, q: Request, e: Event): Request
    requires EnabledFor(q, e)
  {
    match e
    case Validate(_) => q.(phase := Validated(q.kind))
    case ProbeDone(_, ok) => q.(phase := if ok then Detected else Sending(502))
    case TryLock(_) =>
      if locked then q.(phase := Sending(409))
      else q.(phase := Fetching, owned := [LockGuard] + q.owned)
    case FetchDone(_, ok) =>
      if ok then q.(phase := Sending(200), owned := BodyFields(d)) else q.(phase := Failing)
    case Emit(_, chunk) => q.(delivered := q.delivered + chunk)
    case End(_, _) => q.(phase := Unwinding)
    case Release(_) =>
      var rest := q.owned[1..];
      q.(owned := rest,
         phase := if q.phase.Failing? then Sending(502) else if rest == [] then Ended else Unwinding)
  }

  predicate Acquires(s: State, e: Event) {
    e.TryLock? && !s.locked
  }

  /** The event drops a resource of the given sort. */
  predicate Drops(s: State, e: Event, res: Resource) {
    e.Release? && e.r < |s.requests| && s.requests[e.r].owned != [] && s.requests[e.r].owned[0] == res
  }

  /** The event modifies the watch channel. */
  predicate Touches(s: State, e: Event) {
    e.Enter? || Drops(s, e, ActivityToken)
  }

  function NextWatch(s: State, e: Event): Watch {
    if e.Enter? then Entered(s.watch)
    else if Drops(s, e, ActivityToken) then Left(s.watch)
    else s.watch
  }

  function NextLocked(s: State, e: Event): bool {
    if Acquires(s, e) then true
    else if Drops(s, e, LockGuard) then false
    else s.locked
  }

  function NextRequests(c: Config, s: State, e: Event): seq<Request>
    requires Enabled(c, s, e)
  {
    if e.Enter? then s.requests + [Request(e.kind, Validating, [ActivityToken], [])]
    else if Subject(e) < 0 then s.requests
    else s.requests[Subject(e) := NextRequest(c.design, s.locked, s.requests[Subject(e)], e)]
  }

  function NextIdle(c: Config, s: State, e: Event): Idle {
    if e.PollIdle? then Polled(c, s.watch, s.idle, s.now, e.sleepFirst) else s.idle
  }

  /** The shutdown future is a race of the signal and the idle task; when either is done, serving
      turns into draining in the same poll. */
  function NextProcess(c: Config, s: State, e: Event): Process {
    if e.Exit? then Exited
    else if e.StartDrain? || (e.PollIdle? && NextIdle(c, s, e).Returned?) then Draining
    else s.process
  }

  function Next(c: Config, s: State, e: Event): State
    requires Enabled(c, s, e)
  {
    State(
      NextRequests(c, s, e),
      NextLocked(s, e),
      NextWatch(s, e),
      NextIdle(c, s, e),
      if e.Tick? then s.now + e.elapsed else s.now,
      s.signalled || e.Signal?,
      NextProcess(c, s, e))
  }

  /** Perform events one after the other, as long as they are enabled. */
  function Perform(c: Config, s: State, es: seq<Event>): Option<State>
    decreases |es|
  {
    if es == [] then Some(s)
    else if !Enabled(c, s, es[0]) then None
    else Perform(c, Next(c, s, es[0]), es[1..])
  }

  // ---------------------------------------------------------------- runs

  ghost predicate StepAt(c: Config, ss: seq<State>, es: seq<Event>, k: nat)
    requires k < |es| < |ss|
  {
    Enabled(c, ss[k], es[k]) && ss[k + 1] == Next(c, ss[k], es[k])
  }

  /** `ss` are the states of a run from the start of the process and `es` the events between them. */
  ghost predicate IsRun(c: Config, ss: seq<State>, es: seq<Event>) {
    && |ss| == |es| + 1
    && ss[0] == INIT
    && forall k: nat | k < |es| :: StepAt(c, ss, es, k)
  }
}
