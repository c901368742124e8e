/** The activity counter, the idle task and the tracked response body as objects that are updated in
    place, proved against the functions of module Protocol. */
module Lifecycle {
  import opened Basics
  import opened AppState
  import opened Stream
  import H = Handler
  import P = Pipeline
  import T = Protocol

  /** The watch channel behind every clone of the activity counter. */
  class Activity {
    var active: nat
    var version: nat

    function View(): T.Watch
      reads this
    {
      T.Watch(active, version)
    }

    constructor ()
      ensures View() == T.INIT.watch
    {
      active, version := 0, 0;
    }

    method Enter() returns (token: ActiveRequest)
      modifies this
      ensures View() == T.Entered(old(View()))
      ensures fresh(token) && token.live && token.activity == this
    {
      active, version := active + 1, version + 1;
      token := new ActiveRequest(this);
    }
  }

  /** Counts as active until it is dropped. */
  class ActiveRequest {
    const activity: Activity
    var live: bool

    constructor (activity: Activity)
      ensures this.activity == activity && live
    {
      this.activity := activity;
      this.live := true;
    }

    /** The counter is positive while a token lives, see `CounterNeverUnderflows`. */
    method Drop()
      requires live && activity.active > 0
      modifies this, activity
      ensures !live && activity.View() == T.Left(old(activity.View()))
    {
      live := false;
      activity.active, activity.version := activity.active - 1, activity.version + 1;
    }
  }

  /** The idle future between two polls: the receiver's last seen version, and where it is suspended. */
  class IdleTask {
    const activity: Activity
    const timeout: T.Timeout
    var subscribed: bool
    var seen: nat
    var deadline: Option<nat>
    var returned: bool

    function View(): T.Idle
      reads this
    {
      if returned then T.Returned
      else if !subscribed then T.NotPolled
      else match deadline
        case Some(d) => T.Window(seen, d)
        case None => T.Waiting(seen)
    }

    function Config(): T.Config {
      T.Config(true, timeout, T.THE_DESIGN)
    }

    constructor (activity: Activity, timeout: T.Timeout)
      ensures this.activity == activity && this.timeout == timeout && View() == T.NotPolled
    {
      this.activity := activity;
      this.timeout := timeout;
      this.subscribed, this.returned := false, false;
      this.seen, this.deadline := 0, None;
    }

    /** One poll at time `now`: resume where the task is suspended, and go around the loop until it
        has to be suspended again or returns. */
    method Poll(now: nat) returns (ready: bool)
      requires !View().Returned?
      modifies this
      ensures View() == T.Polled(Config(), activity.View(), old(View()), now, false)
      ensures ready <==> View().Returned?
    {
      var atTop := !subscribed;
      subscribed := true;
      while true
        invariant subscribed && !returned
        invariant T.Polled(Config(), activity.View(), old(View()), now, false)
                  == if atTop then T.Observe(Config(), activity.View(), now)
                     else T.Polled(Config(), activity.View(), View(), now, false)
        decreases if atTop then 1 else if seen != activity.version then 2 else 0
      {
        if atTop {
          seen := activity.version;
          deadline := if activity.active == 0 then Some(now + timeout) else None;
          atTop := false;
        } else if seen != activity.version {
          atTop := true;
        } else if deadline.Some? && now >= deadline.value {
          returned := true;
          return true;
        } else {
          return false;
        }
      }
    }
  }

  // ---------------------------------------------------------------- the tracked body

  /** What a body still has to say: a text in one piece, or the chunks of an image. */
  datatype BodyView<!S> = TextView(left: Bytes) | ImageView(codec: P.Codec<S>, stream: P.ChunkStream<S>)

  function PollText(left: Bytes): (Bytes, P.Polled) {
    if left == [] then (left, P.End) else ([], P.Chunk(left))
  }

  function PollBody<S>(body: BodyView<S>, reserve: Positive): (BodyView<S>, P.Polled) {
    match body
    case TextView(left) =>
      var (left', frame) := PollText(left);
      (TextView(left'), frame)
    case ImageView(codec, stream) =>
      var (stream', frame) := P.PollNext(codec, stream, reserve);
      (ImageView(codec, stream'), frame)
  }

  /** The byte count of an image; texts are not counted. */
  function SentOf<S>(body: BodyView<S>): Option<nat> {
    match body
    case TextView(_) => None
    case ImageView(_, stream) => Some(stream.sent)
  }

  /** The body of an error answer. */
  class TextChunk {
    var left: Bytes

    constructor (text: Bytes)
      ensures left == text
    {
      left := text;
    }

    method PollNext() returns (frame: P.Polled)
      modifies this
      ensures (left, frame) == PollText(old(left))
    {
      if left == [] {
        return P.End;
      }
      frame := P.Chunk(left);
      left := [];
    }
  }

  datatype Body<!S> = TextBody(chunk: TextChunk) | ImageBody(stream: GuardedStream<S>) {
    /** The objects that a poll may change. */
    ghost function Repr(): set<object>
      reads if ImageBody? then {stream.inner} else {}
    {
      match this
      case TextBody(chunk) => {chunk}
      case ImageBody(stream) => stream.inner.Repr()
    }

    /** All objects on which the body depends. */
    ghost function Footprint(): set<object>
      reads if ImageBody? then {stream.inner} else {}
    {
      Repr() + if ImageBody? then {stream, stream.guard, stream.guard.lock} else {}
    }

    ghost predicate Valid()
      reads Footprint(), if ImageBody? then {stream.inner} else {}
    {
      ImageBody? ==> stream.Valid() && {stream, stream.guard, stream.guard.lock} !! Repr()
    }

    ghost function View(): BodyView<S>
      requires Valid()
      reads Footprint(), if ImageBody? then {stream.inner} else {}
    {
      match this
      case TextBody(chunk) => TextView(chunk.left)
      case ImageBody(stream) => ImageView(stream.inner.codec, stream.inner.View())
    }
  }

  /** The response body as the connection sees it.  The fields are dropped in the order of declaration:
      first the inner body, and with it the lock, then the activity token. */
  class ActiveBody<S> {
    const inner: Body<S>
    const guard: ActiveRequest

    ghost predicate Valid()
      reads this, guard, guard.activity, inner.Footprint(), if inner.ImageBody? then {inner.stream.inner} else {}
    {
      && guard.live
      && guard.activity.active > 0
      && inner.Valid()
      && {this, guard, guard.activity} !! inner.Repr()
    }

    constructor (inner: Body<S>, guard: ActiveRequest)
      requires guard.live && guard.activity.active > 0
      requires inner.Valid() && {guard, guard.activity} !! inner.Repr()
      ensures Valid() && this.inner == inner && this.guard == guard
      ensures inner.View() == old(inner.View())
    {
      this.inner := inner;
      this.guard := guard;
    }

    /** Frames are passed through as the inner body produces them. */
    method PollFrame(reserve: Positive) returns (frame: P.Polled)
      requires Valid()
      modifies inner.Repr()
      ensures Valid() && fresh(inner.Repr() - old(inner.Repr()))
      ensures (inner.View(), frame) == PollBody(old(inner.View()), reserve)
    {
      match inner {
        case TextBody(chunk) => frame := chunk.PollNext();
        case ImageBody(stream) => frame := stream.PollNext(reserve);
      }
    }

    /** Between the drops of the two fields: the lock of an image is free already, and the request still
        counts as active. */
    ghost predicate InnerIsGone()
      reads this, guard, guard.activity, if inner.ImageBody? then {inner.stream.guard, inner.stream.guard.lock} else {}
    {
      && guard.live
      && guard.activity.active > 0
      && (inner.ImageBody? ==> !inner.stream.guard.live && !inner.stream.guard.lock.locked)
    }

    /** An image reports the bytes it handed out. */
    method DropInner() returns (reported: Option<nat>)
      requires Valid()
      modifies if inner.ImageBody? then {inner.stream.guard, inner.stream.guard.lock} else {}
      ensures InnerIsGone() && reported == SentOf(old(inner.View()))
    {
      match inner {
        case TextBody(_) => reported := None;
        case ImageBody(stream) =>
          var sent := stream.Drop();
          reported := Some(sent);
      }
    }

    /** The token is only ever given back after the inner body. */
    method DropGuard()
      requires InnerIsGone()
      modifies guard, guard.activity
      ensures !guard.live && guard.activity.View() == T.Left(old(guard.activity.View()))
    {
      guard.Drop();
    }

    method Drop() returns (reported: Option<nat>)
      requires Valid()
      modifies guard, guard.activity, if inner.ImageBody? then {inner.stream.guard, inner.stream.guard.lock} else {}
      ensures !guard.live && guard.activity.View() == T.Left(old(guard.activity.View()))
      ensures inner.ImageBody? ==> !inner.stream.guard.live && !inner.stream.guard.lock.locked
      ensures reported == SentOf(old(inner.View()))
    {
      reported := DropInner();
      DropGuard();
    }
  }

  /** The body of the answer before the first poll. */
  function BodyOf<S>(codec: P.Codec<S>, route: H.Route, probe: H.Probe, locked: bool, upstream: Fetched,
                     textOf: H.ProxyError -> Bytes): BodyView<S>
  {
    match H.RefusalOf(route, probe, locked, upstream)
    case Some(error) => TextView(textOf(error))
    case None => ImageView(codec, H.ImageOf(codec, route.params, probe, upstream))
  }

  /** Track one request: it is active from before the handler runs until its body is dropped. */
  method Track<S>(activity: Activity, codec: P.Codec<S>, lock: ImportLock, route: H.Route, probe: H.Probe,
                  upstream: Fetched, textOf: H.ProxyError -> Bytes)
    returns (status: nat, body: ActiveBody<S>)
    modifies activity, lock
    ensures status == H.Verdict(H.KindOf(route), probe.Headers?, old(lock.locked), upstream.Connected?)
    ensures body.Valid() && body.inner.View() == BodyOf(codec, route, probe, old(lock.locked), upstream, textOf)
    ensures body.guard.activity == activity && activity.View() == T.Entered(old(activity.View()))
    ensures fresh(body) && fresh(body.guard) && fresh(body.inner.Repr())
    ensures body.inner.ImageBody? <==> status == 200
    ensures body.inner.ImageBody? ==>
              var s := body.inner.stream; s.guard.lock == lock && fresh(s) && fresh(s.guard)
    ensures lock.locked <==> old(lock.locked) || status == 200
  {
    var token := activity.Enter();
    var answer := H.Dispatch(codec, lock, route, probe, upstream);
    ghost var view := BodyOf(codec, route, probe, old(lock.locked), upstream, textOf);
    assert view == match answer
                   case Image(s) => ImageView(codec, s.inner.View())
                   case Problem(e) => TextView(textOf(e));
    H.ErrorsAreNot200();
    hide H.KindOf, H.ImageOf, H.StatusOf, BodyOf;
    match answer {
      case Image(stream) =>
        status := 200;
        body := new ActiveBody(ImageBody(stream), token);
      case Problem(error) =>
        status := H.StatusOf(error);
        var text := new TextChunk(textOf(error));
        body := new ActiveBody(TextBody(text), token);
    }
  }

  // ---------------------------------------------------------------- the shutdown race

  /** What ends the serving: a signal, or in a socket-activated process also the idle task. */
  class ShutdownRace {
    const activated: bool
    const idle: IdleTask

    constructor (activated: bool, idle: IdleTask)
      ensures this.activated == activated && this.idle == idle
    {
      this.activated := activated;
      this.idle := idle;
    }

    /** One poll of the race; `idleFirst` is the branch that the unbiased `select!` polls first.  Without
        activation the idle task is never polled and only a signal counts; with it, the idle task takes
        exactly one step of the protocol unless a signal has already won. */
    method Poll(signalled: bool, now: nat, idleFirst: bool) returns (ready: bool)
      requires !idle.View().Returned?
      modifies idle
      ensures ready <==> signalled || idle.View().Returned?
      ensures var polled := T.Polled(idle.Config(), idle.activity.View(), old(idle.View()), now, false);
              idle.View() == if activated && (idleFirst || !signalled) then polled else old(idle.View())
    {
      if !activated {
        return signalled;
      }
      if !idleFirst && signalled {
        return true;
      }
      var returned := idle.Poll(now);
      ready := returned || signalled;
    }
  }
}
