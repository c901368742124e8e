/** Any number of overlapping responses on the shared objects.  Handlers run to their answer one at a time;
    the bodies they return live on, are polled in any order, and are dropped in any order. */
module Overlap {
  import opened Basics
  import opened AppState
  import opened Stream
  import opened Lifecycle
  import H = Handler
  import P = Pipeline
  import T = Protocol

  /** The shared objects and the live bodies. */
  datatype Scene<!S> = Scene(activity: Activity, lock: ImportLock, bodies: set<ActiveBody<S>>)

  /** One of the bodies is an image. */
  ghost predicate SomeImage<S>(bodies: set<ActiveBody<S>>) {
    exists b :: b in bodies && b.inner.ImageBody?
  }

  /** The lock, as far as the body has to do with it. */
  ghost function LockOf<S>(b: ActiveBody<S>): set<object> {
    if b.inner.ImageBody? then {b.inner.stream.guard.lock} else {}
  }

  /** The objects of a body that nobody shares. */
  ghost function Own<S>(b: ActiveBody<S>): set<object>
    reads if b.inner.ImageBody? then {b.inner.stream.inner} else {}
  {
    b.inner.Footprint() + {b, b.guard} - LockOf(b)
  }

  ghost predicate Belongs<S>(activity: Activity, lock: ImportLock, b: ActiveBody<S>)
    reads b, b.guard, b.guard.activity, b.inner.Footprint(), if b.inner.ImageBody? then {b.inner.stream.inner} else {}
  {
    && b.Valid()
    && b.guard.activity == activity
    && LockOf(b) <= {lock}
    && Own(b) !! {activity, lock}
  }

  /** Two bodies share nothing of their own, and at most one of them has the lock. */
  ghost predicate Apart<S>(a: ActiveBody<S>, b: ActiveBody<S>)
    reads if a.inner.ImageBody? then {a.inner.stream.inner} else {}
    reads if b.inner.ImageBody? then {b.inner.stream.inner} else {}
  {
    Own(a) !! Own(b) && !(a.inner.ImageBody? && b.inner.ImageBody?)
  }

  ghost predicate Tidy<S>(x: Scene<S>)
    reads *
  {
    && (forall b | b in x.bodies :: Belongs(x.activity, x.lock, b))
    && (forall a, b | a in x.bodies && b in x.bodies && a != b :: Apart(a, b))
  }

  /** The counter is the number of live bodies, and the lock is held exactly if one of them is an image. */
  ghost predicate Coherent<S>(x: Scene<S>)
    reads *
  {
    && Tidy(x)
    && x.activity.active == |x.bodies|
    && (x.lock.locked <==> SomeImage(x.bodies))
  }

  /** The body has the same objects as before, and says the same. */
  twostate predicate AsBefore<S>(b: ActiveBody<S>)
    reads *
  {
    && Own(b) == old(Own(b))
    && old(b.inner.Valid()) && b.inner.Valid()
    && b.inner.View() == old(b.inner.View())
  }

  twostate predicate OwnUntouched<S>(b: ActiveBody<S>)
    reads *
  {
    unchanged(old(Own(b)))
  }

  twostate lemma StaysValid<S>(b: ActiveBody<S>)
    requires old(b.Valid()) && b.guard.activity.active > 0
    requires OwnUntouched(b) && (b.inner.ImageBody? ==> b.inner.stream.guard.lock.locked)
    ensures b.Valid() && AsBefore(b)
  {
  }

  /** If nothing of their own is touched and the lock stays with its holder, the bodies stay tidy. */
  twostate lemma StaysTidy<S>(x: Scene<S>)
    requires old(Tidy(x))
    requires x.bodies != {} ==> x.activity.active > 0
    requires SomeImage(x.bodies) ==> x.lock.locked
    requires forall b | b in x.bodies :: OwnUntouched(b)
    ensures Tidy(x) && forall b | b in x.bodies :: AsBefore(b)
  {
    forall b | b in x.bodies ensures b.Valid() && AsBefore(b) {
      assert old(Belongs(x.activity, x.lock, b));
      hide Apart, Own, OwnUntouched;
      StaysValid(b);
    }
    forall a, b | a in x.bodies && b in x.bodies && a != b ensures Apart(a, b) {
      assert old(Apart(a, b)) && AsBefore(a) && AsBefore(b);
      hide Own, Belongs;
    }
    hide Apart, Own;
  }

  lemma OwnIsAllocated<S>(b: ActiveBody<S>)
    ensures forall o | o in Own(b) :: allocated(o)
  {
  }

  /** The part of a body's objects that never changes. */
  ghost function Fixed<S>(b: ActiveBody<S>): set<object> {
    {b, b.guard} + if b.inner.ImageBody? then {b.inner.stream, b.inner.stream.guard} else {}
  }

  lemma OwnObjects<S>(activity: Activity, lock: ImportLock, b: ActiveBody<S>)
    requires b.Valid() && b.guard.activity == activity
    requires LockOf(b) <= {lock} && {activity, lock} !! b.inner.Repr()
    ensures Belongs(activity, lock, b) && Own(b) == b.inner.Repr() + Fixed(b)
  {
  }

  /** A new body belongs to the process and has objects of its own. */
  method Admit<S>(activity: Activity, codec: P.Codec<S>, lock: ImportLock, route: H.Route, probe: H.Probe,
                  upstream: Fetched, textOf: H.ProxyError -> Bytes)
    returns (status: nat, body: ActiveBody<S>)
    modifies activity, lock
    ensures status == H.Verdict(H.KindOf(route), probe.Headers?, old(lock.locked), upstream.Connected?)
    ensures Belongs(activity, lock, body) && fresh(Own(body)) && fresh(body)
    ensures body.inner.View() == BodyOf(codec, route, probe, old(lock.locked), upstream, textOf)
    ensures body.inner.ImageBody? <==> status == 200
    ensures body.inner.ImageBody? ==> !old(lock.locked)
    ensures lock.locked <==> old(lock.locked) || body.inner.ImageBody?
    ensures activity.active == old(activity.active) + 1
  {
    H.AcceptedIffFree(route, probe, lock.locked, upstream);
    hide BodyOf, H.KindOf, H.Verdict;
    status, body := Track(activity, codec, lock, route, probe, upstream, textOf);
    OwnObjects(activity, lock, body);
    assert fresh(Own(body)) by {
      hide Belongs, Own;
    }
  }

  /** A request arrives while any bodies are alive. */
  method Arrive<S>(ghost bodies: set<ActiveBody<S>>, activity: Activity, codec: P.Codec<S>, lock: ImportLock,
                   route: H.Route, probe: H.Probe, upstream: Fetched, textOf: H.ProxyError -> Bytes)
    returns (status: nat, body: ActiveBody<S>)
    requires Coherent(Scene(activity, lock, bodies))
    modifies activity, lock
    ensures Coherent(Scene(activity, lock, bodies + {body})) && body !in bodies
    ensures status == H.Verdict(H.KindOf(route), probe.Headers?, SomeImage(bodies), upstream.Connected?)
    ensures body.inner.Valid() && body.inner.View() == BodyOf(codec, route, probe, SomeImage(bodies), upstream, textOf)
    ensures body.inner.ImageBody? <==> status == 200
    ensures forall b | b in bodies :: AsBefore(b)
  {
    ghost var others := Scene(activity, lock, bodies);
    forall b | b in bodies ensures Own(b) !! {activity, lock} && forall o | o in Own(b) :: allocated(o) {
      OwnIsAllocated(b);
      assert Belongs(activity, lock, b);
    }
    hide BodyOf, H.KindOf, H.Verdict, Tidy, Belongs, Own;
    status, body := Admit(activity, codec, lock, route, probe, upstream, textOf);
    StaysTidy(others);
    assert body.inner.Valid() by {
      BelongingIsValid(activity, lock, body);
    }
    forall b | b in bodies ensures Apart(body, b) {
      assert AsBefore(b);
    }
    hide AsBefore;
    assert |bodies + {body}| == |bodies| + 1;
    TidyWith(others, body);
  }

  lemma BelongingIsValid<S>(activity: Activity, lock: ImportLock, b: ActiveBody<S>)
    requires Belongs(activity, lock, b)
    ensures b.Valid() && b.inner.Valid()
    ensures b.inner.Repr() <= Own(b) && Touched(b) <= Own(b) + {activity, lock}
  {
  }

  lemma TidyWith<S>(x: Scene<S>, body: ActiveBody<S>)
    requires Tidy(x)
    requires Belongs(x.activity, x.lock, body)
    requires forall b | b in x.bodies :: Apart(body, b)
    ensures Tidy(x.(bodies := x.bodies + {body}))
  {
    hide Belongs, Own;
  }

  /** What dropping a body modifies. */
  ghost function Touched<S>(body: ActiveBody<S>): set<object> {
    {body.guard, body.guard.activity}
    + if body.inner.ImageBody? then {body.inner.stream.guard, body.inner.stream.guard.lock} else {}
  }

  ghost predicate OutOfReach<S>(body: ActiveBody<S>, b: ActiveBody<S>)
    reads if body.inner.ImageBody? then {body.inner.stream.inner} else {}
    reads if b.inner.ImageBody? then {b.inner.stream.inner} else {}
  {
    && Apart(body, b)
    && Own(b) !! body.inner.Repr() + Touched(body)
  }

  /** What is known of the other bodies before something is done to one. */
  lemma OthersAreOutOfReach<S>(x: Scene<S>, body: ActiveBody<S>)
    requires Tidy(x) && body in x.bodies
    ensures Belongs(x.activity, x.lock, body) && body.Valid() && body.inner.Valid()
    ensures body.guard.activity == x.activity && LockOf(body) <= {x.lock} && body.inner.Repr() !! {x.activity, x.lock}
    ensures Tidy(x.(bodies := x.bodies - {body}))
    ensures Own(body) == body.inner.Repr() + Fixed(body)
    ensures forall b | b in x.bodies - {body} :: OutOfReach(body, b) && forall o | o in Own(b) :: allocated(o)
  {
    BelongingIsValid(x.activity, x.lock, body);
    OwnObjects(x.activity, x.lock, body);
    forall b | b in x.bodies - {body} ensures OutOfReach(body, b) && forall o | o in Own(b) :: allocated(o) {
      assert Apart(body, b) && Belongs(x.activity, x.lock, b);
      OwnIsAllocated(b);
    }
    hide OutOfReach, Apart;
  }

  lemma ImagesWithout<S>(x: Scene<S>, body: ActiveBody<S>)
    requires Tidy(x) && body in x.bodies
    ensures if body.inner.ImageBody? then SomeImage(x.bodies) && !SomeImage(x.bodies - {body})
            else SomeImage(x.bodies) <==> SomeImage(x.bodies - {body})
  {
    if b :| b in x.bodies && b.inner.ImageBody? && b != body {
      assert Apart(body, b);
      assert b in x.bodies - {body};
    }
  }

  /** Any of the bodies is polled. */
  method Poll<S>(ghost bodies: set<ActiveBody<S>>, activity: Activity, lock: ImportLock, body: ActiveBody<S>,
                 reserve: Positive)
    returns (frame: P.Polled)
    requires Coherent(Scene(activity, lock, bodies)) && body in bodies
    modifies body.inner.Repr()
    ensures Coherent(Scene(activity, lock, bodies))
    ensures old(body.inner.Valid()) && body.inner.Valid()
    ensures (body.inner.View(), frame) == PollBody(old(body.inner.View()), reserve)
    ensures forall b | b in bodies - {body} :: AsBefore(b)
  {
    ghost var others := Scene(activity, lock, bodies - {body});
    hide PollBody, Tidy, Belongs, Own;
    OthersAreOutOfReach(Scene(activity, lock, bodies), body);
    frame := body.PollFrame(reserve);
    StaysTidy(others);
    OwnObjects(activity, lock, body);
    forall b | b in others.bodies ensures Apart(body, b) {
      assert AsBefore(b);
    }
    TidyWith(others, body);
    assert others.bodies + {body} == bodies;
  }

  method Release<S>(activity: Activity, lock: ImportLock, body: ActiveBody<S>) returns (reported: Option<nat>)
    requires body.Valid() && body.guard.activity == activity && LockOf(body) <= {lock}
    modifies Touched(body)
    ensures reported == SentOf(old(body.inner.View()))
    ensures activity.active == old(activity.active) - 1
    ensures lock.locked <==> old(lock.locked) && !body.inner.ImageBody?
  {
    hide SentOf;
    reported := body.Drop();
  }

  /** Any of the bodies is dropped. */
  method Leave<S>(ghost bodies: set<ActiveBody<S>>, activity: Activity, lock: ImportLock, body: ActiveBody<S>)
    returns (reported: Option<nat>)
    requires Coherent(Scene(activity, lock, bodies)) && body in bodies
    modifies Touched(body)
    ensures Coherent(Scene(activity, lock, bodies - {body}))
    ensures old(body.inner.Valid()) && reported == SentOf(old(body.inner.View()))
    ensures forall b | b in bodies - {body} :: AsBefore(b)
  {
    ghost var others := Scene(activity, lock, bodies - {body});
    assert |others.bodies| == |bodies| - 1 && (others.bodies != {} ==> |others.bodies| > 0);
    hide SentOf, Tidy, Belongs, Own, AsBefore, Apart, SomeImage;
    OthersAreOutOfReach(Scene(activity, lock, bodies), body);
    ImagesWithout(Scene(activity, lock, bodies), body);
    assert forall b | b in others.bodies :: Own(b) !! Touched(body);
    hide OutOfReach, Touched;
    reported := Release(activity, lock, body);
    forall b | b in others.bodies ensures OwnUntouched(b) {
      assert old(Own(b) !! Touched(body));
    }
    hide OwnUntouched;
    StaysTidy(others);
  }
}
