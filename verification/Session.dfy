/** One request from its arrival to the moment its body is dropped, with nothing else in between: on the
    objects, and as a run of the protocol.  Both hand out the same bytes and leave the shared state the
    same. */
module Session {
  import opened Basics
  import opened AppState
  import opened Stream
  import opened Lifecycle
  import H = Handler
  import P = Pipeline
  import R = ProtocolTraces
  import T = Protocol

  // ---------------------------------------------------------------- on the objects

  /** Polling a body repeatedly, as often as the connection likes. */
  function PollBodyAll<S>(body: BodyView<S>, reserves: seq<Positive>): (BodyView<S>, seq<P.Polled>)
    decreases |reserves|
  {
    if reserves == [] then (body, [])
    else
      var (body1, frame) := PollBody(body, reserves[0]);
      var (body2, frames) := PollBodyAll(body1, reserves[1..]);
      (body2, [frame] + frames)
  }

  lemma {:induction false} OneMorePoll<S>(body: BodyView<S>, reserves: seq<Positive>, reserve: Positive)
    ensures var (body1, frames) := PollBodyAll(body, reserves);
            var (body2, frame) := PollBody(body1, reserve);
            PollBodyAll(body, reserves + [reserve]) == (body2, frames + [frame])
    decreases |reserves|
  {
    hide PollBody;
    var all := reserves + [reserve];
    if reserves == [] {
      var nothing: seq<P.Polled> := [];
      var (body1, first) := PollBody(body, reserve);
      assert PollBodyAll(body1, all[1..]) == (body1, nothing);
      assert [first] + nothing == nothing + [first];
    } else {
      assert all[1..] == reserves[1..] + [reserve];
      var (body1, first) := PollBody(body, reserves[0]);
      OneMorePoll(body1, reserves[1..], reserve);
      var (body2, frames) := PollBodyAll(body1, reserves[1..]);
      var last := PollBody(body2, reserve).1;
      assert [first] + (frames + [last]) == ([first] + frames) + [last];
    }
  }

  /** The frames of an image are the answers of its stream. */
  lemma {:induction false} ImageFrames<S>(codec: P.Codec<S>, stream: P.ChunkStream<S>, reserves: seq<Positive>)
    ensures var (stream', frames) := P.PollAll(codec, stream, reserves);
            PollBodyAll(ImageView(codec, stream), reserves) == (ImageView(codec, stream'), frames)
    decreases |reserves|
  {
    hide P.PollNext;
    if reserves == [] {
    } else {
      ImageFrames(codec, P.PollNext(codec, stream, reserves[0]).0, reserves[1..]);
    }
  }

  /** The frames of a text are the text and then the end. */
  lemma {:induction false} TextFrames<S>(codec: P.Codec<S>, text: Bytes, reserves: seq<Positive>)
    ensures var frames := PollBodyAll<S>(TextView(text), reserves).1;
            && P.Delivered(frames) == (if reserves == [] then [] else text)
            && (P.End in frames ==> P.Delivered(frames) == text)
            && (|reserves| >= 2 ==> P.End in frames)
    decreases |reserves|
  {
    if reserves == [] {
    } else {
      var rest := PollText(text).0;
      TextFrames(codec, rest, reserves[1..]);
      var frames := PollBodyAll<S>(TextView(text), reserves).1;
      assert frames == [PollText(text).1] + PollBodyAll<S>(TextView(rest), reserves[1..]).1;
      if text != [] && |reserves| >= 2 {
        var last := PollBodyAll<S>(TextView(rest), reserves[1..]).1;
        assert last[0] == P.End;
        assert frames[1] == P.End;
      }
    }
  }

  /** What the client of an accepted image should get. */
  function Expected<S>(codec: P.Codec<S>, format: ImageFormat, items: seq<P.Item>): Bytes {
    if format.Gzip? then P.Decode(codec, P.Running(codec.start), P.Content(items)).1 else P.Content(items)
  }

  /** The bytes of a whole request: for a refusal its text, and for an image, however the network and the
      connection cut it and whenever the polling stops, a prefix of the upstream's image in the detected
      format, which is all of it at a clean end. */
  lemma SessionDelivers<S>(codec: P.Codec<S>, route: H.Route, probe: H.Probe, locked: bool, upstream: Fetched,
                           textOf: H.ProxyError -> Bytes, reserves: seq<Positive>)
    ensures var frames := PollBodyAll(BodyOf(codec, route, probe, locked, upstream, textOf), reserves).1;
            match H.RefusalOf(route, probe, locked, upstream)
            case Some(error) => P.Delivered(frames) == if reserves == [] then [] else textOf(error)
            case None =>
              var whole := Expected(codec, H.FormatOf(route.params, probe), upstream.items);
              && P.Delivered(frames) <= whole
              && (P.End in frames && !P.Failing(frames) ==> P.Delivered(frames) == whole)
  {
    match H.RefusalOf(route, probe, locked, upstream)
    case Some(error) =>
      TextFrames(codec, textOf(error), reserves);
    case None =>
      var image := H.ImageOf(codec, route.params, probe, upstream);
      ImageFrames(codec, image, reserves);
      if H.FormatOf(route.params, probe).Gzip? {
        P.GzipIgnoresChunking(codec, upstream.items, upstream.items, reserves, reserves);
      } else {
        P.RawIsTransparent(codec, upstream.items, reserves);
      }
      hide H.KindOf, H.FormatOf, P.PollAll, PollBodyAll, P.Delivered, P.Decode, P.Content, P.Failing;
  }

  /** The source is gzip: by its path, and only if that does not tell, by the headers. */
  ghost predicate SourceIsGzip(route: H.Route, probe: H.Probe)
    requires H.AsksForImage(route) && (H.NamesItsFormat(route) || probe.Headers?)
  {
    if H.NamesItsFormat(route) then
      H.EndsLike(route.params.path.value, ".xva.gz") || H.EndsLike(route.params.path.value, ".xva.gzip")
    else
      H.ContainsLike(probe.contentType, "gzip") || H.ContainsLike(probe.contentEncoding, "gzip")
  }

  lemma FormatOfSource(route: H.Route, probe: H.Probe)
    requires H.AsksForImage(route) && (H.NamesItsFormat(route) || probe.Headers?)
    ensures H.KindOf(route).KnownFormat? || probe.Headers?
    ensures H.FormatOf(route.params, probe).Gzip? <==> SourceIsGzip(route, probe)
  {
    H.KindOfRoute(route);
    H.FormatFollowsExtension(route.params.path);
    if !H.NamesItsFormat(route) {
      H.HeadersSayGzip(probe);
    }
    hide H.EndsLike, H.DetectFromExtension, H.FormatOfHeaders;
  }

  /** An image whose source can be had arrives decoded if its source is gzip and byte for byte if not: at every
      moment a prefix, and all of it at a clean end. */
  lemma ImageArrivesInItsFormat<S>(codec: P.Codec<S>, route: H.Route, probe: H.Probe, items: seq<P.Item>,
                                   textOf: H.ProxyError -> Bytes, reserves: seq<Positive>)
    requires H.AsksForImage(route) && (H.NamesItsFormat(route) || probe.Headers?)
    ensures var frames := PollBodyAll(BodyOf(codec, route, probe, false, Connected(items), textOf), reserves).1;
            var sent := P.Content(items);
            var whole := if SourceIsGzip(route, probe) then P.Decode(codec, P.Running(codec.start), sent).1 else sent;
            && P.Delivered(frames) <= whole
            && (P.End in frames && !P.Failing(frames) ==> P.Delivered(frames) == whole)
  {
    H.KindOfRoute(route);
    FormatOfSource(route, probe);
    SessionDelivers(codec, route, probe, false, Connected(items), textOf, reserves);
    hide BodyOf, PollBodyAll, SourceIsGzip, H.KindOf, H.FormatOf, H.AsksForImage, H.NamesItsFormat, P.Delivered,
        P.Decode, P.Content, P.Failing;
  }

  /** At the end the count of an image is the number of bytes in its frames, modulo 2^64. */
  lemma CountAtTheEnd<S>(codec: P.Codec<S>, route: H.Route, probe: H.Probe, locked: bool, upstream: Fetched,
                         textOf: H.ProxyError -> Bytes, reserves: seq<Positive>)
    ensures var (body, frames) := PollBodyAll(BodyOf(codec, route, probe, locked, upstream, textOf), reserves);
            SentOf(body) == match H.RefusalOf(route, probe, locked, upstream)
                            case None => Some(|P.Delivered(frames)| % P.U64)
                            case Some(_) => None
  {
    match H.RefusalOf(route, probe, locked, upstream)
    case Some(error) =>
      TextStaysText<S>(TextView(textOf(error)), reserves);
    case None =>
      var image := H.ImageOf(codec, route.params, probe, upstream);
      ImageFrames(codec, image, reserves);
      P.CounterAgrees(codec, image, reserves);
      hide H.KindOf, H.FormatOf, P.PollAll, PollBodyAll, P.Delivered;
  }

  lemma {:induction false} TextStaysText<S>(body: BodyView<S>, reserves: seq<Positive>)
    requires body.TextView?
    ensures PollBodyAll(body, reserves).0.TextView?
    decreases |reserves|
  {
    if reserves == [] {
    } else {
      TextStaysText(PollBody(body, reserves[0]).0, reserves[1..]);
    }
  }

  /** The connection polls the body as often as it likes. */
  method PollFrames<S>(body: ActiveBody<S>, reserves: seq<Positive>) returns (frames: seq<P.Polled>)
    requires body.Valid()
    modifies body.inner.Repr()
    ensures body.Valid() && fresh(body.inner.Repr() - old(body.inner.Repr()))
    ensures (body.inner.View(), frames) == PollBodyAll(old(body.inner.View()), reserves)
  {
    ghost var start := body.inner.View();
    assert PollBodyAll(start, reserves[..0]) == (start, []);
    hide PollBody, PollBodyAll;
    frames := [];
    for i := 0 to |reserves|
      invariant body.Valid() && fresh(body.inner.Repr() - old(body.inner.Repr()))
      invariant (body.inner.View(), frames) == PollBodyAll(start, reserves[..i])
    {
      OneMorePoll(start, reserves[..i], reserves[i]);
      assert reserves[..i + 1] == reserves[..i] + [reserves[i]];
      var frame := body.PollFrame(reserves[i]);
      frames := frames + [frame];
    }
    assert reserves[..|reserves|] == reserves;
  }

  /** Track the request, poll its body as often as the connection asks for, and drop it.  The frames are
      those of the pure pipeline; an image reports exactly the bytes in its frames; the activity counter has
      gone up and down once, and the lock is as it was. */
  method Serve<S>(activity: Activity, codec: P.Codec<S>, lock: ImportLock, route: H.Route, probe: H.Probe,
                  upstream: Fetched, textOf: H.ProxyError -> Bytes, reserves: seq<Positive>)
    returns (status: nat, frames: seq<P.Polled>, reported: Option<nat>)
    modifies activity, lock
    ensures status == H.Verdict(H.KindOf(route), probe.Headers?, old(lock.locked), upstream.Connected?)
    ensures frames == PollBodyAll(BodyOf(codec, route, probe, old(lock.locked), upstream, textOf), reserves).1
    ensures reported == if status == 200 then Some(|P.Delivered(frames)| % P.U64) else None
    ensures activity.View() == T.Left(T.Entered(old(activity.View())))
    ensures lock.locked == old(lock.locked)
  {
    H.AcceptedIffFree(route, probe, lock.locked, upstream);
    CountAtTheEnd(codec, route, probe, lock.locked, upstream, textOf, reserves);
    hide BodyOf, PollBodyAll, SentOf, H.KindOf, H.Verdict, H.RefusalOf, P.Delivered;
    var body;
    status, body := Track(activity, codec, lock, route, probe, upstream, textOf);
    frames := PollFrames(body, reserves);
    reported := body.Drop();
  }

  // ---------------------------------------------------------------- as a run of the protocol

  /** One event for each chunk handed out. */
  function EmitEvents(r: T.RequestId, frames: seq<P.Polled>): seq<T.Event> {
    if frames == [] then []
    else (if frames[0].Chunk? then [T.Emit(r, frames[0].bytes)] else []) + EmitEvents(r, frames[1..])
  }

  /** Dropping the body of an answer with that status. */
  function DropEvents(r: T.RequestId, status: nat, why: T.Ending): seq<T.Event> {
    [T.End(r, why), T.Release(r)] + if status == 200 then [T.Release(r)] else []
  }

  function SessionEvents(r: T.RequestId, kind: T.Kind, probeOk: bool, locked: bool, fetchOk: bool,
                         frames: seq<P.Polled>, why: T.Ending): seq<T.Event> {
    [T.Enter(kind)]
    + (H.HandlerEvents(r, kind, probeOk, locked, fetchOk)
    + (EmitEvents(r, frames)
    + DropEvents(r, H.Verdict(kind, probeOk, locked, fetchOk), why)))
  }

  lemma {:induction false} PerformAppend(c: T.Config, s: T.State, a: seq<T.Event>, b: seq<T.Event>)
    requires T.Perform(c, s, a).Some?
    ensures T.Perform(c, s, a + b) == T.Perform(c, T.Perform(c, s, a).value, b)
    decreases |a|
  {
    hide T.Enabled, T.Next;
    if a == [] {
      assert a + b == b;
    } else {
      assert (a + b)[1..] == a[1..] + b;
      PerformAppend(c, T.Next(c, s, a[0]), a[1..], b);
    }
  }

  lemma PerformOne(c: T.Config, s: T.State, e: T.Event, rest: seq<T.Event>)
    requires T.Enabled(c, s, e)
    ensures T.Perform(c, s, [e] + rest) == T.Perform(c, T.Next(c, s, e), rest)
  {
    hide T.Enabled, T.Next;
    assert ([e] + rest)[1..] == rest;
  }

  /** Only the bytes delivered by request r have changed. */
  ghost predicate Gained(s: T.State, t: T.State, r: T.RequestId, bytes: Bytes)
    requires r < |s.requests|
  {
    t == s.(requests := s.requests[r := s.requests[r].(delivered := s.requests[r].delivered + bytes)])
  }

  lemma EmitOne(c: T.Config, s: T.State, r: T.RequestId, bytes: Bytes, rest: seq<T.Event>) returns (t: T.State)
    requires s.process != T.Exited && r < |s.requests| && s.requests[r].phase.Sending?
    ensures Gained(s, t, r, bytes) && T.Perform(c, s, [T.Emit(r, bytes)] + rest) == T.Perform(c, t, rest)
  {
    var e := T.Emit(r, bytes);
    t := T.Next(c, s, e);
    PerformOne(c, s, e, rest);
    hide T.Perform;
  }

  lemma GainedTwice(s: T.State, t: T.State, u: T.State, r: T.RequestId, a: Bytes, b: Bytes)
    requires r < |s.requests| && Gained(s, t, r, a) && Gained(t, u, r, b)
    ensures Gained(s, u, r, a + b)
  {
    var d := s.requests[r].delivered;
    assert d + (a + b) == (d + a) + b;
    assert u.requests == s.requests[r := s.requests[r].(delivered := d + (a + b))];
  }

  lemma GainedNothing(s: T.State, r: T.RequestId)
    requires r < |s.requests|
    ensures Gained(s, s, r, [])
  {
    assert s.requests[r].delivered + [] == s.requests[r].delivered;
    assert s.requests[r := s.requests[r]] == s.requests;
  }

  /** Emitting the chunks adds exactly what the pipeline handed out to the bytes of the request. */
  lemma {:induction false} EmitsDeliver(c: T.Config, s: T.State, r: T.RequestId, frames: seq<P.Polled>)
    requires s.process != T.Exited && r < |s.requests| && s.requests[r].phase.Sending?
    ensures var done := T.Perform(c, s, EmitEvents(r, frames));
            done.Some? && Gained(s, done.value, r, P.Delivered(frames))
    decreases |frames|
  {
    if frames == [] {
      GainedNothing(s, r);
    } else if frames[0].Chunk? {
      var t := EmitOne(c, s, r, frames[0].bytes, EmitEvents(r, frames[1..]));
      EmitsDeliver(c, t, r, frames[1..]);
      var u := T.Perform(c, t, EmitEvents(r, frames[1..])).value;
      hide T.Perform;
      GainedTwice(s, t, u, r, frames[0].bytes, P.Delivered(frames[1..]));
    } else {
      EmitsDeliver(c, s, r, frames[1..]);
      assert [] + EmitEvents(r, frames[1..]) == EmitEvents(r, frames[1..]);
      assert P.Delivered(frames) == P.Delivered(frames[1..]);
    }
  }

  /** One event of request r that neither enters, polls nor ends the process. */
  lemma RequestEvent(c: T.Config, s: T.State, r: T.RequestId, e: T.Event, q: T.Request, rest: seq<T.Event>)
    requires r < |s.requests| && T.Enabled(c, s, e) && T.Subject(e) == r
    requires T.NextRequest(c.design, s.locked, s.requests[r], e) == q
    ensures var t := s.(requests := s.requests[r := q], locked := T.NextLocked(s, e), watch := T.NextWatch(s, e));
            T.Perform(c, s, [e] + rest) == T.Perform(c, t, rest)
  {
    PerformOne(c, s, e, rest);
    hide T.NextRequest, T.NextLocked, T.NextWatch, T.Perform;
  }

  /** The state after request r has ended and given back everything it owned. */
  function AfterDrop(s: T.State, r: T.RequestId, status: nat): T.State
    requires r < |s.requests|
  {
    s.(requests := s.requests[r := s.requests[r].(phase := T.Ended, owned := [])],
       locked := s.locked && status != 200,
       watch := T.Left(s.watch))
  }

  function OwnedWhileSending(status: nat): seq<T.Resource> {
    if status == 200 then [T.LockGuard, T.ActivityToken] else [T.ActivityToken]
  }

  lemma ReleaseToken(c: T.Config, s: T.State, r: T.RequestId)
    requires s.process != T.Exited && r < |s.requests|
    requires s.requests[r].phase.Unwinding? && s.requests[r].owned == [T.ActivityToken]
    ensures T.Perform(c, s, [T.Release(r)]) ==
            Some(s.(requests := s.requests[r := s.requests[r].(phase := T.Ended, owned := [])],
                watch := T.Left(s.watch)))
  {
    assert [T.ActivityToken][1..] == [];
    RequestEvent(c, s, r, T.Release(r), s.requests[r].(phase := T.Ended, owned := []), []);
    assert [T.Release(r)] + [] == [T.Release(r)];
  }

  lemma ReleaseBoth(c: T.Config, s: T.State, r: T.RequestId)
    requires s.process != T.Exited && r < |s.requests|
    requires s.requests[r].phase.Unwinding? && s.requests[r].owned == [T.LockGuard, T.ActivityToken]
    ensures T.Perform(c, s, [T.Release(r), T.Release(r)]) == Some(AfterDrop(s, r, 200))
  {
    var q := s.requests[r].(owned := [T.ActivityToken]);
    assert [T.LockGuard, T.ActivityToken][1..] == [T.ActivityToken];
    RequestEvent(c, s, r, T.Release(r), q, [T.Release(r)]);
    var t := s.(requests := s.requests[r := q], locked := false);
    ReleaseToken(c, t, r);
    assert [T.Release(r)] + [T.Release(r)] == [T.Release(r), T.Release(r)];
    assert t.requests[r := q.(phase := T.Ended, owned := [])] == s.requests[r := q.(phase := T.Ended, owned := [])];
  }

  /** How the connection is done with an answer: completed or disconnected at any status, and an image also
      by an error of its stream. */
  predicate EndsAnAnswer(status: nat, why: T.Ending) {
    why.Completed? || why.Disconnected? || (why.StreamError? && status == 200)
  }

  /** Ending and dropping gives back the lock, if the request had it, and then the token. */
  lemma DropGivesBack(c: T.Config, s: T.State, r: T.RequestId, status: nat, why: T.Ending)
    requires s.process != T.Exited && r < |s.requests|
    requires s.requests[r].phase == T.Sending(status) && s.requests[r].owned == OwnedWhileSending(status)
    requires EndsAnAnswer(status, why)
    ensures T.Perform(c, s, DropEvents(r, status, why)) == Some(AfterDrop(s, r, status))
  {
    var q := s.requests[r].(phase := T.Unwinding);
    var t := s.(requests := s.requests[r := q]);
    var releases := [T.Release(r)] + if status == 200 then [T.Release(r)] else [];
    assert DropEvents(r, status, why) == [T.End(r, why)] + releases;
    RequestEvent(c, s, r, T.End(r, why), q, releases);
    assert t.requests[r := q.(phase := T.Ended, owned := [])] == s.requests[r := q.(phase := T.Ended, owned := [])];
    if status == 200 {
      assert releases == [T.Release(r), T.Release(r)];
      ReleaseBoth(c, t, r);
    } else {
      assert releases == [T.Release(r)];
      ReleaseToken(c, t, r);
    }
  }

  /** The state after request r was handled, answered and dropped. */
  function AfterSession(s: T.State, r: T.RequestId, bytes: Bytes): T.State
    requires r < |s.requests|
  {
    var q := s.requests[r];
    s.(requests := s.requests[r := q.(phase := T.Ended, owned := [], delivered := q.delivered + bytes)],
        watch := T.Left(s.watch))
  }

  lemma StatesCompose(s1: T.State, s2: T.State, s3: T.State, r: T.RequestId, status: nat, bytes: Bytes)
    requires r < |s1.requests| && (status == 200 ==> !s1.locked)
    requires H.MovedOn(s1, s2, r, T.Sending(status), OwnedWhileSending(status), s1.locked || status == 200)
    requires Gained(s2, s3, r, bytes)
    ensures AfterDrop(s3, r, status) == AfterSession(s1, r, bytes)
  {
    assert AfterDrop(s3, r, status).requests == AfterSession(s1, r, bytes).requests;
  }

  /** The session from the moment at which the request has entered. */
  lemma HandledAndDropped(c: T.Config, s: T.State, r: T.RequestId, probeOk: bool, fetchOk: bool,
                          frames: seq<P.Polled>, why: T.Ending)
    requires H.JustEntered(c, s, r)
    requires EndsAnAnswer(H.Verdict(s.requests[r].kind, probeOk, s.locked, fetchOk), why)
    ensures var kind := s.requests[r].kind;
            var events := H.HandlerEvents(r, kind, probeOk, s.locked, fetchOk)
                        + (EmitEvents(r, frames) + DropEvents(r, H.Verdict(kind, probeOk, s.locked, fetchOk), why));
            T.Perform(c, s, events) == Some(AfterSession(s, r, P.Delivered(frames)))
  {
    var kind := s.requests[r].kind;
    var status := H.Verdict(kind, probeOk, s.locked, fetchOk);
    assert status == 200 ==> !s.locked;
    var handling, emitting, dropping := H.HandlerEvents(r, kind, probeOk, s.locked, fetchOk), EmitEvents(r, frames),
        DropEvents(r, status, why);
    hide H.Verdict, H.HandlerEvents, T.Perform, EmitEvents, DropEvents, P.Delivered, EndsAnAnswer;
    H.HandlerPerforms(c, s, r, probeOk, fetchOk);
    var s2 := T.Perform(c, s, handling).value;
    PerformAppend(c, s, handling, emitting + dropping);
    EmitsDeliver(c, s2, r, frames);
    var s3 := T.Perform(c, s2, emitting).value;
    PerformAppend(c, s2, emitting, dropping);
    DropGivesBack(c, s3, r, status, why);
    StatesCompose(s, s2, s3, r, status, P.Delivered(frames));
  }

  /** The state in which a request has just entered. */
  function Joined(s: T.State, kind: T.Kind): T.State {
    s.(requests := s.requests + [T.Request(kind, T.Validating, [T.ActivityToken], [])], watch := T.Entered(s.watch))
  }

  lemma EnterIsJoining(c: T.Config, s: T.State, kind: T.Kind, rest: seq<T.Event>)
    requires s.process != T.Exited
    ensures T.Perform(c, s, [T.Enter(kind)] + rest) == T.Perform(c, Joined(s, kind), rest)
  {
    PerformOne(c, s, T.Enter(kind), rest);
    hide T.Perform;
    assert T.Next(c, s, T.Enter(kind)) == Joined(s, kind);
  }

  lemma JoinedThenAfter(s: T.State, kind: T.Kind, bytes: Bytes)
    ensures AfterSession(Joined(s, kind), |s.requests|, bytes) ==
            s.(requests := s.requests + [T.Request(kind, T.Ended, [], bytes)], watch := T.Left(T.Entered(s.watch)))
  {
    assert [] + bytes == bytes;
    assert AfterSession(Joined(s, kind), |s.requests|, bytes).requests
        == s.requests + [T.Request(kind, T.Ended, [], bytes)];
  }

  /** From the arrival of a request to the end of its body, uninterrupted: the request delivers exactly the
      bytes of its frames and has ended, the watch has gone up and down once, the lock is as it was, and
      nothing else has changed: the state in which `Serve` leaves the objects. */
  lemma SessionPerforms(c: T.Config, s: T.State, kind: T.Kind, probeOk: bool, fetchOk: bool, frames: seq<P.Polled>,
                        why: T.Ending)
    requires c.design == T.THE_DESIGN && s.process != T.Exited
    requires EndsAnAnswer(H.Verdict(kind, probeOk, s.locked, fetchOk), why)
    ensures T.Perform(c, s, SessionEvents(|s.requests|, kind, probeOk, s.locked, fetchOk, frames, why)) ==
            Some(s.(requests := s.requests + [T.Request(kind, T.Ended, [], P.Delivered(frames))],
                    watch := T.Left(T.Entered(s.watch))))
  {
    hide T.Perform, H.Verdict, H.HandlerEvents, EmitEvents, DropEvents, P.Delivered, EndsAnAnswer;
    var r := |s.requests|;
    EnterIsJoining(c, s, kind, H.HandlerEvents(r, kind, probeOk, s.locked, fetchOk)
      + (EmitEvents(r, frames) + DropEvents(r, H.Verdict(kind, probeOk, s.locked, fetchOk), why)));
    HandledAndDropped(c, Joined(s, kind), r, probeOk, fetchOk, frames, why);
    JoinedThenAfter(s, kind, P.Delivered(frames));
    hide AfterSession;
  }

  /** A session extends every run of a process that has not exited, so what holds of all runs holds of it. */
  lemma SessionIsARun(c: T.Config, ss: seq<T.State>, es: seq<T.Event>, kind: T.Kind, probeOk: bool, fetchOk: bool,
                      frames: seq<P.Polled>, why: T.Ending) returns (ts: seq<T.State>)
    requires c.design == T.THE_DESIGN && T.IsRun(c, ss, es) && ss[|es|].process != T.Exited
    requires EndsAnAnswer(H.Verdict(kind, probeOk, ss[|es|].locked, fetchOk), why)
    ensures var s := ss[|es|];
            var events := SessionEvents(|s.requests|, kind, probeOk, s.locked, fetchOk, frames, why);
            && T.IsRun(c, ts, es + events) && ss <= ts
            && ts[|es + events|] == s.(requests := s.requests + [T.Request(kind, T.Ended, [], P.Delivered(frames))],
                                       watch := T.Left(T.Entered(s.watch)))
  {
    var s := ss[|es|];
    SessionPerforms(c, s, kind, probeOk, fetchOk, frames, why);
    hide T.IsRun, T.Perform, SessionEvents, H.Verdict, EndsAnAnswer, P.Delivered;
    ts := R.PerformedIsARun(c, ss, es, SessionEvents(|s.requests|, kind, probeOk, s.locked, fetchOk, frames, why));
  }

  // ---------------------------------------------------------------- cancelled handlers

  /** A handler suspended in the probe can be cancelled; the request then gives back its token and has
      delivered nothing. */
  lemma CancelledWhileProbing(c: T.Config, s: T.State, r: T.RequestId)
    requires H.JustEntered(c, s, r) && s.requests[r].kind.AmbiguousFormat?
    ensures T.Perform(c, s, [T.Validate(r), T.End(r, T.Cancelled), T.Release(r)]) == Some(AfterSession(s, r, []))
  {
    var q := s.requests[r];
    var t := s.(requests := s.requests[r := q.(phase := T.Probing)]);
    var u := s.(requests := s.requests[r := q.(phase := T.Unwinding)]);
    assert [T.Validate(r)] + ([T.End(r, T.Cancelled)] + [T.Release(r)])
        == [T.Validate(r), T.End(r, T.Cancelled), T.Release(r)];
    RequestEvent(c, s, r, T.Validate(r), q.(phase := T.Probing), [T.End(r, T.Cancelled)] + [T.Release(r)]);
    RequestEvent(c, t, r, T.End(r, T.Cancelled), q.(phase := T.Unwinding), [T.Release(r)]);
    assert t.requests[r := q.(phase := T.Unwinding)] == u.requests;
    ReleaseToken(c, u, r);
    SameAfterSession(s, u, r);
  }

  /** What a handler has done when it waits for the upstream's headers. */
  function UntilFetching(r: T.RequestId, kind: T.Kind): seq<T.Event> {
    [T.Validate(r)] + ((if kind.AmbiguousFormat? then [T.ProbeDone(r, true)] else []) + [T.TryLock(r)])
  }

  lemma WaitsForUpstream(c: T.Config, s: T.State, r: T.RequestId, rest: seq<T.Event>)
    requires H.JustEntered(c, s, r) && !s.locked
    requires s.requests[r].kind.KnownFormat? || s.requests[r].kind.AmbiguousFormat?
    ensures var q := s.requests[r].(phase := T.Fetching, owned := [T.LockGuard, T.ActivityToken]);
            T.Perform(c, s, UntilFetching(r, s.requests[r].kind) + rest) ==
            T.Perform(c, s.(requests := s.requests[r := q], locked := true), rest)
  {
    var q, kind := s.requests[r], s.requests[r].kind;
    var detected := s.(requests := s.requests[r := q.(phase := T.Detected)]);
    var fetching := q.(phase := T.Fetching, owned := [T.LockGuard, T.ActivityToken]);
    var tail := [T.TryLock(r)] + rest;
    assert [T.LockGuard] + [T.ActivityToken] == [T.LockGuard, T.ActivityToken];
    if kind.AmbiguousFormat? {
      var probing := s.(requests := s.requests[r := q.(phase := T.Probing)]);
      assert UntilFetching(r, kind) + rest == [T.Validate(r)] + ([T.ProbeDone(r, true)] + tail);
      RequestEvent(c, s, r, T.Validate(r), q.(phase := T.Probing), [T.ProbeDone(r, true)] + tail);
      RequestEvent(c, probing, r, T.ProbeDone(r, true), q.(phase := T.Detected), tail);
      assert probing.requests[r := q.(phase := T.Detected)] == detected.requests;
    } else {
      assert UntilFetching(r, kind) + rest == [T.Validate(r)] + tail;
      RequestEvent(c, s, r, T.Validate(r), q.(phase := T.Detected), tail);
    }
    RequestEvent(c, detected, r, T.TryLock(r), fetching, rest);
    assert detected.requests[r := fetching] == s.requests[r := fetching];
  }

  lemma SameAfterSession(s: T.State, u: T.State, r: T.RequestId)
    requires r < |s.requests| && u == s.(requests := s.requests[r := s.requests[r].(phase := T.Unwinding)])
    ensures u.(requests := u.requests[r := u.requests[r].(phase := T.Ended, owned := [])], watch := T.Left(u.watch))
         == AfterSession(s, r, [])
  {
    var q := s.requests[r];
    assert q.delivered + [] == q.delivered;
    assert u.requests[r := q.(phase := T.Ended, owned := [])] == s.requests[r := q.(phase := T.Ended, owned := [])];
  }

  lemma CancelledThere(c: T.Config, s: T.State, r: T.RequestId)
    requires s.process != T.Exited && r < |s.requests|
    requires s.requests[r].phase.Fetching? && s.requests[r].owned == [T.LockGuard, T.ActivityToken]
    ensures T.Perform(c, s, [T.End(r, T.Cancelled)] + [T.Release(r), T.Release(r)]) == Some(AfterDrop(s, r, 200))
  {
    var q := s.requests[r].(phase := T.Unwinding);
    var u := s.(requests := s.requests[r := q]);
    RequestEvent(c, s, r, T.End(r, T.Cancelled), q, [T.Release(r), T.Release(r)]);
    ReleaseBoth(c, u, r);
    hide T.Perform;
    assert u.requests[r := q.(phase := T.Ended, owned := [])] == s.requests[r := q.(phase := T.Ended, owned := [])];
  }

  /** A handler that holds the lock and waits for the upstream can be cancelled; the request then gives back
      the lock and its token and has delivered nothing. */
  lemma CancelledWhileFetching(c: T.Config, s: T.State, r: T.RequestId)
    requires H.JustEntered(c, s, r) && !s.locked
    requires s.requests[r].kind.KnownFormat? || s.requests[r].kind.AmbiguousFormat?
    ensures T.Perform(c, s, UntilFetching(r, s.requests[r].kind) + [T.End(r, T.Cancelled), T.Release(r), T.Release(r)])
         == Some(AfterSession(s, r, []))
  {
    var q := s.requests[r].(phase := T.Fetching, owned := [T.LockGuard, T.ActivityToken]);
    var t := s.(requests := s.requests[r := q], locked := true);
    var dropping := [T.End(r, T.Cancelled)] + [T.Release(r), T.Release(r)];
    assert [T.End(r, T.Cancelled), T.Release(r), T.Release(r)] == dropping;
    WaitsForUpstream(c, s, r, dropping);
    CancelledThere(c, t, r);
    hide T.Perform, UntilFetching;
    assert s.requests[r].delivered + [] == s.requests[r].delivered;
    assert AfterDrop(t, r, 200).requests == AfterSession(s, r, []).requests;
  }
}
