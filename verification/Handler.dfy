/** The import handler: validation, format detection, the lock, and the hand-over of the body.  What the
    network answers comes in as parameters. */
module Handler {
  import opened Basics
  import opened AppState
  import opened Stream
  import P = Pipeline
  import R = ProtocolTraces
  import T = Protocol

  // ---------------------------------------------------------------- format detection

  function LowerChar(c: char): char {
    if 'A' <= c <= 'Z' then (c as int + 32) as char else c
  }

  function Lower(s: string): (t: string)
    ensures |t| == |s|
    ensures forall i | 0 <= i < |s| :: t[i] == LowerChar(s[i])
  {
    seq(|s|, i requires 0 <= i < |s| => LowerChar(s[i]))
  }

  predicate EndsWith(s: string, suffix: string) {
    |suffix| <= |s| && s[|s| - |suffix|..] == suffix
  }

  predicate StartsWith(s: string, prefix: string) {
    prefix <= s
  }

  predicate Contains(s: string, part: string) {
    StartsWith(s, part) || (s != [] && Contains(s[1..], part))
  }

  /** The format that the path of the URL announces, if it does; `None` also if there is no path because
      the URL could not be parsed. */
  function DetectFromExtension(path: Option<string>): Option<ImageFormat> {
    if path.None? then None
    else
      var p := Lower(path.value);
      if EndsWith(p, ".xva.gz") || EndsWith(p, ".xva.gzip") then Some(Gzip)
      else if EndsWith(p, ".xva") then Some(Raw)
      else None
  }

  lemma SuffixInLastComponent(dir: string, name: string, ext: string)
    requires '/' !in ext
    ensures EndsWith(Lower(dir + "/" + name), ext) <==> EndsWith(Lower("/" + name), ext)
  {
    var whole, last := Lower(dir + "/" + name), Lower("/" + name);
    assert whole[|dir|..] == last;
    if |ext| <= |last| {
      assert whole[|whole| - |ext|..] == last[|last| - |ext|..];
    } else if |ext| <= |whole| {
      var tail := whole[|whole| - |ext|..];
      assert tail[|ext| - |last|] == '/';
    }
  }

  /** Only the last component of the path counts, and its letter case does not: a directory that is
      named like an image never decides the format. */
  lemma OnlyTheFileNameCounts(dir: string, name: string)
    ensures DetectFromExtension(Some(dir + "/" + name)) == DetectFromExtension(Some("/" + name))
    ensures DetectFromExtension(Some(Lower(dir + "/" + name))) == DetectFromExtension(Some(dir + "/" + name))
  {
    SuffixInLastComponent(dir, name, ".xva.gz");
    SuffixInLastComponent(dir, name, ".xva.gzip");
    SuffixInLastComponent(dir, name, ".xva");
    assert Lower(Lower(dir + "/" + name)) == Lower(dir + "/" + name);
  }

  /** The answer to a HEAD request: a transport error, or response headers of any status. */
  datatype Probe = Unreachable | Headers(status: nat, contentType: string, contentEncoding: string)

  function FormatOfHeaders(h: Probe): ImageFormat
    requires h.Headers?
  {
    if Contains(Lower(h.contentType), "gzip") || Contains(Lower(h.contentEncoding), "gzip") then Gzip else Raw
  }

  // ---------------------------------------------------------------- what decides the format

  /** The string is the given lower-case word, in any letter case. */
  predicate Spells(s: string, word: string) {
    && |s| == |word|
    && forall i | 0 <= i < |s| :: s[i] == word[i] || ('A' <= s[i] <= 'Z' && s[i] as int + 32 == word[i] as int)
  }

  predicate EndsLike(s: string, word: string) {
    |word| <= |s| && Spells(s[|s| - |word|..], word)
  }

  predicate SpellsAt(s: string, i: nat, word: string) {
    i + |word| <= |s| && Spells(s[i..i + |word|], word)
  }

  ghost predicate ContainsLike(s: string, word: string) {
    exists i: nat :: SpellsAt(s, i, word)
  }

  /** A word in which `LowerChar` changes nothing. */
  predicate IsLower(word: string) {
    forall i | 0 <= i < |word| :: !('A' <= word[i] <= 'Z')
  }

  lemma SpellsIffLower(s: string, word: string)
    requires IsLower(word)
    ensures Spells(s, word) <==> Lower(s) == word
  {
    if Spells(s, word) {
      assert forall i | 0 <= i < |s| :: LowerChar(s[i]) == word[i];
    } else {
      assert forall i | 0 <= i < |s| :: Lower(s)[i] == LowerChar(s[i]);
    }
  }

  lemma EndsLikeIff(s: string, word: string)
    requires IsLower(word)
    ensures EndsLike(s, word) <==> EndsWith(Lower(s), word)
  {
    if |word| <= |s| {
      var k := |s| - |word|;
      assert Lower(s)[k..] == Lower(s[k..]);
      SpellsIffLower(s[k..], word);
    }
  }

  lemma SpellsAtFront(s: string, word: string)
    requires IsLower(word)
    ensures SpellsAt(s, 0, word) <==> StartsWith(Lower(s), word)
  {
    if |word| <= |s| {
      assert Lower(s)[..|word|] == Lower(s[0..|word|]);
      SpellsIffLower(s[0..|word|], word);
    }
  }

  lemma SpellsLater(s: string, i: nat, word: string)
    requires s != ""
    ensures SpellsAt(s[1..], i, word) <==> SpellsAt(s, i + 1, word)
  {
    if i + 1 + |word| <= |s| {
      assert s[1..][i..i + |word|] == s[i + 1..i + 1 + |word|];
    }
  }

  lemma {:induction false} ContainsLikeIff(s: string, word: string)
    requires IsLower(word)
    ensures ContainsLike(s, word) <==> Contains(Lower(s), word)
    decreases |s|
  {
    SpellsAtFront(s, word);
    hide StartsWith;
    if s == "" {
      assert ContainsLike(s, word) <==> SpellsAt(s, 0, word);
    } else {
      ContainsLikeIff(s[1..], word);
      assert Lower(s)[1..] == Lower(s[1..]);
      hide SpellsAt, Lower;
      if i: nat :| SpellsAt(s[1..], i, word) {
        SpellsLater(s, i, word);
      }
      if i: nat :| SpellsAt(s, i, word) {
        if i > 0 {
          SpellsLater(s, i - 1, word);
        }
      }
    }
  }

  /** Gzip exactly for a path that ends in `.xva.gz` or `.xva.gzip`, raw exactly for one that ends in `.xva`,
      in any letter case; any other path, and no path, leaves the format open. */
  lemma FormatFollowsExtension(path: Option<string>)
    ensures DetectFromExtension(path) == Some(Gzip) <==>
            path.Some? && (EndsLike(path.value, ".xva.gz") || EndsLike(path.value, ".xva.gzip"))
    ensures DetectFromExtension(path) == Some(Raw) <==> path.Some? && EndsLike(path.value, ".xva")
  {
    match path
    case None =>
    case Some(s) =>
      EndsLikeIff(s, ".xva.gz");
      EndsLikeIff(s, ".xva.gzip");
      EndsLikeIff(s, ".xva");
      hide EndsLike;
      if |s| >= 4 {
        assert EndsWith(Lower(s), ".xva") ==> Lower(s)[|s| - 1] == 'a';
        assert EndsWith(Lower(s), ".xva.gz") ==> Lower(s)[|s| - 1] == 'z';
        assert EndsWith(Lower(s), ".xva.gzip") ==> Lower(s)[|s| - 1] == 'p';
      }
  }

  /** So whatever comes in front, and whatever the letter case, the ending alone decides. */
  lemma EndingDecides(front: string, ending: string)
    ensures Spells(ending, ".xva.gz") || Spells(ending, ".xva.gzip") ==>
              DetectFromExtension(Some(front + ending)) == Some(Gzip)
    ensures Spells(ending, ".xva") ==> DetectFromExtension(Some(front + ending)) == Some(Raw)
  {
    FormatFollowsExtension(Some(front + ending));
    assert (front + ending)[|front|..] == ending;
    hide DetectFromExtension;
  }

  /** The headers mean gzip exactly if one of the two says it, anywhere and in any letter case. */
  lemma HeadersSayGzip(h: Probe)
    requires h.Headers?
    ensures FormatOfHeaders(h).Gzip? <==> ContainsLike(h.contentType, "gzip") || ContainsLike(h.contentEncoding, "gzip")
  {
    ContainsLikeIff(h.contentType, "gzip");
    ContainsLikeIff(h.contentEncoding, "gzip");
    hide ContainsLike, Contains, Lower;
  }

  // ---------------------------------------------------------------- the handler

  /** `path` is the path of `src` as the URL parser sees it. */
  datatype Params = Params(src: Option<string>, path: Option<string>)

  /** A GET of `/image.xva`, or any other path. */
  datatype Route = ImageXva(params: Params) | Elsewhere

  datatype ProxyError = BadRequest | NotFound | ImportInProgress | UpstreamFailed | ProbeFailed

  datatype Answer<S> = Image(stream: GuardedStream<S>) | Problem(error: ProxyError)

  function StatusOf(e: ProxyError): nat {
    match e
    case BadRequest => 400
    case NotFound => 404
    case ImportInProgress => 409
    case UpstreamFailed => 502
    case ProbeFailed => 502
  }

  function KindOf(route: Route): T.Kind {
    match route
    case Elsewhere => T.UnknownPath
    case ImageXva(params) =>
      if params.src.None? || !(StartsWith(params.src.value, "http://") || StartsWith(params.src.value, "https://"))
      then T.BadSource
      else if DetectFromExtension(params.path).Some? then T.KnownFormat
      else T.AmbiguousFormat
  }

  function FormatOf(params: Params, probe: Probe): ImageFormat
    requires KindOf(ImageXva(params)).KnownFormat? || probe.Headers?
  {
    if KindOf(ImageXva(params)).KnownFormat? then DetectFromExtension(params.path).value else FormatOfHeaders(probe)
  }

  /** What is wrong first, if anything. */
  function Refusal(kind: T.Kind, probeOk: bool, locked: bool, fetchOk: bool): Option<ProxyError> {
    match kind
    case UnknownPath => Some(NotFound)
    case BadSource => Some(BadRequest)
    case _ =>
      if kind.AmbiguousFormat? && !probeOk then Some(ProbeFailed)
      else if locked then Some(ImportInProgress)
      else if !fetchOk then Some(UpstreamFailed)
      else None
  }

  function RefusalOf(route: Route, probe: Probe, locked: bool, upstream: Fetched): Option<ProxyError> {
    Refusal(KindOf(route), probe.Headers?, locked, upstream.Connected?)
  }

  /** The probe fails exactly on a transport error, and only where it is needed.  An answer of any status,
      4xx and 5xx included, counts as an answer, and its status changes neither the outcome nor the format. */
  lemma ProbeFailsIffUnreachable(route: Route, probe: Probe, locked: bool, upstream: Fetched, other: nat)
    ensures RefusalOf(route, probe, locked, upstream) == Some(ProbeFailed) <==>
              KindOf(route).AmbiguousFormat? && probe.Unreachable?
    ensures probe.Headers? ==>
              && RefusalOf(route, probe.(status := other), locked, upstream)
                    == RefusalOf(route, probe, locked, upstream)
              && FormatOfHeaders(probe.(status := other)) == FormatOfHeaders(probe)
  {
    hide KindOf;
  }

  /** The status of the answer. */
  function Verdict(kind: T.Kind, probeOk: bool, locked: bool, fetchOk: bool): nat {
    match Refusal(kind, probeOk, locked, fetchOk)
    case None => 200
    case Some(e) => StatusOf(e)
  }

  lemma AcceptedIffFree(route: Route, probe: Probe, locked: bool, upstream: Fetched)
    ensures var verdict := Verdict(KindOf(route), probe.Headers?, locked, upstream.Connected?);
            && (verdict == 200 ==> !locked)
            && (verdict == 200 <==> RefusalOf(route, probe, locked, upstream).None?)
  {
  }

  lemma ErrorsAreNot200()
    ensures forall e :: StatusOf(e) != 200
  {
  }

  /** An image is asked for exactly on its path with a source of either scheme; everything else about the
      source is left to the URL parser and the network. */
  predicate AsksForImage(route: Route) {
    && route.ImageXva?
    && route.params.src.Some?
    && ("http://" <= route.params.src.value || "https://" <= route.params.src.value)
  }

  predicate NamesItsFormat(route: Route) {
    && route.ImageXva?
    && route.params.path.Some?
    && (var path := route.params.path.value;
        EndsLike(path, ".xva.gz") || EndsLike(path, ".xva.gzip") || EndsLike(path, ".xva"))
  }

  lemma KindOfRoute(route: Route)
    ensures KindOf(route).UnknownPath? <==> route.Elsewhere?
    ensures KindOf(route).KnownFormat? <==> AsksForImage(route) && NamesItsFormat(route)
    ensures KindOf(route).AmbiguousFormat? <==> AsksForImage(route) && !NamesItsFormat(route)
  {
    if route.ImageXva? {
      FormatFollowsExtension(route.params.path);
    }
    hide DetectFromExtension, EndsLike;
  }

  /** The status, from the route and what the network and the lock have to say. */
  lemma StatusOfRoute(route: Route, probe: Probe, locked: bool, upstream: Fetched)
    ensures var status := Verdict(KindOf(route), probe.Headers?, locked, upstream.Connected?);
            var reachable := NamesItsFormat(route) || probe.Headers?;
            && (status == 404 <==> route.Elsewhere?)
            && (status == 400 <==> route.ImageXva? && !AsksForImage(route))
            && (status == 409 <==> AsksForImage(route) && reachable && locked)
            && (status == 502 <==> AsksForImage(route) && (!reachable || (!locked && upstream.Refused?)))
            && (status == 200 <==> AsksForImage(route) && reachable && !locked && upstream.Connected?)
  {
    KindOfRoute(route);
    hide KindOf, NamesItsFormat;
  }

  /** The stream of an accepted image before the first poll. */
  function ImageOf<S>(codec: P.Codec<S>, params: Params, probe: Probe, upstream: Fetched): P.ChunkStream<S>
    requires upstream.Connected? && (KindOf(ImageXva(params)).KnownFormat? || probe.Headers?)
  {
    if FormatOf(params, probe).Gzip? then P.GzipStream(codec, upstream.items) else P.RawStream(upstream.items)
  }

  /** The stream holds the lock, shares no object with its surroundings, and stands at the given view. */
  ghost predicate Serves<S>(stream: GuardedStream<S>, codec: P.Codec<S>, lock: ImportLock, view: P.ChunkStream<S>)
    reads stream, stream.Repr()
  {
    && stream.Valid()
    && stream.guard.lock == lock
    && stream.inner.codec == codec
    && {stream, stream.guard, lock} !! stream.inner.Repr()
    && stream.inner.View() == view
  }

  /** Handle one request.  The lock is taken only after validation and detection, it is held on return
      exactly if it was held before or the answer is an image, and the image is the one upstream holds. */
  method HandleImageXva<S>(codec: P.Codec<S>, lock: ImportLock, params: Params, probe: Probe, upstream: Fetched)
    returns (answer: Answer<S>)
    modifies lock
    ensures match RefusalOf(ImageXva(params), probe, old(lock.locked), upstream)
            case Some(e) => answer == Problem(e)
            case None =>
              && answer.Image?
              && upstream.Connected?
              && (KindOf(ImageXva(params)).KnownFormat? || probe.Headers?)
              && Serves(answer.stream, codec, lock, ImageOf(codec, params, probe, upstream))
              && fresh(answer.stream) && fresh(answer.stream.guard) && fresh(answer.stream.inner.Repr())
    ensures lock.locked <==> old(lock.locked) || answer.Image?
  {
    if params.src.None? {
      return Problem(BadRequest);
    }
    var src := params.src.value;
    if !StartsWith(src, "http://") && !StartsWith(src, "https://") {
      return Problem(BadRequest);
    }
    var format := DetectFromExtension(params.path);
    if format.None? {
      if probe.Unreachable? {
        return Problem(ProbeFailed);
      }
      format := Some(FormatOfHeaders(probe));
    }
    var guard := lock.TryLockOwned();
    if guard.None? {
      return Problem(ImportInProgress);
    }
    var stream := FetchXvaStream(codec, upstream, format.value, guard.value);
    if stream.None? {
      return Problem(UpstreamFailed);
    }
    answer := Image(stream.value);
  }

  /** The router: everything but the image path is not found. */
  method Dispatch<S>(codec: P.Codec<S>, lock: ImportLock, route: Route, probe: Probe, upstream: Fetched)
    returns (answer: Answer<S>)
    modifies lock
    ensures match RefusalOf(route, probe, old(lock.locked), upstream)
            case Some(e) => answer == Problem(e)
            case None =>
              && answer.Image?
              && Serves(answer.stream, codec, lock, ImageOf(codec, route.params, probe, upstream))
              && fresh(answer.stream) && fresh(answer.stream.guard) && fresh(answer.stream.inner.Repr())
    ensures lock.locked <==> old(lock.locked) || answer.Image?
  {
    match route {
      case ImageXva(params) => answer := HandleImageXva(codec, lock, params, probe, upstream);
      case Elsewhere => answer := Problem(NotFound);
    }
  }

  // ---------------------------------------------------------------- the handler within the protocol

  /** The events of the protocol through which request r goes if it is handled without interruption. */
  function HandlerEvents(r: T.RequestId, kind: T.Kind, probeOk: bool, locked: bool, fetchOk: bool): seq<T.Event> {
    match kind
    case UnknownPath => [T.Validate(r)]
    case BadSource => [T.Validate(r)]
    case KnownFormat => [T.Validate(r)] + ImportEvents(r, locked, fetchOk)
    case AmbiguousFormat =>
      [T.Validate(r)] + ([T.ProbeDone(r, probeOk)] + (if probeOk then ImportEvents(r, locked, fetchOk) else []))
  }

  function ImportEvents(r: T.RequestId, locked: bool, fetchOk: bool): seq<T.Event> {
    [T.TryLock(r)] + (if locked then [] else [T.FetchDone(r, fetchOk)] + (if fetchOk then [] else [T.Release(r)]))
  }

  /** What happened to the state when only request r moved on, to the given phase. */
  ghost predicate MovedOn(s: T.State, t: T.State, r: T.RequestId, phase: T.Phase, owned: seq<T.Resource>, locked: bool)
    requires r < |s.requests|
  {
    t == s.(requests := s.requests[r := s.requests[r].(phase := phase, owned := owned)], locked := locked)
  }

  /** One event of request r, as long as it neither emits data nor drops the token. */
  lemma MoveOn(c: T.Config, s0: T.State, s: T.State, r: T.RequestId, phase: T.Phase, owned: seq<T.Resource>,
               locked: bool, e: T.Event, rest: seq<T.Event>) returns (t: T.State)
    requires r < |s0.requests| && MovedOn(s0, s, r, phase, owned, locked)
    requires T.Enabled(c, s, e) && T.Subject(e) == r && !e.Emit? && !T.Drops(s, e, T.ActivityToken)
    ensures t == T.Next(c, s, e) && T.Perform(c, s, [e] + rest) == T.Perform(c, t, rest)
    ensures var q := T.NextRequest(c.design, locked, s.requests[r], e);
            MovedOn(s0, t, r, q.phase, q.owned, T.NextLocked(s, e))
  {
    t := T.Next(c, s, e);
    var q := T.NextRequest(c.design, locked, s.requests[r], e);
    assert ([e] + rest)[1..] == rest;
    assert t.requests == s0.requests[r := s0.requests[r].(phase := q.phase, owned := q.owned)];
  }

  predicate Ready(c: T.Config, s: T.State, r: T.RequestId) {
    c.design == T.THE_DESIGN && s.process != T.Exited && r < |s.requests|
  }

  ghost predicate EndsUp(c: T.Config, s0: T.State, s: T.State, r: T.RequestId, es: seq<T.Event>, verdict: nat)
    requires r < |s0.requests|
  {
    var done := T.Perform(c, s, es);
    && done.Some?
    && MovedOn(s0, done.value, r, T.Sending(verdict),
               if verdict == 200 then [T.LockGuard, T.ActivityToken] else [T.ActivityToken],
               s0.locked || verdict == 200)
  }

  lemma FromFetching(c: T.Config, s0: T.State, s: T.State, r: T.RequestId, fetchOk: bool)
    requires Ready(c, s0, r) && !s0.locked
    requires MovedOn(s0, s, r, T.Fetching, [T.LockGuard, T.ActivityToken], true)
    ensures EndsUp(c, s0, s, r, [T.FetchDone(r, fetchOk)] + (if fetchOk then [] else [T.Release(r)]),
            if fetchOk then 200 else 502)
  {
    var owned := [T.LockGuard, T.ActivityToken];
    var t := MoveOn(c, s0, s, r, T.Fetching, owned, true, T.FetchDone(r, fetchOk),
        if fetchOk then [] else [T.Release(r)]);
    if !fetchOk {
      assert MovedOn(s0, t, r, T.Failing, owned, true);
      var u := MoveOn(c, s0, t, r, T.Failing, owned, true, T.Release(r), []);
      assert owned[1..] == [T.ActivityToken];
      assert [T.Release(r)] + [] == [T.Release(r)];
    }
  }

  lemma FromDetected(c: T.Config, s0: T.State, s: T.State, r: T.RequestId, fetchOk: bool)
    requires Ready(c, s0, r)
    requires MovedOn(s0, s, r, T.Detected, [T.ActivityToken], s0.locked)
    ensures EndsUp(c, s0, s, r, ImportEvents(r, s0.locked, fetchOk),
            if s0.locked then 409 else if fetchOk then 200 else 502)
  {
    var rest := if s0.locked then [] else [T.FetchDone(r, fetchOk)] + (if fetchOk then [] else [T.Release(r)]);
    var t := MoveOn(c, s0, s, r, T.Detected, [T.ActivityToken], s0.locked, T.TryLock(r), rest);
    if !s0.locked {
      assert [T.LockGuard] + [T.ActivityToken] == [T.LockGuard, T.ActivityToken];
      FromFetching(c, s0, t, r, fetchOk);
    }
  }

  predicate JustEntered(c: T.Config, s: T.State, r: T.RequestId) {
    Ready(c, s, r) && s.requests[r].phase.Validating? && s.requests[r].owned == [T.ActivityToken]
  }

  /** Validation, with whatever comes after it. */
  lemma FromValidating(c: T.Config, s: T.State, r: T.RequestId, rest: seq<T.Event>) returns (t: T.State)
    requires JustEntered(c, s, r)
    ensures T.Perform(c, s, [T.Validate(r)] + rest) == T.Perform(c, t, rest)
    ensures MovedOn(s, t, r, T.Validated(s.requests[r].kind), [T.ActivityToken], s.locked)
  {
    var one := [T.ActivityToken];
    assert s.requests[r := s.requests[r].(phase := T.Validating, owned := one)] == s.requests;
    t := MoveOn(c, s, s, r, T.Validating, one, s.locked, T.Validate(r), rest);
  }

  lemma RejectedIsARun(c: T.Config, s: T.State, r: T.RequestId)
    requires JustEntered(c, s, r) && (s.requests[r].kind.UnknownPath? || s.requests[r].kind.BadSource?)
    ensures EndsUp(c, s, s, r, [T.Validate(r)], if s.requests[r].kind.UnknownPath? then 404 else 400)
  {
    var t := FromValidating(c, s, r, []);
    assert [T.Validate(r)] + [] == [T.Validate(r)];
  }

  lemma ProbedIsARun(c: T.Config, s: T.State, r: T.RequestId, probeOk: bool, fetchOk: bool)
    requires JustEntered(c, s, r) && s.requests[r].kind.AmbiguousFormat?
    ensures EndsUp(c, s, s, r, HandlerEvents(r, T.AmbiguousFormat, probeOk, s.locked, fetchOk),
                   if !probeOk then 502 else if s.locked then 409 else if fetchOk then 200 else 502)
  {
    var one := [T.ActivityToken];
    var rest := if probeOk then ImportEvents(r, s.locked, fetchOk) else [];
    var t := FromValidating(c, s, r, [T.ProbeDone(r, probeOk)] + rest);
    var u := MoveOn(c, s, t, r, T.Probing, one, s.locked, T.ProbeDone(r, probeOk), rest);
    hide ImportEvents;
    if probeOk {
      FromDetected(c, s, u, r, fetchOk);
    }
  }

  /** The events of an uninterrupted handler are enabled one after the other, the request ends up sending the
      status of `Verdict`, the lock is left as `HandleImageXva` leaves it, the request owns a guard exactly
      if the status is 200, and nothing else has changed. */
  lemma HandlerPerforms(c: T.Config, s: T.State, r: T.RequestId, probeOk: bool, fetchOk: bool)
    requires JustEntered(c, s, r)
    ensures var kind := s.requests[r].kind;
            EndsUp(c, s, s, r, HandlerEvents(r, kind, probeOk, s.locked, fetchOk),
                Verdict(kind, probeOk, s.locked, fetchOk))
  {
    hide EndsUp, ImportEvents;
    match s.requests[r].kind {
      case UnknownPath => RejectedIsARun(c, s, r);
      case BadSource => RejectedIsARun(c, s, r);
      case KnownFormat =>
        var t := FromValidating(c, s, r, ImportEvents(r, s.locked, fetchOk));
        FromDetected(c, s, t, r, fetchOk);
        SameEnd(c, s, s, t, r, [T.Validate(r)] + ImportEvents(r, s.locked, fetchOk), ImportEvents(r, s.locked, fetchOk),
          if s.locked then 409 else if fetchOk then 200 else 502);
      case AmbiguousFormat => ProbedIsARun(c, s, r, probeOk, fetchOk);
    }
  }

  /** An uninterrupted handler extends every run at whose end its request has just entered. */
  lemma HandlerIsARun(c: T.Config, ss: seq<T.State>, es: seq<T.Event>, r: T.RequestId, probeOk: bool, fetchOk: bool)
    returns (ts: seq<T.State>)
    requires T.IsRun(c, ss, es) && JustEntered(c, ss[|es|], r)
    ensures var s := ss[|es|];
            var kind := s.requests[r].kind;
            var events, verdict := HandlerEvents(r, kind, probeOk, s.locked, fetchOk),
                Verdict(kind, probeOk, s.locked, fetchOk);
            && T.IsRun(c, ts, es + events) && ss <= ts
            && MovedOn(s, ts[|es + events|], r, T.Sending(verdict),
                       if verdict == 200 then [T.LockGuard, T.ActivityToken] else [T.ActivityToken],
                       s.locked || verdict == 200)
  {
    var s := ss[|es|];
    HandlerPerforms(c, s, r, probeOk, fetchOk);
    hide T.IsRun, T.Perform, HandlerEvents, Verdict, MovedOn;
    ts := R.PerformedIsARun(c, ss, es, HandlerEvents(r, s.requests[r].kind, probeOk, s.locked, fetchOk));
  }

  lemma SameEnd(c: T.Config, s0: T.State, s: T.State, t: T.State, r: T.RequestId, es: seq<T.Event>, fs: seq<T.Event>,
                verdict: nat)
    requires r < |s0.requests| && T.Perform(c, s, es) == T.Perform(c, t, fs) && EndsUp(c, s0, t, r, fs, verdict)
    ensures EndsUp(c, s0, s, r, es, verdict)
  {
    hide T.Perform;
  }
}
