/** The streaming pipeline as a pure machine: upstream chunks, re-chunking reader, optional decoder,
    and the stream of chunks handed to the connection.  Module Stream implements it step by step. */
module Pipeline {
  import opened Basics

  // ---------------------------------------------------------------- upstream

  /** One poll of the upstream body: nothing yet, a chunk of any size (also empty), or a failure. */
  datatype Item = NotYet | Data(bytes: Bytes) | Fault(code: int)

  /** The bytes that arrive before the first failure. */
  function Content(items: seq<Item>): Bytes {
    if items == [] || items[0].Fault? then []
    else if items[0].NotYet? then Content(items[1..])
    else items[0].bytes + Content(items[1..])
  }

  predicate Faultless(items: seq<Item>) {
    forall i | 0 <= i < |items| :: !items[i].Fault?
  }

  // ---------------------------------------------------------------- stream reader

  /** What is left of the upstream, and what is left of the chunk taken from it last. */
  datatype Reader = Reader(items: seq<Item>, chunk: Bytes)

  /** The answer of a poll for bytes; `Ready([])` is the end of the data. */
  datatype Filled = Wait | Ready(bytes: Bytes) | Failed(code: int)

  function Ahead(r: Reader): Bytes {
    r.chunk + Content(r.items)
  }

  function FillBuf(r: Reader): (Reader, Filled)
    decreases |r.items|
  {
    if r.chunk != [] then (r, Ready(r.chunk))
    else if r.items == [] then (r, Ready([]))
    else match r.items[0]
      case NotYet => (Reader(r.items[1..], []), Wait)
      case Fault(code) => (Reader(r.items[1..], []), Failed(code))
      case Data(bytes) => FillBuf(Reader(r.items[1..], bytes))
  }

  function ReadSome(r: Reader, room: nat): (Reader, Filled) {
    var (r', f) := FillBuf(r);
    if f.Ready? then
      var n := Min(room, |f.bytes|);
      (r'.(chunk := f.bytes[n..]), Ready(f.bytes[..n]))
    else (r', f)
  }

  lemma {:induction false} FillBufLaw(r: Reader)
    ensures var (r', f) := FillBuf(r);
            && |r'.items| <= |r.items|
            && (f.Wait? ==> |r'.items| < |r.items| && Ahead(r') == Ahead(r))
            && (f.Ready? ==> r'.chunk == f.bytes && Ahead(r') == Ahead(r))
            && (f.Ready? && f.bytes == [] ==> r'.items == [] && Ahead(r) == [])
            && (f.Failed? ==> Ahead(r) == [] && !Faultless(r.items))
            && (!f.Failed? ==> (Faultless(r.items) <==> Faultless(r'.items)))
            && (f.Ready? && f.bytes == [] ==> Faultless(r.items))
    decreases |r.items|
  {
    if r.chunk != [] || r.items == [] {
    } else {
      var rest := r.items[1..];
      assert r.items == [r.items[0]] + rest;
      if r.items[0].Data? {
        var next := Reader(rest, r.items[0].bytes);
        FillBufLaw(next);
        assert Ahead(next) == Ahead(r);
        assert Faultless(rest) <==> Faultless(r.items);
      } else if r.items[0].NotYet? {
        assert Faultless(rest) <==> Faultless(r.items);
      }
    }
  }

  /** Reading takes a non-empty piece off the front of what is ahead, never more than there is room
      for; an empty answer means that the upstream has ended without failing. */
  lemma ReadSomeLaw(r: Reader, room: Positive)
    ensures var (r', f) := ReadSome(r, room);
            && |r'.items| <= |r.items|
            && (f.Wait? ==> |r'.items| < |r.items| && Ahead(r') == Ahead(r))
            && (f.Ready? ==> |f.bytes| <= room && f.bytes + Ahead(r') == Ahead(r))
            && (f.Ready? && f.bytes == [] ==> Ahead(r) == [] && Faultless(r.items))
            && (f.Failed? ==> Ahead(r) == [] && !Faultless(r.items))
            && (!f.Failed? ==> (Faultless(r.items) <==> Faultless(r'.items)))
  {
    FillBufLaw(r);
    var (r1, f1) := FillBuf(r);
    hide FillBuf, Content;
    if f1.Ready? {
      CutFront(f1.bytes, Min(room, |f1.bytes|), Content(r1.items));
    }
  }

  lemma CutFront(b: Bytes, n: nat, rest: Bytes)
    requires n <= |b|
    ensures b[..n] + (b[n..] + rest) == b + rest
  {
    assert b == b[..n] + b[n..];
  }

  // ---------------------------------------------------------------- incremental decoder

  /** What a decoder makes of one more input byte: some output, the last output, or an error. */
  datatype Fed<S> = More(state: S, out: Bytes) | Last(out: Bytes) | Corrupt

  /** Any deterministic incremental decoder, as a machine over single input bytes. */
  datatype Codec<!S> = Codec(start: S, feed: (S, byte) -> Fed<S>)

  datatype Stage<S> = Running(state: S) | Finished | Broken

  function FeedOne<S>(codec: Codec<S>, st: Stage<S>, b: byte): (Stage<S>, Bytes)
    requires st.Running?
  {
    match codec.feed(st.state, b)
    case More(s, out) => (Running(s), out)
    case Last(out) => (Finished, out)
    case Corrupt => (Broken, [])
  }

  /** Decoding a whole input in one go; input after the end is ignored. */
  function Decode<S>(codec: Codec<S>, st: Stage<S>, input: Bytes): (Stage<S>, Bytes)
    decreases |input|
  {
    if input == [] || !st.Running? then (st, [])
    else
      var (st1, out1) := FeedOne(codec, st, input[0]);
      var (st2, out2) := Decode(codec, st1, input[1..]);
      (st2, out1 + out2)
  }

  /** Decoding does not depend on where the input is cut. */
  lemma {:induction false} DecodeChunks<S>(codec: Codec<S>, st: Stage<S>, a: Bytes, b: Bytes)
    ensures var (st1, out1) := Decode(codec, st, a);
            var (st2, out2) := Decode(codec, st1, b);
            Decode(codec, st, a + b) == (st2, out1 + out2)
    decreases |a|
  {
    if a == [] {
      assert a + b == b;
      var nothing: Bytes := [];
      assert nothing + Decode(codec, st, b).1 == Decode(codec, st, b).1;
    } else if st.Running? {
      assert (a + b)[0] == a[0];
      var (st1, out1) := FeedOne(codec, st, a[0]);
      DecodeChunks(codec, st1, a[1..], b);
      assert (a + b)[1..] == a[1..] + b;
      var (st2, out2) := Decode(codec, st1, a[1..]);
      var (st3, out3) := Decode(codec, st2, b);
      assert Decode(codec, st, a) == (st2, out1 + out2);
      assert Decode(codec, st, a + b) == (st3, out1 + (out2 + out3));
      assert out1 + (out2 + out3) == (out1 + out2) + out3;
    } else {
      var nothing: Bytes := [];
      assert nothing + nothing == nothing;
    }
  }

  const WINDOW: Positive := 65536
  const CORRUPT := -1
  const TRUNCATED := -2

  /** The decoder with its 64 KiB input window and its decoded but undelivered bytes. */
  datatype Gunzip<S> = Gunzip(reader: Reader, window: Bytes, stage: Stage<S>, pending: Bytes)

  function Undecoded<S>(g: Gunzip<S>): Bytes {
    g.window + Ahead(g.reader)
  }

  function Undelivered<S>(codec: Codec<S>, g: Gunzip<S>): Bytes {
    g.pending + Decode(codec, g.stage, Undecoded(g)).1
  }

  function FinalStage<S>(codec: Codec<S>, g: Gunzip<S>): Stage<S> {
    Decode(codec, g.stage, Undecoded(g)).0
  }

  /** One turn of a read: either it goes on with more output gained, or it stops with an answer. */
  datatype Turn<S> = GoOn(next: Gunzip<S>, gained: Bytes) | Stop(last: Gunzip<S>, answer: Filled)

  function TakeTurn<S>(codec: Codec<S>, g: Gunzip<S>, room: Positive, acc: Bytes): Turn<S>
    requires |acc| <= room
  {
    if |acc| == room then Stop(g, Ready(acc))
    else if g.pending != [] then
      var n := Min(room - |acc|, |g.pending|);
      GoOn(g.(pending := g.pending[n..]), g.pending[..n])
    else if g.stage.Finished? then Stop(g, Ready(acc))
    else if g.stage.Broken? then Stop(g, Failed(CORRUPT))
    else if g.window != [] then
      var (st, out) := FeedOne(codec, g.stage, g.window[0]);
      GoOn(g.(window := g.window[1..], stage := st, pending := out), [])
    else
      var (r, f) := ReadSome(g.reader, WINDOW);
      match f
      case Wait => Stop(g.(reader := r), if acc == [] then Wait else Ready(acc))
      case Failed(code) => Stop(g.(reader := r), Failed(code))
      case Ready(bytes) =>
        if bytes == [] then Stop(g.(reader := r), Failed(TRUNCATED))
        else GoOn(g.(reader := r, window := bytes), [])
  }

  /** One read of the decoder: collect output until the room is used up, the input has to be waited
      for, or the data ends.  A failure discards what this read had collected. */
  function Gather<S>(codec: Codec<S>, g: Gunzip<S>, room: Positive, acc: Bytes): (Gunzip<S>, Filled)
    requires |acc| <= room
    decreases |Undecoded(g)|, |Ahead(g.reader)|, |g.pending|
  {
    TurnShrinks(codec, g, room, acc);
    match TakeTurn(codec, g, room, acc)
    case Stop(g', f) => (g', f)
    case GoOn(g', gained) => Gather(codec, g', room, acc + gained)
  }

  lemma TurnShrinks<S>(codec: Codec<S>, g: Gunzip<S>, room: Positive, acc: Bytes)
    requires |acc| <= room
    ensures var t := TakeTurn(codec, g, room, acc);
            t.GoOn? ==>
              && |acc + t.gained| <= room
              && (|| |Undecoded(t.next)| < |Undecoded(g)|
                  || (&& |Undecoded(t.next)| == |Undecoded(g)|
                      && (|| |Ahead(t.next.reader)| < |Ahead(g.reader)|
                          || (|Ahead(t.next.reader)| == |Ahead(g.reader)| && |t.next.pending| < |g.pending|))))
  {
    ReadSomeLaw(g.reader, WINDOW);
  }

  /** From g to g' the decoder delivered `gained` and the rest of its output is still to come. */
  ghost predicate DecoderStep<S>(codec: Codec<S>, g: Gunzip<S>, g': Gunzip<S>, gained: Bytes) {
    && gained + Undelivered(codec, g') == Undelivered(codec, g)
    && FinalStage(codec, g') == FinalStage(codec, g)
    && |g'.reader.items| <= |g.reader.items|
  }

  lemma FeedLaw<S>(codec: Codec<S>, g: Gunzip<S>)
    requires g.pending == [] && g.stage.Running? && g.window != []
    ensures var (st, out) := FeedOne(codec, g.stage, g.window[0]);
            DecoderStep(codec, g, g.(window := g.window[1..], stage := st, pending := out), [])
  {
    var (st, out) := FeedOne(codec, g.stage, g.window[0]);
    var g' := g.(window := g.window[1..], stage := st, pending := out);
    assert Undecoded(g)[1..] == Undecoded(g');
    assert Undecoded(g)[0] == g.window[0];
  }

  lemma RefillLaw<S>(codec: Codec<S>, g: Gunzip<S>)
    requires g.window == []
    ensures var (r, f) := ReadSome(g.reader, WINDOW);
            f.Ready? ==> DecoderStep(codec, g, g.(reader := r, window := f.bytes), [])
    ensures var (r, f) := ReadSome(g.reader, WINDOW);
            f.Wait? ==> DecoderStep(codec, g, g.(reader := r), [])
  {
    ReadSomeLaw(g.reader, WINDOW);
    var (r, f) := ReadSome(g.reader, WINDOW);
    if f.Ready? {
      assert Undecoded(g.(reader := r, window := f.bytes)) == Undecoded(g);
    }
  }

  lemma MoveLaw<S>(codec: Codec<S>, g: Gunzip<S>, n: nat)
    requires n <= |g.pending|
    ensures DecoderStep(codec, g, g.(pending := g.pending[n..]), g.pending[..n])
  {
    var moved, left := g.pending[..n], g.pending[n..];
    var tail := Decode(codec, g.stage, Undecoded(g)).1;
    assert g.pending == moved + left;
    assert moved + (left + tail) == (moved + left) + tail;
  }

  /** A turn that goes on delivers what it gained; one that stops has the answer the state deserves. */
  lemma TurnLaw<S>(codec: Codec<S>, g: Gunzip<S>, room: Positive, acc: Bytes)
    requires |acc| <= room
    ensures var t := TakeTurn(codec, g, room, acc);
            && (t.GoOn? ==> DecoderStep(codec, g, t.next, t.gained))
            && (t.Stop? && !t.answer.Failed? ==> DecoderStep(codec, g, t.last, []))
            && (t.Stop? && t.answer.Wait? ==> acc == [] && |t.last.reader.items| < |g.reader.items|)
            && (t.Stop? && t.answer.Ready? ==> t.answer.bytes == acc)
            && (t.Stop? && t.answer == Ready([]) ==> Undelivered(codec, g) == [] && FinalStage(codec, g).Finished?)
            && (t.Stop? && t.answer.Failed? ==> !FinalStage(codec, g).Finished?)
  {
    if |acc| < room {
      if g.pending != [] {
        MoveLaw(codec, g, Min(room - |acc|, |g.pending|));
      } else if g.stage.Running? {
        ReadSomeLaw(g.reader, WINDOW);
        if g.window != [] {
          FeedLaw(codec, g);
        } else {
          RefillLaw(codec, g);
        }
      }
    }
  }

  lemma StepsCompose<S>(codec: Codec<S>, g: Gunzip<S>, g1: Gunzip<S>, g2: Gunzip<S>, a: Bytes, b: Bytes)
    requires DecoderStep(codec, g, g1, a) && DecoderStep(codec, g1, g2, b)
    ensures DecoderStep(codec, g, g2, a + b)
  {
    var rest := Undelivered(codec, g2);
    assert (a + b) + rest == a + (b + rest);
  }

  /** One read of the decoder delivers the next piece of the decoded output, whatever the boundaries of
      the network chunks; an empty answer means that the decoder has reached its own end and everything
      was delivered; a failure means that the decoder cannot reach its end. */
  lemma {:induction false} GatherLaw<S>(codec: Codec<S>, g: Gunzip<S>, room: Positive, acc: Bytes)
    requires |acc| <= room
    ensures var (g', f) := Gather(codec, g, room, acc);
            && (f.Wait? ==> acc == [] && DecoderStep(codec, g, g', []) && |g'.reader.items| < |g.reader.items|)
            && (f.Ready? ==> acc <= f.bytes && |f.bytes| <= room && DecoderStep(codec, g, g', f.bytes[|acc|..]))
            && (f.Ready? && f.bytes == [] ==> Undelivered(codec, g) == [] && FinalStage(codec, g).Finished?)
            && (f.Failed? ==> !FinalStage(codec, g).Finished?)
    decreases |Undecoded(g)|, |Ahead(g.reader)|, |g.pending|
  {
    hide TakeTurn, Decode;
    TurnShrinks(codec, g, room, acc);
    TurnLaw(codec, g, room, acc);
    var t := TakeTurn(codec, g, room, acc);
    var (g', f) := Gather(codec, g, room, acc);
    if t.Stop? {
    } else {
      GatherLaw(codec, t.next, room, acc + t.gained);
      if f.Wait? {
        StepsCompose(codec, g, t.next, g', t.gained, []);
        assert t.gained + [] == [];
      } else if f.Ready? {
        var later := f.bytes[|acc + t.gained|..];
        StepsCompose(codec, g, t.next, g', t.gained, later);
        assert f.bytes[|acc|..] == t.gained + later;
      }
    }
  }

  // ---------------------------------------------------------------- the stream of chunks

  /** Raw images go straight through; compressed ones through the decoder. */
  datatype Source<S> = RawSource(reader: Reader) | GzipSource(gunzip: Gunzip<S>)

  function ReadSource<S>(codec: Codec<S>, src: Source<S>, room: Positive): (Source<S>, Filled) {
    match src
    case RawSource(reader) => var (r, f) := ReadSome(reader, room); (RawSource(r), f)
    case GzipSource(gunzip) => var (g, f) := Gather(codec, gunzip, room, []); (GzipSource(g), f)
  }

  /** The bytes that the source has still to deliver if nothing goes wrong. */
  function ToCome<S>(codec: Codec<S>, src: Source<S>): Bytes {
    if src.RawSource? then Ahead(src.reader) else Undelivered(codec, src.gunzip)
  }

  /** Nothing goes wrong: the upstream does not fail, or the decoder reaches its own end first. */
  predicate EndsWell<S>(codec: Codec<S>, src: Source<S>) {
    if src.RawSource? then Faultless(src.reader.items) else FinalStage(codec, src.gunzip).Finished?
  }

  function ItemsLeft<S>(src: Source<S>): nat {
    if src.RawSource? then |src.reader.items| else |src.gunzip.reader.items|
  }

  lemma ReadSourceLaw<S>(codec: Codec<S>, src: Source<S>, room: Positive)
    ensures var (src', f) := ReadSource(codec, src, room);
            && (!f.Failed? ==> ItemsLeft(src') <= ItemsLeft(src) && (EndsWell(codec, src) <==> EndsWell(codec, src')))
            && (f.Wait? ==> ToCome(codec, src') == ToCome(codec, src) && ItemsLeft(src') < ItemsLeft(src))
            && (f.Ready? ==> |f.bytes| <= room && f.bytes + ToCome(codec, src') == ToCome(codec, src))
            && (f.Ready? && f.bytes == [] ==> ToCome(codec, src) == [] && EndsWell(codec, src))
            && (f.Failed? ==> !EndsWell(codec, src))
  {
    match src
    case RawSource(reader) =>
      ReadSomeLaw(reader, room);
    case GzipSource(gunzip) =>
      GatherLaw(codec, gunzip, room, []);
      var (g', f) := Gather(codec, gunzip, room, []);
      if f.Ready? {
        assert f.bytes[0..] == f.bytes;
      }
  }

  /** The answer of one poll of the stream. */
  datatype Polled = Pending | Chunk(bytes: Bytes) | Error(code: int) | End

  const U64 := 0x1_0000_0000_0000_0000

  /** The chunk stream with its byte counter.  `spare` is the free part of the read buffer. */
  datatype ChunkStream<S> = ChunkStream(source: Source<S>, open: bool, spare: nat, sent: nat)

  /** One poll; `reserve` is the size the buffer gets if its free part is used up. */
  function PollNext<S>(codec: Codec<S>, s: ChunkStream<S>, reserve: Positive): (ChunkStream<S>, Polled) {
    if !s.open then (s, End)
    else
      var room := if s.spare == 0 then reserve else s.spare;
      var (src, f) := ReadSource(codec, s.source, room);
      match f
      case Wait => (s.(source := src, spare := room), Pending)
      case Failed(code) => (s.(source := src, spare := room, open := false), Error(code))
      case Ready(bytes) =>
        ReadSourceLaw(codec, s.source, room);
        if bytes == [] then (s.(source := src, spare := room, open := false), End)
        else (s.(source := src, spare := room - |bytes|, sent := (s.sent + |bytes|) % U64), Chunk(bytes))
  }

  /** Polling repeatedly, with the buffer sizes of all the polls. */
  function PollAll<S>(codec: Codec<S>, s: ChunkStream<S>, reserves: seq<Positive>): (ChunkStream<S>, seq<Polled>)
    decreases |reserves|
  {
    if reserves == [] then (s, [])
    else
      var (s1, out) := PollNext(codec, s, reserves[0]);
      var (s2, outs) := PollAll(codec, s1, reserves[1..]);
      (s2, [out] + outs)
  }

  function Payload(out: Polled): Bytes {
    if out.Chunk? then out.bytes else []
  }

  /** The bytes that were handed out in chunks. */
  function Delivered(outs: seq<Polled>): Bytes {
    if outs == [] then [] else Payload(outs[0]) + Delivered(outs[1..])
  }

  predicate Failing(outs: seq<Polled>) {
    exists i :: 0 <= i < |outs| && outs[i].Error?
  }

  lemma PollNextLaw<S>(codec: Codec<S>, s: ChunkStream<S>, reserve: Positive)
    requires s.open
    ensures var (s', out) := PollNext(codec, s, reserve);
            && (s'.open <==> out.Pending? || out.Chunk?)
            && (out.Pending? ==>
                  ToCome(codec, s'.source) == ToCome(codec, s.source) && ItemsLeft(s'.source) < ItemsLeft(s.source))
            && (out.Chunk? ==> out.bytes != [] && out.bytes + ToCome(codec, s'.source) == ToCome(codec, s.source)
                               && ItemsLeft(s'.source) <= ItemsLeft(s.source))
            && (out.End? ==> ToCome(codec, s.source) == [] && EndsWell(codec, s.source))
            && (out.Error? ==> !EndsWell(codec, s.source))
            && (s'.open ==> (EndsWell(codec, s.source) <==> EndsWell(codec, s'.source)))
            && s'.sent == if out.Chunk? then (s.sent + |out.bytes|) % U64 else s.sent
  {
    ReadSourceLaw(codec, s.source, if s.spare == 0 then reserve else s.spare);
  }

  lemma {:induction false} ClosedStaysClosed<S>(codec: Codec<S>, s: ChunkStream<S>, reserves: seq<Positive>)
    requires !s.open
    ensures var (s', outs) := PollAll(codec, s, reserves);
            s' == s && |outs| == |reserves| && Delivered(outs) == [] && forall i | 0 <= i < |outs| :: outs[i].End?
    decreases |reserves|
  {
    if reserves == [] {
    } else {
      ClosedStaysClosed(codec, s, reserves[1..]);
    }
  }

  lemma CountLaw<S>(codec: Codec<S>, s: ChunkStream<S>, reserve: Positive)
    requires s.sent < U64
    ensures var (s1, out) := PollNext(codec, s, reserve);
            s1.sent == (s.sent + |Payload(out)|) % U64 && s1.sent < U64
  {
  }

  /** The counter grows by exactly the bytes handed out, modulo 2^64: errors, waits and the end pass
      through without being counted. */
  lemma {:induction false} CounterAgrees<S>(codec: Codec<S>, s: ChunkStream<S>, reserves: seq<Positive>)
    requires s.sent < U64
    ensures var (s', outs) := PollAll(codec, s, reserves);
            s'.sent == (s.sent + |Delivered(outs)|) % 0x1_0000_0000_0000_0000
    decreases |reserves|
  {
    hide PollNext;
    if reserves == [] {
    } else {
      var (s1, out) := PollNext(codec, s, reserves[0]);
      CountLaw(codec, s, reserves[0]);
      CounterAgrees(codec, s1, reserves[1..]);
      var (s2, outs) := PollAll(codec, s1, reserves[1..]);
      assert ([out] + outs)[1..] == outs;
    }
  }

  /** After the end or an error there is nothing but the end. */
  lemma {:induction false} NothingAfterTheEnd<S>(codec: Codec<S>, s: ChunkStream<S>, reserves: seq<Positive>, i: nat,
                                                 j: nat)
    requires i < j < |reserves|
    ensures |PollAll(codec, s, reserves).1| == |reserves|
    ensures var outs := PollAll(codec, s, reserves).1;
            outs[i].Error? || outs[i].End? ==> outs[j].End?
    decreases |reserves|
  {
    var (s1, out) := PollNext(codec, s, reserves[0]);
    AsManyAnswers(codec, s1, reserves[1..]);
    if i > 0 {
      NothingAfterTheEnd(codec, s1, reserves[1..], i - 1, j - 1);
    } else if out.Error? || out.End? {
      if s.open {
        PollNextLaw(codec, s, reserves[0]);
      }
      ClosedStaysClosed(codec, s1, reserves[1..]);
    }
  }

  lemma {:induction false} AsManyAnswers<S>(codec: Codec<S>, s: ChunkStream<S>, reserves: seq<Positive>)
    ensures |PollAll(codec, s, reserves).1| == |reserves|
    decreases |reserves|
  {
    if reserves == [] {
    } else {
      AsManyAnswers(codec, PollNext(codec, s, reserves[0]).0, reserves[1..]);
    }
  }

  lemma FailingTail(out: Polled, outs: seq<Polled>)
    ensures Failing([out] + outs) <==> out.Error? || Failing(outs)
  {
    var all := [out] + outs;
    assert all[0] == out && all[1..] == outs;
    if i :| 0 <= i < |outs| && outs[i].Error? {
      assert all[i + 1].Error?;
    }
  }

  /** Whatever the network chunks, the buffer sizes and the moment the polling stops: what was handed
      out is a prefix of what the upstream holds (decoded, for a compressed image), and if the stream
      ended without an error it is all of it. */
  lemma {:induction false} DeliveryIsFaithful<S>(codec: Codec<S>, s: ChunkStream<S>, reserves: seq<Positive>)
    requires s.open
    ensures var outs := PollAll(codec, s, reserves).1;
            && Delivered(outs) <= ToCome(codec, s.source)
            && (End in outs && !Failing(outs) ==>
                  Delivered(outs) == ToCome(codec, s.source) && EndsWell(codec, s.source))
    decreases |reserves|
  {
    hide PollNext;
    if reserves == [] {
    } else {
      PollNextLaw(codec, s, reserves[0]);
      var (s1, out) := PollNext(codec, s, reserves[0]);
      var outs := PollAll(codec, s1, reserves[1..]).1;
      FailingTail(out, outs);
      assert ([out] + outs)[1..] == outs;
      if s1.open {
        DeliveryIsFaithful(codec, s1, reserves[1..]);
        assert Payload(out) + ToCome(codec, s1.source) == ToCome(codec, s.source);
      } else {
        ClosedStaysClosed(codec, s1, reserves[1..]);
      }
    }
  }

  /** Enough polls bring the stream to its end: then it has handed out everything if and only if nothing
      went wrong upstream, and otherwise it has reported an error. */
  lemma {:induction false} EnoughPolls<S>(codec: Codec<S>, s: ChunkStream<S>, reserves: seq<Positive>)
    requires s.open && s.sent < U64
    requires |reserves| > ItemsLeft(s.source) + |ToCome(codec, s.source)|
    ensures var (s', outs) := PollAll(codec, s, reserves);
            && !s'.open
            && (Failing(outs) <==> !EndsWell(codec, s.source))
            && (EndsWell(codec, s.source) ==> End in outs && Delivered(outs) == ToCome(codec, s.source))
    decreases |reserves|
  {
    hide PollNext;
    PollNextLaw(codec, s, reserves[0]);
    var (s1, out) := PollNext(codec, s, reserves[0]);
    var (s2, outs) := PollAll(codec, s1, reserves[1..]);
    var all := [out] + outs;
    assert all[1..] == outs && all[0] == out;
    FailingTail(out, outs);
    if s1.open {
      EnoughPolls(codec, s1, reserves[1..]);
      assert Payload(out) + ToCome(codec, s1.source) == ToCome(codec, s.source);
    } else {
      ClosedStaysClosed(codec, s1, reserves[1..]);
      assert Delivered(all) == [];
    }
  }

  // ---------------------------------------------------------------- the pipeline as it is assembled

  function RawStream<S>(items: seq<Item>): ChunkStream<S> {
    ChunkStream(RawSource(Reader(items, [])), true, 0, 0)
  }

  function GzipStream<S>(codec: Codec<S>, items: seq<Item>): ChunkStream<S> {
    ChunkStream(GzipSource(Gunzip(Reader(items, []), [], Running(codec.start), [])), true, 0, 0)
  }

  /** A raw image is streamed byte for byte. */
  lemma RawIsTransparent<S>(codec: Codec<S>, items: seq<Item>, reserves: seq<Positive>)
    ensures var outs := PollAll(codec, RawStream<S>(items), reserves).1;
            && Delivered(outs) <= Content(items)
            && (End in outs && !Failing(outs) ==> Delivered(outs) == Content(items) && Faultless(items))
            && (|reserves| > |items| + |Content(items)| && Faultless(items) ==>
                  End in outs && Delivered(outs) == Content(items))
  {
    var s := RawStream<S>(items);
    assert ToCome(codec, s.source) == Content(items);
    DeliveryIsFaithful(codec, s, reserves);
    if |reserves| > |items| + |Content(items)| {
      EnoughPolls(codec, s, reserves);
    }
  }

  /** A compressed image arrives as the one-shot decoding of its bytes, and two upstreams that carry
      the same bytes deliver the same data however the network cut them: what one has delivered by the
      time it stops and what the other has are prefixes of the same decoding. */
  lemma GzipIgnoresChunking<S>(codec: Codec<S>, a: seq<Item>, b: seq<Item>, ra: seq<Positive>, rb: seq<Positive>)
    requires Content(a) == Content(b)
    ensures var whole := Decode(codec, Running(codec.start), Content(a));
            var outsA := PollAll(codec, GzipStream(codec, a), ra).1;
            var outsB := PollAll(codec, GzipStream(codec, b), rb).1;
            && Delivered(outsA) <= whole.1 && Delivered(outsB) <= whole.1
            && (End in outsA && !Failing(outsA) ==> Delivered(outsA) == whole.1 && whole.0.Finished?)
            && (End in outsA && !Failing(outsA) && End in outsB && !Failing(outsB) ==>
                  Delivered(outsA) == Delivered(outsB))
            && (|ra| > |a| + |whole.1| && whole.0.Finished? ==> End in outsA && Delivered(outsA) == whole.1)
            && (|ra| > |a| + |whole.1| && !whole.0.Finished? ==> Failing(outsA))
  {
    var nothing: Bytes := [];
    forall items: seq<Item> | items == a || items == b
      ensures ToCome(codec, GzipStream(codec, items).source) == Decode(codec, Running(codec.start), Content(items)).1
      ensures EndsWell(codec, GzipStream(codec, items).source) <==>
              Decode(codec, Running(codec.start), Content(items)).0.Finished?
    {
      assert nothing + (nothing + Content(items)) == Content(items);
      assert nothing + Decode(codec, Running(codec.start), Content(items)).1
          == Decode(codec, Running(codec.start), Content(items)).1;
    }
    DeliveryIsFaithful(codec, GzipStream(codec, a), ra);
    DeliveryIsFaithful(codec, GzipStream(codec, b), rb);
    if |ra| > |a| + |Decode(codec, Running(codec.start), Content(a)).1| {
      EnoughPolls(codec, GzipStream(codec, a), ra);
    }
  }
}
