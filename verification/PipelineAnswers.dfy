/** When a poll waits, fails or ends, said of the upstream's items alone. */
module PipelineAnswers {
  import opened Basics
  import opened Pipeline

  /** Item k is the first that is not an empty chunk. */
  ghost predicate FirstAt(items: seq<Item>, k: nat) {
    k < |items| && items[k] != Data([]) && forall j | 0 <= j < k :: items[j] == Data([])
  }

  ghost predicate OnlyEmptyChunks(items: seq<Item>) {
    forall j | 0 <= j < |items| :: items[j] == Data([])
  }

  /** Without an unread chunk the reader answers as its first item that is not an empty chunk: it waits if
      nothing has arrived, fails with the code of the failure, and hands over a chunk.  Exactly the items
      behind that one are left. */
  lemma {:induction false} FillBufFollowsItems(items: seq<Item>, k: nat)
    requires FirstAt(items, k)
    ensures FillBuf(Reader(items, [])) ==
            match items[k]
            case NotYet => (Reader(items[k + 1..], []), Wait)
            case Fault(code) => (Reader(items[k + 1..], []), Failed(code))
            case Data(bytes) => (Reader(items[k + 1..], bytes), Ready(bytes))
    decreases |items|
  {
    if k == 0 {
      assert items[0] != Data([]);
    } else {
      assert items[0] == Data([]);
      assert FirstAt(items[1..], k - 1);
      FillBufFollowsItems(items[1..], k - 1);
      assert items[1..][k..] == items[k + 1..];
    }
  }

  lemma {:induction false} FillBufOfNothing(items: seq<Item>)
    requires OnlyEmptyChunks(items)
    ensures FillBuf(Reader(items, [])) == (Reader([], []), Ready([]))
    decreases |items|
  {
    if items == [] {
    } else {
      assert items[0] == Data([]);
      FillBufOfNothing(items[1..]);
    }
  }

  lemma {:induction false} FirstOrNone(items: seq<Item>) returns (k: nat)
    ensures if k < |items| then FirstAt(items, k) else OnlyEmptyChunks(items)
  {
    if items == [] || items[0] != Data([]) {
      k := 0;
    } else {
      k := FirstOrNone(items[1..]);
      k := k + 1;
    }
  }

  // ---------------------------------------------------------------- raw streams

  /** The next thing that the upstream has to say after its empty chunks. */
  ghost predicate NextIs(items: seq<Item>, what: Item, rest: seq<Item>) {
    exists k: nat :: FirstAt(items, k) && items[k] == what && items[k + 1..] == rest
  }

  /** One poll of an open raw stream.  It waits if and only if no chunk is left unread and the upstream has
      nothing yet; it fails with a code if and only if that is the code with which the upstream fails next;
      it ends if and only if there are only empty chunks left; and otherwise it hands out as much of the next
      chunk as fits. */
  lemma RawPollFollowsItems<S>(codec: Codec<S>, s: ChunkStream<S>, reserve: Positive)
    requires s.open && s.source.RawSource?
    ensures var (s', out) := PollNext(codec, s, reserve);
            var items, chunk := s.source.reader.items, s.source.reader.chunk;
            var room := if s.spare == 0 then reserve else s.spare;
            && s'.source.RawSource?
            && (out.Pending? <==> chunk == [] && exists rest :: NextIs(items, NotYet, rest))
            && (out.Pending? ==> s'.source.reader.chunk == [] && NextIs(items, NotYet, s'.source.reader.items))
            && (forall code :: out == Error(code) <==> chunk == [] && exists rest :: NextIs(items, Fault(code), rest))
            && (out.End? <==> chunk == [] && OnlyEmptyChunks(items))
            && (chunk != [] ==> out == Chunk(chunk[..Min(room, |chunk|)]))
            && (forall b, rest | chunk == [] && NextIs(items, Data(b), rest) :: out == Chunk(b[..Min(room, |b|)]))
  {
    var items, chunk := s.source.reader.items, s.source.reader.chunk;
    if chunk == [] {
      var k := FirstOrNone(items);
      if k < |items| {
        FillBufFollowsItems(items, k);
        assert NextIs(items, items[k], items[k + 1..]);
        forall what, rest | NextIs(items, what, rest) ensures what == items[k] && rest == items[k + 1..] {
          var j: nat :| FirstAt(items, j) && items[j] == what && items[j + 1..] == rest;
          FirstIsUnique(items, j, k);
        }
        hide FillBuf, NextIs, FirstAt;
      } else {
        FillBufOfNothing(items);
        assert forall what, rest :: !NextIs(items, what, rest);
        hide FillBuf, NextIs;
      }
    }
  }

  lemma FirstIsUnique(items: seq<Item>, j: nat, k: nat)
    requires FirstAt(items, j) && FirstAt(items, k)
    ensures j == k
  {
  }

  // ---------------------------------------------------------------- decoded streams

  /** The bytes that have arrived before the upstream has nothing yet, fails or ends. */
  function Arrived(items: seq<Item>): Bytes {
    if items == [] || !items[0].Data? then [] else items[0].bytes + Arrived(items[1..])
  }

  /** The items from the first that is not a chunk. */
  function Behind(items: seq<Item>): seq<Item> {
    if items == [] || !items[0].Data? then items else Behind(items[1..])
  }

  predicate HasNothingYet(items: seq<Item>) {
    Behind(items) != [] && Behind(items)[0].NotYet?
  }

  function Soon(r: Reader): Bytes {
    r.chunk + Arrived(r.items)
  }

  lemma {:induction false} FillBufSoon(r: Reader)
    ensures var (r', f) := FillBuf(r);
            && (f.Ready? ==> r'.chunk == f.bytes && Soon(r') == Soon(r) && Behind(r'.items) == Behind(r.items))
            && (f.Ready? && f.bytes == [] ==> Soon(r) == [] && Behind(r.items) == [])
            && (f.Wait? <==> Soon(r) == [] && HasNothingYet(r.items))
            && (f.Failed? ==> Soon(r) == [] && !HasNothingYet(r.items))
            && (f.Wait? ==> r' == Reader(Behind(r.items)[1..], []))
    decreases |r.items|
  {
    if r.chunk != [] || r.items == [] {
    } else if r.items[0].Data? {
      FillBufSoon(Reader(r.items[1..], r.items[0].bytes));
    }
  }

  lemma ReadSomeSoon(r: Reader, room: Positive)
    ensures var (r', f) := ReadSome(r, room);
            && (f.Ready? ==> f.bytes + Soon(r') == Soon(r) && Behind(r'.items) == Behind(r.items))
            && (f.Ready? && f.bytes == [] ==> Soon(r) == [] && Behind(r.items) == [])
            && (f.Wait? <==> Soon(r) == [] && HasNothingYet(r.items))
            && (f.Failed? ==> Soon(r) == [] && !HasNothingYet(r.items))
            && (f.Wait? ==> r' == Reader(Behind(r.items)[1..], []))
  {
    FillBufSoon(r);
    var (r', f) := FillBuf(r);
    if f.Ready? {
      CutFront(f.bytes, Min(room, |f.bytes|), Arrived(r'.items));
    }
  }

  /** What has arrived gives no further output and does not bring the decoder to an end, and nothing more has
      arrived yet. */
  predicate Stalls<S>(codec: Codec<S>, g: Gunzip<S>) {
    && g.pending == []
    && HasNothingYet(g.reader.items)
    && Decode(codec, g.stage, g.window + Soon(g.reader)).0.Running?
    && Decode(codec, g.stage, g.window + Soon(g.reader)).1 == []
  }

  lemma FeedKeepsStalling<S>(codec: Codec<S>, g: Gunzip<S>)
    requires g.pending == [] && g.stage.Running? && g.window != []
    ensures var (st, out) := FeedOne(codec, g.stage, g.window[0]);
            Stalls(codec, g) <==> Stalls(codec, g.(window := g.window[1..], stage := st, pending := out))
  {
    var input := g.window + Soon(g.reader);
    assert input[0] == g.window[0] && input[1..] == g.window[1..] + Soon(g.reader);
    var (st, out) := FeedOne(codec, g.stage, g.window[0]);
    var rest := Decode(codec, st, input[1..]);
    assert Decode(codec, g.stage, input) == (rest.0, out + rest.1);
    assert out + rest.1 == [] <==> out == [] && rest.1 == [] by {
      assert |out + rest.1| == |out| + |rest.1|;
    }
  }

  lemma RefillKeepsStalling<S>(codec: Codec<S>, g: Gunzip<S>)
    requires g.window == []
    ensures var (r, f) := ReadSome(g.reader, WINDOW);
            f.Ready? ==> (Stalls(codec, g) <==> Stalls(codec, g.(reader := r, window := f.bytes)))
  {
    ReadSomeSoon(g.reader, WINDOW);
    assert g.window + Soon(g.reader) == Soon(g.reader);
  }

  /** One turn of a read that goes on without gaining output keeps the decoder stalled or not. */
  lemma TurnKeepsStalling<S>(codec: Codec<S>, g: Gunzip<S>, room: Positive, acc: Bytes)
    requires |acc| <= room
    ensures var t := TakeTurn(codec, g, room, acc);
            && (t.GoOn? && t.gained == [] ==> (Stalls(codec, g) <==> Stalls(codec, t.next)))
            && (t.GoOn? && t.gained != [] ==> !Stalls(codec, g))
            && (t.GoOn? ==> Behind(t.next.reader.items) == Behind(g.reader.items))
            && (t.Stop? ==> (t.answer.Wait? <==> acc == [] && Stalls(codec, g)))
            && (t.Stop? && t.answer.Wait? ==> t.last.reader == Reader(Behind(g.reader.items)[1..], []))
  {
    ReadSomeSoon(g.reader, WINDOW);
    if |acc| < room && g.pending == [] && g.stage.Running? {
      if g.window != [] {
        FeedKeepsStalling(codec, g);
      } else {
        RefillKeepsStalling(codec, g);
        assert g.window + Soon(g.reader) == Soon(g.reader);
      }
    }
    hide Soon, Behind;
  }

  /** A read of the decoder waits if and only if it has nothing to hand over and the decoder stalls. */
  lemma {:induction false} GatherWaitsIffStalled<S>(codec: Codec<S>, g: Gunzip<S>, room: Positive, acc: Bytes)
    requires |acc| <= room
    ensures var (g', f) := Gather(codec, g, room, acc);
            && (f.Wait? <==> acc == [] && Stalls(codec, g))
            && (f.Wait? ==> g'.reader == Reader(Behind(g.reader.items)[1..], []))
    decreases |Undecoded(g)|, |Ahead(g.reader)|, |g.pending|
  {
    TurnShrinks(codec, g, room, acc);
    TurnKeepsStalling(codec, g, room, acc);
    var t := TakeTurn(codec, g, room, acc);
    hide TakeTurn, Stalls;
    if t.Stop? {
    } else {
      GatherWaitsIffStalled(codec, t.next, room, acc + t.gained);
    }
  }

  /** One poll of an open decoded stream waits if and only if what has arrived before the upstream has nothing
      yet decodes to no further output and does not end the decoder; exactly the items behind that are
      left. */
  lemma GzipPollWaitsIffStalled<S>(codec: Codec<S>, s: ChunkStream<S>, reserve: Positive)
    requires s.open && s.source.GzipSource?
    ensures var (s', out) := PollNext(codec, s, reserve);
            && s'.source.GzipSource?
            && (out.Pending? <==> Stalls(codec, s.source.gunzip))
            && (out.Pending? ==> s'.source.gunzip.reader == Reader(Behind(s.source.gunzip.reader.items)[1..], []))
  {
    var room := if s.spare == 0 then reserve else s.spare;
    GatherWaitsIffStalled(codec, s.source.gunzip, room, []);
    hide Stalls, Gather, Behind;
  }

  // ---------------------------------------------------------------- the whole answer of the decoder

  /** What a read of the decoder should answer, from what has arrived and what comes behind it: as much of the
      decoded bytes as there is room for; if they do not fill it, all of them if the decoder has reached its end
      or nothing more has arrived yet, and otherwise the reason why there is no more. */
  function Deserved<S>(codec: Codec<S>, g: Gunzip<S>, room: Positive, acc: Bytes): Filled {
    var (stage, out) := Decode(codec, g.stage, g.window + Soon(g.reader));
    AnswerOf(acc + (g.pending + out), room, stage.Finished?, stage.Broken?, Behind(g.reader.items))
  }

  function AnswerOf(decoded: Bytes, room: Positive, finished: bool, broken: bool, behind: seq<Item>): Filled {
    if |decoded| >= room then Ready(decoded[..room])
    else if finished then Ready(decoded)
    else if broken then Failed(CORRUPT)
    else if behind == [] then Failed(TRUNCATED)
    else if behind[0].Fault? then Failed(behind[0].code)
    else if decoded == [] then Wait
    else Ready(decoded)
  }

  lemma FeedKeepsAnswer<S>(codec: Codec<S>, g: Gunzip<S>, room: Positive, acc: Bytes)
    requires g.pending == [] && g.stage.Running? && g.window != []
    ensures var (st, out) := FeedOne(codec, g.stage, g.window[0]);
            Deserved(codec, g, room, acc)
              == Deserved(codec, g.(window := g.window[1..], stage := st, pending := out), room, acc)
  {
    var input := g.window + Soon(g.reader);
    assert input[0] == g.window[0] && input[1..] == g.window[1..] + Soon(g.reader);
    var (st, out) := FeedOne(codec, g.stage, g.window[0]);
    var (last, rest) := Decode(codec, st, input[1..]);
    assert Decode(codec, g.stage, input) == (last, out + rest);
    hide AnswerOf, Soon, Behind;
    assert g.pending + (out + rest) == out + rest;
  }

  lemma MoveKeepsAnswer<S>(codec: Codec<S>, g: Gunzip<S>, room: Positive, acc: Bytes, n: nat)
    requires n <= |g.pending|
    ensures Deserved(codec, g, room, acc)
         == Deserved(codec, g.(pending := g.pending[n..]), room, acc + g.pending[..n])
  {
    var moved, left := g.pending[..n], g.pending[n..];
    var (stage, out) := Decode(codec, g.stage, g.window + Soon(g.reader));
    hide AnswerOf, Soon, Behind, Decode;
    assert g.pending == moved + left;
    assert acc + ((moved + left) + out) == (acc + moved) + (left + out);
  }

  lemma FillBufFails(r: Reader)
    ensures var (r', f) := FillBuf(r);
            f.Failed? ==> Behind(r.items) != [] && Behind(r.items)[0] == Fault(f.code)
    decreases |r.items|
  {
    if r.chunk != [] || r.items == [] {
    } else if r.items[0].Data? {
      FillBufFails(Reader(r.items[1..], r.items[0].bytes));
    }
  }

  lemma RefillKeepsAnswer<S>(codec: Codec<S>, g: Gunzip<S>, room: Positive, acc: Bytes)
    requires |acc| < room && g.pending == [] && g.window == [] && g.stage.Running?
    ensures var t := TakeTurn(codec, g, room, acc);
            && (t.GoOn? ==> Deserved(codec, t.next, room, acc + t.gained) == Deserved(codec, g, room, acc))
            && (t.Stop? ==> t.answer == Deserved(codec, g, room, acc))
  {
    ReadSomeSoon(g.reader, WINDOW);
    FillBufFails(g.reader);
    hide FillBuf, Soon, Behind;
    assert g.window + Soon(g.reader) == Soon(g.reader);
    assert acc + [] == acc;
    var out := Decode(codec, g.stage, Soon(g.reader)).1;
    assert acc + (g.pending + out) == acc + out;
  }

  /** A turn that goes on leaves the deserved answer as it is, and one that stops gives it. */
  lemma TurnKeepsAnswer<S>(codec: Codec<S>, g: Gunzip<S>, room: Positive, acc: Bytes)
    requires |acc| <= room
    ensures var t := TakeTurn(codec, g, room, acc);
            && (t.GoOn? ==> Deserved(codec, t.next, room, acc + t.gained) == Deserved(codec, g, room, acc))
            && (t.Stop? ==> t.answer == Deserved(codec, g, room, acc))
  {
    var t := TakeTurn(codec, g, room, acc);
    var (stage, out) := Decode(codec, g.stage, g.window + Soon(g.reader));
    if |acc| == room {
      assert (acc + (g.pending + out))[..room] == acc;
    } else if g.pending != [] {
      MoveKeepsAnswer(codec, g, room, acc, Min(room - |acc|, |g.pending|));
    } else {
      if g.stage.Running? && g.window == [] {
        RefillKeepsAnswer(codec, g, room, acc);
      } else {
        assert acc + (g.pending + out) == acc + out;
        assert acc + [] == acc;
        hide Soon, Behind;
        if g.stage.Running? {
          FeedKeepsAnswer(codec, g, room, acc);
        }
      }
    }
  }

  /** A read of the decoder answers exactly what it deserves, however the bytes were cut into chunks. */
  lemma {:induction false} GatherFollowsArrivals<S>(codec: Codec<S>, g: Gunzip<S>, room: Positive, acc: Bytes)
    requires |acc| <= room
    ensures Gather(codec, g, room, acc).1 == Deserved(codec, g, room, acc)
    decreases |Undecoded(g)|, |Ahead(g.reader)|, |g.pending|
  {
    TurnShrinks(codec, g, room, acc);
    TurnKeepsAnswer(codec, g, room, acc);
    var t := TakeTurn(codec, g, room, acc);
    hide TakeTurn, Deserved;
    if t.Stop? {
    } else {
      GatherFollowsArrivals(codec, t.next, room, acc + t.gained);
    }
  }

  /** An empty window is filled from the next chunk, with 64 KiB at most. */
  lemma RefillTakesOneChunk<S>(codec: Codec<S>, g: Gunzip<S>, room: Positive, acc: Bytes, k: nat)
    requires |acc| < room && g.pending == [] && g.window == [] && g.stage.Running?
    requires g.reader.chunk == [] && FirstAt(g.reader.items, k) && g.reader.items[k].Data?
    ensures var bytes := g.reader.items[k].bytes;
            var n := Min(65536, |bytes|);
            TakeTurn(codec, g, room, acc)
              == GoOn(g.(reader := Reader(g.reader.items[k + 1..], bytes[n..]), window := bytes[..n]), [])
  {
    FillBufFollowsItems(g.reader.items, k);
    hide FillBuf;
  }

  /** One poll of an open decoded stream, from what has arrived: it hands out as much of the decoded bytes as
      fits, waits, fails with the reason, or ends, as the answer of the decoder says. */
  lemma GzipPollFollowsArrivals<S>(codec: Codec<S>, s: ChunkStream<S>, reserve: Positive)
    requires s.open && s.source.GzipSource?
    ensures PollNext(codec, s, reserve).1 ==
            match Deserved(codec, s.source.gunzip, if s.spare == 0 then reserve else s.spare, [])
            case Wait => Pending
            case Failed(code) => Error(code)
            case Ready(bytes) => if bytes == [] then End else Chunk(bytes)
  {
    var room := if s.spare == 0 then reserve else s.spare;
    GatherFollowsArrivals(codec, s.source.gunzip, room, []);
    hide Deserved, Gather;
  }

  /** The read buffer is used up piece by piece: a poll of an open stream reads into what earlier chunks left of it,
      into a new one only if they left nothing, and leaves what its own chunk does not take. */
  lemma BufferIsUsedUp<S>(codec: Codec<S>, s: ChunkStream<S>, reserve: Positive)
    requires s.open
    ensures var (s', out) := PollNext(codec, s, reserve);
            var room := if s.spare == 0 then reserve else s.spare;
            s'.spare == room - |Payload(out)| && (out.Chunk? ==> 0 < |out.bytes| <= room)
  {
    ReadSourceLaw(codec, s.source, if s.spare == 0 then reserve else s.spare);
  }

  // ---------------------------------------------------------------- decoding, case by case

  /** What the one-shot decoding does with each answer of the codec: output is kept, the last output too, and
      after the end or an error the rest of the input does not count. */
  lemma DecodeByAnswers<S>(codec: Codec<S>, state: S, b: byte, rest: Bytes)
    ensures var whole, fed := Decode(codec, Running(state), [b] + rest), codec.feed(state, b);
            && (fed.Last? ==> whole == (Finished, fed.out))
            && (fed.Corrupt? ==> whole == (Broken, []))
            && (fed.More? ==> whole.0 == Decode(codec, Running(fed.state), rest).0)
            && (fed.More? ==> whole.1 == fed.out + Decode(codec, Running(fed.state), rest).1)
  {
    assert ([b] + rest)[0] == b && ([b] + rest)[1..] == rest;
    var nothing: Bytes := [];
    assert nothing + nothing == nothing;
    if codec.feed(state, b).Last? {
      assert codec.feed(state, b).out + nothing == codec.feed(state, b).out;
    }
  }
}
