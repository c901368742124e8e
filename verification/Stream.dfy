/** The objects of the streaming pipeline, with the buffers they update in place.  Every method is proved
    against the function of module Pipeline that bears the same name. */
module Stream {
  import opened Basics
  import opened AppState
  import P = Pipeline

  /** Adapter from the upstream's chunks to reads of any size. */
  class StreamReader {
    var items: seq<P.Item>
    var chunk: Bytes

    function View(): P.Reader
      reads this
    {
      P.Reader(items, chunk)
    }

    constructor (items: seq<P.Item>)
      ensures View() == P.Reader(items, [])
    {
      this.items := items;
      this.chunk := [];
    }

    /** Poll the upstream until there is a non-empty chunk, skipping empty ones. */
    method FillBuf() returns (f: P.Filled)
      modifies this
      ensures (View(), f) == P.FillBuf(old(View()))
      ensures f.Ready? ==> f.bytes == chunk
    {
      while chunk == [] && items != []
        invariant P.FillBuf(View()) == P.FillBuf(old(View()))
        decreases |items|
      {
        var item := items[0];
        items := items[1..];
        match item {
          case NotYet => return P.Wait;
          case Fault(code) => return P.Failed(code);
          case Data(bytes) => chunk := bytes;
        }
      }
      return P.Ready(chunk);
    }

    method Consume(n: nat)
      requires n <= |chunk|
      modifies this
      ensures View() == old(View()).(chunk := old(chunk)[n..])
    {
      chunk := chunk[n..];
    }

    /** Copy the next bytes into buf[start..end]; `f.bytes` are the bytes copied. */
    method ReadInto(buf: array<byte>, start: nat, end: nat) returns (f: P.Filled)
      requires start <= end <= buf.Length
      modifies this, buf
      ensures (View(), f) == P.ReadSome(old(View()), end - start)
      ensures f.Ready? ==> |f.bytes| <= end - start && buf[start..start + |f.bytes|] == f.bytes
      ensures forall i | 0 <= i < buf.Length && !(start <= i < end) :: buf[i] == old(buf[i])
    {
      f := FillBuf();
      if f.Ready? {
        var n := Min(end - start, |f.bytes|);
        CopyInto(buf, start, f.bytes[..n]);
        Consume(n);
        f := P.Ready(f.bytes[..n]);
      }
    }
  }

  method CopyInto(buf: array<byte>, start: nat, bytes: Bytes)
    requires start + |bytes| <= buf.Length
    modifies buf
    ensures buf[start..start + |bytes|] == bytes
    ensures forall i | 0 <= i < buf.Length && !(start <= i < start + |bytes|) :: buf[i] == old(buf[i])
  {
    for i := 0 to |bytes|
      invariant buf[start..start + i] == bytes[..i]
      invariant forall j | 0 <= j < buf.Length && !(start <= j < start + i) :: buf[j] == old(buf[j])
    {
      buf[start + i] := bytes[i];
      assert bytes[..i + 1] == bytes[..i] + [bytes[i]];
    }
  }

  /** The decoder behind its buffered reader: a 64 KiB window array of which window[pos..filled] is
      still to be decoded. */
  class GzipDecoder<S> {
    const codec: P.Codec<S>
    const reader: StreamReader
    const window: array<byte>
    var pos: nat
    var filled: nat
    var stage: P.Stage<S>
    var pending: Bytes

    ghost predicate Valid()
      reads this
    {
      window.Length == P.WINDOW && pos <= filled <= window.Length
    }

    function View(): P.Gunzip<S>
      requires Valid()
      reads this, reader, window
    {
      P.Gunzip(reader.View(), window[pos..filled], stage, pending)
    }

    constructor (codec: P.Codec<S>, reader: StreamReader)
      ensures Valid() && this.codec == codec && this.reader == reader && fresh(window)
      ensures View() == P.Gunzip(reader.View(), [], P.Running(codec.start), [])
    {
      this.codec := codec;
      this.reader := reader;
      this.window := new byte[P.WINDOW];
      this.pos, this.filled := 0, 0;
      this.stage := P.Running(codec.start);
      this.pending := [];
    }

    /** Hand over decoded bytes to buf[at..end]. */
    method MovePending(buf: array<byte>, at: nat, end: nat) returns (n: nat)
      requires Valid() && at < end <= buf.Length && buf != window
      modifies this`pending, buf
      ensures Valid() && n == Min(end - at, |old(pending)|)
      ensures View() == old(View()).(pending := old(pending)[n..])
      ensures buf[at..at + n] == old(pending)[..n]
      ensures forall i | 0 <= i < buf.Length && !(at <= i < at + n) :: buf[i] == old(buf[i])
    {
      n := Min(end - at, |pending|);
      CopyInto(buf, at, pending[..n]);
      pending := pending[n..];
    }

    /** Decode one byte of the window. */
    method FeedByte()
      requires Valid() && pos < filled && stage.Running?
      modifies this
      ensures Valid()
      ensures var g := old(View());
              var (st, out) := P.FeedOne(codec, g.stage, g.window[0]);
              View() == g.(window := g.window[1..], stage := st, pending := out)
    {
      ghost var g := View();
      assert g.window[0] == window[pos];
      stage, pending := P.FeedOne(codec, stage, window[pos]).0, P.FeedOne(codec, stage, window[pos]).1;
      pos := pos + 1;
      assert window[pos..filled] == g.window[1..];
    }

    /** Fill the empty window from the network. */
    method Refill() returns (f: P.Filled)
      requires Valid() && pos == filled
      modifies this, reader, window
      ensures Valid()
      ensures var g := old(View());
              var (r, f') := P.ReadSome(g.reader, P.WINDOW);
              f == f' && View() == g.(reader := r, window := if f.Ready? then f.bytes else [])
    {
      f := reader.ReadInto(window, 0, window.Length);
      pos, filled := 0, if f.Ready? then |f.bytes| else 0;
      assert f.Ready? ==> window[pos..filled] == f.bytes;
    }

    /** One turn of a read into buf[start..end], of which buf[start..at] is done: advance to `next`, or
        stop with an answer. */
    method TakeTurn(buf: array<byte>, start: nat, at: nat, end: nat) returns (next: nat, answer: Option<P.Filled>)
      requires Valid() && start <= at <= end <= buf.Length && start < end && buf != window
      modifies this, reader, window, buf
      ensures Valid() && at <= next <= end
      ensures P.TakeTurn(codec, old(View()), end - start, old(buf[start..at])) ==
                (if answer.Some? then P.Stop(View(), answer.value) else P.GoOn(View(), buf[at..next]))
      ensures forall i | 0 <= i < buf.Length && !(at <= i < end) :: buf[i] == old(buf[i])
    {
      next, answer := at, None;
      if at == end {
        answer := Some(P.Ready(buf[start..at]));
      } else if pending != [] {
        var n := MovePending(buf, at, end);
        next := at + n;
      } else if stage.Finished? {
        answer := Some(P.Ready(buf[start..at]));
      } else if stage.Broken? {
        answer := Some(P.Failed(P.CORRUPT));
      } else if pos < filled {
        FeedByte();
      } else {
        ghost var acc := buf[start..at];
        var f := Refill();
        assert buf[start..at] == acc;
        match f {
          case Wait => answer := Some(if at == start then P.Wait else P.Ready(buf[start..at]));
          case Failed(code) => answer := Some(P.Failed(code));
          case Ready(bytes) =>
            if bytes == [] {
              answer := Some(P.Failed(P.TRUNCATED));
            }
        }
      }
    }

    /** Decode into buf[start..end] until it is full, the input has to be waited for, or it ends. */
    method ReadInto(buf: array<byte>, start: nat, end: nat) returns (f: P.Filled)
      requires Valid() && start < end <= buf.Length && buf != window
      modifies this, reader, window, buf
      ensures Valid()
      ensures (View(), f) == P.Gather(codec, old(View()), end - start, [])
      ensures f.Ready? ==> |f.bytes| <= end - start && buf[start..start + |f.bytes|] == f.bytes
      ensures forall i | 0 <= i < buf.Length && !(start <= i < end) :: buf[i] == old(buf[i])
    {
      hide P.TakeTurn, P.Undelivered, P.FinalStage, P.Decode;
      var at := start;
      ghost var room: Positive := end - start;
      assert buf[start..at] == [];
      while true
        invariant Valid() && start <= at <= end
        invariant P.Gather(codec, View(), room, buf[start..at]) == P.Gather(codec, old(View()), room, [])
        invariant forall i | 0 <= i < buf.Length && !(start <= i < end) :: buf[i] == old(buf[i])
        decreases |P.Undecoded(View())|, |P.Ahead(reader.View())|, |pending|
      {
        ghost var g, acc := View(), buf[start..at];
        P.TurnShrinks(codec, g, room, acc);
        P.TurnLaw(codec, g, room, acc);
        var next, answer := TakeTurn(buf, start, at, end);
        assert buf[start..at] == acc;
        if answer.Some? {
          return answer.value;
        }
        assert buf[start..next] == acc + buf[at..next];
        at := next;
      }
    }
  }

  /** The byte counter that the stream shares with its owner, 64 bits wide. */
  class ByteCounter {
    var value: nat

    constructor ()
      ensures value == 0
    {
      value := 0;
    }

    method FetchAdd(n: nat)
      modifies this
      ensures value == (old(value) + n) % P.U64
    {
      value := (value + n) % P.U64;
    }
  }

  /** Where the chunks come from: the upstream itself, or the decoder in front of it. */
  datatype Pipe<!S> = RawPipe(reader: StreamReader) | GzipPipe(decoder: GzipDecoder<S>)

  /** The stream of chunks: a read buffer of which buf[free..] is still to be filled, and the counter. */
  class CountedStream<S> {
    const codec: P.Codec<S>
    const pipe: Pipe<S>
    const counter: ByteCounter
    var open: bool
    var buf: array<byte>
    var free: nat

    ghost function Repr(): set<object>
      reads this
    {
      {this, counter, buf} +
      match pipe
      case RawPipe(reader) => {reader}
      case GzipPipe(decoder) => {decoder, decoder.reader, decoder.window}
    }

    ghost predicate Valid()
      reads this, Repr()
    {
      && free <= buf.Length
      && (pipe.GzipPipe? ==> pipe.decoder.Valid() && pipe.decoder.codec == codec && pipe.decoder.window != buf)
    }

    function SourceView(): P.Source<S>
      requires Valid()
      reads this, Repr()
    {
      match pipe
      case RawPipe(reader) => P.RawSource(reader.View())
      case GzipPipe(decoder) => P.GzipSource(decoder.View())
    }

    function View(): P.ChunkStream<S>
      requires Valid()
      reads this, Repr()
    {
      P.ChunkStream(SourceView(), open, buf.Length - free, counter.value)
    }

    constructor (codec: P.Codec<S>, pipe: Pipe<S>, counter: ByteCounter)
      requires pipe.GzipPipe? ==> pipe.decoder.Valid() && pipe.decoder.codec == codec
      ensures Valid() && this.codec == codec && this.pipe == pipe && this.counter == counter && fresh(buf)
      ensures SourceView() == match pipe
                              case RawPipe(reader) => P.RawSource(reader.View())
                              case GzipPipe(decoder) => P.GzipSource(decoder.View())
      ensures View() == P.ChunkStream(SourceView(), true, 0, counter.value)
    {
      this.codec := codec;
      this.pipe := pipe;
      this.counter := counter;
      this.open := true;
      this.buf := new byte[0];
      this.free := 0;
    }

    method ReadSource() returns (f: P.Filled)
      requires Valid() && free < buf.Length
      modifies Repr() - {this, counter}
      ensures Valid()
      ensures var (src, f') := P.ReadSource(codec, old(SourceView()), buf.Length - free);
              f == f' && View() == old(View()).(source := src)
      ensures f.Ready? ==> |f.bytes| <= buf.Length - free && buf[free..free + |f.bytes|] == f.bytes
    {
      match pipe {
        case RawPipe(reader) => f := reader.ReadInto(buf, free, buf.Length);
        case GzipPipe(decoder) => f := decoder.ReadInto(buf, free, buf.Length);
      }
    }

    /** A used-up buffer is replaced by a new one. */
    method Reserve(reserve: Positive)
      requires Valid()
      modifies this`buf, this`free
      ensures Valid() && free < buf.Length && Repr() <= old(Repr()) + {buf} && (fresh(buf) || buf == old(buf))
      ensures View() == old(View()).(spare := if old(View()).spare == 0 then reserve else old(View()).spare)
    {
      if free == buf.Length {
        buf, free := new byte[reserve], 0;
      }
    }

    /** Split what was read off the buffer and count it. */
    method HandOut(n: nat) returns (bytes: Bytes)
      requires Valid() && free + n <= buf.Length
      modifies this`free, counter
      ensures Valid() && bytes == old(buf[free..free + n])
      ensures View() == old(View()).(spare := old(View()).spare - n, sent := (old(View()).sent + n) % P.U64)
    {
      bytes := buf[free..free + n];
      free := free + n;
      counter.FetchAdd(n);
    }

    method Close()
      requires Valid()
      modifies this`open
      ensures Valid() && View() == old(View()).(open := false)
    {
      open := false;
    }

    /** One poll: read into the free part of the buffer and split off what was read.  An error or the
        end closes the stream; chunks are counted; everything is passed on unchanged. */
    method PollNext(reserve: Positive) returns (out: P.Polled)
      requires Valid()
      modifies Repr()
      ensures Valid() && fresh(Repr() - old(Repr()))
      ensures (View(), out) == P.PollNext(codec, old(View()), reserve)
    {
      hide P.ReadSource;
      if !open {
        return P.End;
      }
      Reserve(reserve);
      var f := ReadSource();
      match f {
        case Wait =>
          out := P.Pending;
        case Failed(code) =>
          Close();
          out := P.Error(code);
        case Ready(bytes) =>
          if bytes == [] {
            Close();
            out := P.End;
          } else {
            var chunk := HandOut(|bytes|);
            out := P.Chunk(chunk);
          }
      }
    }
  }

  /** Whether the upstream image has to be decompressed. */
  datatype ImageFormat = Gzip | Raw

  /** The chunk stream together with the import lock, which it holds for as long as it exists. */
  class GuardedStream<S> {
    const inner: CountedStream<S>
    const guard: OwnedGuard
    const bytesSent: ByteCounter

    ghost function Repr(): set<object>
      reads inner
    {
      inner.Repr() + {this, guard, guard.lock}
    }

    ghost predicate Valid()
      reads this, Repr()
    {
      && inner.Valid()
      && inner.counter == bytesSent
      && guard.live && guard.lock.locked
    }

    constructor (inner: CountedStream<S>, guard: OwnedGuard, bytesSent: ByteCounter)
      requires inner.Valid() && inner.counter == bytesSent && guard.live && guard.lock.locked
      ensures Valid() && this.inner == inner && this.guard == guard && this.bytesSent == bytesSent
    {
      this.inner := inner;
      this.guard := guard;
      this.bytesSent := bytesSent;
    }

    /** The next chunk comes straight from the inner stream; the lock stays held. */
    method PollNext(reserve: Positive) returns (out: P.Polled)
      requires Valid() && guard !in inner.Repr() && guard.lock !in inner.Repr()
      modifies inner.Repr()
      ensures Valid() && fresh(inner.Repr() - old(inner.Repr()))
      ensures (inner.View(), out) == P.PollNext(inner.codec, old(inner.View()), reserve)
    {
      out := inner.PollNext(reserve);
    }

    /** Dropping the stream reports the bytes handed out and releases the lock. */
    method Drop() returns (reported: nat)
      requires Valid()
      modifies guard, guard.lock
      ensures reported == old(inner.View()).sent
      ensures !guard.live && !guard.lock.locked
    {
      reported := bytesSent.value;
      guard.Drop();
    }
  }

  /** What the GET request to the upstream came to: response headers with a body to follow, or no
      connection or a status other than 2xx. */
  datatype Fetched = Connected(items: seq<P.Item>) | Refused

  /** Assemble the pipeline for the format and hand the lock guard over to it; if the upstream cannot be
      fetched the guard is dropped on the way out. */
  method FetchXvaStream<S>(codec: P.Codec<S>, upstream: Fetched, format: ImageFormat, guard: OwnedGuard)
    returns (stream: Option<GuardedStream<S>>)
    requires guard.live && guard.lock.locked
    modifies guard, guard.lock
    ensures stream.Some? <==> upstream.Connected?
    ensures stream.None? ==> !guard.live && !guard.lock.locked
    ensures stream.Some? ==>
              var s := stream.value;
              && s.Valid() && s.guard == guard && fresh(s) && fresh(s.inner.Repr()) && s !in s.inner.Repr()
              && s.inner.codec == codec
              && s.inner.View() ==
                   if format.Gzip? then P.GzipStream(codec, upstream.items) else P.RawStream(upstream.items)
  {
    if upstream.Refused? {
      guard.Drop();
      return None;
    }
    var reader := new StreamReader(upstream.items);
    var counter := new ByteCounter();
    var pipe: Pipe<S>;
    match format {
      case Gzip =>
        var decoder := new GzipDecoder(codec, reader);
        pipe := GzipPipe(decoder);
      case Raw =>
        pipe := RawPipe(reader);
    }
    var counted := new CountedStream(codec, pipe, counter);
    var s := new GuardedStream(counted, guard, counter);
    stream := Some(s);
  }
}
