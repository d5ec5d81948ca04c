/**
 From the PTY to the client's terminal: the server's frames, encoded, cut into reads of any size,
 reassembled, unpacked and inflated, are the bytes of the PTY.  The compressor is an unknown
 function; the hypothesis is that its output is a gzip member whose body is a Deflate encoding of its input.
 */
module EndToEnd {
  import opened Bits
  import opened Framing
  import opened Server
  import opened ServerRuns
  import Client
  import SafeSplit
  import TokenBucket
  import G = DeflateGrammar
  import D = Deflate
  import Pr = Protocol
  import Z = Gzip

  /** `c` is a gzip member that stands for `d`. */
  ghost predicate GzipOf(c: Bytes, d: Bytes) {
    exists m: Z.Member, ts: seq<G.BlockTree> ::
      Z.WellFormed(m) && Z.Print(m) == c && G.Encodes(ts, m.body) && G.Meaning(ts) == Some(d)
  }

  ghost predicate FaithfulGzip<S>(env: Env<S>) {
    forall d: Bytes :: env.gzip(d).Some? ==> GzipOf(env.gzip(d).value, d)
  }

  /** What the compressor produced is what the client decompresses, exactly when there is room for it. */
  lemma GzipInflates(c: Bytes, d: Bytes, limit: nat)
    requires GzipOf(c, d)
    ensures Z.Decompress(c, limit) == if |d| <= limit then Some(d) else None
  {
    hide Z.WellFormed, Z.Print, Z.Decompress, G.Meaning, D.Inflate;
    var m: Z.Member, ts: seq<G.BlockTree> :|
      Z.WellFormed(m) && Z.Print(m) == c && G.Encodes(ts, m.body) && G.Meaning(ts) == Some(d);
    Z.MemberDecompresses(m, limit);
    if |d| <= limit {
      G.InflateGives(ts, m.body, limit);
    } else {
      G.InflateNeedsRoom(ts, m.body, limit);
    }
  }

  // ----- one frame -----

  /** The packet in which a chunk travels. */
  function PacketOf<S>(env: Env<S>, number: nat, data: Bytes): Pr.Packet {
    Pr.ServerFrame(number % U64, env.Compress(data).0, env.Compress(data).1)
  }

  function PayloadOf<S>(env: Env<S>, i: Item): Bytes {
    if i.Dropped? then [] else Pr.Serialize(PacketOf(env, i.number, i.data))
  }

  lemma FrameFields(number: nat, data: Bytes, compressed: bool)
    requires |data| < U32
    ensures var p := Pr.Serialize(Pr.ServerFrame(number % U64, data, compressed));
            && |p| == 14 + |data| && p[0] == 5
            && p[9] == (if compressed then 1 else 0)
            && FromBigEndian(p[10..14]) == |data| && p[14..14 + |data|] == data
  {
    hide BigEndian, FromBigEndian;
    Bases();
    BigEndianRoundTrip(|data|, 4);
    var p := Pr.Serialize(Pr.ServerFrame(number % U64, data, compressed));
    assert p[10..14] == BigEndian(|data|, 4);
  }

  /** The frame of the data fits the client's receive buffer, and the data its decompression buffer. */
  predicate Deliverable<S>(env: Env<S>, data: Bytes) {
    18 + |env.Compress(data).0| <= 65536 && |data| <= 262144
  }

  /** What a tick takes out is deliverable; only the closing flush may send more. */
  lemma ChunkIsDeliverable<S>(env: Env<S>, data: Bytes)
    requires |data| <= MAX_PTY_BUFFER_CAP
    ensures Deliverable(env, data)
  {
  }

  lemma PayloadLength<S>(env: Env<S>, i: Item)
    requires !i.Dropped?
    ensures |PayloadOf(env, i)| == 14 + |env.Compress(i.data).0|
  {
    hide BigEndian;
  }

  /** What the client shows for a chunk whose frame it can receive: its bytes, or nothing when they are too many. */
  lemma ChunkShown<S>(env: Env<S>, number: nat, data: Bytes)
    requires FaithfulGzip(env) && 18 + |env.Compress(data).0| <= 65536
    ensures Client.Shown(PayloadOf(env, Chunk(number, data))) == if Deliverable(env, data) then data else []
  {
    hide Pr.Serialize, FromBigEndian, Z.Decompress, GzipOf;
    var (c, compressed) := env.Compress(data);
    FrameFields(number, c, compressed);
    if compressed {
      GzipInflates(c, data, Client.DECOMPRESS_BUFFER_SIZE);
    }
  }

  // ----- whole runs -----

  predicate AllDeliverable<S>(env: Env<S>, history: seq<Item>) {
    forall i :: 0 <= i < |history| ==> (history[i].Chunk? ==> Deliverable(env, history[i].data))
  }

  /** A closing flush sends no more than the client can take. */
  predicate FlushFits<S>(env: Env<S>, s: State<S>, e: Event<S>) {
    e.Flush? && e.ok && |s.buf| > 0 ==> Deliverable(env, s.buf)
  }

  predicate AllFlushFit<S>(env: Env<S>, s: State<S>, es: seq<Event<S>>)
    decreases |es|
  {
    |es| == 0 ||
    (AllFlushFit(env, s, es[..|es| - 1]) && FlushFits(env, RunTo(env, s, es[..|es| - 1]), es[|es| - 1]))
  }

  predicate SmallUnderWay<S>(s: State<S>) {
    s.outgoing.Raw? ==> |s.outgoing.data| <= MAX_PTY_BUFFER_CAP
  }

  lemma DeliverableOne<S>(env: Env<S>, history: seq<Item>, i: Item)
    ensures AllDeliverable(env, history + [i]) <==>
            AllDeliverable(env, history) && (i.Chunk? ==> Deliverable(env, i.data))
  {
    hide Deliverable;
    assert (history + [i])[|history|] == i;
    assert forall k :: 0 <= k < |history| ==> (history + [i])[k] == history[k];
  }

  lemma DeliverableDrop<S>(env: Env<S>, history: seq<Item>, data: Bytes)
    ensures AllDeliverable(env, Drop(history, data)) <==> AllDeliverable(env, history)
  {
    hide AllDeliverable, Deliverable;
    if |data| > 0 {
      DeliverableOne(env, history, Item.Dropped(data));
    }
  }

  lemma DeliverableStep<S>(env: Env<S>, s: State<S>, e: Event<S>)
    requires SmallUnderWay(s) && Enabled(s, e)
    ensures SmallUnderWay(Apply(env, s, e))
    ensures AllDeliverable(env, Apply(env, s, e).history) <==> AllDeliverable(env, s.history) && FlushFits(env, s, e)
  {
    hide Play, AllDeliverable, Deliverable, Drop, SafeSplit.SplitPoint;
    var n := s.number + 1;
    match e
    case Append(_, _) =>
    case EndOfPty =>
    case Tick(elapsed, renderFails) =>
      TickBounds(env, s, elapsed, renderFails);
      DeliverableDrop(env, s.history, s.buf);
      DeliverableDrop(env, Drop(s.history, s.buf), []);
    case Send(ok) =>
      var d := s.outgoing.data;
      assert s.history + [] == s.history;
      if s.outgoing.Raw? {
        ChunkIsDeliverable(env, d);
      }
      DeliverableOne(env, s.history, Chunk(n, d));
      DeliverableOne(env, s.history, Refresh(n, d));
      DeliverableOne(env, s.history, Item.Dropped(d));
    case Flush(ok) =>
      DeliverableOne(env, s.history, Chunk(n, s.buf));
      DeliverableOne(env, s.history, Item.Dropped(s.buf));
    case Reset(_) =>
  }

  /** In every run all chunks are deliverable exactly when a closing flush is. */
  lemma {:induction false} DeliverableIff<S>(env: Env<S>, screen: S, es: seq<Event<S>>)
    requires Legal(env, Initial(env, screen), es)
    ensures SmallUnderWay(RunTo(env, Initial(env, screen), es))
    ensures AllDeliverable(env, RunTo(env, Initial(env, screen), es).history) <==>
            AllFlushFit(env, Initial(env, screen), es)
    decreases |es|
  {
    hide Apply, Enabled, FlushFits, Deliverable;
    if |es| > 0 {
      hide SmallUnderWay, AllDeliverable;
      var n := |es| - 1;
      DeliverableIff(env, screen, es[..n]);
      DeliverableStep(env, RunTo(env, Initial(env, screen), es[..n]), es[n]);
    }
  }

  /** The payloads of all frames sent. */
  function Payloads<S>(env: Env<S>, history: seq<Item>): (ps: seq<Bytes>)
    ensures |ps| == |history|
  {
    if |history| == 0 then []
    else Payloads(env, history[..|history| - 1]) + [PayloadOf(env, history[|history| - 1])]
  }

  predicate OnlyChunks(history: seq<Item>) {
    forall i :: 0 <= i < |history| ==> history[i].Chunk?
  }

  lemma {:induction false} PayloadAt<S>(env: Env<S>, history: seq<Item>, i: nat)
    requires i < |history|
    ensures Payloads(env, history)[i] == PayloadOf(env, history[i])
    decreases |history|
  {
    hide PayloadOf;
    if i < |history| - 1 {
      PayloadAt(env, history[..|history| - 1], i);
    }
  }

  lemma {:induction false} PayloadsFit<S>(env: Env<S>, history: seq<Item>)
    requires FaithfulGzip(env) && OnlyChunks(history) && AllDeliverable(env, history)
    ensures Client.AllFit(Payloads(env, history))
    ensures Client.ShownAll(Payloads(env, history)) == PtyBytes(history)
    decreases |history|
  {
    hide FaithfulGzip, PayloadOf, Client.Shown;
    if |history| > 0 {
      var n := |history| - 1;
      PayloadsFit(env, history[..n]);
      PayloadLength(env, history[n]);
      ChunkShown(env, history[n].number, history[n].data);
      Client.ShownNext(Payloads(env, history[..n]), PayloadOf(env, history[n]));
    }
  }

  lemma {:induction false} PayloadsPrefix<S>(env: Env<S>, history: seq<Item>, k: nat)
    requires k <= |history|
    ensures Payloads(env, history)[..k] == Payloads(env, history[..k])
    decreases |history|
  {
    hide PayloadOf;
    if k == |history| {
      assert history[..k] == history;
    } else {
      var n := |history| - 1;
      PayloadsPrefix(env, history[..n], k);
      assert history[..n][..k] == history[..k];
      assert Payloads(env, history)[..k] == Payloads(env, history[..n])[..k];
    }
  }

  lemma {:induction false} PtyBytesPrefix(history: seq<Item>, k: nat)
    requires k <= |history|
    ensures PtyBytes(history[..k]) <= PtyBytes(history)
    decreases |history|
  {
    if k == |history| {
      assert history[..k] == history;
    } else {
      var n := |history| - 1;
      PtyBytesPrefix(history[..n], k);
      assert history[..n][..k] == history[..k];
    }
  }

  /** What the client writes after any reads of the stream: the bytes of the first frames. */
  lemma FirstFramesShown<S>(env: Env<S>, history: seq<Item>, chunks: seq<Bytes>) returns (k: nat)
    requires FaithfulGzip(env) && OnlyChunks(history) && AllDeliverable(env, history)
    requires Flatten(chunks) <= FrameAll(Payloads(env, history))
    ensures k <= |history|
    ensures Client.ReadAll([], chunks).0 == PtyBytes(history[..k])
    ensures |Client.ReadAll([], chunks).1| < Client.BUFFER_SIZE
    ensures Flatten(chunks) == FrameAll(Payloads(env, history)) ==> k == |history|
  {
    hide FaithfulGzip, PayloadOf, Client.ReadAll, Client.ShownAll, Split, FrameAll, HasFrame, Flatten, PtyBytes, Payloads, Deliverable;
    var ps, s := Payloads(env, history), Flatten(chunks);
    PayloadsFit(env, history);
    EmptyHasNoFrame();
    Client.ReadAllIsSplit([], chunks);
    assert [] + s == s;
    k := PartOfStream(ps, s);
    RestLeavesRoom(ps, s, Client.BUFFER_SIZE);
    PayloadsPrefix(env, history, k);
    PayloadsFit(env, history[..k]);
    if s == FrameAll(ps) {
      FramesComeOut(ps, []);
      assert s + [] == s && ps + [] == ps;
      assert |ps[..k]| == |ps|;
    }
  }

  /**
   End to end, while the session runs or after it: in a run without overflow, and with a closing flush
   that the client can take, however the server's frames are cut into reads and however many of them
   have arrived, the client has written a prefix of the bytes of the PTY, all that were sent once
   everything has arrived, and its receive buffer has room for the next read.
   */
  lemma ClientWritesPtyPrefix<S>(env: Env<S>, screen: S, es: seq<Event<S>>, chunks: seq<Bytes>)
    requires FaithfulGzip(env) && AllFlushFit(env, Initial(env, screen), es)
    requires Legal(env, Initial(env, screen), es) && AllCalm(env, Initial(env, screen), es)
    requires Flatten(chunks) <= FrameAll(Payloads(env, RunTo(env, Initial(env, screen), es).history))
    ensures var t := RunTo(env, Initial(env, screen), es);
            && Client.ReadAll([], chunks).0 <= t.read
            && |Client.ReadAll([], chunks).1| < Client.BUFFER_SIZE
            && (Flatten(chunks) == FrameAll(Payloads(env, t.history)) ==>
                  Client.ReadAll([], chunks).0 + (RawBytes(t.outgoing) + t.buf) == t.read)
  {
    hide FaithfulGzip, Legal, AllCalm, AllFlushFit, AllDeliverable, RunTo;
    hide Client.ReadAll, FrameAll, Flatten, Payloads, PtyBytes;
    var t := RunTo(env, Initial(env, screen), es);
    NoLossNoReordering(env, screen, es);
    DeliverableIff(env, screen, es);
    var k := FirstFramesShown(env, t.history, chunks);
    PtyBytesPrefix(t.history, k);
    assert t.history[..|t.history|] == t.history;
  }

  /** The bytes of the stream are those that the account of the connection counts. */
  lemma {:induction false} StreamIsWire<S>(env: Env<S>, history: seq<Item>)
    requires forall i :: 0 <= i < |history| ==> !history[i].Dropped?
    ensures |FrameAll(Payloads(env, history))| == TokenBucket.Wire(env, history)
    decreases |history|
  {
    hide PayloadOf, FrameAll, FramedLength;
    FrameAllLength(Payloads(env, history));
    if |history| == 0 {
      NoFramesNoLength();
    } else {
      var n := |history| - 1;
      StreamIsWire(env, history[..n]);
      FrameAllLength(Payloads(env, history[..n]));
      PayloadLength(env, history[n]);
      FramedLengthOne(Payloads(env, history[..n]), PayloadOf(env, history[n]));
    }
  }

  lemma NoFramesNoLength()
    ensures FramedLength([]) == 0
  {
  }

  // ----- whole sessions -----

  /** The length field of every frame can hold the length. */
  predicate LengthsFit<S>(env: Env<S>, history: seq<Item>) {
    forall i :: 0 <= i < |history| ==> (history[i].Chunk? ==> 14 + |env.Compress(history[i].data).0| < U32)
  }

  lemma LastPayload<S>(env: Env<S>, history: seq<Item>)
    requires |history| > 0
    ensures var (before, i) := (history[..|history| - 1], history[|history| - 1]);
            && Payloads(env, history) == Payloads(env, before) + [PayloadOf(env, i)]
            && PtyBytes(history) == PtyBytes(before) + ItemBytes(i)
            && (AllDeliverable(env, history) <==>
                AllDeliverable(env, before) && (i.Chunk? ==> Deliverable(env, i.data)))
  {
    hide PayloadOf, AllDeliverable, Deliverable;
    assert history == history[..|history| - 1] + [history[|history| - 1]];
    DeliverableOne(env, history[..|history| - 1], history[|history| - 1]);
  }

  lemma FitLast(ps: seq<Bytes>, p: Bytes)
    requires Client.AllFit(ps + [p])
    ensures Client.AllFit(ps) && 4 + |p| <= Client.BUFFER_SIZE
  {
    assert (ps + [p])[|ps|] == p;
    assert forall i :: 0 <= i < |ps| ==> (ps + [p])[i] == ps[i];
  }

  /** All frames that fit the receive buffer show at most their chunks, and less if a chunk is too long to decompress. */
  lemma {:induction false} ShownAtMost<S>(env: Env<S>, history: seq<Item>)
    requires FaithfulGzip(env) && OnlyChunks(history) && Client.AllFit(Payloads(env, history))
    ensures |Client.ShownAll(Payloads(env, history))| <= |PtyBytes(history)|
    ensures !AllDeliverable(env, history) ==> |Client.ShownAll(Payloads(env, history))| < |PtyBytes(history)|
    decreases |history|
  {
    if |history| > 0 {
      hide FaithfulGzip, PayloadOf, Payloads, PtyBytes, AllDeliverable, Client.Shown, Client.ShownAll, Client.AllFit;
      var before, i := history[..|history| - 1], history[|history| - 1];
      LastPayload(env, history);
      FitLast(Payloads(env, before), PayloadOf(env, i));
      ShownAtMost(env, before);
      PayloadLength(env, i);
      ChunkShown(env, i.number, i.data);
      Client.ShownNext(Payloads(env, before), PayloadOf(env, i));
    }
  }

  lemma {:induction false} ChunksLength(history: seq<Item>, j: nat, k: nat)
    requires OnlyChunks(history) && j <= k < |history|
    ensures |PtyBytes(history[..j])| + |history[k].data| <= |PtyBytes(history)|
    decreases |history|
  {
    var n := |history| - 1;
    if k < n {
      ChunksLength(history[..n], j, k);
      assert history[..n][..j] == history[..j];
    } else {
      PtyBytesPrefix(history[..n], j);
      assert history[..n][..j] == history[..j];
    }
  }

  /** A client that goes on reading shows all chunks when they are deliverable, and less when one is not. */
  lemma HistoryShownIff<S>(env: Env<S>, history: seq<Item>, ready: seq<Client.Ready>)
    requires FaithfulGzip(env) && OnlyChunks(history) && LengthsFit(env, history)
    requires |ready| > |FrameAll(Payloads(env, history))|
    ensures var stream := FrameAll(Payloads(env, history));
            var shown := Client.ShownAll(Split(stream[..Client.Reach(stream, 0, ready).0]).payloads);
            shown == PtyBytes(history) <==> AllDeliverable(env, history)
  {
    hide FaithfulGzip, PayloadOf, Client.ShownAll, Client.Reach, Split, FrameAll, PtyBytes, Payloads, Deliverable;
    var ps, stream := Payloads(env, history), FrameAll(Payloads(env, history));
    var pos := Client.Reach(stream, 0, ready).0;
    ShortPayloads(env, history);
    Client.ReachIff(ps, ready);
    if Client.AllFit(ps) {
      assert stream[..pos] == stream && stream + [] == stream && ps + [] == ps;
      EmptyHasNoFrame();
      FramesComeOut(ps, []);
      if AllDeliverable(env, history) {
        PayloadsFit(env, history);
      } else {
        ShownAtMost(env, history);
      }
    } else {
      OversizeShowsLess(env, history, ready);
      if AllDeliverable(env, history) {
        PayloadsFit(env, history);
      }
    }
  }

  lemma ShortPayloads<S>(env: Env<S>, history: seq<Item>)
    requires OnlyChunks(history) && LengthsFit(env, history)
    ensures forall i :: 0 <= i < |history| ==> |Payloads(env, history)[i]| < U32
  {
    hide PayloadOf, Payloads;
    forall i | 0 <= i < |history|
      ensures |Payloads(env, history)[i]| < U32
    {
      PayloadAt(env, history, i);
      PayloadLength(env, history[i]);
    }
  }

  lemma OversizeShowsLess<S>(env: Env<S>, history: seq<Item>, ready: seq<Client.Ready>)
    requires FaithfulGzip(env) && OnlyChunks(history) && LengthsFit(env, history)
    requires !Client.AllFit(Payloads(env, history))
    ensures var stream := FrameAll(Payloads(env, history));
            var shown := Client.ShownAll(Split(stream[..Client.Reach(stream, 0, ready).0]).payloads);
            |shown| < |PtyBytes(history)|
  {
    hide FaithfulGzip, PayloadOf, Client.ShownAll, Client.Reach, Split, FrameAll, FramedLength, PtyBytes, Payloads, Deliverable;
    var ps := Payloads(env, history);
    ShortPayloads(env, history);
    var k := FirstOversize(ps);
    var pos := Client.Reach(FrameAll(ps), 0, ready).0;
    Client.OversizeStops(ps, k, 0, ready);
    var j := Client.NotBeyond(ps, k, pos);
    PayloadsPrefix(env, history, j);
    ShownAtMost(env, history[..j]);
    ChunksLength(history, j, k);
    PayloadAt(env, history, k);
    PayloadLength(env, history[k]);
  }

  lemma {:induction false} FirstOversize(ps: seq<Bytes>) returns (k: nat)
    requires !Client.AllFit(ps)
    ensures k < |ps| && 4 + |ps[k]| > Client.BUFFER_SIZE && Client.AllFit(ps[..k])
    decreases |ps|
  {
    var n := |ps| - 1;
    if Client.AllFit(ps[..n]) {
      k := n;
    } else {
      k := FirstOversize(ps[..n]);
      assert ps[..n][..k] == ps[..k];
    }
  }

  lemma DeliverableLengths<S>(env: Env<S>, history: seq<Item>)
    requires AllDeliverable(env, history)
    ensures LengthsFit(env, history)
  {
    forall i | 0 <= i < |history| && history[i].Chunk?
      ensures 14 + |env.Compress(history[i].data).0| < U32
    {
      assert Deliverable(env, history[i].data);
    }
  }

  /**
   A finished session without overflow: a client that goes on reading until the connection closes has
   written exactly the bytes of the PTY if the closing flush, if there was one, made a frame of at most
   65536 bytes from at most 262144; and only if, as long as the frame has a length of 32 bits.
   */
  lemma SessionArrivesIff<S>(env: Env<S>, screen: S, es: seq<Event<S>>, ready: seq<Client.Ready>)
    requires FaithfulGzip(env)
    requires Legal(env, Initial(env, screen), es) && AllCalm(env, Initial(env, screen), es)
    requires var t := RunTo(env, Initial(env, screen), es);
             t.done && |ready| > |FrameAll(Payloads(env, t.history))|
    ensures var t := RunTo(env, Initial(env, screen), es);
            var stream := FrameAll(Payloads(env, t.history));
            var shown := Client.ShownAll(Split(stream[..Client.Reach(stream, 0, ready).0]).payloads);
            && (AllFlushFit(env, Initial(env, screen), es) ==> shown == t.read)
            && (LengthsFit(env, t.history) ==> (shown == t.read <==> AllFlushFit(env, Initial(env, screen), es)))
  {
    hide FaithfulGzip, Legal, AllCalm, AllFlushFit, AllDeliverable, RunTo;
    hide Client.ShownAll, Client.Reach, Split, FrameAll, Payloads, PtyBytes, LengthsFit;
    var history := RunTo(env, Initial(env, screen), es).history;
    NoLossNoReordering(env, screen, es);
    DeliverableIff(env, screen, es);
    if AllDeliverable(env, history) {
      DeliverableLengths(env, history);
    }
    if LengthsFit(env, history) {
      HistoryShownIff(env, history, ready);
    }
  }

  // ----- a flush that does not arrive -----

  function Times(chunk: Bytes, n: nat): Bytes {
    if n == 0 then [] else Times(chunk, n - 1) + chunk
  }

  lemma {:induction false} TimesLength(chunk: Bytes, n: nat)
    ensures |Times(chunk, n)| == n * |chunk|
  {
    if n > 0 {
      TimesLength(chunk, n - 1);
    }
  }

  /** The same bytes are read `n` times. */
  function Reads<S>(chunk: Bytes, n: nat): seq<Event<S>> {
    if n == 0 then [] else Reads(chunk, n - 1) + [Append(chunk, None)]
  }

  /** More is read than one frame holds, and the PTY closes before the next tick. */
  function BurstRun<S>(chunk: Bytes): seq<Event<S>> {
    Reads(chunk, 17) + [EndOfPty] + [Flush(true)]
  }

  lemma AllOne<S>(env: Env<S>, s: State<S>, es: seq<Event<S>>, e: Event<S>)
    ensures AllCalm(env, s, es + [e]) <==> AllCalm(env, s, es) && Calm(RunTo(env, s, es), e)
    ensures AllFlushFit(env, s, es + [e]) <==> AllFlushFit(env, s, es) && FlushFits(env, RunTo(env, s, es), e)
  {
    hide Calm, FlushFits, RunTo;
    assert (es + [e])[..|es|] == es;
  }

  lemma NothingRun<S>(env: Env<S>, s: State<S>)
    ensures RunTo(env, s, []) == s && Legal(env, s, []) && AllCalm(env, s, []) && AllFlushFit(env, s, [])
  {
  }

  lemma {:induction false} ManyReads<S>(env: Env<S>, screen: S, chunk: Bytes, n: nat) returns (s: State<S>)
    requires |chunk| == 4096
    ensures var init, es := Initial(env, screen), Reads(chunk, n);
            && s == RunTo(env, init, es) && Legal(env, init, es) && AllCalm(env, init, es) && AllFlushFit(env, init, es)
    ensures s.buf == Times(chunk, n) && s.history == [] && s.outgoing.Nothing? && !s.done && !s.closed && s.number == 0
    decreases n
  {
    hide RunTo, Legal, AllCalm, AllFlushFit, Play, Deliverable;
    var init := Initial(env, screen);
    if n == 0 {
      s := init;
      NothingRun(env, init);
    } else {
      var e := Append(chunk, None);
      var before := ManyReads(env, screen, chunk, n - 1);
      RunOne(env, init, Reads(chunk, n - 1), e);
      AllOne(env, init, Reads(chunk, n - 1), e);
      s := Apply(env, before, e);
    }
  }

  lemma BurstRunEnds<S>(env: Env<S>, screen: S, chunk: Bytes)
    requires |chunk| == 4096
    ensures var init, es, all := Initial(env, screen), BurstRun(chunk), Times(chunk, 17);
            && Legal(env, init, es) && AllCalm(env, init, es)
            && RunTo(env, init, es).done && RunTo(env, init, es).history == [Chunk(1, all)]
            && (AllFlushFit(env, init, es) <==> Deliverable(env, all))
  {
    hide RunTo, Legal, AllCalm, AllFlushFit, Play, Deliverable, Times, Reads;
    var init := Initial(env, screen);
    var es: seq<Event<S>> := Reads(chunk, 17);
    TimesLength(chunk, 17);
    var s := ManyReads(env, screen, chunk, 17);
    RunOne(env, init, es, EndOfPty);
    AllOne(env, init, es, EndOfPty);
    RunOne(env, init, es + [EndOfPty], Flush(true));
    AllOne(env, init, es + [EndOfPty], Flush(true));
    assert [] + [Chunk(1, s.buf)] == [Chunk(1, s.buf)];
  }

  /** Whether the client gets the bytes of this run is up to how well the encoder does. */
  lemma BurstArrivesIff<S>(env: Env<S>, screen: S, chunk: Bytes, ready: seq<Client.Ready>)
    requires FaithfulGzip(env) && |chunk| == 4096
    requires |ready| > |FrameAll(Payloads(env, RunTo(env, Initial(env, screen), BurstRun(chunk)).history))|
    ensures Legal(env, Initial(env, screen), BurstRun(chunk)) && AllCalm(env, Initial(env, screen), BurstRun(chunk))
    ensures var t := RunTo(env, Initial(env, screen), BurstRun(chunk));
            var stream := FrameAll(Payloads(env, t.history));
            var shown := Client.ShownAll(Split(stream[..Client.Reach(stream, 0, ready).0]).payloads);
            t.done && (shown == t.read <==> 18 + |env.Compress(Times(chunk, 17)).0| <= 65536)
  {
    hide FaithfulGzip, RunTo, Legal, AllCalm, AllFlushFit, BurstRun, Times;
    hide Client.ShownAll, Client.Reach, Split, FrameAll, Payloads;
    BurstRunEnds(env, screen, chunk);
    TimesLength(chunk, 17);
    SessionArrivesIff(env, screen, BurstRun(chunk), ready);
  }

  /** With an encoder that fails, the client does not get the bytes of this run, whatever the rate. */
  lemma ClosingFlushLost<S>(env: Env<S>, screen: S, chunk: Bytes, ready: seq<Client.Ready>)
    requires env.gzip == NoGzip && |chunk| == 4096
    requires |ready| > |FrameAll(Payloads(env, RunTo(env, Initial(env, screen), BurstRun(chunk)).history))|
    ensures FaithfulGzip(env)
    ensures Legal(env, Initial(env, screen), BurstRun(chunk)) && AllCalm(env, Initial(env, screen), BurstRun(chunk))
    ensures var t := RunTo(env, Initial(env, screen), BurstRun(chunk));
            var stream := FrameAll(Payloads(env, t.history));
            t.done && Client.ShownAll(Split(stream[..Client.Reach(stream, 0, ready).0]).payloads) != t.read
  {
    hide RunTo, Legal, AllCalm, BurstRun, Times, GzipOf;
    hide Client.ShownAll, Client.Reach, Split, FrameAll, Payloads;
    TimesLength(chunk, 17);
    BurstArrivesIff(env, screen, chunk, ready);
  }
}
