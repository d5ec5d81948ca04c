/** What every run of the server keeps: bytes, order, screens, bandwidth and split alignment. */
module ServerRuns {
  import opened Bits
  import opened SafeSplit
  import opened Server

  // ----- runs -----

  function RunTo<S>(env: Env<S>, s: State<S>, es: seq<Event<S>>): State<S>
    decreases |es|
  {
    if |es| == 0 then s else Apply(env, RunTo(env, s, es[..|es| - 1]), es[|es| - 1])
  }

  /** Every event is enabled where it happens. */
  predicate Legal<S>(env: Env<S>, s: State<S>, es: seq<Event<S>>)
    decreases |es|
  {
    |es| == 0 ||
    (Legal(env, s, es[..|es| - 1]) && Enabled(RunTo(env, s, es[..|es| - 1]), es[|es| - 1]))
  }

  lemma NextState<S>(env: Env<S>, s: State<S>, es: seq<Event<S>>, k: nat)
    requires k < |es|
    ensures RunTo(env, s, es[..k + 1]) == Apply(env, RunTo(env, s, es[..k]), es[k])
    ensures Legal(env, s, es[..k + 1]) <==> Legal(env, s, es[..k]) && Enabled(RunTo(env, s, es[..k]), es[k])
  {
    hide Apply, Enabled;
    assert es[..k + 1][..k] == es[..k];
  }

  lemma RunOne<S>(env: Env<S>, s: State<S>, es: seq<Event<S>>, e: Event<S>)
    ensures RunTo(env, s, es + [e]) == Apply(env, RunTo(env, s, es), e)
    ensures Legal(env, s, es + [e]) <==> Legal(env, s, es) && Enabled(RunTo(env, s, es), e)
  {
    hide Apply, Enabled;
    assert (es + [e])[..|es|] == es;
  }

  /** An encoder that always fails: data is then sent as it is. */
  function NoGzip(data: Bytes): Option<Bytes> {
    None
  }

  // ----- conservation -----

  function ItemBytes(i: Item): Bytes {
    match i
    case Chunk(_, data) => data
    case Refresh(_, _) => []
    case Dropped(data) => data
  }

  /** The bytes of the PTY that were sent or dropped, in order. */
  function PtyBytes(history: seq<Item>): Bytes {
    if |history| == 0 then [] else PtyBytes(history[..|history| - 1]) + ItemBytes(history[|history| - 1])
  }

  function RawBytes(o: Outgoing): Bytes {
    if o.Raw? then o.data else []
  }

  predicate Conserved<S>(s: State<S>) {
    PtyBytes(s.history) + (RawBytes(s.outgoing) + s.buf) == s.read
  }

  lemma PtyBytesOne(history: seq<Item>, i: Item)
    ensures PtyBytes(history + [i]) == PtyBytes(history) + ItemBytes(i)
  {
    assert (history + [i])[..|history|] == history;
  }

  lemma PtyBytesDrop(history: seq<Item>, data: Bytes)
    ensures PtyBytes(Drop(history, data)) == PtyBytes(history) + data
  {
    hide PtyBytes;
    if |data| > 0 {
      PtyBytesOne(history, Item.Dropped(data));
    }
  }

  lemma OverflowConserves<S>(s: State<S>)
    requires Conserved(s) && s.outgoing.Nothing?
    ensures Conserved(DropOverflow(s)) && DropOverflow(s).outgoing.Nothing?
  {
    hide PtyBytes, Drop;
    PtyBytesDrop(s.history, s.buf);
    assert PtyBytes(s.history) + s.buf + ([] + []) == s.read;
  }

  lemma TakeOutConserves<S>(env: Env<S>, s: State<S>, renderFails: bool)
    requires Conserved(s) && s.outgoing.Nothing?
    ensures Conserved(TakeOut(env, s, renderFails))
  {
    hide PtyBytes, Drop, SplitPoint;
    var before, taken := PtyBytes(s.history), TakeOut(env, s, renderFails);
    assert [] + s.buf == s.buf;
    if s.tokens > 0.0 && s.pending {
      PtyBytesDrop(s.history, s.buf);
      assert before + s.buf + ([] + []) == s.read;
    } else {
      assert RawBytes(taken.outgoing) + taken.buf == s.buf;
    }
  }

  /** No step loses, repeats or reorders bytes of the PTY without recording it. */
  lemma ConservedStep<S>(env: Env<S>, s: State<S>, e: Event<S>)
    requires Conserved(s) && Enabled(s, e)
    ensures Conserved(Apply(env, s, e))
  {
    hide PtyBytes, SplitPoint, TakeOut, DropOverflow, Play;
    var h := PtyBytes(s.history);
    match e
    case Append(chunk, _) =>
      var r := RawBytes(s.outgoing);
      assert h + (r + (s.buf + chunk)) == h + (r + s.buf) + chunk;
    case EndOfPty =>
    case Tick(elapsed, renderFails) =>
      var t := s.(tokens := Refill(env, s.tokens, elapsed));
      OverflowConserves(t);
      TakeOutConserves(env, DropOverflow(t), renderFails);
    case Send(ok) =>
      SendConserves(env, s, ok);
    case Flush(ok) =>
      assert [] + s.buf == s.buf;
      if |s.buf| > 0 {
        PtyBytesOne(s.history, if ok then Chunk(s.number + 1, s.buf) else Item.Dropped(s.buf));
        assert h + s.buf + ([] + []) == s.read;
      }
    case Reset(_) =>
  }

  lemma SendConserves<S>(env: Env<S>, s: State<S>, ok: bool)
    requires Conserved(s) && !s.outgoing.Nothing?
    ensures Conserved(Apply(env, s, Send(ok)))
  {
    hide PtyBytes, SplitPoint, TakeOut, DropOverflow, Play;
    var h, n := PtyBytes(s.history), s.number + 1;
    if s.outgoing.Raw? {
      var d := s.outgoing.data;
      PtyBytesOne(s.history, if ok then Chunk(n, d) else Item.Dropped(d));
      assert h + d + ([] + s.buf) == h + (d + s.buf);
    } else if ok {
      PtyBytesOne(s.history, Refresh(n, s.outgoing.data));
      assert h + [] + ([] + s.buf) == h + ([] + s.buf);
    } else {
      assert s.history + [] == s.history;
    }
  }

  /** For every run: chunks and drops in order, what is being sent, and the buffer make up all bytes read. */
  lemma {:induction false} Conservation<S>(env: Env<S>, screen: S, es: seq<Event<S>>)
    requires Legal(env, Initial(env, screen), es)
    ensures Conserved(RunTo(env, Initial(env, screen), es))
    decreases |es|
  {
    hide Apply, Conserved, Enabled;
    if |es| == 0 {
      NothingRead(env, screen);
    } else {
      var n := |es| - 1;
      Conservation(env, screen, es[..n]);
      ConservedStep(env, RunTo(env, Initial(env, screen), es[..n]), es[n]);
    }
  }

  lemma NothingRead<S>(env: Env<S>, screen: S)
    ensures Conserved(Initial(env, screen))
  {
  }

  // ----- sizes -----

  /** After a tick's locked section the buffer and the chunk taken out are at most the cap. */
  lemma TickBounds<S>(env: Env<S>, s: State<S>, elapsed: Amount, renderFails: bool)
    requires Enabled(s, Tick(elapsed, renderFails))
    ensures var t := Apply(env, s, Tick(elapsed, renderFails));
            && |t.buf| <= MAX_PTY_BUFFER_CAP
            && (t.outgoing.Raw? ==>
                  0 < |t.outgoing.data| <= MAX_PTY_BUFFER_CAP && |t.outgoing.data| as real <= t.tokens)
  {
    hide SplitPoint, Drop;
    var t := DropOverflow(s.(tokens := Refill(env, s.tokens, elapsed)));
    if t.tokens > 0.0 && !t.pending && |t.buf| > 0 {
      var n := SplitPoint(t.buf, t.tokens.Floor);
      assert n <= t.tokens.Floor;
    }
  }

  // ----- no loss, no reordering -----

  /** No overflow is met by a tick, and transmission works. */
  predicate Calm<S>(s: State<S>, e: Event<S>) {
    match e
    case Tick(_, _) => |s.buf| <= MAX_PTY_BUFFER_CAP
    case Send(ok) => ok
    case Flush(ok) => ok
    case Append(_, _) => true
    case EndOfPty => true
    case Reset(_) => true
  }

  predicate AllCalm<S>(env: Env<S>, s: State<S>, es: seq<Event<S>>)
    decreases |es|
  {
    |es| == 0 ||
    (AllCalm(env, s, es[..|es| - 1]) && Calm(RunTo(env, s, es[..|es| - 1]), es[|es| - 1]))
  }

  /** Only chunks were sent, numbered 1, 2, 3, and so on; when the sender is done, nothing is left. */
  predicate InOrder<S>(s: State<S>) {
    && !s.pending && !s.outgoing.Atomic?
    && s.number == |s.history|
    && (forall i :: 0 <= i < |s.history| ==> s.history[i].Chunk? && s.history[i].number == i + 1)
    && (s.done ==> s.buf == [] && s.outgoing.Nothing? && s.closed)
  }

  lemma InOrderStep<S>(env: Env<S>, s: State<S>, e: Event<S>)
    requires InOrder(s) && Enabled(s, e) && Calm(s, e)
    ensures InOrder(Apply(env, s, e))
  {
    hide SplitPoint, Play;
  }

  lemma {:induction false} InOrderRun<S>(env: Env<S>, screen: S, es: seq<Event<S>>)
    requires Legal(env, Initial(env, screen), es) && AllCalm(env, Initial(env, screen), es)
    ensures InOrder(RunTo(env, Initial(env, screen), es))
    decreases |es|
  {
    hide Apply, Enabled, Calm;
    if |es| > 0 {
      hide InOrder;
      var n := |es| - 1;
      InOrderRun(env, screen, es[..n]);
      InOrderStep(env, RunTo(env, Initial(env, screen), es[..n]), es[n]);
    }
  }

  /** Without overflow: chunks numbered 1, 2, 3, ... whose bytes, with what is under way and the buffer, are all bytes read. */
  lemma NoLossNoReordering<S>(env: Env<S>, screen: S, es: seq<Event<S>>)
    requires Legal(env, Initial(env, screen), es) && AllCalm(env, Initial(env, screen), es)
    ensures var t := RunTo(env, Initial(env, screen), es);
            && InOrder(t)
            && PtyBytes(t.history) + (RawBytes(t.outgoing) + t.buf) == t.read
            && (t.done ==> PtyBytes(t.history) == t.read)
  {
    hide Legal, AllCalm, RunTo, PtyBytes;
    InOrderRun(env, screen, es);
    Conservation(env, screen, es);
  }

  /** The numbers of the frames that were sent. */
  function Numbers(history: seq<Item>): seq<nat> {
    if |history| == 0 then []
    else
      var i := history[|history| - 1];
      Numbers(history[..|history| - 1]) + if i.Dropped? then [] else [i.number]
  }

  /** Frame numbers count up from 1; they are never skipped while the sender goes on. */
  predicate Numbered<S>(s: State<S>) {
    && (forall i :: 0 <= i < |Numbers(s.history)| ==> Numbers(s.history)[i] == i + 1)
    && (!s.done ==> s.number == |Numbers(s.history)|)
  }

  lemma NumbersOne(history: seq<Item>, i: Item)
    ensures Numbers(history + [i]) == Numbers(history) + if i.Dropped? then [] else [i.number]
  {
    assert (history + [i])[..|history|] == history;
  }

  lemma NumbersDrop(history: seq<Item>, data: Bytes)
    ensures Numbers(Drop(history, data)) == Numbers(history)
  {
    hide Numbers;
    if |data| > 0 {
      NumbersOne(history, Item.Dropped(data));
    }
  }

  lemma NumberedStep<S>(env: Env<S>, s: State<S>, e: Event<S>)
    requires Numbered(s) && Enabled(s, e)
    ensures Numbered(Apply(env, s, e))
  {
    hide Numbers, SplitPoint, Drop, Play;
    var n := s.number + 1;
    match e
    case Append(_, _) =>
    case EndOfPty =>
    case Tick(elapsed, _) =>
      NumbersDrop(s.history, s.buf);
      NumbersDrop(Drop(s.history, s.buf), []);
    case Send(ok) =>
      var d := s.outgoing.data;
      assert s.history + [] == s.history;
      NumbersOne(s.history, Chunk(n, d));
      NumbersOne(s.history, Refresh(n, d));
      NumbersOne(s.history, Item.Dropped(d));
    case Flush(ok) =>
      NumbersOne(s.history, Chunk(n, s.buf));
      NumbersOne(s.history, Item.Dropped(s.buf));
    case Reset(_) =>
  }

  /** In every run the frames are numbered 1, 2, 3, and so on. */
  lemma {:induction false} NumberedRun<S>(env: Env<S>, screen: S, es: seq<Event<S>>)
    requires Legal(env, Initial(env, screen), es)
    ensures Numbered(RunTo(env, Initial(env, screen), es))
    decreases |es|
  {
    hide Apply, Enabled;
    if |es| > 0 {
      hide Numbered;
      var n := |es| - 1;
      NumberedRun(env, screen, es[..n]);
      NumberedStep(env, RunTo(env, Initial(env, screen), es[..n]), es[n]);
    }
  }
}
