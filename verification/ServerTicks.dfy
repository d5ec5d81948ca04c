/** What one step of the send loop does, in the numbers of the source. */
module ServerTicks {
  import opened Bits
  import opened SafeSplit
  import opened SplitPromise
  import opened Server
  import opened ServerRuns

  /** The bucket holds half a second of the rate, and never less than 2048. */
  lemma BurstInNumbers<S>(env: Env<S>)
    ensures env.rate <= 4096.0 ==> env.Burst() == 2048.0
    ensures env.rate >= 4096.0 ==> 2.0 * env.Burst() == env.rate
  {
  }

  /** The tokens that a tick finds. */
  lemma RefillInNumbers<S>(env: Env<S>, tokens: real, elapsed: Amount)
    ensures var t := Refill(env, tokens, elapsed);
            && (t == tokens + env.rate * elapsed || t == env.Burst())
            && t <= tokens + env.rate * elapsed && t <= env.Burst()
  {
  }

  /** The tokens of a session that starts, and what a tick leaves of the tokens. */
  lemma TokensInNumbers<S>(env: Env<S>, screen: S, s: State<S>, elapsed: Amount, renderFails: bool)
    ensures Initial(env, screen).tokens == env.Burst()
    ensures Apply(env, s, Tick(elapsed, renderFails)).tokens == Refill(env, s.tokens, elapsed)
  {
    hide SplitPoint, Drop;
  }

  /**
   A tick with positive tokens, no refresh due and at most 16384 bytes buffered: all of them are taken
   when the tokens cover them; otherwise as many as the tokens, rounded down, allow, up to the greatest
   recordable point, and nothing when there is none.
   */
  lemma TickTakes<S>(env: Env<S>, s: State<S>, elapsed: Amount, renderFails: bool)
    requires Enabled(s, Tick(elapsed, renderFails))
    requires !s.pending && 0 < |s.buf| <= 16384 && Refill(env, s.tokens, elapsed) > 0.0
    ensures var n := Refill(env, s.tokens, elapsed).Floor;
            var t := Apply(env, s, Tick(elapsed, renderFails));
            && t.history == s.history && !t.pending && !t.outgoing.Atomic?
            && RawBytes(t.outgoing) + t.buf == s.buf
            && (t.outgoing.Raw? ==> t.outgoing.data != [])
            && (|s.buf| <= n ==> RawBytes(t.outgoing) == s.buf)
            && (n < |s.buf| ==> var k := |RawBytes(t.outgoing)|;
                                && k <= n && (k == 0 || Recordable(s.buf, 0, k))
                                && forall p: nat :: Recordable(s.buf, 0, p) && p <= n ==> p <= k)
  {
    hide SplitPoint, Recordable, Drop, Refill;
    var n := Refill(env, s.tokens, elapsed).Floor;
    if |s.buf| <= n {
      WholeBuffer(s.buf, n);
    } else {
      SplitIsGreatest(s.buf, n);
    }
    var k := SplitPoint(s.buf, n);
    assert s.buf[..k] + s.buf[k..] == s.buf && [] + s.buf == s.buf;
  }

  /** More than 16384 bytes are discarded, whatever the tokens; 16384 are not. */
  lemma OverflowInNumbers<S>(env: Env<S>, s: State<S>, elapsed: Amount, renderFails: bool)
    requires Enabled(s, Tick(elapsed, renderFails)) && !s.pending && Refill(env, s.tokens, elapsed) <= 0.0
    ensures var t := Apply(env, s, Tick(elapsed, renderFails));
            && t.outgoing.Nothing?
            && (|s.buf| <= 16384 ==> t.buf == s.buf && !t.pending && t.history == s.history)
            && (|s.buf| > 16384 ==> t.buf == [] && t.pending && t.history == s.history + [Item.Dropped(s.buf)])
  {
    hide SplitPoint, Refill;
  }

  /** A refresh that is due, from before or through an overflow, is rendered as soon as tokens are positive. */
  lemma RefreshInNumbers<S>(env: Env<S>, s: State<S>, elapsed: Amount, renderFails: bool)
    requires Enabled(s, Tick(elapsed, renderFails)) && Refill(env, s.tokens, elapsed) > 0.0
    requires s.pending || |s.buf| > 16384
    ensures var t := Apply(env, s, Tick(elapsed, renderFails));
            && t.buf == [] && !t.pending && t.vt == s.vt
            && t.outgoing == (if renderFails then Nothing else Atomic(env.render(s.vt)))
            && t.history == (if s.buf == [] then s.history else s.history + [Item.Dropped(s.buf)])
  {
    hide SplitPoint, Refill;
  }

  // ----- compression -----

  /** How many bytes a frame carries and when they are marked: the encoder is asked from 129 bytes on, and must gain. */
  lemma CompressInNumbers<S>(env: Env<S>, data: Bytes)
    ensures |data| <= 128 ==> env.Compress(data) == (data, false)
    ensures |data| > 128 && env.gzip(data).Some? ==>
              && |env.Compress(data).0| <= |env.gzip(data).value|
              && (env.Compress(data).1 <==> |env.gzip(data).value| < |data|)
    ensures env.gzip(data).None? ==> env.Compress(data) == (data, false)
    ensures env.Compress(data).1 ==> |env.Compress(data).0| < |data| && env.gzip(data) == Some(env.Compress(data).0)
    ensures !env.Compress(data).1 ==> env.Compress(data).0 == data
  {
  }

  /** What a frame that is sent costs: never more than its data, and from 129 bytes on never more than what the encoder makes of it. */
  lemma SendCharges<S>(env: Env<S>, s: State<S>)
    requires Enabled(s, Send(true))
    ensures var t := Apply(env, s, Send(true));
            var data := s.outgoing.data;
            && t.tokens >= s.tokens - |data| as real
            && (|data| <= 128 || env.gzip(data).None? ==> t.tokens == s.tokens - |data| as real)
            && (|data| > 128 && env.gzip(data).Some? && |env.gzip(data).value| < |data| ==>
                  t.tokens == s.tokens - |env.gzip(data).value| as real)
            && t.number == s.number + 1 && t.outgoing.Nothing? && t.buf == s.buf
  {
  }
}
