/** The bandwidth limit: what any stretch of a run charges to the bucket, and what it puts on the connection. */
module TokenBucket {
  import opened Bits
  import opened SafeSplit
  import opened Server
  import opened ServerRuns

  /** The payload that an event charges to the bucket. */
  function Charge<S>(env: Env<S>, s: State<S>, e: Event<S>): nat {
    if e.Send? && e.ok && !s.outgoing.Nothing? then |env.Compress(s.outgoing.data).0| else 0
  }

  /** The payload of an atomic frame that an event sends. */
  function AtomicCharge<S>(env: Env<S>, s: State<S>, e: Event<S>): nat {
    if s.outgoing.Atomic? then Charge(env, s, e) else 0
  }

  function Elapsed<S>(e: Event<S>): Amount {
    if e.Tick? then e.elapsed else 0.0
  }

  /** The length of a frame, the tag, the number, the flag and the length of the data. */
  const HEADER := 18

  /** The payload that the closing flush sends. */
  function Flushed<S>(env: Env<S>, s: State<S>, e: Event<S>): nat {
    if e.Flush? && e.ok && |s.buf| > 0 then |env.Compress(s.buf).0| else 0
  }

  predicate SendsFrame<S>(s: State<S>, e: Event<S>) {
    || (e.Send? && e.ok && !s.outgoing.Nothing?)
    || (e.Flush? && e.ok && |s.buf| > 0)
  }

  /** Two ways to count: the payload that the code charges, or all bytes on the connection. */
  datatype Tariff = Charged | OnWire

  function Cost<S>(tariff: Tariff, env: Env<S>, s: State<S>, e: Event<S>): nat {
    match tariff
    case Charged => Charge(env, s, e)
    case OnWire => Charge(env, s, e) + Flushed(env, s, e) + if SendsFrame(s, e) then HEADER else 0
  }

  function TotalCost<S>(tariff: Tariff, env: Env<S>, s: State<S>, es: seq<Event<S>>): nat
    decreases |es|
  {
    if |es| == 0 then 0
    else
      TotalCost(tariff, env, s, es[..|es| - 1]) + Cost(tariff, env, RunTo(env, s, es[..|es| - 1]), es[|es| - 1])
  }

  /** All payload charged in a run from `s`. */
  function TotalCharge<S>(env: Env<S>, s: State<S>, es: seq<Event<S>>): nat {
    TotalCost(Charged, env, s, es)
  }

  /** The largest atomic frame sent in a run from `s`; 0 if there is none. */
  function LargestAtomic<S>(env: Env<S>, s: State<S>, es: seq<Event<S>>): nat
    decreases |es|
  {
    if |es| == 0 then 0
    else
      var m := LargestAtomic(env, s, es[..|es| - 1]);
      var c := AtomicCharge(env, RunTo(env, s, es[..|es| - 1]), es[|es| - 1]);
      if m < c then c else m
  }

  function TotalElapsed<S>(es: seq<Event<S>>): Amount
    decreases |es|
  {
    if |es| == 0 then 0.0 else TotalElapsed(es[..|es| - 1]) + Elapsed(es[|es| - 1])
  }

  /** Tokens never exceed the burst; what is under way was taken out with tokens for it. */
  predicate Funded<S>(env: Env<S>, s: State<S>) {
    && s.tokens <= env.Burst()
    && (s.outgoing.Raw? ==> |s.outgoing.data| as real <= s.tokens)
    && (s.outgoing.Atomic? ==> s.tokens > 0.0)
  }

  lemma FundedStep<S>(env: Env<S>, s: State<S>, e: Event<S>)
    requires Funded(env, s) && Enabled(s, e)
    ensures Funded(env, Apply(env, s, e))
  {
    hide SplitPoint, Drop, Play;
    if e.Tick? {
      TickBounds(env, s, e.elapsed, e.renderFails);
    }
  }

  lemma {:induction false} FundedRun<S>(env: Env<S>, screen: S, es: seq<Event<S>>)
    requires Legal(env, Initial(env, screen), es)
    ensures Funded(env, RunTo(env, Initial(env, screen), es))
    decreases |es|
  {
    hide Apply, Enabled;
    if |es| > 0 {
      hide Funded;
      var n := |es| - 1;
      FundedRun(env, screen, es[..n]);
      FundedStep(env, RunTo(env, Initial(env, screen), es[..n]), es[n]);
    }
  }

  /** In no run does sending bytes of the PTY make the tokens negative. */
  lemma RawNeverNegative<S>(env: Env<S>, screen: S, es: seq<Event<S>>)
    requires Legal(env, Initial(env, screen), es + [Send(true)])
    requires RunTo(env, Initial(env, screen), es).outgoing.Raw?
    ensures RunTo(env, Initial(env, screen), es + [Send(true)]).tokens >= 0.0
  {
    hide SplitPoint, Drop, Play, TakeOut;
    assert (es + [Send(true)])[..|es|] == es;
    FundedRun(env, screen, es);
  }

  /** What one event does to the tokens. */
  lemma TokensStep<S>(env: Env<S>, s: State<S>, e: Event<S>)
    requires Funded(env, s) && Enabled(s, e)
    ensures var t := Apply(env, s, e);
            && Charge(env, s, e) as real + t.tokens <= s.tokens + env.rate * Elapsed(e)
            && (Charge(env, s, e) > 0 ==> t.tokens >= -(AtomicCharge(env, s, e) as real))
            && (Charge(env, s, e) == 0 ==> t.tokens >= s.tokens || t.tokens >= 0.0)
  {
    hide SplitPoint, Drop, Play, TakeOut;
    if e.Tick? {
      TickTokens(env, s, e.elapsed, e.renderFails);
      NonNegative(env.rate, e.elapsed);
    } else {
      assert env.rate * 0.0 == 0.0;
    }
  }

  lemma TickTokens<S>(env: Env<S>, s: State<S>, elapsed: Amount, renderFails: bool)
    ensures Apply(env, s, Tick(elapsed, renderFails)).tokens == Refill(env, s.tokens, elapsed)
  {
    hide SplitPoint, Drop;
  }

  /** The account of a run: payload and remaining tokens against tokens at the start and refills. */
  lemma {:induction false} Account<S>(env: Env<S>, s: State<S>, es: seq<Event<S>>)
    requires Funded(env, s) && Legal(env, s, es)
    ensures Funded(env, RunTo(env, s, es))
    ensures TotalCharge(env, s, es) as real + RunTo(env, s, es).tokens <= s.tokens + env.rate * TotalElapsed(es)
    ensures TotalCharge(env, s, es) > 0 ==> RunTo(env, s, es).tokens >= -(LargestAtomic(env, s, es) as real)
    decreases |es|
  {
    hide Apply, Enabled, Funded, Charge, Elapsed, AtomicCharge;
    if |es| == 0 {
      assert env.rate * 0.0 == 0.0;
    } else {
      var n := |es| - 1;
      var t := RunTo(env, s, es[..n]);
      Account(env, s, es[..n]);
      FundedStep(env, t, es[n]);
      TokensStep(env, t, es[n]);
      Distribute(env.rate, TotalElapsed(es[..n]), Elapsed(es[n]));
    }
  }

  lemma NonNegative(a: Amount, b: Amount)
    ensures a * b >= 0.0
  {
  }

  lemma Distribute(a: real, b: real, c: real)
    ensures a * (b + c) == a * b + a * c
  {
  }

  /**
   From any reachable state on, all throttled payload is at most the burst, plus rate times elapsed
   time, plus the largest atomic frame sent in that stretch.
   */
  lemma BandwidthBound<S>(env: Env<S>, screen: S, before: seq<Event<S>>, es: seq<Event<S>>)
    requires Legal(env, Initial(env, screen), before)
    requires Legal(env, RunTo(env, Initial(env, screen), before), es)
    ensures var s := RunTo(env, Initial(env, screen), before);
            TotalCharge(env, s, es) as real <=
            env.Burst() + env.rate * TotalElapsed(es) + LargestAtomic(env, s, es) as real
  {
    hide Legal, RunTo, TotalCharge, LargestAtomic, TotalElapsed;
    var s := RunTo(env, Initial(env, screen), before);
    FundedRun(env, screen, before);
    Account(env, s, es);
    NonNegative(env.rate, TotalElapsed(es));
  }

  // ----- when the cap is kept -----

  /** No stretch of the run costs more than the burst and rate times elapsed time. */
  ghost predicate WithinCap<S(!new)>(tariff: Tariff, env: Env<S>, screen: S, es: seq<Event<S>>) {
    forall before: seq<Event<S>>, during: seq<Event<S>> :: before + during <= es ==>
      TotalCost(tariff, env, RunTo(env, Initial(env, screen), before), during) as real <=
      env.Burst() + env.rate * TotalElapsed(during)
  }

  /** The tokens of a bucket that is full at the start, is refilled like the code's, and pays by the tariff. */
  function Level<S>(tariff: Tariff, env: Env<S>, screen: S, es: seq<Event<S>>): real
    decreases |es|
  {
    if |es| == 0 then env.Burst()
    else
      var n := |es| - 1;
      var before := Level(tariff, env, screen, es[..n]);
      if es[n].Tick? then Refill(env, before, es[n].elapsed)
      else before - Cost(tariff, env, RunTo(env, Initial(env, screen), es[..n]), es[n]) as real
  }

  /** Every frame that is sent costs at most the tokens of that bucket. */
  predicate AllAffordable<S>(tariff: Tariff, env: Env<S>, screen: S, es: seq<Event<S>>)
    decreases |es|
  {
    |es| == 0 ||
    var n := |es| - 1;
    var cost := Cost(tariff, env, RunTo(env, Initial(env, screen), es[..n]), es[n]);
    && AllAffordable(tariff, env, screen, es[..n])
    && (cost > 0 ==> cost as real <= Level(tariff, env, screen, es[..n]))
  }

  lemma RefillKeeps<S>(env: Env<S>, tokens: real, elapsed: Amount)
    requires tokens >= 0.0
    ensures Refill(env, tokens, elapsed) >= 0.0
  {
    NonNegative(env.rate, elapsed);
  }

  lemma TicksAreFree<S>(tariff: Tariff, env: Env<S>, s: State<S>, e: Event<S>)
    ensures e.Tick? ==> Cost(tariff, env, s, e) == 0
    ensures !e.Tick? ==> Elapsed(e) == 0.0
  {
  }

  lemma {:induction false} LevelNonNegative<S>(tariff: Tariff, env: Env<S>, screen: S, es: seq<Event<S>>)
    requires AllAffordable(tariff, env, screen, es)
    ensures Level(tariff, env, screen, es) >= 0.0
    decreases |es|
  {
    hide Cost, Refill, RunTo;
    if |es| > 0 {
      var n := |es| - 1;
      LevelNonNegative(tariff, env, screen, es[..n]);
      if es[n].Tick? {
        RefillKeeps(env, Level(tariff, env, screen, es[..n]), es[n].elapsed);
      }
    }
  }

  lemma {:induction false} AffordablePrefix<S>(tariff: Tariff, env: Env<S>, screen: S, es: seq<Event<S>>, k: nat)
    requires k <= |es| && AllAffordable(tariff, env, screen, es)
    ensures AllAffordable(tariff, env, screen, es[..k])
    decreases |es|
  {
    hide Cost, Level, RunTo;
    if k == |es| {
      assert es[..k] == es;
    } else {
      AffordablePrefix(tariff, env, screen, es[..|es| - 1], k);
      assert es[..|es| - 1][..k] == es[..k];
    }
  }

  lemma {:induction false} RunConcat<S>(env: Env<S>, s: State<S>, a: seq<Event<S>>, b: seq<Event<S>>)
    ensures RunTo(env, s, a + b) == RunTo(env, RunTo(env, s, a), b)
    decreases |b|
  {
    hide Apply;
    if |b| == 0 {
      assert a + b == a;
    } else {
      assert (a + b)[..|a + b| - 1] == a + b[..|b| - 1];
      RunConcat(env, s, a, b[..|b| - 1]);
    }
  }

  lemma LevelBelowBurst<S>(tariff: Tariff, env: Env<S>, screen: S, es: seq<Event<S>>)
    ensures Level(tariff, env, screen, es) <= env.Burst()
    decreases |es|
  {
    hide Cost, RunTo;
    if |es| > 0 {
      LevelBelowBurst(tariff, env, screen, es[..|es| - 1]);
    }
  }

  /** What one more event does to the bucket. */
  lemma LevelOne<S>(tariff: Tariff, env: Env<S>, screen: S, es: seq<Event<S>>, e: Event<S>)
    ensures var cost := Cost(tariff, env, RunTo(env, Initial(env, screen), es), e) as real;
            var before, after := Level(tariff, env, screen, es), Level(tariff, env, screen, es + [e]);
            && cost + after <= before + env.rate * Elapsed(e)
            && (after == env.Burst() || cost + after == before + env.rate * Elapsed(e))
  {
    hide Cost, RunTo;
    assert (es + [e])[..|es|] == es;
    TicksAreFree(tariff, env, RunTo(env, Initial(env, screen), es), e);
    assert env.rate * 0.0 == 0.0;
  }

  /** What a stretch of a run costs and what is left in the bucket come from the bucket and the refills. */
  lemma {:induction false} LevelAccount<S>(
      tariff: Tariff, env: Env<S>, screen: S, before: seq<Event<S>>, during: seq<Event<S>>)
    ensures TotalCost(tariff, env, RunTo(env, Initial(env, screen), before), during) as real
            + Level(tariff, env, screen, before + during) <=
            Level(tariff, env, screen, before) + env.rate * TotalElapsed(during)
    decreases |during|
  {
    hide Cost, Level, RunTo, Elapsed, TotalCost, TotalElapsed;
    if |during| == 0 {
      assert before + during == before;
      NoCost(tariff, env, RunTo(env, Initial(env, screen), before));
    } else {
      var d, e := during[..|during| - 1], during[|during| - 1];
      LevelAccount(tariff, env, screen, before, d);
      LevelOne(tariff, env, screen, before + d, e);
      RunConcat(env, Initial(env, screen), before, d);
      assert during == d + [e] && before + during == before + d + [e];
      OneMoreCost(tariff, env, RunTo(env, Initial(env, screen), before), d, e);
    }
  }

  lemma OneMoreCost<S>(tariff: Tariff, env: Env<S>, s: State<S>, es: seq<Event<S>>, e: Event<S>)
    ensures TotalCost(tariff, env, s, es + [e]) == TotalCost(tariff, env, s, es) + Cost(tariff, env, RunTo(env, s, es), e)
    ensures env.rate * TotalElapsed(es + [e]) == env.rate * TotalElapsed(es) + env.rate * Elapsed(e)
  {
    hide Cost, RunTo, Elapsed;
    assert (es + [e])[..|es|] == es;
    Distribute(env.rate, TotalElapsed(es), Elapsed(e));
  }

  lemma NoCost<S>(tariff: Tariff, env: Env<S>, s: State<S>)
    ensures TotalCost(tariff, env, s, []) == 0 && env.rate * TotalElapsed<S>([]) == 0.0
  {
    assert env.rate * 0.0 == 0.0;
  }

  /** The stretch since the bucket was last full: there nothing of the refills is lost. */
  lemma {:induction false} SinceFull<S>(tariff: Tariff, env: Env<S>, screen: S, es: seq<Event<S>>)
    returns (before: seq<Event<S>>, during: seq<Event<S>>)
    ensures before + during == es
    ensures TotalCost(tariff, env, RunTo(env, Initial(env, screen), before), during) as real
            + Level(tariff, env, screen, es) == env.Burst() + env.rate * TotalElapsed(during)
    decreases |es|
  {
    hide Cost, RunTo, Elapsed, TotalCost, TotalElapsed, Level;
    if Level(tariff, env, screen, es) == env.Burst() {
      before, during := es, [];
      NoCost(tariff, env, RunTo(env, Initial(env, screen), es));
    } else if |es| == 0 {
      StartsFull(tariff, env, screen);
      assert false;
    } else {
      var shorter, e := es[..|es| - 1], es[|es| - 1];
      var d;
      before, d := SinceFull(tariff, env, screen, shorter);
      during := d + [e];
      assert es == shorter + [e] && before + during == shorter + [e];
      RunConcat(env, Initial(env, screen), before, d);
      LevelOne(tariff, env, screen, shorter, e);
      OneMoreCost(tariff, env, RunTo(env, Initial(env, screen), before), d, e);
    }
  }

  lemma StartsFull<S>(tariff: Tariff, env: Env<S>, screen: S)
    ensures Level(tariff, env, screen, []) == env.Burst()
  {
  }

  /** The run up to its first frame that is not affordable leaves the bucket negative. */
  lemma {:induction false} FirstUnaffordable<S>(tariff: Tariff, env: Env<S>, screen: S, es: seq<Event<S>>)
    returns (k: nat)
    requires !AllAffordable(tariff, env, screen, es)
    ensures k <= |es| && Level(tariff, env, screen, es[..k]) < 0.0
    decreases |es|
  {
    hide RunTo, Cost;
    var n := |es| - 1;
    if AllAffordable(tariff, env, screen, es[..n]) {
      TicksAreFree(tariff, env, RunTo(env, Initial(env, screen), es[..n]), es[n]);
      k := |es|;
      assert es[..k] == es;
    } else {
      k := FirstUnaffordable(tariff, env, screen, es[..n]);
      assert es[..n][..k] == es[..k];
    }
  }

  /** By either tariff the cap is kept exactly in the runs in which every frame is affordable when it is sent. */
  lemma AffordableIff<S(!new)>(tariff: Tariff, env: Env<S>, screen: S, es: seq<Event<S>>)
    ensures WithinCap(tariff, env, screen, es) <==> AllAffordable(tariff, env, screen, es)
  {
    hide RunTo, AllAffordable, TotalCost, TotalElapsed, Level;
    if AllAffordable(tariff, env, screen, es) {
      forall before: seq<Event<S>>, during: seq<Event<S>> | before + during <= es
        ensures TotalCost(tariff, env, RunTo(env, Initial(env, screen), before), during) as real <=
                env.Burst() + env.rate * TotalElapsed(during)
      {
        assert before + during == es[..|before + during|];
        AffordablePrefix(tariff, env, screen, es, |before + during|);
        LevelNonNegative(tariff, env, screen, before + during);
        LevelBelowBurst(tariff, env, screen, before);
        LevelAccount(tariff, env, screen, before, during);
      }
    } else {
      var k := FirstUnaffordable(tariff, env, screen, es);
      var before, during := SinceFull(tariff, env, screen, es[..k]);
      assert before + during <= es;
    }
  }

  // ----- the charged payload -----

  /** A refresh that is sent has a payload of at most the tokens that are left. */
  predicate Fits<S>(env: Env<S>, s: State<S>, e: Event<S>) {
    e.Send? && e.ok && s.outgoing.Atomic? ==> |env.Compress(s.outgoing.data).0| as real <= s.tokens
  }

  predicate RefreshesFit<S>(env: Env<S>, s: State<S>, es: seq<Event<S>>)
    decreases |es|
  {
    |es| == 0 ||
    (RefreshesFit(env, s, es[..|es| - 1]) && Fits(env, RunTo(env, s, es[..|es| - 1]), es[|es| - 1]))
  }

  lemma TokensAfter<S>(env: Env<S>, s: State<S>, e: Event<S>)
    requires Enabled(s, e)
    ensures Apply(env, s, e).tokens ==
            if e.Tick? then Refill(env, s.tokens, e.elapsed) else s.tokens - Charge(env, s, e) as real
  {
    hide SplitPoint, Drop, Play, TakeOut, Refill;
    if e.Tick? {
      TickTokens(env, s, e.elapsed, e.renderFails);
    }
  }

  /** The bucket that pays the charged payload is the code's. */
  lemma {:induction false} LevelIsTokens<S>(env: Env<S>, screen: S, es: seq<Event<S>>)
    requires Legal(env, Initial(env, screen), es)
    ensures Level(Charged, env, screen, es) == RunTo(env, Initial(env, screen), es).tokens
    decreases |es|
  {
    hide Apply, Enabled, Charge, Refill;
    if |es| > 0 {
      var n := |es| - 1;
      LevelIsTokens(env, screen, es[..n]);
      TokensAfter(env, RunTo(env, Initial(env, screen), es[..n]), es[n]);
    }
  }

  /** Of what is sent, only a refresh can fail to be covered by the tokens. */
  lemma FitsIff<S>(env: Env<S>, s: State<S>, e: Event<S>)
    requires Funded(env, s) && Enabled(s, e)
    ensures Fits(env, s, e) <==> (Charge(env, s, e) > 0 ==> Charge(env, s, e) as real <= s.tokens)
  {
  }

  /**
   The charged payload keeps to the cap exactly in the runs in which every refresh that is sent fits
   the tokens: the send loop makes no such check, and only such a refresh can charge too much.
   */
  lemma CapIff<S(!new)>(env: Env<S>, screen: S, es: seq<Event<S>>)
    requires Legal(env, Initial(env, screen), es)
    ensures WithinCap(Charged, env, screen, es) <==> RefreshesFit(env, Initial(env, screen), es)
  {
    hide WithinCap, RefreshesFit, AllAffordable, Legal;
    AffordableIff(Charged, env, screen, es);
    AffordableIsFitting(env, screen, es);
  }

  lemma {:induction false} AffordableIsFitting<S>(env: Env<S>, screen: S, es: seq<Event<S>>)
    requires Legal(env, Initial(env, screen), es)
    ensures AllAffordable(Charged, env, screen, es) <==> RefreshesFit(env, Initial(env, screen), es)
    decreases |es|
  {
    hide Apply, Enabled, Fits, Funded, Level, Charge;
    if |es| > 0 {
      var n := |es| - 1;
      AffordableIsFitting(env, screen, es[..n]);
      FundedRun(env, screen, es[..n]);
      LevelIsTokens(env, screen, es[..n]);
      FitsIff(env, RunTo(env, Initial(env, screen), es[..n]), es[n]);
    }
  }

  // ----- an overflow -----

  /** Five full reads overflow the buffer; the next tick renders the screen, which is then sent. */
  function OverflowRun<S>(chunk: Bytes): seq<Event<S>> {
    var a := Append(chunk, None);
    [a, a, a, a, a, Tick(0.0, false), Send(true)]
  }

  /** The screen after `n` reads of the same bytes. */
  function PlayTimes<S>(env: Env<S>, screen: S, chunk: Bytes, n: nat): S {
    if n == 0 then screen else Play(env, PlayTimes(env, screen, chunk, n - 1), chunk)
  }

  /**
   With every emulator, renderer, encoder and rate the overflow run exceeds the cap exactly when the
   payload of the refresh is larger than the burst.
   */
  lemma OverflowExceedsIff<S(!new)>(env: Env<S>, screen: S, chunk: Bytes)
    requires |chunk| == 4096
    ensures Legal(env, Initial(env, screen), OverflowRun(chunk))
    ensures WithinCap(Charged, env, screen, OverflowRun(chunk)) <==>
            |env.Compress(env.render(PlayTimes(env, screen, chunk, 5))).0| as real <= env.Burst()
  {
    hide Play, SplitPoint, WithinCap, Drop, RunTo, Legal;
    var es: seq<Event<S>> := OverflowRun(chunk);
    var s0 := Initial(env, screen);
    var s5 := FiveReads(env, screen, chunk);
    NextState(env, s0, es, 5);
    var s6 := Apply(env, s5, es[5]);
    assert s6.outgoing == Atomic(env.render(s5.vt)) && s6.tokens == env.Burst();
    NextState(env, s0, es, 6);
    assert es[..7] == es;
    FitsOnce(env, s0, es);
    CapIff(env, screen, es);
  }

  /** Only the last of the seven events sends. */
  lemma FitsOnce<S>(env: Env<S>, s: State<S>, es: seq<Event<S>>)
    requires |es| == 7 && forall i :: 0 <= i < 6 ==> !es[i].Send?
    ensures RefreshesFit(env, s, es) <==> Fits(env, RunTo(env, s, es[..6]), es[6])
  {
    hide RunTo;
    NothingSent(env, s, es[..6]);
  }

  lemma {:induction false} NothingSent<S>(env: Env<S>, s: State<S>, es: seq<Event<S>>)
    requires forall i :: 0 <= i < |es| ==> !es[i].Send?
    ensures RefreshesFit(env, s, es)
    decreases |es|
  {
    hide RunTo;
    if |es| > 0 {
      NothingSent(env, s, es[..|es| - 1]);
    }
  }

  lemma FiveReads<S>(env: Env<S>, screen: S, chunk: Bytes) returns (s: State<S>)
    requires |chunk| == 4096
    ensures s == RunTo(env, Initial(env, screen), OverflowRun(chunk)[..5])
    ensures Legal(env, Initial(env, screen), OverflowRun(chunk)[..5])
    ensures |s.buf| == 20480 && s.tokens == env.Burst() && s.outgoing.Nothing? && !s.done && !s.pending
    ensures s.vt == PlayTimes(env, screen, chunk, 5)
  {
    hide Play;
    var es: seq<Event<S>> := OverflowRun(chunk);
    s := Initial(env, screen);
    assert es[..0] == [];
    for k := 0 to 5
      invariant s == RunTo(env, Initial(env, screen), es[..k]) && Legal(env, Initial(env, screen), es[..k])
      invariant |s.buf| == 4096 * k && s.tokens == env.Burst() && s.outgoing.Nothing?
      invariant !s.done && !s.closed && !s.pending && s.vt == PlayTimes(env, screen, chunk, k)
    {
      NextState(env, Initial(env, screen), es, k);
      s := Apply(env, s, es[k]);
    }
  }

  // ----- what is not charged -----

  /** The bytes of an item on the connection. */
  function WireBytes<S>(env: Env<S>, i: Item): nat {
    if i.Dropped? then 0 else HEADER + |env.Compress(i.data).0|
  }

  function Wire<S>(env: Env<S>, history: seq<Item>): nat
    decreases |history|
  {
    if |history| == 0 then 0 else Wire(env, history[..|history| - 1]) + WireBytes(env, history[|history| - 1])
  }

  function TotalFlushed<S>(env: Env<S>, s: State<S>, es: seq<Event<S>>): nat
    decreases |es|
  {
    if |es| == 0 then 0
    else TotalFlushed(env, s, es[..|es| - 1]) + Flushed(env, RunTo(env, s, es[..|es| - 1]), es[|es| - 1])
  }

  function Ticks<S>(es: seq<Event<S>>): nat
    decreases |es|
  {
    if |es| == 0 then 0 else Ticks(es[..|es| - 1]) + if es[|es| - 1].Tick? then 1 else 0
  }

  lemma WireOne<S>(env: Env<S>, history: seq<Item>, i: Item)
    ensures Wire(env, history + [i]) == Wire(env, history) + WireBytes(env, i)
    ensures |Numbers(history + [i])| == |Numbers(history)| + if i.Dropped? then 0 else 1
  {
    assert (history + [i])[..|history|] == history;
  }

  lemma WireDrop<S>(env: Env<S>, history: seq<Item>, data: Bytes)
    ensures Wire(env, Drop(history, data)) == Wire(env, history)
    ensures |Numbers(Drop(history, data))| == |Numbers(history)|
  {
    hide Wire, Numbers;
    if |data| > 0 {
      WireOne(env, history, Item.Dropped(data));
    }
  }

  /** The frames sent so far, the one under way, and the closing one. */
  function FramesDue<S>(s: State<S>): nat {
    |Numbers(s.history)| + (if s.outgoing.Nothing? then 0 else 1) + (if s.done then 0 else 1)
  }

  /** What one event sends, and that frames come from ticks. */
  lemma WireStep<S>(env: Env<S>, s: State<S>, e: Event<S>)
    requires Enabled(s, e)
    ensures var t := Apply(env, s, e);
            && Wire(env, t.history) == Wire(env, s.history) + Cost(OnWire, env, s, e)
            && |Numbers(t.history)| == |Numbers(s.history)| + (if SendsFrame(s, e) then 1 else 0)
            && FramesDue(t) <= FramesDue(s) + if e.Tick? then 1 else 0
  {
    hide Wire, Numbers, SplitPoint, Play, Drop;
    match e
    case Append(_, _) =>
    case EndOfPty =>
    case Tick(elapsed, _) =>
      WireDrop(env, s.history, s.buf);
      WireDrop(env, Drop(s.history, s.buf), []);
    case Send(ok) =>
      WireSend(env, s, ok);
    case Flush(ok) =>
      WireOne(env, s.history, if ok then Chunk(s.number + 1, s.buf) else Item.Dropped(s.buf));
    case Reset(_) =>
  }

  lemma WireSend<S>(env: Env<S>, s: State<S>, ok: bool)
    requires Enabled(s, Send(ok))
    ensures var t := Apply(env, s, Send(ok));
            && Wire(env, t.history) == Wire(env, s.history) + Cost(OnWire, env, s, Send(ok))
            && |Numbers(t.history)| == |Numbers(s.history)| + (if SendsFrame(s, Send(ok)) then 1 else 0)
            && FramesDue(t) <= FramesDue(s)
  {
    hide Wire, Numbers, SplitPoint, Play, Drop;
    var n, d := s.number + 1, s.outgoing.data;
    if s.outgoing.Raw? {
      WireOne(env, s.history, if ok then Chunk(n, d) else Item.Dropped(d));
    } else if ok {
      WireOne(env, s.history, Refresh(n, d));
    } else {
      assert s.history + [] == s.history;
    }
  }

  /** The bytes on the connection are the charged payload, the flushed payload and the headers of the frames. */
  lemma {:induction false} WireAccount<S>(env: Env<S>, s: State<S>, es: seq<Event<S>>)
    requires Legal(env, s, es)
    ensures var t := RunTo(env, s, es);
            && Wire(env, t.history) + HEADER * |Numbers(s.history)| ==
               Wire(env, s.history) + HEADER * |Numbers(t.history)| + TotalCharge(env, s, es) + TotalFlushed(env, s, es)
            && FramesDue(t) <= FramesDue(s) + Ticks(es)
    decreases |es|
  {
    hide Wire, Numbers, Apply, Enabled, Charge, Flushed, FramesDue, SendsFrame;
    if |es| > 0 {
      var n := |es| - 1;
      WireAccount(env, s, es[..n]);
      WireStep(env, RunTo(env, s, es[..n]), es[n]);
    }
  }

  /**
   What any stretch of any run puts on the connection: besides the charged payload, whose bound is
   known, 18 bytes for each frame, of which there are at most two more than ticks, and the closing flush.
   */
  lemma WireBound<S>(env: Env<S>, screen: S, before: seq<Event<S>>, es: seq<Event<S>>)
    requires Legal(env, Initial(env, screen), before)
    requires Legal(env, RunTo(env, Initial(env, screen), before), es)
    ensures var s := RunTo(env, Initial(env, screen), before);
            var t := RunTo(env, s, es);
            (Wire(env, t.history) - Wire(env, s.history)) as real <=
            env.Burst() + env.rate * TotalElapsed(es) + LargestAtomic(env, s, es) as real
            + (HEADER * (Ticks(es) + 2) + TotalFlushed(env, s, es)) as real
  {
    hide Legal, RunTo, TotalCharge, LargestAtomic, TotalElapsed, Wire, Numbers, TotalFlushed, Ticks;
    var s := RunTo(env, Initial(env, screen), before);
    BandwidthBound(env, screen, before, es);
    WireAccount(env, s, es);
    assert |Numbers(RunTo(env, s, es).history)| <= |Numbers(s.history)| + Ticks(es) + 2;
  }

  /** One byte is read, taken out and sent, `n` times. */
  function OneByteFrames<S>(n: nat): seq<Event<S>> {
    if n == 0 then [] else OneByteFrames(n - 1) + [Append([0x20], None), Tick(0.0, false), Send(true)]
  }

  lemma OneByteStep<S>(env: Env<S>, s: State<S>) returns (t: State<S>)
    requires s.buf == [] && s.outgoing.Nothing? && !s.done && !s.closed && !s.pending && 1.0 <= s.tokens <= env.Burst()
    ensures var s1 := Apply(env, s, Append([0x20], None));
            var s2 := Apply(env, s1, Tick(0.0, false));
            && Enabled(s, Append([0x20], None)) && Enabled(s1, Tick(0.0, false)) && Enabled(s2, Send(true))
            && s2.outgoing.Raw? && t == Apply(env, s2, Send(true))
    ensures t.buf == [] && t.outgoing.Nothing? && !t.done && !t.closed && !t.pending && t.tokens == s.tokens - 1.0
    ensures t.history == s.history + [Chunk(s.number + 1, [0x20])]
  {
    hide Play;
    var s1 := Apply(env, s, Append([0x20], None));
    var s2 := Apply(env, s1, Tick(0.0, false));
    assert env.rate * 0.0 == 0.0;
    assert s1.buf == [0x20] && s1.buf[..1] == [0x20] && s1.buf[1..] == [];
    WholeByte(s.tokens);
    t := Apply(env, s2, Send(true));
  }

  lemma WholeByte(tokens: real)
    requires tokens >= 1.0
    ensures SplitPoint([0x20], tokens.Floor) == 1
  {
  }

  lemma {:induction false} OneByteRun<S>(env: Env<S>, screen: S, n: nat) returns (t: State<S>)
    requires n as real <= env.Burst()
    ensures var es := OneByteFrames(n);
            && Legal(env, Initial(env, screen), es) && RefreshesFit(env, Initial(env, screen), es)
            && t == RunTo(env, Initial(env, screen), es) && TotalElapsed(es) == 0.0
    ensures t.buf == [] && t.outgoing.Nothing? && !t.done && !t.closed && !t.pending
    ensures t.tokens == env.Burst() - n as real && Wire(env, t.history) == 19 * n
  {
    hide Apply, Enabled, RunTo, Legal, RefreshesFit, TotalElapsed, Wire;
    var init := Initial(env, screen);
    if n == 0 {
      t := init;
      NothingYet(env, screen);
    } else {
      var es: seq<Event<S>> := OneByteFrames(n - 1);
      var s := OneByteRun(env, screen, n - 1);
      t := OneByteStep(env, s);
      WireOne(env, s.history, Chunk(s.number + 1, [0x20]));
      ThreeMore(env, init, es, Append([0x20], None), Tick(0.0, false), Send(true));
    }
  }

  lemma NothingYet<S>(env: Env<S>, screen: S)
    ensures Legal(env, Initial(env, screen), []) && RefreshesFit(env, Initial(env, screen), [])
    ensures RunTo(env, Initial(env, screen), []) == Initial(env, screen)
    ensures TotalElapsed<S>([]) == 0.0 && Wire(env, []) == 0
  {
  }

  lemma OneEvent<S>(env: Env<S>, s: State<S>, es: seq<Event<S>>, e: Event<S>)
    ensures RunTo(env, s, es + [e]) == Apply(env, RunTo(env, s, es), e)
    ensures Legal(env, s, es + [e]) <==> Legal(env, s, es) && Enabled(RunTo(env, s, es), e)
    ensures RefreshesFit(env, s, es + [e]) <==> RefreshesFit(env, s, es) && Fits(env, RunTo(env, s, es), e)
    ensures TotalElapsed(es + [e]) == TotalElapsed(es) + Elapsed(e)
  {
    hide Apply, Enabled, Fits, Elapsed;
    assert (es + [e])[..|es|] == es;
  }

  lemma ThreeMore<S>(env: Env<S>, s: State<S>, es: seq<Event<S>>, a: Event<S>, b: Event<S>, c: Event<S>)
    ensures var t := RunTo(env, s, es);
            var t1 := Apply(env, t, a);
            var t2 := Apply(env, t1, b);
            && RunTo(env, s, es + [a, b, c]) == Apply(env, t2, c)
            && (Legal(env, s, es + [a, b, c]) <==> Legal(env, s, es) && Enabled(t, a) && Enabled(t1, b) && Enabled(t2, c))
            && (RefreshesFit(env, s, es + [a, b, c]) <==>
                RefreshesFit(env, s, es) && Fits(env, t, a) && Fits(env, t1, b) && Fits(env, t2, c))
            && TotalElapsed(es + [a, b, c]) == TotalElapsed(es) + Elapsed(a) + Elapsed(b) + Elapsed(c)
  {
    hide Apply, Enabled, Fits, Elapsed, RunTo, Legal, RefreshesFit, TotalElapsed;
    OneEvent(env, s, es, a);
    OneEvent(env, s, es + [a], b);
    assert es + [a] + [b] == es + [a, b];
    OneEvent(env, s, es + [a, b], c);
    assert es + [a, b] + [c] == es + [a, b, c];
  }

  /** The bytes on the connection are what the second tariff counts. */
  lemma {:induction false} WireIsCost<S>(env: Env<S>, s: State<S>, es: seq<Event<S>>)
    requires Legal(env, s, es)
    ensures Wire(env, RunTo(env, s, es).history) == Wire(env, s.history) + TotalCost(OnWire, env, s, es)
    decreases |es|
  {
    hide Wire, Numbers, Apply, Enabled, Cost;
    if |es| > 0 {
      var n := |es| - 1;
      WireIsCost(env, s, es[..n]);
      WireStep(env, RunTo(env, s, es[..n]), es[n]);
    }
  }

  /**
   The promised cap, for all bytes on the connection: every stretch of a run keeps to the burst and rate
   times elapsed time exactly when each frame, the closing one included, is covered with header and
   payload by a bucket that pays for both.
   */
  lemma WireIff<S(!new)>(env: Env<S>, screen: S, es: seq<Event<S>>)
    requires Legal(env, Initial(env, screen), es)
    ensures (forall before: seq<Event<S>>, during: seq<Event<S>> :: before + during <= es ==>
               (Wire(env, RunTo(env, Initial(env, screen), before + during).history)
                - Wire(env, RunTo(env, Initial(env, screen), before).history)) as real <=
               env.Burst() + env.rate * TotalElapsed(during)) <==>
            AllAffordable(OnWire, env, screen, es)
  {
    hide AllAffordable, Legal, RunTo, Wire, TotalCost, TotalElapsed;
    AffordableIff(OnWire, env, screen, es);
    forall before: seq<Event<S>>, during: seq<Event<S>> | before + during <= es
      ensures Wire(env, RunTo(env, Initial(env, screen), before + during).history) ==
              Wire(env, RunTo(env, Initial(env, screen), before).history)
              + TotalCost(OnWire, env, RunTo(env, Initial(env, screen), before), during)
    {
      LegalStretch(env, Initial(env, screen), es, before, during);
      RunConcat(env, Initial(env, screen), before, during);
      WireIsCost(env, RunTo(env, Initial(env, screen), before), during);
    }
  }

  lemma {:induction false} LegalStretch<S>(
      env: Env<S>, s: State<S>, es: seq<Event<S>>, before: seq<Event<S>>, during: seq<Event<S>>)
    requires Legal(env, s, es) && before + during <= es
    ensures Legal(env, RunTo(env, s, before), during)
    decreases |es|
  {
    hide Apply, Enabled;
    var n := |es| - 1;
    if |before + during| < |es| {
      assert before + during <= es[..n];
      LegalStretch(env, s, es[..n], before, during);
    } else if |during| > 0 {
      assert before + during == es;
      var d := during[..|during| - 1];
      assert before + d == es[..n];
      LegalStretch(env, s, es[..n], before, d);
      RunConcat(env, s, before, d);
    }
  }

  /**
   The cap does not hold for the bytes on the connection, whatever the rate, even in a run without any
   refresh that keeps to the cap as the code counts it: it sends 19 bytes for each byte it charges.
   */
  lemma HeadersExceedCap<S(!new)>(env: Env<S>, screen: S) returns (es: seq<Event<S>>)
    ensures Legal(env, Initial(env, screen), es) && WithinCap(Charged, env, screen, es)
    ensures Wire(env, RunTo(env, Initial(env, screen), es).history) as real > env.Burst() + env.rate * TotalElapsed(es)
  {
    hide WithinCap, RefreshesFit, RunTo, Legal, Wire, TotalElapsed;
    var n := env.Burst().Floor / 19 + 1;
    es := OneByteFrames(n);
    var t := OneByteRun(env, screen, n);
    CapIff(env, screen, es);
    assert env.rate * 0.0 == 0.0;
  }
}
