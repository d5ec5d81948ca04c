/** In which runs the PTY stream is cut only at unit boundaries of the whole stream, in either reading. */
module SplitAlignment {
  import opened Bits
  import opened SafeSplit
  import opened Units
  import opened SplitPromise
  import opened Server
  import opened ServerRuns

  /** The buffer begins at a boundary of all bytes read, whatever is read later. */
  ghost predicate Aligned<S>(r: Reading, s: State<S>) {
    && |s.buf| <= |s.read| && s.read[|s.read| - |s.buf|..] == s.buf
    && forall more: Bytes :: Boundary(r, s.read + more, |s.read| - |s.buf|)
  }

  /** How many bytes an event takes from the front of the buffer, to send or to drop them. */
  function Taken<S>(env: Env<S>, s: State<S>, e: Event<S>): nat {
    if (e.Tick? || e.Flush?) && |Apply(env, s, e).buf| <= |s.buf| then |s.buf| - |Apply(env, s, e).buf| else 0
  }

  /** What an event takes it cuts off at a boundary inside the buffer or at the end of a closed buffer. */
  predicate CleanStep<S>(r: Reading, env: Env<S>, s: State<S>, e: Event<S>) {
    0 < Taken(env, s, e) <= |s.buf| ==> Clean(r, s.buf, Taken(env, s, e))
  }

  lemma TakeOutSuffix<S>(env: Env<S>, s: State<S>, renderFails: bool)
    ensures var t := TakeOut(env, s, renderFails);
            |t.buf| <= |s.buf| && t.buf == s.buf[|s.buf| - |t.buf|..] && t.read == s.read
  {
    hide SplitPoint, Drop;
    assert s.buf[0..] == s.buf && s.buf[|s.buf|..] == [];
  }

  lemma TickSuffix<S>(env: Env<S>, s: State<S>, elapsed: Amount, renderFails: bool)
    ensures var t := Apply(env, s, Tick(elapsed, renderFails));
            |t.buf| <= |s.buf| && t.buf == s.buf[|s.buf| - |t.buf|..] && t.read == s.read
  {
    hide TakeOut, Drop, Refill;
    var t := DropOverflow(s.(tokens := Refill(env, s.tokens, elapsed)));
    TakeOutSuffix(env, t, renderFails);
  }

  lemma TakenFromFront<S>(env: Env<S>, s: State<S>, e: Event<S>)
    requires Enabled(s, e) && !e.Append?
    ensures Taken(env, s, e) <= |s.buf|
    ensures Apply(env, s, e).buf == s.buf[Taken(env, s, e)..] && Apply(env, s, e).read == s.read
  {
    hide TakeOut, DropOverflow, Drop, Refill;
    if e.Tick? {
      hide Apply;
      TickSuffix(env, s, e.elapsed, e.renderFails);
    } else {
      assert s.buf[0..] == s.buf && s.buf[|s.buf|..] == [];
    }
  }

  lemma AppendAligned<S>(r: Reading, s: State<S>, chunk: Bytes)
    requires Aligned(r, s)
    ensures Aligned(r, s.(buf := s.buf + chunk, read := s.read + chunk))
  {
    hide Boundary;
    var c := |s.read| - |s.buf|;
    forall more: Bytes
      ensures Boundary(r, s.read + chunk + more, c)
    {
      assert s.read + chunk + more == s.read + (chunk + more);
    }
    assert (s.read + chunk)[c..] == s.read[c..] + chunk;
  }

  /** Taking `n` bytes keeps the alignment exactly when it is a clean cut. */
  lemma CutAlignedIff<S>(r: Reading, s: State<S>, n: nat)
    requires Aligned(r, s) && n <= |s.buf|
    ensures Aligned(r, s.(buf := s.buf[n..])) <==> Clean(r, s.buf, n)
  {
    hide Boundary, Clean;
    var c := |s.read| - |s.buf|;
    CleanIff(r, s.buf, n);
    forall more: Bytes
      ensures Boundary(r, s.read + more, c + n) <==> Boundary(r, s.buf + more, n)
    {
      assert (s.read + more)[c..] == s.buf + more;
      BoundaryCompose(r, s.read + more, c, n);
    }
    assert s.read[c + n..] == s.read[c..][n..];
    if Clean(r, s.buf, n) {
    } else {
      var more: Bytes :| !Boundary(r, s.buf + more, n);
      assert !Boundary(r, s.read + more, c + n);
    }
  }

  lemma NothingTaken<S>(r: Reading, s: State<S>, t: State<S>)
    requires t.buf == s.buf && t.read == s.read
    ensures Aligned(r, t) <==> Aligned(r, s)
  {
  }

  lemma AppendTakesNothing<S>(env: Env<S>, s: State<S>, e: Event<S>)
    requires e.Append?
    ensures Taken(env, s, e) == 0
    ensures Apply(env, s, e).buf == s.buf + e.chunk && Apply(env, s, e).read == s.read + e.chunk
  {
    hide Play;
  }

  /** A step keeps the buffer aligned exactly when it is clean. */
  lemma AlignedStep<S>(r: Reading, env: Env<S>, s: State<S>, e: Event<S>)
    requires Aligned(r, s) && Enabled(s, e)
    ensures Aligned(r, Apply(env, s, e)) <==> CleanStep(r, env, s, e)
  {
    hide Aligned, Clean, Apply, Taken, Enabled;
    var t, n := Apply(env, s, e), Taken(env, s, e);
    if e.Append? {
      AppendTakesNothing(env, s, e);
      AppendAligned(r, s, e.chunk);
      NothingTaken(r, s.(buf := s.buf + e.chunk, read := s.read + e.chunk), t);
    } else {
      TakenFromFront(env, s, e);
      NothingTaken(r, s.(buf := s.buf[n..]), t);
      if n > 0 {
        CutAlignedIff(r, s, n);
      } else {
        assert s.buf[0..] == s.buf;
        NothingTaken(r, s, s.(buf := s.buf[n..]));
      }
    }
  }

  predicate AllClean<S>(r: Reading, env: Env<S>, s: State<S>, es: seq<Event<S>>)
    decreases |es|
  {
    |es| == 0 ||
    (AllClean(r, env, s, es[..|es| - 1]) && CleanStep(r, env, RunTo(env, s, es[..|es| - 1]), es[|es| - 1]))
  }

  /** The buffer is aligned all the way. */
  ghost predicate AlwaysAligned<S>(r: Reading, env: Env<S>, s: State<S>, es: seq<Event<S>>) {
    forall k: nat :: k <= |es| ==> Aligned(r, RunTo(env, s, es[..k]))
  }

  lemma {:induction false} AlignedIff<S>(r: Reading, env: Env<S>, s: State<S>, es: seq<Event<S>>)
    requires Aligned(r, s) && Legal(env, s, es)
    ensures AlwaysAligned(r, env, s, es) <==> AllClean(r, env, s, es)
    decreases |es|
  {
    hide Aligned, Apply, Enabled, CleanStep;
    if |es| == 0 {
      assert forall k: nat :: k <= 0 ==> es[..k] == [];
    } else {
      var n := |es| - 1;
      AlignedIff(r, env, s, es[..n]);
      OneMore(r, env, s, es);
      if AlwaysAligned(r, env, s, es[..n]) {
        assert es[..n][..n] == es[..n];
        AlignedStep(r, env, RunTo(env, s, es[..n]), es[n]);
      }
    }
  }

  lemma OneMore<S>(r: Reading, env: Env<S>, s: State<S>, es: seq<Event<S>>)
    requires |es| > 0
    ensures AlwaysAligned(r, env, s, es) <==>
            AlwaysAligned(r, env, s, es[..|es| - 1]) && Aligned(r, RunTo(env, s, es))
  {
    hide Aligned, RunTo;
    var n := |es| - 1;
    assert es[..|es|] == es;
    forall k: nat | k <= n
      ensures es[..n][..k] == es[..k]
    {
    }
    if AlwaysAligned(r, env, s, es) {
      forall k: nat | k <= n
        ensures Aligned(r, RunTo(env, s, es[..n][..k]))
      {
        assert Aligned(r, RunTo(env, s, es[..k]));
      }
      assert Aligned(r, RunTo(env, s, es[..|es|]));
    }
    if AlwaysAligned(r, env, s, es[..n]) && Aligned(r, RunTo(env, s, es)) {
      forall k: nat | k <= |es|
        ensures Aligned(r, RunTo(env, s, es[..k]))
      {
        if k <= n {
          assert Aligned(r, RunTo(env, s, es[..n][..k]));
        }
      }
    }
  }

  lemma InitialAligned<S>(r: Reading, env: Env<S>, screen: S)
    ensures Aligned(r, Initial(env, screen))
  {
  }

  /**
   From the start: the buffer always begins at a boundary of everything that is ever read, and with
   it every frame, exactly when every step that takes bytes cuts cleanly.
   */
  lemma CutsAtBoundaries<S>(r: Reading, env: Env<S>, screen: S, es: seq<Event<S>>)
    requires Legal(env, Initial(env, screen), es)
    ensures AlwaysAligned(r, env, Initial(env, screen), es) <==> AllClean(r, env, Initial(env, screen), es)
  {
    hide AlwaysAligned, AllClean, Legal;
    InitialAligned(r, env, screen);
    AlignedIff(r, env, Initial(env, screen), es);
  }

  // ----- which steps are clean -----

  /** For the scanner's units only a step that empties the buffer can fail to be clean. */
  lemma ScannerCleanIff<S>(env: Env<S>, s: State<S>, e: Event<S>)
    requires Enabled(s, e)
    ensures CleanStep(Scanner, env, s, e) <==>
            (0 < Taken(env, s, e) == |s.buf| ==> Closed(Scanner, s.buf, 0))
  {
    hide Closed, Boundary;
    if 0 < Taken(env, s, e) < |s.buf| {
      var target := ThrottledTake(env, s, e);
      SplitIsStableBoundary(s.buf, target, []);
      assert s.buf + [] == s.buf;
    }
  }

  /** For the terminal's units a throttled step is clean, too, while the scanner is in step with the terminal. */
  lemma TerminalClean<S>(env: Env<S>, s: State<S>, e: Event<S>)
    requires Enabled(s, e) && InStep(s.buf, 0)
    ensures CleanStep(Terminal, env, s, e) <==>
            (0 < Taken(env, s, e) == |s.buf| ==> Closed(Terminal, s.buf, 0))
  {
    hide Closed, Boundary, InStep;
    if 0 < Taken(env, s, e) < |s.buf| {
      var target := ThrottledTake(env, s, e);
      ThrottledIsClean(s.buf, target);
    }
  }

  /** A step that takes only a part of the buffer takes what the scanner allows for some target. */
  lemma ThrottledTake<S>(env: Env<S>, s: State<S>, e: Event<S>) returns (target: nat)
    requires Enabled(s, e) && 0 < Taken(env, s, e) < |s.buf|
    ensures target < |s.buf| && Taken(env, s, e) == SplitPoint(s.buf, target)
  {
    hide Play, Drop, LastWithin, SafePoints;
    target := Refill(env, s.tokens, e.elapsed).Floor;
  }
}
