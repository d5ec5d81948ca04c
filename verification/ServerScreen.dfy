/**
 Screens: when the client's screen, after the frames under way and the buffer, is the server's.

 The emulator's state has parts of three kinds: what a refresh carries over; what playing a refresh
 resets, such as a sequence of which only a part has been read; and what it leaves as it is, such as
 modes.  A screen is settled when the parts of the second kind are in the state they are reset to;
 the parts of the third kind are its hidden part.
 */
module ServerScreen {
  import opened Bits
  import opened SafeSplit
  import opened Server
  import opened ServerRuns

  /** A rendered settled screen, played on a screen with the same hidden part, gives that screen. */
  ghost predicate RefreshReproduces<S(!new), H>(env: Env<S>, settled: S -> bool, hidden: S -> H) {
    forall shown: S, screen: S :: settled(screen) && hidden(shown) == hidden(screen) ==>
      Play(env, shown, env.render(screen)) == screen
  }

  /** Playing a rendering changes nothing of the hidden part. */
  ghost predicate LeavesHidden<S(!new), H>(env: Env<S>, hidden: S -> H) {
    forall shown: S, screen: S :: hidden(Play(env, shown, env.render(screen))) == hidden(shown)
  }

  /** A screen that is not settled does not come back from its rendering. */
  ghost predicate LosesUnsettled<S(!new)>(env: Env<S>, settled: S -> bool) {
    forall shown: S, screen: S :: Play(env, shown, env.render(screen)) == screen ==> settled(screen)
  }

  /** A settled screen with the same rendering and hidden part. */
  ghost predicate LooksSettled<S(!new), H>(env: Env<S>, settled: S -> bool, hidden: S -> H, screen: S) {
    exists visible: S ::
      settled(visible) && hidden(visible) == hidden(screen) && env.render(visible) == env.render(screen)
  }

  /** It is enough that every rendering is that of a settled screen. */
  lemma RendersSettled<S(!new), H>(env: Env<S>, settled: S -> bool, hidden: S -> H)
    requires RefreshReproduces(env, settled, hidden) && LeavesHidden(env, hidden)
    requires forall screen: S :: LooksSettled(env, settled, hidden, screen)
    ensures LosesUnsettled(env, settled)
  {
    hide Play;
    forall shown: S, screen: S | Play(env, shown, env.render(screen)) == screen
      ensures settled(screen)
    {
      assert LooksSettled(env, settled, hidden, screen);
      var visible: S :|
        settled(visible) && hidden(visible) == hidden(screen) && env.render(visible) == env.render(screen);
      assert hidden(Play(env, shown, env.render(screen))) == hidden(shown);
      assert Play(env, shown, env.render(visible)) == visible;
    }
  }

  /** The client's screen after the frames of the record. */
  function ClientScreen<S>(env: Env<S>, shown: S, history: seq<Item>): S
    decreases |history|
  {
    if |history| == 0 then shown
    else
      var before := ClientScreen(env, shown, history[..|history| - 1]);
      match history[|history| - 1]
      case Chunk(_, data) => Play(env, before, data)
      case Refresh(_, data) => Play(env, before, data)
      case Dropped(_) => before
  }

  function UnderWay(o: Outgoing): Bytes {
    match o
    case Nothing => []
    case Raw(data) => data
    case Atomic(data) => data
  }

  /** The client's screen once everything under way and buffered has been played. */
  function Eventually<S>(env: Env<S>, shown: S, s: State<S>): S {
    Play(env, Play(env, ClientScreen(env, shown, s.history), UnderWay(s.outgoing)), s.buf)
  }

  predicate Agree<S(==)>(env: Env<S>, shown: S, s: State<S>) {
    s.pending || Eventually(env, shown, s) == s.vt
  }

  /** No panic was caught, no screen was reset, and transmission works. */
  predicate Undisturbed<S>(e: Event<S>) {
    match e
    case Append(_, caught) => caught.None?
    case Tick(_, renderFails) => !renderFails
    case Send(ok) => ok
    case Flush(ok) => ok
    case Reset(_) => false
    case EndOfPty => true
  }

  lemma {:induction false} PlayConcat<S>(env: Env<S>, screen: S, a: Bytes, b: Bytes)
    ensures Play(env, screen, a + b) == Play(env, Play(env, screen, a), b)
    decreases |b|
  {
    if |b| == 0 {
      assert a + b == a;
    } else {
      var n := |a + b| - 1;
      assert (a + b)[..n] == a + b[..|b| - 1];
      PlayConcat(env, screen, a, b[..|b| - 1]);
    }
  }

  lemma PlayNothing<S>(env: Env<S>, screen: S)
    ensures Play(env, screen, []) == screen
  {
  }

  lemma ClientScreenOne<S>(env: Env<S>, shown: S, history: seq<Item>, i: Item)
    ensures ClientScreen(env, shown, history + [i]) ==
            if i.Dropped? then ClientScreen(env, shown, history)
            else Play(env, ClientScreen(env, shown, history), i.data)
  {
    assert (history + [i])[..|history|] == history;
  }

  lemma ClientScreenDrop<S>(env: Env<S>, shown: S, history: seq<Item>, data: Bytes)
    ensures ClientScreen(env, shown, Drop(history, data)) == ClientScreen(env, shown, history)
  {
    hide ClientScreen;
    if |data| > 0 {
      ClientScreenOne(env, shown, history, Item.Dropped(data));
    }
  }

  // ----- refreshes -----

  /** The event is a tick that takes out a refresh. */
  predicate Refreshes<S>(env: Env<S>, s: State<S>, e: Event<S>) {
    e.Tick? && (s.pending || |s.buf| > MAX_PTY_BUFFER_CAP) && Refill(env, s.tokens, e.elapsed) > 0.0
  }

  /** A refresh finds the server's screen settled, and with the hidden part of what the client shows. */
  ghost predicate Carried<S, H>(env: Env<S>, settled: S -> bool, hidden: S -> H, shown: S, s: State<S>, e: Event<S>) {
    Refreshes(env, s, e) ==>
      settled(s.vt) && hidden(ClientScreen(env, shown, s.history)) == hidden(s.vt)
  }

  /** When they agree and an overflow comes, it is the bytes it drops that decide. */
  lemma OverflowCarriedIff<S, H>(
      env: Env<S>, settled: S -> bool, hidden: S -> H, shown: S, s: State<S>, e: Event<S>)
    requires Enabled(s, e) && Refreshes(env, s, e) && !s.pending && Agree(env, shown, s)
    ensures var c := ClientScreen(env, shown, s.history);
            Carried(env, settled, hidden, shown, s, e) <==>
            settled(Play(env, c, s.buf)) && hidden(Play(env, c, s.buf)) == hidden(c)
  {
    hide Play, ClientScreen;
    PlayNothing(env, ClientScreen(env, shown, s.history));
  }

  lemma RefreshTick<S>(env: Env<S>, shown: S, s: State<S>, e: Event<S>)
    requires Enabled(s, e) && Refreshes(env, s, e) && !e.renderFails
    ensures var t := Apply(env, s, e);
            && !t.pending && t.buf == [] && t.vt == s.vt && !t.done
            && t.outgoing == Atomic(env.render(s.vt))
            && ClientScreen(env, shown, t.history) == ClientScreen(env, shown, s.history)
  {
    hide SplitPoint, Drop, ClientScreen;
    ClientScreenDrop(env, shown, s.history, s.buf);
    ClientScreenDrop(env, shown, Drop(s.history, s.buf), []);
  }

  /** A refresh brings the client to the server's screen exactly when that is settled and their hidden parts are the same. */
  lemma RefreshedIff<S(!new), H>(env: Env<S>, settled: S -> bool, hidden: S -> H, shown: S, screen: S)
    requires RefreshReproduces(env, settled, hidden)
    ensures settled(screen) && hidden(shown) == hidden(screen) ==> Play(env, shown, env.render(screen)) == screen
    ensures LeavesHidden(env, hidden) && LosesUnsettled(env, settled) ==>
            (Play(env, shown, env.render(screen)) == screen <==> settled(screen) && hidden(shown) == hidden(screen))
  {
    hide Play;
    if LeavesHidden(env, hidden) {
      assert hidden(Play(env, shown, env.render(screen))) == hidden(shown);
    }
  }

  /**
   After any run whatever, with resets, panics and failures, a tick that refreshes and the sending
   bring the client to the server's screen exactly when that is settled and has the hidden part of
   what the client shows.
   */
  lemma RefreshRestores<S(!new), H>(
      env: Env<S>, settled: S -> bool, hidden: S -> H, screen: S, es: seq<Event<S>>, e: Event<S>, shown: S)
    requires RefreshReproduces(env, settled, hidden) && LeavesHidden(env, hidden) && LosesUnsettled(env, settled)
    requires Legal(env, Initial(env, screen), es + [e])
    requires Refreshes(env, RunTo(env, Initial(env, screen), es), e) && !e.renderFails
    ensures Legal(env, Initial(env, screen), es + [e, Send(true)])
    ensures var before := ClientScreen(env, shown, RunTo(env, Initial(env, screen), es).history);
            var t := RunTo(env, Initial(env, screen), es + [e, Send(true)]);
            && !t.pending && t.buf == [] && t.outgoing.Nothing?
            && (ClientScreen(env, shown, t.history) == t.vt <==> settled(t.vt) && hidden(before) == hidden(t.vt))
  {
    hide RefreshReproduces, LeavesHidden, LosesUnsettled, Play, ClientScreen, SplitPoint, Drop, TakeOut, Refreshes;
    var init := Initial(env, screen);
    var s := RunTo(env, init, es);
    var s1 := Apply(env, s, e);
    var all := es + [e, Send(true)];
    assert (es + [e])[..|es|] == es && all[..|es| + 1] == es + [e];
    RefreshTick(env, shown, s, e);
    assert RunTo(env, init, es + [e]) == s1;
    ClientScreenOne(env, shown, s1.history, Refresh(s1.number + 1, env.render(s.vt)));
    RefreshedIff(env, settled, hidden, ClientScreen(env, shown, s1.history), s.vt);
  }

  // ----- agreement -----

  lemma RefreshAgrees<S(!new), H>(
      env: Env<S>, settled: S -> bool, hidden: S -> H, shown: S, s: State<S>, e: Event<S>)
    requires RefreshReproduces(env, settled, hidden) && Enabled(s, e) && Refreshes(env, s, e) && !e.renderFails
    ensures Carried(env, settled, hidden, shown, s, e) ==> Agree(env, shown, Apply(env, s, e))
    ensures LeavesHidden(env, hidden) && LosesUnsettled(env, settled) ==>
            (Agree(env, shown, Apply(env, s, e)) <==> Carried(env, settled, hidden, shown, s, e))
  {
    hide RefreshReproduces, LeavesHidden, LosesUnsettled, Play, ClientScreen, Apply, Refreshes;
    var t := Apply(env, s, e);
    RefreshTick(env, shown, s, e);
    RefreshedIff(env, settled, hidden, ClientScreen(env, shown, t.history), s.vt);
    PlayNothing(env, Play(env, ClientScreen(env, shown, t.history), env.render(s.vt)));
  }

  /** A tick that takes out a chunk, or nothing. */
  lemma ChunkAgrees<S>(env: Env<S>, shown: S, s: State<S>, e: Event<S>)
    requires Enabled(s, e) && e.Tick? && !Refreshes(env, s, e) && Agree(env, shown, s)
    ensures Agree(env, shown, Apply(env, s, e))
  {
    hide Play, ClientScreen, Drop, SplitPoint;
    var t, c := Apply(env, s, e), ClientScreen(env, shown, s.history);
    PlayNothing(env, c);
    if t.outgoing.Raw? {
      PlayConcat(env, c, t.outgoing.data, t.buf);
      assert t.outgoing.data + t.buf == s.buf;
    }
  }

  lemma AgreeStep<S(!new), H>(
      env: Env<S>, settled: S -> bool, hidden: S -> H, shown: S, s: State<S>, e: Event<S>)
    requires RefreshReproduces(env, settled, hidden) && Enabled(s, e) && Undisturbed(e) && Agree(env, shown, s)
    ensures Carried(env, settled, hidden, shown, s, e) ==> Agree(env, shown, Apply(env, s, e))
    ensures LeavesHidden(env, hidden) && LosesUnsettled(env, settled) ==>
            (Agree(env, shown, Apply(env, s, e)) <==> Carried(env, settled, hidden, shown, s, e))
  {
    hide RefreshReproduces, LeavesHidden, LosesUnsettled, Agree, Apply;
    if e.Tick? {
      if Refreshes(env, s, e) {
        RefreshAgrees(env, settled, hidden, shown, s, e);
      } else {
        ChunkAgrees(env, shown, s, e);
      }
    } else {
      OtherAgrees(env, shown, s, e);
    }
  }

  lemma OtherAgrees<S>(env: Env<S>, shown: S, s: State<S>, e: Event<S>)
    requires Enabled(s, e) && Undisturbed(e) && !e.Tick? && Agree(env, shown, s)
    ensures Agree(env, shown, Apply(env, s, e))
  {
    hide Play, ClientScreen, Drop, SplitPoint, TakeOut;
    var c := ClientScreen(env, shown, s.history);
    match e
    case Append(chunk, _) =>
      PlayConcat(env, Play(env, c, UnderWay(s.outgoing)), s.buf, chunk);
    case EndOfPty =>
    case Send(_) =>
      var n, d := s.number + 1, s.outgoing.data;
      ClientScreenOne(env, shown, s.history, if s.outgoing.Raw? then Chunk(n, d) else Refresh(n, d));
      PlayNothing(env, Play(env, c, d));
    case Flush(_) =>
      ClientScreenOne(env, shown, s.history, Chunk(s.number + 1, s.buf));
      PlayNothing(env, c);
      PlayNothing(env, Play(env, c, s.buf));
  }

  predicate AllUndisturbed<S>(es: seq<Event<S>>) {
    forall i :: 0 <= i < |es| ==> Undisturbed(es[i])
  }

  ghost predicate AllCarried<S, H>(
      env: Env<S>, settled: S -> bool, hidden: S -> H, shown: S, s: State<S>, es: seq<Event<S>>)
    decreases |es|
  {
    |es| == 0 ||
    (AllCarried(env, settled, hidden, shown, s, es[..|es| - 1]) &&
     Carried(env, settled, hidden, shown, RunTo(env, s, es[..|es| - 1]), es[|es| - 1]))
  }

  /** Client and server agree all the way. */
  predicate AlwaysAgree<S(==)>(env: Env<S>, shown: S, s: State<S>, es: seq<Event<S>>)
    decreases |es|
  {
    Agree(env, shown, RunTo(env, s, es)) && (|es| == 0 || AlwaysAgree(env, shown, s, es[..|es| - 1]))
  }

  lemma {:induction false} AgreementIff<S(!new), H>(
      env: Env<S>, settled: S -> bool, hidden: S -> H, shown: S, s: State<S>, es: seq<Event<S>>)
    requires RefreshReproduces(env, settled, hidden) && Agree(env, shown, s)
    requires Legal(env, s, es) && AllUndisturbed(es)
    ensures AllCarried(env, settled, hidden, shown, s, es) ==> AlwaysAgree(env, shown, s, es)
    ensures LeavesHidden(env, hidden) && LosesUnsettled(env, settled) ==>
            (AlwaysAgree(env, shown, s, es) <==> AllCarried(env, settled, hidden, shown, s, es))
    decreases |es|
  {
    hide RefreshReproduces, LeavesHidden, LosesUnsettled, Agree, Apply, Enabled, Undisturbed, Carried;
    if |es| > 0 {
      var n := |es| - 1;
      AgreementIff(env, settled, hidden, shown, s, es[..n]);
      LastAgrees(env, shown, s, es[..n]);
      if Agree(env, shown, RunTo(env, s, es[..n])) {
        AgreeStep(env, settled, hidden, shown, RunTo(env, s, es[..n]), es[n]);
      }
    }
  }

  lemma LastAgrees<S>(env: Env<S>, shown: S, s: State<S>, es: seq<Event<S>>)
    ensures AlwaysAgree(env, shown, s, es) ==> Agree(env, shown, RunTo(env, s, es))
  {
  }

  /** Client and server start with the same screen. */
  lemma InitialAgrees<S>(env: Env<S>, screen: S)
    ensures Agree(env, screen, Initial(env, screen))
  {
    PlayNothing(env, screen);
  }

  lemma {:induction false} FirstAgrees<S>(env: Env<S>, shown: S, s: State<S>, es: seq<Event<S>>)
    requires AlwaysAgree(env, shown, s, es)
    ensures Agree(env, shown, s)
    decreases |es|
  {
    if |es| > 0 {
      FirstAgrees(env, shown, s, es[..|es| - 1]);
    }
  }

  /**
   In an undisturbed run from the start client and server agree all the way, unless a refresh is
   pending, exactly when every refresh is carried over.
   */
  lemma ScreenAgreement<S(!new), H>(env: Env<S>, settled: S -> bool, hidden: S -> H, screen: S, es: seq<Event<S>>)
    requires RefreshReproduces(env, settled, hidden) && LeavesHidden(env, hidden) && LosesUnsettled(env, settled)
    requires Legal(env, Initial(env, screen), es) && AllUndisturbed(es)
    ensures AlwaysAgree(env, screen, Initial(env, screen), es) <==>
            AllCarried(env, settled, hidden, screen, Initial(env, screen), es)
  {
    hide RefreshReproduces, LeavesHidden, LosesUnsettled, Agree, AlwaysAgree, AllCarried, AllUndisturbed, Legal;
    InitialAgrees(env, screen);
    AgreementIff(env, settled, hidden, screen, Initial(env, screen), es);
  }

  /**
   In a disturbed run, whatever has happened and whatever the client showed at first: from a refresh
   on, and as long as no new disturbance comes, they agree all the way exactly when that refresh and
   all later ones are carried over.
   */
  lemma AgreementAfterRefresh<S(!new), H>(
      env: Env<S>, settled: S -> bool, hidden: S -> H, shown: S, screen: S,
      es: seq<Event<S>>, e: Event<S>, later: seq<Event<S>>)
    requires RefreshReproduces(env, settled, hidden) && LeavesHidden(env, hidden) && LosesUnsettled(env, settled)
    requires Legal(env, Initial(env, screen), es + [e])
    requires Refreshes(env, RunTo(env, Initial(env, screen), es), e) && !e.renderFails
    requires Legal(env, RunTo(env, Initial(env, screen), es + [e]), later) && AllUndisturbed(later)
    ensures var s := RunTo(env, Initial(env, screen), es);
            var t := RunTo(env, Initial(env, screen), es + [e]);
            AlwaysAgree(env, shown, t, later) <==>
            Carried(env, settled, hidden, shown, s, e) && AllCarried(env, settled, hidden, shown, t, later)
  {
    hide RefreshReproduces, LeavesHidden, LosesUnsettled, Agree, AlwaysAgree, AllCarried, Carried, AllUndisturbed, Apply, Refreshes;
    var s := RunTo(env, Initial(env, screen), es);
    assert (es + [e])[..|es|] == es;
    var t := Apply(env, s, e);
    RefreshAgrees(env, settled, hidden, shown, s, e);
    if Agree(env, shown, t) {
      AgreementIff(env, settled, hidden, shown, t, later);
    } else if AlwaysAgree(env, shown, t, later) {
      FirstAgrees(env, shown, t, later);
    }
  }

  // ----- the end of a session -----

  /** A sender that has stopped in good order has nothing left. */
  predicate Finished<S>(s: State<S>) {
    s.done ==> s.closed && s.buf == [] && s.outgoing.Nothing?
  }

  lemma FinishedStep<S>(env: Env<S>, s: State<S>, e: Event<S>)
    requires Finished(s) && Enabled(s, e) && Undisturbed(e)
    ensures Finished(Apply(env, s, e))
  {
    hide SplitPoint, Drop, Play;
  }

  lemma {:induction false} FinishedRun<S>(env: Env<S>, screen: S, es: seq<Event<S>>)
    requires Legal(env, Initial(env, screen), es) && AllUndisturbed(es)
    ensures Finished(RunTo(env, Initial(env, screen), es))
    decreases |es|
  {
    hide Apply, Enabled, Undisturbed;
    if |es| > 0 {
      hide Finished;
      var n := |es| - 1;
      FinishedRun(env, screen, es[..n]);
      FinishedStep(env, RunTo(env, Initial(env, screen), es[..n]), es[n]);
    }
  }

  /** When the sender is done and no refresh is pending, the client shows the server's screen. */
  lemma ScreenAtEnd<S(!new), H>(env: Env<S>, settled: S -> bool, hidden: S -> H, screen: S, es: seq<Event<S>>)
    requires RefreshReproduces(env, settled, hidden)
    requires Legal(env, Initial(env, screen), es) && AllUndisturbed(es)
    requires AllCarried(env, settled, hidden, screen, Initial(env, screen), es)
    ensures var t := RunTo(env, Initial(env, screen), es);
            t.done && !t.pending ==> ClientScreen(env, screen, t.history) == t.vt
  {
    hide RefreshReproduces, AllCarried, AllUndisturbed, Legal, RunTo, ClientScreen, Play;
    var t := RunTo(env, Initial(env, screen), es);
    InitialAgrees(env, screen);
    AgreementIff(env, settled, hidden, screen, Initial(env, screen), es);
    LastAgrees(env, screen, Initial(env, screen), es);
    FinishedRun(env, screen, es);
    PlayNothing(env, ClientScreen(env, screen, t.history));
  }

  lemma {:induction false} DoneIsFinal<S>(env: Env<S>, s: State<S>, es: seq<Event<S>>)
    requires s.done && Legal(env, s, es)
    ensures var t := RunTo(env, s, es); t.done && t.pending == s.pending && t.history == s.history
    decreases |es|
  {
    hide SplitPoint, Drop, Play, TakeOut;
    if |es| > 0 {
      DoneIsFinal(env, s, es[..|es| - 1]);
    }
  }

  /** A refresh that is pending when the PTY has closed is never sent: the flush ends the session without it. */
  lemma ClosingForgetsRefresh<S>(env: Env<S>, s: State<S>, ok: bool, es: seq<Event<S>>)
    requires s.pending && Enabled(s, Flush(ok)) && Legal(env, Apply(env, s, Flush(ok)), es)
    ensures var t := RunTo(env, Apply(env, s, Flush(ok)), es);
            && t.done && t.pending && s.history <= t.history
            && forall i :: |s.history| <= i < |t.history| ==> !t.history[i].Refresh?
  {
    hide RunTo, Legal;
    DoneIsFinal(env, Apply(env, s, Flush(ok)), es);
  }
}
