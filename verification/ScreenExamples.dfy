/** A small emulator that meets the hypotheses on refreshes, and runs in which a refresh does not help. */
module ScreenExamples {
  import opened Bits
  import opened SafeSplit
  import opened Server
  import opened ServerRuns
  import opened ServerScreen
  import AnsiFilter

  const SHIFT_OUT: byte := 0x0e
  const SHIFT_IN: byte := 0x0f

  type Glyph = b: byte | b != AnsiFilter.ESC && b != SHIFT_OUT && b != SHIFT_IN

  /** It shows the last character, drawn from one of two character sets, and has perhaps read an ESC. */
  datatype Term = Term(last: Glyph, esc: bool, alternate: bool)

  /** The alternate character set has the letters a and A exchanged. */
  function Draw(alternate: bool, g: Glyph): Glyph {
    if alternate && g == 0x61 then 0x41 else if alternate && g == 0x41 then 0x61 else g
  }

  /** ESC and the byte behind it are a sequence; two control characters select the character set. */
  function Step(t: Term, b: byte): Term {
    if t.esc then t.(esc := false)
    else if b == AnsiFilter.ESC then t.(esc := true)
    else if b == SHIFT_OUT then t.(alternate := true)
    else if b == SHIFT_IN then t.(alternate := false)
    else t.(last := Draw(t.alternate, b))
  }

  /** A space, to end what has been begun, and the character shown. */
  function Show(t: Term): Bytes {
    [0x20, Draw(t.alternate, t.last)]
  }

  predicate NoPartRead(t: Term) {
    !t.esc
  }

  function CharacterSet(t: Term): bool {
    t.alternate
  }

  function SmallTerminal(gzip: Bytes -> Option<Bytes>, rate: Amount): Env<Term> {
    Env(Step, Show, gzip, rate)
  }

  lemma PlayOne<S>(env: Env<S>, screen: S, b: byte)
    ensures Play(env, screen, [b]) == env.step(screen, b)
  {
    assert [b][..0] == [];
  }

  lemma PlayShow(env: Env<Term>, shown: Term, t: Term)
    requires env.step == Step
    ensures Play(env, shown, Show(t)) == Term(Draw(shown.alternate, Draw(t.alternate, t.last)), false, shown.alternate)
  {
    hide Play;
    var g := Draw(t.alternate, t.last);
    PlayConcat(env, shown, [0x20], [g]);
    PlayOne(env, shown, 0x20);
    PlayOne(env, Step(shown, 0x20), g);
    assert [0x20 as byte] + [g] == Show(t);
  }

  lemma Reproduces(env: Env<Term>)
    requires env.step == Step && env.render == Show
    ensures RefreshReproduces(env, NoPartRead, CharacterSet)
  {
    hide Play, Show;
    forall shown: Term, screen: Term | NoPartRead(screen) && CharacterSet(shown) == CharacterSet(screen)
      ensures Play(env, shown, env.render(screen)) == screen
    {
      PlayShow(env, shown, screen);
    }
  }

  lemma Leaves(env: Env<Term>)
    requires env.step == Step && env.render == Show
    ensures LeavesHidden(env, CharacterSet) && LosesUnsettled(env, NoPartRead)
  {
    hide Play, Show;
    forall shown: Term, screen: Term
      ensures CharacterSet(Play(env, shown, env.render(screen))) == CharacterSet(shown)
      ensures NoPartRead(Play(env, shown, env.render(screen)))
    {
      PlayShow(env, shown, screen);
    }
  }

  /** The hypotheses can be met. */
  lemma SmallTerminalFits(gzip: Bytes -> Option<Bytes>, rate: Amount)
    ensures RefreshReproduces(SmallTerminal(gzip, rate), NoPartRead, CharacterSet)
    ensures LeavesHidden(SmallTerminal(gzip, rate), CharacterSet)
    ensures LosesUnsettled(SmallTerminal(gzip, rate), NoPartRead)
  {
    hide RefreshReproduces, LeavesHidden, LosesUnsettled;
    Reproduces(SmallTerminal(gzip, rate));
    Leaves(SmallTerminal(gzip, rate));
  }

  // ----- runs of letters -----

  function Letters(n: nat, g: Glyph): Bytes {
    seq(n, (i: int) => g)
  }

  lemma {:induction false} PlayLetters(env: Env<Term>, t: Term, n: nat, g: Glyph)
    requires env.step == Step && !t.esc && !t.alternate
    ensures Play(env, t, Letters(n, g)) == if n == 0 then t else Term(g, false, false)
    decreases n
  {
    if n > 0 {
      PlayLetters(env, t, n - 1, g);
      assert Letters(n, g)[..n - 1] == Letters(n - 1, g);
    }
  }

  function Reads(n: nat, g: Glyph): seq<Event<Term>> {
    seq(n, (i: int) => Append(Letters(4096, g), None))
  }

  function Start(): Term {
    Term(0x61, false, false)
  }

  /** Full reads after a run that has ended with nothing buffered. */
  lemma {:induction false} FullReads(env: Env<Term>, before: seq<Event<Term>>, n: nat, g: Glyph) returns (t: State<Term>)
    requires env.step == Step && Legal(env, Initial(env, Start()), before)
    requires var s := RunTo(env, Initial(env, Start()), before);
             s.buf == [] && s.outgoing.Nothing? && !s.closed && !s.vt.esc && !s.vt.alternate
    ensures var s := RunTo(env, Initial(env, Start()), before);
            && t == RunTo(env, Initial(env, Start()), before + Reads(n, g))
            && Legal(env, Initial(env, Start()), before + Reads(n, g))
            && |t.buf| == 4096 * n
            && t == s.(buf := t.buf, read := t.read, vt := if n == 0 then s.vt else Term(g, false, false))
    decreases n
  {
    hide Play, Letters, RunTo, Legal, Reads;
    var init := Initial(env, Start());
    if n == 0 {
      NoReads(before, g);
      t := RunTo(env, init, before);
    } else {
      var e := Append(Letters(4096, g), None);
      var s := FullReads(env, before, n - 1, g);
      PlayLetters(env, s.vt, 4096, g);
      LettersLength(4096, g);
      OneMoreRead(before, n, g);
      RunOne(env, init, before + Reads(n - 1, g), e);
      t := Apply(env, s, e);
    }
  }

  lemma NoReads(before: seq<Event<Term>>, g: Glyph)
    ensures before + Reads(0, g) == before
  {
  }

  lemma OneMoreRead(before: seq<Event<Term>>, n: nat, g: Glyph)
    requires n > 0
    ensures before + Reads(n, g) == before + Reads(n - 1, g) + [Append(Letters(4096, g), None)]
  {
    assert Reads(n, g) == Reads(n - 1, g) + [Append(Letters(4096, g), None)];
  }

  lemma LettersLength(n: nat, g: Glyph)
    ensures |Letters(n, g)| == n
  {
  }

  // ----- a refresh in the middle of something -----

  /** Four full reads and one byte overflow the buffer; the refresh is sent; then one more byte is read. */
  function RefreshRun(x: byte, y: byte): seq<Event<Term>> {
    [] + Reads(4, 0x61) + [Append([x], None)] + [Tick(0.0, false)] + [Send(true)] + [Append([y], None)]
  }

  /** Where server and client are after that run. */
  lemma RefreshRunEnds(gzip: Bytes -> Option<Bytes>, rate: Amount, x: byte, y: byte)
    ensures var env := SmallTerminal(gzip, rate);
            var t := RunTo(env, Initial(env, Start()), RefreshRun(x, y));
            var rendered := Step(Start(), x);
            && Legal(env, Initial(env, Start()), RefreshRun(x, y)) && !t.pending
            && t.vt == Step(rendered, y)
            && Eventually(env, Start(), t) == Step(Term(Draw(rendered.alternate, rendered.last), false, false), y)
  {
    hide Play, SplitPoint, RunTo, Legal, Reads, Drop, ClientScreen, Show;
    var env := SmallTerminal(gzip, rate);
    var init := Initial(env, Start());
    NothingRun(env, init);
    var s4 := FullReads(env, [], 4, 0x61);
    var a := [] + Reads(4, 0x61);
    var e5, e6, e7, e8 := Append([x], None), Tick(0.0, false), Send(true), Append([y], None);
    var s5 := Apply(env, s4, e5);
    RunOne(env, init, a, e5);
    PlayOne(env, Start(), x);
    var s6 := Apply(env, s5, e6);
    RunOne(env, init, a + [e5], e6);
    var s7 := Apply(env, s6, e7);
    RunOne(env, init, a + [e5] + [e6], e7);
    var s8 := Apply(env, s7, e8);
    RunOne(env, init, a + [e5] + [e6] + [e7], e8);
    NothingShown(env, Start());
    RefreshTick(env, Start(), s5, e6);
    RefreshSent(env, s6, Step(Start(), x));
    PlayOne(env, s7.vt, y);
    NextByte(env, s7, y);
  }

  lemma NothingRun<S>(env: Env<S>, s: State<S>)
    ensures RunTo(env, s, []) == s && Legal(env, s, [])
  {
  }

  lemma NothingShown<S>(env: Env<S>, shown: S)
    ensures ClientScreen(env, shown, []) == shown
  {
  }

  lemma RefreshSent(env: Env<Term>, s: State<Term>, screen: Term)
    requires env.step == Step && s.outgoing == Atomic(Show(screen))
    requires ClientScreen(env, Start(), s.history) == Start()
    ensures var t := Apply(env, s, Send(true));
            ClientScreen(env, Start(), t.history) == Term(Draw(screen.alternate, screen.last), false, false)
  {
    hide Play, ClientScreen, Show;
    ClientScreenOne(env, Start(), s.history, Refresh(s.number + 1, Show(screen)));
    PlayShow(env, Start(), screen);
  }

  lemma NextByte(env: Env<Term>, s: State<Term>, y: byte)
    requires env.step == Step && s.outgoing.Nothing? && s.buf == []
    ensures Eventually(env, Start(), Apply(env, s, Append([y], None))) ==
            Step(ClientScreen(env, Start(), s.history), y)
  {
    hide Play, ClientScreen;
    var c := ClientScreen(env, Start(), s.history);
    PlayNothing(env, c);
    PlayOne(env, c, y);
    assert [] + [y] == [y];
  }

  lemma RefreshRunUndisturbed(x: byte, y: byte)
    ensures AllUndisturbed(RefreshRun(x, y))
  {
  }

  /** The client prints the byte behind the ESC: the screens differ, nothing is pending. */
  lemma RefreshCutsSequence(gzip: Bytes -> Option<Bytes>, rate: Amount)
    ensures var env, es := SmallTerminal(gzip, rate), RefreshRun(AnsiFilter.ESC, 0x58);
            var t := RunTo(env, Initial(env, Start()), es);
            && Legal(env, Initial(env, Start()), es) && AllUndisturbed(es) && !t.pending
            && t.vt == Term(0x61, false, false) && Eventually(env, Start(), t) == Term(0x58, false, false)
  {
    hide RunTo, Legal, Eventually, AllUndisturbed, RefreshRun;
    RefreshRunEnds(gzip, rate, AnsiFilter.ESC, 0x58);
    RefreshRunUndisturbed(AnsiFilter.ESC, 0x58);
  }

  /** The change of the character set was dropped: the letter that is read next looks different on both sides. */
  lemma RefreshMissesMode(gzip: Bytes -> Option<Bytes>, rate: Amount)
    ensures var env, es := SmallTerminal(gzip, rate), RefreshRun(SHIFT_OUT, 0x61);
            var t := RunTo(env, Initial(env, Start()), es);
            && Legal(env, Initial(env, Start()), es) && AllUndisturbed(es) && !t.pending
            && t.vt == Term(0x41, false, true) && Eventually(env, Start(), t) == Term(0x61, false, false)
  {
    hide RunTo, Legal, Eventually, AllUndisturbed, RefreshRun;
    RefreshRunEnds(gzip, rate, SHIFT_OUT, 0x61);
    RefreshRunUndisturbed(SHIFT_OUT, 0x61);
  }

  // ----- a refresh that is never sent -----

  /** One chunk that uses up all tokens; then an overflow, found by a tick that may not send; then the PTY closes. */
  function ForgottenRun(): seq<Event<Term>> {
    [Append(Letters(2048, 0x61), None)] + [Tick(0.0, false)] + [Send(true)]
    + Reads(5, 0x62) + [Tick(0.0, false)] + [EndOfPty] + [Flush(true)]
  }

  lemma AllTokensSpent(rate: Amount) returns (s: State<Term>)
    requires rate <= 4096.0
    ensures var env, es := SmallTerminal(NoGzip, rate),
                           [Append(Letters(2048, 0x61), None)] + [Tick(0.0, false)] + [Send(true)];
            && s == RunTo(env, Initial(env, Start()), es) && Legal(env, Initial(env, Start()), es)
            && s.tokens == 0.0 && s.buf == [] && s.outgoing.Nothing? && !s.closed && !s.done && !s.pending
            && s.vt == Start() && ClientScreen(env, Start(), s.history) == Start()
  {
    hide Play, RunTo, Legal, Letters, ClientScreen;
    var env := SmallTerminal(NoGzip, rate);
    var init := Initial(env, Start());
    var a: Event<Term> := Append(Letters(2048, 0x61), None);
    var b: Event<Term> := Tick(0.0, false);
    LettersLength(2048, 0x61);
    PlayLetters(env, Start(), 2048, 0x61);
    NothingRun(env, init);
    RunOne(env, init, [], a);
    RunOne(env, init, [a], b);
    RunOne(env, init, [a] + [b], Send(true));
    assert [] + [a] == [a];
    var s1 := Apply(env, init, a);
    assert s1.buf == Letters(2048, 0x61);
    var s2 := Apply(env, s1, b);
    assert rate * 0.0 == 0.0;
    assert s1.buf[..2048] == s1.buf && s1.buf[2048..] == [];
    s := Apply(env, s2, Send(true));
    ClientScreenOne(env, Start(), [], Chunk(1, Letters(2048, 0x61)));
    NothingShown(env, Start());
    assert [] + [Chunk(1, Letters(2048, 0x61))] == [Chunk(1, Letters(2048, 0x61))];
  }

  /** At rates up to 4096 this undisturbed run ends with the client showing a letter that the server's screen has long lost. */
  lemma RefreshForgotten(rate: Amount)
    requires rate <= 4096.0
    ensures var env, es := SmallTerminal(NoGzip, rate), ForgottenRun();
            var t := RunTo(env, Initial(env, Start()), es);
            && Legal(env, Initial(env, Start()), es) && AllUndisturbed(es) && t.done && t.pending
            && t.vt == Term(0x62, false, false) && ClientScreen(env, Start(), t.history) == Term(0x61, false, false)
  {
    hide Play, RunTo, Legal, Letters, Reads, ClientScreen, SplitPoint, AllUndisturbed, Drop;
    var env := SmallTerminal(NoGzip, rate);
    var init := Initial(env, Start());
    var first: seq<Event<Term>> := [Append(Letters(2048, 0x61), None)] + [Tick(0.0, false)] + [Send(true)];
    var s3 := AllTokensSpent(rate);
    var s8 := FullReads(env, first, 5, 0x62);
    var es := first + Reads(5, 0x62);
    var s9 := Apply(env, s8, Tick(0.0, false));
    RunOne(env, init, es, Tick(0.0, false));
    assert rate * 0.0 == 0.0;
    assert s9.pending && s9.buf == [] && s9.history == Drop(s3.history, s8.buf);
    ClientScreenDrop(env, Start(), s3.history, s8.buf);
    RunOne(env, init, es + [Tick(0.0, false)], EndOfPty);
    RunOne(env, init, es + [Tick(0.0, false)] + [EndOfPty], Flush(true));
    ForgottenUndisturbed();
  }

  lemma ForgottenUndisturbed()
    ensures AllUndisturbed(ForgottenRun())
  {
  }
}
