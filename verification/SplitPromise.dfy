/**
 What the split promises.  For the scanner's own units it is kept by every split below the length
 of the buffer; for the units of a terminal exactly when the scanner stays in step with the terminal.
 */
module SplitPromise {
  import opened Bits
  import opened AnsiFilter
  import opened SafeSplit
  import opened Units

  // ----- what the scanner records -----

  lemma SkipOne(s: Bytes, i: nat)
    requires i < |s| && Continuation(s[i])
    ensures SafePoints(s, i) == SafePoints(s, i + 1)
  {
    hide EscapeEnd;
    assert [] + SafePoints(s, i + 1) == SafePoints(s, i + 1);
  }

  /** Continuation bytes are passed without recording. */
  lemma {:induction false} SkipContinuation(s: Bytes, i: nat, n: nat)
    requires i <= |s|
    ensures SafePoints(s, i) == SafePoints(s, match CharEnd(s, i, n) case Open => |s| case At(e) => e)
    decreases n
  {
    hide SafePoints, Continuation;
    if n > 0 && i < |s| && Continuation(s[i]) {
      SkipOne(s, i);
      SkipContinuation(s, i + 1, n - 1);
    }
  }

  /** A boundary from which an escape leads to `p`. */
  predicate EscapeTo(s: Bytes, i: nat, j: nat, p: nat)
    requires i <= |s|
  {
    BoundaryFrom(Scanner, s, i, j) && j < |s| && s[j] == ESC && EscapeEnd(s, j) == p
  }

  /** A point worth recording: the end, a boundary in front of a character, or the end of an escape. */
  ghost predicate Recordable(s: Bytes, i: nat, p: nat)
    requires i <= |s|
  {
    || p == |s|
    || (p < |s| && BoundaryFrom(Scanner, s, i, p) && s[p] != ESC && !Continuation(s[p]))
    || exists j: nat :: EscapeTo(s, i, j, p)
  }

  /** One unit further: what is recordable from `i` is the start of the unit, its end, or recordable from there. */
  lemma RecordableStep(s: Bytes, i: nat, p: nat)
    requires i < |s|
    ensures Recordable(s, i, p) <==>
            || (p == i && s[i] != ESC && !Continuation(s[i]))
            || (s[i] == ESC && p == EscapeEnd(s, i))
            || Recordable(s, UnitEnd(Scanner, s, i), p)
  {
    hide EscapeSeen, CharEnd;
    var e := UnitEnd(Scanner, s, i);
    forall j: nat
      ensures EscapeTo(s, i, j, p) <==> (j == i && s[i] == ESC && e == p) || EscapeTo(s, e, j, p)
    {
      StepBoundary(Scanner, s, i, j);
    }
    StepBoundary(Scanner, s, i, p);
    if s[i] == ESC && p == e {
      assert EscapeTo(s, i, i, p);
    }
  }

  /** What is recorded between the start of a unit and its end. */
  lemma PointsStep(s: Bytes, i: nat)
    requires i < |s|
    ensures SafePoints(s, i) ==
            (if s[i] == ESC then [EscapeEnd(s, i)] else if Continuation(s[i]) then [] else [i])
            + SafePoints(s, UnitEnd(Scanner, s, i))
  {
    hide EscapeSeen, CharEnd, Continuation, Trail;
    if s[i] != ESC {
      SkipContinuation(s, i + 1, Trail(s[i]));
    }
  }

  /** The scanner records exactly the recordable points. */
  lemma {:induction false} SafePointIff(s: Bytes, i: nat, p: nat)
    requires i <= |s|
    ensures p in SafePoints(s, i) <==> Recordable(s, i, p)
    decreases |s| - i
  {
    if i == |s| {
      OnlyTheEnd(s, p);
    } else {
      hide SafePoints, Recordable, UnitEnd, EscapeEnd, Continuation;
      SafePointIff(s, UnitEnd(Scanner, s, i), p);
      RecordableStep(s, i, p);
      PointsStep(s, i);
    }
  }

  lemma OnlyTheEnd(s: Bytes, p: nat)
    ensures p in SafePoints(s, |s|) <==> Recordable(s, |s|, p)
  {
  }

  /** A throttled split is the greatest recordable point within the target, or 0 when there is none. */
  lemma SplitIsGreatest(buf: Bytes, target: nat)
    requires target < |buf|
    ensures var r := SplitPoint(buf, target);
            && r <= target && (r == 0 || Recordable(buf, 0, r))
            && forall p: nat :: Recordable(buf, 0, p) && p <= target ==> p <= r
  {
    hide Recordable, LastWithin;
    if target > 0 {
      var points := SafePoints(buf, 0);
      var all := [0] + points;
      PointsAscend(buf, 0);
      LastIsGreatest(all, target, 0);
      forall p: nat
        ensures Recordable(buf, 0, p) ==> p in all
        ensures p in all ==> p == 0 || Recordable(buf, 0, p)
      {
        SafePointIff(buf, 0, p);
      }
    }
  }

  // ----- the scanner's units -----

  lemma RecordableIsBoundary(s: Bytes, i: nat, p: nat)
    requires i <= |s| && p < |s| && Recordable(s, i, p)
    ensures BoundaryFrom(Scanner, s, i, p)
  {
    hide EscapeSeen, CharEnd;
    if exists j: nat :: EscapeTo(s, i, j, p) {
      var j: nat :| EscapeTo(s, i, j, p);
      BoundaryExtends(Scanner, s, i, j);
    }
  }

  /** A throttled split cuts at a boundary of the buffer and of everything the buffer may become. */
  lemma SplitIsStableBoundary(buf: Bytes, target: nat, more: Bytes)
    requires target < |buf|
    ensures SplitPoint(buf, target) <= target && Boundary(Scanner, buf + more, SplitPoint(buf, target))
  {
    hide Recordable, SplitPoint;
    SplitIsGreatest(buf, target);
    var r := SplitPoint(buf, target);
    if r > 0 {
      RecordableIsBoundary(buf, 0, r);
      BoundaryStable(Scanner, buf, more, 0, r);
    }
  }

  /**
   A split never cuts a unit of the scanner, whatever follows, exactly when it is a throttled one or
   the buffer ends with a complete unit: a buffer sent as a whole is not examined.
   */
  lemma SplitNeverCutsIff(buf: Bytes, target: nat)
    ensures (forall more: Bytes :: Boundary(Scanner, buf + more, SplitPoint(buf, target))) <==>
            target < |buf| || Closed(Scanner, buf, 0)
  {
    hide SplitPoint, Closed, BoundaryFrom;
    if target < |buf| {
      forall more: Bytes
        ensures Boundary(Scanner, buf + more, SplitPoint(buf, target))
      {
        SplitIsStableBoundary(buf, target, more);
      }
    } else {
      WholeBuffer(buf, target);
      CleanIff(Scanner, buf, |buf|);
    }
  }

  lemma WholeBuffer(buf: Bytes, target: nat)
    requires |buf| <= target
    ensures SplitPoint(buf, target) == |buf|
  {
  }

  /** A throttled split separates a character from a continuation byte only at the end of an escape. */
  lemma SplitKeepsCharacters(buf: Bytes, target: nat)
    requires target < |buf| && 0 < SplitPoint(buf, target)
    ensures Continuation(buf[SplitPoint(buf, target)]) ==> exists j: nat :: EscapeTo(buf, 0, j, SplitPoint(buf, target))
  {
    hide SplitPoint, EscapeTo, BoundaryFrom;
    SplitIsGreatest(buf, target);
  }

  // ----- the terminal's units -----

  /** Wherever the scanner ends an escape inside the buffer, a unit of the terminal ends too. */
  predicate InStep(s: Bytes, i: nat)
    requires i <= |s|
    decreases |s| - i
  {
    if i == |s| then true
    else if s[i] != ESC then InStep(s, UnitEnd(Terminal, s, i))
    else
      var e := EscapeEnd(s, i);
      e == |s| || (BoundaryFrom(Terminal, s, i, e) && InStep(s, e))
  }

  lemma {:induction false} InStepRecords(s: Bytes, i: nat, p: nat)
    requires i <= |s| && InStep(s, i) && p in SafePoints(s, i) && p < |s|
    ensures BoundaryFrom(Terminal, s, i, p)
    decreases |s| - i
  {
    hide BoundaryFrom, EscapeSeen, CharEnd, Trail, Sequence;
    if s[i] != ESC {
      var e := UnitEnd(Terminal, s, i);
      SkipContinuation(s, i + 1, Trail(s[i]));
      StepBoundary(Terminal, s, i, p);
      if p in SafePoints(s, e) {
        InStepRecords(s, e, p);
      }
    } else {
      var e := EscapeEnd(s, i);
      PointsFrom(s, e, p);
      if p != e {
        InStepRecords(s, e, p);
        BoundaryBetween(Terminal, s, i, e, p);
      }
    }
  }

  lemma PointsFrom(s: Bytes, i: nat, p: nat)
    requires i <= |s|
    ensures p in SafePoints(s, i) ==> i <= p <= |s|
  {
  }

  /** What is recorded further on is recorded from here. */
  lemma PointsGrow(s: Bytes, i: nat, p: nat)
    requires i < |s|
    ensures s[i] == ESC ==> EscapeEnd(s, i) in SafePoints(s, i)
    ensures s[i] == ESC && p in SafePoints(s, EscapeEnd(s, i)) ==> p in SafePoints(s, i)
    ensures s[i] != ESC && p in SafePoints(s, UnitEnd(Terminal, s, i)) ==> p in SafePoints(s, i)
  {
    hide SafePoints, EscapeSeen, Sequence, CharEnd, Trail;
    PointsStep(s, i);
  }

  lemma {:induction false} OutOfStep(s: Bytes, i: nat) returns (p: nat)
    requires i <= |s| && !InStep(s, i)
    ensures p in SafePoints(s, i) && i < p < |s| && !BoundaryFrom(Terminal, s, i, p)
    decreases |s| - i
  {
    hide BoundaryFrom, EscapeEnd, UnitEnd, SafePoints;
    if s[i] != ESC {
      p := OutOfStep(s, UnitEnd(Terminal, s, i));
      PointsGrow(s, i, p);
      StepBoundary(Terminal, s, i, p);
    } else {
      var e := EscapeEnd(s, i);
      if BoundaryFrom(Terminal, s, i, e) {
        p := OutOfStep(s, e);
        BoundaryBetween(Terminal, s, i, e, p);
      } else {
        p := e;
      }
      PointsGrow(s, i, p);
    }
  }

  /** Every recorded point is the split of a target. */
  lemma RecordedIsTaken(buf: Bytes, p: nat)
    requires p in SafePoints(buf, 0) && p < |buf|
    ensures SplitPoint(buf, p) == p
  {
    hide LastWithin, SafePoints;
    if p > 0 {
      var all := [0] + SafePoints(buf, 0);
      PointsAscend(buf, 0);
      LastIsGreatest(all, p, 0);
      assert p in all;
    }
  }

  lemma ThrottledIsClean(buf: Bytes, target: nat)
    requires target < |buf| && InStep(buf, 0)
    ensures Boundary(Terminal, buf, SplitPoint(buf, target))
  {
    hide SplitPoint, InStep, BoundaryFrom;
    SplitIsGreatest(buf, target);
    var r := SplitPoint(buf, target);
    if r > 0 {
      SafePointIff(buf, 0, r);
      InStepRecords(buf, 0, r);
    } else {
      NothingCut(buf);
    }
  }

  lemma NothingCut(buf: Bytes)
    ensures Boundary(Terminal, buf, 0)
  {
  }

  /** No throttled split of the buffer cuts a unit of the terminal, whatever follows. */
  ghost predicate NeverCutThrottled(buf: Bytes) {
    forall target: nat, more: Bytes ::
      target < |buf| ==> Boundary(Terminal, buf + more, SplitPoint(buf, target))
  }

  /** The throttled splits keep the terminal's units exactly when the scanner is in step at every escape. */
  lemma ThrottledIff(buf: Bytes)
    ensures NeverCutThrottled(buf) <==> InStep(buf, 0)
  {
    hide SplitPoint, InStep, BoundaryFrom;
    if InStep(buf, 0) {
      forall target: nat, more: Bytes | target < |buf|
        ensures Boundary(Terminal, buf + more, SplitPoint(buf, target))
      {
        ThrottledIsClean(buf, target);
        CleanIff(Terminal, buf, SplitPoint(buf, target));
      }
    } else {
      var p := OutOfStep(buf, 0);
      RecordedIsTaken(buf, p);
      assert buf + [] == buf;
      assert !Boundary(Terminal, buf + [], SplitPoint(buf, p));
    }
  }

  /** No split at all cuts one exactly when, besides, the buffer ends with a complete unit. */
  lemma PromiseIff(buf: Bytes)
    ensures (forall target: nat, more: Bytes :: Boundary(Terminal, buf + more, SplitPoint(buf, target))) <==>
            InStep(buf, 0) && Closed(Terminal, buf, 0)
  {
    hide SplitPoint, InStep, BoundaryFrom, Closed;
    ThrottledIff(buf);
    CleanIff(Terminal, buf, |buf|);
    WholeBuffer(buf, |buf|);
    forall target: nat | |buf| <= target
      ensures SplitPoint(buf, target) == SplitPoint(buf, |buf|)
    {
      WholeBuffer(buf, target);
    }
  }

  // ----- which escapes are in step -----

  /** The only ESC in the escape at `j`, besides its first byte, is that of the terminator of an OSC. */
  predicate Unbroken(s: Bytes, j: nat)
    requires j + 1 < |s| && s[j] == ESC
  {
    var e := EscapeEnd(s, j);
    forall k :: j < k < e && s[k] == ESC ==> s[j + 1] == OSC && k == e - 2 && s[e - 1] == BACKSLASH
  }

  lemma {:induction false} ControlSame(s: Bytes, k: nat)
    requires k <= |s| && ControlEnd(s, k).At? && forall i :: k <= i < ControlEnd(s, k).pos ==> s[i] != ESC
    ensures ControlStop(s, k) == ControlEnd(s, k)
    decreases |s| - k
  {
    if !FinalByte(s[k]) {
      ControlSame(s, k + 1);
    }
  }

  lemma {:induction false} StringSame(s: Bytes, k: nat, e: nat)
    requires k <= |s| && StringEnd(s, k) == End.At(e)
    requires forall i :: k <= i < e && s[i] == ESC ==> i == e - 2 && s[e - 1] == BACKSLASH
    ensures StringStop(s, k) == End.At(e)
    decreases |s| - k
  {
    if s[k] != BEL && s[k] != ESC {
      StringSame(s, k + 1, e);
    }
  }

  /** The scanner stays in step at every control sequence and OSC that no ESC breaks off. */
  lemma ControlsInStep(s: Bytes, j: nat)
    requires j + 1 < |s| && s[j] == ESC && EscapeEnd(s, j) < |s|
    requires (s[j + 1] == CSI || s[j + 1] == OSC) && Unbroken(s, j)
    ensures BoundaryFrom(Terminal, s, j, EscapeEnd(s, j))
  {
    hide ControlEnd, StringEnd, ControlStop, StringStop;
    if s[j + 1] == CSI {
      ControlSame(s, j + 2);
    } else {
      StringSame(s, j + 2, EscapeEnd(s, j));
    }
  }

  /** To a terminal the sequence at `j` ends at `e` with its final byte or terminator, and is not broken off. */
  predicate EndsByItself(s: Bytes, j: nat, e: nat)
    requires j + 1 < |s| && s[j] == ESC
  {
    && Sequence(s, j) == End.At(e)
    && if s[j + 1] == CSI then j + 2 < e && 0x40 <= s[e - 1] <= 0x7e
       else s[j + 1] == OSC
            && ((j + 2 < e && s[e - 1] == 0x07) || (j + 3 < e && s[e - 2] == 0x1b && s[e - 1] == 0x5c))
  }

  lemma {:induction false} ControlStopsHere(s: Bytes, k: nat, e: nat)
    requires k < e <= |s| && ControlStop(s, k) == End.At(e) && 0x40 <= s[e - 1] <= 0x7e
    ensures ControlEnd(s, k) == End.At(e)
    decreases |s| - k
  {
    if !FinalByte(s[k]) {
      ControlStopsHere(s, k + 1, e);
    }
  }

  lemma {:induction false} StringStopsHere(s: Bytes, k: nat, e: nat)
    requires k < e <= |s| && StringStop(s, k) == End.At(e)
    requires s[e - 1] == 0x07 || (k + 1 < e && s[e - 2] == 0x1b && s[e - 1] == 0x5c)
    ensures StringEnd(s, k) == End.At(e)
    decreases |s| - k
  {
    if s[k] != BEL && s[k] != ESC {
      StringStopsHere(s, k + 1, e);
    }
  }

  /** A control sequence or OSC that ends by itself ends there for the scanner, too, whatever follows. */
  lemma ScannerEnds(s: Bytes, j: nat, e: nat)
    requires j + 1 < |s| && s[j] == ESC && EndsByItself(s, j, e)
    ensures EscapeSeen(s, j) == End.At(e)
  {
    hide ControlEnd, StringEnd, ControlStop, StringStop;
    if s[j + 1] == CSI {
      ControlStopsHere(s, j + 2, e);
    } else {
      StringStopsHere(s, j + 2, e);
    }
  }

  /** The end of such a sequence is the split of the target there, when the scanner comes to the sequence. */
  lemma SplitBehindSequence(s: Bytes, j: nat, e: nat)
    requires j + 1 < |s| && s[j] == ESC && EndsByItself(s, j, e)
    requires Boundary(Scanner, s, j) && e < |s|
    ensures SplitPoint(s, e) == e
  {
    hide EscapeSeen, Sequence, SplitPoint, EndsByItself, BoundaryFrom;
    ScannerEnds(s, j, e);
    assert EscapeTo(s, 0, j, e);
    assert Recordable(s, 0, e);
    SplitIsGreatest(s, e);
  }

  /** Of the other escapes it is in step exactly at those that a terminal, too, reads as two bytes. */
  lemma OthersInStepIff(s: Bytes, j: nat)
    requires j + 2 < |s| && s[j] == ESC && s[j + 1] != CSI && s[j + 1] != OSC
    ensures EscapeEnd(s, j) == j + 2
    ensures s[j + 1] != ESC ==> (BoundaryFrom(Terminal, s, j, j + 2) <==> Sequence(s, j) == End.At(j + 2))
    ensures s[j + 1] == ESC ==> (BoundaryFrom(Terminal, s, j, j + 2) <==> s[j + 2] == ESC)
  {
    hide ControlStop, StringStop, CharEnd;
    StepBoundary(Terminal, s, j, j + 2);
    StepBoundary(Terminal, s, j + 1, j + 2);
  }

  // ----- inputs that are cut -----

  /** Buffers of four bytes: a character behind ESC, an escape of three bytes, a DCS, and an ESC behind an ESC. */
  lemma CutEscapes(tail: Bytes)
    requires tail in [[0xc3, 0xa9, 0x58], [0x28, 0x42, 0x58], [DCS, 0x31, BEL], [ESC, CSI, 0x6d]]
    ensures SplitPoint([ESC] + tail, 2) == 2 && !Boundary(Terminal, [ESC] + tail, 2)
  {
    hide SplitPoint, BoundaryFrom;
    var s := [ESC] + tail;
    assert |s| == 4 && s[1] == tail[0] && s[2] == tail[1] && s[3] == tail[2];
    OthersInStepIff(s, 0);
    if tail[0] == 0xc3 {
      assert CharEnd(s, 3, 0) == End.At(3);
    } else if tail[0] == 0x28 {
      assert EscapeStop(s, 2) == End.At(3);
    } else if tail[0] == DCS {
      assert StringStop(s, 3) == End.At(4);
    }
    RecordedIsTaken(s, 2) by {
      assert EscapeEnd(s, 0) == 2;
    }
  }

  /** A whole buffer may end inside a sequence: ESC [ is sent as it is, and the m that follows belongs to it. */
  lemma WholeBufferCuts()
    ensures SplitPoint([ESC, CSI], 2) == 2
    ensures !Boundary(Terminal, [ESC, CSI] + [0x6d], 2) && !Boundary(Scanner, [ESC, CSI] + [0x6d], 2)
  {
    var s: Bytes := [ESC, CSI] + [0x6d];
    assert s[2] == 0x6d && |s| == 3;
    assert ControlEnd(s, 2) == End.At(3) && ControlStop(s, 2) == End.At(3);
  }
}
