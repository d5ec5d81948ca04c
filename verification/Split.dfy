/** Where a buffer may be split (src/ansi.rs, find_safe_split_point): the scanner and the points it records. */
module SafeSplit {
  import opened Bits
  import opened AnsiFilter

  predicate Continuation(b: byte) {
    0x80 <= b < 0xc0
  }

  /** Where the scanner sees the end of the escape sequence that starts at `i`. */
  function EscapeSeen(s: Bytes, i: nat): (e: End)
    requires i < |s| && s[i] == ESC
    ensures e.At? ==> i < e.pos <= |s|
  {
    if i + 1 == |s| then Open
    else if s[i + 1] == CSI then ControlEnd(s, i + 2)
    else if s[i + 1] == OSC then StringEnd(s, i + 2)
    else End.At(i + 2)
  }

  /** The same, with the end of the buffer for a sequence that is not complete. */
  function EscapeEnd(s: Bytes, i: nat): (e: nat)
    requires i < |s| && s[i] == ESC
    ensures i < e <= |s|
  {
    match EscapeSeen(s, i)
    case Open => |s|
    case At(n) => n
  }

  /** The points the scanner records from `i` on. */
  function SafePoints(s: Bytes, i: nat): (points: seq<nat>)
    requires i <= |s|
    ensures forall k :: 0 <= k < |points| ==> i <= points[k] <= |s|
    ensures |points| > 0 && points[|points| - 1] == |s|
    decreases |s| - i
  {
    if i == |s| then [|s|]
    else if s[i] == ESC then [EscapeEnd(s, i)] + SafePoints(s, EscapeEnd(s, i))
    else (if Continuation(s[i]) then [] else [i]) + SafePoints(s, i + 1)
  }

  /** The last of the leading points that are not beyond `target`. */
  function LastWithin(points: seq<nat>, target: nat, best: nat): (r: nat)
    ensures best <= target ==> r <= target
    decreases |points|
  {
    if |points| == 0 || points[0] > target then best else LastWithin(points[1..], target, points[0])
  }

  function SplitPoint(buf: Bytes, target: nat): (r: nat)
    ensures r <= |buf| && (target < |buf| ==> r <= target)
  {
    if target >= |buf| then |buf|
    else if target == 0 then 0
    else LastWithin([0] + SafePoints(buf, 0), target, 0)
  }

  // ----- the scanning loops -----

  method ScanEscape(buf: Bytes, start: nat) returns (i: nat)
    requires start < |buf| && buf[start] == ESC
    ensures i == EscapeEnd(buf, start)
  {
    i := start + 1;
    if i < |buf| {
      if buf[i] == CSI {
        i := i + 1;
        while i < |buf|
          invariant start + 2 <= i <= |buf|
          invariant ControlEnd(buf, start + 2) == ControlEnd(buf, i)
        {
          var b := buf[i];
          i := i + 1;
          if FinalByte(b) {
            return;
          }
        }
      } else if buf[i] == OSC {
        i := i + 1;
        while i < |buf|
          invariant start + 2 <= i <= |buf|
          invariant StringEnd(buf, start + 2) == StringEnd(buf, i)
        {
          if buf[i] == BEL {
            i := i + 1;
            return;
          } else if buf[i] == ESC && i + 1 < |buf| && buf[i + 1] == BACKSLASH {
            i := i + 2;
            return;
          }
          i := i + 1;
        }
      } else {
        i := i + 1;
      }
    }
  }

  lemma AtEnd(s: Bytes)
    ensures SafePoints(s, |s|) == [|s|]
  {
  }

  lemma RecordStep(acc: seq<nat>, s: Bytes, i: nat)
    requires i < |s|
    ensures acc + SafePoints(s, i) ==
            if s[i] == ESC then acc + [EscapeEnd(s, i)] + SafePoints(s, EscapeEnd(s, i))
            else if Continuation(s[i]) then acc + SafePoints(s, i + 1)
            else acc + [i] + SafePoints(s, i + 1)
  {
    hide EscapeEnd;
  }

  method CollectPoints(buf: Bytes) returns (points: seq<nat>)
    ensures points == [0] + SafePoints(buf, 0)
  {
    hide EscapeEnd, SafePoints;
    AtEnd(buf);
    points := [0];
    var i := 0;
    while i < |buf|
      invariant i <= |buf|
      invariant points + SafePoints(buf, i) == [0] + SafePoints(buf, 0)
    {
      RecordStep(points, buf, i);
      if buf[i] == ESC {
        i := ScanEscape(buf, i);
        points := points + [i];
      } else {
        if buf[i] < 0x80 || buf[i] >= 0xc0 {
          points := points + [i];
        }
        i := i + 1;
      }
    }
    points := points + [|buf|];
  }

  method FindSafeSplitPoint(buf: Bytes, target: nat) returns (best: nat)
    ensures best == SplitPoint(buf, target)
  {
    if target >= |buf| {
      return |buf|;
    }
    if target == 0 {
      return 0;
    }
    var points := CollectPoints(buf);
    best := 0;
    var k := 0;
    assert points[0..] == points;
    while k < |points|
      invariant k <= |points|
      invariant LastWithin(points, target, 0) == LastWithin(points[k..], target, best)
    {
      var rest := points[k..];
      assert rest[1..] == points[k + 1..];
      if points[k] > target {
        return;
      }
      best := points[k];
      k := k + 1;
    }
  }
  // ----- facts about the recorded points -----

  lemma {:induction false} PointsAscend(s: Bytes, i: nat)
    requires i <= |s|
    ensures forall j, k :: 0 <= j <= k < |SafePoints(s, i)| ==> SafePoints(s, i)[j] <= SafePoints(s, i)[k]
    decreases |s| - i
  {
    hide EscapeEnd, Continuation;
    if i < |s| {
      PointsAscend(s, if s[i] == ESC then EscapeEnd(s, i) else i + 1);
    }
  }

  lemma {:induction false} LastIsGreatest(points: seq<nat>, target: nat, best: nat)
    requires best <= target
    requires forall j, k :: 0 <= j <= k < |points| ==> points[j] <= points[k]
    requires forall k :: 0 <= k < |points| ==> best <= points[k]
    ensures var r := LastWithin(points, target, best);
            && r <= target && (r == best || r in points)
            && forall p :: p in points && p <= target ==> p <= r
    ensures best <= LastWithin(points, target, best)
    decreases |points|
  {
    if |points| > 0 && points[0] <= target {
      LastIsGreatest(points[1..], target, points[0]);
      forall p | p in points && p <= target
        ensures p <= LastWithin(points, target, best)
      {
        assert p == points[0] || p in points[1..];
      }
    }
  }
}
