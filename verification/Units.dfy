/**
 A terminal stream as a row of units, in two readings: that of the split scanner, and that of a
 terminal, for which an ESC always begins anew unless it is the first byte of a string terminator.
 */
module Units {
  import opened Bits
  import opened AnsiFilter
  import opened SafeSplit

  // ----- units -----

  /** How many continuation bytes follow a leading byte of UTF-8. */
  function Trail(b: byte): nat {
    if b < 0xc0 then 0 else if b < 0xe0 then 1 else if b < 0xf0 then 2 else 3
  }

  /** The end of a character that has come to `i` and lacks `n` bytes; another byte cuts it short. */
  function CharEnd(s: Bytes, i: nat, n: nat): (e: End)
    requires i <= |s|
    ensures e.At? ==> i <= e.pos <= |s|
    decreases n
  {
    if n == 0 then End.At(i)
    else if i == |s| then Open
    else if Continuation(s[i]) then CharEnd(s, i + 1, n - 1)
    else End.At(i)
  }

  /** DCS, SOS, OSC, PM and APC open a string (ECMA-48, section 5.6). */
  predicate OpensString(b: byte) {
    b == 0x50 || b == 0x58 || b == 0x5d || b == 0x5e || b == 0x5f
  }

  predicate Intermediate(b: byte) {
    0x20 <= b < 0x30
  }

  /** The end of a control sequence that has come to `k`. */
  function ControlStop(s: Bytes, k: nat): (e: End)
    requires k <= |s|
    ensures e.At? ==> k <= e.pos <= |s|
    decreases |s| - k
  {
    if k == |s| then Open
    else if s[k] == ESC then End.At(k)
    else if FinalByte(s[k]) then End.At(k + 1)
    else ControlStop(s, k + 1)
  }

  /** The end of a string that has come to `k`: behind BEL or ESC backslash, or in front of another ESC. */
  function StringStop(s: Bytes, k: nat): (e: End)
    requires k <= |s|
    ensures e.At? ==> k <= e.pos <= |s|
    decreases |s| - k
  {
    if k == |s| then Open
    else if s[k] == BEL then End.At(k + 1)
    else if s[k] != ESC then StringStop(s, k + 1)
    else if k + 1 == |s| then Open
    else if s[k + 1] == BACKSLASH then End.At(k + 2)
    else End.At(k)
  }

  /** The end of any other escape: intermediate bytes and a final character. */
  function EscapeStop(s: Bytes, k: nat): (e: End)
    requires k <= |s|
    ensures e.At? ==> k <= e.pos <= |s|
    decreases |s| - k
  {
    if k == |s| then Open
    else if s[k] == ESC then End.At(k)
    else if Intermediate(s[k]) then EscapeStop(s, k + 1)
    else CharEnd(s, k + 1, Trail(s[k]))
  }

  /** The escape sequence at `i` as a terminal reads it. */
  function Sequence(s: Bytes, i: nat): (e: End)
    requires i < |s| && s[i] == ESC
    ensures e.At? ==> i < e.pos <= |s|
  {
    if i + 1 == |s| then Open
    else if s[i + 1] == CSI then ControlStop(s, i + 2)
    else if OpensString(s[i + 1]) then StringStop(s, i + 2)
    else EscapeStop(s, i + 1)
  }

  datatype Reading = Scanner | Terminal

  function UnitAt(r: Reading, s: Bytes, i: nat): (e: End)
    requires i < |s|
    ensures e.At? ==> i < e.pos <= |s|
  {
    if s[i] != ESC then CharEnd(s, i + 1, Trail(s[i]))
    else if r.Scanner? then EscapeSeen(s, i)
    else Sequence(s, i)
  }

  /** The end of the unit at `i`; the end of the buffer if it is not complete. */
  function UnitEnd(r: Reading, s: Bytes, i: nat): (e: nat)
    requires i < |s|
    ensures i < e <= |s|
  {
    match UnitAt(r, s, i)
    case Open => |s|
    case At(n) => n
  }

  // ----- boundaries -----

  /** Going from unit to unit from `i` on leads to `p`. */
  predicate BoundaryFrom(r: Reading, s: Bytes, i: nat, p: nat)
    requires i <= |s|
    decreases |s| - i
  {
    i == p || (i < |s| && UnitEnd(r, s, i) <= p && BoundaryFrom(r, s, UnitEnd(r, s, i), p))
  }

  predicate Boundary(r: Reading, s: Bytes, p: nat) {
    BoundaryFrom(r, s, 0, p)
  }

  lemma {:induction false} BoundaryInRange(r: Reading, s: Bytes, i: nat, p: nat)
    requires i <= |s| && BoundaryFrom(r, s, i, p)
    ensures i <= p <= |s|
    decreases |s| - i
  {
    hide UnitEnd;
    if i != p {
      BoundaryInRange(r, s, UnitEnd(r, s, i), p);
    }
  }

  lemma StepBoundary(r: Reading, s: Bytes, i: nat, p: nat)
    requires i < |s|
    ensures BoundaryFrom(r, s, i, p) <==> p == i || BoundaryFrom(r, s, UnitEnd(r, s, i), p)
    ensures BoundaryFrom(r, s, UnitEnd(r, s, i), p) ==> i < p
  {
    hide UnitEnd;
    if BoundaryFrom(r, s, UnitEnd(r, s, i), p) {
      BoundaryInRange(r, s, UnitEnd(r, s, i), p);
    }
  }

  /** The end of the unit at a boundary is a boundary. */
  lemma {:induction false} BoundaryExtends(r: Reading, s: Bytes, i: nat, j: nat)
    requires i <= |s| && j < |s| && BoundaryFrom(r, s, i, j)
    ensures BoundaryFrom(r, s, i, UnitEnd(r, s, j))
    decreases |s| - i
  {
    hide UnitEnd;
    if i != j {
      BoundaryExtends(r, s, UnitEnd(r, s, i), j);
      BoundaryInRange(r, s, UnitEnd(r, s, i), j);
    }
  }

  /** Behind a boundary, the boundaries are those that are reached from it. */
  lemma {:induction false} BoundaryBetween(r: Reading, s: Bytes, i: nat, c: nat, p: nat)
    requires i <= |s| && c <= |s| && BoundaryFrom(r, s, i, c) && c <= p
    ensures BoundaryFrom(r, s, i, p) <==> BoundaryFrom(r, s, c, p)
    decreases |s| - i
  {
    hide UnitEnd;
    if i != c {
      BoundaryInRange(r, s, UnitEnd(r, s, i), c);
      BoundaryBetween(r, s, UnitEnd(r, s, i), c, p);
    }
  }

  // ----- what appended bytes cannot change -----

  lemma {:induction false} CharStable(s: Bytes, t: Bytes, i: nat, n: nat)
    requires i <= |s| && CharEnd(s, i, n).At?
    ensures CharEnd(s + t, i, n) == CharEnd(s, i, n)
    decreases n
  {
    if n > 0 && Continuation(s[i]) {
      CharStable(s, t, i + 1, n - 1);
    }
  }

  lemma {:induction false} ControlStable(s: Bytes, t: Bytes, k: nat)
    requires k <= |s| && ControlStop(s, k).At?
    ensures ControlStop(s + t, k) == ControlStop(s, k)
    decreases |s| - k
  {
    if s[k] != ESC && !FinalByte(s[k]) {
      ControlStable(s, t, k + 1);
    }
  }

  lemma {:induction false} StringStable(s: Bytes, t: Bytes, k: nat)
    requires k <= |s| && StringStop(s, k).At?
    ensures StringStop(s + t, k) == StringStop(s, k)
    decreases |s| - k
  {
    if s[k] != BEL && s[k] != ESC {
      StringStable(s, t, k + 1);
    }
  }

  lemma {:induction false} EscapeStable(s: Bytes, t: Bytes, k: nat)
    requires k <= |s| && EscapeStop(s, k).At?
    ensures EscapeStop(s + t, k) == EscapeStop(s, k)
    decreases |s| - k
  {
    hide CharEnd;
    if s[k] == ESC {
    } else if Intermediate(s[k]) {
      EscapeStable(s, t, k + 1);
    } else {
      CharStable(s, t, k + 1, Trail(s[k]));
    }
  }

  /** A complete unit stays as it is. */
  lemma UnitStable(r: Reading, s: Bytes, t: Bytes, i: nat)
    requires i < |s| && UnitAt(r, s, i).At?
    ensures UnitAt(r, s + t, i) == UnitAt(r, s, i)
  {
    hide CharEnd, StringEnd, ControlEnd, ControlStop, StringStop, EscapeStop, Trail;
    if s[i] != ESC {
      CharStable(s, t, i + 1, Trail(s[i]));
    } else if r.Scanner? {
      if s[i + 1] == CSI {
        ControlEndStable(s, t, i + 2);
      } else if s[i + 1] == OSC {
        StringEndStable(s, t, i + 2);
      }
    } else if s[i + 1] == CSI {
      ControlStable(s, t, i + 2);
    } else if OpensString(s[i + 1]) {
      StringStable(s, t, i + 2);
    } else {
      EscapeStable(s, t, i + 1);
    }
  }

  /** A boundary strictly inside the buffer stays one in every extension of the buffer. */
  lemma {:induction false} BoundaryStable(r: Reading, s: Bytes, t: Bytes, i: nat, p: nat)
    requires i <= |s| && p < |s| && BoundaryFrom(r, s, i, p)
    ensures BoundaryFrom(r, s + t, i, p)
    decreases |s| - i
  {
    hide UnitAt;
    if i != p {
      BoundaryInRange(r, s, i, p);
      BoundaryInRange(r, s, UnitEnd(r, s, i), p);
      UnitStable(r, s, t, i);
      BoundaryStable(r, s, t, UnitEnd(r, s, i), p);
    }
  }

  // ----- where the end of the buffer is a boundary for good -----

  /** From unit to unit all is complete up to the end. */
  predicate Closed(r: Reading, s: Bytes, i: nat)
    requires i <= |s|
    decreases |s| - i
  {
    i == |s| || (UnitAt(r, s, i).At? && Closed(r, s, UnitEnd(r, s, i)))
  }

  lemma {:induction false} ClosedStable(r: Reading, s: Bytes, t: Bytes, i: nat)
    requires i <= |s| && Closed(r, s, i)
    ensures BoundaryFrom(r, s + t, i, |s|)
    decreases |s| - i
  {
    hide UnitAt;
    if i < |s| {
      UnitStable(r, s, t, i);
      ClosedStable(r, s, t, UnitEnd(r, s, i));
    }
  }

  /** Not complete, or complete only at `n`. */
  predicate Reaches(e: End, n: nat) {
    e.Open? || e.pos == n
  }

  lemma {:induction false} CharGrows(s: Bytes, i: nat, n: nat)
    requires i <= |s| && CharEnd(s, i, n).Open?
    ensures Reaches(CharEnd(s + [0x80], i, n), |s| + 1)
    decreases n
  {
    if i < |s| {
      CharGrows(s, i + 1, n - 1);
    } else {
      assert (s + [0x80])[i] == 0x80;
    }
  }

  lemma {:induction false} ControlEndGrows(s: Bytes, k: nat)
    requires k <= |s| && ControlEnd(s, k).Open?
    ensures Reaches(ControlEnd(s + [0x80], k), |s| + 1)
    decreases |s| - k
  {
    if k < |s| {
      ControlEndGrows(s, k + 1);
    }
  }

  lemma {:induction false} StringEndGrows(s: Bytes, k: nat)
    requires k <= |s| && StringEnd(s, k).Open?
    ensures Reaches(StringEnd(s + [0x80], k), |s| + 1)
    decreases |s| - k
  {
    if k < |s| {
      StringEndGrows(s, k + 1);
    }
  }

  lemma {:induction false} ControlGrows(s: Bytes, k: nat)
    requires k <= |s| && ControlStop(s, k).Open?
    ensures Reaches(ControlStop(s + [0x80], k), |s| + 1)
    decreases |s| - k
  {
    if k < |s| {
      ControlGrows(s, k + 1);
    }
  }

  lemma {:induction false} StringGrows(s: Bytes, k: nat, b: byte)
    requires 0 < k <= |s| && StringStop(s, k).Open? && (k == |s| ==> s[k - 1] != ESC)
    requires b == if s[|s| - 1] == ESC then BACKSLASH else 0x80
    ensures Reaches(StringStop(s + [b], k), |s| + 1)
    decreases |s| - k
  {
    if k < |s| && s[k] != ESC {
      StringGrows(s, k + 1, b);
    }
  }

  lemma {:induction false} EscapeGrows(s: Bytes, k: nat)
    requires k <= |s| && EscapeStop(s, k).Open?
    ensures Reaches(EscapeStop(s + [0x80], k), |s| + 1)
    decreases |s| - k
  {
    if k < |s| {
      if Intermediate(s[k]) {
        EscapeGrows(s, k + 1);
      } else {
        CharGrows(s, k + 1, Trail(s[k]));
      }
    }
  }

  /** A byte that would belong to the incomplete unit at the end of the buffer. */
  lemma OpenUnitGrows(r: Reading, s: Bytes, i: nat) returns (b: byte)
    requires i < |s| && UnitAt(r, s, i).Open?
    ensures UnitEnd(r, s + [b], i) == |s| + 1
  {
    hide CharEnd, StringEnd, ControlEnd, ControlStop, StringStop, EscapeStop, Trail;
    b := 0x80;
    if s[i] != ESC {
      CharGrows(s, i + 1, Trail(s[i]));
    } else if r.Scanner? {
      if i + 1 < |s| && s[i + 1] == CSI {
        ControlEndGrows(s, i + 2);
      } else if i + 1 < |s| {
        StringEndGrows(s, i + 2);
      }
    } else {
      b := SequenceGrows(s, i);
    }
  }

  lemma SequenceGrows(s: Bytes, i: nat) returns (b: byte)
    requires i < |s| && s[i] == ESC && Sequence(s, i).Open?
    ensures UnitEnd(Terminal, s + [b], i) == |s| + 1
  {
    hide CharEnd, ControlStop, StringStop;
    b := 0x80;
    if i + 1 < |s| && s[i + 1] == CSI {
      ControlGrows(s, i + 2);
    } else if i + 1 < |s| && OpensString(s[i + 1]) {
      b := if s[|s| - 1] == ESC then BACKSLASH else 0x80;
      StringGrows(s, i + 2, b);
    } else {
      EscapeGrows(s, i + 1);
    }
  }

  lemma {:induction false} NotClosedWitness(r: Reading, s: Bytes, i: nat) returns (b: byte)
    requires i <= |s| && !Closed(r, s, i)
    ensures !BoundaryFrom(r, s + [b], i, |s|)
    decreases |s| - i
  {
    hide UnitAt;
    if UnitAt(r, s, i).At? {
      b := NotClosedWitness(r, s, UnitEnd(r, s, i));
      UnitStable(r, s, [b], i);
    } else {
      b := OpenUnitGrows(r, s, i);
    }
  }

  /** Nothing is cut at `n`: it is a boundary inside the buffer, or the end of a closed buffer. */
  predicate Clean(r: Reading, buf: Bytes, n: nat)
    requires n <= |buf|
  {
    if n < |buf| then Boundary(r, buf, n) else Closed(r, buf, 0)
  }

  /** A clean cut is at a boundary of everything the buffer may become, and no other cut is. */
  lemma CleanIff(r: Reading, buf: Bytes, n: nat)
    requires n <= |buf|
    ensures Clean(r, buf, n) <==> forall more: Bytes :: Boundary(r, buf + more, n)
  {
    hide BoundaryFrom, Closed;
    if Clean(r, buf, n) {
      forall more: Bytes
        ensures Boundary(r, buf + more, n)
      {
        if n < |buf| {
          BoundaryStable(r, buf, more, 0, n);
        } else {
          ClosedStable(r, buf, more, 0);
        }
      }
    } else if n < |buf| {
      assert buf + [] == buf;
    } else {
      var b := NotClosedWitness(r, buf, 0);
      assert !Boundary(r, buf + [b], n);
    }
  }

  // ----- consecutive cuts -----

  function Shift(e: End, c: nat): End {
    match e
    case Open => Open
    case At(n) => End.At(c + n)
  }

  lemma {:induction false} CharShift(s: Bytes, c: nat, i: nat, n: nat)
    requires c + i <= |s|
    ensures CharEnd(s, c + i, n) == Shift(CharEnd(s[c..], i, n), c)
    decreases n
  {
    if n > 0 && c + i < |s| {
      CharShift(s, c, i + 1, n - 1);
    }
  }

  lemma {:induction false} ControlEndShift(s: Bytes, c: nat, k: nat)
    requires c + k <= |s|
    ensures ControlEnd(s, c + k) == Shift(ControlEnd(s[c..], k), c)
    decreases |s| - c - k
  {
    if c + k < |s| {
      ControlEndShift(s, c, k + 1);
    }
  }

  lemma {:induction false} StringEndShift(s: Bytes, c: nat, k: nat)
    requires c + k <= |s|
    ensures StringEnd(s, c + k) == Shift(StringEnd(s[c..], k), c)
    decreases |s| - c - k
  {
    if c + k < |s| {
      StringEndShift(s, c, k + 1);
    }
  }

  lemma {:induction false} ControlShift(s: Bytes, c: nat, k: nat)
    requires c + k <= |s|
    ensures ControlStop(s, c + k) == Shift(ControlStop(s[c..], k), c)
    decreases |s| - c - k
  {
    if c + k < |s| {
      ControlShift(s, c, k + 1);
    }
  }

  lemma {:induction false} StringShift(s: Bytes, c: nat, k: nat)
    requires c + k <= |s|
    ensures StringStop(s, c + k) == Shift(StringStop(s[c..], k), c)
    decreases |s| - c - k
  {
    if c + k < |s| {
      StringShift(s, c, k + 1);
    }
  }

  lemma {:induction false} EscapeShift(s: Bytes, c: nat, k: nat)
    requires c + k <= |s|
    ensures EscapeStop(s, c + k) == Shift(EscapeStop(s[c..], k), c)
    decreases |s| - c - k
  {
    hide CharEnd;
    if c + k < |s| {
      EscapeShift(s, c, k + 1);
      CharShift(s, c, k + 1, Trail(s[c + k]));
    }
  }

  lemma ScannerShift(s: Bytes, c: nat, i: nat)
    requires c + i < |s| && s[c + i] == ESC
    ensures EscapeSeen(s, c + i) == Shift(EscapeSeen(s[c..], i), c)
  {
    hide StringEnd, ControlEnd;
    if c + i + 2 <= |s| {
      StringEndShift(s, c, i + 2);
      ControlEndShift(s, c, i + 2);
    }
  }

  lemma SequenceShift(s: Bytes, c: nat, i: nat)
    requires c + i < |s| && s[c + i] == ESC
    ensures Sequence(s, c + i) == Shift(Sequence(s[c..], i), c)
  {
    hide ControlStop, StringStop, EscapeStop;
    EscapeShift(s, c, i + 1);
    if c + i + 2 <= |s| {
      StringShift(s, c, i + 2);
      ControlShift(s, c, i + 2);
    }
  }

  lemma UnitShift(r: Reading, s: Bytes, c: nat, i: nat)
    requires c + i < |s|
    ensures UnitEnd(r, s, c + i) == c + UnitEnd(r, s[c..], i)
  {
    hide CharEnd, EscapeSeen, Sequence, Trail;
    if s[c + i] == ESC {
      ScannerShift(s, c, i);
      SequenceShift(s, c, i);
    } else {
      CharShift(s, c, i + 1, Trail(s[c + i]));
    }
  }

  lemma {:induction false} BoundaryShift(r: Reading, s: Bytes, c: nat, i: nat, p: nat)
    requires c + i <= |s|
    ensures BoundaryFrom(r, s, c + i, c + p) <==> BoundaryFrom(r, s[c..], i, p)
    decreases |s| - c - i
  {
    hide UnitEnd;
    if i != p && c + i < |s| {
      UnitShift(r, s, c, i);
      BoundaryShift(r, s, c, UnitEnd(r, s[c..], i), p);
    }
  }

  /** When the rest starts at a boundary, the boundaries of the rest are those of the whole. */
  lemma BoundaryCompose(r: Reading, s: Bytes, c: nat, p: nat)
    requires c <= |s| && Boundary(r, s, c)
    ensures Boundary(r, s, c + p) <==> Boundary(r, s[c..], p)
  {
    hide BoundaryFrom;
    BoundaryShift(r, s, c, 0, p);
    BoundaryBetween(r, s, 0, c, c + p);
  }
}
