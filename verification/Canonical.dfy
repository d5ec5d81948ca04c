/**
 Canonical Huffman codes, as section 3.2.2 of RFC 1951 assigns them to a list of code
 lengths, and what reading one code from a bit stream means.  Nothing here mentions the
 count/first/index arithmetic of the decoder: that is proved against this module.
 */
module Canonical {
  import opened Bits

  const MAX_BITS := 15

  type codelen = x: int | 0 <= x <= 15
  type Lengths = seq<codelen>

  /** The result of reading something at a bit position: a value and the next position, or an error. */
  datatype Read<+T> = Got(value: T, pos: nat) | Bad(err: int, pos: nat) {
    predicate IsFailure() { Bad? }

    function PropagateFailure<U>(): Read<U>
      requires Bad?
    {
      Bad(err, pos)
    }

    function Extract(): (T, nat)
      requires Got?
    {
      (value, pos)
    }
  }

  // ----- code assignment -----

  /** How many symbols have length `l`. */
  function Count(ls: Lengths, l: nat): (n: nat)
    ensures n <= |ls|
  {
    if ls == [] then 0
    else Count(ls[..|ls| - 1], l) + (if ls[|ls| - 1] == l then 1 else 0)
  }

  /** How many symbols before `s` have the length of `s`. */
  function Rank(ls: Lengths, s: nat): nat
    requires s < |ls|
  {
    Count(ls[..s], ls[s])
  }

  /** Step 2 of the algorithm: the numerically first code of length `l`. */
  function FirstCode(ls: Lengths, l: nat): nat
  {
    if l <= 1 then 0 else 2 * (FirstCode(ls, l - 1) + Count(ls, l - 1))
  }

  /** Step 3 of the algorithm: consecutive codes for the symbols of one length. */
  function Code(ls: Lengths, s: nat): nat
    requires s < |ls|
  {
    FirstCode(ls, ls[s]) + Rank(ls, s)
  }

  /** Prefixes of length `l` that no code of length at most `l` takes; negative when there are too many codes. */
  function Left(ls: Lengths, l: nat): int
  {
    if l == 0 then 1 else 2 * Left(ls, l - 1) - Count(ls, l)
  }

  predicate OverSubscribed(ls: Lengths) {
    Left(ls, MAX_BITS) < 0
  }

  predicate AllZero(ls: Lengths) {
    Count(ls, 0) == |ls|
  }

  /** The code of `s` as the bits that stand in the stream, most significant bit first. */
  function CodeBits(ls: Lengths, s: nat): (b: seq<bit>)
    requires s < |ls|
    ensures |b| == ls[s]
  {
    MsbBits(Code(ls, s), ls[s])
  }

  predicate IsSymbol(ls: Lengths, s: nat) {
    s < |ls| && 0 < ls[s]
  }

  /** The code of symbol `s` is the next thing in the stream. */
  predicate Matches(ls: Lengths, b: seq<bit>, p: nat, s: nat) {
    IsSymbol(ls, s) && At(b, p, CodeBits(ls, s))
  }

  /**
   Reading one symbol: the symbol whose code comes next; error -10 when fifteen bits are there
   and no code matches; error 2 when the stream ends before that is known.
   */
  ghost function ReadSymbol(ls: Lengths, b: seq<bit>, p: nat): (r: Read<nat>)
    ensures r.Got? ==> Matches(ls, b, p, r.value) && p < r.pos == p + ls[r.value] <= |b|
  {
    if exists s: nat :: Matches(ls, b, p, s) then
      var s: nat :| Matches(ls, b, p, s);
      Got(s, p + ls[s])
    else if p + MAX_BITS <= |b| then Bad(-10, p + MAX_BITS)
    else Bad(2, |b|)
  }

  // ----- counting -----

  lemma CountPrefix(ls: Lengths, s: nat, l: nat)
    requires s < |ls|
    ensures Count(ls[..s + 1], l) == Count(ls[..s], l) + (if ls[s] == l then 1 else 0)
  {
    assert ls[..s + 1][..s] == ls[..s];
  }

  lemma {:induction false} CountMonotone(ls: Lengths, i: nat, j: nat, l: nat)
    requires i <= j <= |ls|
    ensures Count(ls[..i], l) <= Count(ls[..j], l)
    decreases j - i
  {
    if i < j {
      CountMonotone(ls, i, j - 1, l);
      CountPrefix(ls, j - 1, l);
    }
  }

  lemma RankBelowCount(ls: Lengths, s: nat)
    requires s < |ls|
    ensures Rank(ls, s) < Count(ls, ls[s])
  {
    CountPrefix(ls, s, ls[s]);
    CountMonotone(ls, s + 1, |ls|, ls[s]);
    assert ls[..|ls|] == ls;
  }

  lemma RankStrict(ls: Lengths, s: nat, t: nat)
    requires s < t < |ls| && ls[s] == ls[t]
    ensures Rank(ls, s) < Rank(ls, t)
  {
    CountPrefix(ls, s, ls[s]);
    CountMonotone(ls, s + 1, t, ls[s]);
  }

  /** The symbol that is number `r` among those of length `l`. */
  function Nth(ls: Lengths, l: nat, r: nat): (s: nat)
    requires r < Count(ls, l)
    ensures s < |ls| && ls[s] == l && Rank(ls, s) == r
  {
    var n := |ls| - 1;
    if r == Count(ls[..n], l) then n
    else
      var s := Nth(ls[..n], l, r);
      assert ls[..n][..s] == ls[..s];
      s
  }

  // ----- the Kraft sum -----

  /** Sum of 2^(15 - length) over all symbols: the share of the 15-bit values that the codes take. */
  function Kraft(ls: Lengths): nat
  {
    if ls == [] then 0
    else
      var x := ls[|ls| - 1];
      Kraft(ls[..|ls| - 1]) + if x == 0 then 0 else Pow2(MAX_BITS - x)
  }

  lemma {:induction false} LeftOfEmpty(l: nat)
    ensures Left([], l) == Pow2(l)
  {
    if l > 0 {
      LeftOfEmpty(l - 1);
    }
  }

  lemma {:induction false} LeftAppend(ls: Lengths, x: codelen, l: nat)
    ensures Left(ls + [x], l) == Left(ls, l) - if 0 < x <= l then Pow2(l - x) else 0
  {
    if l > 0 {
      LeftAppend(ls, x, l - 1);
      assert (ls + [x])[..|ls|] == ls;
    }
  }

  /** What the construction loop leaves over is 2^15 minus the Kraft sum. */
  lemma {:induction false} LeftIsKraftGap(ls: Lengths)
    ensures Left(ls, MAX_BITS) == Pow2(MAX_BITS) - Kraft(ls)
  {
    if ls == [] {
      LeftOfEmpty(MAX_BITS);
    } else {
      var n := |ls| - 1;
      LeftIsKraftGap(ls[..n]);
      LeftAppend(ls[..n], ls[n], MAX_BITS);
      assert ls == ls[..n] + [ls[n]];
    }
  }

  lemma {:induction false} LeftStaysNegative(ls: Lengths, l: nat, m: nat)
    requires l <= m && Left(ls, l) < 0
    ensures Left(ls, m) < 0
    decreases m
  {
    if l < m {
      LeftStaysNegative(ls, l, m - 1);
    }
  }

  lemma {:induction false} ZeroLengths(ls: Lengths)
    requires AllZero(ls)
    ensures Kraft(ls) == 0 && forall s :: 0 <= s < |ls| ==> ls[s] == 0
  {
    if ls != [] {
      ZeroLengths(ls[..|ls| - 1]);
    }
  }

  lemma AllZeroHasNoSymbols(ls: Lengths)
    requires AllZero(ls)
    ensures !OverSubscribed(ls) && forall s :: 0 <= s < |ls| ==> ls[s] == 0
  {
    ZeroLengths(ls);
    LeftIsKraftGap(ls);
  }

  /** Codes up to length `l` and the free prefixes of length `l` make up all prefixes of length `l`. */
  lemma {:induction false} FirstCodeLeft(ls: Lengths, l: nat)
    requires 0 < l
    ensures FirstCode(ls, l) + Count(ls, l) + Left(ls, l) == Pow2(l)
  {
    if l > 1 {
      FirstCodeLeft(ls, l - 1);
    } else {
      assert Left(ls, 1) == 2 * Left(ls, 0) - Count(ls, 1);
      assert Pow2(1) == 2 * Pow2(0);
    }
  }

  lemma CodeFits(ls: Lengths, s: nat)
    requires !OverSubscribed(ls) && IsSymbol(ls, s)
    ensures Code(ls, s) < Pow2(ls[s])
  {
    FirstCodeLeft(ls, ls[s]);
    RankBelowCount(ls, s);
    if Left(ls, ls[s]) < 0 {
      LeftStaysNegative(ls, ls[s], MAX_BITS);
    }
  }

  lemma MsbOfCode(ls: Lengths, s: nat)
    requires !OverSubscribed(ls) && IsSymbol(ls, s)
    ensures Msb(CodeBits(ls, s)) == Code(ls, s)
  {
    CodeFits(ls, s);
    MsbOfBits(Code(ls, s), ls[s]);
  }

  // ----- prefix freedom -----

  /** A prefix value is never larger than the value it is a prefix of allows. */
  lemma {:induction false} MsbPrefix(b: seq<bit>, m: nat)
    requires m <= |b|
    ensures Msb(b[..m]) * Pow2(|b| - m) <= Msb(b) < (Msb(b[..m]) + 1) * Pow2(|b| - m)
    decreases |b|
  {
    if m == |b| {
      assert b[..m] == b;
    } else {
      var c := b[..|b| - 1];
      MsbPrefix(c, m);
      assert c[..m] == b[..m];
      DoubleBounds(Msb(b[..m]), Pow2(|c| - m), Msb(c), b[|b| - 1]);
    }
  }

  lemma DoubleBounds(v: nat, w: nat, x: nat, d: bit)
    requires v * w <= x < (v + 1) * w
    ensures v * (2 * w) <= 2 * x + d < (v + 1) * (2 * w)
  {
    assert v * (2 * w) == 2 * (v * w);
    assert (v + 1) * (2 * w) == 2 * ((v + 1) * w);
  }

  lemma ProductMonotone(a: nat, b: nat, w: nat)
    requires a <= b
    ensures a * w <= b * w
  {
    assert (b - a) * w >= 0;
    assert b * w == a * w + (b - a) * w;
  }

  /** A value whose prefix is a code, or below one, is itself below the codes of its own length. */
  lemma {:induction false} PrefixTaken(ls: Lengths, c: seq<bit>, l: nat)
    requires 0 < l < |c|
    requires Msb(c[..l]) < FirstCode(ls, l) + Count(ls, l)
    ensures Msb(c) < FirstCode(ls, |c|)
    decreases |c|
  {
    var d := c[..|c| - 1];
    assert d[..l] == c[..l];
    if l < |d| {
      PrefixTaken(ls, d, l);
    } else {
      assert d == c[..l];
    }
  }

  /** Of two matching symbols neither is shorter than the other: no code is a prefix of another. */
  lemma NoShorterMatch(ls: Lengths, b: seq<bit>, p: nat, s: nat, t: nat)
    requires !OverSubscribed(ls)
    requires Matches(ls, b, p, s) && Matches(ls, b, p, t)
    ensures ls[t] <= ls[s]
  {
    if ls[s] < ls[t] {
      var c := CodeBits(ls, t);
      assert c[..ls[s]] == CodeBits(ls, s) by {
        assert b[p..p + ls[t]][..ls[s]] == b[p..p + ls[s]];
      }
      MsbOfCode(ls, s);
      MsbOfCode(ls, t);
      RankBelowCount(ls, s);
      PrefixTaken(ls, c, ls[s]);
      assert false;
    }
  }

  /** At most one symbol matches, so reading is unambiguous. */
  lemma MatchUnique(ls: Lengths, b: seq<bit>, p: nat, s: nat, t: nat)
    requires !OverSubscribed(ls)
    requires Matches(ls, b, p, s) && Matches(ls, b, p, t)
    ensures s == t
  {
    NoShorterMatch(ls, b, p, s, t);
    NoShorterMatch(ls, b, p, t, s);
    MsbOfCode(ls, s);
    MsbOfCode(ls, t);
    if s < t {
      RankStrict(ls, s, t);
    } else if t < s {
      RankStrict(ls, t, s);
    }
  }

  /** A symbol is read exactly when its code comes next. */
  lemma ReadSymbolIff(ls: Lengths, b: seq<bit>, p: nat, s: nat, q: nat)
    requires !OverSubscribed(ls)
    ensures ReadSymbol(ls, b, p) == Got(s, q) <==> Matches(ls, b, p, s) && q == p + ls[s]
  {
    if Matches(ls, b, p, s) {
      MatchUnique(ls, b, p, s, ReadSymbol(ls, b, p).value);
    }
  }

  /** What matches is decided by the bits of the code alone. */
  lemma MatchesByValue(ls: Lengths, b: seq<bit>, p: nat, s: nat)
    requires !OverSubscribed(ls) && IsSymbol(ls, s) && p + ls[s] <= |b|
    ensures Matches(ls, b, p, s) <==> Msb(b[p..p + ls[s]]) == Code(ls, s)
  {
    hide Left, Count, FirstCode, Msb, MsbBits, Pow2;
    var c := b[p..p + ls[s]];
    assert |c| == ls[s];
    MsbOfCode(ls, s);
    BitsOfMsb(c);
  }

  // ----- the code table as an order of 15-bit values -----

  /** Among the values of length `l` at or above the first code, those that are codes are the lowest. */
  lemma CodeOfLength(ls: Lengths, b: seq<bit>, p: nat, l: nat) returns (s: nat)
    requires !OverSubscribed(ls) && 0 < l <= MAX_BITS && p + l <= |b|
    requires FirstCode(ls, l) <= Msb(b[p..p + l]) < FirstCode(ls, l) + Count(ls, l)
    ensures s == Nth(ls, l, Msb(b[p..p + l]) - FirstCode(ls, l))
    ensures Matches(ls, b, p, s) && ls[s] == l
  {
    s := Nth(ls, l, Msb(b[p..p + l]) - FirstCode(ls, l));
    MatchesByValue(ls, b, p, s);
  }

  /** A prefix of length `k` among the taken ones keeps every longer prefix among the taken ones. */
  lemma TakenLater(ls: Lengths, b: seq<bit>, p: nat, k: nat, l: nat)
    requires 0 < k <= l && p + l <= |b|
    requires Msb(b[p..p + k]) < FirstCode(ls, k) + Count(ls, k)
    ensures Msb(b[p..p + l]) < FirstCode(ls, l) + Count(ls, l)
  {
    if k < l {
      var c := b[p..p + l];
      assert c[..k] == b[p..p + k];
      PrefixTaken(ls, c, k);
      assert |c| == l;
    } else {
      assert b[p..p + k] == b[p..p + l];
    }
  }

  /** The bits of a matching code are among the taken values. */
  lemma MatchTaken(ls: Lengths, b: seq<bit>, p: nat, s: nat)
    requires !OverSubscribed(ls) && Matches(ls, b, p, s)
    ensures Msb(b[p..p + ls[s]]) < FirstCode(ls, ls[s]) + Count(ls, ls[s])
  {
    MsbOfCode(ls, s);
    RankBelowCount(ls, s);
  }

  /** One more bit keeps a value that is beyond all shorter codes at or above the first code. */
  lemma NextBit(ls: Lengths, b: seq<bit>, p: nat, l: nat)
    requires p + l < |b|
    requires l == 0 || FirstCode(ls, l) + Count(ls, l) <= Msb(b[p..p + l])
    ensures Msb(b[p..p + l + 1]) == 2 * Msb(b[p..p + l]) + b[p + l]
    ensures FirstCode(ls, l + 1) <= Msb(b[p..p + l + 1])
  {
    assert b[p..p + l + 1][..l] == b[p..p + l];
  }

  /** Some symbol matches as soon as a prefix value of length `l` falls below the free prefixes. */
  lemma {:induction false} MatchBelow(ls: Lengths, b: seq<bit>, p: nat, l: nat)
    returns (s: nat)
    requires !OverSubscribed(ls) && 0 < l <= MAX_BITS && p + l <= |b|
    requires Msb(b[p..p + l]) < FirstCode(ls, l) + Count(ls, l)
    ensures Matches(ls, b, p, s) && ls[s] <= l
    decreases l
  {
    if l > 1 && Msb(b[p..p + l - 1]) < FirstCode(ls, l - 1) + Count(ls, l - 1) {
      s := MatchBelow(ls, b, p, l - 1);
    } else {
      NextBit(ls, b, p, l - 1);
      s := CodeOfLength(ls, b, p, l);
    }
  }

  /**
   With fifteen bits at hand, reading fails exactly when their value is among the top `Left` values;
   never, therefore, for a complete code.
   */
  lemma NoCodeIff(ls: Lengths, b: seq<bit>, p: nat)
    requires !OverSubscribed(ls) && p + MAX_BITS <= |b|
    ensures ReadSymbol(ls, b, p).Bad? <==> Pow2(MAX_BITS) - Left(ls, MAX_BITS) <= Msb(b[p..p + MAX_BITS])
    ensures ReadSymbol(ls, b, p).Bad? ==> ReadSymbol(ls, b, p) == Bad(-10, p + MAX_BITS)
  {
    hide Pow2, Left, Msb, FirstCode, Count;
    FirstCodeLeft(ls, MAX_BITS);
    if Msb(b[p..p + MAX_BITS]) < FirstCode(ls, MAX_BITS) + Count(ls, MAX_BITS) {
      var s := MatchBelow(ls, b, p, MAX_BITS);
    } else if ReadSymbol(ls, b, p).Got? {
      var s := ReadSymbol(ls, b, p).value;
      MatchTaken(ls, b, p, s);
      TakenLater(ls, b, p, ls[s], MAX_BITS);
    }
  }

  /** The 15-bit values that start with the code of `s`. */
  predicate InInterval(ls: Lengths, s: nat, v: nat)
    requires IsSymbol(ls, s)
  {
    var w := Pow2(MAX_BITS - ls[s]);
    Code(ls, s) * w <= v < (Code(ls, s) + 1) * w
  }

  /** The intervals of the codes cover [0, 2^15 - Left) without gap or overlap. */
  lemma KraftTiling(ls: Lengths, v: nat)
    requires !OverSubscribed(ls) && v < Pow2(MAX_BITS)
    ensures v < Pow2(MAX_BITS) - Left(ls, MAX_BITS) <==> exists s: nat :: IsSymbol(ls, s) && InInterval(ls, s, v)
    ensures forall s: nat, t: nat ::
              IsSymbol(ls, s) && IsSymbol(ls, t) && InInterval(ls, s, v) && InInterval(ls, t, v) ==> s == t
  {
    var b := MsbBits(v, MAX_BITS);
    MsbOfBits(v, MAX_BITS);
    assert b[0..MAX_BITS] == b;
    forall s: nat | IsSymbol(ls, s)
      ensures InInterval(ls, s, v) <==> Matches(ls, b, 0, s)
    {
      IntervalIsMatch(ls, b, s);
    }
    NoCodeIff(ls, b, 0);
    forall s: nat, t: nat | IsSymbol(ls, s) && IsSymbol(ls, t) && InInterval(ls, s, v) && InInterval(ls, t, v)
      ensures s == t
    {
      MatchUnique(ls, b, 0, s, t);
    }
  }

  lemma IntervalIsMatch(ls: Lengths, b: seq<bit>, s: nat)
    requires !OverSubscribed(ls) && |b| == MAX_BITS && IsSymbol(ls, s)
    ensures InInterval(ls, s, Msb(b)) <==> Matches(ls, b, 0, s)
  {
    hide OverSubscribed, Msb, Code, CodeBits, Pow2, Matches;
    MatchesByValue(ls, b, 0, s);
    assert b[0..ls[s]] == b[..ls[s]];
    MsbPrefix(b, ls[s]);
    SameQuotient(Msb(b[..ls[s]]), Code(ls, s), Pow2(MAX_BITS - ls[s]), Msb(b));
  }

  lemma SameQuotient(x: nat, y: nat, w: nat, v: nat)
    requires x * w <= v < (x + 1) * w
    ensures y * w <= v < (y + 1) * w <==> x == y
  {
    if y < x {
      ProductMonotone(y + 1, x, w);
    } else if x < y {
      ProductMonotone(x + 1, y, w);
    }
  }

  // ----- writing and reading symbol lists -----

  function WriteSymbols(ls: Lengths, syms: seq<nat>): seq<bit>
    requires forall i :: 0 <= i < |syms| ==> IsSymbol(ls, syms[i])
  {
    if |syms| == 0 then [] else assert IsSymbol(ls, syms[0]); CodeBits(ls, syms[0]) + WriteSymbols(ls, syms[1..])
  }

  ghost function ReadSymbols(ls: Lengths, b: seq<bit>, p: nat, n: nat): Read<seq<nat>>
    decreases n
  {
    if n == 0 then Got([], p)
    else
      var (s, q) :- ReadSymbol(ls, b, p);
      var (rest, end) :- ReadSymbols(ls, b, q, n - 1);
      Got([s] + rest, end)
  }

  /** Any list of symbols, written with its codes and read back, gives the list and the position behind it. */
  lemma {:induction false} SymbolListRoundTrip(ls: Lengths, syms: seq<nat>, b: seq<bit>, p: nat)
    requires !OverSubscribed(ls)
    requires forall i :: 0 <= i < |syms| ==> IsSymbol(ls, syms[i])
    requires At(b, p, WriteSymbols(ls, syms))
    ensures ReadSymbols(ls, b, p, |syms|) == Got(syms, p + |WriteSymbols(ls, syms)|)
  {
    if syms != [] {
      hide Count, FirstCode, MsbBits, Left;
      var c, rest := CodeBits(ls, syms[0]), WriteSymbols(ls, syms[1..]);
      AtConcat(b, p, c, rest);
      ReadSymbolIff(ls, b, p, syms[0], p + |c|);
      SymbolListRoundTrip(ls, syms[1..], b, p + |c|);
      assert [syms[0]] + syms[1..] == syms;
    }
  }

  lemma AtConcat(b: seq<bit>, p: nat, c: seq<bit>, d: seq<bit>)
    ensures At(b, p, c + d) <==> At(b, p, c) && At(b, p + |c|, d)
  {
    if p + |c| + |d| <= |b| {
      var x, y := b[p..p + |c|], b[p + |c|..p + |c| + |d|];
      assert b[p..p + |c + d|] == x + y;
      assert (x + y)[..|c|] == x && (c + d)[..|c|] == c;
      assert (x + y)[|c|..] == y && (c + d)[|c|..] == d;
    }
  }
}
