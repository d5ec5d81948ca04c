/**
 The constants and conventions of the decoder, each stated by the rule of RFC 1951 that fixes it and
 not by the tables and functions of the model.
 */
module InflateStandard {
  import opened Bits
  import opened Canonical
  import opened Deflate
  import opened DeflateGrammar

  // ----- bit orders (section 3.1.1) -----

  lemma {:induction false} LsbBitsAt(v: nat, n: nat, j: nat)
    requires j < n
    ensures LsbBits(v, n)[j] == v / Pow2(j) % 2
  {
    if j > 0 {
      LsbBitsAt(v / 2, n - 1, j - 1);
      DivideTwice(v, Pow2(j - 1));
    }
  }

  lemma {:induction false} MsbBitsAt(v: nat, n: nat, j: nat)
    requires j < n
    ensures MsbBits(v, n)[n - 1 - j] == v / Pow2(j) % 2
  {
    if j > 0 {
      MsbBitsAt(v / 2, n - 1, j - 1);
      DivideTwice(v, Pow2(j - 1));
    }
  }

  lemma DivideTwice(v: nat, d: nat)
    requires d > 0
    ensures v / 2 / d == v / (2 * d)
  {
    var h, q, r := v / 2, v / 2 / d, v / 2 % d;
    var low := v % 2;
    assert h == d * q + r && v == 2 * h + low;
    DoubleQuotient(d, q, r, low);
    DivModUnique(v, 2 * d, q, 2 * r + low);
  }

  lemma DoubleQuotient(d: nat, q: nat, r: nat, low: nat)
    ensures 2 * (d * q + r) + low == 2 * d * q + (2 * r + low)
  {
  }

  /** The bits of a byte come least significant first. */
  lemma BitOfByte(s: seq<byte>, k: nat, j: nat)
    requires k < |s| && j < 8
    ensures BitsOf(s)[8 * k + j] == s[k] / Pow2(j) % 2
  {
    hide LsbBits, Pow2;
    BitPlace(k, j);
    LsbBitsAt(s[k], 8, j);
  }

  /** A number in the stream comes least significant bit first. */
  lemma BitOfNumber(b: seq<bit>, p: nat, n: nat, j: nat)
    requires p + n <= |b| && j < n
    ensures Take(b, p, n).Got? && Take(b, p, n).value / Pow2(j) % 2 == b[p + j]
  {
    hide Lsb, LsbBits, Pow2;
    var c := b[p..p + n];
    BitsOfLsb(c);
    LsbBitsAt(Lsb(c), n, j);
  }

  /** A Huffman code comes most significant bit first. */
  lemma BitOfCode(ls: Lengths, s: nat, j: nat)
    requires s < |ls| && j < ls[s]
    ensures CodeBits(ls, s)[ls[s] - 1 - j] == Code(ls, s) / Pow2(j) % 2
  {
    hide MsbBits, Pow2, Code;
    MsbBitsAt(Code(ls, s), ls[s], j);
  }

  // ----- the order of codes (section 3.2.2) -----

  lemma {:induction false} LongerCodesLater(ls: Lengths, l: nat, m: nat)
    requires 0 < l < m <= MAX_BITS
    ensures (FirstCode(ls, l) + Count(ls, l)) * Pow2(MAX_BITS - l) <= FirstCode(ls, m) * Pow2(MAX_BITS - m)
    decreases m
  {
    hide Count;
    if l + 1 == m {
      DoubleProduct(FirstCode(ls, l) + Count(ls, l), Pow2(MAX_BITS - m));
    } else {
      LongerCodesLater(ls, l, m - 1);
      var f, c, w := FirstCode(ls, m - 1), Count(ls, m - 1), Pow2(MAX_BITS - m);
      DoubleProduct(f + c, w);
      DoubleProduct(f, w);
      ProductMonotone(2 * f, 2 * (f + c), w);
    }
  }

  lemma DoubleProduct(a: nat, w: nat)
    ensures a * (2 * w) == 2 * a * w
  {
  }

  /** Shorter codes come before longer ones, and codes of one length are in the order of their symbols. */
  lemma CodeOrder(ls: Lengths, s: nat, t: nat)
    requires IsSymbol(ls, s) && IsSymbol(ls, t) && (ls[s] < ls[t] || (ls[s] == ls[t] && s < t))
    ensures (Code(ls, s) + 1) * Pow2(MAX_BITS - ls[s]) <= Code(ls, t) * Pow2(MAX_BITS - ls[t])
  {
    hide Count, FirstCode, Pow2;
    RankBelowCount(ls, s);
    if ls[s] == ls[t] {
      RankStrict(ls, s, t);
      ProductMonotone(Code(ls, s) + 1, Code(ls, t), Pow2(MAX_BITS - ls[t]));
    } else {
      LongerCodesLater(ls, ls[s], ls[t]);
      ProductMonotone(Code(ls, s) + 1, FirstCode(ls, ls[s]) + Count(ls, ls[s]), Pow2(MAX_BITS - ls[s]));
      ProductMonotone(FirstCode(ls, ls[t]), Code(ls, t), Pow2(MAX_BITS - ls[t]));
    }
  }

  // ----- the fixed codes (section 3.2.6) -----

  lemma {:induction false} CountOfRun(ls: Lengths, x: codelen, n: nat, l: nat)
    ensures Count(ls + Run(x, n), l) == Count(ls, l) + if x == l then n else 0
  {
    if n == 0 {
      assert ls + Run(x, 0) == ls;
    } else {
      var r := ls + Run(x, n - 1);
      CountOfRun(ls, x, n - 1, l);
      assert ls + Run(x, n) == r + [x];
      assert (r + [x])[..|r|] == r;
    }
  }

  function FixedRuns(a: nat, b: nat, c: nat, d: nat): Lengths {
    Run(8, a) + Run(9, b) + Run(7, c) + Run(8, d)
  }

  lemma CountOfRuns(a: nat, b: nat, c: nat, d: nat, l: nat)
    ensures Count(FixedRuns(a, b, c, d), l) ==
            (if l == 8 then a + d else 0) + (if l == 9 then b else 0) + (if l == 7 then c else 0)
  {
    hide Run;
    CountOfRun([], 8, a, l);
    CountOfRun(Run(8, a), 9, b, l);
    CountOfRun(Run(8, a) + Run(9, b), 7, c, l);
    CountOfRun(Run(8, a) + Run(9, b) + Run(7, c), 8, d, l);
    assert [] + Run(8, a) == Run(8, a);
  }

  lemma RunPrefix(x: codelen, n: nat, k: nat)
    requires k <= n
    ensures Run(x, n)[..k] == Run(x, k)
  {
    hide Run;
    assert forall i :: 0 <= i < k ==> Run(x, n)[..k][i] == x == Run(x, k)[i];
  }

  /** The lengths of the symbols below `s`. */
  lemma FixedPrefix(s: nat)
    requires s <= 288
    ensures FixedLiterals()[..s] ==
            if s <= 144 then FixedRuns(s, 0, 0, 0)
            else if s <= 256 then FixedRuns(144, s - 144, 0, 0)
            else if s <= 280 then FixedRuns(144, 112, s - 256, 0)
            else FixedRuns(144, 112, 24, s - 280)
  {
    hide Run;
    forall x: codelen
      ensures Run(x, 0) == []
    {
    }
    var r := if s <= 144 then FixedRuns(s, 0, 0, 0)
             else if s <= 256 then FixedRuns(144, s - 144, 0, 0)
             else if s <= 280 then FixedRuns(144, 112, s - 256, 0)
             else FixedRuns(144, 112, 24, s - 280);
    assert |r| == s;
    forall i | 0 <= i < s
      ensures FixedLiterals()[i] == r[i]
    {
      FixedLiteralAt(i);
    }
  }

  lemma FixedCount(l: nat)
    ensures Count(FixedLiterals(), l) == if l == 7 then 24 else if l == 8 then 152 else if l == 9 then 112 else 0
  {
    hide Count, FixedRuns;
    FixedPrefix(288);
    assert FixedLiterals()[..288] == FixedLiterals();
    CountOfRuns(144, 112, 24, 8, l);
  }

  lemma FixedFirstCodes()
    ensures FirstCode(FixedLiterals(), 7) == 0
    ensures FirstCode(FixedLiterals(), 8) == 48
    ensures FirstCode(FixedLiterals(), 9) == 400
  {
    hide Count, FixedLiterals;
    var ls := FixedLiterals();
    forall l: nat
      ensures Count(ls, l) == if l == 7 then 24 else if l == 8 then 152 else if l == 9 then 112 else 0
    {
      FixedCount(l);
    }
    assert FirstCode(ls, 3) == 0;
    assert FirstCode(ls, 5) == 0;
    assert FirstCode(ls, 7) == 0;
  }

  /** The table of the fixed literal and length codes. */
  lemma FixedLiteralCodes(s: nat)
    requires s < 288
    ensures FixedLiterals()[s] == if s < 144 then 8 else if s < 256 then 9 else if s < 280 then 7 else 8
    ensures Code(FixedLiterals(), s) ==
            if s < 144 then 48 + s
            else if s < 256 then 400 + (s - 144)
            else if s < 280 then s - 256
            else 192 + (s - 280)
  {
    hide Count, FixedRuns, FirstCode, FixedLiterals;
    FixedLiteralAt(s);
    FixedFirstCodes();
    FixedPrefix(s);
    var l := FixedLiterals()[s];
    CountOfRuns(s, 0, 0, 0, l);
    if s >= 144 {
      CountOfRuns(144, s - 144, 0, 0, l);
    }
    if s >= 256 {
      CountOfRuns(144, 112, s - 256, 0, l);
    }
    if s >= 280 {
      CountOfRuns(144, 112, 24, s - 280, l);
    }
  }

  /** Fixed distance codes are the five-bit numbers of their symbols. */
  lemma FixedDistanceCodes(d: nat)
    requires d < 30
    ensures FixedDistances()[d] == 5 && Code(FixedDistances(), d) == d
  {
    hide Count, Run;
    forall l: nat, n: nat
      ensures Count(Run(5, n), l) == if l == 5 then n else 0
    {
      CountOfRun([], 5, n, l);
      assert [] + Run(5, n) == Run(5, n);
      NoCount(l);
    }
    RunPrefix(5, 30, d);
    assert FirstCode(Run(5, 30), 3) == 0;
    assert FirstCode(Run(5, 30), 5) == 0;
  }

  lemma NoCount(l: nat)
    ensures Count([], l) == 0
  {
  }

  // ----- the run-length code for code lengths (section 3.2.7) -----

  /** The steps of the standard, with two, three and seven extra bits. */
  predicate Step(op: LenOp) {
    || (op.sym < 16 && op.extra == 0)
    || (op.sym == 16 && op.extra < 4)
    || (op.sym == 17 && op.extra < 8)
    || (op.sym == 18 && op.extra < 128)
  }

  lemma StepsAre(op: LenOp)
    ensures op.sym < 19 && op.extra < Pow2(OpBits(op.sym)) <==> Step(op)
  {
    TablePowers();
    hide Pow2;
  }

  function Repeated(x: codelen, n: nat): (ls: Lengths)
    ensures |ls| == n
  {
    seq(n, (i: int) => x)
  }

  lemma RunIsRepeated(x: codelen, n: nat)
    ensures Run(x, n) == Repeated(x, n)
  {
  }

  /** Three to 138 zeros are one step, and only one: symbol 17 up to ten, symbol 18 above. */
  lemma ZerosStep(acc: Lengths, n: nat, op: LenOp)
    requires 3 <= n <= 138 && Step(op) && (op.sym == 17 || op.sym == 18)
    ensures ApplyOp(acc, op) == acc + Repeated(0, n) <==>
            op == if n <= 10 then LenOp(17, n - 3) else LenOp(18, n - 11)
  {
    RunIsRepeated(0, OpCount(op));
    if ApplyOp(acc, op) == acc + Repeated(0, n) {
      assert |acc + Run(0, OpCount(op))| == |acc + Repeated(0, n)|;
    }
  }

  /** Three to six copies of the last length are one step of symbol 16, and only one. */
  lemma RepeatStep(acc: Lengths, n: nat, op: LenOp)
    requires acc != [] && 3 <= n <= 6 && Step(op) && op.sym == 16
    ensures ApplyOp(acc, op) == acc + Repeated(acc[|acc| - 1], n) <==> op == LenOp(16, n - 3)
  {
    var x := acc[|acc| - 1];
    RunIsRepeated(x, OpCount(op));
    if ApplyOp(acc, op) == acc + Repeated(x, n) {
      assert |acc + Run(x, OpCount(op))| == |acc + Repeated(x, n)|;
    }
  }

  /** A length is its own step. */
  lemma LengthStep(acc: Lengths, op: LenOp)
    requires Step(op) && op.sym < 16
    ensures ApplyOp(acc, op) == acc + [op.sym as codelen]
  {
    assert Run(op.sym, 1) == Run(op.sym, 0) + [op.sym as codelen];
  }

  // ----- the header of a dynamic block (section 3.2.7) -----

  /** The listing begins with 16, 17, 18, 0 and then goes outwards from 8: 8, 7, 9, 6, 10, and so on. */
  lemma OrderRule()
    ensures |ORDER| == 19 && ORDER[..4] == [16, 17, 18, 0]
    ensures forall k :: 0 <= k < 8 ==> ORDER[4 + 2 * k] == 8 + k
    ensures forall k :: 0 <= k < 7 ==> ORDER[5 + 2 * k] == 7 - k
  {
    assert forall k :: k in [0, 1, 2, 3, 4, 5, 6, 7] ==> ORDER[4 + 2 * k] == 8 + k;
    assert forall k :: k in [0, 1, 2, 3, 4, 5, 6] ==> ORDER[5 + 2 * k] == 7 - k;
  }

  /** The numbers listed are the lengths of the symbols at their places in that order; the others are zero. */
  lemma PreLengthsAt(pre: seq<nat>, i: nat)
    requires |pre| <= 19 && i < 19 && forall k :: 0 <= k < |pre| ==> pre[k] < 8
    ensures ORDER[i] < 19 && PreLengths(pre)[ORDER[i]] == if i < |pre| then pre[i] else 0
  {
    hide ORDER, PLACE;
    OrderIsPermutation();
  }

  lemma SplitNumber(b: seq<bit>, p: nat, m: nat, n: nat)
    requires p + m + n <= |b|
    ensures Take(b, p, m).Got? && Take(b, p + m, n).Got? && Take(b, p, m + n).Got?
    ensures Take(b, p, m + n).value == Take(b, p, m).value + Pow2(m) * Take(b, p + m, n).value
  {
    hide Lsb, Pow2;
    var x, y := b[p..p + m], b[p + m..p + m + n];
    assert b[p..p + (m + n)] == x + y && |x| == m;
    LsbConcat(x, y);
  }

  /** The counts are five, five and four bits: more than 257, 1 and 4. */
  lemma CountsInNumbers(b: seq<bit>, p: nat)
    requires p + 14 <= |b|
    ensures var v := Take(b, p, 14).value;
            var n := Counts(257 + v % 32, 1 + v / 32 % 32, 4 + v / 1024);
            ReadCounts(b, p) == if n.nlen > 286 || n.ndist > 30 then Bad(-4, p + 14) else Got(n, p + 14)
  {
    hide Lsb, Pow2, Take;
    TablePowers();
    SplitNumber(b, p, 5, 9);
    SplitNumber(b, p + 5, 5, 4);
    TakesAll(b, p, 5);
    TakesAll(b, p + 5, 5);
    TakesAll(b, p + 10, 4);
    var x, y, z := Take(b, p, 5).value, Take(b, p + 5, 5).value, Take(b, p + 10, 4).value;
    ThreeDigits(x, y, z);
  }

  lemma TakesAll(b: seq<bit>, p: nat, n: nat)
    requires p + n <= |b|
    ensures Take(b, p, n).Got? && Take(b, p, n).pos == p + n && Take(b, p, n).value < Pow2(n)
  {
    hide Lsb, Pow2;
  }

  lemma ThreeDigits(x: nat, y: nat, z: nat)
    requires x < 32 && y < 32
    ensures var v := x + 32 * (y + 32 * z);
            v % 32 == x && v / 32 % 32 == y && v / 1024 == z
  {
    var v := x + 32 * (y + 32 * z);
    assert v / 32 == y + 32 * z;
  }

  /** A block begins with the flag of the last block and two bits for its type. */
  lemma HeaderInNumbers(b: seq<bit>, p: nat)
    requires p + 3 <= |b|
    ensures var v := Take(b, p, 3).value;
            ReadHeader(b, p) == Got(Header(v % 2 == 1, v / 2), p + 3)
  {
    hide Lsb, Pow2;
    TablePowers();
    SplitNumber(b, p, 1, 2);
  }

  // ----- matches (section 3.2.3) -----

  /**
   A match of a length and distance is accepted when the distance stays within the output and there is
   room; each of its bytes is the one that many places before it, those of the match itself included.
   */
  lemma MatchMeaning(len: nat, dist: nat, out: seq<byte>, limit: nat) returns (t: Token)
    requires 3 <= len <= 258 && 1 <= dist <= 32768
    ensures t.Match? && t.lsym < 29 && t.dsym < 30
    ensures TokenError(t, out, limit) == if dist > |out| then -6 else if |out| + len > limit then -1 else 0
    ensures dist <= |out| ==>
              && MatchDistance(t) <= |out|
              && var r := ApplyToken(t, out);
                 && |r| == |out| + len && r[..|out|] == out
                 && forall i :: |out| <= i < |r| ==> r[i] == r[i - dist]
  {
    hide LENS, DISTS;
    t := EveryMatchExpressible(len, dist);
    if dist <= |out| {
      Periodic(out, dist, len);
    }
  }

  lemma Periodic(out: seq<byte>, dist: nat, n: nat)
    requires 1 <= dist <= |out|
    ensures forall i :: |out| <= i < |out| + n ==> Extend(out, dist, n)[i] == Extend(out, dist, n)[i - dist]
  {
    var r := Extend(out, dist, n);
    forall i | |out| <= i < |out| + n
      ensures r[i] == r[i - dist]
    {
      var k := i - |out|;
      if k >= dist {
        var q := (k - dist) / dist;
        DivModUnique(k, dist, q + 1, (k - dist) % dist);
      } else {
        DivModUnique(k, dist, 0, k);
      }
    }
  }

  function Literals(data: seq<byte>): (ts: seq<Token>)
    ensures forall i :: 0 <= i < |ts| ==> ts[i].Literal?
  {
    if |data| == 0 then [] else [Literal(data[0])] + Literals(data[1..])
  }

  /** Literals are the bytes they name. */
  lemma {:induction false} LiteralsMean(data: seq<byte>, out: seq<byte>)
    ensures ExpandTokens(Literals(data), out) == Some(out + data)
    decreases |data|
  {
    if |data| == 0 {
      assert out + data == out;
    } else {
      LiteralsMean(data[1..], out + [data[0]]);
      assert Literals(data)[1..] == Literals(data[1..]);
      Regroup(out, [data[0]], data[1..]);
      assert [data[0]] + data[1..] == data;
    }
  }

  /** The range of a length symbol: its first length and how many extra bits it has. */
  function LengthRange(l: nat): (nat, nat) {
    if l < 8 then (3 + l, 0)
    else if l == 28 then (258, 0)
    else (3 + (4 + l % 4) * Pow2((l - 4) / 4), (l - 4) / 4)
  }

  /** The range of a distance symbol. */
  function DistanceRange(d: nat): (nat, nat) {
    if d < 4 then (1 + d, 0) else (1 + (2 + d % 2) * Pow2((d - 2) / 2), (d - 2) / 2)
  }

  /** Lengths and distances of all symbols, by formula. */
  lemma MatchesInNumbers(t: Token)
    requires t.Match? && t.lsym < 29 && t.dsym < 30
    ensures MatchLength(t) == LengthRange(t.lsym).0 + t.lextra && LEXT[t.lsym] == LengthRange(t.lsym).1
    ensures MatchDistance(t) == DistanceRange(t.dsym).0 + t.dextra && DEXT[t.dsym] == DistanceRange(t.dsym).1
  {
    hide LENS, LEXT, DISTS, DEXT, LengthRange, DistanceRange;
    LengthBase(t.lsym);
    DistanceBase(t.dsym);
  }

  lemma {:induction false} LengthBase(l: nat)
    requires l < 29
    ensures LENS[l] == LengthRange(l).0 && LEXT[l] == LengthRange(l).1
  {
    hide LENS, LEXT, LengthRule;
    LengthTable();
    if 0 < l < 28 {
      LengthBase(l - 1);
    }
    NextLength(l);
  }

  lemma NextLength(l: nat)
    requires l < 29 && LengthRule(l)
    requires 0 < l < 28 ==> LENS[l - 1] == LengthRange(l - 1).0 && LEXT[l - 1] == LengthRange(l - 1).1
    ensures LENS[l] == LengthRange(l).0 && LEXT[l] == LengthRange(l).1
  {
    hide LENS, LEXT, Pow2;
    TablePowers();
    if 8 <= l < 28 {
      var e := (l - 4) / 4;
      assert e in [1, 2, 3, 4, 5];
    }
  }

  lemma {:induction false} DistanceBase(d: nat)
    requires d < 30
    ensures DISTS[d] == DistanceRange(d).0 && DEXT[d] == DistanceRange(d).1
  {
    hide DISTS, DEXT, DistanceRule;
    DistanceTable();
    if 0 < d {
      DistanceBase(d - 1);
    }
    NextDistance(d);
  }

  lemma NextDistance(d: nat)
    requires d < 30 && DistanceRule(d)
    requires 0 < d ==> DISTS[d - 1] == DistanceRange(d - 1).0 && DEXT[d - 1] == DistanceRange(d - 1).1
    ensures DISTS[d] == DistanceRange(d).0 && DEXT[d] == DistanceRange(d).1
  {
    hide DISTS, DEXT, Pow2;
    TablePowers();
    if d >= 4 {
      var e := (d - 2) / 2;
      Doubles(e);
      if d % 2 == 0 {
        assert (d - 3) / 2 == e - 1;
      } else {
        assert (d - 3) / 2 == e;
      }
    }
  }

  lemma Doubles(e: nat)
    requires e > 0
    ensures Pow2(e) == 2 * Pow2(e - 1)
  {
  }

  /** Behind a length symbol come its extra bits, a distance symbol, and the extra bits of that. */
  lemma MatchInOrder(ll: Lengths, dl: Lengths, b: seq<bit>, p: nat, q: nat, lsym: nat, q1: nat, dsym: nat, q2: nat)
    requires |dl| <= 30 && lsym < 29 && ReadSymbol(ll, b, p) == Got(257 + lsym, q)
    requires q1 == q + LEXT[lsym] && ReadSymbol(dl, b, q1) == Got(dsym, q2) && q2 + DEXT[dsym] <= |b|
    ensures ReadToken(ll, dl, b, p) ==
            Got(Match(lsym, Take(b, q, LEXT[lsym]).value, dsym, Take(b, q2, DEXT[dsym]).value), q2 + DEXT[dsym])
  {
    hide ReadSymbol, LEXT, DEXT, Lsb;
  }

  // ----- error numbers -----

  /** Symbols 286 and 287 of the fixed code have no length: error -5. */
  lemma NoSuchLength(ll: Lengths, dl: Lengths, b: seq<bit>, p: nat, s: nat, q: nat)
    requires |dl| <= 30 && ReadSymbol(ll, b, p) == Got(s, q) && s >= 286
    ensures ReadToken(ll, dl, b, p) == Bad(-5, q)
  {
    hide ReadSymbol;
  }

  /** A repeat as the first step, and a run beyond the total, are error -4. */
  lemma BadRuns(cl: Lengths, b: seq<bit>, p: nat, q: nat, acc: Lengths, total: nat)
    requires |cl| == 19 && p <= |b| && |acc| < total
    ensures ReadSymbol(cl, b, p) == Got(16, q) && acc == [] ==> ReadLengths(cl, b, p, acc, total) == Bad(-4, q)
    ensures forall op: LenOp :: ReadOp(cl, b, p, acc == []) == Got(op, q) && |acc| + OpCount(op) > total ==>
              ReadLengths(cl, b, p, acc, total) == Bad(-4, q)
  {
    hide ReadSymbol;
  }

  /** A code without an end of block is error -9; a code that is not complete, unless it has one symbol, is error -4. */
  lemma BadCodes(b: seq<bit>, p: nat, n: Counts, p1: nat, cl: Lengths, p2: nat, ls: Lengths, p3: nat)
    requires ReadCounts(b, p) == Got(n, p1) && ReadPreCode(b, p1, n.ncode) == Got(cl, p2)
    requires ReadLengths(cl, b, p2, [], n.nlen + n.ndist) == Got(ls, p3)
    ensures ls[256] == 0 ==> ReadTables(b, p) == Bad(-9, p3)
    ensures ls[256] != 0 && !(Usable(ls[..n.nlen]) && Usable(ls[n.nlen..])) ==> ReadTables(b, p) == Bad(-4, p3)
    ensures ls[256] != 0 && Usable(ls[..n.nlen]) && Usable(ls[n.nlen..]) ==>
              ReadTables(b, p) == Got(Tables(ls[..n.nlen], ls[n.nlen..]), p3)
  {
    hide ReadCounts, ReadPreCode, ReadLengths, Usable;
  }

  /** Which codes are usable, by their Kraft sums: a full one, none at all, or a single symbol. */
  lemma UsableInNumbers(ls: Lengths)
    ensures Usable(ls) <==>
            Kraft(ls) == 32768 || Count(ls, 0) == |ls| || (Kraft(ls) < 32768 && Count(ls, 0) == |ls| - 1)
  {
    hide Left, Kraft, Count, Pow2;
    LeftIsKraftGap(ls);
    Powers();
  }
}
