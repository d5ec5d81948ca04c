/**
 A whole dynamic block, bit by bit: its header uses every kind of run-length step, a run crosses from
 the literal to the distance lengths, and its match overlaps itself.  It inflates to aaaa.
 */
module DynamicExample {
  import opened Bits
  import opened Canonical
  import opened Deflate
  import opened DeflateGrammar
  import opened InflateStandard
  import opened InflateExamples

  // ----- lists of runs -----

  /** Lengths given as runs: a length and how often. */
  function Runs(rs: seq<(codelen, nat)>): Lengths {
    if |rs| == 0 then [] else Runs(rs[..|rs| - 1]) + Run(rs[|rs| - 1].0, rs[|rs| - 1].1)
  }

  function CountRuns(rs: seq<(codelen, nat)>, l: nat): nat {
    if |rs| == 0 then 0 else CountRuns(rs[..|rs| - 1], l) + if rs[|rs| - 1].0 == l then rs[|rs| - 1].1 else 0
  }

  function KraftRuns(rs: seq<(codelen, nat)>): nat {
    if |rs| == 0 then 0
    else
      KraftRuns(rs[..|rs| - 1])
      + if rs[|rs| - 1].0 == 0 then 0 else rs[|rs| - 1].1 * Pow2(MAX_BITS - rs[|rs| - 1].0)
  }

  lemma {:induction false} RunsCount(rs: seq<(codelen, nat)>, l: nat)
    ensures Count(Runs(rs), l) == CountRuns(rs, l)
    decreases |rs|
  {
    hide Run;
    if |rs| == 0 {
      NoCount(l);
    } else {
      hide Count;
      var n := |rs| - 1;
      RunsCount(rs[..n], l);
      CountOfRun(Runs(rs[..n]), rs[n].0, rs[n].1, l);
    }
  }

  lemma {:induction false} RunsKraft(rs: seq<(codelen, nat)>)
    ensures Kraft(Runs(rs)) == KraftRuns(rs)
    decreases |rs|
  {
    if |rs| > 0 {
      hide Run, Pow2, Kraft;
      var n := |rs| - 1;
      RunsKraft(rs[..n]);
      if rs[n].0 == 0 {
        KraftOfZeros(Runs(rs[..n]), rs[n].1);
      } else {
        KraftOfRun(Runs(rs[..n]), rs[n].0, rs[n].1);
      }
    }
  }

  lemma {:induction false} KraftOfZeros(ls: Lengths, n: nat)
    ensures Kraft(ls + Run(0, n)) == Kraft(ls)
  {
    if n == 0 {
      assert ls + Run(0, 0) == ls;
    } else {
      var r := ls + Run(0, n - 1);
      KraftOfZeros(ls, n - 1);
      assert ls + Run(0, n) == r + [0];
      assert (r + [0])[..|r|] == r;
    }
  }

  /** Runs in front of one more. */
  lemma OneMoreRun(rs: seq<(codelen, nat)>, x: codelen, n: nat)
    ensures Runs(rs + [(x, n)]) == Runs(rs) + Run(x, n)
    ensures forall l: nat :: CountRuns(rs + [(x, n)], l) == CountRuns(rs, l) + if x == l then n else 0
    ensures KraftRuns(rs + [(x, n)]) == KraftRuns(rs) + if x == 0 then 0 else n * Pow2(MAX_BITS - x)
  {
    hide Run, Pow2;
    assert (rs + [(x, n)])[..|rs|] == rs;
  }

  lemma NoRuns()
    ensures Runs([]) == [] && KraftRuns([]) == 0 && forall l: nat :: CountRuns([], l) == 0
  {
  }

  // ----- the three codes -----

  /** Symbols 1, 17 and 18 with two bits, 2 and 16 with three. */
  function PreRuns(): seq<(codelen, nat)> {
    [] + [(0, 1)] + [(2, 1)] + [(3, 1)] + [(0, 13)] + [(3, 1)] + [(2, 2)]
  }

  /** The letter a with one bit, end of block and length 3 with two. */
  function LiteralRuns(): seq<(codelen, nat)> {
    [] + [(0, 97)] + [(1, 1)] + [(0, 158)] + [(2, 2)]
  }

  /** Four distances with two bits each. */
  function DistanceRuns(): seq<(codelen, nat)> {
    [] + [(2, 4)]
  }

  lemma PreSums()
    ensures Runs(PreRuns()) == Run(0, 1) + Run(2, 1) + Run(3, 1) + Run(0, 13) + Run(3, 1) + Run(2, 2)
    ensures KraftRuns(PreRuns()) == 32768
    ensures CountRuns(PreRuns(), 1) == 0 && CountRuns(PreRuns(), 2) == 3
  {
    hide Run, Runs, CountRuns, KraftRuns, Pow2;
    NoRuns();
    OneMoreRun([], 0, 1);
    OneMoreRun([] + [(0, 1)], 2, 1);
    OneMoreRun([] + [(0, 1)] + [(2, 1)], 3, 1);
    OneMoreRun([] + [(0, 1)] + [(2, 1)] + [(3, 1)], 0, 13);
    OneMoreRun([] + [(0, 1)] + [(2, 1)] + [(3, 1)] + [(0, 13)], 3, 1);
    OneMoreRun([] + [(0, 1)] + [(2, 1)] + [(3, 1)] + [(0, 13)] + [(3, 1)], 2, 2);
    TablePowers();
    assert [] + Run(0, 1) == Run(0, 1);
  }

  lemma LiteralSums()
    ensures Runs(LiteralRuns()) == Run(0, 97) + Run(1, 1) + Run(0, 158) + Run(2, 2)
    ensures KraftRuns(LiteralRuns()) == 32768
    ensures CountRuns(LiteralRuns(), 1) == 1
  {
    hide Run, Runs, CountRuns, KraftRuns, Pow2;
    NoRuns();
    OneMoreRun([], 0, 97);
    OneMoreRun([] + [(0, 97)], 1, 1);
    OneMoreRun([] + [(0, 97)] + [(1, 1)], 0, 158);
    OneMoreRun([] + [(0, 97)] + [(1, 1)] + [(0, 158)], 2, 2);
    TablePowers();
    Thirteen();
    assert [] + Run(0, 97) == Run(0, 97);
  }

  lemma Thirteen()
    ensures Pow2(14) == 16384 && Pow2(15) == 32768
  {
    TablePowers();
  }

  lemma DistanceSums()
    ensures Runs(DistanceRuns()) == Run(2, 4)
    ensures KraftRuns(DistanceRuns()) == 32768
    ensures CountRuns(DistanceRuns(), 1) == 0
  {
    hide Run, Runs, CountRuns, KraftRuns, Pow2;
    NoRuns();
    OneMoreRun([], 2, 4);
    TablePowers();
    assert [] + Run(2, 4) == Run(2, 4);
  }

  lemma KraftOneIsComplete(rs: seq<(codelen, nat)>)
    requires KraftRuns(rs) == 32768
    ensures Left(Runs(rs), MAX_BITS) == 0
  {
    hide Left, Runs, KraftRuns, Pow2;
    RunsKraft(rs);
    LeftIsKraftGap(Runs(rs));
    Thirteen();
  }

  function Pre(): (ls: Lengths)
    ensures |ls| == 19
  {
    Run(0, 1) + Run(2, 1) + Run(3, 1) + Run(0, 13) + Run(3, 1) + Run(2, 2)
  }

  function Literals(): (ls: Lengths)
    ensures |ls| == 258
  {
    Run(0, 97) + Run(1, 1) + Run(0, 158) + Run(2, 2)
  }

  function Distances(): (ls: Lengths)
    ensures |ls| == 4
  {
    Run(2, 4)
  }

  lemma AllComplete()
    ensures Left(Pre(), MAX_BITS) == 0 && Left(Literals(), MAX_BITS) == 0 && Left(Distances(), MAX_BITS) == 0
  {
    hide Left, Runs, KraftRuns, Run, CountRuns;
    PreSums();
    LiteralSums();
    DistanceSums();
    KraftOneIsComplete(PreRuns());
    KraftOneIsComplete(LiteralRuns());
    KraftOneIsComplete(DistanceRuns());
  }

  /** The code of a symbol from the first code of its length and the runs in front of it. */
  lemma CodeFromRuns(ls: Lengths, s: nat, rs: seq<(codelen, nat)>)
    requires s < |ls| && ls[..s] == Runs(rs)
    ensures Code(ls, s) == FirstCode(ls, ls[s]) + CountRuns(rs, ls[s])
  {
    hide Count, Runs, CountRuns, FirstCode;
    RunsCount(rs, ls[s]);
  }

  lemma FirstCodes(ls: Lengths)
    ensures FirstCode(ls, 1) == 0
    ensures FirstCode(ls, 2) == 2 * Count(ls, 1)
    ensures FirstCode(ls, 3) == 2 * (2 * Count(ls, 1) + Count(ls, 2))
  {
    hide Count;
    assert FirstCode(ls, 2) == 2 * (FirstCode(ls, 1) + Count(ls, 1));
  }

  lemma PreAt()
    ensures Pre()[1] == 2 && Pre()[2] == 3 && Pre()[16] == 3 && Pre()[17] == 2 && Pre()[18] == 2
  {
    hide Run;
  }

  lemma PreCodes()
    ensures Code(Pre(), 1) == 0 && Code(Pre(), 17) == 1 && Code(Pre(), 18) == 2
    ensures Code(Pre(), 2) == 6 && Code(Pre(), 16) == 7
  {
    hide Run, Runs, CountRuns, KraftRuns, Code, FirstCode, Count, Pow2;
    PreAt();
    PreSums();
    RunsCount(PreRuns(), 1);
    RunsCount(PreRuns(), 2);
    FirstCodes(Pre());
    NoRuns();
    var r1 := [] + [(0 as codelen, 1)];
    var r2 := r1 + [(2, 1)];
    var r3 := r2 + [(3, 1)];
    var r4 := r3 + [(0, 13)];
    var r5 := r4 + [(3, 1)];
    OneMoreRun([], 0, 1);
    OneMoreRun(r1, 2, 1);
    OneMoreRun(r2, 3, 1);
    OneMoreRun(r3, 0, 13);
    OneMoreRun(r4, 3, 1);
    OneMoreRun(r5, 2, 1);
    assert [] + Run(0, 1) == Run(0, 1);
    PrePrefixes();
    CodeFromRuns(Pre(), 1, r1);
    CodeFromRuns(Pre(), 2, r2);
    CodeFromRuns(Pre(), 16, r4);
    CodeFromRuns(Pre(), 17, r5);
    CodeFromRuns(Pre(), 18, r5 + [(2, 1)]);
  }

  lemma PrePrefixes()
    ensures Pre()[..1] == Run(0, 1)
    ensures Pre()[..2] == Run(0, 1) + Run(2, 1)
    ensures Pre()[..16] == Run(0, 1) + Run(2, 1) + Run(3, 1) + Run(0, 13)
    ensures Pre()[..17] == Run(0, 1) + Run(2, 1) + Run(3, 1) + Run(0, 13) + Run(3, 1)
    ensures Pre()[..18] == Run(0, 1) + Run(2, 1) + Run(3, 1) + Run(0, 13) + Run(3, 1) + Run(2, 1)
  {
    hide Run;
  }

  lemma LiteralAt()
    ensures Literals()[97] == 1 && Literals()[256] == 2 && Literals()[257] == 2
  {
    hide Run;
  }

  lemma LiteralPrefixes()
    ensures Literals()[..97] == Run(0, 97)
    ensures Literals()[..256] == Run(0, 97) + Run(1, 1) + Run(0, 158)
    ensures Literals()[..257] == Run(0, 97) + Run(1, 1) + Run(0, 158) + Run(2, 1)
  {
    hide Run;
  }

  lemma LiteralCodes()
    ensures Code(Literals(), 97) == 0 && Code(Literals(), 256) == 2 && Code(Literals(), 257) == 3
  {
    hide Run, Runs, CountRuns, KraftRuns, Code, FirstCode, Count, Pow2;
    LiteralAt();
    LiteralSums();
    RunsCount(LiteralRuns(), 1);
    FirstCodes(Literals());
    NoRuns();
    var r1 := [] + [(0 as codelen, 97)];
    var r2 := r1 + [(1, 1)];
    var r3 := r2 + [(0, 158)];
    OneMoreRun([], 0, 97);
    OneMoreRun(r1, 1, 1);
    OneMoreRun(r2, 0, 158);
    OneMoreRun(r3, 2, 1);
    assert [] + Run(0, 97) == Run(0, 97);
    LiteralPrefixes();
    CodeFromRuns(Literals(), 97, r1);
    CodeFromRuns(Literals(), 256, r3);
    CodeFromRuns(Literals(), 257, r3 + [(2, 1)]);
  }

  lemma DistanceCode()
    ensures Distances()[0] == 2 && Code(Distances(), 0) == 0
  {
    hide Run, Runs, CountRuns, KraftRuns, FirstCode, Count;
    DistanceSums();
    RunsCount(DistanceRuns(), 1);
    FirstCodes(Distances());
    NoRuns();
    assert Distances()[..0] == [];
    CodeFromRuns(Distances(), 0, []);
  }

  // ----- the header -----

  function Zeros(n: nat): seq<bit> {
    seq(n, (i: int) => 0)
  }

  /** The numbers in the order 16, 17, 18, 0, 8, 7, 9, 6, 10, 5, 11, 4, 12, 3, 13, 2, 14, 1. */
  function Listed(): seq<nat> {
    [3, 2, 2, 0, 0, 0, 0, 0, 0, 0, 0, 0, 0, 0, 0, 3, 0, 2]
  }

  lemma PreValues(s: nat)
    requires s < 19
    ensures Pre()[s] == if s == 2 || s == 16 then 3 else if s == 1 || s >= 17 then 2 else 0
  {
    hide Run;
  }

  /** The number listed for a symbol. */
  lemma ListedFor(s: nat)
    requires s < 19
    ensures PLACE[s] < 19
    ensures (if PLACE[s] < 18 then Listed()[PLACE[s]] else 0) ==
            if s == 2 || s == 16 then 3 else if s == 1 || s >= 17 then 2 else 0
  {
    if s < 7 {
      assert s in [0, 1, 2, 3, 4, 5, 6];
    } else if s < 13 {
      assert s in [7, 8, 9, 10, 11, 12];
    } else {
      assert s in [13, 14, 15, 16, 17, 18];
    }
  }

  lemma ListedIsPre()
    ensures PreLengths(Listed()) == Pre()
  {
    hide Pre, PLACE, Listed;
    ListedShape();
    forall s | 0 <= s < 19
      ensures PreLengths(Listed())[s] == Pre()[s]
    {
      PreValues(s);
      ListedFor(s);
    }
  }

  lemma ListedShape()
    ensures |Listed()| == 18 && forall i :: 0 <= i < 18 ==> Listed()[i] < 8
  {
  }

  lemma {:induction false} LsbBitsStep(v: nat, n: nat)
    ensures LsbBits(v, 0) == []
    ensures n > 0 ==> LsbBits(v, n) == [v % 2] + LsbBits(v / 2, n - 1)
  {
  }

  lemma SmallNumbers()
    ensures LsbBits(0, 3) == [0, 0, 0] && LsbBits(2, 3) == [0, 1, 0] && LsbBits(3, 3) == [1, 1, 0]
    ensures LsbBits(7, 3) == [1, 1, 1] && LsbBits(2, 2) == [0, 1] && LsbBits(1, 1) == [1]
  {
    hide LsbBits;
    LsbBitsStep(0, 3);
    LsbBitsStep(2, 3);
    LsbBitsStep(3, 3);
    LsbBitsStep(7, 3);
    LsbBitsStep(0, 2);
    LsbBitsStep(1, 2);
    LsbBitsStep(2, 2);
    LsbBitsStep(3, 2);
    LsbBitsStep(0, 1);
    LsbBitsStep(1, 1);
    LsbBitsStep(0, 0);
  }

  lemma CountNumbers()
    ensures LsbBits(1, 5) == [1, 0, 0, 0, 0] && LsbBits(3, 5) == [1, 1, 0, 0, 0] && LsbBits(14, 4) == [0, 1, 1, 1]
  {
    hide LsbBits;
    SmallNumbers();
    LsbBitsStep(1, 5);
    LsbBitsStep(0, 4);
    LsbBitsStep(3, 5);
    LsbBitsStep(1, 4);
    LsbBitsStep(14, 4);
    assert LsbBits(0, 4) == [0, 0, 0, 0];
    LsbBitsStep(1, 3);
    LsbBitsStep(0, 2);
    LsbBitsStep(0, 1);
    LsbBitsStep(0, 0);
  }

  lemma RunNumbers()
    ensures LsbBits(86, 7) == [0, 1, 1, 0, 1, 0, 1] && LsbBits(127, 7) == [1, 1, 1, 1, 1, 1, 1]
  {
    hide LsbBits;
    SmallNumbers();
    LsbBitsStep(86, 7);
    LsbBitsStep(43, 6);
    LsbBitsStep(21, 5);
    LsbBitsStep(10, 4);
    LsbBitsStep(5, 3);
    LsbBitsStep(2, 2);
    LsbBitsStep(127, 7);
    LsbBitsStep(63, 6);
    LsbBitsStep(31, 5);
    LsbBitsStep(15, 4);
    assert LsbBits(10, 4) == [0, 1, 0, 1];
  }

  lemma {:induction false} ThreesConcat(a: seq<nat>, b: seq<nat>)
    ensures EncodeThrees(a + b) == EncodeThrees(a) + EncodeThrees(b)
  {
    hide LsbBits;
    if |a| == 0 {
      assert a + b == b;
    } else {
      assert (a + b)[1..] == a[1..] + b;
      ThreesConcat(a[1..], b);
      Regroup(LsbBits(a[0], 3), EncodeThrees(a[1..]), EncodeThrees(b));
    }
  }

  lemma {:induction false} ThreesOfZeros(n: nat)
    ensures EncodeThrees(seq(n, (i: int) => 0)) == Zeros(3 * n)
  {
    hide LsbBits;
    if n > 0 {
      var z := seq(n, (i: int) => 0);
      assert z[1..] == seq(n - 1, (i: int) => 0);
      ThreesOfZeros(n - 1);
      SmallNumbers();
    }
  }

  lemma ThreeThrees(x: nat, y: nat, z: nat)
    ensures EncodeThrees([x, y, z]) == LsbBits(x, 3) + (LsbBits(y, 3) + (LsbBits(z, 3) + []))
  {
    hide LsbBits;
    assert [x, y, z][1..] == [y, z] && [y, z][1..] == [z] && [z][1..] == [];
    assert EncodeThrees([z]) == LsbBits(z, 3) + EncodeThrees([]);
    assert EncodeThrees([y, z]) == LsbBits(y, 3) + EncodeThrees([z]);
  }

  lemma ListedBits()
    ensures EncodeThrees(Listed()) == [1, 1, 0, 0, 1, 0, 0, 1, 0] + Zeros(36) + [1, 1, 0, 0, 0, 0, 0, 1, 0]
  {
    hide EncodeThrees, LsbBits;
    var z: seq<nat> := seq(12, (i: int) => 0);
    assert Listed() == [3, 2, 2] + z + [3, 0, 2];
    ThreesConcat([3, 2, 2] + z, [3, 0, 2]);
    ThreesConcat([3, 2, 2], z);
    ThreesOfZeros(12);
    ThreeThrees(3, 2, 2);
    ThreeThrees(3, 0, 2);
    SmallNumbers();
  }

  // ----- the run-length steps -----

  /** One step in front of others. */
  lemma OneOp(cl: Lengths, acc: Lengths, op: LenOp, ops: seq<LenOp>, total: nat)
    requires ValidOp(cl, acc, op) && |acc| + OpCount(op) <= total && ValidOps(cl, ApplyOp(acc, op), ops, total)
    ensures ValidOps(cl, acc, [op] + ops, total)
    ensures EncodeOps(cl, acc, [op] + ops, total) == EncodeOp(cl, op) + EncodeOps(cl, ApplyOp(acc, op), ops, total)
    ensures ExpandOps(cl, acc, [op] + ops, total) == ExpandOps(cl, ApplyOp(acc, op), ops, total)
  {
    hide EncodeOp, Run, Pow2;
    assert ([op] + ops)[1..] == ops;
  }

  lemma NoOps(cl: Lengths, acc: Lengths)
    ensures ValidOps(cl, acc, [], |acc|) && EncodeOps(cl, acc, [], |acc|) == [] && ExpandOps(cl, acc, [], |acc|) == acc
  {
  }

  lemma OpBitsAre()
    ensures forall s :: s in [1, 2, 16, 17, 18] ==> IsSymbol(Pre(), s)
    ensures EncodeOp(Pre(), LenOp(18, 86)) == [1, 0] + [0, 1, 1, 0, 1, 0, 1]
    ensures EncodeOp(Pre(), LenOp(18, 127)) == [1, 0] + [1, 1, 1, 1, 1, 1, 1]
    ensures EncodeOp(Pre(), LenOp(17, 7)) == [0, 1] + [1, 1, 1]
    ensures EncodeOp(Pre(), LenOp(16, 2)) == [1, 1, 1] + [0, 1]
    ensures EncodeOp(Pre(), LenOp(1, 0)) == [0, 0]
    ensures EncodeOp(Pre(), LenOp(2, 0)) == [1, 1, 0]
  {
    hide Pre, Code, MsbBits, LsbBits;
    PreAt();
    PreCodes();
    SmallNumbers();
    RunNumbers();
    LsbBitsStep(0, 0);
    SmallCodes();
  }

  lemma SmallCodes()
    ensures MsbBits(0, 2) == [0, 0] && MsbBits(1, 2) == [0, 1] && MsbBits(2, 2) == [1, 0]
    ensures MsbBits(6, 3) == [1, 1, 0] && MsbBits(7, 3) == [1, 1, 1]
    ensures MsbBits(0, 1) == [0] && MsbBits(3, 2) == [1, 1]
  {
    hide MsbBits;
    MsbBitsStep(0, 2);
    MsbBitsStep(1, 2);
    MsbBitsStep(2, 2);
    MsbBitsStep(3, 2);
    MsbBitsStep(0, 1);
    MsbBitsStep(1, 1);
    MsbBitsStep(0, 0);
    MsbBitsStep(6, 3);
    MsbBitsStep(7, 3);
  }

  /** The lengths behind each step. */
  function Behind(k: nat): Lengths {
    if k == 0 then []
    else if k == 1 then Behind(0) + Run(0, 97)
    else if k == 2 then Behind(1) + Run(1, 1)
    else if k == 3 then Behind(2) + Run(0, 138)
    else if k == 4 then Behind(3) + Run(0, 10)
    else if k == 5 then Behind(4) + Run(0, 10)
    else if k == 6 then Behind(5) + Run(2, 1)
    else Behind(6) + Run(2, 5)
  }

  function Steps(k: nat): seq<LenOp>
    decreases 7 - k
  {
    if k == 0 then [LenOp(18, 86)] + Steps(1)
    else if k == 1 then [LenOp(1, 0)] + Steps(2)
    else if k == 2 then [LenOp(18, 127)] + Steps(3)
    else if k == 3 then [LenOp(17, 7)] + Steps(4)
    else if k == 4 then [LenOp(17, 7)] + Steps(5)
    else if k == 5 then [LenOp(2, 0)] + Steps(6)
    else if k == 6 then [LenOp(16, 2)] + Steps(7)
    else []
  }

  function StepBits(k: nat): seq<bit>
    decreases 7 - k
  {
    if k == 0 then [1, 0] + [0, 1, 1, 0, 1, 0, 1] + StepBits(1)
    else if k == 1 then [0, 0] + StepBits(2)
    else if k == 2 then [1, 0] + [1, 1, 1, 1, 1, 1, 1] + StepBits(3)
    else if k == 3 then [0, 1] + [1, 1, 1] + StepBits(4)
    else if k == 4 then [0, 1] + [1, 1, 1] + StepBits(5)
    else if k == 5 then [1, 1, 0] + StepBits(6)
    else if k == 6 then [1, 1, 1] + [0, 1] + StepBits(7)
    else []
  }

  lemma BehindLengths()
    ensures |Behind(0)| == 0 && |Behind(1)| == 97 && |Behind(2)| == 98 && |Behind(3)| == 236 && |Behind(4)| == 246
    ensures |Behind(5)| == 256 && |Behind(6)| == 257 && |Behind(7)| == 262
    ensures Behind(6)[256] == 2
  {
    hide Run;
  }

  function StepNumber(k: nat): LenOp
    requires k < 7
  {
    [LenOp(18, 86), LenOp(1, 0), LenOp(18, 127), LenOp(17, 7), LenOp(17, 7), LenOp(2, 0), LenOp(16, 2)][k]
  }

  lemma StepLeads(k: nat)
    requires k < 7
    ensures var op := StepNumber(k);
            && op.sym < 19 && (op.sym == 16 ==> Behind(k) != [])
            && ApplyOp(Behind(k), op) == Behind(k + 1)
            && Steps(k) == [op] + Steps(k + 1)
            && |Behind(k)| + OpCount(op) <= 262
  {
    hide Run, Steps, Behind;
    BehindLengths();
    BehindStep(k);
  }

  lemma BehindStep(k: nat)
    requires k < 7
    ensures var op := StepNumber(k);
            && (op.sym == 16 ==> Behind(k) != [] && Behind(k)[|Behind(k)| - 1] == 2)
            && Behind(k + 1) == Behind(k) + Run(if op.sym < 16 then op.sym else if op.sym == 16 then 2 else 0, OpCount(op))
            && Steps(k) == [op] + Steps(k + 1)
  {
    hide Run;
    if k == 6 {
      BehindLengths();
    }
  }

  lemma StepFits(k: nat)
    requires k < 7
    ensures ValidOp(Pre(), Behind(k), StepNumber(k))
    ensures EncodeOp(Pre(), StepNumber(k)) + StepBits(k + 1) == StepBits(k)
  {
    hide Run, Pre, Behind, EncodeOp, Pow2;
    BehindLengths();
    OpBitsAre();
    TablePowers();
    assert k in [0, 1, 2, 3, 4, 5, 6];
  }

  lemma {:induction false} StepsExpand(k: nat)
    requires k <= 7
    ensures ValidOps(Pre(), Behind(k), Steps(k), 262)
    ensures EncodeOps(Pre(), Behind(k), Steps(k), 262) == StepBits(k)
    ensures ExpandOps(Pre(), Behind(k), Steps(k), 262) == Behind(7)
    decreases 7 - k
  {
    hide Pre, Behind, Steps, StepBits, StepNumber, ValidOps, EncodeOps, ExpandOps, EncodeOp, ValidOp, ApplyOp, OpCount;
    if k == 7 {
      LastStep();
      BehindLengths();
      NoOps(Pre(), Behind(7));
    } else {
      StepsExpand(k + 1);
      StepLeads(k);
      StepFits(k);
      OneOp(Pre(), Behind(k), StepNumber(k), Steps(k + 1), 262);
    }
  }

  lemma LastStep()
    ensures Steps(7) == [] && StepBits(7) == []
  {
  }

  lemma BehindSplits()
    ensures |Behind(7)| == 262 && Behind(7)[..258] == Literals() && Behind(7)[258..] == Distances()
    ensures Behind(7)[256] == 2
  {
    hide Run;
    BehindLengths();
    BehindRuns();
    forall i | 0 <= i < 258
      ensures Behind(7)[i] == Literals()[i]
    {
    }
  }

  lemma BehindRuns()
    ensures Behind(7) == Run(0, 97) + Run(1, 1) + Run(0, 138) + Run(0, 10) + Run(0, 10) + Run(2, 1) + Run(2, 5)
  {
    hide Run;
    assert [] + Run(0, 97) == Run(0, 97);
  }

  function HeaderTree(): DynamicHeader {
    DynamicHeader(Counts(258, 4, 18), Listed(), Steps(0))
  }

  lemma CompleteIsUsable(ls: Lengths)
    requires Left(ls, MAX_BITS) == 0
    ensures CompleteOrEmpty(ls) && Usable(ls)
  {
  }

  lemma HeaderIsValid()
    ensures ValidHeader(HeaderTree()) && HeaderTables(HeaderTree()) == Tables(Literals(), Distances())
    ensures EncodeHeader(HeaderTree()) ==
            [1, 0, 0, 0, 0] + ([1, 1, 0, 0, 0] + [0, 1, 1, 1])
            + ([1, 1, 0, 0, 1, 0, 0, 1, 0] + Zeros(36) + [1, 1, 0, 0, 0, 0, 0, 1, 0] + StepBits(0))
  {
    hide Pre, Behind, Steps, StepBits, ValidOps, EncodeOps, ExpandOps, PreLengths, Listed, Literals, Distances;
    hide CompleteOrEmpty, Usable, EncodeThrees, LsbBits, Left, Zeros;
    ListedShape();
    ListedIsPre();
    ListedBits();
    AllComplete();
    CompleteIsUsable(Pre());
    CompleteIsUsable(Literals());
    CompleteIsUsable(Distances());
    StepsExpand(0);
    NoneBehind();
    BehindSplits();
    CountNumbers();
  }

  lemma NoneBehind()
    ensures Behind(0) == []
  {
  }

  // ----- the block -----

  /** The letter a, and a match of length 3 at distance 1. */
  function TokenList(): seq<Token> {
    [Literal(0x61), Match(0, 0, 0, 0)]
  }

  lemma TokensAre()
    ensures ValidTokens(Literals(), Distances(), TokenList())
    ensures EncodeTokens(Literals(), Distances(), TokenList()) == [0] + ([1, 1] + ([] + ([0, 0] + [])) + [1, 0])
    ensures ExpandTokens(TokenList(), []) == Some([0x61, 0x61, 0x61, 0x61])
  {
    hide Literals, Distances, Code, MsbBits, LsbBits, Pow2;
    LiteralAt();
    LiteralCodes();
    DistanceCode();
    SmallCodes();
    LsbBitsStep(0, 0);
    TablePowers();
    LiteralsLength();
    var rest := [Match(0, 0, 0, 0)];
    assert TokenList()[1..] == rest && rest[1..] == [];
    assert LEXT[0] == 0 && DEXT[0] == 0 && LENS[0] == 3 && DISTS[0] == 1;
    assert EncodeTokens(Literals(), Distances(), rest) == EncodeToken(Literals(), Distances(), rest[0]) + [1, 0];
    TokensMean();
  }

  lemma TokensMean()
    ensures ExpandTokens(TokenList(), []) == Some([0x61, 0x61, 0x61, 0x61])
  {
    var rest := [Match(0, 0, 0, 0)];
    assert TokenList()[1..] == rest && rest[1..] == [];
    assert LENS[0] == 3 && DISTS[0] == 1;
    assert [] + [0x61] == [0x61];
    assert Extend([0x61], 1, 3) == [0x61, 0x61, 0x61, 0x61];
  }

  lemma LiteralsLength()
    ensures |Literals()| == 258 && |Distances()| == 4
  {
  }

  /** The whole stream: header of the block, counts, code length code, steps, tokens and end of block. */
  function DynamicBits(): seq<bit> {
    [1] + [0, 1]
    + ([1, 0, 0, 0, 0] + ([1, 1, 0, 0, 0] + [0, 1, 1, 1])
       + ([1, 1, 0, 0, 1, 0, 0, 1, 0] + Zeros(36) + [1, 1, 0, 0, 0, 0, 0, 1, 0] + StepBits(0))
       + ([0] + ([1, 1] + ([] + ([0, 0] + [])) + [1, 0])))
  }

  lemma DynamicLength()
    ensures |DynamicBits()| == 116
  {
    assert |StepBits(5)| == 8;
    assert |StepBits(3)| == 18;
    assert |StepBits(1)| == 29;
    assert |StepBits(0)| == 38;
  }

  lemma DynamicStream()
    ensures Inflate(Pack(DynamicBits()), 4) == Result(0, 116, [0x61, 0x61, 0x61, 0x61])
  {
    DynamicLength();
    hide Inflate, Pack, Literals, Distances, StepBits, Zeros, EncodeHeader, EncodeTokens, ValidTokens, ValidHeader;
    hide HeaderTables, ExpandTokens, Steps, Listed, LsbBits, TokenList;
    var t := Dynamic(HeaderTree(), TokenList());
    HeaderIsValid();
    TokensAre();
    SmallNumbers();
    assert EncodeBlocks([t], 0) == DynamicBits();
    assert Meaning([t]) == Some([0x61, 0x61, 0x61, 0x61]);
    EncodeInflateRoundTrip([t], 4);
  }
}
