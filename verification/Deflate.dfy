/**
 Inflating as a function of a bit stream: section 3.2.3 of RFC 1951 with the acceptance set and
 the error numbers of puff.c.  Reading syntax (tokens, headers) is separate from applying it to
 the output.  Every result carries the bit position and the output at the point where it stopped.
 */
module Deflate {
  import opened Bits
  import opened Canonical

  const MAX_L_CODES := 286
  const MAX_D_CODES := 30
  const FIX_L_CODES := 288

  /** Base lengths and extra bits for symbols 257..285, base distances and extra bits for 0..29. */
  const LENS: seq<nat> := [
    3, 4, 5, 6, 7, 8, 9, 10, 11, 13, 15, 17, 19, 23, 27, 31,
    35, 43, 51, 59, 67, 83, 99, 115, 131, 163, 195, 227, 258]
  const LEXT: seq<nat> := [
    0, 0, 0, 0, 0, 0, 0, 0, 1, 1, 1, 1, 2, 2, 2, 2,
    3, 3, 3, 3, 4, 4, 4, 4, 5, 5, 5, 5, 0]
  const DISTS: seq<nat> := [
    1, 2, 3, 4, 5, 7, 9, 13, 17, 25, 33, 49, 65, 97, 129, 193,
    257, 385, 513, 769, 1025, 1537, 2049, 3073, 4097, 6145,
    8193, 12289, 16385, 24577]
  const DEXT: seq<nat> := [
    0, 0, 0, 0, 1, 1, 2, 2, 3, 3, 4, 4, 5, 5, 6, 6,
    7, 7, 8, 8, 9, 9, 10, 10, 11, 11, 12, 12, 13, 13]

  /** The order in which a dynamic header lists the code length code lengths, and its inverse. */
  const ORDER: seq<nat> := [16, 17, 18, 0, 8, 7, 9, 6, 10, 5, 11, 4, 12, 3, 13, 2, 14, 1, 15]
  const PLACE: seq<nat> := [3, 17, 15, 13, 11, 9, 7, 5, 4, 6, 8, 10, 12, 14, 16, 18, 0, 1, 2]

  lemma OrderIsPermutation()
    ensures |ORDER| == 19 && |PLACE| == 19
    ensures forall i :: 0 <= i < 19 ==> ORDER[i] < 19 && PLACE[ORDER[i]] == i
    ensures forall s :: 0 <= s < 19 ==> PLACE[s] < 19 && ORDER[PLACE[s]] == s
  {
    OrderThenPlace();
    PlaceThenOrder();
  }

  lemma OrderThenPlace()
    ensures forall i :: 0 <= i < 19 ==> ORDER[i] < 19 && PLACE[ORDER[i]] == i
  {
    assert forall i :: i in [0, 1, 2, 3, 4, 5, 6, 7, 8, 9, 10, 11, 12, 13, 14, 15, 16, 17, 18] ==>
      ORDER[i] < 19 && PLACE[ORDER[i]] == i;
  }

  lemma PlaceThenOrder()
    ensures forall s :: 0 <= s < 19 ==> PLACE[s] < 19 && ORDER[PLACE[s]] == s
  {
    assert forall s :: s in [0, 1, 2, 3, 4, 5, 6, 7, 8, 9, 10, 11, 12, 13, 14, 15, 16, 17, 18] ==>
      PLACE[s] < 19 && ORDER[PLACE[s]] == s;
  }

  /** The next `n` bits as a number, or error 2 when the stream is too short. */
  function Take(b: seq<bit>, p: nat, n: nat): (r: Read<nat>)
    ensures r.Got? ==> r.pos == p + n <= |b| && r.value < Pow2(n)
  {
    if p + n <= |b| then Got(Lsb(b[p..p + n]), p + n) else Bad(2, |b|)
  }

  /** The rule behind the length tables: consecutive ranges, four symbols for each number of extra bits. */
  predicate LengthRule(l: nat)
    requires l < 29
  {
    && LEXT[l] == (if l < 8 || l == 28 then 0 else (l - 4) / 4)
    && LENS[l] == (if l == 0 then 3 else if l == 28 then 258 else LENS[l - 1] + Pow2(LEXT[l - 1]))
  }

  /** The rule behind the distance tables: consecutive ranges, two symbols for each number of extra bits. */
  predicate DistanceRule(d: nat)
    requires d < 30
  {
    && DEXT[d] == (if d < 4 then 0 else (d - 2) / 2)
    && DISTS[d] == (if d == 0 then 1 else DISTS[d - 1] + Pow2(DEXT[d - 1]))
  }

  lemma LengthTable()
    ensures forall l: nat :: l < 29 ==> LengthRule(l)
  {
    TablePowers();
    forall l: nat | l < 29
      ensures LengthRule(l)
    {
      hide Pow2;
      assert l in [0, 1, 2, 3, 4, 5, 6, 7, 8, 9, 10, 11, 12, 13, 14, 15, 16, 17, 18, 19, 20, 21, 22, 23, 24, 25, 26, 27, 28];
    }
  }

  lemma DistanceTable()
    ensures forall d: nat :: d < 30 ==> DistanceRule(d)
  {
    hide DistanceRule;
    DistanceTableLow();
    DistanceTableHigh();
  }

  lemma DistanceTableLow()
    ensures forall d: nat :: d < 15 ==> DistanceRule(d)
  {
    TablePowers();
    forall d: nat | d < 15
      ensures DistanceRule(d)
    {
      hide Pow2;
      assert d in [0, 1, 2, 3, 4, 5, 6, 7, 8, 9, 10, 11, 12, 13, 14];
    }
  }

  lemma DistanceTableHigh()
    ensures forall d: nat :: 15 <= d < 30 ==> DistanceRule(d)
  {
    TablePowers();
    forall d: nat | 15 <= d < 30
      ensures DistanceRule(d)
    {
      hide Pow2;
      assert d in [15, 16, 17, 18, 19, 20, 21, 22, 23, 24, 25, 26, 27, 28, 29];
    }
  }

  lemma TablePowers()
    ensures Pow2(0) == 1 && Pow2(1) == 2 && Pow2(2) == 4 && Pow2(3) == 8 && Pow2(4) == 16 && Pow2(5) == 32
    ensures Pow2(6) == 64 && Pow2(7) == 128 && Pow2(8) == 256 && Pow2(9) == 512 && Pow2(10) == 1024
    ensures Pow2(11) == 2048 && Pow2(12) == 4096 && Pow2(13) == 8192
  {
    assert Pow2(5) == 32;
    assert Pow2(10) == 2 * Pow2(9);
  }

  lemma TakeNothing(b: seq<bit>, p: nat)
    requires p <= |b|
    ensures Take(b, p, 0) == Got(0, p)
  {
    assert b[p..p] == [];
  }

  // ----- tokens of a compressed block -----

  datatype Token =
    | Literal(value: byte)
    | EndOfBlock
    | Match(lsym: nat, lextra: nat, dsym: nat, dextra: nat)

  /** What follows length symbol 257 + `lsym`: extra length bits, a distance symbol, extra distance bits. */
  ghost function ReadMatch(lsym: nat, dl: Lengths, b: seq<bit>, p: nat): (r: Read<Token>)
    requires |dl| <= MAX_D_CODES
    ensures lsym >= 29 ==> r == Bad(-5, p)
    ensures r.Got? ==> p <= r.pos <= |b| && r.value.Match? && r.value.lsym < 29 && r.value.dsym < 30
    ensures r.Bad? ==> r.err != 0
  {
    if lsym >= 29 then Bad(-5, p)
    else
      var (lextra, q1) :- Take(b, p, LEXT[lsym]);
      var (d, q2) :- ReadSymbol(dl, b, q1);
      var (dextra, q3) :- Take(b, q2, DEXT[d]);
      Got(Match(lsym, lextra, d, dextra), q3)
  }

  ghost function ReadToken(ll: Lengths, dl: Lengths, b: seq<bit>, p: nat): (r: Read<Token>)
    requires |dl| <= MAX_D_CODES
    ensures r.Got? ==> p < r.pos <= |b|
    ensures r.Got? && r.value.Match? ==> r.value.lsym < 29 && r.value.dsym < 30
    ensures r.Bad? ==> r.err != 0
  {
    var (s, q) :- ReadSymbol(ll, b, p);
    if s < 256 then Got(Literal(s), q)
    else if s == 256 then Got(EndOfBlock, q)
    else ReadMatch(s - 257, dl, b, q)
  }

  function MatchLength(t: Token): (n: nat)
    requires t.Match? && t.lsym < 29
    ensures 3 <= n
  {
    LENS[t.lsym] + t.lextra
  }

  function MatchDistance(t: Token): (n: nat)
    requires t.Match? && t.dsym < 30
    ensures 1 <= n
  {
    DISTS[t.dsym] + t.dextra
  }

  /** The periodic extension of the last `dist` bytes by `n` bytes. */
  function Extend(out: seq<byte>, dist: nat, n: nat): (r: seq<byte>)
    requires 1 <= dist <= |out|
    ensures |r| == |out| + n && r[..|out|] == out
  {
    out + seq(n, i requires 0 <= i < n => out[|out| - dist + i % dist])
  }

  // ----- results -----

  /** How inflating stopped: 0 for success, otherwise the error number of puff.c. */
  datatype Result = Result(err: int, pos: nat, out: seq<byte>)

  /** Error number of writing `t` behind `out` when there is room for `limit` bytes. */
  function TokenError(t: Token, out: seq<byte>, limit: nat): int
    requires t.Match? ==> t.lsym < 29 && t.dsym < 30
  {
    match t
    case Literal(_) => if |out| >= limit then -1 else 0
    case EndOfBlock => 0
    case Match(_, _, _, _) =>
      if MatchDistance(t) > |out| then -6
      else if |out| + MatchLength(t) > limit then -1
      else 0
  }

  function ApplyToken(t: Token, out: seq<byte>): (r: seq<byte>)
    requires t.Match? ==> t.lsym < 29 && t.dsym < 30 && MatchDistance(t) <= |out|
    ensures out <= r
  {
    match t
    case Literal(v) => out + [v]
    case EndOfBlock => out
    case Match(_, _, _, _) => Extend(out, MatchDistance(t), MatchLength(t))
  }

  /** Decode tokens until end-of-block. */
  ghost function Codes(ll: Lengths, dl: Lengths, b: seq<bit>, p: nat, out: seq<byte>, limit: nat): (r: Result)
    requires |dl| <= MAX_D_CODES && p <= |b|
    ensures out <= r.out
    ensures r.err == 0 ==> p < r.pos <= |b|
    decreases |b| - p
  {
    match ReadToken(ll, dl, b, p)
    case Bad(err, q) => Result(err, q, out)
    case Got(t, q) =>
      if TokenError(t, out, limit) != 0 then Result(TokenError(t, out, limit), q, out)
      else if t.EndOfBlock? then Result(0, q, out)
      else Codes(ll, dl, b, q, ApplyToken(t, out), limit)
  }

  // ----- stored blocks -----

  /** The next byte boundary. */
  function Align(p: nat): (q: nat)
    ensures p <= q < p + 8 && q % 8 == 0
  {
    (p + 7) / 8 * 8
  }

  /** `n` bytes from bit position `p` on. */
  function BytesAt(b: seq<bit>, p: nat, n: nat): (s: seq<byte>)
    requires p + 8 * n <= |b|
    ensures |s| == n
  {
    assert Pow2(8) == 256;
    seq(n, i requires 0 <= i < n => Lsb(b[p + 8 * i..p + 8 * i + 8]))
  }

  function StoredBlock(b: seq<bit>, p: nat, out: seq<byte>, limit: nat): (r: Result)
    ensures out <= r.out
    ensures r.err == 0 ==> p < r.pos <= |b|
  {
    var q := Align(p);
    if q + 32 > |b| then Result(2, q, out)
    else
      var len, check := Lsb(b[q..q + 16]), Lsb(b[q + 16..q + 32]);
      if check != 0xffff - len then Result(-3, q, out)
      else if q + 32 + 8 * len > |b| then Result(2, q + 32, out)
      else if |out| + len > limit then Result(-1, q + 32, out)
      else Result(0, q + 32 + 8 * len, out + BytesAt(b, q + 32, len))
  }

  // ----- fixed and dynamic tables -----

  function Run(x: codelen, n: nat): (ls: Lengths)
    ensures |ls| == n && forall i :: 0 <= i < n ==> ls[i] == x
  {
    if n == 0 then [] else Run(x, n - 1) + [x]
  }

  function FixedLiterals(): (ls: Lengths)
    ensures |ls| == FIX_L_CODES
  {
    Run(8, 144) + Run(9, 112) + Run(7, 24) + Run(8, 8)
  }

  lemma FixedLiteralAt(s: nat)
    requires s < FIX_L_CODES
    ensures FixedLiterals()[s] == if s < 144 then 8 else if s < 256 then 9 else if s < 280 then 7 else 8
  {
    hide Run;
  }

  function FixedDistances(): (ls: Lengths)
    ensures |ls| == MAX_D_CODES
  {
    Run(5, MAX_D_CODES)
  }

  lemma {:induction false} KraftOfRun(ls: Lengths, x: codelen, n: nat)
    requires x != 0
    ensures Kraft(ls + Run(x, n)) == Kraft(ls) + n * Pow2(MAX_BITS - x)
  {
    hide Pow2;
    if n == 0 {
      assert ls + Run(x, 0) == ls;
    } else {
      var r := ls + Run(x, n - 1);
      KraftOfRun(ls, x, n - 1);
      assert ls + Run(x, n) == r + [x];
      KraftAppend(r, x);
      Scale(n, Pow2(MAX_BITS - x));
    }
  }

  lemma KraftAppend(ls: Lengths, x: codelen)
    requires x != 0
    ensures Kraft(ls + [x]) == Kraft(ls) + Pow2(MAX_BITS - x)
  {
    hide Pow2;
    assert (ls + [x])[..|ls|] == ls;
  }

  lemma Scale(n: nat, w: nat)
    requires 0 < n
    ensures n * w == (n - 1) * w + w
  {
  }

  lemma Powers()
    ensures Pow2(6) == 64 && Pow2(7) == 128 && Pow2(8) == 256 && Pow2(10) == 1024 && Pow2(15) == 32768
  {
    assert Pow2(5) == 32;
    PowAdd(5, 5);
    PowAdd(10, 5);
  }

  /** The fixed literal code is complete; two of the 32 distance codes are not used. */
  lemma FixedCodesFit()
    ensures Left(FixedLiterals(), MAX_BITS) == 0
    ensures Left(FixedDistances(), MAX_BITS) == 2 * Pow2(MAX_BITS - 5)
    ensures !OverSubscribed(FixedLiterals()) && !OverSubscribed(FixedDistances())
  {
    hide Left, Run, Pow2;
    KraftOfRun([], 8, 144);
    KraftOfRun(Run(8, 144), 9, 112);
    KraftOfRun(Run(8, 144) + Run(9, 112), 7, 24);
    KraftOfRun(Run(8, 144) + Run(9, 112) + Run(7, 24), 8, 8);
    KraftOfRun([], 5, MAX_D_CODES);
    assert [] + Run(8, 144) == Run(8, 144) && [] + Run(5, MAX_D_CODES) == Run(5, MAX_D_CODES);
    Powers();
    LeftIsKraftGap(FixedLiterals());
    LeftIsKraftGap(FixedDistances());
  }

  datatype Tables = Tables(literals: Lengths, distances: Lengths)

  /** `n` numbers of three bits each, behind those already read. */
  function ReadThrees(b: seq<bit>, p: nat, acc: seq<nat>, n: nat): (r: Read<seq<nat>>)
    requires |acc| <= n && forall i :: 0 <= i < |acc| ==> acc[i] < 8
    ensures r.Bad? ==> r.err != 0
    ensures r.Got? ==> r.pos == p + 3 * (n - |acc|) && |r.value| == n && acc <= r.value
    ensures r.Got? && p <= |b| ==> r.pos <= |b|
    ensures r.Got? ==> forall i :: 0 <= i < n ==> r.value[i] < 8
    decreases n - |acc|
  {
    if |acc| == n then Got(acc, p)
    else
      var (v, q) :- Take(b, p, 3);
      assert Pow2(3) == 8;
      ReadThrees(b, q, acc + [v], n)
  }

  /** The code length code: the numbers of the header put in their places, zero for those not listed. */
  function PreLengths(pre: seq<nat>): (ls: Lengths)
    requires |pre| <= 19 && forall i :: 0 <= i < |pre| ==> pre[i] < 8
    ensures |ls| == 19
  {
    seq(19, s requires 0 <= s < 19 => if PLACE[s] < |pre| then pre[PLACE[s]] else 0)
  }

  /** One step of the run-length code for code lengths: a symbol and its extra bits. */
  datatype LenOp = LenOp(sym: nat, extra: nat)

  function OpBits(sym: nat): nat {
    if sym == 16 then 2 else if sym == 17 then 3 else if sym == 18 then 7 else 0
  }

  function OpCount(op: LenOp): (n: nat)
    ensures 1 <= n
  {
    if op.sym < 16 then 1 else if op.sym == 18 then 11 + op.extra else 3 + op.extra
  }

  /** The length that one step stores: a literal length, the previous length, or zero. */
  function OpLength(acc: Lengths, op: LenOp): codelen
    requires op.sym == 16 ==> acc != []
  {
    if op.sym < 16 then op.sym else if op.sym == 16 then acc[|acc| - 1] else 0
  }

  function ApplyOp(acc: Lengths, op: LenOp): (r: Lengths)
    requires op.sym == 16 ==> acc != []
    ensures |r| == |acc| + OpCount(op) && acc <= r
  {
    acc + Run(OpLength(acc, op), OpCount(op))
  }

  ghost function ReadOp(cl: Lengths, b: seq<bit>, p: nat, first: bool): (r: Read<LenOp>)
    requires |cl| == 19
    ensures r.Got? ==> p < r.pos <= |b| && r.value.sym < 19 && (r.value.sym == 16 ==> !first)
  {
    var (sym, q) :- ReadSymbol(cl, b, p);
    if sym == 16 && first then Bad(-4, q)
    else
      var (extra, q1) :- Take(b, q, OpBits(sym));
      Got(LenOp(sym, extra), q1)
  }

  /** Code lengths until there are `total` of them; a run may not go beyond. */
  ghost function ReadLengths(cl: Lengths, b: seq<bit>, p: nat, acc: Lengths, total: nat): (r: Read<Lengths>)
    requires |cl| == 19 && p <= |b| && |acc| <= total
    ensures r.Bad? ==> r.err != 0
    ensures r.Got? ==> p <= r.pos <= |b| && |r.value| == total && acc <= r.value
    decreases |b| - p
  {
    if |acc| == total then Got(acc, p)
    else
      var (op, q) :- ReadOp(cl, b, p, acc == []);
      if |acc| + OpCount(op) > total then Bad(-4, q)
      else ReadLengths(cl, b, q, ApplyOp(acc, op), total)
  }

  /** The code length code must be complete or empty. */
  predicate CompleteOrEmpty(ls: Lengths) {
    AllZero(ls) || Left(ls, MAX_BITS) == 0
  }

  /** The other two codes may also be incomplete, with exactly one symbol. */
  predicate Usable(ls: Lengths) {
    CompleteOrEmpty(ls) || (Left(ls, MAX_BITS) > 0 && |ls| - Count(ls, 0) == 1)
  }

  /** How many lengths a dynamic header gives: literal, distance and code length codes. */
  datatype Counts = Counts(nlen: nat, ndist: nat, ncode: nat)

  function ReadCounts(b: seq<bit>, p: nat): (r: Read<Counts>)
    ensures r.Got? ==> r.pos == p + 14 <= |b|
    ensures r.Got? ==> 257 <= r.value.nlen <= MAX_L_CODES && 1 <= r.value.ndist <= MAX_D_CODES
    ensures r.Got? ==> 4 <= r.value.ncode <= 19
    ensures r.Bad? ==> r.err != 0
  {
    var (hlit, p1) :- Take(b, p, 5);
    var (hdist, p2) :- Take(b, p1, 5);
    var (hclen, p3) :- Take(b, p2, 4);
    assert Pow2(4) == 16;
    var n := Counts(hlit + 257, hdist + 1, hclen + 4);
    if n.nlen > MAX_L_CODES || n.ndist > MAX_D_CODES then Bad(-4, p3) else Got(n, p3)
  }

  /** The lengths of the code length code. */
  function ReadPreCode(b: seq<bit>, p: nat, ncode: nat): (r: Read<Lengths>)
    requires ncode <= 19
    ensures r.Got? && p <= |b| ==> r.pos == p + 3 * ncode <= |b|
    ensures r.Got? ==> |r.value| == 19 && CompleteOrEmpty(r.value)
    ensures r.Bad? ==> r.err != 0
  {
    var (pre, q) :- ReadThrees(b, p, [], ncode);
    if CompleteOrEmpty(PreLengths(pre)) then Got(PreLengths(pre), q) else Bad(-4, q)
  }

  ghost function ReadTables(b: seq<bit>, p: nat): (r: Read<Tables>)
    ensures r.Bad? ==> r.err != 0
    ensures r.Got? ==> p < r.pos <= |b| && |r.value.distances| <= MAX_D_CODES
  {
    var (n, p1) :- ReadCounts(b, p);
    var (cl, p2) :- ReadPreCode(b, p1, n.ncode);
    var (ls, p3) :- ReadLengths(cl, b, p2, [], n.nlen + n.ndist);
    if ls[256] == 0 then Bad(-9, p3)
    else if Usable(ls[..n.nlen]) && Usable(ls[n.nlen..]) then Got(Tables(ls[..n.nlen], ls[n.nlen..]), p3)
    else Bad(-4, p3)
  }

  ghost function DynamicBlock(b: seq<bit>, p: nat, out: seq<byte>, limit: nat): (r: Result)
    ensures out <= r.out
    ensures r.err == 0 ==> p < r.pos <= |b|
  {
    match ReadTables(b, p)
    case Bad(err, q) => Result(err, q, out)
    case Got(t, q) => Codes(t.literals, t.distances, b, q, out, limit)
  }

  // ----- the whole stream -----

  /** The three bits in front of each block. */
  datatype Header = Header(last: bool, kind: nat)

  function ReadHeader(b: seq<bit>, p: nat): (r: Read<Header>)
    ensures r.Got? ==> r.pos == p + 3 <= |b|
    ensures r.Bad? ==> r.err != 0
  {
    var (last, p1) :- Take(b, p, 1);
    var (kind, p2) :- Take(b, p1, 2);
    Got(Header(last == 1, kind), p2)
  }

  ghost function Block(kind: nat, b: seq<bit>, p: nat, out: seq<byte>, limit: nat): (r: Result)
    requires p <= |b|
    ensures out <= r.out
    ensures r.err == 0 ==> p < r.pos <= |b|
  {
    if kind == 0 then StoredBlock(b, p, out, limit)
    else if kind == 1 then Codes(FixedLiterals(), FixedDistances(), b, p, out, limit)
    else if kind == 2 then DynamicBlock(b, p, out, limit)
    else Result(-2, p, out)
  }

  /** Blocks up to and including the one marked last. */
  ghost function Blocks(b: seq<bit>, p: nat, out: seq<byte>, limit: nat): (r: Result)
    requires p <= |b|
    ensures out <= r.out
    ensures r.err == 0 ==> p < r.pos <= |b|
    decreases |b| - p
  {
    match ReadHeader(b, p)
    case Bad(err, q) => Result(err, q, out)
    case Got(h, q) =>
      var r := Block(h.kind, b, q, out, limit);
      if r.err == 0 && !h.last then Blocks(b, r.pos, r.out, limit) else r
  }

  /** What inflating `source` into a buffer of `limit` bytes gives. */
  ghost function Inflate(source: seq<byte>, limit: nat): Result {
    Blocks(BitsOf(source), 0, [], limit)
  }
}
