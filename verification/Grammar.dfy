/**
 The Deflate format as a grammar: syntax trees, how each is written as bits and which bytes it
 stands for (sections 3.2.3 to 3.2.7 of RFC 1951).  Inflating accepts exactly the bit streams that
 start with the encoding of a valid tree whose bytes fit, and gives those bytes.
 */
module DeflateGrammar {
  import opened Bits
  import opened Canonical
  import opened Deflate

  // ----- tokens -----

  predicate ValidToken(ll: Lengths, dl: Lengths, t: Token)
  {
    match t
    case Literal(v) => IsSymbol(ll, v)
    case EndOfBlock => IsSymbol(ll, 256)
    case Match(lsym, lextra, dsym, dextra) =>
      && lsym < 29 && IsSymbol(ll, 257 + lsym) && lextra < Pow2(LEXT[lsym])
      && dsym < MAX_D_CODES && IsSymbol(dl, dsym) && dextra < Pow2(DEXT[dsym])
  }

  function EncodeToken(ll: Lengths, dl: Lengths, t: Token): seq<bit>
    requires ValidToken(ll, dl, t)
  {
    match t
    case Literal(v) => CodeBits(ll, v)
    case EndOfBlock => CodeBits(ll, 256)
    case Match(lsym, lextra, dsym, dextra) =>
      CodeBits(ll, 257 + lsym) + EncodeMatch(dl, t)
  }

  function EncodeMatch(dl: Lengths, t: Token): seq<bit>
    requires t.Match? && t.lsym < 29 && t.dsym < MAX_D_CODES && IsSymbol(dl, t.dsym)
  {
    LsbBits(t.lextra, LEXT[t.lsym]) + (CodeBits(dl, t.dsym) + LsbBits(t.dextra, DEXT[t.dsym]))
  }

  lemma TakeIff(b: seq<bit>, p: nat, n: nat, v: nat, q: nat)
    ensures Take(b, p, n) == Got(v, q) <==> v < Pow2(n) && At(b, p, LsbBits(v, n)) && q == p + n
  {
    hide Lsb, LsbBits, Pow2;
    if p + n <= |b| {
      var c := b[p..p + n];
      assert |c| == n;
      BitsOfLsb(c);
      if v < Pow2(n) {
        LsbOfBits(v, n);
      }
    }
  }

  lemma ReadMatchIff(lsym: nat, dl: Lengths, b: seq<bit>, p: nat, t: Token, q: nat)
    requires lsym < 29 && |dl| <= MAX_D_CODES && !OverSubscribed(dl)
    ensures ReadMatch(lsym, dl, b, p) == Got(t, q) <==>
            && t.Match? && t.lsym == lsym && t.lextra < Pow2(LEXT[lsym])
            && IsSymbol(dl, t.dsym) && t.dextra < Pow2(DEXT[t.dsym])
            && At(b, p, EncodeMatch(dl, t)) && q == p + |EncodeMatch(dl, t)|
  {
    hide LsbBits, CodeBits, Pow2, OverSubscribed, ReadSymbol, Take, At;
    hide LEXT, DEXT;
    if ReadMatch(lsym, dl, b, p).Got? {
      var Got(u, r) := ReadMatch(lsym, dl, b, p);
      MatchParts(dl, b, p, u, r);
    }
    if t.Match? && t.lsym == lsym && IsSymbol(dl, t.dsym) {
      MatchParts(dl, b, p, t, q);
    }
  }

  /** The three parts that follow a length symbol, each read by itself. */
  lemma MatchParts(dl: Lengths, b: seq<bit>, p: nat, t: Token, q: nat)
    requires t.Match? && t.lsym < 29 && t.dsym < MAX_D_CODES && IsSymbol(dl, t.dsym) && !OverSubscribed(dl)
    ensures var (n, m) := (LEXT[t.lsym], DEXT[t.dsym]);
            var q2 := p + n + dl[t.dsym];
            && t.lextra < Pow2(n) && t.dextra < Pow2(m)
            && At(b, p, EncodeMatch(dl, t)) && q == p + |EncodeMatch(dl, t)|
            <==>
            && Take(b, p, n) == Got(t.lextra, p + n)
            && ReadSymbol(dl, b, p + n) == Got(t.dsym, q2)
            && Take(b, q2, m) == Got(t.dextra, q)
  {
    hide LsbBits, CodeBits, Pow2, OverSubscribed, ReadSymbol, Take;
    var n, m := LEXT[t.lsym], DEXT[t.dsym];
    var x, y, z := LsbBits(t.lextra, n), CodeBits(dl, t.dsym), LsbBits(t.dextra, m);
    var q2 := p + n + |y|;
    AtConcat(b, p, x, y + z);
    AtConcat(b, p + n, y, z);
    TakeIff(b, p, n, t.lextra, p + n);
    ReadSymbolIff(dl, b, p + n, t.dsym, q2);
    TakeIff(b, q2, m, t.dextra, q);
  }

  /** A token is read exactly when its encoding comes next. */
  lemma ReadTokenIff(ll: Lengths, dl: Lengths, b: seq<bit>, p: nat, t: Token, q: nat)
    requires |dl| <= MAX_D_CODES && !OverSubscribed(ll) && !OverSubscribed(dl)
    ensures ReadToken(ll, dl, b, p) == Got(t, q) <==>
            ValidToken(ll, dl, t) && At(b, p, EncodeToken(ll, dl, t)) && q == p + |EncodeToken(ll, dl, t)|
  {
    hide CodeBits, OverSubscribed, ReadSymbol, ReadMatch, Pow2, EncodeMatch, At, LEXT, DEXT;
    var s := match t case Literal(v) => v as nat case EndOfBlock => 256 case Match(l, _, _, _) => 257 + l;
    if IsSymbol(ll, s) {
      ReadSymbolIff(ll, b, p, s, p + ll[s]);
      if t.Match? && t.lsym < 29 {
        ReadMatchIff(t.lsym, dl, b, p + ll[s], t, q);
        if IsSymbol(dl, t.dsym) {
          AtConcat(b, p, CodeBits(ll, s), EncodeMatch(dl, t));
        }
      }
    }
    if ReadToken(ll, dl, b, p) == Got(t, q) {
      var r := ReadSymbol(ll, b, p);
      if r.value > 256 && r.value - 257 < 29 {
        ReadMatchIff(r.value - 257, dl, b, r.pos, t, q);
      }
    }
  }

  // ----- the body of a compressed block -----

  predicate ValidTokens(ll: Lengths, dl: Lengths, ts: seq<Token>) {
    IsSymbol(ll, 256) && forall i :: 0 <= i < |ts| ==> ValidToken(ll, dl, ts[i]) && !ts[i].EndOfBlock?
  }

  /** All tokens and the end-of-block code. */
  function EncodeTokens(ll: Lengths, dl: Lengths, ts: seq<Token>): (c: seq<bit>)
    requires ValidTokens(ll, dl, ts)
    ensures ts == [] ==> c == EncodeToken(ll, dl, EndOfBlock)
  {
    if |ts| == 0 then EncodeToken(ll, dl, EndOfBlock)
    else EncodeToken(ll, dl, ts[0]) + EncodeTokens(ll, dl, ts[1..])
  }

  /** The bytes the tokens append to `out`; none when a match reaches behind the beginning. */
  function ExpandTokens(ts: seq<Token>, out: seq<byte>): (r: Option<seq<byte>>)
    requires forall i :: 0 <= i < |ts| ==> ts[i].Match? ==> ts[i].lsym < 29 && ts[i].dsym < 30
    ensures r.Some? ==> out <= r.value
  {
    if |ts| == 0 then Some(out)
    else if ts[0].Match? && MatchDistance(ts[0]) > |out| then None
    else ExpandTokens(ts[1..], ApplyToken(ts[0], out))
  }

  /** What the decoder accepts is an encoding of some tokens, and the output is their expansion. */
  lemma {:induction false} CodesSound(ll: Lengths, dl: Lengths, b: seq<bit>, p: nat, out: seq<byte>, limit: nat)
    returns (ts: seq<Token>)
    requires |dl| <= MAX_D_CODES && p <= |b| && !OverSubscribed(ll) && !OverSubscribed(dl)
    requires Codes(ll, dl, b, p, out, limit).err == 0
    ensures ValidTokens(ll, dl, ts) && At(b, p, EncodeTokens(ll, dl, ts))
    ensures Codes(ll, dl, b, p, out, limit).pos == p + |EncodeTokens(ll, dl, ts)|
    ensures ExpandTokens(ts, out) == Some(Codes(ll, dl, b, p, out, limit).out)
    ensures |out| <= limit ==> |Codes(ll, dl, b, p, out, limit).out| <= limit
    decreases |b| - p
  {
    hide OverSubscribed, ReadToken, ValidToken, EncodeToken, ApplyToken, At;
    var Got(t, q) := ReadToken(ll, dl, b, p);
    ReadTokenIff(ll, dl, b, p, t, q);
    if t.EndOfBlock? {
      ts := [];
      EndIsSymbol(ll, dl);
    } else {
      var rest := CodesSound(ll, dl, b, q, ApplyToken(t, out), limit);
      ts := [t] + rest;
      AtConcat(b, p, EncodeToken(ll, dl, t), EncodeTokens(ll, dl, rest));
      assert ts[1..] == rest;
      TokenFits(t, out, limit);
    }
  }

  lemma EndIsSymbol(ll: Lengths, dl: Lengths)
    ensures ValidToken(ll, dl, EndOfBlock) <==> IsSymbol(ll, 256)
  {
  }

  lemma TokenFits(t: Token, out: seq<byte>, limit: nat)
    requires t.Match? ==> t.lsym < 29 && t.dsym < 30
    requires t.Match? ==> MatchDistance(t) <= |out|
    requires |out| <= limit && !t.EndOfBlock?
    ensures TokenError(t, out, limit) == 0 <==> |ApplyToken(t, out)| <= limit
    ensures TokenError(t, out, limit) == 0 || TokenError(t, out, limit) == -1
  {
    hide LENS, DISTS;
  }

  /** Every encoding of tokens that fit is accepted, and gives their expansion. */
  lemma {:induction false} CodesComplete(ll: Lengths, dl: Lengths, ts: seq<Token>, b: seq<bit>, p: nat,
                                         out: seq<byte>, limit: nat)
    requires |dl| <= MAX_D_CODES && p <= |b| && !OverSubscribed(ll) && !OverSubscribed(dl)
    requires ValidTokens(ll, dl, ts) && At(b, p, EncodeTokens(ll, dl, ts))
    requires ExpandTokens(ts, out).Some? && |ExpandTokens(ts, out).value| <= limit
    ensures Codes(ll, dl, b, p, out, limit) ==
            Result(0, p + |EncodeTokens(ll, dl, ts)|, ExpandTokens(ts, out).value)
  {
    hide OverSubscribed, ReadToken, ValidToken, EncodeToken, ApplyToken, At;
    EndIsSymbol(ll, dl);
    if |ts| == 0 {
      ReadTokenIff(ll, dl, b, p, EndOfBlock, p + |EncodeToken(ll, dl, EndOfBlock)|);
    } else {
      var c := EncodeToken(ll, dl, ts[0]);
      AtConcat(b, p, c, EncodeTokens(ll, dl, ts[1..]));
      ReadTokenIff(ll, dl, b, p, ts[0], p + |c|);
      TokenFits(ts[0], out, limit);
      CodesComplete(ll, dl, ts[1..], b, p + |c|, ApplyToken(ts[0], out), limit);
    }
  }

  // ----- stored blocks -----

  function EncodeStored(padding: seq<bit>, data: seq<byte>): seq<bit>
    requires |data| < 0x10000
  {
    padding + (LsbBits(|data|, 16) + (LsbBits(0xffff - |data|, 16) + BitsOf(data)))
  }

  /** Bytes read at a byte boundary are the bytes written there. */
  lemma BytesAtIff(b: seq<bit>, p: nat, s: seq<byte>)
    requires p + 8 * |s| <= |b|
    ensures BytesAt(b, p, |s|) == s <==> At(b, p, BitsOf(s))
  {
    hide BitsOf, LsbBits, Lsb;
    var c := b[p..p + 8 * |s|];
    forall i | 0 <= i < |s|
      ensures BytesAt(b, p, |s|)[i] == s[i] <==> c[8 * i..8 * i + 8] == BitsOf(s)[8 * i..8 * i + 8]
    {
      ByteAt(s, i);
      SubSlice(b, p, 8 * |s|, 8 * i, 8 * i + 8);
      BitsOfLsb(c[8 * i..8 * i + 8]);
    }
    if BytesAt(b, p, |s|) == s {
      forall k | 0 <= k < 8 * |s|
        ensures c[k] == BitsOf(s)[k]
      {
        var i := k / 8;
        assert BytesAt(b, p, |s|)[i] == s[i];
        assert c[k] == c[8 * i..8 * i + 8][k - 8 * i];
        assert BitsOf(s)[k] == BitsOf(s)[8 * i..8 * i + 8][k - 8 * i];
      }
    }
  }

  lemma SubSlice<T>(s: seq<T>, p: nat, n: nat, i: nat, j: nat)
    requires i <= j <= n && p + n <= |s|
    ensures s[p..p + n][i..j] == s[p + i..p + j]
  {
    var x, y := s[p..p + n][i..j], s[p + i..p + j];
    assert |x| == |y| && forall k :: 0 <= k < |x| ==> x[k] == s[p + (i + k)] == y[k];
  }

  lemma StoredParts(b: seq<bit>, p: nat, q: nat, data: seq<byte>)
    requires p <= q && q + 32 + 8 * |data| <= |b| && |data| < 0x10000
    ensures At(b, p, EncodeStored(b[p..q], data)) <==>
            && Lsb(b[q..q + 16]) == |data| && Lsb(b[q + 16..q + 32]) == 0xffff - |data|
            && BytesAt(b, q + 32, |data|) == data
  {
    hide BitsOf, LsbBits, Lsb, BytesAt, Pow2;
    var n := |data|;
    assert At(b, p, b[p..q]);
    hide At;
    AtConcat(b, p, b[p..q], LsbBits(n, 16) + (LsbBits(0xffff - n, 16) + BitsOf(data)));
    AtConcat(b, q, LsbBits(n, 16), LsbBits(0xffff - n, 16) + BitsOf(data));
    AtConcat(b, q + 16, LsbBits(0xffff - n, 16), BitsOf(data));
    Pow16();
    TakeIff(b, q, 16, n, q + 16);
    TakeIff(b, q + 16, 16, 0xffff - n, q + 32);
    BytesAtIff(b, q + 32, data);
  }

  lemma Pow16()
    ensures Pow2(16) == 0x10000
  {
    assert Pow2(8) == 256;
    PowAdd(8, 8);
  }

  lemma StoredSound(b: seq<bit>, p: nat, out: seq<byte>, limit: nat) returns (data: seq<byte>)
    requires StoredBlock(b, p, out, limit).err == 0
    ensures Align(p) <= |b| && |data| < 0x10000
    ensures At(b, p, EncodeStored(b[p..Align(p)], data))
    ensures StoredBlock(b, p, out, limit) == Result(0, p + |EncodeStored(b[p..Align(p)], data)|, out + data)
    ensures |out + data| <= limit
  {
    hide BitsOf, LsbBits, Lsb, BytesAt;
    var q := Align(p);
    var n := Lsb(b[q..q + 16]);
    data := BytesAt(b, q + 32, n);
    assert n == |data| && 0xffff - n >= 0;
    StoredParts(b, p, q, data);
  }

  lemma StoredComplete(padding: seq<bit>, data: seq<byte>, b: seq<bit>, p: nat, out: seq<byte>, limit: nat)
    requires |data| < 0x10000 && |padding| == Align(p) - p
    requires At(b, p, EncodeStored(padding, data)) && |out + data| <= limit
    ensures StoredBlock(b, p, out, limit) == Result(0, p + |EncodeStored(padding, data)|, out + data)
  {
    hide BitsOf, LsbBits, Lsb, BytesAt;
    var q := Align(p);
    AtConcat(b, p, padding, LsbBits(|data|, 16) + (LsbBits(0xffff - |data|, 16) + BitsOf(data)));
    assert padding == b[p..q];
    StoredParts(b, p, q, data);
  }

  // ----- dynamic headers -----

  predicate ValidThrees(vs: seq<nat>) {
    forall i :: 0 <= i < |vs| ==> vs[i] < 8
  }

  function EncodeThrees(vs: seq<nat>): (c: seq<bit>)
    ensures |c| == 3 * |vs|
  {
    if |vs| == 0 then [] else LsbBits(vs[0], 3) + EncodeThrees(vs[1..])
  }

  lemma {:induction false} ReadThreesIff(b: seq<bit>, p: nat, acc: seq<nat>, n: nat, vs: seq<nat>, q: nat)
    requires ValidThrees(acc) && |acc| + |vs| == n
    ensures ReadThrees(b, p, acc, n) == Got(acc + vs, q) <==>
            ValidThrees(vs) && (n == |acc| || At(b, p, EncodeThrees(vs))) && q == p + 3 * |vs|
    decreases |vs|
  {
    hide LsbBits, Take;
    assert Pow2(3) == 8;
    if |vs| == 0 {
      assert acc + vs == acc;
    } else {
      TakeIff(b, p, 3, vs[0], p + 3);
      AtConcat(b, p, LsbBits(vs[0], 3), EncodeThrees(vs[1..]));
      if Take(b, p, 3).Got? && Take(b, p, 3).value == vs[0] {
        ReadThreesIff(b, p + 3, acc + [vs[0]], n, vs[1..], q);
        assert (acc + [vs[0]]) + vs[1..] == acc + vs;
        assert ValidThrees(vs) <==> vs[0] < 8 && ValidThrees(vs[1..]);
      } else if Take(b, p, 3).Got? {
        var v := Take(b, p, 3).value;
        assert (acc + [v])[|acc|] == v != vs[0] == (acc + vs)[|acc|];
        assert ReadThrees(b, p, acc, n) == ReadThrees(b, p + 3, acc + [v], n);
      }
    }
  }

  predicate ValidOp(cl: Lengths, acc: Lengths, op: LenOp) {
    IsSymbol(cl, op.sym) && op.extra < Pow2(OpBits(op.sym)) && (op.sym == 16 ==> acc != [])
  }

  function EncodeOp(cl: Lengths, op: LenOp): seq<bit>
    requires IsSymbol(cl, op.sym)
  {
    CodeBits(cl, op.sym) + LsbBits(op.extra, OpBits(op.sym))
  }

  lemma ReadOpIff(cl: Lengths, b: seq<bit>, p: nat, acc: Lengths, op: LenOp, q: nat)
    requires |cl| == 19 && !OverSubscribed(cl)
    ensures ReadOp(cl, b, p, acc == []) == Got(op, q) <==>
            ValidOp(cl, acc, op) && At(b, p, EncodeOp(cl, op)) && q == p + |EncodeOp(cl, op)|
  {
    hide CodeBits, OverSubscribed, ReadSymbol, Pow2, LsbBits, Take;
    if IsSymbol(cl, op.sym) {
      var r := p + cl[op.sym];
      ReadSymbolIff(cl, b, p, op.sym, r);
      TakeIff(b, r, OpBits(op.sym), op.extra, q);
      AtConcat(b, p, CodeBits(cl, op.sym), LsbBits(op.extra, OpBits(op.sym)));
    }
  }

  /** The steps `ops` bring the lengths from `acc` to exactly `total` lengths. */
  predicate ValidOps(cl: Lengths, acc: Lengths, ops: seq<LenOp>, total: nat)
    decreases |ops|
  {
    if |ops| == 0 then |acc| == total
    else
      && ValidOp(cl, acc, ops[0])
      && |acc| + OpCount(ops[0]) <= total
      && ValidOps(cl, ApplyOp(acc, ops[0]), ops[1..], total)
  }

  function EncodeOps(cl: Lengths, acc: Lengths, ops: seq<LenOp>, total: nat): seq<bit>
    requires ValidOps(cl, acc, ops, total)
    decreases |ops|
  {
    if |ops| == 0 then []
    else EncodeOp(cl, ops[0]) + EncodeOps(cl, ApplyOp(acc, ops[0]), ops[1..], total)
  }

  /** The run-length expansion of the steps. */
  function ExpandOps(cl: Lengths, acc: Lengths, ops: seq<LenOp>, total: nat): (ls: Lengths)
    requires ValidOps(cl, acc, ops, total)
    ensures |ls| == total && acc <= ls
    decreases |ops|
  {
    if |ops| == 0 then acc else ExpandOps(cl, ApplyOp(acc, ops[0]), ops[1..], total)
  }

  lemma {:induction false} LengthsSound(cl: Lengths, b: seq<bit>, p: nat, acc: Lengths, total: nat)
    returns (ops: seq<LenOp>)
    requires |cl| == 19 && !OverSubscribed(cl) && p <= |b| && |acc| <= total
    requires ReadLengths(cl, b, p, acc, total).Got?
    ensures ValidOps(cl, acc, ops, total) && At(b, p, EncodeOps(cl, acc, ops, total))
    ensures ReadLengths(cl, b, p, acc, total) ==
            Got(ExpandOps(cl, acc, ops, total), p + |EncodeOps(cl, acc, ops, total)|)
    decreases |b| - p
  {
    hide OverSubscribed, ReadOp, EncodeOp, OpCount, OpLength, Run, Pow2;
    if |acc| == total {
      ops := [];
    } else {
      var Got(op, q) := ReadOp(cl, b, p, acc == []);
      ReadOpIff(cl, b, p, acc, op, q);
      var rest := LengthsSound(cl, b, q, ApplyOp(acc, op), total);
      ops := [op] + rest;
      assert ops[1..] == rest;
      AtConcat(b, p, EncodeOp(cl, op), EncodeOps(cl, ApplyOp(acc, op), rest, total));
    }
  }

  lemma {:induction false} LengthsComplete(cl: Lengths, b: seq<bit>, p: nat, acc: Lengths, ops: seq<LenOp>, total: nat)
    requires |cl| == 19 && !OverSubscribed(cl) && p <= |b| && |acc| <= total
    requires ValidOps(cl, acc, ops, total) && At(b, p, EncodeOps(cl, acc, ops, total))
    ensures ReadLengths(cl, b, p, acc, total) ==
            Got(ExpandOps(cl, acc, ops, total), p + |EncodeOps(cl, acc, ops, total)|)
    decreases |ops|
  {
    hide OverSubscribed, ReadOp, EncodeOp, OpLength, Run, Pow2;
    if |ops| > 0 {
      var op := ops[0];
      var q := p + |EncodeOp(cl, op)|;
      AtConcat(b, p, EncodeOp(cl, op), EncodeOps(cl, ApplyOp(acc, op), ops[1..], total));
      ReadOpIff(cl, b, p, acc, op, q);
      LengthsComplete(cl, b, q, ApplyOp(acc, op), ops[1..], total);
    }
  }

  predicate ValidCounts(n: Counts) {
    257 <= n.nlen <= MAX_L_CODES && 1 <= n.ndist <= MAX_D_CODES && 4 <= n.ncode <= 19
  }

  function EncodeCounts(n: Counts): (c: seq<bit>)
    requires ValidCounts(n)
    ensures |c| == 14
  {
    LsbBits(n.nlen - 257, 5) + (LsbBits(n.ndist - 1, 5) + LsbBits(n.ncode - 4, 4))
  }

  lemma ReadCountsIff(b: seq<bit>, p: nat, n: Counts, q: nat)
    ensures ReadCounts(b, p) == Got(n, q) <==> ValidCounts(n) && At(b, p, EncodeCounts(n)) && q == p + 14
  {
    hide LsbBits, Take;
    assert Pow2(4) == 16 && Pow2(5) == 32;
    if ValidCounts(n) {
      var x, y, z := LsbBits(n.nlen - 257, 5), LsbBits(n.ndist - 1, 5), LsbBits(n.ncode - 4, 4);
      AtConcat(b, p, x, y + z);
      AtConcat(b, p + 5, y, z);
      TakeIff(b, p, 5, n.nlen - 257, p + 5);
      TakeIff(b, p + 5, 5, n.ndist - 1, p + 10);
      TakeIff(b, p + 10, 4, n.ncode - 4, p + 14);
    }
  }

  /** The syntax of a dynamic header: counts, code length code lengths, run-length steps. */
  datatype DynamicHeader = DynamicHeader(n: Counts, pre: seq<nat>, ops: seq<LenOp>)

  predicate ValidPre(h: DynamicHeader) {
    |h.pre| == h.n.ncode <= 19 && ValidThrees(h.pre) && CompleteOrEmpty(PreLengths(h.pre))
  }

  function Total(h: DynamicHeader): nat {
    h.n.nlen + h.n.ndist
  }

  predicate ValidHeader(h: DynamicHeader) {
    && ValidCounts(h.n) && ValidPre(h)
    && ValidOps(PreLengths(h.pre), [], h.ops, Total(h))
    && var ls := ExpandOps(PreLengths(h.pre), [], h.ops, Total(h));
       ls[256] != 0 && Usable(ls[..h.n.nlen]) && Usable(ls[h.n.nlen..])
  }

  function EncodeHeader(h: DynamicHeader): seq<bit>
    requires ValidHeader(h)
  {
    EncodeCounts(h.n) + (EncodeThrees(h.pre) + EncodeOps(PreLengths(h.pre), [], h.ops, Total(h)))
  }

  /** The two codes that a header describes. */
  function HeaderTables(h: DynamicHeader): (t: Tables)
    requires ValidHeader(h)
    ensures |t.distances| == h.n.ndist && |t.literals| == h.n.nlen
    ensures IsSymbol(t.literals, 256)
  {
    var ls := ExpandOps(PreLengths(h.pre), [], h.ops, Total(h));
    Tables(ls[..h.n.nlen], ls[h.n.nlen..])
  }

  lemma UsableFits(ls: Lengths)
    requires Usable(ls)
    ensures !OverSubscribed(ls)
  {
    hide Left, Count;
    if AllZero(ls) {
      AllZeroHasNoSymbols(ls);
    }
  }

  lemma PreCodeComplete(h: DynamicHeader, b: seq<bit>, p: nat)
    requires ValidPre(h) && At(b, p, EncodeThrees(h.pre))
    ensures ReadPreCode(b, p, h.n.ncode) == Got(PreLengths(h.pre), p + |EncodeThrees(h.pre)|)
  {
    hide PreLengths, CompleteOrEmpty;
    assert [] + h.pre == h.pre;
    ReadThreesIff(b, p, [], h.n.ncode, h.pre, p + 3 * |h.pre|);
  }

  /** An accepted header is the encoding of a valid header, and its tables are what the header describes. */
  lemma TablesSound(b: seq<bit>, p: nat) returns (h: DynamicHeader)
    requires ReadTables(b, p).Got?
    ensures ValidHeader(h) && At(b, p, EncodeHeader(h))
    ensures ReadTables(b, p) == Got(HeaderTables(h), p + |EncodeHeader(h)|)
  {
    hide PreLengths, CompleteOrEmpty, EncodeCounts, EncodeThrees, EncodeOps, ExpandOps, ValidOps, Usable, ReadCounts;
    hide ReadThrees, ReadLengths, At;
    var Got(n, p1) := ReadCounts(b, p);
    ReadCountsIff(b, p, n, p1);
    var Got(pre, p2) := ReadThrees(b, p1, [], n.ncode);
    assert [] + pre == pre;
    ReadThreesIff(b, p1, [], n.ncode, pre, p2);
    var cl := PreLengths(pre);
    EmptyOrFits(cl);
    var ops := LengthsSound(cl, b, p2, [], n.nlen + n.ndist);
    h := DynamicHeader(n, pre, ops);
    AtConcat(b, p1, EncodeThrees(pre), EncodeOps(cl, [], ops, Total(h)));
    AtConcat(b, p, EncodeCounts(n), EncodeThrees(pre) + EncodeOps(cl, [], ops, Total(h)));
  }

  lemma EmptyOrFits(ls: Lengths)
    requires CompleteOrEmpty(ls)
    ensures !OverSubscribed(ls)
  {
    UsableFits(ls);
  }

  lemma TablesComplete(h: DynamicHeader, b: seq<bit>, p: nat)
    requires ValidHeader(h) && At(b, p, EncodeHeader(h))
    ensures ReadTables(b, p) == Got(HeaderTables(h), p + |EncodeHeader(h)|)
  {
    hide PreLengths, CompleteOrEmpty, EncodeCounts, EncodeThrees, EncodeOps, ExpandOps, ValidOps, Usable, ReadCounts;
    hide ReadPreCode, ReadLengths;
    var cl := PreLengths(h.pre);
    AtConcat(b, p, EncodeCounts(h.n), EncodeThrees(h.pre) + EncodeOps(cl, [], h.ops, Total(h)));
    AtConcat(b, p + 14, EncodeThrees(h.pre), EncodeOps(cl, [], h.ops, Total(h)));
    ReadCountsIff(b, p, h.n, p + 14);
    PreCodeComplete(h, b, p + 14);
    EmptyOrFits(cl);
    LengthsComplete(cl, b, p + 14 + 3 * |h.pre|, [], h.ops, Total(h));
  }

  // ----- blocks -----

  datatype BlockTree =
    | Stored(padding: seq<bit>, data: seq<byte>)
    | Fixed(tokens: seq<Token>)
    | Dynamic(header: DynamicHeader, tokens: seq<Token>)

  function Kind(t: BlockTree): nat {
    match t
    case Stored(_, _) => 0
    case Fixed(_) => 1
    case Dynamic(_, _) => 2
  }

  /** Valid at position `p`, to which a stored block is padded up to a byte boundary. */
  predicate ValidBlock(t: BlockTree, p: nat) {
    match t
    case Stored(padding, data) => |padding| == Align(p) - p && |data| < 0x10000
    case Fixed(ts) => ValidTokens(FixedLiterals(), FixedDistances(), ts)
    case Dynamic(h, ts) => ValidHeader(h) && ValidTokens(HeaderTables(h).literals, HeaderTables(h).distances, ts)
  }

  function EncodeBlock(t: BlockTree, p: nat): (c: seq<bit>)
    requires ValidBlock(t, p)
  {
    match t
    case Stored(padding, data) => EncodeStored(padding, data)
    case Fixed(ts) => EncodeTokens(FixedLiterals(), FixedDistances(), ts)
    case Dynamic(h, ts) => EncodeHeader(h) + EncodeTokens(HeaderTables(h).literals, HeaderTables(h).distances, ts)
  }

  function ExpandBlock(t: BlockTree, p: nat, out: seq<byte>): (r: Option<seq<byte>>)
    requires ValidBlock(t, p)
    ensures r.Some? ==> out <= r.value
  {
    match t
    case Stored(_, data) => Some(out + data)
    case Fixed(ts) => ExpandTokens(ts, out)
    case Dynamic(_, ts) => ExpandTokens(ts, out)
  }

  lemma FixedFits()
    ensures !OverSubscribed(FixedLiterals()) && !OverSubscribed(FixedDistances())
  {
    hide FixedLiterals, FixedDistances;
    FixedCodesFit();
  }

  lemma TablesFit(h: DynamicHeader)
    requires ValidHeader(h)
    ensures !OverSubscribed(HeaderTables(h).literals) && !OverSubscribed(HeaderTables(h).distances)
  {
    hide PreLengths, CompleteOrEmpty, ExpandOps, ValidOps, Usable;
    UsableFits(HeaderTables(h).literals);
    UsableFits(HeaderTables(h).distances);
  }

  lemma BlockSound(kind: nat, b: seq<bit>, p: nat, out: seq<byte>, limit: nat) returns (t: BlockTree)
    requires p <= |b| && |out| <= limit && Block(kind, b, p, out, limit).err == 0
    ensures Kind(t) == kind && ValidBlock(t, p) && At(b, p, EncodeBlock(t, p))
    ensures ExpandBlock(t, p, out).Some? && |ExpandBlock(t, p, out).value| <= limit
    ensures Block(kind, b, p, out, limit) == Result(0, p + |EncodeBlock(t, p)|, ExpandBlock(t, p, out).value)
  {
    hide StoredBlock, Codes, ReadTables, OverSubscribed, ValidTokens, EncodeTokens, EncodeStored, EncodeHeader,
      ValidHeader, HeaderTables, FixedLiterals, FixedDistances, ExpandTokens;
    if kind == 0 {
      var data := StoredSound(b, p, out, limit);
      t := Stored(b[p..Align(p)], data);
    } else if kind == 1 {
      FixedFits();
      var ts := CodesSound(FixedLiterals(), FixedDistances(), b, p, out, limit);
      t := Fixed(ts);
    } else {
      var h := TablesSound(b, p);
      TablesFit(h);
      var q := p + |EncodeHeader(h)|;
      var ts := CodesSound(HeaderTables(h).literals, HeaderTables(h).distances, b, q, out, limit);
      t := Dynamic(h, ts);
      AtConcat(b, p, EncodeHeader(h), EncodeTokens(HeaderTables(h).literals, HeaderTables(h).distances, ts));
    }
  }

  lemma BlockComplete(t: BlockTree, b: seq<bit>, p: nat, out: seq<byte>, limit: nat)
    requires p <= |b| && ValidBlock(t, p) && At(b, p, EncodeBlock(t, p))
    requires ExpandBlock(t, p, out).Some? && |ExpandBlock(t, p, out).value| <= limit
    ensures Block(Kind(t), b, p, out, limit) == Result(0, p + |EncodeBlock(t, p)|, ExpandBlock(t, p, out).value)
  {
    hide StoredBlock, Codes, ReadTables, OverSubscribed, ValidTokens, EncodeTokens, EncodeStored, EncodeHeader,
      ValidHeader, HeaderTables, FixedLiterals, FixedDistances, ExpandTokens;
    match t
    case Stored(padding, data) =>
      StoredComplete(padding, data, b, p, out, limit);
    case Fixed(ts) =>
      FixedFits();
      CodesComplete(FixedLiterals(), FixedDistances(), ts, b, p, out, limit);
    case Dynamic(h, ts) =>
      TablesFit(h);
      AtConcat(b, p, EncodeHeader(h), EncodeTokens(HeaderTables(h).literals, HeaderTables(h).distances, ts));
      TablesComplete(h, b, p);
      CodesComplete(HeaderTables(h).literals, HeaderTables(h).distances, ts, b, p + |EncodeHeader(h)|, out, limit);
  }

  // ----- streams -----

  /** The last-block flag and the block type. */
  function HeaderBits(last: bool, kind: nat): (c: seq<bit>)
    ensures |c| == 3
  {
    LsbBits(if last then 1 else 0, 1) + LsbBits(kind, 2)
  }

  lemma ReadHeaderIff(b: seq<bit>, p: nat, h: Header, q: nat)
    ensures ReadHeader(b, p) == Got(h, q) <==> h.kind < 4 && At(b, p, HeaderBits(h.last, h.kind)) && q == p + 3
  {
    hide LsbBits, Take;
    var v := if h.last then 1 else 0;
    assert Pow2(1) == 2 && Pow2(2) == 4;
    AtConcat(b, p, LsbBits(v, 1), LsbBits(h.kind, 2));
    TakeIff(b, p, 1, v, p + 1);
    TakeIff(b, p + 1, 2, h.kind, q);
    if Take(b, p, 1).Got? && Take(b, p, 1).value != v {
      TakeIff(b, p, 1, 1 - v, p + 1);
    }
  }

  predicate ValidBlocks(ts: seq<BlockTree>, p: nat)
    decreases |ts|
  {
    && |ts| > 0
    && ValidBlock(ts[0], p + 3)
    && (|ts| > 1 ==> ValidBlocks(ts[1..], p + 3 + |EncodeBlock(ts[0], p + 3)|))
  }

  /** All blocks in a row, the last one flagged. */
  function EncodeBlocks(ts: seq<BlockTree>, p: nat): (c: seq<bit>)
    requires ValidBlocks(ts, p)
    ensures 3 <= |c|
    decreases |ts|
  {
    hide ValidBlock, EncodeBlock, HeaderBits, Kind;
    var c := EncodeBlock(ts[0], p + 3);
    if |ts| == 1 then HeaderBits(true, Kind(ts[0])) + c
    else HeaderBits(false, Kind(ts[0])) + (c + EncodeBlocks(ts[1..], p + 3 + |c|))
  }

  lemma PrefixOfPrefix(a: seq<byte>, b: seq<byte>, c: seq<byte>)
    requires a <= b && b <= c
    ensures a <= c
  {
  }

  function ExpandBlocks(ts: seq<BlockTree>, p: nat, out: seq<byte>): (r: Option<seq<byte>>)
    requires ValidBlocks(ts, p)
    ensures r.Some? ==> out <= r.value
    decreases |ts|
  {
    hide ValidBlock, EncodeBlock, ExpandBlock;
    match ExpandBlock(ts[0], p + 3, out)
    case None => None
    case Some(o) =>
      if |ts| == 1 then Some(o)
      else
        match ExpandBlocks(ts[1..], p + 3 + |EncodeBlock(ts[0], p + 3)|, o)
        case None => None
        case Some(all) => PrefixOfPrefix(out, o, all); Some(all)
  }

  lemma {:induction false} BlocksSound(b: seq<bit>, p: nat, out: seq<byte>, limit: nat) returns (ts: seq<BlockTree>)
    requires p <= |b| && |out| <= limit && Blocks(b, p, out, limit).err == 0
    ensures ValidBlocks(ts, p) && At(b, p, EncodeBlocks(ts, p))
    ensures ExpandBlocks(ts, p, out).Some? && |ExpandBlocks(ts, p, out).value| <= limit
    ensures Blocks(b, p, out, limit) == Result(0, p + |EncodeBlocks(ts, p)|, ExpandBlocks(ts, p, out).value)
    decreases |b| - p
  {
    hide Block, ReadHeader, HeaderBits, ValidBlock, EncodeBlock, ExpandBlock, Kind;
    var Got(h, q) := ReadHeader(b, p);
    ReadHeaderIff(b, p, h, q);
    var t := BlockSound(h.kind, b, q, out, limit);
    var c, o := EncodeBlock(t, q), ExpandBlock(t, q, out).value;
    if h.last {
      ts := [t];
      AtConcat(b, p, HeaderBits(true, h.kind), c);
    } else {
      var rest := BlocksSound(b, q + |c|, o, limit);
      ts := [t] + rest;
      assert ts[1..] == rest;
      AtConcat(b, q, c, EncodeBlocks(rest, q + |c|));
      AtConcat(b, p, HeaderBits(false, h.kind), c + EncodeBlocks(rest, q + |c|));
    }
  }

  lemma {:induction false} BlocksComplete(ts: seq<BlockTree>, b: seq<bit>, p: nat, out: seq<byte>, limit: nat)
    requires p <= |b| && ValidBlocks(ts, p) && At(b, p, EncodeBlocks(ts, p))
    requires ExpandBlocks(ts, p, out).Some? && |ExpandBlocks(ts, p, out).value| <= limit
    ensures Blocks(b, p, out, limit) == Result(0, p + |EncodeBlocks(ts, p)|, ExpandBlocks(ts, p, out).value)
    decreases |ts|
  {
    hide Block, ReadHeader, HeaderBits, ValidBlock, EncodeBlock, ExpandBlock, Kind;
    var t, q := ts[0], p + 3;
    KindBelow(t);
    var c := EncodeBlock(t, q);
    if |ts| == 1 {
      AtConcat(b, p, HeaderBits(true, Kind(t)), c);
      ReadHeaderIff(b, p, Header(true, Kind(t)), q);
      BlockComplete(t, b, q, out, limit);
    } else {
      var o := ExpandBlock(t, q, out).value;
      AtConcat(b, p, HeaderBits(false, Kind(t)), c + EncodeBlocks(ts[1..], q + |c|));
      AtConcat(b, q, c, EncodeBlocks(ts[1..], q + |c|));
      ReadHeaderIff(b, p, Header(false, Kind(t)), q);
      BlockComplete(t, b, q, out, limit);
      BlocksComplete(ts[1..], b, q + |c|, o, limit);
    }
  }

  lemma KindBelow(t: BlockTree)
    ensures Kind(t) < 3
  {
  }

  // ----- main results -----

  /** `source` starts with the encoding of the tree `ts`. */
  predicate Encodes(ts: seq<BlockTree>, source: seq<byte>) {
    ValidBlocks(ts, 0) && At(BitsOf(source), 0, EncodeBlocks(ts, 0))
  }

  /** The bytes that a stream stands for. */
  function Meaning(ts: seq<BlockTree>): Option<seq<byte>>
    requires ValidBlocks(ts, 0)
  {
    ExpandBlocks(ts, 0, [])
  }

  /** Inflating succeeds exactly on the encodings of trees whose bytes exist and fit. */
  lemma InflateAcceptsIff(source: seq<byte>, limit: nat)
    ensures Inflate(source, limit).err == 0 <==>
            exists ts: seq<BlockTree> ::
              Encodes(ts, source) && Meaning(ts).Some? && |Meaning(ts).value| <= limit
  {
    hide Blocks, ValidBlocks, ExpandBlocks, EncodeBlocks, BitsOf;
    if Inflate(source, limit).err == 0 {
      var ts := BlocksSound(BitsOf(source), 0, [], limit);
      assert Encodes(ts, source);
    }
    forall ts: seq<BlockTree> | Encodes(ts, source) && Meaning(ts).Some? && |Meaning(ts).value| <= limit
      ensures Inflate(source, limit).err == 0
    {
      InflateGives(ts, source, limit);
    }
  }

  /** Whatever tree the source encodes, inflating gives its bytes and stops where its encoding ends. */
  lemma InflateGives(ts: seq<BlockTree>, source: seq<byte>, limit: nat)
    requires Encodes(ts, source) && Meaning(ts).Some? && |Meaning(ts).value| <= limit
    ensures Inflate(source, limit) == Result(0, |EncodeBlocks(ts, 0)|, Meaning(ts).value)
  {
    hide Blocks, ValidBlocks, ExpandBlocks, EncodeBlocks, BitsOf;
    BlocksComplete(ts, BitsOf(source), 0, [], limit);
  }

  /** Without room for its bytes no input inflates. */
  lemma InflateNeedsRoom(ts: seq<BlockTree>, source: seq<byte>, limit: nat)
    requires Encodes(ts, source) && Meaning(ts).Some? && |Meaning(ts).value| > limit
    ensures Inflate(source, limit).err != 0
  {
    hide Blocks, ValidBlocks, ExpandBlocks, EncodeBlocks, BitsOf, Inflate;
    var d := Meaning(ts).value;
    InflateGives(ts, source, |d|);
    InflateAcceptsIff(source, limit);
    if Inflate(source, limit).err == 0 {
      var us: seq<BlockTree> :| Encodes(us, source) && Meaning(us).Some? && |Meaning(us).value| <= limit;
      InflateGives(us, source, |d|);
      assert false;
    }
  }

  /** Bits packed into bytes, the last byte filled up with zeros. */
  function Pack(c: seq<bit>): seq<byte>
  {
    assert Pow2(8) == 256;
    if |c| == 0 then []
    else if |c| <= 8 then [Lsb(c + seq(8 - |c|, (i: int) => 0))]
    else [Lsb(c[..8])] + Pack(c[8..])
  }

  lemma {:induction false} PackAt(c: seq<bit>)
    ensures At(BitsOf(Pack(c)), 0, c)
  {
    hide BitsOf, Lsb, LsbBits;
    if |c| == 0 {
    } else if |c| <= 8 {
      var d := c + seq(8 - |c|, (i: int) => 0);
      ByteAt(Pack(c), 0);
      BitsOfLsb(d);
      assert BitsOf(Pack(c))[0..8] == d;
      assert d[0..|c|] == c && BitsOf(Pack(c))[0..8][0..|c|] == BitsOf(Pack(c))[0..|c|];
    } else {
      var x := [Lsb(c[..8])];
      PackAt(c[8..]);
      BitsOfConcat(x, Pack(c[8..]));
      ByteAt(x, 0);
      BitsOfLsb(c[..8]);
      assert BitsOf(x) == BitsOf(x)[0..8] == c[..8];
      assert c == c[..8] + c[8..];
      var y := BitsOf(Pack(c[8..]));
      assert (c[..8] + y)[0..|c|] == c[..8] + y[0..|c| - 8];
    }
  }

  /** Round trip: any tree that stands for bytes, encoded and packed, inflates to these bytes. */
  lemma EncodeInflateRoundTrip(ts: seq<BlockTree>, limit: nat)
    requires ValidBlocks(ts, 0) && Meaning(ts).Some? && |Meaning(ts).value| <= limit
    ensures Inflate(Pack(EncodeBlocks(ts, 0)), limit) == Result(0, |EncodeBlocks(ts, 0)|, Meaning(ts).value)
  {
    hide Blocks, ValidBlocks, ExpandBlocks, EncodeBlocks, BitsOf, Pack;
    PackAt(EncodeBlocks(ts, 0));
    InflateGives(ts, Pack(EncodeBlocks(ts, 0)), limit);
  }

  // ----- every length and distance has a token -----

  lemma {:induction false} LengthSymbol(n: nat, l: nat) returns (lsym: nat, extra: nat)
    requires l < 28 && 3 <= n < LENS[l] + Pow2(LEXT[l])
    requires forall k: nat :: k < 29 ==> LengthRule(k)
    ensures lsym < 28 && extra < Pow2(LEXT[lsym]) && LENS[lsym] + extra == n
    decreases l
  {
    assert |LENS| == 29 && |LEXT| == 29;
    hide Pow2, LENS, LEXT;
    assert LengthRule(l);
    if LENS[l] <= n {
      lsym, extra := l, n - LENS[l];
    } else {
      lsym, extra := LengthSymbol(n, l - 1);
    }
  }

  lemma {:induction false} DistanceSymbol(n: nat, d: nat) returns (dsym: nat, extra: nat)
    requires d < 30 && 1 <= n < DISTS[d] + Pow2(DEXT[d])
    requires forall k: nat :: k < 30 ==> DistanceRule(k)
    ensures dsym < 30 && extra < Pow2(DEXT[dsym]) && DISTS[dsym] + extra == n
    decreases d
  {
    assert |DISTS| == 30 && |DEXT| == 30;
    hide Pow2, DISTS, DEXT;
    assert DistanceRule(d);
    if DISTS[d] <= n {
      dsym, extra := d, n - DISTS[d];
    } else {
      dsym, extra := DistanceSymbol(n, d - 1);
    }
  }

  /** Matches of length 3 to 258 and distance 1 to 32768 can all be written. */
  lemma EveryMatchExpressible(len: nat, dist: nat) returns (t: Token)
    requires 3 <= len <= 258 && 1 <= dist <= 32768
    ensures t.Match? && t.lsym < 29 && t.dsym < 30
    ensures t.lextra < Pow2(LEXT[t.lsym]) && t.dextra < Pow2(DEXT[t.dsym])
    ensures MatchLength(t) == len && MatchDistance(t) == dist
  {
    hide LengthRule, DistanceRule;
    LengthTable();
    DistanceTable();
    TablePowers();
    var lsym, lextra := LengthSymbol(len, 27);
    var dsym, dextra := DistanceSymbol(dist, 29);
    t := Match(lsym, lextra, dsym, dextra);
  }

  // ----- every byte string has an encoding -----

  /** Stored blocks for `d`, the first one at position `p`. */
  function StoredTrees(d: Bytes, p: nat): (ts: seq<BlockTree>)
    ensures |ts| > 0
    decreases |d|
  {
    var padding: seq<bit> := seq(Align(p + 3) - (p + 3), (i: int) => 0);
    if |d| < 0x10000 then [Stored(padding, d)]
    else
      var x := d[..0xffff];
      [Stored(padding, x)] + StoredTrees(d[0xffff..], p + 3 + |EncodeStored(padding, x)|)
  }

  /** From position `p` on the blocks are valid and turn `out` into `r`. */
  ghost predicate Expands(ts: seq<BlockTree>, p: nat, out: Bytes, r: Bytes) {
    ValidBlocks(ts, p) && ExpandBlocks(ts, p, out) == Some(r)
  }

  /** One block does so, and ends at position `q`. */
  ghost predicate BlockExpands(t: BlockTree, p: nat, out: Bytes, q: nat, r: Bytes) {
    ValidBlock(t, p + 3) && q == p + 3 + |EncodeBlock(t, p + 3)| && ExpandBlock(t, p + 3, out) == Some(r)
  }

  lemma StoredExpands(padding: seq<bit>, x: Bytes, p: nat, out: Bytes)
    requires |padding| == Align(p + 3) - (p + 3) && |x| < 0x10000
    ensures BlockExpands(Stored(padding, x), p, out, p + 3 + |EncodeStored(padding, x)|, out + x)
  {
    hide EncodeStored;
  }

  lemma FirstBlock(t: BlockTree, rest: seq<BlockTree>, p: nat, out: Bytes, q: nat, o: Bytes, r: Bytes)
    requires BlockExpands(t, p, out, q, o)
    requires if |rest| == 0 then r == o else Expands(rest, q, o, r)
    ensures Expands([t] + rest, p, out, r)
  {
    hide ValidBlock, EncodeBlock, ExpandBlock;
    assert ([t] + rest)[1..] == rest;
  }

  lemma {:induction false} StoredTreesExpand(d: Bytes, p: nat, out: Bytes)
    ensures Expands(StoredTrees(d, p), p, out, out + d)
    decreases |d|
  {
    hide EncodeStored, Expands, BlockExpands;
    var padding: seq<bit> := seq(Align(p + 3) - (p + 3), (i: int) => 0);
    if |d| < 0x10000 {
      StoredExpands(padding, d, p, out);
      FirstBlock(Stored(padding, d), [], p, out, p + 3 + |EncodeStored(padding, d)|, out + d, out + d);
      assert [Stored(padding, d)] + [] == [Stored(padding, d)];
    } else {
      var x, y := d[..0xffff], d[0xffff..];
      var q := p + 3 + |EncodeStored(padding, x)|;
      assert out + x + y == out + d;
      StoredTreesExpand(y, q, out + x);
      StoredExpands(padding, x, p, out);
      FirstBlock(Stored(padding, x), StoredTrees(y, q), p, out, q, out + x, out + d);
    }
  }

  /** Any byte string can be written as a Deflate stream, and inflating gives it back. */
  lemma EveryStringEncodable(d: Bytes) returns (source: Bytes)
    ensures exists ts: seq<BlockTree> :: Encodes(ts, source) && Meaning(ts) == Some(d)
    ensures Inflate(source, |d|).err == 0 && Inflate(source, |d|).out == d
  {
    hide ValidBlocks, ExpandBlocks, EncodeBlocks, BitsOf, Pack, StoredTrees, Blocks;
    var ts := StoredTrees(d, 0);
    StoredTreesExpand(d, 0, []);
    assert [] + d == d;
    source := Pack(EncodeBlocks(ts, 0));
    PackAt(EncodeBlocks(ts, 0));
    assert Encodes(ts, source) && Meaning(ts) == Some(d);
    InflateGives(ts, source, |d|);
  }
}
