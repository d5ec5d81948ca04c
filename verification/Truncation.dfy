/**
 How inflating depends on the amount of input and of output space: more input never changes a
 result that was not "out of input", and more space never changes a result that was not "out of space".
 */
module Truncation {
  import opened Bits
  import opened Canonical
  import opened Deflate
  import opened DeflateGrammar

  // ----- more input -----

  /** `s`, read from a longer stream, agrees with `r` unless `r` ran out of input. */
  ghost predicate Settled<T>(r: Read<T>, s: Read<T>) {
    (r.Bad? && r.err == 2) || s == r
  }

  ghost predicate Prefix(b: seq<bit>, c: seq<bit>) {
    |b| <= |c| && c[..|b|] == b
  }

  lemma TakeLonger(b: seq<bit>, c: seq<bit>, p: nat, n: nat)
    requires Prefix(b, c)
    ensures Settled(Take(b, p, n), Take(c, p, n))
  {
    hide Lsb, Pow2;
    if p + n <= |b| {
      assert b[p..p + n] == c[p..p + n];
    }
  }

  lemma AtLonger(b: seq<bit>, c: seq<bit>, p: nat, code: seq<bit>)
    requires Prefix(b, c) && p + |code| <= |b|
    ensures At(b, p, code) <==> At(c, p, code)
  {
    assert b[p..p + |code|] == c[p..p + |code|];
  }

  lemma SymbolLonger(ls: Lengths, b: seq<bit>, c: seq<bit>, p: nat)
    requires Prefix(b, c) && !OverSubscribed(ls)
    ensures Settled(ReadSymbol(ls, b, p), ReadSymbol(ls, c, p))
  {
    hide OverSubscribed, CodeBits, At;
    var r, s := ReadSymbol(ls, b, p), ReadSymbol(ls, c, p);
    if r.Got? {
      AtLonger(b, c, p, CodeBits(ls, r.value));
      ReadSymbolIff(ls, c, p, r.value, r.pos);
    } else if p + MAX_BITS <= |b| && s.Got? {
      AtLonger(b, c, p, CodeBits(ls, s.value));
      ReadSymbolIff(ls, b, p, s.value, s.pos);
    }
  }

  lemma MatchLonger(lsym: nat, dl: Lengths, b: seq<bit>, c: seq<bit>, p: nat)
    requires Prefix(b, c) && |dl| <= MAX_D_CODES && !OverSubscribed(dl)
    ensures Settled(ReadMatch(lsym, dl, b, p), ReadMatch(lsym, dl, c, p))
  {
    hide OverSubscribed, ReadSymbol, Take, Prefix;
    if lsym < 29 {
      TakeLonger(b, c, p, LEXT[lsym]);
      var q := p + LEXT[lsym];
      SymbolLonger(dl, b, c, q);
      var r := ReadSymbol(dl, b, q);
      if r.Got? {
        TakeLonger(b, c, r.pos, DEXT[r.value]);
      }
    }
  }

  lemma TokenLonger(ll: Lengths, dl: Lengths, b: seq<bit>, c: seq<bit>, p: nat)
    requires Prefix(b, c) && |dl| <= MAX_D_CODES && !OverSubscribed(ll) && !OverSubscribed(dl)
    ensures Settled(ReadToken(ll, dl, b, p), ReadToken(ll, dl, c, p))
  {
    hide OverSubscribed, ReadSymbol, ReadMatch, Prefix;
    SymbolLonger(ll, b, c, p);
    var r := ReadSymbol(ll, b, p);
    if r.Got? && r.value > 256 {
      MatchLonger(r.value - 257, dl, b, c, r.pos);
    }
  }

  /** `s`, from a longer stream, is the result `r`, or `r` ran out of input with less output. */
  ghost predicate Grows(r: Result, s: Result) {
    s == r || (r.err == 2 && r.out <= s.out)
  }

  lemma {:induction false} CodesLonger(ll: Lengths, dl: Lengths, b: seq<bit>, c: seq<bit>, p: nat,
                                       out: seq<byte>, limit: nat)
    requires Prefix(b, c) && p <= |b| && |dl| <= MAX_D_CODES && !OverSubscribed(ll) && !OverSubscribed(dl)
    ensures Grows(Codes(ll, dl, b, p, out, limit), Codes(ll, dl, c, p, out, limit))
    decreases |b| - p
  {
    hide OverSubscribed, ReadToken, ApplyToken, TokenError;
    TokenLonger(ll, dl, b, c, p);
    var r := ReadToken(ll, dl, b, p);
    if r.Got? && TokenError(r.value, out, limit) == 0 && !r.value.EndOfBlock? {
      TokenErrorZero(r.value, out, limit);
      CodesLonger(ll, dl, b, c, r.pos, ApplyToken(r.value, out), limit);
    }
  }

  lemma TokenErrorZero(t: Token, out: seq<byte>, limit: nat)
    requires t.Match? ==> t.lsym < 29 && t.dsym < 30
    ensures t.Match? && TokenError(t, out, limit) == 0 ==> MatchDistance(t) <= |out|
  {
  }

  lemma StoredLonger(b: seq<bit>, c: seq<bit>, p: nat, out: seq<byte>, limit: nat)
    requires Prefix(b, c)
    ensures Grows(StoredBlock(b, p, out, limit), StoredBlock(c, p, out, limit))
  {
    hide Lsb, BytesAt;
    var q := Align(p);
    if q + 32 <= |b| {
      assert b[q..q + 16] == c[q..q + 16] && b[q + 16..q + 32] == c[q + 16..q + 32];
      var n := Lsb(b[q..q + 16]);
      if q + 32 + 8 * n <= |b| {
        BytesLonger(b, c, q + 32, n);
      }
    }
  }

  lemma BytesLonger(b: seq<bit>, c: seq<bit>, p: nat, n: nat)
    requires Prefix(b, c) && p + 8 * n <= |b|
    ensures BytesAt(b, p, n) == BytesAt(c, p, n)
  {
    hide Lsb;
    forall i | 0 <= i < n
      ensures BytesAt(b, p, n)[i] == BytesAt(c, p, n)[i]
    {
      assert b[p + 8 * i..p + 8 * i + 8] == c[p + 8 * i..p + 8 * i + 8];
    }
  }

  lemma {:induction false} ThreesLonger(b: seq<bit>, c: seq<bit>, p: nat, acc: seq<nat>, n: nat)
    requires Prefix(b, c) && |acc| <= n && ValidThrees(acc)
    ensures Settled(ReadThrees(b, p, acc, n), ReadThrees(c, p, acc, n))
    decreases n - |acc|
  {
    hide Take, Prefix;
    if |acc| < n {
      TakeLonger(b, c, p, 3);
      var r := Take(b, p, 3);
      if r.Got? {
        assert Pow2(3) == 8;
        ThreesLonger(b, c, r.pos, acc + [r.value], n);
      }
    }
  }

  lemma OpLonger(cl: Lengths, b: seq<bit>, c: seq<bit>, p: nat, first: bool)
    requires Prefix(b, c) && |cl| == 19 && !OverSubscribed(cl)
    ensures Settled(ReadOp(cl, b, p, first), ReadOp(cl, c, p, first))
  {
    hide OverSubscribed, ReadSymbol, Take, Prefix;
    SymbolLonger(cl, b, c, p);
    var r := ReadSymbol(cl, b, p);
    if r.Got? {
      TakeLonger(b, c, r.pos, OpBits(r.value));
    }
  }

  lemma {:induction false} LengthsLonger(cl: Lengths, b: seq<bit>, c: seq<bit>, p: nat, acc: Lengths, total: nat)
    requires Prefix(b, c) && |cl| == 19 && !OverSubscribed(cl) && p <= |b| && |acc| <= total
    ensures Settled(ReadLengths(cl, b, p, acc, total), ReadLengths(cl, c, p, acc, total))
    decreases |b| - p
  {
    hide OverSubscribed, ReadOp, OpLength, Run;
    if |acc| < total {
      OpLonger(cl, b, c, p, acc == []);
      var r := ReadOp(cl, b, p, acc == []);
      if r.Got? && |acc| + OpCount(r.value) <= total {
        LengthsLonger(cl, b, c, r.pos, ApplyOp(acc, r.value), total);
      }
    }
  }

  lemma CountsLonger(b: seq<bit>, c: seq<bit>, p: nat)
    requires Prefix(b, c)
    ensures Settled(ReadCounts(b, p), ReadCounts(c, p))
  {
    hide Take, Prefix, Pow2;
    TakeLonger(b, c, p, 5);
    TakeLonger(b, c, p + 5, 5);
    TakeLonger(b, c, p + 10, 4);
  }

  lemma TablesLonger(b: seq<bit>, c: seq<bit>, p: nat)
    requires Prefix(b, c)
    ensures Settled(ReadTables(b, p), ReadTables(c, p))
  {
    hide ReadCounts, ReadLengths, ReadThrees, Usable, CompleteOrEmpty, PreLengths;
    CountsLonger(b, c, p);
    var n := ReadCounts(b, p);
    if n.Got? {
      ThreesLonger(b, c, n.pos, [], n.value.ncode);
      var cl := ReadPreCode(b, n.pos, n.value.ncode);
      if cl.Got? {
        EmptyOrFits(cl.value);
        LengthsLonger(cl.value, b, c, cl.pos, [], n.value.nlen + n.value.ndist);
      }
    }
  }

  lemma DynamicLonger(b: seq<bit>, c: seq<bit>, p: nat, out: seq<byte>, limit: nat)
    requires Prefix(b, c)
    ensures Grows(DynamicBlock(b, p, out, limit), DynamicBlock(c, p, out, limit))
  {
    hide ReadTables, Codes, OverSubscribed;
    TablesLonger(b, c, p);
    var r := ReadTables(b, p);
    if r.Got? {
      var h := TablesSound(b, p);
      TablesFit(h);
      CodesLonger(r.value.literals, r.value.distances, b, c, r.pos, out, limit);
    }
  }

  lemma BlockLonger(kind: nat, b: seq<bit>, c: seq<bit>, p: nat, out: seq<byte>, limit: nat)
    requires Prefix(b, c) && p <= |b|
    ensures Grows(Block(kind, b, p, out, limit), Block(kind, c, p, out, limit))
  {
    hide StoredBlock, Codes, DynamicBlock, FixedLiterals, FixedDistances, OverSubscribed;
    FixedFits();
    StoredLonger(b, c, p, out, limit);
    DynamicLonger(b, c, p, out, limit);
    CodesLonger(FixedLiterals(), FixedDistances(), b, c, p, out, limit);
  }

  lemma {:induction false} BlocksLonger(b: seq<bit>, c: seq<bit>, p: nat, out: seq<byte>, limit: nat)
    requires Prefix(b, c) && p <= |b|
    ensures Grows(Blocks(b, p, out, limit), Blocks(c, p, out, limit))
    decreases |b| - p
  {
    hide Block, Take;
    TakeLonger(b, c, p, 1);
    TakeLonger(b, c, p + 1, 2);
    var h := ReadHeader(b, p);
    if h.Got? {
      BlockLonger(h.value.kind, b, c, h.pos, out, limit);
      var r := Block(h.value.kind, b, h.pos, out, limit);
      if r.err == 0 && !h.value.last {
        BlocksLonger(b, c, r.pos, r.out, limit);
      }
    }
  }

  // ----- more space -----

  lemma {:induction false} CodesRoomier(ll: Lengths, dl: Lengths, b: seq<bit>, p: nat, out: seq<byte>,
                                        limit: nat, more: nat)
    requires |dl| <= MAX_D_CODES && p <= |b| && limit <= more
    ensures Codes(ll, dl, b, p, out, limit).err == -1
         || Codes(ll, dl, b, p, out, more) == Codes(ll, dl, b, p, out, limit)
    decreases |b| - p
  {
    hide ReadToken, ApplyToken;
    var r := ReadToken(ll, dl, b, p);
    if r.Got? && TokenError(r.value, out, limit) == 0 && !r.value.EndOfBlock? {
      CodesRoomier(ll, dl, b, r.pos, ApplyToken(r.value, out), limit, more);
    }
  }

  lemma BlockRoomier(kind: nat, b: seq<bit>, p: nat, out: seq<byte>, limit: nat, more: nat)
    requires p <= |b| && limit <= more
    ensures Block(kind, b, p, out, limit).err == -1
         || Block(kind, b, p, out, more) == Block(kind, b, p, out, limit)
  {
    hide Codes, ReadTables, FixedLiterals, FixedDistances, Lsb, BytesAt;
    if kind == 1 {
      CodesRoomier(FixedLiterals(), FixedDistances(), b, p, out, limit, more);
    } else if kind == 2 {
      var r := ReadTables(b, p);
      if r.Got? {
        CodesRoomier(r.value.literals, r.value.distances, b, r.pos, out, limit, more);
      }
    }
  }

  lemma {:induction false} BlocksRoomier(b: seq<bit>, p: nat, out: seq<byte>, limit: nat, more: nat)
    requires p <= |b| && limit <= more
    ensures Blocks(b, p, out, limit).err == -1 || Blocks(b, p, out, more) == Blocks(b, p, out, limit)
    decreases |b| - p
  {
    hide Block, ReadHeader;
    var h := ReadHeader(b, p);
    if h.Got? {
      BlockRoomier(h.value.kind, b, h.pos, out, limit, more);
      var r := Block(h.value.kind, b, h.pos, out, limit);
      if r.err == 0 && !h.value.last {
        BlocksRoomier(b, r.pos, r.out, limit, more);
      }
    }
  }

  // ----- main results -----

  /** A cut input gives the same result, or error 2 with an output that is a prefix. */
  lemma CutInput(source: seq<byte>, n: nat, limit: nat)
    requires n <= |source|
    ensures Grows(Inflate(source[..n], limit), Inflate(source, limit))
  {
    hide Blocks, BitsOf;
    BitsOfConcat(source[..n], source[n..]);
    assert source == source[..n] + source[n..];
    BlocksLonger(BitsOf(source[..n]), BitsOf(source), 0, [], limit);
  }

  /** A success is not changed by bytes behind it or by more output space. */
  lemma SuccessExtends(source: seq<byte>, more: seq<byte>, limit: nat, space: nat)
    requires Inflate(source, limit).err == 0 && limit <= space
    ensures Inflate(source + more, space) == Inflate(source, limit)
  {
    hide Blocks, BitsOf;
    BlocksRoomier(BitsOf(source), 0, [], limit, space);
    CutInput(source + more, |source|, space);
    assert (source + more)[..|source|] == source;
  }

  /** A success that consumed more than `n` bytes turns into "out of input" when cut to `n` bytes. */
  lemma SuccessCutShort(source: seq<byte>, n: nat, limit: nat)
    requires Inflate(source, limit).err == 0
    requires n < (Inflate(source, limit).pos + 7) / 8
    ensures n <= |source| && Inflate(source[..n], limit).err == 2
    ensures Inflate(source[..n], limit).out <= Inflate(source, limit).out
  {
    hide Blocks, BitsOf;
    CutInput(source, n, limit);
  }
}
