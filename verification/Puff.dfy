/**
 The decoder of puff.c: a state updated in place by loops, proved to compute `Deflate.Inflate`.
 `longjmp` is the early return of `LongJmp`, propagated by `:-` to the method that catches it.
 Shifting a byte above the bits already loaded and or-ing it in is an addition.
 */
module PuffDecoder {
  import opened Bits
  import opened Canonical
  import opened HuffmanTable
  import D = Deflate

  datatype Jump<+T> = Normal(value: T) | LongJmp {
    predicate IsFailure() { LongJmp? }

    function PropagateFailure<U>(): Jump<U>
      requires LongJmp?
    {
      LongJmp
    }

    function Extract(): T
      requires Normal?
    {
      value
    }
  }

  // ----- the bit reader -----

  /** The bits of byte `n` continue the bits loaded so far. */
  lemma LoadByte(s: seq<byte>, p: nat, n: nat, c: nat)
    requires n < |s| && p + c == 8 * n
    ensures Lsb(BitsOf(s)[p..8 * n + 8]) == Lsb(BitsOf(s)[p..8 * n]) + Pow2(c) * s[n]
    ensures Pow2(c) * s[n] >= 0
  {
    hide BitsOf, Lsb, LsbBits, Pow2;
    var b := BitsOf(s);
    ByteAt(s, n);
    JoinedValue(b, p, 8 * n, 8 * n + 8, c);
  }

  /** The value of a slice from the values of its two parts, `c` the length of the first. */
  lemma JoinedValue(b: seq<bit>, i: nat, j: nat, k: nat, c: nat)
    requires i <= j <= k <= |b| && j - i == c
    ensures Lsb(b[i..k]) == Lsb(b[i..j]) + Pow2(c) * Lsb(b[j..k])
  {
    hide Lsb, Pow2;
    var x, y := b[i..j], b[j..k];
    assert b[i..k] == x + y;
    assert |x| == c;
    LsbConcat(x, y);
  }

  lemma DropBits(b: seq<bit>, p: nat, need: nat, e: nat)
    requires p + need <= e <= |b|
    ensures Lsb(b[p..e]) / Pow2(need) == Lsb(b[p + need..e])
    ensures Lsb(b[p..e]) % Pow2(need) == Lsb(b[p..p + need])
  {
    hide Lsb, Pow2;
    JoinedValue(b, p, p + need, e, need);
    assert |b[p..p + need]| == need;
    DivModUnique(Lsb(b[p..e]), Pow2(need), Lsb(b[p + need..e]), Lsb(b[p..p + need]));
  }

  // ----- facts the code loop rests on -----

  /** The next `l` bits have the value `v`. */
  ghost predicate HasValue(b: seq<bit>, p: nat, l: nat, v: nat) {
    p + l <= |b| && v == Msb(b[p..p + l])
  }

  /** The next `l` bits have a value beyond all codes of length at most `l`. */
  ghost predicate Undecided(ls: Lengths, b: seq<bit>, p: nat, l: nat, v: nat) {
    HasValue(b, p, l, v) && (l == 0 || FirstCode(ls, l) + Count(ls, l) <= v)
  }

  lemma OneMoreBit(ls: Lengths, b: seq<bit>, p: nat, l: nat, v: nat)
    requires Undecided(ls, b, p, l, v)
    ensures p + l < |b| ==>
              && D.Take(b, p + l, 1) == Got(b[p + l], p + l + 1)
              && HasValue(b, p, l + 1, 2 * v + b[p + l])
              && FirstCode(ls, l + 1) <= 2 * v + b[p + l]
    ensures p + l == |b| ==> D.Take(b, p + l, 1) == Bad(2, |b|)
  {
    if p + l < |b| {
      NextBit(ls, b, p, l);
      assert b[p + l..p + l + 1] == [b[p + l]];
    }
  }

  lemma FirstAndOffsetStep(ls: Lengths, l: nat)
    ensures FirstCode(ls, 1) == 0 && Offset(ls, 1) == 0
    ensures 0 < l ==> FirstCode(ls, l + 1) == 2 * (FirstCode(ls, l) + Count(ls, l))
    ensures 0 < l ==> Offset(ls, l + 1) == Offset(ls, l) + Count(ls, l)
  {
  }

  /** The stream ends before a code is complete. */
  lemma EndsInsideCode(ls: Lengths, b: seq<bit>, p: nat, l: nat, v: nat)
    requires !OverSubscribed(ls) && l < MAX_BITS && p + l == |b|
    requires Undecided(ls, b, p, l, v)
    ensures ReadSymbol(ls, b, p) == Bad(2, |b|)
  {
    if ReadSymbol(ls, b, p).Got? {
      var s := ReadSymbol(ls, b, p).value;
      MatchTaken(ls, b, p, s);
      TakenLater(ls, b, p, ls[s], l);
      assert false;
    }
  }

  /** Fifteen bits that are beyond all codes. */
  lemma NoCodeLeft(ls: Lengths, b: seq<bit>, p: nat, v: nat)
    requires !OverSubscribed(ls) && Undecided(ls, b, p, MAX_BITS, v)
    ensures ReadSymbol(ls, b, p) == Bad(-10, p + MAX_BITS)
  {
    FirstCodeLeft(ls, MAX_BITS);
    NoCodeIff(ls, b, p);
  }

  /** A value of length `l` among the codes of that length names the symbol at its slot. */
  lemma CodeAtSlot(ls: Lengths, b: seq<bit>, p: nat, l: nat, v: nat) returns (s: nat)
    requires !OverSubscribed(ls) && 0 < l <= MAX_BITS && HasValue(b, p, l, v)
    requires FirstCode(ls, l) <= v < FirstCode(ls, l) + Count(ls, l)
    ensures IsSymbol(ls, s) && ReadSymbol(ls, b, p) == Got(s, p + l)
    ensures Slot(ls, s) == Offset(ls, l) + (v - FirstCode(ls, l))
  {
    s := CodeOfLength(ls, b, p, l);
    ReadSymbolIff(ls, b, p, s, p + l);
  }

  // ----- facts about stored blocks and copies -----

  method Fill(lengths: array<int>, index: nat, len: codelen, times: nat)
    requires index + times <= lengths.Length
    modifies lengths
    ensures lengths[..index + times] == old(lengths[..index]) + D.Run(len, times)
  {
    for i := 0 to times
      invariant lengths[..index + i] == old(lengths[..index]) + D.Run(len, i)
    {
      lengths[index + i] := len;
    }
  }

  lemma WordAt(s: seq<byte>, k: nat)
    requires k + 2 <= |s|
    ensures Lsb(BitsOf(s)[8 * k..8 * k + 16]) == s[k] as int + 256 * s[k + 1] as int
  {
    hide BitsOf, Lsb, LsbBits;
    var b := BitsOf(s);
    ByteAt(s, k);
    ByteAt(s, k + 1);
    assert Pow2(8) == 256;
    JoinedValue(b, 8 * k, 8 * k + 8, 8 * k + 16, 8);
  }

  lemma BytesAtBoundary(s: seq<byte>, k: nat, n: nat)
    requires k + n <= |s|
    ensures D.BytesAt(BitsOf(s), 8 * k, n) == s[k..k + n]
  {
    hide BitsOf, Lsb;
    forall i | 0 <= i < n
      ensures D.BytesAt(BitsOf(s), 8 * k, n)[i] == s[k + i]
    {
      ByteAt(s, k + i);
      assert 8 * k + 8 * i == 8 * (k + i);
    }
  }

  /** A stored block in terms of bytes, `k` the number of its first byte. */
  function StoredBytes(s: seq<byte>, k: nat, out: seq<byte>, limit: nat): D.Result {
    if k + 4 > |s| then D.Result(2, 8 * k, out)
    else
      var len := s[k] as int + 256 * s[k + 1] as int;
      if s[k + 2] != 255 - len % 256 || s[k + 3] != 255 - len / 256 % 256 then D.Result(-3, 8 * k, out)
      else if k + 4 + len > |s| then D.Result(2, 8 * (k + 4), out)
      else if |out| + len > limit then D.Result(-1, 8 * (k + 4), out)
      else D.Result(0, 8 * (k + 4 + len), out + s[k + 4..k + 4 + len])
  }

  lemma StoredBlockIsBytes(s: seq<byte>, p: nat, k: nat, out: seq<byte>, limit: nat)
    requires D.Align(p) == 8 * k
    ensures D.StoredBlock(BitsOf(s), p, out, limit) == StoredBytes(s, k, out, limit)
  {
    hide BitsOf, Lsb, D.BytesAt;
    if k + 4 <= |s| {
      WordAt(s, k);
      WordAt(s, k + 2);
      assert 8 * (k + 2) == 8 * k + 16;
      var len := s[k] as int + 256 * s[k + 1] as int;
      if k + 4 + len <= |s| {
        BytesAtBoundary(s, k + 4, len);
        assert 8 * (k + 4) == 8 * k + 32;
      }
    }
  }

  /** One more byte of an overlapping copy. */
  lemma ExtendStep(out: seq<byte>, dist: nat, n: nat)
    requires 1 <= dist <= |out|
    ensures D.Extend(out, dist, n + 1) == D.Extend(out, dist, n) + [D.Extend(out, dist, n)[|out| + n - dist]]
  {
    if dist <= n {
      var q := (n - dist) / dist;
      assert n == dist * (q + 1) + (n - dist) % dist;
      DivModUnique(n, dist, q + 1, (n - dist) % dist);
    }
  }

  /** The static tables of `fixed`, built once and kept over calls. */
  class FixedTables {
    var built: bool
    const lencode: Huffman
    const distcode: Huffman

    constructor ()
      ensures Valid() && !built
      ensures fresh(Repr())
    {
      built := false;
      lencode := new Huffman(D.FIX_L_CODES);
      distcode := new Huffman(D.MAX_D_CODES);
    }

    ghost function Repr(): set<object> {
      {this, lencode.count, lencode.symbol, distcode.count, distcode.symbol}
    }

    ghost predicate Valid()
      reads Repr()
    {
      && lencode.Sized() && distcode.Sized()
      && lencode.symbol.Length == D.FIX_L_CODES && distcode.symbol.Length == D.MAX_D_CODES
      && {lencode.count, lencode.symbol} !! {distcode.count, distcode.symbol}
      && (built ==> lencode.Represents(D.FixedLiterals()) && distcode.Represents(D.FixedDistances()))
    }

    method LiteralLengths() returns (lengths: array<int>)
      ensures fresh(lengths) && lengths[..] == D.FixedLiterals()
    {
      hide D.FixedLiterals;
      lengths := new int[D.FIX_L_CODES];
      for symbol := 0 to D.FIX_L_CODES
        invariant lengths[..symbol] == D.FixedLiterals()[..symbol]
      {
        lengths[symbol] := if symbol < 144 then 8 else if symbol < 256 then 9 else if symbol < 280 then 7 else 8;
        D.FixedLiteralAt(symbol);
      }
    }

    method DistanceLengths(lengths: array<int>)
      requires D.MAX_D_CODES <= lengths.Length
      modifies lengths
      ensures lengths[..D.MAX_D_CODES] == D.FixedDistances()
    {
      for symbol := 0 to D.MAX_D_CODES
        invariant lengths[..symbol] == D.FixedDistances()[..symbol]
      {
        lengths[symbol] := 5;
      }
    }

    method Build()
      requires Valid()
      modifies Repr()
      ensures Valid() && built
    {
      hide Left, Slot, Count, Pow2, D.FixedLiterals, D.FixedDistances, OverSubscribed;
      if !built {
        D.FixedCodesFit();
        var lengths := LiteralLengths();
        assert lengths[0..0 + D.FIX_L_CODES] == lengths[..];
        var left := lencode.Construct(lengths, 0, D.FIX_L_CODES, D.FixedLiterals());
        DistanceLengths(lengths);
        left := distcode.Construct(lengths, 0, D.MAX_D_CODES, D.FixedDistances());
        built := true;
      }
    }
  }

  class State {
    const out: array<byte>
    const outlen: nat
    var outcnt: nat
    const input: seq<byte>
    var incnt: nat
    var bitbuf: nat
    var bitcnt: nat

    constructor (dest: array<byte>, destlen: nat, source: seq<byte>)
      requires destlen <= dest.Length
      ensures Valid() && Pos() == 0 && Output() == []
      ensures out == dest && outlen == destlen && input == source
    {
      out, outlen, outcnt := dest, destlen, 0;
      input, incnt := source, 0;
      bitbuf, bitcnt := 0, 0;
    }

    ghost function Stream(): seq<bit> {
      BitsOf(input)
    }

    ghost function Pos(): int
      reads this
    {
      8 * incnt - bitcnt
    }

    ghost predicate Bounded()
      reads this
    {
      outcnt <= outlen <= out.Length && incnt <= |input|
    }

    /** The bit buffer holds the unread high bits of the last byte loaded. */
    ghost predicate Valid()
      reads this
    {
      && Bounded()
      && bitcnt < 8
      && 0 <= Pos()
      && bitbuf == Lsb(Stream()[Pos()..8 * incnt])
    }

    ghost function Output(): seq<byte>
      requires Bounded()
      reads this, out
    {
      out[..outcnt]
    }

    /** Return `need` bits from the stream, loading bytes as needed. */
    method Bits(need: nat) returns (r: Jump<nat>)
      requires Valid()
      modifies this`incnt, this`bitbuf, this`bitcnt
      ensures Bounded()
      ensures r.Normal? ==> Valid() && D.Take(Stream(), old(Pos()), need) == Got(r.value, Pos())
      ensures r.LongJmp? ==> D.Take(Stream(), old(Pos()), need) == Bad(2, |Stream()|) && incnt == |input|
    {
      hide BitsOf, Lsb, Pow2;
      ghost var p := Pos();
      var val := bitbuf;
      while bitcnt < need
        invariant Bounded() && Pos() == p
        invariant bitcnt < need + 8
        invariant val == Lsb(Stream()[p..8 * incnt])
      {
        if incnt >= |input| {
          return LongJmp;
        }
        LoadByte(input, p, incnt, bitcnt);
        val := val + Pow2(bitcnt) * input[incnt];
        incnt := incnt + 1;
        bitcnt := bitcnt + 8;
      }
      DropBits(Stream(), p, need, 8 * incnt);
      bitbuf := val / Pow2(need);
      bitcnt := bitcnt - need;
      return Normal(val % Pow2(need));
    }

    /** What a method that reads one symbol promises. */
    ghost predicate ReadAs(r: Jump<int>, spec: Read<nat>)
      reads this
    {
      && Bounded()
      && match r
         case LongJmp => spec == Bad(2, |Stream()|) && incnt == |input|
         case Normal(v) => Valid() && spec == if v >= 0 then Got(v, Pos()) else Bad(v, Pos())
    }

    /** Decode one symbol with the table `h`. */
    method Decode(h: Huffman, ghost ls: Lengths) returns (r: Jump<int>)
      requires Valid() && h.Represents(ls) && !OverSubscribed(ls)
      modifies this`incnt, this`bitbuf, this`bitcnt
      ensures ReadAs(r, ReadSymbol(ls, Stream(), old(Pos())))
    {
      hide BitsOf, Msb, Lsb, FirstCode, Count, Offset, Left;
      ghost var b, p: nat, v: nat := Stream(), Pos(), 0;
      var code, first, index := 0, 0, 0;
      FirstAndOffsetStep(ls, 0);
      for len := 1 to MAX_BITS + 1
        invariant Valid() && Pos() == p + len - 1
        invariant Undecided(ls, b, p, len - 1, v) && code == 2 * v
        invariant first == FirstCode(ls, len) && index == Offset(ls, len)
      {
        OneMoreBit(ls, b, p, len - 1, v);
        if p + len - 1 == |b| {
          EndsInsideCode(ls, b, p, len - 1, v);
        }
        var bit :- Bits(1);
        code := code + bit;
        v := code;
        var count := h.count[len];
        if code - count < first {
          ghost var s := CodeAtSlot(ls, b, p, len, v);
          return Normal(h.symbol[index + (code - first)]);
        }
        index := index + count;
        first := first + count;
        first := 2 * first;
        FirstAndOffsetStep(ls, len);
        code := 2 * code;
      }
      NoCodeLeft(ls, b, p, v);
      return Normal(-10);
    }

    // ----- blocks -----

    /** What a method that runs to an error or to the end of a block promises. */
    ghost predicate Ends(r: Jump<int>, spec: D.Result)
      reads this, out
    {
      && Bounded()
      && match r
         case LongJmp => spec == D.Result(2, |Stream()|, Output()) && incnt == |input|
         case Normal(err) => Valid() && spec == D.Result(err, Pos(), Output())
    }

    /** Bytes behind the output are not written. */
    twostate predicate Appended()
      reads this, out
    {
      old(outcnt) <= outcnt && forall i :: outcnt <= i < out.Length ==> out[i] == old(out[i])
    }

    method CopyInput(len: nat)
      requires Valid() && bitcnt == 0
      requires incnt + len <= |input| && outcnt + len <= outlen
      modifies this`outcnt, this`incnt, out
      ensures Valid() && Appended()
      ensures incnt == old(incnt) + len
      ensures Output() == old(Output()) + input[old(incnt)..incnt]
    {
      hide BitsOf;
      ghost var start, out0 := incnt, Output();
      for j := 0 to len
        invariant Bounded() && incnt == start + j && outcnt == |out0| + j
        invariant Appended()
        invariant Output() == out0 + input[start..start + j]
      {
        out[outcnt] := input[incnt];
        outcnt := outcnt + 1;
        incnt := incnt + 1;
      }
    }

    /** Copy a stored block, once its length and the complement of that agree. */
    method Stored() returns (err: int)
      requires Valid()
      modifies this, out
      ensures Ends(Normal(err), D.StoredBlock(Stream(), old(Pos()), old(Output()), outlen))
      ensures Appended()
    {
      hide BitsOf, Lsb, D.StoredBlock;
      StoredBlockIsBytes(input, Pos(), incnt, Output(), outlen);
      EmptyValue();
      bitbuf, bitcnt := 0, 0;
      assert Stream()[Pos()..Pos()] == [];
      if incnt + 4 > |input| {
        return 2;
      }
      var len := input[incnt] as int + 256 * input[incnt + 1] as int;
      if input[incnt + 2] != 255 - len % 256 || input[incnt + 3] != 255 - len / 256 % 256 {
        return -3;
      }
      incnt := incnt + 4;
      assert Stream()[Pos()..Pos()] == [];
      if incnt + len > |input| {
        return 2;
      }
      if outcnt + len > outlen {
        return -1;
      }
      CopyInput(len);
      return 0;
    }

    /** Copy `len` bytes from `dist` bytes back; the two ranges may overlap. */
    method CopyBack(dist: nat, len: nat)
      requires Valid() && 1 <= dist <= outcnt && outcnt + len <= outlen
      modifies this`outcnt, out
      ensures Valid() && Appended()
      ensures Output() == D.Extend(old(Output()), dist, len)
    {
      hide BitsOf, Lsb;
      ghost var out0 := Output();
      for j := 0 to len
        invariant Bounded() && outcnt == |out0| + j
        invariant Appended()
        invariant Output() == D.Extend(out0, dist, j)
      {
        ExtendStep(out0, dist, j);
        out[outcnt] := out[outcnt - dist];
        outcnt := outcnt + 1;
      }
    }

    /** Read the rest of a match: length, then distance. */
    method ReadMatch(lsym: nat, distcode: Huffman, ghost dl: Lengths) returns (r: Jump<LengthDistance>)
      requires Valid() && lsym < 29
      requires distcode.Represents(dl) && !OverSubscribed(dl) && |dl| <= D.MAX_D_CODES
      modifies this`incnt, this`bitbuf, this`bitcnt
      ensures Bounded()
      ensures r.LongJmp? ==> D.ReadMatch(lsym, dl, Stream(), old(Pos())) == Bad(2, |Stream()|) && incnt == |input|
      ensures r.Normal? ==> Valid() && IsMatch(r.value, D.ReadMatch(lsym, dl, Stream(), old(Pos())), Pos())
    {
      hide BitsOf, Lsb, OverSubscribed, Left, Count, Slot, D.Take;
      var lextra :- Bits(D.LEXT[lsym]);
      var len := D.LENS[lsym] + lextra;
      var symbol :- Decode(distcode, dl);
      if symbol < 0 {
        return Normal(Failed(symbol));
      }
      var dextra :- Bits(D.DEXT[symbol]);
      return Normal(LengthDistance(len, D.DISTS[symbol] + dextra));
    }

    /** Decode one token and apply it: the body of the loop of `codes`. */
    method DecodeToken(lencode: Huffman, distcode: Huffman, ghost ll: Lengths, ghost dl: Lengths)
      returns (r: Jump<int>)
      requires Valid()
      requires lencode.Represents(ll) && !OverSubscribed(ll)
      requires distcode.Represents(dl) && !OverSubscribed(dl) && |dl| <= D.MAX_D_CODES
      modifies this, out
      ensures Bounded() && Appended()
      ensures r.LongJmp? ==> incnt == |input| && Output() == old(Output())
      ensures r.LongJmp? ==> D.ReadToken(ll, dl, Stream(), old(Pos())) == Bad(2, |Stream()|)
      ensures r.Normal? ==> Valid()
      ensures r.Normal? ==> TokenDone(r.value, D.ReadToken(ll, dl, Stream(), old(Pos())), Pos(),
                                      old(Output()), Output(), outlen)
    {
      hide BitsOf, Lsb, OverSubscribed, Left, Count, Slot, ReadSymbol, D.ReadMatch;
      var symbol :- Decode(lencode, ll);
      if symbol < 0 {
        return Normal(symbol);
      }
      if symbol < 256 {
        if outcnt >= outlen {
          return Normal(-1);
        }
        out[outcnt] := symbol;
        outcnt := outcnt + 1;
      } else if symbol > 256 {
        symbol := symbol - 257;
        if symbol >= 29 {
          return Normal(-5);
        }
        var m :- ReadMatch(symbol, distcode, dl);
        if m.Failed? {
          return Normal(m.err);
        }
        if m.dist > outcnt {
          return Normal(-6);
        }
        if outcnt + m.len > outlen {
          return Normal(-1);
        }
        CopyBack(m.dist, m.len);
      }
      return Normal(symbol);
    }

    /** Decode tokens until end-of-block with the two tables. */
    method Codes(lencode: Huffman, distcode: Huffman, ghost ll: Lengths, ghost dl: Lengths) returns (r: Jump<int>)
      requires Valid() && lencode.Apart(out) && distcode.Apart(out)
      requires lencode.Represents(ll) && !OverSubscribed(ll)
      requires distcode.Represents(dl) && !OverSubscribed(dl) && |dl| <= D.MAX_D_CODES
      modifies this, out
      ensures Ends(r, D.Codes(ll, dl, Stream(), old(Pos()), old(Output()), outlen))
      ensures Appended()
    {
      hide BitsOf, Lsb, OverSubscribed, Left, Count, Slot, D.ReadToken, D.ApplyToken;
      ghost var spec := D.Codes(ll, dl, Stream(), Pos(), Output(), outlen);
      var symbol := 0;
      while symbol != 256
        invariant Valid() && Appended()
        invariant lencode.Represents(ll) && distcode.Represents(dl)
        invariant symbol != 256 ==> D.Codes(ll, dl, Stream(), Pos(), Output(), outlen) == spec
        invariant symbol == 256 ==> spec == D.Result(0, Pos(), Output())
        decreases symbol != 256, |Stream()| - Pos()
      {
        symbol :- DecodeToken(lencode, distcode, ll, dl);
        if symbol < 0 {
          return Normal(symbol);
        }
      }
      return Normal(0);
    }

    /** Decode a block with the two codes that the format fixes. */
    method Fixed(tables: FixedTables) returns (r: Jump<int>)
      requires Valid() && tables.Valid() && this !in tables.Repr() && out as object !in tables.Repr()
      modifies this, out, tables.Repr()
      ensures Ends(r, D.Codes(D.FixedLiterals(), D.FixedDistances(), Stream(), old(Pos()), old(Output()), outlen))
      ensures Appended() && tables.Valid()
    {
      hide BitsOf, Lsb, D.Codes, Slot, Count, Left, Pow2, D.FixedLiterals, D.FixedDistances;
      tables.Build();
      D.FixedCodesFit();
      r := Codes(tables.lencode, tables.distcode, D.FixedLiterals(), D.FixedDistances());
    }

    // ----- dynamic blocks -----

    /** Read the `ncode` code length code lengths into their places; the others are zero. */
    method ReadPreLengths(lengths: array<int>, ncode: nat) returns (r: Jump<()>)
      requires Valid() && ncode <= 19 && lengths.Length >= 19
      modifies this`incnt, this`bitbuf, this`bitcnt, lengths
      ensures Bounded()
      ensures r.LongJmp? ==> D.ReadThrees(Stream(), old(Pos()), [], ncode) == Bad(2, |Stream()|) && incnt == |input|
      ensures r.Normal? ==>
                && Valid()
                && D.ReadThrees(Stream(), old(Pos()), [], ncode).Got?
                && D.ReadThrees(Stream(), old(Pos()), [], ncode).pos == Pos()
                && lengths[0..19] == D.PreLengths(D.ReadThrees(Stream(), old(Pos()), [], ncode).value)
    {
      hide BitsOf, Lsb, Pow2, D.ORDER, D.PLACE;
      D.OrderIsPermutation();
      SmallPowers();
      ghost var spec := D.ReadThrees(Stream(), Pos(), [], ncode);
      ghost var pre: seq<nat> := [];
      for index := 0 to ncode
        invariant Valid() && |pre| == index
        invariant forall j :: 0 <= j < index ==> lengths[D.ORDER[j]] == pre[j] < 8
        invariant D.ReadThrees(Stream(), Pos(), pre, ncode) == spec
      {
        var len :- Bits(3);
        lengths[D.ORDER[index]] := len;
        pre := pre + [len];
      }
      ZeroRest(lengths, pre, ncode);
      return Normal(());
    }

    method ZeroRest(lengths: array<int>, ghost pre: seq<nat>, ncode: nat)
      requires |pre| == ncode <= 19 <= lengths.Length
      requires forall j :: 0 <= j < ncode ==> lengths[D.ORDER[j]] == pre[j] < 8
      modifies lengths
      ensures lengths[0..19] == D.PreLengths(pre)
    {
      D.OrderIsPermutation();
      for index := ncode to 19
        invariant forall j :: 0 <= j < index ==> lengths[D.ORDER[j]] == if j < ncode then pre[j] else 0
      {
        lengths[D.ORDER[index]] := 0;
      }
      forall s | 0 <= s < 19
        ensures lengths[s] == D.PreLengths(pre)[s]
      {
        assert D.ORDER[D.PLACE[s]] == s;
      }
    }

    /** Read one step of the run-length code: the length to store and how often, or an error. */
    method ReadRun(lencode: Huffman, ghost cl: Lengths, lengths: array<int>, index: nat, ghost acc: Lengths)
      returns (r: Jump<LengthRun>)
      requires Valid() && lencode.Represents(cl) && !OverSubscribed(cl) && |cl| == 19
      requires index <= lengths.Length && lengths[..index] == acc
      modifies this`incnt, this`bitbuf, this`bitcnt
      ensures Bounded()
      ensures r.LongJmp? ==> D.ReadOp(cl, Stream(), old(Pos()), acc == []) == Bad(2, |Stream()|) && incnt == |input|
      ensures r.Normal? ==> Valid() && IsRun(r.value, D.ReadOp(cl, Stream(), old(Pos()), acc == []), Pos(), acc)
    {
      hide BitsOf, Lsb, Slot, Count, Left, OverSubscribed, Pow2;
      var symbol :- Decode(lencode, cl);
      if symbol < 0 {
        return Normal(NoRun(symbol));
      }
      if symbol < 16 {
        D.TakeNothing(Stream(), Pos());
        return Normal(LengthRun(symbol, 1));
      }
      if symbol == 16 {
        if index == 0 {
          return Normal(NoRun(-4));
        }
        var extra :- Bits(2);
        return Normal(LengthRun(lengths[index - 1], 3 + extra));
      } else if symbol == 17 {
        var extra :- Bits(3);
        return Normal(LengthRun(0, 3 + extra));
      } else {
        var extra :- Bits(7);
        return Normal(LengthRun(0, 11 + extra));
      }
    }

    /** Read the lengths of both codes; zero, or the error number of `dynamic`. */
    method ReadLengths(lencode: Huffman, ghost cl: Lengths, lengths: array<int>, total: nat)
      returns (r: Jump<int>)
      requires Valid() && lencode.Represents(cl) && !OverSubscribed(cl) && |cl| == 19
      requires total <= lengths.Length && lencode.Apart(lengths)
      modifies this`incnt, this`bitbuf, this`bitcnt, lengths
      ensures Bounded()
      ensures r.LongJmp? ==>
                D.ReadLengths(cl, Stream(), old(Pos()), [], total) == Bad(2, |Stream()|) && incnt == |input|
      ensures r.Normal? ==>
                && Valid()
                && D.ReadLengths(cl, Stream(), old(Pos()), [], total) ==
                   if r.value == 0 then Got(lengths[..total], Pos()) else Bad(r.value, Pos())
    {
      hide BitsOf, Lsb, Slot, Count, Left, OverSubscribed, D.ReadOp, D.OpLength, D.OpCount, D.Run;
      ghost var spec := D.ReadLengths(cl, Stream(), Pos(), [], total);
      var index := 0;
      ghost var acc: Lengths := [];
      while index < total
        invariant Valid() && index <= total && lengths[..index] == acc
        invariant lencode.Represents(cl)
        invariant D.ReadLengths(cl, Stream(), Pos(), acc, total) == spec
        decreases total - index
      {
        var run :- ReadRun(lencode, cl, lengths, index, acc);
        if run.NoRun? {
          return Normal(run.err);
        }
        if index + run.times > total {
          return Normal(-4);
        }
        Fill(lengths, index, run.len, run.times);
        index := index + run.times;
        acc := acc + D.Run(run.len, run.times);
      }
      return Normal(0);
    }

    /** Build the two tables of a dynamic block from all its lengths; zero, or error -4. */
    method BuildTables(lencode: Huffman, distcode: Huffman, lengths: array<int>, nlen: nat, ndist: nat,
                       ghost ls: Lengths)
      returns (err: int)
      requires nlen + ndist <= lengths.Length && lengths[..nlen + ndist] == ls
      requires lencode.Sized() && distcode.Sized() && Disjoint(lencode, distcode)
      requires lencode.Apart(lengths) && distcode.Apart(lengths)
      requires nlen <= lencode.symbol.Length && ndist <= distcode.symbol.Length
      modifies lencode.count, lencode.symbol, distcode.count, distcode.symbol
      ensures err == if D.Usable(ls[..nlen]) && D.Usable(ls[nlen..]) then 0 else -4
      ensures err == 0 ==> lencode.Represents(ls[..nlen]) && distcode.Represents(ls[nlen..])
      ensures err == 0 ==> !OverSubscribed(ls[..nlen]) && !OverSubscribed(ls[nlen..])
    {
      hide Left, Slot, Count;
      assert lengths[0..0 + nlen] == ls[..nlen];
      err := lencode.Construct(lengths, 0, nlen, ls[..nlen]);
      if err < 0 || (err > 0 && nlen - lencode.count[0] != 1) {
        NotUsable(ls[..nlen], err);
        return -4;
      }
      NotUsable(ls[..nlen], err);
      assert lengths[nlen..nlen + ndist] == ls[nlen..];
      err := distcode.Construct(lengths, nlen, ndist, ls[nlen..]);
      NotUsable(ls[nlen..], err);
      if err < 0 || (err > 0 && ndist - distcode.count[0] != 1) {
        return -4;
      }
      return 0;
    }

    /** Read how many lengths the header of a dynamic block gives. */
    method ReadCounts() returns (r: Jump<CountsOrError>)
      requires Valid()
      modifies this`incnt, this`bitbuf, this`bitcnt
      ensures Bounded()
      ensures r.LongJmp? ==> D.ReadCounts(Stream(), old(Pos())) == Bad(2, |Stream()|) && incnt == |input|
      ensures r.Normal? ==>
                && Valid()
                && D.ReadCounts(Stream(), old(Pos())) ==
                   match r.value
                   case GoodCounts(n) => Got(n, Pos())
                   case BadCounts => Bad(-4, Pos())
    {
      hide BitsOf, Lsb, Pow2, D.Take;
      var nlen :- Bits(5);
      var ndist :- Bits(5);
      var ncode :- Bits(4);
      SmallPowers();
      nlen, ndist, ncode := nlen + 257, ndist + 1, ncode + 4;
      if nlen > D.MAX_L_CODES || ndist > D.MAX_D_CODES {
        return Normal(BadCounts);
      }
      return Normal(GoodCounts(D.Counts(nlen, ndist, ncode)));
    }

    /** Read the code length code and build its table; zero, or error -4. */
    method ReadPreCode(lengths: array<int>, ncode: nat, lencode: Huffman) returns (r: Jump<int>)
      requires Valid() && 4 <= ncode <= 19 <= lengths.Length
      requires lencode.Sized() && lencode.symbol.Length == D.MAX_L_CODES && lencode.Apart(lengths)
      modifies this`incnt, this`bitbuf, this`bitcnt, lengths, lencode.count, lencode.symbol
      ensures Bounded()
      ensures r.LongJmp? ==> D.ReadPreCode(Stream(), old(Pos()), ncode) == Bad(2, |Stream()|) && incnt == |input|
      ensures r.Normal? ==> Valid() && PreCodeRead(r.value, D.ReadPreCode(Stream(), old(Pos()), ncode), Pos(), lencode)
    {
      hide BitsOf, Lsb, Left, Slot, Count, D.ReadThrees, D.PreLengths;
      ghost var p := Pos();
      var _ :- ReadPreLengths(lengths, ncode);
      ghost var cl := D.PreLengths(D.ReadThrees(Stream(), p, [], ncode).value);
      assert lengths[0..0 + 19] == cl;
      var err := lencode.Construct(lengths, 0, 19, cl);
      NotUsable(cl, err);
      return Normal(if err != 0 then -4 else 0);
    }

    /** Read the header of a dynamic block and build its tables. */
    method ReadTables(lencode: Huffman, distcode: Huffman) returns (r: Jump<int>)
      requires Valid() && lencode.Sized() && distcode.Sized() && Disjoint(lencode, distcode)
      requires lencode.symbol.Length == D.MAX_L_CODES && distcode.symbol.Length == D.MAX_D_CODES
      modifies this`incnt, this`bitbuf, this`bitcnt
      modifies lencode.count, lencode.symbol, distcode.count, distcode.symbol
      ensures Bounded()
      ensures r.LongJmp? ==> D.ReadTables(Stream(), old(Pos())) == Bad(2, |Stream()|) && incnt == |input|
      ensures r.Normal? ==> Valid() && TablesRead(r.value, D.ReadTables(Stream(), old(Pos())), Pos(), lencode, distcode)
    {
      hide BitsOf, Lsb, Left, Slot, Count, D.ReadCounts, D.ReadPreCode, D.ReadLengths, D.Usable, D.CompleteOrEmpty;
      var n :- ReadCounts();
      if n.BadCounts? {
        return Normal(-4);
      }
      var nlen, ndist := n.value.nlen, n.value.ndist;
      var lengths := new int[D.MAX_L_CODES + D.MAX_D_CODES];
      ghost var cl := D.ReadPreCode(Stream(), Pos(), n.value.ncode);
      var err :- ReadPreCode(lengths, n.value.ncode, lencode);
      if err != 0 {
        return Normal(err);
      }
      err :- ReadLengths(lencode, cl.value, lengths, nlen + ndist);
      if err != 0 {
        return Normal(err);
      }
      if lengths[256] == 0 {
        return Normal(-9);
      }
      err := BuildTables(lencode, distcode, lengths, nlen, ndist, lengths[..nlen + ndist]);
      return Normal(err);
    }

    /** Read a header, build its two codes, and decode the block with them. */
    method Dynamic() returns (r: Jump<int>)
      requires Valid()
      modifies this, out
      ensures Ends(r, D.DynamicBlock(Stream(), old(Pos()), old(Output()), outlen))
      ensures Appended()
    {
      hide BitsOf, Lsb, Left, Slot, Count, D.ReadTables, D.Codes;
      var lencode := new Huffman(D.MAX_L_CODES);
      var distcode := new Huffman(D.MAX_D_CODES);
      ghost var spec := D.ReadTables(Stream(), Pos());
      var err :- ReadTables(lencode, distcode);
      if err != 0 {
        return Normal(err);
      }
      r := Codes(lencode, distcode, spec.value.literals, spec.value.distances);
    }

    // ----- the block loop -----

    /** Decode the rest of a block according to its type. */
    method Block(kind: nat, tables: FixedTables) returns (r: Jump<int>)
      requires Valid() && tables.Valid() && this !in tables.Repr() && out as object !in tables.Repr()
      modifies this, out, tables.Repr()
      ensures Ends(r, D.Block(kind, Stream(), old(Pos()), old(Output()), outlen))
      ensures Appended() && tables.Valid()
    {
      hide BitsOf, Lsb, D.Codes, D.DynamicBlock, D.StoredBlock, FixedTables.Valid;
      if kind == 0 {
        var err := Stored();
        r := Normal(err);
      } else if kind == 1 {
        r := Fixed(tables);
      } else if kind == 2 {
        r := Dynamic();
      } else {
        r := Normal(-2);
      }
    }

    /** Read the three bits in front of a block. */
    method Header() returns (r: Jump<D.Header>)
      requires Valid()
      modifies this`incnt, this`bitbuf, this`bitcnt
      ensures Bounded()
      ensures r.LongJmp? ==> D.ReadHeader(Stream(), old(Pos())) == Bad(2, |Stream()|) && incnt == |input|
      ensures r.Normal? ==> Valid() && D.ReadHeader(Stream(), old(Pos())) == Got(r.value, Pos())
    {
      hide BitsOf, Lsb, Pow2, D.Take;
      var last :- Bits(1);
      var kind :- Bits(2);
      return Normal(D.Header(last == 1, kind));
    }

    /** Read blocks until the last one or an error. */
    method Inflate(tables: FixedTables) returns (r: Jump<int>)
      requires Valid() && tables.Valid() && this !in tables.Repr() && out as object !in tables.Repr()
      modifies this, out, tables.Repr()
      ensures Ends(r, D.Blocks(Stream(), old(Pos()), old(Output()), outlen))
      ensures Appended() && tables.Valid()
    {
      hide BitsOf, Lsb, D.Block, D.ReadHeader, FixedTables.Valid;
      ghost var spec := D.Blocks(Stream(), Pos(), Output(), outlen);
      var done := false;
      while !done
        invariant Valid() && Appended() && tables.Valid()
        invariant !done ==> D.Blocks(Stream(), Pos(), Output(), outlen) == spec
        invariant done ==> spec == D.Result(0, Pos(), Output())
        decreases !done, |Stream()| - Pos()
      {
        var h :- Header();
        var err :- Block(h.kind, tables);
        if err != 0 {
          return Normal(err);
        }
        done := h.last;
      }
      return Normal(0);
    }
  }

  /** How `puff.c` judges the value that construction returns. */
  lemma NotUsable(ls: Lengths, err: int)
    requires err < 0 <==> OverSubscribed(ls)
    requires err >= 0 ==> err == if AllZero(ls) then 0 else Left(ls, MAX_BITS)
    ensures D.CompleteOrEmpty(ls) <==> err == 0
    ensures D.Usable(ls) <==> !(err < 0 || (err > 0 && |ls| - Count(ls, 0) != 1))
  {
    hide Left, Count;
    if AllZero(ls) {
      AllZeroHasNoSymbols(ls);
    }
  }

  lemma SmallPowers()
    ensures Pow2(1) == 2 && Pow2(2) == 4 && Pow2(3) == 8 && Pow2(4) == 16 && Pow2(5) == 32
  {
    assert Pow2(4) == 16;
  }

  predicate Disjoint(h: Huffman, k: Huffman) {
    {h.count, h.symbol} !! {k.count, k.symbol}
  }

  datatype CountsOrError = GoodCounts(value: D.Counts) | BadCounts

  /** What reading the code length code promises. */
  ghost predicate PreCodeRead(err: int, spec: Read<Lengths>, q: nat, lencode: Huffman)
    reads lencode.count, lencode.symbol
  {
    if err == 0 then
      spec.Got? && spec.pos == q && lencode.Represents(spec.value) && !OverSubscribed(spec.value)
    else spec == Bad(err, q)
  }

  /** What reading the tables promises, `q` being the position behind them. */
  ghost predicate TablesRead(err: int, spec: Read<D.Tables>, q: nat, lencode: Huffman, distcode: Huffman)
    reads lencode.count, lencode.symbol, distcode.count, distcode.symbol
  {
    if err == 0 then
      && spec.Got? && spec.pos == q
      && lencode.Represents(spec.value.literals) && !OverSubscribed(spec.value.literals)
      && distcode.Represents(spec.value.distances) && !OverSubscribed(spec.value.distances)
    else spec == Bad(err, q)
  }

  /** Inflate `source` into `dest`; returns the error number, the bytes written and the bytes read. */
  method Puff(dest: array<byte>, destlen: nat, source: seq<byte>, tables: FixedTables)
    returns (err: int, written: nat, consumed: nat)
    requires destlen <= dest.Length && tables.Valid() && dest as object !in tables.Repr()
    modifies dest, tables.Repr()
    ensures tables.Valid()
    ensures written <= destlen && consumed <= |source|
    ensures D.Inflate(source, destlen) == D.Result(err, D.Inflate(source, destlen).pos, dest[..written])
    ensures consumed == (D.Inflate(source, destlen).pos + 7) / 8
    ensures dest[written..] == old(dest[written..])
  {
    hide D.Blocks, BitsOf, Lsb;
    var s := new State(dest, destlen, source);
    var r := s.Inflate(tables);
    err := if r.LongJmp? then 2 else r.value;
    written, consumed := s.outcnt, s.incnt;
  }

  datatype LengthRun = LengthRun(len: codelen, times: nat) | NoRun(err: int)

  /** The run that was read behind the lengths `acc`, ending at `q`, or its error. */
  ghost predicate IsRun(run: LengthRun, spec: Read<D.LenOp>, q: nat, acc: Lengths)
    requires spec.Got? && spec.value.sym == 16 ==> acc != []
  {
    match run
    case NoRun(err) => err < 0 && spec == Bad(err, q)
    case LengthRun(len, times) =>
      && spec.Got? && spec.pos == q
      && times == D.OpCount(spec.value)
      && len == D.OpLength(acc, spec.value)
  }

  /** What decoding one token promises: an error, end-of-block, or the token applied to the output. */
  ghost predicate TokenDone(v: int, spec: Read<D.Token>, q: nat, before: seq<byte>, after: seq<byte>, limit: nat)
    requires spec.Got? && spec.value.Match? ==> spec.value.lsym < 29 && spec.value.dsym < 30
  {
    match spec
    case Bad(err, p) => err == v < 0 && p == q && after == before
    case Got(t, p) =>
      && p == q
      && if v < 0 then D.TokenError(t, before, limit) == v && after == before
         else D.TokenError(t, before, limit) == 0 && after == D.ApplyToken(t, before) && (v == 256 <==> t.EndOfBlock?)
              && (v == 256 ==> after == before)
  }

  datatype LengthDistance = LengthDistance(len: nat, dist: nat) | Failed(err: int)

  /** The length and distance of the match that was read, ending at `q`, or its error. */
  predicate IsMatch(m: LengthDistance, spec: Read<D.Token>, q: nat)
    requires spec.Got? ==> spec.value.Match? && spec.value.lsym < 29 && spec.value.dsym < 30
  {
    match m
    case Failed(err) => err < 0 && spec == Bad(err, q)
    case LengthDistance(len, dist) =>
      spec.Got? && spec.pos == q && len == D.MatchLength(spec.value) && dist == D.MatchDistance(spec.value)
  }

  lemma EmptyValue()
    ensures Lsb([]) == 0
  {
  }
}
