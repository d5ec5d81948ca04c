/** The decoding table of puff.c and its construction, proved to represent a canonical code. */
module HuffmanTable {
  import opened Canonical

  // ----- where a symbol stands in the table -----

  /** How many symbols have a length in 1..l-1: the place of the first symbol of length `l`. */
  function Offset(ls: Lengths, l: nat): nat
  {
    if l <= 1 then 0 else Offset(ls, l - 1) + Count(ls, l - 1)
  }

  /** Symbols are sorted by length, and by number within one length. */
  function Slot(ls: Lengths, s: nat): nat
    requires s < |ls|
  {
    Offset(ls, ls[s]) + Rank(ls, s)
  }

  lemma {:induction false} OffsetMonotone(ls: Lengths, l: nat, m: nat)
    requires 0 < l < m
    ensures Offset(ls, l) + Count(ls, l) <= Offset(ls, m)
    decreases m
  {
    if l + 1 < m {
      OffsetMonotone(ls, l, m - 1);
    }
  }

  lemma {:induction false} OffsetAppend(ls: Lengths, x: codelen, l: nat)
    ensures Offset(ls + [x], l) == Offset(ls, l) + if 0 < x < l then 1 else 0
  {
    if l > 1 {
      OffsetAppend(ls, x, l - 1);
      assert (ls + [x])[..|ls|] == ls;
    }
  }

  lemma {:induction false} OffsetTotal(ls: Lengths)
    ensures Offset(ls, MAX_BITS + 1) + Count(ls, 0) == |ls|
  {
    var l := MAX_BITS + 1;
    if ls == [] {
      OffsetOfEmpty(l);
    } else {
      var init, x := ls[..|ls| - 1], ls[|ls| - 1];
      assert ls == init + [x];
      OffsetTotal(init);
      OffsetAppend(init, x, l);
    }
  }

  lemma {:induction false} OffsetOfEmpty(l: nat)
    ensures Offset([], l) == 0
  {
    if l > 1 {
      OffsetOfEmpty(l - 1);
    }
  }

  lemma SlotInRange(ls: Lengths, s: nat)
    requires IsSymbol(ls, s)
    ensures Slot(ls, s) < |ls|
  {
    RankBelowCount(ls, s);
    OffsetMonotone(ls, ls[s], MAX_BITS + 1);
    OffsetTotal(ls);
  }

  lemma SlotFromCount(ls: Lengths, s: nat)
    requires s < |ls|
    ensures Slot(ls, s) == Offset(ls, ls[s]) + Count(ls[..s], ls[s])
  {
  }

  lemma NothingCounted(ls: Lengths)
    ensures forall l :: Count(ls[..0], l) == 0
  {
  }

  lemma SlotsDiffer(ls: Lengths, s: nat, t: nat)
    requires s < t && IsSymbol(ls, s) && IsSymbol(ls, t)
    ensures Slot(ls, s) != Slot(ls, t)
  {
    RankBelowCount(ls, s);
    RankBelowCount(ls, t);
    if ls[s] == ls[t] {
      RankStrict(ls, s, t);
    } else if ls[s] < ls[t] {
      OffsetMonotone(ls, ls[s], ls[t]);
    } else {
      OffsetMonotone(ls, ls[t], ls[s]);
    }
  }

  /** What is left over at the first length at which there are too many codes. */
  ghost predicate FirstNegative(ls: Lengths, left: int) {
    exists len: nat :: len <= MAX_BITS && left == Left(ls, len) < 0 && forall l: nat :: l < len ==> Left(ls, l) >= 0
  }

  // ----- the table -----

  class Huffman {
    const count: array<int>   // at `l`, how many symbols have a code of `l` bits
    const symbol: array<int>  // the symbols, those with the shorter codes first

    constructor (symbols: nat)
      ensures fresh(count) && fresh(symbol) && count != symbol
      ensures count.Length == MAX_BITS + 1 && symbol.Length == symbols
    {
      count := new int[MAX_BITS + 1];
      symbol := new int[symbols];
    }

    predicate Sized() {
      count != symbol && count.Length == MAX_BITS + 1
    }

    predicate Apart(o: object) {
      count as object != o && symbol as object != o
    }

    ghost predicate Counts(ls: Lengths)
      reads count
    {
      Sized() && forall l :: 0 <= l <= MAX_BITS ==> count[l] == Count(ls, l)
    }

    ghost predicate Sorted(ls: Lengths, n: nat)
      requires n <= |ls|
      reads symbol
    {
      forall s: nat :: s < n && ls[s] != 0 ==> Slot(ls, s) < symbol.Length && symbol[Slot(ls, s)] == s
    }

    /** The table stands for the canonical code with lengths `ls`. */
    ghost predicate Represents(ls: Lengths)
      reads count, symbol
    {
      Counts(ls) && Sorted(ls, |ls|)
    }

    method CountLengths(ls: Lengths)
      requires Sized()
      modifies count
      ensures Counts(ls)
    {
      for len := 0 to MAX_BITS + 1
        invariant forall l :: 0 <= l < len ==> count[l] == 0
      {
        count[len] := 0;
      }
      for s := 0 to |ls|
        invariant forall l :: 0 <= l <= MAX_BITS ==> count[l] == Count(ls[..s], l)
      {
        forall l | 0 <= l <= MAX_BITS
          ensures Count(ls[..s + 1], l) == Count(ls[..s], l) + (if ls[s] == l then 1 else 0)
        {
          CountPrefix(ls, s, l);
        }
        count[ls[s]] := count[ls[s]] + 1;
      }
      assert ls[..|ls|] == ls;
    }

    /** The check of the lengths: negative as soon as there are too many codes, else what is left over. */
    method CheckLengths(ghost ls: Lengths) returns (left: int)
      requires Counts(ls)
      ensures left < 0 <==> OverSubscribed(ls)
      ensures left >= 0 ==> left == Left(ls, MAX_BITS)
      ensures left < 0 ==> FirstNegative(ls, left)
    {
      left := 1;
      for len := 1 to MAX_BITS + 1
        invariant left >= 0 && left == Left(ls, len - 1)
        invariant forall l: nat :: l < len ==> Left(ls, l) >= 0
      {
        left := 2 * left;
        left := left - count[len];
        if left < 0 {
          LeftStaysNegative(ls, len, MAX_BITS);
          return;
        }
      }
    }

    method Offsets(ghost ls: Lengths) returns (offs: array<int>)
      requires Counts(ls)
      ensures fresh(offs) && offs.Length == MAX_BITS + 1
      ensures forall l :: 0 < l <= MAX_BITS ==> offs[l] == Offset(ls, l)
    {
      hide Count;
      offs := new int[MAX_BITS + 1];
      offs[1] := 0;
      for len := 1 to MAX_BITS
        invariant forall l :: 0 < l <= len ==> offs[l] == Offset(ls, l)
      {
        offs[len + 1] := offs[len] + count[len];
      }
    }

    method SortSymbols(ls: Lengths, offs: array<int>)
      requires Sized() && |ls| <= symbol.Length && offs != symbol && offs != count
      requires offs.Length == MAX_BITS + 1
      requires forall l :: 0 < l <= MAX_BITS ==> offs[l] == Offset(ls, l)
      modifies symbol, offs
      ensures Sorted(ls, |ls|)
    {
      hide Count, Offset, Slot;
      NothingCounted(ls);
      for s := 0 to |ls|
        invariant forall l :: 0 < l <= MAX_BITS ==> offs[l] == Offset(ls, l) + Count(ls[..s], l)
        invariant Sorted(ls, s)
      {
        forall l | 0 < l <= MAX_BITS
          ensures Count(ls[..s + 1], l) == Count(ls[..s], l) + (if ls[s] == l then 1 else 0)
        {
          CountPrefix(ls, s, l);
        }
        if ls[s] != 0 {
          SlotInRange(ls, s);
          SlotFromCount(ls, s);
          forall t: nat | t < s && ls[t] != 0
            ensures Slot(ls, t) != Slot(ls, s)
          {
            SlotsDiffer(ls, t, s);
          }
          symbol[offs[ls[s]]] := s;
          offs[ls[s]] := offs[ls[s]] + 1;
        }
      }
    }

    /**
     Build the table for the lengths `length[base..base + n]`.  The result is zero for a complete
     or empty code, positive for an incomplete one, negative for an over-subscribed one.
     */
    method Construct(length: array<int>, base: nat, n: nat, ghost ls: Lengths) returns (left: int)
      requires Sized() && Apart(length) && base + n <= length.Length && n <= symbol.Length
      requires length[base..base + n] == ls
      modifies count, symbol
      ensures Counts(ls)
      ensures left < 0 <==> OverSubscribed(ls)
      ensures left >= 0 ==> Represents(ls)
      ensures left >= 0 ==> left == if AllZero(ls) then 0 else Left(ls, MAX_BITS)
      ensures left < 0 ==> FirstNegative(ls, left)
    {
      var lengths: seq<int> := length[base..base + n];
      CountLengths(lengths);
      if count[0] == n {
        AllZeroHasNoSymbols(ls);
        return 0;
      }
      left := CheckLengths(lengths);
      if left < 0 {
        return;
      }
      var offs := Offsets(lengths);
      SortSymbols(lengths, offs);
    }
  }
}
