/** Bytes, bits and the two bit orders of section 3.1.1 of RFC 1951. */
module Bits {

  type byte = x: int | 0 <= x < 256
  type bit = x: int | 0 <= x < 2
  type Bytes = seq<byte>

  datatype Option<+T> = None | Some(value: T)

  /** The chunks of a stream put together. */
  function Flatten(chunks: seq<Bytes>): Bytes {
    if |chunks| == 0 then [] else chunks[0] + Flatten(chunks[1..])
  }

  lemma Regroup<T>(a: seq<T>, b: seq<T>, c: seq<T>)
    ensures a + b + c == a + (b + c)
  {
  }

  function Pow2(n: nat): (r: nat)
    ensures 0 < r
  {
    if n == 0 then 1 else 2 * Pow2(n - 1)
  }

  /** The number whose bits are `b`, least significant bit first. */
  function Lsb(b: seq<bit>): (v: nat)
    ensures v < Pow2(|b|)
  {
    if b == [] then 0 else b[0] + 2 * Lsb(b[1..])
  }

  /** The number whose bits are `b`, most significant bit first (Huffman codes). */
  function Msb(b: seq<bit>): (v: nat)
    ensures v < Pow2(|b|)
  {
    if b == [] then 0 else 2 * Msb(b[..|b| - 1]) + b[|b| - 1]
  }

  /** The low `n` bits of `v`, least significant first. */
  function LsbBits(v: nat, n: nat): (b: seq<bit>)
    ensures |b| == n
  {
    if n == 0 then [] else [v % 2] + LsbBits(v / 2, n - 1)
  }

  /** The low `n` bits of `v`, most significant first. */
  function MsbBits(v: nat, n: nat): (b: seq<bit>)
    ensures |b| == n
  {
    if n == 0 then [] else MsbBits(v / 2, n - 1) + [v % 2]
  }

  /** A byte string as the bit stream that a Deflate decoder reads. */
  function BitsOf(s: seq<byte>): (b: seq<bit>)
    ensures |b| == 8 * |s|
  {
    seq(8 * |s|, i requires 0 <= i < 8 * |s| => LsbBits(s[i / 8], 8)[i % 8])
  }

  /** `code` stands in `b` at position `p`. */
  predicate At(b: seq<bit>, p: nat, code: seq<bit>) {
    p + |code| <= |b| && b[p..p + |code|] == code
  }

  lemma {:induction false} PowAdd(m: nat, n: nat)
    ensures Pow2(m + n) == Pow2(m) * Pow2(n)
  {
    if m > 0 {
      PowAdd(m - 1, n);
      assert Pow2(m + n) == 2 * Pow2(m - 1 + n);
      assert 2 * (Pow2(m - 1) * Pow2(n)) == 2 * Pow2(m - 1) * Pow2(n);
    }
  }

  lemma {:induction false} LsbOfBits(v: nat, n: nat)
    requires v < Pow2(n)
    ensures Lsb(LsbBits(v, n)) == v
  {
    if n > 0 {
      LsbOfBits(v / 2, n - 1);
      assert LsbBits(v, n)[1..] == LsbBits(v / 2, n - 1);
    }
  }

  lemma {:induction false} BitsOfLsb(b: seq<bit>)
    ensures LsbBits(Lsb(b), |b|) == b
  {
    if b != [] {
      BitsOfLsb(b[1..]);
      var v := Lsb(b);
      assert v % 2 == b[0] && v / 2 == Lsb(b[1..]);
    }
  }

  lemma {:induction false} MsbOfBits(v: nat, n: nat)
    requires v < Pow2(n)
    ensures Msb(MsbBits(v, n)) == v
  {
    if n > 0 {
      MsbOfBits(v / 2, n - 1);
      assert MsbBits(v, n)[..n - 1] == MsbBits(v / 2, n - 1);
    }
  }

  lemma {:induction false} BitsOfMsb(b: seq<bit>)
    ensures MsbBits(Msb(b), |b|) == b
  {
    if b != [] {
      BitsOfMsb(b[..|b| - 1]);
      var v := Msb(b);
      assert v % 2 == b[|b| - 1] && v / 2 == Msb(b[..|b| - 1]);
    }
  }

  lemma {:induction false} LsbConcat(x: seq<bit>, y: seq<bit>)
    ensures Lsb(x + y) == Lsb(x) + Pow2(|x|) * Lsb(y)
  {
    if x == [] {
      assert x + y == y;
    } else {
      LsbConcat(x[1..], y);
      assert (x + y)[1..] == x[1..] + y;
      Double(Pow2(|x| - 1), Lsb(y));
    }
  }

  lemma Double(a: nat, b: nat)
    ensures 2 * a * b == 2 * (a * b)
  {
  }

  lemma DivModUnique(a: nat, d: nat, q: nat, r: nat)
    requires r < d && a == d * q + r
    ensures a / d == q && a % d == r
  {
    var e := a / d - q;
    assert d * e == r - a % d by {
      assert a == d * (a / d) + a % d;
    }
    MultipleOutside(d, e);
  }

  lemma MultipleOutside(d: int, e: int)
    requires 0 <= d
    ensures 1 <= e ==> d <= d * e
    ensures e <= -1 ==> d * e <= -d
  {
    if 1 <= e {
      assert d * e == d + d * (e - 1);
    } else if e <= -1 {
      assert d * e == d * (e + 1) - d;
    }
  }

  lemma BitPlace(k: nat, j: nat)
    requires j < 8
    ensures (8 * k + j) / 8 == k && (8 * k + j) % 8 == j
  {
  }

  lemma ByteRange()
    ensures Pow2(8) == 256
  {
  }

  /** Eight consecutive bits at a byte boundary are that byte. */
  lemma ByteAt(s: seq<byte>, k: nat)
    requires k < |s|
    ensures BitsOf(s)[8 * k..8 * k + 8] == LsbBits(s[k], 8)
    ensures Lsb(BitsOf(s)[8 * k..8 * k + 8]) == s[k]
  {
    hide LsbBits, Lsb, Pow2;
    var b := BitsOf(s)[8 * k..8 * k + 8];
    forall j | 0 <= j < 8
      ensures b[j] == LsbBits(s[k], 8)[j]
    {
      BitPlace(k, j);
    }
    ByteRange();
    LsbOfBits(s[k], 8);
  }

  lemma BitsOfConcat(s: seq<byte>, t: seq<byte>)
    ensures BitsOf(s + t) == BitsOf(s) + BitsOf(t)
  {
    var b, c := BitsOf(s + t), BitsOf(s) + BitsOf(t);
    forall i | 0 <= i < |b|
      ensures b[i] == c[i]
    {
      if i >= 8 * |s| {
        assert (i - 8 * |s|) / 8 == i / 8 - |s| && (i - 8 * |s|) % 8 == i % 8;
      }
    }
  }
}
