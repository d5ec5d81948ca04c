/** Streams written out in bytes or bits, with what inflating gives: one for each type of block, and errors. */
module InflateExamples {
  import opened Bits
  import opened Canonical
  import opened Deflate
  import opened DeflateGrammar
  import opened InflateStandard
  import P = PuffDecoder

  // ----- the first byte -----

  /** The first three bits of a stream are the low bits of its first byte. */
  lemma FirstBits(source: seq<byte>)
    requires source != []
    ensures ReadHeader(BitsOf(source), 0) == Got(Header(source[0] % 2 == 1, source[0] / 2 % 4), 3)
  {
    hide BitsOf, Lsb, LsbBits, Pow2;
    var b := BitsOf(source);
    TablePowers();
    ByteAt(source, 0);
    SplitNumber(b, 0, 3, 5);
    HeaderInNumbers(b, 0);
  }

  /** Type 3 is error -2. */
  lemma InvalidType(source: seq<byte>, limit: nat)
    requires source != [] && source[0] / 2 % 4 == 3
    ensures Inflate(source, limit) == Result(-2, 3, [])
  {
    hide BitsOf;
    FirstBits(source);
  }

  /** An empty input is error 2. */
  lemma NoInput(limit: nat)
    ensures Inflate([], limit) == Result(2, 0, [])
  {
  }

  lemma OneBlock(source: seq<byte>, limit: nat)
    requires source != [] && source[0] % 2 == 1
    ensures Inflate(source, limit) == Block(source[0] / 2 % 4, BitsOf(source), 3, [], limit)
  {
    hide BitsOf, Block;
    FirstBits(source);
  }

  // ----- stored -----

  /** What becomes of a stored block that begins at byte 1. */
  predicate StoredGives(source: seq<byte>, limit: nat, r: Result)
    requires |source| >= 5
  {
    var n := source[1] as int + 256 * source[2] as int;
    if source[3] as int + source[1] as int != 255 || source[4] as int + source[2] as int != 255 then r.err == -3
    else if 5 + n > |source| then r.err == 2
    else if n > limit then r.err == -1
    else r == Result(0, 8 * (5 + n), source[5..5 + n])
  }

  lemma LowAndHigh(low: byte, high: byte)
    ensures (low as int + 256 * high as int) % 256 == low && (low as int + 256 * high as int) / 256 % 256 == high
  {
  }

  lemma StoredType(b: byte)
    requires b % 8 == 1
    ensures b % 2 == 1 && b / 2 % 4 == 0
  {
  }

  lemma TypeZero(b: seq<bit>, limit: nat)
    requires 3 <= |b|
    ensures Block(0, b, 3, [], limit) == StoredBlock(b, 3, [], limit) && Align(3) == 8
  {
    hide StoredBlock;
  }

  lemma StoredBytesGive(source: seq<byte>, limit: nat)
    requires |source| >= 5
    ensures StoredGives(source, limit, P.StoredBytes(source, 1, [], limit))
  {
    LowAndHigh(source[1], source[2]);
    var n := source[1] as int + 256 * source[2] as int;
    if 5 + n <= |source| {
      assert [] + source[5..5 + n] == source[5..5 + n];
    }
  }

  /**
   A first block that is stored and last: behind the first byte the length and its complement, low byte
   first, and the data.  Lengths that are not complements are error -3, missing input is error 2, missing space -1.
   */
  lemma StoredStream(source: seq<byte>, limit: nat)
    requires |source| >= 5 && source[0] % 8 == 1
    ensures StoredGives(source, limit, Inflate(source, limit))
  {
    hide BitsOf, StoredBlock, Inflate, StoredGives, P.StoredBytes, Block;
    StoredType(source[0]);
    OneBlock(source, limit);
    TypeZero(BitsOf(source), limit);
    P.StoredBlockIsBytes(source, 3, 1, [], limit);
    StoredBytesGive(source, limit);
  }

  // ----- fixed -----

  lemma {:induction false} MsbBitsStep(v: nat, n: nat)
    ensures MsbBits(v, 0) == []
    ensures n > 0 ==> MsbBits(v, n) == MsbBits(v / 2, n - 1) + [v % 2]
  {
  }

  /** The letter a and the end of the block. */
  function FixedBits(): seq<bit> {
    ([1] + [1, 0]) + ([1, 0, 0, 1, 0, 0, 0, 1] + [0, 0, 0, 0, 0, 0, 0])
  }

  lemma CodeOfA()
    ensures MsbBits(145, 8) == [1, 0, 0, 1, 0, 0, 0, 1] && MsbBits(0, 7) == [0, 0, 0, 0, 0, 0, 0]
  {
    hide MsbBits;
    MsbBitsStep(145, 8);
    MsbBitsStep(72, 7);
    MsbBitsStep(36, 6);
    MsbBitsStep(18, 5);
    MsbBitsStep(9, 4);
    MsbBitsStep(4, 3);
    MsbBitsStep(2, 2);
    MsbBitsStep(1, 1);
    MsbBitsStep(0, 0);
    assert MsbBits(1, 1) == [1];
    assert MsbBits(9, 4) == [1, 0, 0, 1];
    MsbBitsStep(0, 7);
    MsbBitsStep(0, 6);
    MsbBitsStep(0, 5);
    MsbBitsStep(0, 4);
    MsbBitsStep(0, 3);
    MsbBitsStep(0, 2);
    MsbBitsStep(0, 1);
    assert MsbBits(0, 4) == [0, 0, 0, 0];
  }

  lemma FixedStream()
    ensures Inflate(Pack(FixedBits()), 1) == Result(0, 18, [0x61])
  {
    hide Inflate, Pack, Code, MsbBits, FixedLiterals, FixedDistances;
    var ts := [Fixed([Literal(0x61)])];
    FixedLiteralCodes(0x61);
    FixedLiteralCodes(256);
    FixedLiteralsLength();
    CodeOfA();
    var tokens := [Literal(0x61)];
    assert tokens[1..] == [];
    assert [] + [0x61] == [0x61];
    assert ValidTokens(FixedLiterals(), FixedDistances(), tokens);
    assert EncodeTokens(FixedLiterals(), FixedDistances(), tokens) == [1, 0, 0, 1, 0, 0, 0, 1] + [0, 0, 0, 0, 0, 0, 0];
    assert LsbBits(1, 2) == [1] + LsbBits(0, 1);
    assert LsbBits(1, 1) == [1] && LsbBits(0, 1) == [0];
    assert HeaderBits(true, 1) == [1] + [1, 0];
    assert EncodeBlocks(ts, 0) == FixedBits();
    assert Meaning(ts) == Some([0x61]);
    EncodeInflateRoundTrip(ts, 1);
  }

  lemma FixedLiteralsLength()
    ensures |FixedLiterals()| == 288
  {
  }
}
