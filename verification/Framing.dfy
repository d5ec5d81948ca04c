/**
 Length-prefixed frames, [4-byte big endian length][payload], on a stream that arrives in pieces:
 what the codec of src/protocol.rs and the C client have in common.
 */
module Framing {
  import opened Bits

  const U16 := 0x1_0000
  const U32 := 0x1_0000_0000
  const U64 := 0x1_0000_0000_0000_0000

  // ----- big endian numbers -----

  function Base(n: nat): (r: nat)
    ensures 0 < r
  {
    if n == 0 then 1 else 256 * Base(n - 1)
  }

  /** The low `n` bytes of `v`, most significant first. */
  function BigEndian(v: nat, n: nat): (s: Bytes)
    ensures |s| == n
  {
    if n == 0 then [] else BigEndian(v / 256, n - 1) + [v % 256]
  }

  function FromBigEndian(s: Bytes): (v: nat)
    ensures v < Base(|s|)
  {
    if |s| == 0 then 0 else 256 * FromBigEndian(s[..|s| - 1]) + s[|s| - 1]
  }

  lemma {:induction false} BigEndianRoundTrip(v: nat, n: nat)
    requires v < Base(n)
    ensures FromBigEndian(BigEndian(v, n)) == v
  {
    if n > 0 {
      BigEndianRoundTrip(v / 256, n - 1);
      assert BigEndian(v, n)[..n - 1] == BigEndian(v / 256, n - 1);
    }
  }

  lemma Bases()
    ensures Base(1) == 0x100 && Base(2) == U16 && Base(4) == U32 && Base(8) == U64
  {
    assert Base(3) == 256 * Base(2);
    assert Base(5) == 256 * Base(4);
    assert Base(6) == 256 * Base(5);
    assert Base(7) == 256 * Base(6);
  }

  // ----- frames -----

  /** A payload behind its length; the length field holds 32 bits. */
  function Frame(payload: Bytes): Bytes {
    BigEndian(|payload| % U32, 4) + payload
  }

  function FrameAll(payloads: seq<Bytes>): Bytes {
    if |payloads| == 0 then [] else Frame(payloads[0]) + FrameAll(payloads[1..])
  }

  /** The length of the first frame's payload. */
  function FirstLength(buf: Bytes): nat
    requires |buf| >= 4
  {
    FromBigEndian(buf[..4])
  }

  predicate HasFrame(buf: Bytes) {
    |buf| >= 4 && |buf| >= 4 + FirstLength(buf)
  }

  datatype Frames = Frames(payloads: seq<Bytes>, rest: Bytes)

  /** All complete frames at the front of `buf`, and the incomplete rest. */
  function Split(buf: Bytes): Frames
    decreases |buf|
  {
    if !HasFrame(buf) then Frames([], buf)
    else
      var n := FirstLength(buf);
      var more := Split(buf[4 + n..]);
      Frames([buf[4..4 + n]] + more.payloads, more.rest)
  }

  lemma NoFrameNoPayload(buf: Bytes)
    requires !HasFrame(buf)
    ensures Split(buf) == Frames([], buf)
  {
  }

  lemma EmptyHasNoFrame()
    ensures !HasFrame([]) && Split([]) == Frames([], [])
  {
  }

  lemma FrameParts(payload: Bytes, s: Bytes)
    requires |payload| < U32
    ensures HasFrame(Frame(payload) + s) && FirstLength(Frame(payload) + s) == |payload|
    ensures (Frame(payload) + s)[4..4 + |payload|] == payload
    ensures (Frame(payload) + s)[4 + |payload|..] == s
  {
    hide BigEndian, FromBigEndian;
    Bases();
    BigEndianRoundTrip(|payload|, 4);
    assert (Frame(payload) + s)[..4] == BigEndian(|payload|, 4);
  }

  /** Frames in a row come out as they were put in; what follows is not touched. */
  lemma {:induction false} FramesComeOut(payloads: seq<Bytes>, s: Bytes)
    requires forall i :: 0 <= i < |payloads| ==> |payloads[i]| < U32
    ensures Split(FrameAll(payloads) + s) == Frames(payloads + Split(s).payloads, Split(s).rest)
    decreases |payloads|
  {
    hide Frame, FromBigEndian, BigEndian, FirstLength;
    if |payloads| == 0 {
      assert FrameAll(payloads) + s == s;
      assert payloads + Split(s).payloads == Split(s).payloads;
    } else {
      var p, rest := payloads[0], FrameAll(payloads[1..]) + s;
      Regroup(Frame(p), FrameAll(payloads[1..]), s);
      FrameParts(p, rest);
      FramesComeOut(payloads[1..], s);
      Regroup([p], payloads[1..], Split(s).payloads);
      assert [p] + payloads[1..] == payloads;
    }
  }

  // ----- arrival in pieces -----

  lemma FrameStays(a: Bytes, b: Bytes)
    requires HasFrame(a)
    ensures HasFrame(a + b) && FirstLength(a + b) == FirstLength(a)
    ensures (a + b)[4..4 + FirstLength(a)] == a[4..4 + FirstLength(a)]
    ensures (a + b)[4 + FirstLength(a)..] == a[4 + FirstLength(a)..] + b
  {
    hide FromBigEndian;
    assert (a + b)[..4] == a[..4];
  }

  /** Taking out frames early does not change which frames come out. */
  lemma {:induction false} ArrivalInPieces(a: Bytes, b: Bytes)
    ensures Split(a + b) == Frames(Split(a).payloads + Split(Split(a).rest + b).payloads, Split(Split(a).rest + b).rest)
    decreases |a|
  {
    hide FirstLength;
    if HasFrame(a) {
      var n := FirstLength(a);
      FrameStays(a, b);
      ArrivalInPieces(a[4 + n..], b);
      var x, y := Split(a[4 + n..]).payloads, Split(Split(a).rest + b).payloads;
      assert [a[4..4 + n]] + (x + y) == ([a[4..4 + n]] + x) + y;
    } else {
      assert Split(a).payloads + Split(Split(a).rest + b).payloads == Split(a + b).payloads;
    }
  }

  /** Splitting after each arrival, the rest put in front of the next piece. */
  function SplitArrivals(pending: Bytes, chunks: seq<Bytes>): Frames
    decreases |chunks|
  {
    if |chunks| == 0 then Frames([], pending)
    else
      var f := Split(pending + chunks[0]);
      var g := SplitArrivals(f.rest, chunks[1..]);
      Frames(f.payloads + g.payloads, g.rest)
  }

  lemma {:induction false} RestHasNoFrame(buf: Bytes)
    ensures !HasFrame(Split(buf).rest)
    decreases |buf|
  {
    if HasFrame(buf) {
      RestHasNoFrame(buf[4 + FirstLength(buf)..]);
    }
  }

  /** However the stream is cut, the same frames come out. */
  lemma {:induction false} AnyArrival(pending: Bytes, chunks: seq<Bytes>)
    requires !HasFrame(pending)
    ensures SplitArrivals(pending, chunks) == Split(pending + Flatten(chunks))
    decreases |chunks|
  {
    hide HasFrame, FirstLength;
    if |chunks| == 0 {
      assert pending + Flatten(chunks) == pending;
    } else {
      var first := pending + chunks[0];
      assert pending + Flatten(chunks) == first + Flatten(chunks[1..]);
      ArrivalInPieces(first, Flatten(chunks[1..]));
      RestHasNoFrame(first);
      AnyArrival(Split(first).rest, chunks[1..]);
    }
  }

  /**
   What has arrived of a stream of frames: the first `k` frames are out and the rest is the
   beginning of frame `k`, shorter than it.
   */
  lemma {:induction false} PartOfStream(payloads: seq<Bytes>, s: Bytes) returns (k: nat)
    requires forall i :: 0 <= i < |payloads| ==> |payloads[i]| < U32
    requires s <= FrameAll(payloads)
    ensures k <= |payloads| && Split(s).payloads == payloads[..k]
    ensures Split(s).rest <= FrameAll(payloads[k..])
    ensures if k < |payloads| then |Split(s).rest| < 4 + |payloads[k]| else Split(s).rest == []
    decreases |payloads|
  {
    hide Frame, FirstLength;
    if |payloads| == 0 {
      k := 0;
    } else {
      var p := payloads[0];
      var whole := FrameAll(payloads);
      FrameParts(p, FrameAll(payloads[1..]));
      if |s| >= 4 + |p| {
        assert s[..4] == whole[..4] by {
          assert forall i :: 0 <= i < 4 ==> s[i] == whole[i];
        }
        FirstLengthOf(s, whole);
        var t := s[4 + |p|..];
        assert s[4..4 + |p|] == whole[4..4 + |p|];
        assert t <= whole[4 + |p|..];
        var j := PartOfStream(payloads[1..], t);
        k := j + 1;
        assert payloads[..k] == [p] + payloads[1..][..j];
        assert payloads[k..] == payloads[1..][j..];
      } else {
        k := 0;
        if |s| >= 4 {
          assert s[..4] == whole[..4];
          FirstLengthOf(s, whole);
        }
        assert payloads[0..] == payloads;
      }
    }
  }

  lemma FirstLengthOf(s: Bytes, t: Bytes)
    requires |s| >= 4 && |t| >= 4 && s[..4] == t[..4]
    ensures FirstLength(s) == FirstLength(t)
  {
  }

  /** With frames of at most `size` bytes, less than `size` bytes wait for more. */
  lemma RestLeavesRoom(payloads: seq<Bytes>, s: Bytes, size: nat)
    requires 4 < size <= U32 && forall i :: 0 <= i < |payloads| ==> 4 + |payloads[i]| <= size
    requires s <= FrameAll(payloads)
    ensures |Split(s).rest| < size
  {
    hide Split, FrameAll;
    var k := PartOfStream(payloads, s);
  }

  // ----- lengths -----

  function FramedLength(payloads: seq<Bytes>): nat {
    if |payloads| == 0 then 0 else 4 + |payloads[0]| + FramedLength(payloads[1..])
  }

  lemma {:induction false} FrameAllLength(payloads: seq<Bytes>)
    ensures |FrameAll(payloads)| == FramedLength(payloads)
  {
    if |payloads| > 0 {
      FrameAllLength(payloads[1..]);
    }
  }

  /** Nothing is lost or added by taking out frames. */
  lemma {:induction false} SplitLength(s: Bytes)
    ensures |s| == FramedLength(Split(s).payloads) + |Split(s).rest|
    decreases |s|
  {
    hide FirstLength;
    if HasFrame(s) {
      var n := FirstLength(s);
      SplitLength(s[4 + n..]);
      assert Split(s).payloads[1..] == Split(s[4 + n..]).payloads;
    }
  }

  lemma {:induction false} FramedLengthMonotone(payloads: seq<Bytes>, j: nat, k: nat)
    requires j <= k <= |payloads|
    ensures FramedLength(payloads[..j]) <= FramedLength(payloads[..k])
    ensures j < k ==> FramedLength(payloads[..j]) + 4 + |payloads[j]| <= FramedLength(payloads[..k])
    decreases |payloads|
  {
    if 0 < j {
      FramedLengthMonotone(payloads[1..], j - 1, k - 1);
      assert payloads[..j][1..] == payloads[1..][..j - 1];
      assert payloads[..k][1..] == payloads[1..][..k - 1];
    }
  }

  lemma {:induction false} FramedLengthOne(payloads: seq<Bytes>, p: Bytes)
    ensures FramedLength(payloads + [p]) == FramedLength(payloads) + 4 + |p|
  {
    if |payloads| > 0 {
      FramedLengthOne(payloads[1..], p);
      assert (payloads + [p])[1..] == payloads[1..] + [p];
    } else {
      assert [p][1..] == [] && payloads + [p] == [p];
    }
  }
}
