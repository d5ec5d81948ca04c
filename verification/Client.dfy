/** The receiving side of the C client: socket reassembly in a compacting buffer, packets, output. */
module Client {
  import opened Bits
  import opened Framing
  import Gzip
  import P = PuffDecoder

  const BUFFER_SIZE := 65536
  const DECOMPRESS_BUFFER_SIZE := 262144

  /** How much has come when poll reports input: at least one byte. */
  type Ready = n: nat | n > 0 witness 1

  /** What a server frame packet makes the client write; nothing for any other payload. */
  ghost function Shown(payload: Bytes): Bytes {
    if |payload| < 14 || payload[0] != 5 then []
    else
      var n := FromBigEndian(payload[10..14]);
      if 14 + n > |payload| then []
      else
        var data := payload[14..14 + n];
        if payload[9] == 0 then data
        else
          match Gzip.Decompress(data, DECOMPRESS_BUFFER_SIZE)
          case None => []
          case Some(bytes) => bytes
  }

  /** By its bytes: tag 5, eight bytes of number, a flag, four bytes of length, the data; all else shows nothing. */
  lemma ShownInBytes(p: Bytes)
    ensures |p| < 14 || p[0] != 5 ==> Shown(p) == []
    ensures |p| >= 14 && p[0] == 5 ==>
              var n := 0x1000000 * p[10] as int + 0x10000 * p[11] as int + 0x100 * p[12] as int + p[13] as int;
              && (n > |p| - 14 ==> Shown(p) == [])
              && (n <= |p| - 14 && p[9] == 0 ==> Shown(p) == p[14..14 + n])
              && (n <= |p| - 14 && p[9] != 0 ==>
                    Shown(p) == match Gzip.Decompress(p[14..14 + n], 262144) case None => [] case Some(bytes) => bytes)
  {
    hide FromBigEndian, Gzip.Decompress;
    if |p| >= 14 {
      WordIsBigEndian(p[10..14]);
    }
  }

  ghost function ShownAll(payloads: seq<Bytes>): Bytes {
    if |payloads| == 0 then [] else Shown(payloads[0]) + ShownAll(payloads[1..])
  }

  lemma {:induction false} ShownAppend(xs: seq<Bytes>, ys: seq<Bytes>)
    ensures ShownAll(xs + ys) == ShownAll(xs) + ShownAll(ys)
  {
    hide Shown;
    if |xs| == 0 {
      assert xs + ys == ys;
    } else {
      assert (xs + ys)[1..] == xs[1..] + ys;
      ShownAppend(xs[1..], ys);
    }
  }

  /** Four bytes put together by shifting. */
  function Word(b0: byte, b1: byte, b2: byte, b3: byte): nat {
    0x1000000 * b0 as int + 0x10000 * b1 as int + 0x100 * b2 as int + b3 as int
  }

  lemma WordIsBigEndian(s: Bytes)
    requires |s| == 4
    ensures Word(s[0], s[1], s[2], s[3]) == FromBigEndian(s)
  {
    var s3 := s[..3];
    var s2 := s3[..2];
    var s1 := s2[..1];
    assert s1[..0] == [];
    assert FromBigEndian(s1) == s[0];
    assert FromBigEndian(s2) == 256 * FromBigEndian(s1) + s[1];
    assert FromBigEndian(s3) == 256 * FromBigEndian(s2) + s[2];
  }

  class Receiver {
    const netBuf: array<byte>
    var netBufLen: nat
    var written: Bytes
    const tables: P.FixedTables

    constructor ()
      ensures Valid() && netBufLen == 0 && written == []
    {
      netBuf := new byte[BUFFER_SIZE];
      netBufLen := 0;
      written := [];
      tables := new P.FixedTables();
    }

    ghost predicate Valid()
      reads this, netBuf, tables.Repr()
    {
      && netBuf.Length == BUFFER_SIZE && netBufLen <= BUFFER_SIZE
      && tables.Valid() && {netBuf as object, this} !! tables.Repr()
    }

    /** The bytes that wait for the rest of their frame. */
    ghost function Pending(): Bytes
      requires netBufLen <= netBuf.Length
      reads this, netBuf
    {
      netBuf[..netBufLen]
    }

    /** Write what the data decompresses to; nothing when that fails. */
    method WriteDecompressed(data: Bytes)
      requires Valid()
      modifies this`written, tables.Repr()
      ensures Valid()
      ensures written == old(written) + match Gzip.Decompress(data, DECOMPRESS_BUFFER_SIZE) case None => [] case Some(bytes) => bytes
    {
      hide Gzip.Decompress;
      var decompBuf := new byte[DECOMPRESS_BUFFER_SIZE];
      var ok, n := Gzip.DecompressFrame(data, decompBuf, DECOMPRESS_BUFFER_SIZE, tables);
      if ok {
        written := written + decompBuf[..n];
      }
    }

    method ProcessPacket(payload: Bytes)
      requires Valid()
      modifies this`written, tables.Repr()
      ensures Valid()
      ensures written == old(written) + Shown(payload)
    {
      hide Gzip.Decompress, FromBigEndian;
      if |payload| == 0 {
        return;
      }
      if payload[0] == 5 {
        if |payload| < 14 {
          return;
        }
        var compressed := payload[9];
        var frameLen := Word(payload[10], payload[11], payload[12], payload[13]);
        assert frameLen == FromBigEndian(payload[10..14]) by {
          WordIsBigEndian(payload[10..14]);
        }
        if 14 + frameLen > |payload| {
          return;
        }
        var frameData := payload[14..14 + frameLen];
        if compressed != 0 {
          WriteDecompressed(frameData);
        } else {
          written := written + frameData;
        }
      }
    }

    /** Store what a read returned behind the pending bytes. */
    method Store(chunk: Bytes)
      requires Valid() && netBufLen + |chunk| <= BUFFER_SIZE
      modifies netBuf, this`netBufLen
      ensures Valid() && Pending() == old(Pending()) + chunk
    {
      forall i | 0 <= i < |chunk| {
        netBuf[netBufLen + i] := chunk[i];
      }
      netBufLen := netBufLen + |chunk|;
    }

    /** Move the bytes behind `offset` to the front. */
    method Compact(offset: nat)
      requires Valid() && offset <= netBufLen
      modifies netBuf, this`netBufLen
      ensures Valid() && Pending() == old(Pending())[offset..]
    {
      if offset > 0 {
        forall i | 0 <= i < netBufLen - offset {
          netBuf[i] := netBuf[offset + i];
        }
        netBufLen := netBufLen - offset;
      }
    }

    /** The payload length of the frame at `offset`, and whether all of the frame is there. */
    method FrameAt(offset: nat) returns (complete: bool, pktLen: nat)
      requires Valid() && offset <= netBufLen
      ensures complete <==> HasFrame(Pending()[offset..])
      ensures complete ==> pktLen == FirstLength(Pending()[offset..]) && offset + 4 + pktLen <= netBufLen
    {
      hide FromBigEndian;
      if netBufLen - offset < 4 {
        return false, 0;
      }
      pktLen := Word(netBuf[offset], netBuf[offset + 1], netBuf[offset + 2], netBuf[offset + 3]);
      ghost var s := Pending()[offset..];
      assert pktLen == FirstLength(s) by {
        WordIsBigEndian(s[..4]);
      }
      complete := netBufLen - offset >= 4 + pktLen;
    }

    /** Process every complete frame in the buffer; returns where the incomplete rest begins. */
    method ProcessFrames() returns (offset: nat)
      requires Valid()
      modifies this`written, tables.Repr()
      ensures Valid() && offset <= netBufLen && Pending() == old(Pending())
      ensures Pending()[offset..] == Split(Pending()).rest
      ensures written == old(written) + ShownAll(Split(Pending()).payloads)
    {
      hide Shown, ShownAll, Split, FirstLength, HasFrame, TakenOut, P.FixedTables.Valid;
      ghost var buf := Pending();
      ghost var done: seq<Bytes> := [];
      NothingTaken(buf);
      offset := 0;
      var complete, pktLen := FrameAt(offset);
      while complete
        invariant Valid() && offset <= netBufLen && Pending() == buf
        invariant complete <==> HasFrame(buf[offset..])
        invariant complete ==> offset + 4 + pktLen <= netBufLen && pktLen == FirstLength(buf[offset..])
        invariant written == old(written) + ShownAll(done)
        invariant TakenOut(buf, offset, done)
        decreases netBufLen - offset
      {
        var p := netBuf[..netBufLen][offset + 4..offset + 4 + pktLen];
        FrameOut(buf, offset, done, p);
        ProcessPacket(p);
        ShownNext(done, p);
        assert old(written) + (ShownAll(done) + Shown(p)) == old(written) + ShownAll(done) + Shown(p);
        done := done + [p];
        offset := offset + (4 + pktLen);
        complete, pktLen := FrameAt(offset);
      }
      AllTaken(buf, offset, done);
    }

    /** What one read of the socket does; an empty read means that the server has closed. */
    method Arrive(chunk: Bytes) returns (open: bool)
      requires Valid() && |chunk| <= BUFFER_SIZE - netBufLen
      modifies this, netBuf, tables.Repr()
      ensures Valid() && open == (|chunk| > 0)
      ensures |chunk| > 0 ==> Pending() == Split(old(Pending()) + chunk).rest
      ensures |chunk| > 0 ==> written == old(written) + ShownAll(Split(old(Pending()) + chunk).payloads)
      ensures |chunk| == 0 ==> Pending() == old(Pending()) && written == old(written)
    {
      hide Split, ShownAll;
      if |chunk| == 0 {
        return false;
      }
      Store(chunk);
      var offset := ProcessFrames();
      Compact(offset);
      return true;
    }

    /** The receiving loop on a stream of which more and more comes; a read without a byte ends it. */
    method ReadStream(stream: Bytes, ready: seq<Ready>) returns (pos: nat, open: bool)
      requires Valid() && netBufLen == 0
      modifies this, netBuf, tables.Repr()
      ensures Valid() && (pos, open) == Reach(stream, 0, ready)
      ensures Pending() == Split(stream[..pos]).rest
      ensures written == old(written) + ShownAll(Split(stream[..pos]).payloads)
    {
      hide Split, ShownAll, P.FixedTables.Valid, P.FixedTables.Repr;
      pos, open := 0, true;
      var i := 0;
      EmptyHasNoFrame();
      NothingTaken(stream);
      assert stream[..0] == [] && ready[0..] == ready;
      while i < |ready| && open
        invariant i <= |ready| && pos <= |stream| && Valid()
        invariant Reach(stream, 0, ready) == if open then Reach(stream, pos, ready[i..]) else (pos, false)
        invariant Pending() == Split(stream[..pos]).rest
        invariant written == old(written) + ShownAll(Split(stream[..pos]).payloads)
        decreases |ready| - i
      {
        var n := BUFFER_SIZE - netBufLen;
        n := if ready[i] < n then ready[i] else n;
        n := if n < |stream| - pos then n else |stream| - pos;
        assert n == ReadSize(stream, pos, ready[i]);
        var chunk := stream[pos..pos + n];
        open := Arrive(chunk);
        if open {
          MoreShown(stream, pos, n);
        }
        pos := pos + n;
        i := i + 1;
      }
    }
  }

  /** Writing what one more payload shows. */
  lemma ShownNext(done: seq<Bytes>, p: Bytes)
    ensures ShownAll(done + [p]) == ShownAll(done) + Shown(p)
  {
    hide Shown;
    ShownAppend(done, [p]);
    assert [p][1..] == [];
    assert Shown(p) + [] == Shown(p);
  }

  /** The frames in front of `offset` have the payloads `done`. */
  ghost predicate TakenOut(buf: Bytes, offset: nat, done: seq<Bytes>)
    requires offset <= |buf|
  {
    Split(buf) == Frames(done + Split(buf[offset..]).payloads, Split(buf[offset..]).rest)
  }

  lemma NothingTaken(buf: Bytes)
    ensures TakenOut(buf, 0, []) && ShownAll([]) == []
  {
    assert buf[0..] == buf;
    assert [] + Split(buf).payloads == Split(buf).payloads;
  }

  lemma FrameOut(buf: Bytes, offset: nat, done: seq<Bytes>, p: Bytes)
    requires offset <= |buf| && HasFrame(buf[offset..]) && TakenOut(buf, offset, done)
    requires p == buf[offset + 4..offset + 4 + FirstLength(buf[offset..])]
    ensures TakenOut(buf, offset + (4 + FirstLength(buf[offset..])), done + [p])
  {
    hide FirstLength;
    var s, n := buf[offset..], FirstLength(buf[offset..]);
    assert s[4..4 + n] == p;
    assert s[4 + n..] == buf[offset + (4 + n)..];
    assert done + ([p] + Split(s[4 + n..]).payloads) == done + [p] + Split(s[4 + n..]).payloads;
  }

  lemma AllTaken(buf: Bytes, offset: nat, done: seq<Bytes>)
    requires offset <= |buf| && !HasFrame(buf[offset..]) && TakenOut(buf, offset, done)
    ensures Split(buf) == Frames(done, buf[offset..])
  {
    assert done + [] == done;
  }

  lemma MoreShown(stream: Bytes, pos: nat, n: nat)
    requires pos + n <= |stream|
    ensures var f := Split(Split(stream[..pos]).rest + stream[pos..pos + n]);
            && Split(stream[..pos + n]).rest == f.rest
            && ShownAll(Split(stream[..pos + n]).payloads) == ShownAll(Split(stream[..pos]).payloads) + ShownAll(f.payloads)
  {
    hide Split, ShownAll;
    assert stream[..pos + n] == stream[..pos] + stream[pos..pos + n];
    ArrivalInPieces(stream[..pos], stream[pos..pos + n]);
    ShownAppend(Split(stream[..pos]).payloads, Split(Split(stream[..pos]).rest + stream[pos..pos + n]).payloads);
  }

  // ----- whole streams -----

  /** What the client has written after reading all chunks one after the other, and what it waits with. */
  ghost function ReadAll(pending: Bytes, chunks: seq<Bytes>): (r: (Bytes, Bytes))
    decreases |chunks|
  {
    if |chunks| == 0 then ([], pending)
    else
      var f := Split(pending + chunks[0]);
      var (more, rest) := ReadAll(f.rest, chunks[1..]);
      (ShownAll(f.payloads) + more, rest)
  }

  /** However the stream is cut into reads, the output is that of its complete frames. */
  lemma {:induction false} ReadAllIsSplit(pending: Bytes, chunks: seq<Bytes>)
    requires !HasFrame(pending)
    ensures ReadAll(pending, chunks) ==
            (ShownAll(Split(pending + Flatten(chunks)).payloads), Split(pending + Flatten(chunks)).rest)
    decreases |chunks|
  {
    hide HasFrame, Shown, Split;
    if |chunks| == 0 {
      NoFrameNoPayload(pending);
      assert pending + Flatten(chunks) == pending;
    } else {
      var first := pending + chunks[0];
      assert pending + Flatten(chunks) == first + Flatten(chunks[1..]);
      ArrivalInPieces(first, Flatten(chunks[1..]));
      RestHasNoFrame(first);
      ReadAllIsSplit(Split(first).rest, chunks[1..]);
      ShownAppend(Split(first).payloads, Split(Split(first).rest + Flatten(chunks[1..])).payloads);
    }
  }

  // ----- the receiving loop -----

  /** How many bytes the next read returns: what has come, as far as there is room for it and as the stream goes. */
  function ReadSize(stream: Bytes, pos: nat, ready: nat): (n: nat)
    requires pos <= |stream|
    ensures pos + n <= |stream|
  {
    var waiting := |Split(stream[..pos]).rest|;
    var room := if waiting < BUFFER_SIZE then BUFFER_SIZE - waiting else 0;
    var n := if ready < room then ready else room;
    if n < |stream| - pos then n else |stream| - pos
  }

  /** Where the loop has come in the stream after its reads, and whether the connection is still open. */
  function Reach(stream: Bytes, pos: nat, ready: seq<Ready>): (r: (nat, bool))
    requires pos <= |stream|
    ensures pos <= r.0 <= |stream|
    decreases |ready|
  {
    if |ready| == 0 then (pos, true)
    else
      var n := ReadSize(stream, pos, ready[0]);
      if n == 0 then (pos, false) else Reach(stream, pos + n, ready[1..])
  }

  /** A read without a byte closes: that is at the end of the stream, or with a full buffer. */
  lemma {:induction false} ReachCloses(stream: Bytes, pos: nat, ready: seq<Ready>)
    requires pos <= |stream|
    ensures var (p, open) := Reach(stream, pos, ready);
            && (!open ==> p == |stream| || |Split(stream[..p]).rest| >= BUFFER_SIZE)
            && (|ready| > |stream| - pos ==> !open)
    decreases |ready|
  {
    hide Split;
    if |ready| > 0 && ReadSize(stream, pos, ready[0]) > 0 {
      ReachCloses(stream, pos + ReadSize(stream, pos, ready[0]), ready[1..]);
    }
  }

  predicate AllFit(payloads: seq<Bytes>) {
    forall i :: 0 <= i < |payloads| ==> 4 + |payloads[i]| <= 65536
  }

  /** A frame larger than the buffer is never passed: the client never gets further than filling the buffer with it. */
  lemma {:induction false} OversizeStops(payloads: seq<Bytes>, k: nat, pos: nat, ready: seq<Ready>)
    requires forall i :: 0 <= i < |payloads| ==> |payloads[i]| < U32
    requires k < |payloads| && 4 + |payloads[k]| > BUFFER_SIZE
    requires pos <= FramedLength(payloads[..k]) + BUFFER_SIZE && pos <= |FrameAll(payloads)|
    ensures Reach(FrameAll(payloads), pos, ready).0 <= FramedLength(payloads[..k]) + BUFFER_SIZE
    decreases |ready|
  {
    hide Split, FrameAll, FramedLength;
    var stream := FrameAll(payloads);
    if |ready| > 0 && ReadSize(stream, pos, ready[0]) > 0 {
      var j := NotBeyond(payloads, k, pos);
      OversizeStops(payloads, k, pos + ReadSize(stream, pos, ready[0]), ready[1..]);
    }
  }

  /** While frame `k` is not complete, what waits begins at or before it. */
  lemma NotBeyond(payloads: seq<Bytes>, k: nat, pos: nat) returns (j: nat)
    requires forall i :: 0 <= i < |payloads| ==> |payloads[i]| < U32
    requires k < |payloads| && pos <= |FrameAll(payloads)|
    requires pos < FramedLength(payloads[..k]) + 4 + |payloads[k]|
    ensures j <= k && Split(FrameAll(payloads)[..pos]).payloads == payloads[..j]
    ensures pos <= FramedLength(payloads[..k]) + |Split(FrameAll(payloads)[..pos]).rest|
  {
    hide Split, FrameAll, FramedLength;
    var s := FrameAll(payloads)[..pos];
    j := PartOfStream(payloads, s);
    SplitLength(s);
    if k < j {
      FramedLengthMonotone(payloads, k, j);
    } else {
      FramedLengthMonotone(payloads, j, k);
    }
  }

  /** A client that goes on reading closes in the end; it has read the whole stream exactly when every frame fits its buffer. */
  lemma ReachIff(payloads: seq<Bytes>, ready: seq<Ready>)
    requires forall i :: 0 <= i < |payloads| ==> |payloads[i]| < U32
    requires |ready| > |FrameAll(payloads)|
    ensures var (pos, open) := Reach(FrameAll(payloads), 0, ready);
            !open && (pos == |FrameAll(payloads)| <==> AllFit(payloads))
  {
    hide Split, FrameAll, FramedLength, Reach;
    var stream := FrameAll(payloads);
    var (pos, open) := Reach(stream, 0, ready);
    ReachCloses(stream, 0, ready);
    if AllFit(payloads) {
      RestLeavesRoom(payloads, stream[..pos], BUFFER_SIZE);
    } else {
      var k :| 0 <= k < |payloads| && 4 + |payloads[k]| > BUFFER_SIZE;
      OversizeStops(payloads, k, 0, ready);
      FrameAllLength(payloads);
      FramedLengthMonotone(payloads, k, |payloads|);
      assert payloads[..|payloads|] == payloads;
    }
  }
}
