/**
 The send loop and the PTY reader of src/server.rs as steps on one state under a lock.  A step of
 the sender is split where the lock is released: `Tick` takes data out under the lock, `Send`
 transmits it; the reader may append in between.  Tokens are real numbers.
 */
module Server {
  import opened Bits
  import opened SafeSplit

  type Amount = x: real | x >= 0.0

  const MAX_PTY_BUFFER_CAP := 16384

  /** The screen emulator, the screen renderer, the gzip encoder (none when it fails), and the rate. */
  datatype Env<!S> = Env(step: (S, byte) -> S, render: S -> Bytes, gzip: Bytes -> Option<Bytes>, rate: Amount)
  {
    /** Half a second of the rate, but at least 2048 bytes. */
    function Burst(): (b: real)
      ensures b >= 2048.0
    {
      var half := rate * 0.5;
      if half < 2048.0 then 2048.0 else half
    }

    /** The payload of a frame and whether it is compressed. */
    function Compress(data: Bytes): (r: (Bytes, bool))
      ensures |r.0| <= |data| && (!r.1 ==> r.0 == data)
      ensures r.1 ==> gzip(data) == Some(r.0)
    {
      if |data| > 128 then
        match gzip(data)
        case Some(c) => if |c| < |data| then (c, true) else (data, false)
        case None => (data, false)
      else (data, false)
    }
  }

  /** Data taken out of the state and not yet sent: bytes of the PTY, or a rendered screen. */
  datatype Outgoing = Nothing | Raw(data: Bytes) | Atomic(data: Bytes)

  /** What became of the bytes read from the PTY, and which screens were sent, in order. */
  datatype Item =
    | Chunk(number: nat, data: Bytes)
    | Refresh(number: nat, data: Bytes)
    | Dropped(data: Bytes)

  /** The shared session state, the variables of the send task, and a record of the past. */
  datatype State<S> = State(
    buf: Bytes, vt: S,
    tokens: real, number: nat, pending: bool, outgoing: Outgoing, closed: bool, done: bool,
    history: seq<Item>, read: Bytes)

  datatype Event<S> =
    | Append(chunk: Bytes, caught: Option<S>)      // the reader; a caught panic leaves a new screen
    | EndOfPty
    | Tick(elapsed: Amount, renderFails: bool)
    | Send(ok: bool)
    | Flush(ok: bool)
    | Reset(screen: S)                             // resize or handshake

  function Initial<S>(env: Env<S>, screen: S): State<S> {
    State([], screen, env.Burst(), 0, false, Nothing, false, false, [], [])
  }

  predicate Enabled<S>(s: State<S>, e: Event<S>) {
    match e
    case Append(chunk, _) => !s.closed && 0 < |chunk| <= 4096
    case EndOfPty => !s.closed
    case Tick(_, _) => !s.done && s.outgoing.Nothing?
    case Send(_) => !s.done && !s.outgoing.Nothing?
    case Flush(_) => !s.done && s.closed && s.outgoing.Nothing?
    case Reset(_) => true
  }

  function Play<S>(env: Env<S>, screen: S, bytes: Bytes): S
    decreases |bytes|
  {
    if |bytes| == 0 then screen else env.step(Play(env, screen, bytes[..|bytes| - 1]), bytes[|bytes| - 1])
  }

  function Refill<S>(env: Env<S>, tokens: real, elapsed: Amount): (t: real)
    ensures t <= env.Burst()
  {
    var t := tokens + env.rate * elapsed;
    if t < env.Burst() then t else env.Burst()
  }

  function Drop(history: seq<Item>, data: Bytes): seq<Item> {
    if |data| == 0 then history else history + [Item.Dropped(data)]
  }

  /** A full buffer is discarded and a refresh is due. */
  function DropOverflow<S>(s: State<S>): State<S> {
    if |s.buf| > MAX_PTY_BUFFER_CAP then s.(buf := [], pending := true, history := Drop(s.history, s.buf)) else s
  }

  /** The locked section of a tick, once tokens are refilled and an overflow is handled. */
  function TakeOut<S>(env: Env<S>, s: State<S>, renderFails: bool): State<S> {
    if s.tokens <= 0.0 then s
    else if s.pending then
      s.(buf := [], pending := false, history := Drop(s.history, s.buf),
         outgoing := if renderFails then Nothing else Atomic(env.render(s.vt)))
    else if |s.buf| == 0 then s
    else
      var n := SplitPoint(s.buf, s.tokens.Floor);
      if 0 < n then s.(buf := s.buf[n..], outgoing := Raw(s.buf[..n])) else s
  }

  function Apply<S>(env: Env<S>, s: State<S>, e: Event<S>): State<S> {
    match e
    case Append(chunk, caught) =>
      s.(buf := s.buf + chunk, read := s.read + chunk,
         vt := match caught case None => Play(env, s.vt, chunk) case Some(screen) => screen)
    case EndOfPty => s.(closed := true)
    case Tick(elapsed, renderFails) =>
      TakeOut(env, DropOverflow(s.(tokens := Refill(env, s.tokens, elapsed))), renderFails)
    case Send(ok) =>
      var n := s.number + 1;
      var item := match s.outgoing
                  case Nothing => []
                  case Raw(d) => if ok then [Chunk(n, d)] else [Item.Dropped(d)]
                  case Atomic(d) => if ok then [Refresh(n, d)] else [];
      s.(number := n, outgoing := Nothing, history := s.history + item, done := !ok,
         tokens := match s.outgoing
                   case Nothing => s.tokens
                   case Raw(d) => if ok then s.tokens - |env.Compress(d).0| as real else s.tokens
                   case Atomic(d) => if ok then s.tokens - |env.Compress(d).0| as real else s.tokens)
    case Flush(ok) =>
      if |s.buf| == 0 then s.(done := true)
      else
        s.(buf := [], number := s.number + 1, done := true,
           history := s.history + [if ok then Chunk(s.number + 1, s.buf) else Item.Dropped(s.buf)])
    case Reset(screen) => s.(vt := screen)
  }

  // ----- the program -----

  class Session<S> {
    const env: Env<S>
    var ptyBuffer: Bytes
    var vtParser: S
    var tokens: real
    var seqNo: nat
    var pendingAtomicRefresh: bool
    var outgoing: Outgoing
    var ptyClosed: bool
    var done: bool
    ghost var history: seq<Item>
    ghost var read: Bytes

    constructor (env: Env<S>, screen: S)
      ensures this.env == env && Model() == Initial(env, screen)
    {
      this.env := env;
      ptyBuffer, vtParser := [], screen;
      tokens, seqNo, pendingAtomicRefresh := env.Burst(), 0, false;
      outgoing, ptyClosed, done := Nothing, false, false;
      history, read := [], [];
    }

    ghost function Model(): State<S>
      reads this
    {
      State(ptyBuffer, vtParser, tokens, seqNo, pendingAtomicRefresh, outgoing, ptyClosed, done, history, read)
    }

    /** The reader thread, for one successful read. */
    method AppendChunk(chunk: Bytes, caught: Option<S>)
      requires Enabled(Model(), Append(chunk, caught))
      modifies this
      ensures Model() == Apply(env, old(Model()), Append(chunk, caught))
    {
      if caught.Some? {
        vtParser := caught.value;
      } else {
        var i := 0;
        ghost var before := vtParser;
        assert chunk[..0] == [];
        while i < |chunk|
          invariant i <= |chunk|
          invariant vtParser == Play(env, before, chunk[..i])
          invariant Model() == old(Model()).(vt := vtParser)
        {
          assert chunk[..i + 1][..i] == chunk[..i];
          vtParser := env.step(vtParser, chunk[i]);
          i := i + 1;
        }
        assert chunk[..i] == chunk;
      }
      ptyBuffer := ptyBuffer + chunk;
      read := read + chunk;
    }

    method ClosePty()
      requires Enabled(Model(), EndOfPty)
      modifies this
      ensures Model() == Apply(env, old(Model()), EndOfPty)
    {
      ptyClosed := true;
    }

    /** One tick of the frame timer: refill, then take data out under the lock. */
    method TimerTick(elapsed: Amount, renderFails: bool)
      requires Enabled(Model(), Tick(elapsed, renderFails))
      modifies this
      ensures Model() == Apply(env, old(Model()), Tick(elapsed, renderFails))
    {
      hide SplitPoint, TakeOut;
      tokens := tokens + env.rate * elapsed;
      if tokens >= env.Burst() {
        tokens := env.Burst();
      }
      ghost var refilled := old(Model()).(tokens := Refill(env, old(tokens), elapsed));
      assert Model() == refilled;
      DiscardOverflow();
      assert Model() == DropOverflow(refilled);
      TakeData(renderFails);
      assert Model() == TakeOut(env, DropOverflow(refilled), renderFails);
    }

    method DiscardOverflow()
      modifies this
      ensures Model() == DropOverflow(old(Model()))
    {
      if |ptyBuffer| > MAX_PTY_BUFFER_CAP {
        history := Drop(history, ptyBuffer);
        ptyBuffer := [];
        pendingAtomicRefresh := true;
      }
    }

    method TakeData(renderFails: bool)
      requires outgoing.Nothing?
      modifies this
      ensures Model() == TakeOut(env, old(Model()), renderFails)
    {
      hide SplitPoint;
      if tokens <= 0.0 {
      } else if pendingAtomicRefresh {
        history := Drop(history, ptyBuffer);
        ptyBuffer := [];
        pendingAtomicRefresh := false;
        if !renderFails {
          outgoing := Atomic(env.render(vtParser));
        }
      } else if |ptyBuffer| != 0 {
        var rawBuf := ptyBuffer;
        ptyBuffer := [];
        var splitPoint := FindSafeSplitPoint(rawBuf, tokens.Floor);
        if splitPoint > 0 {
          outgoing := Raw(rawBuf[..splitPoint]);
          ptyBuffer := rawBuf[splitPoint..];
        } else {
          ptyBuffer := rawBuf;
        }
      }
    }

    /** Number the frame, compress and send it, and charge its payload. */
    method SendOutgoing(ok: bool) returns (number: nat, payload: Bytes, compressed: bool)
      requires Enabled(Model(), Send(ok))
      modifies this
      ensures Model() == Apply(env, old(Model()), Send(ok))
      ensures number == old(seqNo) + 1 && (payload, compressed) == env.Compress(old(outgoing).data)
    {
      var rawData := outgoing.data;
      seqNo := seqNo + 1;
      number := seqNo;
      var c := env.Compress(rawData);
      payload, compressed := c.0, c.1;
      history := history + (if ok then [if outgoing.Raw? then Chunk(seqNo, rawData) else Refresh(seqNo, rawData)]
                            else if outgoing.Raw? then [Item.Dropped(rawData)] else []);
      outgoing := Nothing;
      if ok {
        tokens := tokens - |payload| as real;
      } else {
        done := true;
      }
    }

    /** After the PTY has closed: send what is left, past the bucket, and stop. */
    method FlushRest(ok: bool)
      requires Enabled(Model(), Flush(ok))
      modifies this
      ensures Model() == Apply(env, old(Model()), Flush(ok))
    {
      var remaining := ptyBuffer;
      ptyBuffer := [];
      if |remaining| != 0 {
        seqNo := seqNo + 1;
        history := history + [if ok then Chunk(seqNo, remaining) else Item.Dropped(remaining)];
      }
      done := true;
    }

    method ResetScreen(screen: S)
      modifies this
      ensures Model() == Apply(env, old(Model()), Reset(screen))
    {
      vtParser := screen;
    }
  }
}
