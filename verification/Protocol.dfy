/** Packets, their binary form and the length-prefixed codec (src/protocol.rs). */
module Protocol {
  import opened Bits
  import opened Framing

  type u16 = x: int | 0 <= x < 0x1_0000
  type u64 = x: int | 0 <= x < 0x1_0000_0000_0000_0000

  // ----- UTF-8 -----

  predicate Tail(s: Bytes, i: nat) {
    i < |s| && 0x80 <= s[i] <= 0xbf
  }

  /** The second byte that a first byte of a three or four byte character allows. */
  predicate Second(s: Bytes) {
    && |s| > 1
    && (s[0] == 0xe0 ==> 0xa0 <= s[1] <= 0xbf)
    && (s[0] == 0xed ==> 0x80 <= s[1] <= 0x9f)
    && (s[0] == 0xf0 ==> 0x90 <= s[1] <= 0xbf)
    && (s[0] == 0xf4 ==> 0x80 <= s[1] <= 0x8f)
    && 0x80 <= s[1] <= 0xbf
  }

  /** The first character of `s`: how many bytes, and whether they are well-formed. */
  function FirstChar(s: Bytes): (c: (nat, bool))
    requires |s| > 0
    ensures 0 < c.0 <= |s|
  {
    var b := s[0];
    if b < 0x80 then (1, true)
    else if 0xc2 <= b <= 0xdf then (if Tail(s, 1) then (2, true) else (1, false))
    else if 0xe0 <= b <= 0xef then
      (if !Second(s) then (1, false) else if !Tail(s, 2) then (2, false) else (3, true))
    else if 0xf0 <= b <= 0xf4 then
      (if !Second(s) then (1, false)
       else if !Tail(s, 2) then (2, false)
       else if !Tail(s, 3) then (3, false) else (4, true))
    else (1, false)
  }

  predicate ValidUtf8(s: Bytes)
    decreases |s|
  {
    |s| == 0 || (FirstChar(s).1 && ValidUtf8(s[FirstChar(s).0..]))
  }

  const REPLACEMENT: Bytes := [0xef, 0xbf, 0xbd]

  /** String::from_utf8_lossy: each ill-formed part becomes U+FFFD. */
  function Lossy(s: Bytes): Bytes
    decreases |s|
  {
    if |s| == 0 then []
    else
      var (n, ok) := FirstChar(s);
      (if ok then s[..n] else REPLACEMENT) + Lossy(s[n..])
  }

  lemma FirstCharLocal(s: Bytes, t: Bytes)
    requires |s| > 0 && FirstChar(s).1
    ensures FirstChar(s[..FirstChar(s).0] + t) == FirstChar(s)
  {
  }

  lemma {:induction false} LossyIsValid(s: Bytes)
    ensures ValidUtf8(Lossy(s))
    decreases |s|
  {
    if |s| > 0 {
      var (n, ok) := FirstChar(s);
      var c, rest := if ok then s[..n] else REPLACEMENT, Lossy(s[n..]);
      LossyIsValid(s[n..]);
      if ok {
        FirstCharLocal(s, rest);
      } else {
        assert FirstChar(REPLACEMENT) == (3, true);
        FirstCharLocal(REPLACEMENT, rest);
        assert REPLACEMENT[..3] == REPLACEMENT;
      }
      assert (c + rest)[|c|..] == rest;
    }
  }

  /** Lossy conversion keeps exactly the valid strings. */
  lemma {:induction false} LossyKeepsIff(s: Bytes)
    ensures Lossy(s) == s <==> ValidUtf8(s)
    decreases |s|
  {
    hide FirstChar;
    LossyIsValid(s);
    if |s| > 0 && ValidUtf8(s) {
      var n := FirstChar(s).0;
      LossyKeepsIff(s[n..]);
      assert s[..n] + s[n..] == s;
    }
  }

  // ----- packets -----

  datatype Packet =
    | ClientInput(data: Bytes)
    | ClientResize(rows: u16, cols: u16)
    | Ping(timestamp: u64)
    | Pong(timestamp: u64)
    | ServerFrame(number: u64, data: Bytes, compressed: bool)
    | ClientHandshake(sessionKey: Bytes, rows: u16, cols: u16)

  datatype Error = UnexpectedEof | InvalidData(tag: byte)

  datatype Result<+T> = Ok(value: T) | Err(error: Error) {
    predicate IsFailure() { Err? }

    function PropagateFailure<U>(): Result<U>
      requires Err?
    {
      Err(error)
    }

    function Extract(): T
      requires Ok?
    {
      value
    }
  }

  function Serialize(p: Packet): (s: Bytes)
    ensures |s| > 0
  {
    match p
    case ClientInput(data) => [1] + BigEndian(|data| % U32, 4) + data
    case ClientResize(rows, cols) => [2] + BigEndian(rows, 2) + BigEndian(cols, 2)
    case Ping(t) => [3] + BigEndian(t, 8)
    case Pong(t) => [4] + BigEndian(t, 8)
    case ServerFrame(n, data, compressed) => [5] + FrameBody(n, data, compressed)
    case ClientHandshake(key, rows, cols) => [6] + HandshakeBody(key, rows, cols)
  }

  function FrameBody(n: u64, data: Bytes, compressed: bool): (s: Bytes) {
    BigEndian(n, 8) + [if compressed then 1 else 0] + BigEndian(|data| % U32, 4) + data
  }

  function HandshakeBody(key: Bytes, rows: u16, cols: u16): Bytes {
    BigEndian(|key| % U16, 2) + (key + (BigEndian(rows, 2) + BigEndian(cols, 2)))
  }

  /** The first `n` bytes as a number, and the rest. */
  function Number(s: Bytes, n: nat): (r: Result<(nat, Bytes)>)
    ensures r.Ok? <==> n <= |s|
    ensures r.Ok? ==> r.value.0 < Base(n) && r.value.1 == s[n..]
  {
    if |s| < n then Err(UnexpectedEof) else Ok((FromBigEndian(s[..n]), s[n..]))
  }

  function Timestamp(s: Bytes): Result<u64> {
    var (t, _) :- Number(s, 8);
    Bases();
    Ok(t)
  }

  function Dimensions(s: Bytes): Result<(u16, u16)> {
    if |s| < 4 then Err(UnexpectedEof)
    else
      Bases();
      Ok((FromBigEndian(s[..2]), FromBigEndian(s[2..4])))
  }

  function Deserialize(src: Bytes): Result<Packet> {
    if |src| == 0 then Err(UnexpectedEof)
    else
      var s := src[1..];
      match src[0]
      case 1 =>
        var (n, data) :- Number(s, 4);
        if |data| < n then Err(UnexpectedEof) else Ok(ClientInput(data[..n]))
      case 2 =>
        var (rows, cols) :- Dimensions(s);
        Ok(ClientResize(rows, cols))
      case 3 =>
        var t :- Timestamp(s);
        Ok(Ping(t))
      case 4 =>
        var t :- Timestamp(s);
        Ok(Pong(t))
      case 5 => DeserializeFrame(s)
      case 6 => DeserializeHandshake(s)
      case tag => Err(InvalidData(tag))
  }

  function DeserializeFrame(s: Bytes): Result<Packet> {
    if |s| < 13 then Err(UnexpectedEof)
    else
      var number := FromBigEndian(s[..8]);
      var compressed := s[8] != 0;
      var n, data := FromBigEndian(s[9..13]), s[13..];
      Bases();
      if |data| < n then Err(UnexpectedEof) else Ok(ServerFrame(number, data[..n], compressed))
  }

  function DeserializeHandshake(s: Bytes): Result<Packet> {
    var (n, key) :- Number(s, 2);
    if |key| < n + 4 then Err(UnexpectedEof)
    else
      var (rows, cols) :- Dimensions(key[n..]);
      Ok(ClientHandshake(Lossy(key[..n]), rows, cols))
  }

  /** Packets whose parts fit their length fields and whose key is a string. */
  predicate Encodable(p: Packet) {
    match p
    case ClientInput(data) => 5 + |data| < U32
    case ServerFrame(_, data, _) => 14 + |data| < U32
    case ClientHandshake(key, _, _) => |key| < U16 && ValidUtf8(key)
    case ClientResize(_, _) => true
    case Ping(_) => true
    case Pong(_) => true
  }

  lemma NumberComesOut(v: nat, n: nat, s: Bytes)
    requires v < Base(n)
    ensures Number(BigEndian(v, n) + s, n) == Ok((v, s))
  {
    hide BigEndian, FromBigEndian, Base;
    BigEndianRoundTrip(v, n);
    assert (BigEndian(v, n) + s)[..n] == BigEndian(v, n) && (BigEndian(v, n) + s)[n..] == s;
  }

  lemma DimensionsComeOut(rows: u16, cols: u16)
    ensures Dimensions(BigEndian(rows, 2) + BigEndian(cols, 2)) == Ok((rows, cols))
  {
    hide BigEndian, FromBigEndian, Base;
    Bases();
    BigEndianRoundTrip(rows, 2);
    BigEndianRoundTrip(cols, 2);
    var s := BigEndian(rows, 2) + BigEndian(cols, 2);
    assert s[..2] == BigEndian(rows, 2) && s[2..4] == BigEndian(cols, 2);
  }

  lemma FrameComesOut(number: u64, data: Bytes, compressed: bool)
    requires |data| < U32
    ensures DeserializeFrame(FrameBody(number, data, compressed)) == Ok(ServerFrame(number, data, compressed))
  {
    hide BigEndian, FromBigEndian, Base;
    Bases();
    BigEndianRoundTrip(number, 8);
    BigEndianRoundTrip(|data|, 4);
    FourParts(BigEndian(number, 8), if compressed then 1 else 0, BigEndian(|data|, 4), data);
    assert data[..|data|] == data;
  }

  lemma FourParts(x: Bytes, c: byte, y: Bytes, z: Bytes)
    requires |x| == 8 && |y| == 4
    ensures var s := x + [c] + y + z;
            s[..8] == x && s[8] == c && s[9..13] == y && s[13..] == z
  {
  }

  lemma HandshakeComesOut(key: Bytes, rows: u16, cols: u16)
    requires |key| < U16 && ValidUtf8(key)
    ensures DeserializeHandshake(HandshakeBody(key, rows, cols)) == Ok(ClientHandshake(key, rows, cols))
  {
    hide BigEndian, FromBigEndian, Base, ValidUtf8, Lossy, Dimensions, Number;
    Bases();
    var dims := BigEndian(rows, 2) + BigEndian(cols, 2);
    NumberComesOut(|key|, 2, key + dims);
    DimensionsComeOut(rows, cols);
    KeyAndRest(key, dims);
    LossyKeepsIff(key);
  }

  lemma KeyAndRest(key: Bytes, rest: Bytes)
    ensures (key + rest)[..|key|] == key && (key + rest)[|key|..] == rest
  {
  }

  /** Every packet whose parts fit is read back as it was written. */
  lemma PacketRoundTrip(p: Packet)
    requires Encodable(p)
    ensures Deserialize(Serialize(p)) == Ok(p)
  {
    hide BigEndian, FromBigEndian, Base, ValidUtf8, Lossy, DeserializeFrame, DeserializeHandshake, FrameBody, HandshakeBody, Number, Dimensions;
    Bases();
    var s := Serialize(p)[1..];
    match p
    case ClientInput(data) =>
      assert s == BigEndian(|data|, 4) + data;
      NumberComesOut(|data|, 4, data);
      assert data[..|data|] == data;
    case ClientResize(rows, cols) =>
      assert s == BigEndian(rows, 2) + BigEndian(cols, 2);
      DimensionsComeOut(rows, cols);
    case Ping(t) =>
      assert s == BigEndian(t, 8) + [];
      NumberComesOut(t, 8, []);
    case Pong(t) =>
      assert s == BigEndian(t, 8) + [];
      NumberComesOut(t, 8, []);
    case ServerFrame(n, data, compressed) =>
      FrameComesOut(n, data, compressed);
    case ClientHandshake(key, rows, cols) =>
      HandshakeComesOut(key, rows, cols);
  }

  lemma SerializedSize(p: Packet)
    requires Encodable(p)
    ensures |Serialize(p)| < U32
    ensures p.ServerFrame? ==> |Serialize(p)| == 14 + |p.data|
  {
    hide BigEndian;
  }

  lemma FrameInParts(n: u64, data: Bytes, compressed: bool)
    ensures [5] + BigEndian(n, 8) + [if compressed then 1 else 0] + BigEndian(|data| % U32, 4) + data ==
            [5] + FrameBody(n, data, compressed)
  {
    hide BigEndian;
    var x, y, c: Bytes := BigEndian(n, 8), BigEndian(|data| % U32, 4), [if compressed then 1 else 0];
    Regroup([5], x, c);
    Regroup([5], x + c, y);
    Regroup([5], x + c + y, data);
  }

  lemma InputInParts(data: Bytes)
    ensures [1] + BigEndian(|data| % U32, 4) + data == Serialize(ClientInput(data))
  {
    hide BigEndian;
  }

  lemma HandshakeInParts(key: Bytes, rows: u16, cols: u16)
    ensures [6] + BigEndian(|key| % U16, 2) + key + BigEndian(rows, 2) + BigEndian(cols, 2) ==
            Serialize(ClientHandshake(key, rows, cols))
  {
    hide BigEndian;
    var n, r, c := BigEndian(|key| % U16, 2), BigEndian(rows, 2), BigEndian(cols, 2);
    Regroup([6] + n + key, r, c);
    Regroup([6] + n, key, r + c);
    Regroup([6], n, key + (r + c));
  }

  /** Serialize by pushing part after part. */
  method WritePacket(p: Packet) returns (buf: Bytes)
    ensures buf == Serialize(p)
  {
    hide BigEndian, FrameBody, HandshakeBody;
    match p {
      case ClientInput(data) =>
        buf := [1];
        buf := buf + BigEndian(|data| % U32, 4);
        buf := buf + data;
      case ClientResize(rows, cols) =>
        buf := [2];
        buf := buf + BigEndian(rows, 2);
        buf := buf + BigEndian(cols, 2);
      case Ping(timestamp) =>
        buf := [3];
        buf := buf + BigEndian(timestamp, 8);
      case Pong(timestamp) =>
        buf := [4];
        buf := buf + BigEndian(timestamp, 8);
      case ServerFrame(number, data, compressed) =>
        buf := [5];
        buf := buf + BigEndian(number, 8);
        buf := buf + [if compressed then 1 else 0];
        buf := buf + BigEndian(|data| % U32, 4);
        buf := buf + data;
        FrameInParts(number, data, compressed);
      case ClientHandshake(key, rows, cols) =>
        buf := [6];
        buf := buf + BigEndian(|key| % U16, 2);
        buf := buf + key;
        buf := buf + BigEndian(rows, 2);
        buf := buf + BigEndian(cols, 2);
        HandshakeInParts(key, rows, cols);
    }
  }

  // ----- the codec -----

  datatype Decoded = NeedMore | Item(packet: Packet, rest: Bytes) | Broken(error: Error, rest: Bytes)

  /** What one call of the decoder gives for the bytes received so far. */
  function DecodeOne(buf: Bytes): Decoded {
    if !HasFrame(buf) then NeedMore
    else
      var n := FirstLength(buf);
      match Deserialize(buf[4..4 + n])
      case Ok(p) => Item(p, buf[4 + n..])
      case Err(e) => Broken(e, buf[4 + n..])
  }

  /** The receive buffer of a connection. */
  class Codec {
    var src: Bytes

    constructor ()
      ensures src == []
    {
      src := [];
    }

    method Decode() returns (r: Result<Option<Packet>>)
      modifies this
      ensures match DecodeOne(old(src))
              case NeedMore => r == Ok(None) && src == old(src)
              case Item(p, rest) => r == Ok(Some(p)) && src == rest
              case Broken(e, rest) => r == Err(e) && src == rest
    {
      hide Deserialize, FromBigEndian;
      if |src| < 4 {
        return Ok(None);
      }
      var length := FromBigEndian(src[..4]);
      if |src| < 4 + length {
        return Ok(None);
      }
      ghost var all := src;
      src := src[4..];
      var payload := src[..length];
      src := src[length..];
      assert payload == all[4..4 + length] && src == all[4 + length..];
      var p :- Deserialize(payload);
      return Ok(Some(p));
    }

    /** Append a packet to a buffer that is to be sent. */
    method Encode(item: Packet)
      modifies this
      ensures src == old(src) + Frame(Serialize(item))
    {
      hide BigEndian, Serialize;
      var serialized := WritePacket(item);
      src := src + BigEndian(|serialized| % U32, 4);
      src := src + serialized;
    }

    /** Append received bytes and take out all packets, as the framed reader does; stops at an error. */
    method Receive(chunk: Bytes) returns (packets: seq<Packet>, ok: bool)
      modifies this
      ensures Drained(packets, ok, src) == Drain(old(src) + chunk)
    {
      hide DecodeOne;
      src := src + chunk;
      packets := [];
      ghost var all := Drain(src);
      while true
        invariant all == Drained(packets + Drain(src).packets, Drain(src).ok, Drain(src).rest)
        decreases |src|
      {
        ghost var before := src;
        DecodeShrinks(before);
        var r := Decode();
        if r.Err? {
          return packets, false;
        }
        if r.value.None? {
          return packets, true;
        }
        assert packets + ([r.value.value] + Drain(src).packets) == packets + [r.value.value] + Drain(src).packets;
        packets := packets + [r.value.value];
      }
    }
  }

  lemma DecodeShrinks(buf: Bytes)
    ensures DecodeOne(buf).Item? ==> |DecodeOne(buf).rest| < |buf|
  {
  }

  /** All packets taken out of a buffer; `ok` is false when one of them was malformed. */
  datatype Drained = Drained(packets: seq<Packet>, ok: bool, rest: Bytes)

  function Drain(buf: Bytes): Drained
    decreases |buf|
  {
    match DecodeOne(buf)
    case NeedMore => Drained([], true, buf)
    case Broken(_, rest) => Drained([], false, rest)
    case Item(p, rest) =>
      var d := Drain(rest);
      Drained([p] + d.packets, d.ok, d.rest)
  }

  /** Packets read while the payloads are well-formed. */
  function DeserializeAll(payloads: seq<Bytes>): (seq<Packet>, bool) {
    if |payloads| == 0 then ([], true)
    else
      match Deserialize(payloads[0])
      case Err(_) => ([], false)
      case Ok(p) => ([p] + DeserializeAll(payloads[1..]).0, DeserializeAll(payloads[1..]).1)
  }

  /** Draining is splitting into frames and reading each. */
  lemma {:induction false} DrainIsSplit(buf: Bytes)
    ensures Drain(buf).packets == DeserializeAll(Split(buf).payloads).0
    ensures Drain(buf).ok == DeserializeAll(Split(buf).payloads).1
    ensures Drain(buf).ok ==> Drain(buf).rest == Split(buf).rest
    decreases |buf|
  {
    hide Deserialize, FirstLength;
    if HasFrame(buf) {
      var n := FirstLength(buf);
      DrainIsSplit(buf[4 + n..]);
      assert Split(buf).payloads[1..] == Split(buf[4 + n..]).payloads;
    }
  }

  function SerializeAll(packets: seq<Packet>): seq<Bytes> {
    if |packets| == 0 then [] else [Serialize(packets[0])] + SerializeAll(packets[1..])
  }

  lemma {:induction false} SerializedComeOut(packets: seq<Packet>)
    requires forall i :: 0 <= i < |packets| ==> Encodable(packets[i])
    ensures DeserializeAll(SerializeAll(packets)) == (packets, true)
    ensures forall i :: 0 <= i < |SerializeAll(packets)| ==> |SerializeAll(packets)[i]| < U32
    ensures |SerializeAll(packets)| == |packets|
  {
    hide Serialize, Deserialize, Encodable;
    if |packets| > 0 {
      PacketRoundTrip(packets[0]);
      SerializedSize(packets[0]);
      SerializedComeOut(packets[1..]);
      assert SerializeAll(packets)[1..] == SerializeAll(packets[1..]);
      assert [packets[0]] + packets[1..] == packets;
    }
  }

  /** Receiving chunk by chunk until an error. */
  function ReceiveAll(pending: Bytes, chunks: seq<Bytes>): Drained
    decreases |chunks|
  {
    if |chunks| == 0 then Drained([], true, pending)
    else
      var d := Drain(pending + chunks[0]);
      if !d.ok then d
      else
        var e := ReceiveAll(d.rest, chunks[1..]);
        Drained(d.packets + e.packets, e.ok, e.rest)
  }

  lemma {:induction false} DeserializeConcat(xs: seq<Bytes>, ys: seq<Bytes>)
    ensures DeserializeAll(xs + ys) == if DeserializeAll(xs).1
                                       then (DeserializeAll(xs).0 + DeserializeAll(ys).0, DeserializeAll(ys).1)
                                       else DeserializeAll(xs)
  {
    hide Deserialize;
    if |xs| == 0 {
      assert xs + ys == ys;
      assert DeserializeAll(xs).0 + DeserializeAll(ys).0 == DeserializeAll(ys).0;
    } else {
      assert (xs + ys)[1..] == xs[1..] + ys;
      DeserializeConcat(xs[1..], ys);
      if Deserialize(xs[0]).Ok? {
        var p, u, v := Deserialize(xs[0]).value, DeserializeAll(xs[1..]).0, DeserializeAll(ys).0;
        assert [p] + (u + v) == ([p] + u) + v;
      }
    }
  }

  /** Any cutting of any stream gives the packets that the whole stream gives. */
  lemma {:induction false} ReceiveIsDrain(pending: Bytes, chunks: seq<Bytes>)
    requires !HasFrame(pending)
    ensures ReceiveAll(pending, chunks).packets == Drain(pending + Flatten(chunks)).packets
    ensures ReceiveAll(pending, chunks).ok == Drain(pending + Flatten(chunks)).ok
    ensures ReceiveAll(pending, chunks).ok ==>
              ReceiveAll(pending, chunks).rest == Drain(pending + Flatten(chunks)).rest
    decreases |chunks|
  {
    hide HasFrame, FirstLength, Drain, DeserializeAll, Split;
    if |chunks| == 0 {
      assert pending + Flatten(chunks) == pending;
      NoFrameNoPacket(pending);
    } else {
      var first, later := pending + chunks[0], Flatten(chunks[1..]);
      assert pending + Flatten(chunks) == first + later;
      DrainIsSplit(first);
      DrainIsSplit(first + later);
      ArrivalInPieces(first, later);
      DeserializeConcat(Split(first).payloads, Split(Split(first).rest + later).payloads);
      if Drain(first).ok {
        RestHasNoFrame(first);
        DrainIsSplit(Split(first).rest + later);
        ReceiveIsDrain(Split(first).rest, chunks[1..]);
      }
    }
  }

  lemma NoFrameNoPacket(buf: Bytes)
    requires !HasFrame(buf)
    ensures Drain(buf) == Drained([], true, buf)
  {
  }

  /** Packets encoded in a row, cut in any way, are received exactly, with nothing left over. */
  lemma CodecRoundTrip(packets: seq<Packet>, chunks: seq<Bytes>)
    requires forall i :: 0 <= i < |packets| ==> Encodable(packets[i])
    requires Flatten(chunks) == FrameAll(SerializeAll(packets))
    ensures ReceiveAll([], chunks) == Drained(packets, true, [])
  {
    hide Encodable, Serialize, SerializeAll, DeserializeAll, Split, FrameAll, Drain, HasFrame;
    var payloads := SerializeAll(packets);
    var stream := FrameAll(payloads);
    SerializedComeOut(packets);
    FramesComeOut(payloads, []);
    EmptyHasNoFrame();
    assert stream + [] == stream && [] + stream == stream && payloads + [] == payloads;
    DrainIsSplit(stream);
    ReceiveIsDrain([], chunks);
  }
}
