/** Packets and UTF-8 in bytes: the numbers of the protocol, and characters by the rule of RFC 3629. */
module ProtocolForms {
  import opened Bits
  import opened Framing
  import opened Protocol

  // ----- numbers on the wire -----

  lemma BigEndianStep(v: nat, n: nat)
    ensures BigEndian(v, 0) == []
    ensures n > 0 ==> BigEndian(v, n) == BigEndian(v / 256, n - 1) + [v % 256]
  {
  }

  /** Numbers of two and four bytes, most significant byte first. */
  lemma NumbersInBytes(v: nat)
    ensures BigEndian(v, 2) == [v / 0x100 % 0x100, v % 0x100]
    ensures BigEndian(v, 4) == [v / 0x1000000 % 0x100, v / 0x10000 % 0x100, v / 0x100 % 0x100, v % 0x100]
  {
    hide BigEndian;
    BigEndianStep(v, 4);
    BigEndianStep(v / 256, 3);
    BigEndianStep(v / 256 / 256, 2);
    BigEndianStep(v / 256 / 256 / 256, 1);
    BigEndianStep(v / 256 / 256 / 256 / 256, 0);
    BigEndianStep(v, 2);
    BigEndianStep(v / 256, 1);
    BigEndianStep(v / 256 / 256, 0);
    Quotients(v);
    assert BigEndian(v / 256 / 256 / 256, 1) == [v / 256 / 256 / 256 % 256];
    assert BigEndian(v / 256 / 256, 2) == [v / 256 / 256 / 256 % 256, v / 256 / 256 % 256];
  }

  lemma Quotients(v: nat)
    ensures v / 256 / 256 == v / 0x10000 && v / 256 / 256 / 256 == v / 0x1000000
  {
  }

  /** Eight bytes are two times four. */
  lemma EightBytes(v: nat)
    ensures BigEndian(v, 8) == BigEndian(v / 0x1_0000_0000, 4) + BigEndian(v, 4)
  {
    hide BigEndian;
    var w := v / 256 / 256 / 256 / 256;
    assert w == v / 0x1_0000_0000;
    BigEndianStep(v, 8);
    BigEndianStep(v / 256, 7);
    BigEndianStep(v / 256 / 256, 6);
    BigEndianStep(v / 256 / 256 / 256, 5);
    BigEndianStep(v, 4);
    BigEndianStep(v / 256, 3);
    BigEndianStep(v / 256 / 256, 2);
    BigEndianStep(v / 256 / 256 / 256, 1);
    BigEndianStep(w, 0);
  }

  // ----- packets -----

  /** The six packets: the tag, then the numbers and the data in their order. */
  lemma PacketsInBytes(data: Bytes, rows: u16, cols: u16, n: u64, compressed: bool)
    requires |data| < 0x1_0000
    ensures Serialize(ClientInput(data)) == [1] + BigEndian(|data|, 4) + data
    ensures Serialize(ClientResize(rows, cols)) == [2] + BigEndian(rows, 2) + BigEndian(cols, 2)
    ensures Serialize(Ping(n)) == [3] + BigEndian(n, 8)
    ensures Serialize(Pong(n)) == [4] + BigEndian(n, 8)
    ensures Serialize(ServerFrame(n, data, compressed)) ==
            [5] + (BigEndian(n, 8) + [if compressed then 1 else 0] + BigEndian(|data|, 4) + data)
    ensures Serialize(ClientHandshake(data, rows, cols)) ==
            [6] + (BigEndian(|data|, 2) + (data + (BigEndian(rows, 2) + BigEndian(cols, 2))))
  {
    hide BigEndian;
    assert |data| % U32 == |data| && |data| % U16 == |data|;
  }

  /** A frame is the length of the packet in four bytes, cut to 32 bits, and the packet. */
  lemma FrameInBytes(payload: Bytes)
    ensures Frame(payload) == BigEndian(|payload| % 0x1_0000_0000, 4) + payload
  {
    hide BigEndian;
  }

  /** Another tag, or none, is an error. */
  lemma UnknownTag(src: Bytes)
    ensures src == [] ==> Deserialize(src) == Err(UnexpectedEof)
    ensures src != [] && (src[0] == 0 || src[0] > 6) ==> Deserialize(src) == Err(InvalidData(src[0]))
  {
  }

  lemma DimensionsAt(rows: u16, cols: u16, more: Bytes)
    ensures Dimensions(BigEndian(rows, 2) + BigEndian(cols, 2) + more) == Ok((rows, cols))
  {
    hide BigEndian, FromBigEndian, Base;
    Bases();
    BigEndianRoundTrip(rows, 2);
    BigEndianRoundTrip(cols, 2);
    var s := BigEndian(rows, 2) + BigEndian(cols, 2) + more;
    assert s[..2] == BigEndian(rows, 2) && s[2..4] == BigEndian(cols, 2);
  }

  lemma TagAndRest(tag: byte, s: Bytes, more: Bytes)
    ensures ([tag] + s + more)[0] == tag && ([tag] + s + more)[1..] == s + more
  {
  }

  lemma Front(data: Bytes, more: Bytes)
    ensures (data + more)[..|data|] == data && (data + more)[|data|..] == more
  {
  }

  /** Bytes behind a packet in its frame are not looked at: input, */
  lemma InputTrailing(data: Bytes, more: Bytes)
    requires |data| < 0x1_0000_0000
    ensures Deserialize([1] + (BigEndian(|data|, 4) + data) + more) == Ok(ClientInput(data))
  {
    hide BigEndian, FromBigEndian, Base, Number;
    Bases();
    var s := BigEndian(|data|, 4) + data;
    TagAndRest(1, s, more);
    Regroup(BigEndian(|data|, 4), data, more);
    NumberComesOut(|data|, 4, data + more);
    Front(data, more);
  }

  /** resize and the two timestamps, */
  lemma ShortTrailing(rows: u16, cols: u16, t: u64, more: Bytes)
    ensures Deserialize([2] + (BigEndian(rows, 2) + BigEndian(cols, 2)) + more) == Ok(ClientResize(rows, cols))
    ensures Deserialize([3] + BigEndian(t, 8) + more) == Ok(Ping(t))
    ensures Deserialize([4] + BigEndian(t, 8) + more) == Ok(Pong(t))
  {
    hide BigEndian, FromBigEndian, Base, Number, Dimensions;
    Bases();
    TagAndRest(2, BigEndian(rows, 2) + BigEndian(cols, 2), more);
    DimensionsAt(rows, cols, more);
    TagAndRest(3, BigEndian(t, 8), more);
    TagAndRest(4, BigEndian(t, 8), more);
    NumberComesOut(t, 8, more);
  }

  /** a handshake, whose key may be any bytes and is read as text, */
  lemma HandshakeTrailing(key: Bytes, rows: u16, cols: u16, more: Bytes)
    requires |key| < 0x1_0000
    ensures Deserialize([6] + (BigEndian(|key|, 2) + (key + (BigEndian(rows, 2) + BigEndian(cols, 2)))) + more) ==
            Ok(ClientHandshake(Lossy(key), rows, cols))
  {
    hide BigEndian, FromBigEndian, Base, Number, Dimensions, Lossy;
    Bases();
    var dims := BigEndian(rows, 2) + BigEndian(cols, 2);
    var n := BigEndian(|key|, 2);
    TagAndRest(6, n + (key + dims), more);
    Regroup(n, key + dims, more);
    Regroup(key, dims, more);
    NumberComesOut(|key|, 2, key + (dims + more));
    Front(key, dims + more);
    DimensionsAt(rows, cols, more);
  }

  /** a server frame, whose flag may be any byte, */
  lemma FrameTrailing(n: u64, flag: byte, data: Bytes, more: Bytes)
    requires |data| < 0x1_0000_0000
    ensures DeserializeFrame(BigEndian(n, 8) + [flag] + BigEndian(|data|, 4) + (data + more)) ==
            Ok(ServerFrame(n, data, flag != 0))
    ensures forall s: Bytes :: Deserialize([5] + s) == DeserializeFrame(s)
  {
    hide BigEndian, FromBigEndian, Base, DeserializeFrame;
    forall s: Bytes
      ensures Deserialize([5] + s) == DeserializeFrame(s)
    {
      assert ([5] + s)[1..] == s;
    }
    FrameBytes(n, flag, data, more);
  }

  lemma FrameBytes(n: u64, flag: byte, data: Bytes, more: Bytes)
    requires |data| < 0x1_0000_0000
    ensures DeserializeFrame(BigEndian(n, 8) + [flag] + BigEndian(|data|, 4) + (data + more)) ==
            Ok(ServerFrame(n, data, flag != 0))
  {
    hide BigEndian, FromBigEndian, Base;
    Bases();
    BigEndianRoundTrip(n, 8);
    BigEndianRoundTrip(|data|, 4);
    FourParts(BigEndian(n, 8), flag, BigEndian(|data|, 4), data + more);
    Front(data, more);
  }

  /** One call of the decoder: nothing before the length and all of the payload are there; then the frame goes, read or not. */
  lemma DecodeInBytes(payload: Bytes, more: Bytes, part: nat)
    requires |payload| < 0x1_0000_0000 && part < 4 + |payload|
    ensures |Frame(payload)| == 4 + |payload| && DecodeOne(Frame(payload)[..part]) == NeedMore
    ensures DecodeOne(Frame(payload) + more) ==
            match Deserialize(payload) case Ok(p) => Item(p, more) case Err(e) => Broken(e, more)
  {
    hide FromBigEndian, Deserialize, Frame, FirstLength;
    FrameParts(payload, more);
    PartHasNoFrame(payload, part);
  }

  lemma PartHasNoFrame(payload: Bytes, part: nat)
    requires |payload| < 0x1_0000_0000 && part < 4 + |payload|
    ensures |Frame(payload)| == 4 + |payload| && !HasFrame(Frame(payload)[..part])
  {
    hide BigEndian, FromBigEndian;
    FrameParts(payload, []);
    var f := Frame(payload);
    assert f + [] == f;
    if part >= 4 {
      assert f[..part][..4] == f[..4];
    }
  }

  /** and what is cut short is an error, whatever comes in front. */
  lemma CutShort(tag: byte, s: Bytes)
    requires 1 <= tag <= 6
    ensures |s| < (if tag <= 2 then 4 else if tag <= 4 then 8 else if tag == 5 then 13 else 2) ==>
              Deserialize([tag] + s) == Err(UnexpectedEof)
    ensures tag == 1 && |s| >= 4 && |s| < 4 + FromBigEndian(s[..4]) ==> Deserialize([tag] + s) == Err(UnexpectedEof)
    ensures tag == 5 && |s| >= 13 && |s| < 13 + FromBigEndian(s[9..13]) ==> Deserialize([tag] + s) == Err(UnexpectedEof)
    ensures tag == 6 && |s| >= 2 && |s| < 6 + FromBigEndian(s[..2]) ==> Deserialize([tag] + s) == Err(UnexpectedEof)
  {
    hide FromBigEndian;
    assert ([tag] + s)[1..] == s;
  }

  // ----- characters -----

  /** The numbers that are characters. */
  type Character = c: nat | c < 0xd800 || 0xe000 <= c < 0x11_0000

  /** One to four bytes with seven, eleven, sixteen or twenty-one bits of the number. */
  function Utf8(c: Character): (s: Bytes)
    ensures 1 <= |s| <= 4
  {
    if c < 0x80 then [c]
    else if c < 0x800 then [0xc0 + c / 0x40, 0x80 + c % 0x40]
    else if c < 0x1_0000 then [0xe0 + c / 0x1000, 0x80 + c / 0x40 % 0x40, 0x80 + c % 0x40]
    else [0xf0 + c / 0x4_0000, 0x80 + c / 0x1000 % 0x40, 0x80 + c / 0x40 % 0x40, 0x80 + c % 0x40]
  }

  lemma ThreeByteCharacter(c: Character, s: Bytes)
    requires 0x800 <= c < 0x1_0000 && |s| >= 3
    requires s[0] == 0xe0 + c / 0x1000 && s[1] == 0x80 + c / 0x40 % 0x40 && s[2] == 0x80 + c % 0x40
    ensures FirstChar(s) == (3, true)
  {
    assert c / 0x40 / 0x40 == c / 0x1000;
  }

  lemma FourByteCharacter(c: Character, s: Bytes)
    requires 0x1_0000 <= c && |s| >= 4
    requires s[0] == 0xf0 + c / 0x4_0000 && s[1] == 0x80 + c / 0x1000 % 0x40
    requires s[2] == 0x80 + c / 0x40 % 0x40 && s[3] == 0x80 + c % 0x40
    ensures FirstChar(s) == (4, true)
  {
    assert c / 0x1000 / 0x40 == c / 0x4_0000;
  }

  /** The bytes of a character are one well-formed character. */
  lemma CharacterIsFirst(c: Character, more: Bytes)
    ensures FirstChar(Utf8(c) + more) == (|Utf8(c)|, true)
  {
    var s := Utf8(c) + more;
    if c < 0x80 {
      assert s[0] == c;
    } else if c < 0x800 {
      assert s[0] == 0xc0 + c / 0x40 && s[1] == 0x80 + c % 0x40;
    } else if c < 0x1_0000 {
      hide FirstChar;
      ThreeByteCharacter(c, s);
    } else {
      hide FirstChar;
      FourByteCharacter(c, s);
    }
  }

  lemma TwoBytes(a: nat, b: nat)
    requires b < 0x40
    ensures (0x40 * a + b) / 0x40 == a && (0x40 * a + b) % 0x40 == b
  {
  }

  /** And a well-formed character is the bytes of one number. */
  lemma FirstIsCharacter(s: Bytes) returns (c: Character)
    requires |s| > 0 && FirstChar(s).1
    ensures Utf8(c) == s[..FirstChar(s).0]
  {
    var n := FirstChar(s).0;
    if n == 1 {
      c := s[0];
    } else if n == 2 {
      var x, y := s[0] as int - 0xc0, s[1] as int - 0x80;
      c := 0x40 * x + y;
      TwoBytes(x, y);
    } else if n == 3 {
      c := ThreeBytes(s);
    } else {
      c := FourBytes(s);
    }
  }

  lemma ThreeBytes(s: Bytes) returns (c: Character)
    requires |s| > 0 && FirstChar(s) == (3, true)
    ensures Utf8(c) == s[..3]
  {
    var x, y, z := s[0] as int - 0xe0, s[1] as int - 0x80, s[2] as int - 0x80;
    c := 0x40 * (0x40 * x + y) + z;
    TwoBytes(0x40 * x + y, z);
    TwoBytes(x, y);
    assert c / 0x1000 == x;
  }

  lemma FourBytes(s: Bytes) returns (c: Character)
    requires |s| > 0 && FirstChar(s) == (4, true)
    ensures Utf8(c) == s[..4]
  {
    var w, x, y, z := s[0] as int - 0xf0, s[1] as int - 0x80, s[2] as int - 0x80, s[3] as int - 0x80;
    c := 0x40 * (0x40 * (0x40 * w + x) + y) + z;
    TwoBytes(0x40 * (0x40 * w + x) + y, z);
    TwoBytes(0x40 * w + x, y);
    TwoBytes(w, x);
    assert c / 0x1000 == 0x40 * w + x && c / 0x4_0000 == w;
  }

  /** The bytes of a text. */
  function Text(cs: seq<Character>): Bytes
  {
    if |cs| == 0 then [] else Utf8(cs[0]) + Text(cs[1..])
  }

  /** Text is valid UTF-8, */
  lemma {:induction false} TextIsValid(cs: seq<Character>)
    ensures ValidUtf8(Text(cs)) && Lossy(Text(cs)) == Text(cs)
  {
    hide FirstChar, Utf8;
    if |cs| > 0 {
      var c, rest := Utf8(cs[0]), Text(cs[1..]);
      TextIsValid(cs[1..]);
      CharacterIsFirst(cs[0], rest);
      assert (c + rest)[|c|..] == rest;
    }
    LossyKeepsIff(Text(cs));
  }

  /** and valid UTF-8 is text. */
  lemma {:induction false} ValidIsText(s: Bytes) returns (cs: seq<Character>)
    requires ValidUtf8(s)
    ensures Text(cs) == s
    decreases |s|
  {
    hide FirstChar, Utf8;
    if |s| == 0 {
      cs := [];
    } else {
      var n := FirstChar(s).0;
      var c := FirstIsCharacter(s);
      var rest := ValidIsText(s[n..]);
      cs := [c] + rest;
      assert cs[1..] == rest && s[..n] + s[n..] == s;
    }
  }

  /** What is replaced, on examples: a character cut short is one mark, a surrogate three. */
  lemma Replaced()
    ensures Lossy([0xf0, 0x9f, 0x98]) == [0xef, 0xbf, 0xbd]
    ensures Lossy([0xc3, 0x28]) == [0xef, 0xbf, 0xbd, 0x28]
    ensures Lossy([0xed, 0xa0, 0x80]) == [0xef, 0xbf, 0xbd, 0xef, 0xbf, 0xbd, 0xef, 0xbf, 0xbd]
  {
    LossyStep([0xf0, 0x9f, 0x98], 3);
    LossyStep([0xc3, 0x28], 1);
    LossyStep([0xed, 0xa0, 0x80], 1);
    LossyStep([0xa0, 0x80], 1);
    LossyStep([0x80], 1);
    assert Lossy([0x28]) == [0x28];
  }

  lemma LossyStep(s: Bytes, n: nat)
    requires |s| > 0 && FirstChar(s) == (n, false)
    ensures Lossy(s) == [0xef, 0xbf, 0xbd] + Lossy(s[n..])
  {
  }
}
