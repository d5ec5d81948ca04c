/** The gzip header skipper of the C client (decompress_frame), against section 2.3 of RFC 1952. */
module Gzip {
  import opened Bits
  import D = Deflate
  import P = PuffDecoder

  // ----- what the client does -----

  predicate Flag(flags: byte, mask: nat)
    requires mask > 0
  {
    flags as int / mask % 2 == 1
  }

  /** The offset behind a zero-terminated string; one beyond the end when there is no terminator. */
  function SkipString(data: Bytes, offset: nat): (r: nat)
    ensures offset < r
    decreases |data| - offset
  {
    if offset < |data| && data[offset] != 0 then SkipString(data, offset + 1) else offset + 1
  }

  /** The offset behind the extra field, when its length can be read. */
  function SkipExtra(data: Bytes, offset: nat): Option<nat> {
    if offset + 2 > |data| then None
    else Some(offset + 2 + (data[offset] as int + 256 * data[offset + 1] as int))
  }

  /** The offset of the compressed body behind a header with the given flags. */
  function SkipHeader(data: Bytes, flags: byte): Option<nat> {
    var start: Option<nat> := if Flag(flags, 4) then SkipExtra(data, 10) else Some(10);
    match start
    case None => None
    case Some(o1) =>
      var o2 := if Flag(flags, 8) then SkipString(data, o1) else o1;
      var o3 := if Flag(flags, 16) then SkipString(data, o2) else o2;
      Some(if Flag(flags, 2) then o3 + 2 else o3)
  }

  predicate HasMagic(data: Bytes) {
    |data| >= 10 && data[0] == 0x1f && data[1] == 0x8b
  }

  /** The Deflate stream that is handed to the decoder. */
  function Body(data: Bytes): Option<Bytes> {
    if |data| < 10 then None
    else if !HasMagic(data) then Some(data)
    else if data[2] != 8 then None
    else
      match SkipHeader(data, data[3])
      case None => None
      case Some(o) => if o + 8 > |data| then None else Some(data[o..|data| - 8])
  }

  /** The bytes that a compressed frame stands for, when there are at most `limit`. */
  ghost function Decompress(data: Bytes, limit: nat): Option<Bytes> {
    match Body(data)
    case None => None
    case Some(body) =>
      var r := D.Inflate(body, limit);
      if r.err == 0 then Some(r.out) else None
  }

  method SkipTerminated(data: Bytes, start: nat) returns (offset: nat)
    ensures offset == SkipString(data, start)
  {
    offset := start;
    while offset < |data| && data[offset] != 0
      invariant SkipString(data, start) == SkipString(data, offset)
      decreases |data| - offset
    {
      offset := offset + 1;
    }
    offset := offset + 1;
  }

  /** Walk over the header; `ok` is false when it is not one of a Deflate member or not complete. */
  method FindBody(data: Bytes) returns (ok: bool, offset: nat, end: nat)
    ensures ok <==> Body(data).Some?
    ensures ok ==> offset <= end <= |data| && Body(data) == Some(data[offset..end])
  {
    hide SkipString;
    offset, end := 0, |data|;
    if |data| < 10 {
      return false, 0, 0;
    }
    if data[0] == 0x1f && data[1] == 0x8b {
      var flg := data[3];
      if data[2] != 8 {
        return false, 0, 0;
      }
      offset := 10;
      if Flag(flg, 4) {
        if offset + 2 > |data| {
          return false, 0, 0;
        }
        var extraLen := data[offset] as int + 256 * data[offset + 1] as int;
        offset := offset + (2 + extraLen);
      }
      if Flag(flg, 8) {
        offset := SkipTerminated(data, offset);
      }
      if Flag(flg, 16) {
        offset := SkipTerminated(data, offset);
      }
      if Flag(flg, 2) {
        offset := offset + 2;
      }
      if offset + 8 > |data| {
        return false, 0, 0;
      }
      end := |data| - 8;
    } else {
      assert data[0..|data|] == data;
    }
    ok := true;
  }

  method DecompressFrame(data: Bytes, out: array<byte>, outlen: nat, tables: P.FixedTables)
    returns (ok: bool, written: nat)
    requires outlen <= out.Length && tables.Valid() && out as object !in tables.Repr()
    modifies out, tables.Repr()
    ensures tables.Valid() && written <= outlen
    ensures ok <==> Decompress(data, outlen).Some?
    ensures ok ==> Decompress(data, outlen) == Some(out[..written])
  {
    hide D.Inflate, Body;
    var found, offset, end := FindBody(data);
    if !found {
      return false, 0;
    }
    var err, n, _ := P.Puff(out, outlen, data[offset..end], tables);
    return err == 0, n;
  }

  // ----- what a member is -----

  /** A gzip member with Deflate body: optional fields, body, and eight bytes of check values. */
  datatype Member = Member(
    text: bool, mtime: Bytes, xfl: byte, os: byte,
    extra: Option<Bytes>, name: Option<Bytes>, comment: Option<Bytes>, headerCrc: Option<Bytes>,
    body: Bytes, trailer: Bytes)

  predicate NonZero(s: Bytes) {
    forall i :: 0 <= i < |s| ==> s[i] != 0
  }

  predicate WellFormed(m: Member) {
    && |m.mtime| == 4 && |m.trailer| == 8
    && (m.extra.Some? ==> |m.extra.value| < 0x1_0000)
    && (m.name.Some? ==> NonZero(m.name.value))
    && (m.comment.Some? ==> NonZero(m.comment.value))
    && (m.headerCrc.Some? ==> |m.headerCrc.value| == 2)
  }

  /** FTEXT, FHCRC, FEXTRA, FNAME and FCOMMENT are bits 0 to 4. */
  function Flags(m: Member): byte {
    (if m.text then 1 else 0) + (if m.headerCrc.Some? then 2 else 0) + (if m.extra.Some? then 4 else 0)
    + (if m.name.Some? then 8 else 0) + (if m.comment.Some? then 16 else 0)
  }

  function ExtraField(m: Member): Bytes
    requires WellFormed(m)
  {
    match m.extra
    case None => []
    case Some(x) => [|x| % 256, |x| / 256] + x
  }

  function StringField(s: Option<Bytes>): Bytes {
    match s
    case None => []
    case Some(x) => x + [0]
  }

  function CrcField(m: Member): Bytes {
    match m.headerCrc
    case None => []
    case Some(x) => x
  }

  function FixedHeader(m: Member): (h: Bytes)
    requires WellFormed(m)
    ensures |h| == 10
  {
    [0x1f, 0x8b, 8, Flags(m)] + m.mtime + [m.xfl, m.os]
  }

  function Print(m: Member): Bytes
    requires WellFormed(m)
  {
    FixedHeader(m)
    + (ExtraField(m) + (StringField(m.name) + (StringField(m.comment) + (CrcField(m) + (m.body + m.trailer)))))
  }

  lemma FlagsRead(m: Member)
    ensures Flag(Flags(m), 4) <==> m.extra.Some?
    ensures Flag(Flags(m), 8) <==> m.name.Some?
    ensures Flag(Flags(m), 16) <==> m.comment.Some?
    ensures Flag(Flags(m), 2) <==> m.headerCrc.Some?
  {
    var a, b := if m.text then 1 else 0, if m.headerCrc.Some? then 1 else 0;
    var c, d, e := if m.extra.Some? then 1 else 0, if m.name.Some? then 1 else 0, if m.comment.Some? then 1 else 0;
    assert Flags(m) == a + 2 * b + 4 * c + 8 * d + 16 * e;
  }

  lemma {:induction false} SkipStringAt(data: Bytes, offset: nat, s: Bytes)
    requires offset + |s| < |data| && data[offset..offset + |s|] == s
    requires NonZero(s) && data[offset + |s|] == 0
    ensures SkipString(data, offset) == offset + |s| + 1
    decreases |s|
  {
    if |s| > 0 {
      assert data[offset] == s[0];
      assert data[offset + 1..offset + 1 + |s[1..]|] == s[1..];
      SkipStringAt(data, offset + 1, s[1..]);
    }
  }

  /** An optional string in front of `after` is skipped. */
  lemma SkipField(before: Bytes, s: Option<Bytes>, after: Bytes)
    requires s.Some? ==> NonZero(s.value)
    ensures s.Some? ==>
              SkipString(before + (StringField(s) + after), |before|) == |before| + |StringField(s)|
  {
    if s.Some? {
      var data := before + (StringField(s) + after);
      assert data[|before|..|before| + |s.value|] == s.value;
      SkipStringAt(data, |before|, s.value);
    }
  }

  lemma SkipExtraField(m: Member, before: Bytes, after: Bytes)
    requires WellFormed(m) && m.extra.Some?
    ensures SkipExtra(before + (ExtraField(m) + after), |before|) == Some(|before| + |ExtraField(m)|)
  {
    var data, x := before + (ExtraField(m) + after), m.extra.value;
    assert data[|before|] == |x| % 256 && data[|before| + 1] == |x| / 256;
  }

  /** For a well-formed member with any optional fields, the decoder gets exactly the body. */
  lemma MemberBody(m: Member)
    requires WellFormed(m)
    ensures Body(Print(m)) == Some(m.body)
  {
    hide SkipHeader, ExtraField, StringField, CrcField, Flags;
    var o := SkipsFields(m);
    var rest := m.body + m.trailer;
    assert Print(m)[o..|Print(m)| - 8] == m.body by {
      assert Print(m)[o..] == rest;
      assert rest[..|rest| - 8] == m.body;
    }
  }

  /** The header skipper stops where the body begins. */
  lemma SkipsFields(m: Member) returns (o: nat)
    requires WellFormed(m)
    ensures o + |m.body| + 8 == |Print(m)| && Print(m)[o..] == m.body + m.trailer
    ensures SkipHeader(Print(m), Flags(m)) == Some(o)
  {
    hide SkipString, SkipExtra, Flag, Flags, NonZero, ExtraField, StringField, CrcField, FixedHeader;
    var h, x, n, c, r := FixedHeader(m), ExtraField(m), StringField(m.name), StringField(m.comment), CrcField(m);
    var t3 := r + (m.body + m.trailer);
    var t2 := c + t3;
    var t1 := n + t2;
    FlagsRead(m);
    AbsentFields(m);
    if m.extra.Some? {
      SkipExtraField(m, h, t1);
    }
    Assoc(h, x, t1);
    SkipField(h + x, m.name, t2);
    Assoc(h + x, n, t2);
    SkipField(h + x + n, m.comment, t3);
    Assoc(h + x + n, c, t3);
    Assoc(h + x + n + c, r, m.body + m.trailer);
    o := |h + x + n + c + r|;
    Behind(h + x + n + c + r, m.body + m.trailer);
  }

  lemma Assoc(a: Bytes, b: Bytes, c: Bytes)
    ensures a + (b + c) == (a + b) + c
  {
  }

  lemma Behind(a: Bytes, b: Bytes)
    ensures (a + b)[|a|..] == b
  {
  }

  lemma AbsentFields(m: Member)
    requires WellFormed(m)
    ensures m.extra.None? ==> ExtraField(m) == []
    ensures m.name.None? ==> StringField(m.name) == []
    ensures m.comment.None? ==> StringField(m.comment) == []
    ensures |CrcField(m)| == if m.headerCrc.Some? then 2 else 0
  {
  }

  /** A well-formed member decompresses to what its body inflates to. */
  lemma MemberDecompresses(m: Member, limit: nat)
    requires WellFormed(m)
    ensures Decompress(Print(m), limit) ==
            if D.Inflate(m.body, limit).err == 0 then Some(D.Inflate(m.body, limit).out) else None
  {
    hide Print, Body, D.Inflate;
    MemberBody(m);
  }

  // ----- in the numbers of RFC 1952 -----

  /** The flag byte: from the lowest bit on text, header check, extra field, name, comment. */
  lemma FlagsInNumbers(m: Member)
    ensures Flags(m) % 2 == 1 <==> m.text
    ensures Flags(m) / 2 % 2 == 1 <==> m.headerCrc.Some?
    ensures Flags(m) / 4 % 2 == 1 <==> m.extra.Some?
    ensures Flags(m) / 8 % 2 == 1 <==> m.name.Some?
    ensures Flags(m) / 16 == 1 <==> m.comment.Some?
  {
    var a, b := if m.text then 1 else 0, if m.headerCrc.Some? then 1 else 0;
    var c, d, e := if m.extra.Some? then 1 else 0, if m.name.Some? then 1 else 0, if m.comment.Some? then 1 else 0;
    assert Flags(m) == a + 2 * b + 4 * c + 8 * d + 16 * e;
  }

  /** A member without optional fields: ten bytes, the body, and eight bytes. */
  lemma PlainMember(mtime: Bytes, xfl: byte, os: byte, body: Bytes, trailer: Bytes)
    requires |mtime| == 4 && |trailer| == 8
    ensures Body([0x1f, 0x8b, 0x08, 0x00] + mtime + [xfl, os] + body + trailer) == Some(body)
  {
    var data := [0x1f, 0x8b, 0x08, 0x00] + mtime + [xfl, os] + body + trailer;
    assert data[0] == 0x1f && data[1] == 0x8b && data[2] == 8 && data[3] == 0;
    assert data[10..|data| - 8] == body;
  }

  /** A member with a name, as most encoders write it: flag 8, and the name behind the ten bytes, ended by zero. */
  lemma NamedMember(mtime: Bytes, xfl: byte, os: byte, name: Bytes, body: Bytes, trailer: Bytes)
    requires |mtime| == 4 && |trailer| == 8 && NonZero(name)
    ensures Body([0x1f, 0x8b, 0x08, 0x08] + mtime + [xfl, os] + (name + [0x00]) + body + trailer) == Some(body)
  {
    var before := [0x1f, 0x8b, 0x08, 0x08] + mtime + [xfl, os];
    var data := before + (name + [0x00]) + body + trailer;
    assert data[0] == 0x1f && data[1] == 0x8b && data[2] == 8 && data[3] == 8;
    assert data[10..10 + |name|] == name && data[10 + |name|] == 0;
    SkipStringAt(data, 10, name);
    assert data[11 + |name|..|data| - 8] == body;
  }

  /** A member with an extra field: flag 4, and its length, low byte first, in front of it. */
  lemma ExtraMember(mtime: Bytes, xfl: byte, os: byte, low: byte, high: byte, extra: Bytes, body: Bytes, trailer: Bytes)
    requires |mtime| == 4 && |trailer| == 8 && |extra| == low as int + 256 * high as int
    ensures Body([0x1f, 0x8b, 0x08, 0x04] + mtime + [xfl, os] + [low, high] + extra + body + trailer) == Some(body)
  {
    var data := [0x1f, 0x8b, 0x08, 0x04] + mtime + [xfl, os] + [low, high] + extra + body + trailer;
    assert data[0] == 0x1f && data[1] == 0x8b && data[2] == 8 && data[3] == 4;
    assert data[10] == low && data[11] == high;
    assert data[12 + |extra|..|data| - 8] == body;
  }

  /** A member with all fields: they come in the order extra, name, comment, header check. */
  lemma FullMember(mtime: Bytes, xfl: byte, os: byte, low: byte, high: byte, extra: Bytes, name: Bytes, comment: Bytes,
                   check: Bytes, body: Bytes, trailer: Bytes)
    requires |mtime| == 4 && |trailer| == 8 && |extra| == low as int + 256 * high as int && |check| == 2
    requires NonZero(name) && NonZero(comment)
    ensures Body([0x1f, 0x8b, 0x08, 0x1e] + mtime + [xfl, os]
                 + (([low, high] + extra) + ((name + [0x00]) + ((comment + [0x00]) + (check + (body + trailer)))))) == Some(body)
  {
    hide Body;
    var m := Member(false, mtime, xfl, os, Some(extra), Some(name), Some(comment), Some(check), body, trailer);
    LengthBytes(low, high);
    assert Flags(m) == 0x1e;
    MemberBody(m);
  }

  lemma LengthBytes(low: byte, high: byte)
    ensures (low as int + 256 * high as int) % 256 == low && (low as int + 256 * high as int) / 256 == high
  {
  }

  /** What is shorter than ten bytes, or has another method, is refused; what does not begin like a member is taken as a body. */
  lemma NoMember(data: Bytes)
    ensures |data| < 10 ==> Body(data) == None
    ensures |data| >= 10 && (data[0] != 0x1f || data[1] != 0x8b) ==> Body(data) == Some(data)
    ensures |data| >= 10 && data[0] == 0x1f && data[1] == 0x8b && data[2] != 8 ==> Body(data) == None
    ensures |data| < 18 && |data| >= 10 && data[0] == 0x1f && data[1] == 0x8b ==> Body(data) == None
  {
    SkipsAtLeastTen(data);
  }

  lemma SkipsAtLeastTen(data: Bytes)
    ensures |data| >= 10 && SkipHeader(data, data[3]).Some? ==> SkipHeader(data, data[3]).value >= 10
  {
  }
}
