/**
 The streaming filter that removes terminal queries (src/ansi.rs): a scanner with look-ahead that
 hands back an unfinished escape sequence.  Proved: how it is cut into chunks does not matter, and
 on well-formed streams it removes exactly the query sequences.
 */
module AnsiFilter {
  import opened Bits

  const ESC: byte := 0x1b
  const BEL: byte := 0x07
  const BACKSLASH: byte := 0x5c
  const OSC: byte := 0x5d   // ]
  const DCS: byte := 0x50   // P
  const CSI: byte := 0x5b   // [

  /** Some window of `hay` equals `needle`. */
  predicate Contains(hay: Bytes, needle: Bytes)
    decreases |hay|
  {
    |needle| == 0 || (|needle| <= |hay| && (needle <= hay || Contains(hay[1..], needle)))
  }

  /** A window matches exactly when the haystack splits around the needle. */
  lemma {:induction false} ContainsIff(hay: Bytes, needle: Bytes)
    ensures Contains(hay, needle) <==> exists pre: Bytes, post: Bytes :: hay == pre + needle + post
    decreases |hay|
  {
    if needle <= hay {
      assert hay == [] + needle + hay[|needle|..];
    } else if |needle| <= |hay| {
      ContainsIff(hay[1..], needle);
      if Contains(hay[1..], needle) {
        var pre: Bytes, post: Bytes :| hay[1..] == pre + needle + post;
        assert hay == ([hay[0]] + pre) + needle + post;
      }
      forall pre: Bytes, post: Bytes | hay == pre + needle + post
        ensures Contains(hay[1..], needle)
      {
        assert pre + needle + post == pre + (needle + post);
        if |pre| > 0 {
          assert hay[1..] == pre[1..] + needle + post;
        }
      }
    } else {
      forall pre: Bytes, post: Bytes
        ensures hay != pre + needle + post
      {
        assert |pre + needle + post| >= |needle|;
      }
    }
  }

  predicate FinalByte(b: byte) {
    0x40 <= b <= 0x7e
  }

  // ----- where a sequence ends -----

  datatype End = Open | At(pos: nat)

  /** The end of an OSC or DCS string, looking from index `j` on: behind BEL or ESC backslash. */
  function StringEnd(s: Bytes, j: nat): (e: End)
    ensures e.At? ==> j < e.pos <= |s|
    decreases |s| - j
  {
    if j >= |s| then Open
    else if s[j] == BEL then At(j + 1)
    else if s[j] == ESC && j + 1 < |s| && s[j + 1] == BACKSLASH then At(j + 2)
    else StringEnd(s, j + 1)
  }

  /** The end of a CSI sequence, looking from index `j` on: behind the final byte. */
  function ControlEnd(s: Bytes, j: nat): (e: End)
    ensures e.At? ==> j < e.pos <= |s|
    decreases |s| - j
  {
    if j >= |s| then Open
    else if FinalByte(s[j]) then At(j + 1)
    else ControlEnd(s, j + 1)
  }

  // ----- which sequences are queries -----

  predicate StartsWith(s: Bytes, t: Bytes) {
    t <= s
  }

  predicate EndsWith(s: Bytes, b: byte) {
    |s| > 0 && s[|s| - 1] == b
  }

  /** OSC 10, 11, 12 and 4, or any OSC with a question mark. */
  predicate OscQuery(s: Bytes) {
    || StartsWith(s, [ESC, OSC, 0x31, 0x30, 0x3b])
    || StartsWith(s, [ESC, OSC, 0x31, 0x31, 0x3b])
    || StartsWith(s, [ESC, OSC, 0x31, 0x32, 0x3b])
    || StartsWith(s, [ESC, OSC, 0x34, 0x3b])
    || 0x3f in s
  }

  /** A DCS with "$q" or any dollar sign. */
  predicate DcsQuery(s: Bytes) {
    Contains(s, [0x24, 0x71]) || 0x24 in s
  }

  /** Device attributes, XTVERSION, cursor position; any private sequence that ends in c or n. */
  predicate CsiQuery(s: Bytes) {
    || s == [ESC, CSI, 0x63]
    || s == [ESC, CSI, 0x30, 0x63]
    || s == [ESC, CSI, 0x3f, 0x63]
    || s == [ESC, CSI, 0x3e, 0x63]
    || s == [ESC, CSI, 0x3e, 0x30, 0x63]
    || s == [ESC, CSI, 0x3e, 0x31, 0x63]
    || s == [ESC, CSI, 0x3d, 0x63]
    || s == [ESC, CSI, 0x3d, 0x30, 0x63]
    || s == [ESC, CSI, 0x3e, 0x71]
    || s == [ESC, CSI, 0x71]
    || s == [ESC, CSI, 0x36, 0x6e]
    || s == [ESC, CSI, 0x3f, 0x36, 0x6e]
    || (StartsWith(s, [ESC, CSI, 0x3f]) && EndsWith(s, 0x63))
    || (StartsWith(s, [ESC, CSI, 0x3f]) && EndsWith(s, 0x6e))
  }

  // ----- one step of the scanner -----

  /** What happens at the beginning of `s`: stop with a leftover, drop `n` bytes, or keep one byte. */
  datatype Step = Wait | Drop(n: nat) | Keep

  function Decide(e: End, query: Bytes -> bool, s: Bytes): (d: Step)
    requires e.At? ==> 0 < e.pos <= |s|
    ensures d.Drop? ==> 0 < d.n <= |s|
  {
    match e
    case Open => Wait
    case At(n) => if query(s[..n]) then Drop(n) else Keep
  }

  function Next(s: Bytes): (d: Step)
    requires |s| > 0
    ensures d.Drop? ==> 0 < d.n <= |s|
    ensures d.Wait? ==> s[0] == ESC
  {
    if s[0] != ESC then Keep
    else if |s| == 1 then Wait
    else if s[1] == OSC then Decide(StringEnd(s, 2), OscQuery, s)
    else if s[1] == DCS then Decide(StringEnd(s, 2), DcsQuery, s)
    else if s[1] == CSI then Decide(ControlEnd(s, 2), CsiQuery, s)
    else Keep
  }

  /** The cleaned bytes and the unfinished rest. */
  datatype Stripped = Stripped(clean: Bytes, rest: Bytes)

  function Strip(s: Bytes): Stripped
    decreases |s|
  {
    if |s| == 0 then Stripped([], [])
    else
      match Next(s)
      case Wait => Stripped([], s)
      case Drop(n) => Strip(s[n..])
      case Keep =>
        var r := Strip(s[1..]);
        Stripped([s[0]] + r.clean, r.rest)
  }

  /** Put bytes in front of what has been cleaned. */
  function Prepend(p: Bytes, r: Stripped): Stripped {
    Stripped(p + r.clean, r.rest)
  }

  // ----- the scanning loops -----

  method ScanString(data: Bytes, i: nat) returns (j: nat, found: bool)
    requires i + 2 <= |data|
    ensures found ==> i + 2 < j <= |data|
    ensures StringEnd(data[i..], 2) == if found then At(j - i) else Open
  {
    j, found := i + 2, false;
    while j < |data|
      invariant i + 2 <= j <= |data|
      invariant StringEnd(data[i..], 2) == StringEnd(data[i..], j - i)
    {
      if data[j] == BEL {
        return j + 1, true;
      } else if data[j] == ESC && j + 1 < |data| && data[j + 1] == BACKSLASH {
        return j + 2, true;
      }
      j := j + 1;
    }
  }

  method ScanControl(data: Bytes, i: nat) returns (j: nat, found: bool)
    requires i + 2 <= |data|
    ensures found ==> i + 2 < j <= |data|
    ensures ControlEnd(data[i..], 2) == if found then At(j - i) else Open
  {
    j, found := i + 2, false;
    while j < |data|
      invariant i + 2 <= j <= |data|
      invariant ControlEnd(data[i..], 2) == ControlEnd(data[i..], j - i)
    {
      if FinalByte(data[j]) {
        return j + 1, true;
      }
      j := j + 1;
    }
  }

  /** Look at the sequence that starts with the ESC at `i`; returns the index to go on from, or waits. */
  method Examine(data: Bytes, i: nat) returns (wait: bool, j: nat)
    requires i < |data| && data[i] == ESC
    ensures wait <==> Next(data[i..]) == Wait
    ensures !wait ==> i <= j <= |data| && Next(data[i..]) == if j == i then Keep else Drop(j - i)
  {
    if i + 1 == |data| {
      return true, i;
    }
    var next := data[i + 1];
    var found;
    if next == OSC || next == DCS {
      j, found := ScanString(data, i);
      if !found {
        return true, i;
      }
      assert data[i..j] == data[i..][..j - i];
      return false, if (if next == OSC then OscQuery(data[i..j]) else DcsQuery(data[i..j])) then j else i;
    }
    if next == CSI {
      j, found := ScanControl(data, i);
      if !found {
        return true, i;
      }
      assert data[i..j] == data[i..][..j - i];
      return false, if CsiQuery(data[i..j]) then j else i;
    }
    return false, i;
  }

  method StripTerminalQueries(data: Bytes) returns (result: Bytes, rest: Bytes)
    ensures Stripped(result, rest) == Strip(data)
  {
    hide Next, Strip;
    result := [];
    var i := 0;
    NothingDone(data);
    while i < |data|
      invariant i <= |data|
      invariant Strip(data) == Prepend(result, Strip(data[i..]))
    {
      StepOn(data, i, result);
      if data[i] == ESC {
        var wait, j := Examine(data, i);
        if wait {
          return result, data[i..];
        }
        if j > i {
          i := j;
          continue;
        }
      } else {
        PlainIsKept(data[i..]);
      }
      result := result + [data[i]];
      i := i + 1;
    }
    rest := [];
    NothingLeft(data[i..], result);
  }

  lemma NothingDone(data: Bytes)
    ensures Strip(data) == Prepend([], Strip(data[0..]))
  {
    assert data[0..] == data;
  }

  lemma NothingLeft(s: Bytes, result: Bytes)
    requires s == []
    ensures Prepend(result, Strip(s)) == Stripped(result, [])
  {
  }

  /** What the decision at `i` means for the result. */
  lemma StepOn(data: Bytes, i: nat, result: Bytes)
    requires i < |data|
    ensures Prepend(result, Strip(data[i..])) ==
            match Next(data[i..])
            case Wait => Stripped(result, data[i..])
            case Drop(n) => Prepend(result, Strip(data[i + n..]))
            case Keep => Prepend(result + [data[i]], Strip(data[i + 1..]))
  {
    hide Next;
    var s := data[i..];
    assert s[1..] == data[i + 1..];
    match Next(s)
    case Wait =>
    case Drop(n) => assert s[n..] == data[i + n..];
    case Keep => assert result + ([data[i]] + Strip(s[1..]).clean) == result + [data[i]] + Strip(s[1..]).clean;
  }

  lemma PlainIsKept(s: Bytes)
    requires |s| > 0 && s[0] != ESC
    ensures Next(s) == Keep
  {
  }

  // ----- chunks -----

  lemma {:induction false} StringEndStable(a: Bytes, b: Bytes, j: nat)
    requires StringEnd(a, j).At?
    ensures StringEnd(a + b, j) == StringEnd(a, j)
    decreases |a| - j
  {
    if StringEnd(a, j) == StringEnd(a, j + 1) && StringEnd(a, j + 1).At? {
      StringEndStable(a, b, j + 1);
    }
  }

  lemma {:induction false} ControlEndStable(a: Bytes, b: Bytes, j: nat)
    requires ControlEnd(a, j).At?
    ensures ControlEnd(a + b, j) == ControlEnd(a, j)
    decreases |a| - j
  {
    if j < |a| && !FinalByte(a[j]) {
      ControlEndStable(a, b, j + 1);
    }
  }

  /** A decision that was not to wait stays the same whatever follows. */
  lemma NextStable(a: Bytes, b: Bytes)
    requires |a| > 0 && Next(a) != Wait
    ensures Next(a + b) == Next(a)
  {
    hide OscQuery, DcsQuery, CsiQuery, StringEnd, ControlEnd;
    if |a| > 1 && a[0] == ESC {
      if a[1] == OSC || a[1] == DCS {
        StringEndStable(a, b, 2);
        assert (a + b)[..StringEnd(a, 2).pos] == a[..StringEnd(a, 2).pos];
      } else if a[1] == CSI {
        ControlEndStable(a, b, 2);
        assert (a + b)[..ControlEnd(a, 2).pos] == a[..ControlEnd(a, 2).pos];
      }
    }
  }

  /** Filtering a chunk, then its leftover with the next chunk, is filtering both at once. */
  lemma {:induction false} ChunkingInvariance(a: Bytes, b: Bytes)
    ensures var first := Strip(a);
            var second := Strip(first.rest + b);
            Strip(a + b) == Stripped(first.clean + second.clean, second.rest)
    decreases |a|
  {
    hide Next;
    if |a| == 0 {
      assert a + b == b && Strip(a).rest + b == b;
    } else if Next(a) != Wait {
      NextStable(a, b);
      match Next(a)
      case Drop(n) =>
        assert (a + b)[n..] == a[n..] + b;
        ChunkingInvariance(a[n..], b);
      case Keep =>
        assert (a + b)[1..] == a[1..] + b;
        ChunkingInvariance(a[1..], b);
    }
  }

  /** Filtering chunk by chunk, the leftover of each put in front of the next. */
  function StripChunks(pending: Bytes, chunks: seq<Bytes>): Stripped
    decreases |chunks|
  {
    if |chunks| == 0 then Stripped([], pending)
    else
      var r := Strip(pending + chunks[0]);
      var s := StripChunks(r.rest, chunks[1..]);
      Stripped(r.clean + s.clean, s.rest)
  }

  /** The leftover is final: filtering it again changes nothing. */
  lemma {:induction false} RestIsWaiting(s: Bytes)
    ensures Strip(Strip(s).rest) == Stripped([], Strip(s).rest)
    decreases |s|
  {
    if |s| > 0 {
      match Next(s)
      case Wait =>
      case Drop(n) => RestIsWaiting(s[n..]);
      case Keep => RestIsWaiting(s[1..]);
    }
  }

  /** Any way of cutting a stream into chunks gives the same output and leftover. */
  lemma {:induction false} AnyChunking(pending: Bytes, chunks: seq<Bytes>)
    requires Strip(pending) == Stripped([], pending)
    ensures StripChunks(pending, chunks) == Strip(pending + Flatten(chunks))
    decreases |chunks|
  {
    if |chunks| == 0 {
      assert pending + Flatten(chunks) == pending;
    } else {
      var first := pending + chunks[0];
      assert pending + Flatten(chunks) == first + Flatten(chunks[1..]);
      ChunkingInvariance(first, Flatten(chunks[1..]));
      RestIsWaiting(first);
      AnyChunking(Strip(first).rest, chunks[1..]);
    }
  }

  /** The leftover is a suffix of the input that is empty or begins with ESC. */
  lemma {:induction false} RestIsSuffix(s: Bytes) returns (consumed: Bytes)
    ensures s == consumed + Strip(s).rest
    ensures Strip(s).rest == [] || Strip(s).rest[0] == ESC
    decreases |s|
  {
    hide Next;
    if |s| == 0 {
      consumed := [];
    } else {
      match Next(s)
      case Wait =>
        consumed := [];
      case Drop(n) =>
        var c := RestIsSuffix(s[n..]);
        consumed := s[..n] + c;
      case Keep =>
        var c := RestIsSuffix(s[1..]);
        consumed := [s[0]] + c;
    }
  }

  // ----- the filter on well-formed streams -----

  datatype Item =
    | Plain(b: byte)
    | Short(b: byte)
    | Control(parameters: Bytes, final: byte)
    | Text(kind: byte, body: Bytes, bel: bool)

  predicate NoEscape(s: Bytes) {
    forall i :: 0 <= i < |s| ==> s[i] != ESC
  }

  predicate WellFormed(t: Item) {
    match t
    case Plain(b) => b != ESC
    case Short(b) => b != ESC && b != OSC && b != DCS && b != CSI
    case Control(ps, f) => NoEscape(ps) && FinalByte(f) && forall i :: 0 <= i < |ps| ==> !FinalByte(ps[i])
    case Text(kind, body, _) =>
      (kind == OSC || kind == DCS) && NoEscape(body) && forall i :: 0 <= i < |body| ==> body[i] != BEL
  }

  function Terminator(bel: bool): Bytes {
    if bel then [BEL] else [ESC, BACKSLASH]
  }

  function Print(t: Item): (s: Bytes)
    ensures |s| > 0
  {
    match t
    case Plain(b) => [b]
    case Short(b) => [ESC, b]
    case Control(ps, f) => [ESC, CSI] + ps + [f]
    case Text(kind, body, bel) => [ESC, kind] + body + Terminator(bel)
  }

  function PrintAll(ts: seq<Item>): Bytes {
    if |ts| == 0 then [] else Print(ts[0]) + PrintAll(ts[1..])
  }

  predicate Query(t: Item) {
    match t
    case Plain(_) => false
    case Short(_) => false
    case Control(_, _) => CsiQuery(Print(t))
    case Text(kind, _, _) => if kind == OSC then OscQuery(Print(t)) else DcsQuery(Print(t))
  }

  // ----- which sequences are queries, by their parts -----

  /** Device attributes (c), cursor position (n) and XTVERSION (q), or anything private that ends in c or n. */
  predicate ControlIsQuery(ps: Bytes, f: byte) {
    || (f == 0x63 && ps in {[], [0x30], [0x3e], [0x3e, 0x30], [0x3e, 0x31], [0x3d], [0x3d, 0x30]})
    || (f == 0x6e && ps == [0x36])
    || (f == 0x71 && ps in {[], [0x3e]})
    || ((f == 0x63 || f == 0x6e) && |ps| > 0 && ps[0] == 0x3f)
  }

  /** Palette and colours (4, 10, 11, 12) or any question for an OSC; any dollar sign for a DCS. */
  predicate TextIsQuery(kind: byte, body: Bytes) {
    if kind == OSC then
      [0x34, 0x3b] <= body || [0x31, 0x30, 0x3b] <= body || [0x31, 0x31, 0x3b] <= body || [0x31, 0x32, 0x3b] <= body
      || 0x3f in body
    else 0x24 in body
  }

  lemma SamePrint(ps: Bytes, f: byte, qs: Bytes, c: byte)
    ensures [ESC, CSI] + ps + [f] == [ESC, CSI] + qs + [c] <==> ps == qs && f == c
  {
    var s, t := [ESC, CSI] + ps + [f], [ESC, CSI] + qs + [c];
    assert s[2..|s| - 1] == ps && t[2..|t| - 1] == qs;
    assert s[|s| - 1] == f && t[|t| - 1] == c;
  }

  /** The listed sequences are those with these parameters and final bytes. */
  lemma ListedIff(ps: Bytes, f: byte, qs: Bytes, c: byte, listed: Bytes)
    requires listed == [ESC, CSI] + qs + [c]
    ensures Print(Control(ps, f)) == listed <==> ps == qs && f == c
  {
    SamePrint(ps, f, qs, c);
  }

  /** A control sequence is a query exactly when its parameters and final byte say so. */
  lemma ControlQueryIff(ps: Bytes, f: byte)
    requires FinalByte(f)
    ensures Query(Control(ps, f)) <==> ControlIsQuery(ps, f)
  {
    hide Print;
    PrivatePrint(ps, f);
    ListedIff(ps, f, [], 0x63, [ESC, CSI, 0x63]);
    ListedIff(ps, f, [0x30], 0x63, [ESC, CSI, 0x30, 0x63]);
    ListedIff(ps, f, [0x3f], 0x63, [ESC, CSI, 0x3f, 0x63]);
    ListedIff(ps, f, [0x3e], 0x63, [ESC, CSI, 0x3e, 0x63]);
    ListedIff(ps, f, [0x3e, 0x30], 0x63, [ESC, CSI, 0x3e, 0x30, 0x63]);
    ListedIff(ps, f, [0x3e, 0x31], 0x63, [ESC, CSI, 0x3e, 0x31, 0x63]);
    ListedIff(ps, f, [0x3d], 0x63, [ESC, CSI, 0x3d, 0x63]);
    ListedIff(ps, f, [0x3d, 0x30], 0x63, [ESC, CSI, 0x3d, 0x30, 0x63]);
    ListedIff(ps, f, [0x3e], 0x71, [ESC, CSI, 0x3e, 0x71]);
    ListedIff(ps, f, [], 0x71, [ESC, CSI, 0x71]);
    ListedIff(ps, f, [0x36], 0x6e, [ESC, CSI, 0x36, 0x6e]);
    ListedIff(ps, f, [0x3f, 0x36], 0x6e, [ESC, CSI, 0x3f, 0x36, 0x6e]);
  }

  lemma PrivatePrint(ps: Bytes, f: byte)
    requires FinalByte(f)
    ensures StartsWith(Print(Control(ps, f)), [ESC, CSI, 0x3f]) <==> |ps| > 0 && ps[0] == 0x3f
    ensures forall c: byte :: EndsWith(Print(Control(ps, f)), c) <==> c == f
  {
    var s := Print(Control(ps, f));
    assert s[|s| - 1] == f;
    if |ps| > 0 {
      assert s[2] == ps[0] && s[..3] == [ESC, CSI, ps[0]];
    } else {
      assert s[2] == f;
    }
  }

  /** A string is a query exactly when its kind and body say so. */
  lemma TextQueryIff(kind: byte, body: Bytes, bel: bool)
    requires WellFormed(Text(kind, body, bel))
    ensures Query(Text(kind, body, bel)) <==> TextIsQuery(kind, body)
  {
    hide Contains, Print;
    var s := Print(Text(kind, body, bel));
    InBody(kind, body, bel, 0x3f);
    InBody(kind, body, bel, 0x24);
    if kind == OSC {
      BodyStarts(body, bel, [0x34, 0x3b]);
      BodyStarts(body, bel, [0x31, 0x30, 0x3b]);
      BodyStarts(body, bel, [0x31, 0x31, 0x3b]);
      BodyStarts(body, bel, [0x31, 0x32, 0x3b]);
    } else {
      ContainsFirst(s, [0x24, 0x71]);
    }
  }

  lemma ContainsFirst(hay: Bytes, needle: Bytes)
    requires |needle| > 0
    ensures Contains(hay, needle) ==> needle[0] in hay
  {
    ContainsIff(hay, needle);
    if Contains(hay, needle) {
      var pre: Bytes, post: Bytes :| hay == pre + needle + post;
      assert hay[|pre|] == needle[0];
    }
  }

  lemma InBody(kind: byte, body: Bytes, bel: bool, b: byte)
    requires b != ESC && b != BEL && b != BACKSLASH && b != kind
    ensures b in Print(Text(kind, body, bel)) <==> b in body
  {
  }

  /** A beginning without BEL and ESC can only be that of the body. */
  lemma BodyStarts(body: Bytes, bel: bool, t: Bytes)
    requires forall i :: 0 <= i < |t| ==> t[i] != BEL && t[i] != ESC
    ensures [ESC, OSC] + t <= Print(Text(OSC, body, bel)) <==> t <= body
  {
    var s := Print(Text(OSC, body, bel));
    assert forall i :: 0 <= i < |body| ==> s[2 + i] == body[i];
    assert s[2 + |body|] == Terminator(bel)[0];
    if [ESC, OSC] + t <= s {
      assert forall i :: 0 <= i < |t| ==> s[2 + i] == ([ESC, OSC] + t)[2 + i] == t[i];
      assert |t| <= |body|;
    }
  }

  function WithoutQueries(ts: seq<Item>): seq<Item> {
    if |ts| == 0 then []
    else if Query(ts[0]) then WithoutQueries(ts[1..])
    else [ts[0]] + WithoutQueries(ts[1..])
  }

  lemma {:induction false} PlainRun(p: Bytes, s: Bytes)
    requires NoEscape(p)
    ensures Strip(p + s) == Prepend(p, Strip(s))
    decreases |p|
  {
    if |p| == 0 {
      assert p + s == s;
    } else {
      assert (p + s)[1..] == p[1..] + s;
      PlainRun(p[1..], s);
      assert [p[0]] + (p[1..] + Strip(s).clean) == p + Strip(s).clean;
    }
  }

  lemma KeptEscape(p: Bytes, s: Bytes)
    requires NoEscape(p) && Next([ESC] + p + s) == Keep
    ensures Strip([ESC] + p + s) == Prepend([ESC] + p, Strip(s))
  {
    hide Next;
    var w := [ESC] + p + s;
    assert w[1..] == p + s;
    PlainRun(p, s);
    assert [ESC] + (p + Strip(s).clean) == [ESC] + p + Strip(s).clean;
  }

  lemma {:induction false} ControlEndsAt(s: Bytes, j: nat, k: nat)
    requires j <= k < |s| && FinalByte(s[k])
    requires forall i :: j <= i < k ==> !FinalByte(s[i])
    ensures ControlEnd(s, j) == At(k + 1)
    decreases k - j
  {
    if j < k {
      ControlEndsAt(s, j + 1, k);
    }
  }

  lemma {:induction false} StringEndsAt(s: Bytes, j: nat, k: nat)
    requires j <= k < |s|
    requires s[k] == BEL || (s[k] == ESC && k + 1 < |s| && s[k + 1] == BACKSLASH)
    requires forall i :: j <= i < k ==> s[i] != BEL && s[i] != ESC
    ensures StringEnd(s, j) == At(if s[k] == BEL then k + 1 else k + 2)
    decreases k - j
  {
    if j < k {
      StringEndsAt(s, j + 1, k);
    }
  }

  /** A complete sequence ends where it was printed, whatever follows. */
  lemma ItemEnd(t: Item, s: Bytes)
    requires WellFormed(t) && (t.Control? || t.Text?)
    ensures Next(Print(t) + s) == if Query(t) then Drop(|Print(t)|) else Keep
  {
    hide OscQuery, DcsQuery, CsiQuery, StringEnd, ControlEnd;
    var w := Print(t) + s;
    assert w[..|Print(t)|] == Print(t);
    match t
    case Control(ps, f) =>
      assert forall i :: 2 <= i < 2 + |ps| ==> w[i] == ps[i - 2];
      ControlEndsAt(w, 2, 2 + |ps|);
    case Text(kind, body, bel) =>
      assert forall i :: 2 <= i < 2 + |body| ==> w[i] == body[i - 2];
      StringEndsAt(w, 2, 2 + |body|);
  }

  lemma OneItem(t: Item, s: Bytes)
    requires WellFormed(t)
    ensures Strip(Print(t) + s) == if Query(t) then Strip(s) else Prepend(Print(t), Strip(s))
  {
    hide OscQuery, DcsQuery, CsiQuery, StringEnd, ControlEnd, Query;
    match t
    case Plain(b) =>
      assert !Query(t) by { PlainIsNoQuery(t); }
      PlainRun([b], s);
    case Short(b) =>
      assert !Query(t) by { PlainIsNoQuery(t); }
      assert [ESC] + [b] + s == [ESC, b] + s;
      KeptEscape([b], s);
    case Control(ps, f) =>
      ItemEnd(t, s);
      if Query(t) {
        assert (Print(t) + s)[|Print(t)|..] == s;
      } else {
        assert [ESC] + ([CSI] + ps + [f]) == Print(t);
        KeptEscape([CSI] + ps + [f], s);
      }
    case Text(kind, body, bel) =>
      ItemEnd(t, s);
      if Query(t) {
        assert (Print(t) + s)[|Print(t)|..] == s;
      } else {
        TextKept(t, s);
      }
  }

  lemma PlainIsNoQuery(t: Item)
    requires t.Plain? || t.Short?
    ensures !Query(t)
  {
  }

  lemma ShortIsKept(s: Bytes)
    requires |s| >= 2 && s[0] == ESC && s[1] == BACKSLASH
    ensures Next(s) == Keep
  {
  }

  lemma TextParts(t: Item)
    requires t.Text?
    ensures Print(t) == [ESC] + ([t.kind] + t.body) + Terminator(t.bel)
  {
    Regroup([ESC], [t.kind], t.body);
  }

  lemma TextKept(t: Item, s: Bytes)
    requires WellFormed(t) && t.Text? && Next(Print(t) + s) == Keep
    ensures Strip(Print(t) + s) == Prepend(Print(t), Strip(s))
  {
    hide OscQuery, DcsQuery, CsiQuery, StringEnd, ControlEnd, Next, Strip, Print;
    var p := [t.kind] + t.body;
    TextParts(t);
    if t.bel {
      Regroup([ESC], p, [BEL]);
      KeptEscape(p + [BEL], s);
    } else {
      TerminatedText(p, s);
    }
  }

  lemma TerminatedText(p: Bytes, s: Bytes)
    requires NoEscape(p) && Next([ESC] + p + [ESC, BACKSLASH] + s) == Keep
    ensures Strip([ESC] + p + [ESC, BACKSLASH] + s) == Prepend([ESC] + p + [ESC, BACKSLASH], Strip(s))
  {
    hide Next, Strip;
    var r := [ESC, BACKSLASH] + s;
    assert [ESC] + [BACKSLASH] == [ESC, BACKSLASH];
    ShortIsKept(r);
    KeptEscape([BACKSLASH], s);
    Regroup([ESC] + p, [ESC, BACKSLASH], s);
    KeptEscape(p, r);
    Regroup([ESC] + p, [ESC, BACKSLASH], Strip(s).clean);
  }

  /** The filter removes exactly the queries; what follows the stream is not touched. */
  lemma {:induction false} FilterRemovesQueries(ts: seq<Item>, s: Bytes)
    requires forall i :: 0 <= i < |ts| ==> WellFormed(ts[i])
    ensures Strip(PrintAll(ts) + s) == Prepend(PrintAll(WithoutQueries(ts)), Strip(s))
  {
    hide WellFormed, Query, Print, Next;
    if |ts| == 0 {
      assert PrintAll(ts) + s == s;
    } else {
      var t, rest := ts[0], PrintAll(ts[1..]) + s;
      assert PrintAll(ts) + s == Print(t) + rest;
      OneItem(t, rest);
      FilterRemovesQueries(ts[1..], s);
      var k := WithoutQueries(ts[1..]);
      if !Query(t) {
        assert ([t] + k)[1..] == k;
        assert Print(t) + (PrintAll(k) + Strip(s).clean) == PrintAll([t] + k) + Strip(s).clean;
      }
    }
  }

  lemma {:induction false} WithoutQueriesTwice(ts: seq<Item>)
    requires forall i :: 0 <= i < |ts| ==> WellFormed(ts[i])
    ensures WithoutQueries(WithoutQueries(ts)) == WithoutQueries(ts)
    ensures forall i :: 0 <= i < |WithoutQueries(ts)| ==> WellFormed(WithoutQueries(ts)[i])
  {
    hide WellFormed, Query;
    if |ts| > 0 {
      WithoutQueriesTwice(ts[1..]);
      assert ([ts[0]] + WithoutQueries(ts[1..]))[1..] == WithoutQueries(ts[1..]);
    }
  }

  /** On a complete well-formed stream nothing is left over, and a second pass changes nothing. */
  lemma FilterOnItems(ts: seq<Item>)
    requires forall i :: 0 <= i < |ts| ==> WellFormed(ts[i])
    ensures Strip(PrintAll(ts)) == Stripped(PrintAll(WithoutQueries(ts)), [])
    ensures Strip(Strip(PrintAll(ts)).clean) == Strip(PrintAll(ts))
  {
    hide WellFormed, Query, PrintAll, WithoutQueries, Next;
    var ks := WithoutQueries(ts);
    FilterRemovesQueries(ts, []);
    assert PrintAll(ts) + [] == PrintAll(ts) && PrintAll(ks) + [] == PrintAll(ks);
    WithoutQueriesTwice(ts);
    FilterRemovesQueries(ks, []);
  }

  /** A cursor position request goes. */
  lemma RequestGoes(s: Bytes)
    ensures Strip([ESC, CSI, 0x36, 0x6e] + s) == Strip(s)
  {
    hide StringEnd, ControlEnd, OscQuery, DcsQuery, Strip, Next;
    OneItem(Control([0x36], 0x6e), s);
    assert [ESC, CSI] + [0x36] + [0x6e] == [ESC, CSI, 0x36, 0x6e];
  }

  /** An ESC in front of another one stays. */
  lemma EscapeStays(s: Bytes)
    requires |s| > 0 && s[0] == ESC
    ensures Strip([ESC] + s) == Prepend([ESC], Strip(s))
  {
    hide Next;
    var w := [ESC] + s;
    assert w[0] == ESC && w[1] == ESC && w[1..] == s;
    EscapeBehindEscape(w);
  }

  lemma EscapeBehindEscape(w: Bytes)
    requires |w| > 1 && w[0] == ESC && w[1] == ESC
    ensures Next(w) == Keep
  {
    hide StringEnd, ControlEnd, OscQuery, DcsQuery, CsiQuery;
  }

  lemma NothingStripped()
    ensures Strip([]) == Stripped([], [])
  {
  }

  /** With an ESC in front of a query this is not so: removing the query makes another one out of what is around it. */
  lemma UncoveredQuery()
    ensures var s := [ESC, ESC, CSI, 0x36, 0x6e, CSI, 0x36, 0x6e];
            && Strip(s) == Stripped([ESC, CSI, 0x36, 0x6e], [])
            && Strip(Strip(s).clean) == Stripped([], [])
  {
    hide Strip;
    var query: Bytes := [ESC, CSI, 0x36, 0x6e];
    var rest: Bytes := [CSI, 0x36, 0x6e];
    NothingStripped();
    RequestGoes([]);
    RequestGoes(rest);
    PlainRun(rest, []);
    EscapeStays(query + rest);
    assert [ESC] + (query + rest) == [ESC, ESC, CSI, 0x36, 0x6e, CSI, 0x36, 0x6e];
    assert query + [] == query && rest + [] == rest && [ESC] + rest == query;
  }
}
