/** The query filter and the split scanner in the numbers of ECMA-48, and the promises of the repository's tests. */
module AnsiNumbers {
  import opened Bits
  import opened AnsiFilter
  import opened SafeSplit
  import opened Units
  import opened SplitPromise
  import Forms = ProtocolForms

  // ----- which bytes end a control sequence -----

  /** Parameter and intermediate bytes: columns 2 and 3. */
  predicate InnerBytes(ps: Bytes) {
    forall i :: 0 <= i < |ps| ==> 0x20 <= ps[i] <= 0x3f
  }

  lemma {:induction false} OpenControl(s: Bytes, k: nat)
    requires k <= |s| && forall i :: k <= i < |s| ==> s[i] < 0x40 || s[i] > 0x7e
    ensures ControlEnd(s, k) == Open
    decreases |s| - k
  {
    if k < |s| {
      OpenControl(s, k + 1);
    }
  }

  /** A control sequence is complete exactly when its last byte is in columns 4 to 7, DEL excepted. */
  lemma FinalBytes(ps: Bytes, b: byte)
    requires InnerBytes(ps) && 0x20 <= b <= 0x7e
    ensures Strip([0x1b, 0x5b] + ps + [b]).rest == [] <==> 0x40 <= b <= 0x7e
    ensures b < 0x40 ==> Strip([0x1b, 0x5b] + ps + [b]) == Stripped([], [0x1b, 0x5b] + ps + [b])
  {
    hide Strip, CsiQuery, OscQuery, DcsQuery;
    var s := [0x1b, 0x5b] + ps + [b];
    assert |s| == 3 + |ps| && s[0] == 0x1b && s[1] == 0x5b && s[2 + |ps|] == b;
    assert forall i :: 2 <= i < 2 + |ps| ==> s[i] == ps[i - 2];
    if b >= 0x40 {
      hide ControlEnd, Next;
      OneItem(Control(ps, b), []);
      NothingStripped();
      assert s + [] == s;
    } else {
      OpenControl(s, 2);
      hide ControlEnd;
      Waits(s);
    }
  }

  lemma Waits(s: Bytes)
    requires |s| > 0 && Next(s) == Wait
    ensures Strip(s) == Stripped([], s)
  {
  }

  /** The scanner ends a control sequence at the same bytes, and nowhere before. */
  lemma ScannerFinalBytes(ps: Bytes, b: byte, more: Bytes)
    requires InnerBytes(ps) && 0x20 <= b <= 0x7e
    ensures EscapeSeen([0x1b, 0x5b] + ps + [b] + more, 0) == End.At(3 + |ps|) <==> 0x40 <= b <= 0x7e
  {
    hide ControlEnd;
    var s := [0x1b, 0x5b] + ps + [b] + more;
    assert |s| == 3 + |ps| + |more| && s[0] == 0x1b && s[1] == 0x5b && s[2 + |ps|] == b;
    assert forall i :: 2 <= i < 2 + |ps| ==> s[i] == ps[i - 2];
    if b >= 0x40 {
      ControlEndsAt(s, 2, 2 + |ps|);
    } else {
      NotBefore(s, 2, 3 + |ps|);
    }
  }

  lemma {:induction false} NotBefore(s: Bytes, k: nat, n: nat)
    requires k <= n <= |s| && forall i :: k <= i < n ==> s[i] < 0x40 || s[i] > 0x7e
    ensures ControlEnd(s, k).At? ==> ControlEnd(s, k).pos > n
    decreases n - k
  {
    if k < n {
      NotBefore(s, k + 1, n);
    }
  }

  // ----- which bytes end a string -----

  lemma {:induction false} OpenString(s: Bytes, k: nat)
    requires k <= |s| && forall i :: k <= i < |s| ==> s[i] != 0x07 && s[i] != 0x1b
    ensures StringEnd(s, k) == Open
    decreases |s| - k
  {
    if k < |s| {
      OpenString(s, k + 1);
    }
  }

  /** An OSC or DCS is complete with BEL or ESC backslash, and not before. */
  lemma StringEnds(kind: byte, body: Bytes)
    requires kind == 0x5d || kind == 0x50
    requires forall i :: 0 <= i < |body| ==> body[i] != 0x07 && body[i] != 0x1b
    ensures Strip([0x1b, kind] + body) == Stripped([], [0x1b, kind] + body)
    ensures Strip([0x1b, kind] + body + [0x07]).rest == []
    ensures Strip([0x1b, kind] + body + [0x1b, 0x5c]).rest == []
  {
    hide Strip, OscQuery, DcsQuery, CsiQuery, StringEnd;
    var s := [0x1b, kind] + body;
    assert forall i :: 2 <= i < 2 + |body| ==> s[i] == body[i - 2];
    OpenString(s, 2);
    Waits(s);
    hide Next;
    NothingStripped();
    OneItem(Text(kind, body, true), []);
    OneItem(Text(kind, body, false), []);
    assert s + [0x07] + [] == s + [0x07] && s + [0x1b, 0x5c] + [] == s + [0x1b, 0x5c];
  }

  // ----- where text may be split -----

  lemma {:induction false} TextPoints(s: Bytes, i: nat, p: nat)
    requires i <= |s| && NoEscape(s)
    ensures p in SafePoints(s, i) <==> p == |s| || (i <= p < |s| && (s[p] < 0x80 || s[p] >= 0xc0))
    decreases |s| - i
  {
    hide EscapeEnd;
    if i < |s| {
      TextPoints(s, i + 1, p);
    }
  }

  /** Text without ESC is split at the last byte within the target that is not a continuation byte of UTF-8. */
  lemma SplitOfText(buf: Bytes, target: nat)
    requires NoEscape(buf) && target < |buf|
    ensures var r := SplitPoint(buf, target);
            && r <= target && (r == 0 || buf[r] < 0x80 || buf[r] >= 0xc0)
            && forall p :: r < p <= target ==> 0x80 <= buf[p] <= 0xbf
  {
    hide SplitPoint, SafePoints, Recordable;
    var r := SplitPoint(buf, target);
    SplitIsGreatest(buf, target);
    forall p: nat
      ensures Recordable(buf, 0, p) <==> p == |buf| || (p < |buf| && (buf[p] < 0x80 || buf[p] >= 0xc0))
    {
      SafePointIff(buf, 0, p);
      TextPoints(buf, 0, p);
    }
  }

  // ----- the terminal's units -----

  /** A character of UTF-8 is one unit, in both readings. */
  lemma CharacterIsUnit(r: Reading, c: Forms.Character, more: Bytes)
    requires c != 0x1b
    ensures UnitAt(r, Forms.Utf8(c) + more, 0) == End.At(|Forms.Utf8(c)|)
  {
    var s := Forms.Utf8(c) + more;
    if c < 0x80 {
      assert s[0] == c;
    } else if c < 0x800 {
      assert s[0] == 0xc0 + c / 0x40 && s[1] == 0x80 + c % 0x40;
    } else if c < 0x1_0000 {
      assert s[0] == 0xe0 + c / 0x1000 && s[1] == 0x80 + c / 0x40 % 0x40 && s[2] == 0x80 + c % 0x40;
      assert CharEnd(s, 2, 1) == End.At(3);
    } else {
      assert s[0] == 0xf0 + c / 0x4_0000 && s[1] == 0x80 + c / 0x1000 % 0x40;
      assert s[2] == 0x80 + c / 0x40 % 0x40 && s[3] == 0x80 + c % 0x40;
      assert CharEnd(s, 3, 1) == End.At(4);
    }
  }

  lemma {:induction false} IntermediatesPass(s: Bytes, k: nat, e: nat)
    requires k < e <= |s| && (forall i :: k <= i < e - 1 ==> 0x20 <= s[i] <= 0x2f) && 0x30 <= s[e - 1] <= 0x7e
    ensures EscapeStop(s, k) == End.At(e)
    decreases e - k
  {
    if k + 1 < e {
      IntermediatesPass(s, k + 1, e);
    }
  }

  /** An escape with intermediate bytes (column 2) ends behind its final byte for a terminal. */
  lemma EscapeWithIntermediates(ps: Bytes, b: byte, more: Bytes)
    requires ps != [] && (forall i :: 0 <= i < |ps| ==> 0x20 <= ps[i] <= 0x2f) && 0x30 <= b <= 0x7e
    ensures Sequence([0x1b] + ps + [b] + more, 0) == End.At(2 + |ps|)
    ensures EscapeSeen([0x1b] + ps + [b] + more, 0) == End.At(2)
  {
    var s := [0x1b] + ps + [b] + more;
    assert s[0] == 0x1b && s[1] == ps[0] && s[1 + |ps|] == b;
    assert forall i :: 1 <= i < 1 + |ps| ==> s[i] == ps[i - 1];
    IntermediatesPass(s, 1, 2 + |ps|);
  }

  lemma {:induction false} BodyPasses(s: Bytes, k: nat, n: nat)
    requires k <= n < |s| && forall i :: k <= i < n ==> s[i] != 0x07 && s[i] != 0x1b
    ensures s[n] == 0x07 ==> StringStop(s, k) == End.At(n + 1)
    ensures n + 1 < |s| && s[n] == 0x1b && s[n + 1] == 0x5c ==> StringStop(s, k) == End.At(n + 2)
    decreases n - k
  {
    if k < n {
      BodyPasses(s, k + 1, n);
    }
  }

  /** To a terminal DCS, SOS, OSC, PM and APC run up to BEL or ESC backslash; the scanner knows OSC only. */
  lemma StringUnits(kind: byte, body: Bytes, more: Bytes)
    requires kind == 0x50 || kind == 0x58 || kind == 0x5d || kind == 0x5e || kind == 0x5f
    requires forall i :: 0 <= i < |body| ==> body[i] != 0x07 && body[i] != 0x1b
    ensures Sequence([0x1b, kind] + body + [0x07] + more, 0) == End.At(3 + |body|)
    ensures Sequence([0x1b, kind] + body + [0x1b, 0x5c] + more, 0) == End.At(4 + |body|)
    ensures kind != 0x5d ==> EscapeSeen([0x1b, kind] + body + [0x07] + more, 0) == End.At(2)
  {
    hide StringStop;
    var s := [0x1b, kind] + body + [0x07] + more;
    var t := [0x1b, kind] + body + [0x1b, 0x5c] + more;
    assert forall i :: 2 <= i < 2 + |body| ==> s[i] == body[i - 2] && t[i] == body[i - 2];
    assert s[2 + |body|] == 0x07 && t[2 + |body|] == 0x1b && t[3 + |body|] == 0x5c;
    BodyPasses(s, 2, 2 + |body|);
    BodyPasses(t, 2, 2 + |body|);
  }

  // ----- the promises of the tests -----

  /** A complete query in front of anything goes. */
  lemma QueryGoes(t: Item, s: Bytes)
    requires WellFormed(t) && Query(t)
    ensures Strip(Print(t) + s) == Strip(s)
  {
    hide WellFormed, Query, Print, Strip;
    OneItem(t, s);
  }

  lemma ControlGoes(ps: Bytes, f: byte, s: Bytes)
    requires InnerBytes(ps) && 0x40 <= f <= 0x7e && ControlIsQuery(ps, f)
    ensures Strip([0x1b, 0x5b] + ps + [f] + s) == Strip(s)
  {
    hide Strip, Query, ControlIsQuery;
    ControlQueryIff(ps, f);
    QueryGoes(Control(ps, f), s);
  }

  lemma OscGoes(body: Bytes, bel: bool, s: Bytes)
    requires (forall i :: 0 <= i < |body| ==> body[i] != 0x07 && body[i] != 0x1b) && TextIsQuery(0x5d, body)
    ensures Strip([0x1b, 0x5d] + body + (if bel then [0x07] else [0x1b, 0x5c]) + s) == Strip(s)
  {
    hide Strip, Query, TextIsQuery;
    TextQueryIff(0x5d, body, bel);
    QueryGoes(Text(0x5d, body, bel), s);
  }

  /** The twelve listed control sequences go, */
  lemma ListedControls(ps: Bytes, f: byte)
    requires (f == 0x63 && ps in [[], [0x30], [0x3f], [0x3e], [0x3e, 0x30], [0x3e, 0x31], [0x3d], [0x3d, 0x30]])
          || (f == 0x71 && ps in [[], [0x3e]]) || (f == 0x6e && ps in [[0x36], [0x3f, 0x36]])
    ensures Strip([0x1b, 0x5b] + ps + [f]) == Stripped([], [])
  {
    hide Strip, ControlIsQuery, InnerBytes;
    var s := [0x1b, 0x5b] + ps + [f];
    ListedParts(ps, f);
    ControlGoes(ps, f, []);
    NothingStripped();
    assert s + [] == s;
  }

  lemma ListedParts(ps: Bytes, f: byte)
    requires (f == 0x63 && ps in [[], [0x30], [0x3f], [0x3e], [0x3e, 0x30], [0x3e, 0x31], [0x3d], [0x3d, 0x30]])
          || (f == 0x71 && ps in [[], [0x3e]]) || (f == 0x6e && ps in [[0x36], [0x3f, 0x36]])
    ensures InnerBytes(ps) && ControlIsQuery(ps, f)
  {
  }

  /** and so does every private one that ends in c or n; */
  lemma PrivateControls(ps: Bytes, f: byte)
    requires InnerBytes(ps) && (f == 0x63 || f == 0x6e)
    ensures Strip([0x1b, 0x5b] + ([0x3f] + ps) + [f]) == Stripped([], [])
  {
    hide Strip;
    ControlGoes([0x3f] + ps, f, []);
    NothingStripped();
    assert [0x1b, 0x5b] + ([0x3f] + ps) + [f] + [] == [0x1b, 0x5b] + ([0x3f] + ps) + [f];
  }

  /** those with another final byte than c, n and q stay. */
  lemma OtherControls(ps: Bytes, f: byte)
    requires InnerBytes(ps) && 0x40 <= f <= 0x7e && f != 0x63 && f != 0x6e && f != 0x71
    ensures Strip([0x1b, 0x5b] + ps + [f]) == Stripped([0x1b, 0x5b] + ps + [f], [])
  {
    hide Strip, Query;
    ControlQueryIff(ps, f);
    OneItem(Control(ps, f), []);
    NothingStripped();
    var s := [0x1b, 0x5b] + ps + [f];
    assert s + [] == s;
  }

  /** Palette and colour requests go, whatever they end with, as does any OSC with a question mark and any DCS with a dollar sign. */
  lemma ListedStrings(kind: byte, body: Bytes, bel: bool)
    requires forall i :: 0 <= i < |body| ==> body[i] != 0x07 && body[i] != 0x1b
    requires || (kind == 0x5d && |body| >= 2 && body[0] == 0x34 && body[1] == 0x3b)
             || (kind == 0x5d && |body| >= 3 && body[0] == 0x31 && 0x30 <= body[1] <= 0x32 && body[2] == 0x3b)
             || (kind == 0x5d && 0x3f in body)
             || (kind == 0x50 && 0x24 in body)
    ensures Strip([0x1b, kind] + body + (if bel then [0x07] else [0x1b, 0x5c])) == Stripped([], [])
  {
    hide Strip, Query;
    assert kind == 0x5d && |body| >= 3 && body[0] == 0x31 ==> body[..3] == [0x31, body[1], body[2]];
    TextQueryIff(kind, body, bel);
    QueryGoes(Text(kind, body, bel), []);
    NothingStripped();
    var s := [0x1b, kind] + body + (if bel then [0x07] else [0x1b, 0x5c]);
    assert s + [] == s;
  }

  /** Device attributes and cursor position between text: Hello, World, ! and Test are what is left. */
  lemma DeviceQueriesGo(hello: Bytes, world: Bytes, mark: Bytes, test: Bytes)
    requires NoEscape(hello) && NoEscape(world) && NoEscape(mark) && NoEscape(test)
    ensures Strip(hello + ([0x1b, 0x5b, 0x63] + (world + ([0x1b, 0x5b, 0x36, 0x6e]
                  + (mark + ([0x1b, 0x5b, 0x3e, 0x30, 0x63] + test)))))) ==
            Stripped(hello + (world + (mark + test)), [])
  {
    hide Strip;
    NothingStripped();
    var s3 := [0x1b, 0x5b, 0x3e, 0x30, 0x63] + test;
    var s2 := [0x1b, 0x5b, 0x36, 0x6e] + (mark + s3);
    assert [0x1b, 0x5b] + [0x3e, 0x30] + [0x63] == [0x1b, 0x5b, 0x3e, 0x30, 0x63];
    assert [0x1b, 0x5b] + [0x36] + [0x6e] == [0x1b, 0x5b, 0x36, 0x6e];
    assert [0x1b, 0x5b] + [] + [0x63] == [0x1b, 0x5b, 0x63];
    assert test + [] == test;
    PlainRun(test, []);
    ControlGoes([0x3e, 0x30], 0x63, test);
    PlainRun(mark, s3);
    ControlGoes([0x36], 0x6e, mark + s3);
    PlainRun(world, s2);
    ControlGoes([], 0x63, world + s2);
    PlainRun(hello, [0x1b, 0x5b, 0x63] + (world + s2));
  }

  /** Colour queries, one ended by BEL, one by ESC backslash. */
  lemma ColourQueriesGo(prefix: Bytes, middle: Bytes, suffix: Bytes)
    requires NoEscape(prefix) && NoEscape(middle) && NoEscape(suffix)
    ensures Strip(prefix + ([0x1b, 0x5d, 0x31, 0x30, 0x3b, 0x3f, 0x07]
                  + (middle + ([0x1b, 0x5d, 0x31, 0x31, 0x3b, 0x3f, 0x1b, 0x5c] + suffix)))) ==
            Stripped(prefix + (middle + suffix), [])
  {
    hide Strip;
    NothingStripped();
    var s2 := [0x1b, 0x5d, 0x31, 0x31, 0x3b, 0x3f, 0x1b, 0x5c] + suffix;
    assert [0x1b, 0x5d] + [0x31, 0x31, 0x3b, 0x3f] + [0x1b, 0x5c] == [0x1b, 0x5d, 0x31, 0x31, 0x3b, 0x3f, 0x1b, 0x5c];
    assert [0x1b, 0x5d] + [0x31, 0x30, 0x3b, 0x3f] + [0x07] == [0x1b, 0x5d, 0x31, 0x30, 0x3b, 0x3f, 0x07];
    assert suffix + [] == suffix;
    PlainRun(suffix, []);
    OscGoes([0x31, 0x31, 0x3b, 0x3f], false, suffix);
    PlainRun(middle, s2);
    OscGoes([0x31, 0x30, 0x3b, 0x3f], true, middle + s2);
    PlainRun(prefix, [0x1b, 0x5d, 0x31, 0x30, 0x3b, 0x3f, 0x07] + (middle + s2));
  }

  /** A sequence of which the end has not come is held back. */
  lemma PartIsHeld(text: Bytes)
    requires NoEscape(text)
    ensures Strip(text + [0x1b, 0x5b, 0x36]) == Stripped(text, [0x1b, 0x5b, 0x36])
  {
    hide Strip;
    FinalBytes([], 0x36);
    assert [0x1b, 0x5b] + [] + [0x36] == [0x1b, 0x5b, 0x36];
    PlainRun(text, [0x1b, 0x5b, 0x36]);
    assert text + [] == text;
  }
}
