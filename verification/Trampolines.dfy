/**
 Make32to64Jmp (common/memory.c): alignment padding of the text segment becomes a 14-byte stub, and the source
 site a 5-byte jump to it. Installed hooks survive every later call.
 */
module Trampolines {
  import opened Bytes
  import opened Memory
  import opened Table64
  import opened Patterns
  import opened Jumps

  const UD2_TEXT: string := "0f 0b 90 90 90 90 90 90 " + "90 90 90 90 90 90 90 90"
  const RET_TEXT: string := "c3 66 66 66 66 66 66 2e " + "0f 1f 84 00 00 00 00 00"

  /** ud2 and fourteen nops; the padding starts at offset 2. */
  const UD2_PADDING: seq<byte> :=
    [0x0f, 0x0b, 0x90, 0x90, 0x90, 0x90, 0x90, 0x90, 0x90, 0x90, 0x90, 0x90, 0x90, 0x90, 0x90, 0x90]

  /** ret and one fifteen-byte nop; the padding starts at offset 1. */
  const RET_PADDING: seq<byte> :=
    [0xc3, 0x66, 0x66, 0x66, 0x66, 0x66, 0x66, 0x2e, 0x0f, 0x1f, 0x84, 0, 0, 0, 0, 0]

  lemma Ud2Tokens(i: nat)
    requires i < 8
    ensures HexTokenIs(UD2_TEXT, i, UD2_PADDING[i])
  {
  }

  lemma Ud2LaterTokens(i: nat)
    requires 8 <= i < 16
    ensures HexTokenIs(UD2_TEXT, i, UD2_PADDING[i])
  {
  }

  lemma Ud2Signature()
    ensures PatternBytes(UD2_TEXT, 0) == UD2_PADDING
  {
    hide HexTokenIs, PatternBytes;
    forall i | 0 <= i < 16 ensures HexTokenIs(UD2_TEXT, i, UD2_PADDING[i]) {
      if i < 8 { Ud2Tokens(i); } else { Ud2LaterTokens(i); }
    }
    HexPattern(UD2_TEXT, 0, UD2_PADDING);
  }

  lemma RetTokens(i: nat)
    requires i < 8
    ensures HexTokenIs(RET_TEXT, i, RET_PADDING[i])
  {
  }

  lemma RetLaterTokens(i: nat)
    requires 8 <= i < 16
    ensures HexTokenIs(RET_TEXT, i, RET_PADDING[i])
  {
  }

  lemma RetSignature()
    ensures PatternBytes(RET_TEXT, 0) == RET_PADDING
  {
    hide HexTokenIs, PatternBytes;
    forall i | 0 <= i < 16 ensures HexTokenIs(RET_TEXT, i, RET_PADDING[i]) {
      if i < 8 { RetTokens(i); } else { RetLaterTokens(i); }
    }
    HexPattern(RET_TEXT, 0, RET_PADDING);
  }

  // ------------------------------------------------------------------ one call

  /** The arguments of one Make32to64Jmp call on a fixed text segment. */
  datatype Site = Site(src: Addr, dst: Addr, srclen: Addr, call: bool)

  /** jmparea: ud2 padding first, ret padding second, 0 if the segment has neither. */
  function FindPadding(m: Mem, base: Addr, size: nat): Addr {
    var area := Scan(m, base, size, UD2_PADDING, 2);
    if area != 0 then area else Scan(m, base, size, RET_PADDING, 1)
  }

  /** Memory after Make32to64Jmp. */
  function Installed(m: Mem, base: Addr, size: nat, site: Site): Mem {
    var area := FindPadding(m, base, size);
    if area == 0 then m
    else WriteJump64(WriteJump32(m, site.src, area, site.srclen, site.call), area, site.dst)
  }

  /** A hook that was installed: src jumps to area, area jumps to dst. */
  datatype Trampoline = Trampoline(src: Addr, area: Addr, dst: Addr, call: bool)

  ghost predicate Intact(m: Mem, h: Trampoline) {
    JumpAt(m, h.src, h.area, h.call) && StubAt(m, h.area, h.dst)
  }

  const MAX_TEXT: nat := 0x4000_0000
  const USER_SPACE: nat := 0x1_0000_0000_0000

  /** A text segment of at most 2^30 bytes that does not wrap around the address space. */
  predicate ValidText(base: Addr, size: nat) {
    0 < base && size <= MAX_TEXT && base + size + 16 <= W
  }

  /** The hook lies where Make32to64Jmp on this segment can put it. */
  predicate Placed(base: Addr, size: nat, h: Trampoline) {
    && base <= h.src < base + size && h.src + JMP_CALL_BYTES <= W
    && base < h.area < base + size + 2 && h.dst < USER_SPACE
  }

  // ---------------------------------------------------------------- freshness

  /** The window at w matches the pattern, byte by byte. */
  ghost predicate Window(m: Mem, w: int, pattern: seq<byte>) {
    0 <= w && w + |pattern| <= W && forall j :: 0 <= j < |pattern| ==> m(w + j) == pattern[j]
  }

  lemma FoundWindow(m: Mem, base: Addr, size: nat, pattern: seq<byte>, offset: nat)
    requires ValidText(base, size) && 0 < |pattern| <= 16 && offset <= 2 && Scan(m, base, size, pattern, offset) != 0
    requires forall b :: b in pattern ==> b != 0xff
    ensures var area := Scan(m, base, size, pattern, offset);
            base + offset <= area < base + size + offset && Window(m, area - offset, pattern)
  {
    var i := FirstMatch(m, base, 0, size, pattern);
    assert MatchesAt(m, base, i, pattern);
    assert Plus(base, i + offset) == base + i + offset;
    forall j | 0 <= j < |pattern| ensures m(base + i + j) == pattern[j] {
      assert pattern[j] in pattern;
      assert Plus(base, i + j) == base + i + j;
    }
  }

  lemma UserSpaceBytes()
    ensures USER_SPACE < Pow256(7)
  {
    WordSizes();
    assert Pow256(8) == 256 * Pow256(7);
  }

  /** The bytes of a stub that no padding contains: it begins with FF and ends with a zero. */
  lemma StubEnds(m: Mem, a: Addr, dst: Addr)
    requires StubAt(m, a, dst) && dst < USER_SPACE && a + STUB_SIZE <= W
    ensures m(a) == 0xff && m(a + 1) == 0x25 && m(a + 2) == 0 && m(a + 13) == 0
  {
    var head, tail := Read(m, a, 6), Read(m, Plus(a, 6), 8);
    assert m(Plus(a, 0)) == head[0] && m(Plus(a, 1)) == head[1] && m(Plus(a, 2)) == head[2];
    assert m(Plus(Plus(a, 6), 7)) == tail[7];
    UserSpaceBytes();
    TopByteZero(dst, 8);
    assert Plus(a, 0) == a && Plus(a, 1) == a + 1 && Plus(a, 2) == a + 2 && Plus(Plus(a, 6), 7) == a + 13;
  }

  lemma {:induction false} TopByteZero(v: nat, n: nat)
    requires n > 0 && v < Pow256(n - 1)
    ensures LeBytes(v, n)[n - 1] == 0
    decreases n
  {
    if n > 1 {
      assert LeBytes(v, n)[1..] == LeBytes(v / 256, n - 1);
      TopByteZero(v / 256, n - 1);
    }
  }

  /** The last displacement byte of a short jump: 00..40 forwards, bf..ff backwards. */
  lemma JumpEnds(m: Mem, base: Addr, size: nat, h: Trampoline)
    requires ValidText(base, size) && Placed(base, size, h) && JumpAt(m, h.src, h.area, h.call)
    ensures m(h.src) == 0xe8 || m(h.src) == 0xe9
    ensures m(h.src + 4) <= 0x40 || m(h.src + 4) >= 0xbf
    ensures InReach(h.src, h.area)
  {
    hide Relative32, InReach, Read, LeBytes;
    ShortDistance(h.src, h.area);
    var v := Relative32(h.src, h.area);
    var rel := Read(m, Plus(h.src, 1), 4);
    assert m(Plus(Plus(h.src, 1), 3)) == rel[3];
    PlusPlus(h.src, 1, 3);
    LastByte(v);
  }

  /** Within a segment the distance fits, and its top byte is small or close to 255. */
  lemma ShortDistance(src: Addr, area: Addr)
    requires -0x4000_0005 <= area - src - JMP_CALL_BYTES < MAX_TEXT
    ensures InReach(src, area)
    ensures var v := Relative32(src, area); v < 0x4000_0000 || 0xbfff_fffb <= v < 0x1_0000_0000
  {
    var d := area - src - JMP_CALL_BYTES;
    assert Relative32(src, area) == if d >= 0 then d else d + 0x1_0000_0000;
  }

  lemma LastByte(v: nat)
    ensures LeBytes(v, 4)[3] == v / 0x100_0000 % 256
  {
    assert LeBytes(v, 4)[1..] == LeBytes(v / 256, 3);
    assert LeBytes(v / 256, 3)[1..] == LeBytes(v / 256 / 256, 2);
    assert LeBytes(v / 256 / 256, 2)[1..] == LeBytes(v / 256 / 256 / 256, 1);
    assert LeBytes(v, 4)[3] == LeBytes(v, 4)[1..][2] == LeBytes(v / 256, 3)[1..][1]
        == LeBytes(v / 256 / 256, 2)[1..][0];
  }

  /** Ranges that do not wrap are apart when one ends before the other begins. */
  lemma ApartRanges(a: Addr, n: nat, b: Addr, k: nat)
    requires a + n <= W && b + k <= W && (a + n <= b || b + k <= a)
    ensures Apart(a, n, b, k)
  {
  }

  lemma Ud2PaddingFresh(m: Mem, w: int, base: Addr, size: nat, h: Trampoline)
    requires ValidText(base, size) && Placed(base, size, h) && Intact(m, h) && Window(m, w, UD2_PADDING)
    ensures w + 2 + STUB_SIZE <= h.area || h.area + STUB_SIZE <= w + 2
    ensures w + 2 + STUB_SIZE <= h.src || h.src + JMP_CALL_BYTES <= w + 2
  {
    StubEnds(m, h.area, h.dst);
    JumpEnds(m, base, size, h);
    forall x | w + 2 <= x < w + 16 ensures m(x) == 0x90 {
      assert m(w + (x - w)) == UD2_PADDING[x - w];
    }
  }

  lemma RetPaddingBytes(m: Mem, w: int)
    requires Window(m, w, RET_PADDING)
    ensures m(w) == 0xc3
    ensures forall x :: w + 1 <= x <= w + 6 ==> m(x) == 0x66
    ensures forall x :: w + 1 <= x < w + 16 ==> m(x) != 0xff && m(x) != 0xe8 && m(x) != 0xe9
    ensures forall x :: w + 1 <= x < w + 11 ==> m(x) != 0
  {
    forall x | w <= x < w + 16 ensures m(x) == RET_PADDING[x - w] {
      assert m(w + (x - w)) == RET_PADDING[x - w];
    }
  }

  lemma RetPaddingFresh(m: Mem, w: int, base: Addr, size: nat, h: Trampoline)
    requires ValidText(base, size) && Placed(base, size, h) && Intact(m, h) && Window(m, w, RET_PADDING)
    ensures w + 1 + STUB_SIZE <= h.area || h.area + STUB_SIZE <= w + 1
    ensures w + 1 + STUB_SIZE <= h.src || h.src + JMP_CALL_BYTES <= w + 1
  {
    StubEnds(m, h.area, h.dst);
    JumpEnds(m, base, size, h);
    RetPaddingBytes(m, w);
  }

  /** The padding a call selects overlaps no installed stub and no installed source jump. */
  lemma PaddingFresh(m: Mem, base: Addr, size: nat, h: Trampoline)
    requires ValidText(base, size) && Placed(base, size, h) && Intact(m, h) && FindPadding(m, base, size) != 0
    ensures var area := FindPadding(m, base, size);
            && base < area < base + size + 2 && area + STUB_SIZE <= W
            && Apart(area, STUB_SIZE, h.area, STUB_SIZE) && Apart(area, STUB_SIZE, h.src, JMP_CALL_BYTES)
  {
    hide Intact, Window, Apart, Scan;
    var area := FindPadding(m, base, size);
    if Scan(m, base, size, UD2_PADDING, 2) != 0 {
      FoundWindow(m, base, size, UD2_PADDING, 2);
      Ud2PaddingFresh(m, area - 2, base, size, h);
    } else {
      FoundWindow(m, base, size, RET_PADDING, 1);
      RetPaddingFresh(m, area - 1, base, size, h);
    }
    ApartRanges(area, STUB_SIZE, h.area, STUB_SIZE);
    ApartRanges(area, STUB_SIZE, h.src, JMP_CALL_BYTES);
  }

  // ------------------------------------------------------------- which padding

  /** Is w the place of the first window of the segment that holds the pattern? */
  ghost predicate FirstWindow(m: Mem, base: Addr, size: nat, pattern: seq<byte>, w: int) {
    && base <= w < base + size && Window(m, w, pattern)
    && forall v :: base <= v < w ==> !Window(m, v, pattern)
  }

  lemma PlaceIsWindow(m: Mem, base: Addr, size: nat, pattern: seq<byte>, i: nat)
    requires base + size + 16 <= W && 0 < |pattern| <= 16 && forall b :: b in pattern ==> b != 0xff
    ensures FirstPlace(m, base, size, pattern, i) <==> FirstWindow(m, base, size, pattern, base + i)
  {
    hide Window, Differs;
    forall k: nat | k < size ensures Differs(m, base, k, pattern) <==> !Window(m, base + k, pattern) {
      DiffersFromWindow(m, base, pattern, k);
    }
    if i < size {
      WindowsBefore(m, base, size, pattern, i);
    }
  }

  lemma WindowsBefore(m: Mem, base: Addr, size: nat, pattern: seq<byte>, i: nat)
    requires i < size && forall k: nat :: k < size ==> (Differs(m, base, k, pattern) <==> !Window(m, base + k, pattern))
    ensures (forall k :: 0 <= k < i ==> Differs(m, base, k, pattern)) <==>
            (forall v :: base <= v < base + i ==> !Window(m, v, pattern))
  {
    hide Window, Differs;
    if forall k :: 0 <= k < i ==> Differs(m, base, k, pattern) {
      forall v | base <= v < base + i ensures !Window(m, v, pattern) {
        assert Differs(m, base, v - base, pattern);
      }
    }
  }

  lemma DiffersFromWindow(m: Mem, base: Addr, pattern: seq<byte>, k: nat)
    requires base + k + 16 <= W && |pattern| <= 16 && forall b :: b in pattern ==> b != 0xff
    ensures Differs(m, base, k, pattern) <==> !Window(m, base + k, pattern)
  {
    forall j | 0 <= j < |pattern| ensures Plus(base, k + j) == base + k + j && pattern[j] != 0xff {
      assert pattern[j] in pattern;
    }
  }

  lemma {:induction false} FirstOfWindows(m: Mem, base: Addr, size: nat, pattern: seq<byte>, w: int)
    requires base <= w < base + size && Window(m, w, pattern)
    ensures exists v :: FirstWindow(m, base, size, pattern, v)
    decreases w - base
  {
    hide Window;
    if v :| base <= v < w && Window(m, v, pattern) {
      FirstOfWindows(m, base, size, pattern, v);
    } else {
      assert FirstWindow(m, base, size, pattern, w);
    }
  }

  lemma NoWildcards()
    ensures |UD2_PADDING| == 16 == |RET_PADDING|
    ensures forall b :: b in UD2_PADDING || b in RET_PADDING ==> b != 0xff
  {
  }

  /** The scan for a pattern without wildcards, on a segment that does not wrap around. */
  lemma ScanIsWindow(m: Mem, base: Addr, size: nat, pattern: seq<byte>, offset: nat)
    requires 0 < base && base + size + 16 <= W && 0 < |pattern| <= 16 && offset <= 2
    requires forall b :: b in pattern ==> b != 0xff
    ensures var area := Scan(m, base, size, pattern, offset);
            if exists w :: FirstWindow(m, base, size, pattern, w) then
              FirstWindow(m, base, size, pattern, area - offset)
            else area == 0
  {
    hide Scan, FirstPlace, FirstWindow, Window, Differs;
    ScanFindsFirst(m, base, size, pattern, offset);
    forall i: nat ensures FirstPlace(m, base, size, pattern, i) <==> FirstWindow(m, base, size, pattern, base + i) {
      PlaceIsWindow(m, base, size, pattern, i);
    }
    if w :| FirstWindow(m, base, size, pattern, w) {
      assert base <= w < base + size by { WindowInside(m, base, size, pattern, w); }
      assert FirstPlace(m, base, size, pattern, w - base);
      assert Plus(base, w - base + offset) == w + offset;
    } else {
      forall i: nat | i < size ensures Differs(m, base, i, pattern) {
        if !Differs(m, base, i, pattern) {
          DiffersFromWindow(m, base, pattern, i);
          FirstOfWindows(m, base, size, pattern, base + i);
        }
      }
    }
  }

  lemma WindowInside(m: Mem, base: Addr, size: nat, pattern: seq<byte>, w: int)
    requires FirstWindow(m, base, size, pattern, w)
    ensures base <= w < base + size
  {
  }

  /** Does the segment hold the pattern somewhere? */
  ghost predicate Holds(m: Mem, base: Addr, size: nat, pattern: seq<byte>) {
    exists w :: base <= w < base + size && Window(m, w, pattern)
  }

  lemma HoldsFirst(m: Mem, base: Addr, size: nat, pattern: seq<byte>)
    ensures Holds(m, base, size, pattern) <==> exists w :: FirstWindow(m, base, size, pattern, w)
  {
    hide Window;
    if Holds(m, base, size, pattern) {
      var w :| base <= w < base + size && Window(m, w, pattern);
      FirstOfWindows(m, base, size, pattern, w);
    }
  }

  // ----------------------------------------------------------------- all calls

  /** Memory and the hooks installed so far. */
  datatype Segment = Segment(m: Mem, hooks: seq<Trampoline>)

  /** One call: nothing happens when the segment has no padding left. */
  function Install(s: Segment, base: Addr, size: nat, site: Site): Segment {
    var area := FindPadding(s.m, base, size);
    if area == 0 then s
    else Segment(Installed(s.m, base, size, site), s.hooks + [Trampoline(site.src, area, site.dst, site.call)])
  }

  /**
   A call adds a trampoline if and only if the segment holds one of the two signatures. It takes the first window of ud2
   padding and, without any, the first of ret padding; its stub starts two bytes, or one, behind the window's start.
   */
  lemma InstallIff(s: Segment, base: Addr, size: nat, site: Site)
    requires 0 < base && base + size + 16 <= W
    ensures var s' := Install(s, base, size, site);
            if Holds(s.m, base, size, UD2_PADDING) then
              && |s'.hooks| == |s.hooks| + 1 && s'.hooks[..|s.hooks|] == s.hooks
              && FirstWindow(s.m, base, size, UD2_PADDING, s'.hooks[|s.hooks|].area - 2)
              && s'.hooks[|s.hooks|] == Trampoline(site.src, s'.hooks[|s.hooks|].area, site.dst, site.call)
            else if Holds(s.m, base, size, RET_PADDING) then
              && |s'.hooks| == |s.hooks| + 1 && s'.hooks[..|s.hooks|] == s.hooks
              && FirstWindow(s.m, base, size, RET_PADDING, s'.hooks[|s.hooks|].area - 1)
              && s'.hooks[|s.hooks|] == Trampoline(site.src, s'.hooks[|s.hooks|].area, site.dst, site.call)
            else s' == s
  {
    hide Scan, FirstWindow, Holds, Installed, UD2_PADDING, RET_PADDING;
    NoWildcards();
    ScanIsWindow(s.m, base, size, UD2_PADDING, 2);
    ScanIsWindow(s.m, base, size, RET_PADDING, 1);
    HoldsFirst(s.m, base, size, UD2_PADDING);
    HoldsFirst(s.m, base, size, RET_PADDING);
    forall pattern, w | FirstWindow(s.m, base, size, pattern, w) ensures base <= w {
      WindowInside(s.m, base, size, pattern, w);
    }
  }

  /** Every hook is in place and works, and no stub overlaps another stub or a source jump. */
  ghost predicate Working(s: Segment, base: Addr, size: nat) {
    && (forall h :: h in s.hooks ==> Placed(base, size, h) && Intact(s.m, h))
    && (forall i, j :: 0 <= i < |s.hooks| && 0 <= j < |s.hooks| && i != j ==>
          && Apart(s.hooks[i].area, STUB_SIZE, s.hooks[j].area, STUB_SIZE)
          && Apart(s.hooks[i].area, STUB_SIZE, s.hooks[j].src, JMP_CALL_BYTES))
  }

  /**
   What a caller must respect: the patched site is code of the segment, disjoint from the jumps and stubs installed
   so far and from the padding this call is about to use, and the destination is a user-space address.
   */
  ghost predicate Admissible(s: Segment, base: Addr, size: nat, site: Site) {
    && base <= site.src && site.src + JMP_CALL_BYTES <= base + size && site.srclen >= JMP_CALL_BYTES
    && site.dst < USER_SPACE
    && Apart(site.src, PatchSize(site.srclen), FindPadding(s.m, base, size), STUB_SIZE)
    && (forall h :: h in s.hooks ==>
          && Apart(site.src, PatchSize(site.srclen), h.src, JMP_CALL_BYTES)
          && Apart(site.src, PatchSize(site.srclen), h.area, STUB_SIZE))
  }

  /** A memory that agrees on a hook's bytes still holds the hook. */
  lemma IntactFrame(m: Mem, m': Mem, h: Trampoline)
    requires Intact(m, h) && SameAt(m, m', h.src, JMP_CALL_BYTES) && SameAt(m, m', h.area, STUB_SIZE)
    ensures Intact(m', h)
  {
    assert Plus(h.src, 0) == h.src;
    assert Read(m', Plus(h.src, 1), 4) == Read(m, Plus(h.src, 1), 4) by {
      forall i | 0 <= i < 4 ensures m'(Plus(Plus(h.src, 1), i)) == m(Plus(Plus(h.src, 1), i)) {
        PlusPlus(h.src, 1, i);
      }
    }
    assert Read(m', h.area, 6) == Read(m, h.area, 6);
    assert Read(m', Plus(h.area, 6), 8) == Read(m, Plus(h.area, 6), 8) by {
      forall i | 0 <= i < 8 ensures m'(Plus(Plus(h.area, 6), i)) == m(Plus(Plus(h.area, 6), i)) {
        PlusPlus(h.area, 6, i);
      }
    }
  }

  /** The new hook is in place. */
  lemma NewHook(m: Mem, base: Addr, size: nat, site: Site)
    requires ValidText(base, size) && FindPadding(m, base, size) != 0 && site.src != 0 && site.srclen >= JMP_CALL_BYTES
    requires Apart(site.src, PatchSize(site.srclen), FindPadding(m, base, size), STUB_SIZE)
    ensures var h := Trampoline(site.src, FindPadding(m, base, size), site.dst, site.call);
            Intact(Installed(m, base, size, site), h)
  {
    hide FindPadding, WriteJump32, WriteJump64;
    var area := FindPadding(m, base, size);
    var m1 := WriteJump32(m, site.src, area, site.srclen, site.call);
    Jump32Written(m, site.src, area, site.srclen, site.call);
    Jump64Written(m1, area, site.dst);
    ApartPart(site.src, PatchSize(site.srclen), area, STUB_SIZE, 0, JMP_CALL_BYTES);
    assert Plus(site.src, 0) == site.src;
    ApartSymmetric(site.src, JMP_CALL_BYTES, area, STUB_SIZE);
    Jump64Frame(m1, area, site.dst, site.src, JMP_CALL_BYTES);
    JumpFrame(m1, WriteJump64(m1, area, site.dst), site.src, area, site.call);
  }

  lemma JumpFrame(m: Mem, m': Mem, src: Addr, dst: Addr, call: bool)
    requires JumpAt(m, src, dst, call) && SameAt(m, m', src, JMP_CALL_BYTES)
    ensures JumpAt(m', src, dst, call)
  {
    assert Plus(src, 0) == src;
    forall i | 0 <= i < 4 ensures m'(Plus(Plus(src, 1), i)) == m(Plus(Plus(src, 1), i)) {
      PlusPlus(src, 1, i);
    }
    assert Read(m', Plus(src, 1), 4) == Read(m, Plus(src, 1), 4);
  }

  /** An installed hook survives a later call. */
  lemma OldHook(m: Mem, base: Addr, size: nat, site: Site, h: Trampoline)
    requires ValidText(base, size) && Placed(base, size, h) && Intact(m, h) && FindPadding(m, base, size) != 0
    requires Apart(site.src, PatchSize(site.srclen), h.src, JMP_CALL_BYTES)
    requires Apart(site.src, PatchSize(site.srclen), h.area, STUB_SIZE)
    ensures Intact(Installed(m, base, size, site), h)
  {
    hide FindPadding, WriteJump32, WriteJump64, Intact, Placed, Apart;
    var area := FindPadding(m, base, size);
    var m1 := WriteJump32(m, site.src, area, site.srclen, site.call);
    PaddingFresh(m, base, size, h);
    Jump32Frame(m, site.src, area, site.srclen, site.call, h.src, JMP_CALL_BYTES);
    Jump32Frame(m, site.src, area, site.srclen, site.call, h.area, STUB_SIZE);
    IntactFrame(m, m1, h);
    Jump64Frame(m1, area, site.dst, h.src, JMP_CALL_BYTES);
    Jump64Frame(m1, area, site.dst, h.area, STUB_SIZE);
    IntactFrame(m1, WriteJump64(m1, area, site.dst), h);
  }

  /** A call keeps every installed hook, adds at most one, and the new stub is fresh. */
  lemma InstallKeepsWorking(s: Segment, base: Addr, size: nat, site: Site)
    requires ValidText(base, size) && Working(s, base, size) && Admissible(s, base, size, site)
    ensures Working(Install(s, base, size, site), base, size)
    ensures s.hooks <= Install(s, base, size, site).hooks
  {
    var area := FindPadding(s.m, base, size);
    if area != 0 {
      hide FindPadding, Intact, Apart, Installed;
      var s' := Install(s, base, size, site);
      var added := Trampoline(site.src, area, site.dst, site.call);
      NewHook(s.m, base, size, site);
      PaddingPlaced(s.m, base, size);
      forall h | h in s'.hooks ensures Placed(base, size, h) && Intact(s'.m, h) {
        if h in s.hooks { OldHook(s.m, base, size, site, h); } else { assert h == added; }
      }
      forall i, j | 0 <= i < |s'.hooks| && 0 <= j < |s'.hooks| && i != j
        ensures Apart(s'.hooks[i].area, STUB_SIZE, s'.hooks[j].area, STUB_SIZE)
             && Apart(s'.hooks[i].area, STUB_SIZE, s'.hooks[j].src, JMP_CALL_BYTES)
      {
        if i == |s.hooks| {
          assert s'.hooks[j] in s.hooks;
          PaddingFresh(s.m, base, size, s'.hooks[j]);
        } else if j == |s.hooks| {
          assert s'.hooks[i] in s.hooks;
          PaddingFresh(s.m, base, size, s'.hooks[i]);
          ApartSymmetric(area, STUB_SIZE, s'.hooks[i].area, STUB_SIZE);
          SourceApart(s'.hooks[i].area, site);
        }
      }
    }
  }

  lemma SourceApart(a: Addr, site: Site)
    requires Apart(site.src, PatchSize(site.srclen), a, STUB_SIZE) && site.srclen >= JMP_CALL_BYTES
    ensures Apart(a, STUB_SIZE, site.src, JMP_CALL_BYTES)
  {
    ApartPart(site.src, PatchSize(site.srclen), a, STUB_SIZE, 0, JMP_CALL_BYTES);
    assert Plus(site.src, 0) == site.src;
  }

  lemma PaddingPlaced(m: Mem, base: Addr, size: nat)
    requires ValidText(base, size) && FindPadding(m, base, size) != 0
    ensures base < FindPadding(m, base, size) < base + size + 2
  {
    if Scan(m, base, size, UD2_PADDING, 2) != 0 {
      FoundWindow(m, base, size, UD2_PADDING, 2);
    } else {
      FoundWindow(m, base, size, RET_PADDING, 1);
    }
  }

  /** A run of calls. */
  function Run(s: Segment, base: Addr, size: nat, sites: seq<Site>): Segment
    decreases |sites|
  {
    if sites == [] then s else Run(Install(s, base, size, sites[0]), base, size, sites[1..])
  }

  /** Every call of the run is admissible when it is made. */
  ghost predicate AdmissibleRun(s: Segment, base: Addr, size: nat, sites: seq<Site>)
    decreases |sites|
  {
    sites != [] ==>
      && Admissible(s, base, size, sites[0])
      && AdmissibleRun(Install(s, base, size, sites[0]), base, size, sites[1..])
  }

  /** Over any run, the hooks present at any time are there, intact, at the end. */
  lemma {:induction false} RunKeepsWorking(s: Segment, base: Addr, size: nat, sites: seq<Site>)
    requires ValidText(base, size) && Working(s, base, size) && AdmissibleRun(s, base, size, sites)
    ensures Working(Run(s, base, size, sites), base, size)
    ensures s.hooks <= Run(s, base, size, sites).hooks
    decreases |sites|
  {
    hide Working, Install, Admissible;
    if sites != [] {
      InstallKeepsWorking(s, base, size, sites[0]);
      RunKeepsWorking(Install(s, base, size, sites[0]), base, size, sites[1..]);
    }
  }

  /** Executing the source site of a hook and then its stub reaches the destination. */
  lemma HookReaches(t: HdeTable, s: Segment, base: Addr, size: nat, h: Trampoline)
    requires ValidText(base, size) && Working(s, base, size) && h in s.hooks
    ensures TargetOf(t, s.m, h.src) == To(h.area) && TargetOf(t, s.m, h.area) == To(h.dst)
  {
    hide TargetOf, InReach, JumpAt, StubAt;
    JumpEnds(s.m, base, size, h);
    JumpGoes(t, s.m, h.src, h.area, h.call);
    StubGoes(t, s.m, h.area, h.dst);
  }

  /** Every hook a run installs still works when the run is over. */
  lemma RunOfHooksReaches(t: HdeTable, m: Mem, base: Addr, size: nat, sites: seq<Site>, h: Trampoline)
    requires ValidText(base, size) && AdmissibleRun(Segment(m, []), base, size, sites)
    requires h in Run(Segment(m, []), base, size, sites).hooks
    ensures var m' := Run(Segment(m, []), base, size, sites).m;
            TargetOf(t, m', h.src) == To(h.area) && TargetOf(t, m', h.area) == To(h.dst)
  {
    hide TargetOf, Run, AdmissibleRun;
    RunKeepsWorking(Segment(m, []), base, size, sites);
    HookReaches(t, Run(Segment(m, []), base, size, sites), base, size, h);
  }
}
