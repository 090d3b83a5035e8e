/**
 CreatePrologueHook followed by Make32to64Jmp, the pair the repository's hooks are made with: the hooked function
 reaches its replacement through a stub in the padding of the text, and the relocated prologue still runs.
 */
module Detours {
  import opened Memory
  import opened Table64
  import opened Hde64Spec
  import opened Jumps
  import opened Prologue
  import Trampolines

  /** The text, its trampolines included, is apart from the cave. */
  predicate CaveApart(pad: Addr, base: Addr, size: nat) {
    && Trampolines.ValidText(base, size) && pad + MAX_CAVE_SIZE + OVERRUN <= W
    && Apart(base, size + 16, pad, MAX_CAVE_SIZE + OVERRUN)
  }

  /** A range inside the text is apart from every block of the cave. */
  lemma TextApart(pad: Addr, base: Addr, size: nat, at: Addr, n: nat, used: nat, k: nat)
    requires CaveApart(pad, base, size) && used + k <= MAX_CAVE_SIZE + OVERRUN
    requires base <= at && at + n <= base + size + 16
    ensures Apart(at, n, Plus(pad, used), k)
  {
    hide Apart, Offset, Plus;
    var cave := MAX_CAVE_SIZE + OVERRUN;
    PartFrom(base, size + 16, pad, cave, at, n);
    ApartSymmetric(at, n, pad, cave);
    ApartPart(pad, cave, at, n, used, k);
    ApartSymmetric(Plus(pad, used), k, at, n);
  }

  lemma PartFrom(a: Addr, n: nat, b: Addr, k: nat, at: Addr, size: nat)
    requires Apart(a, n, b, k) && a <= at && at + size <= a + n && n < W
    ensures Apart(at, size, b, k)
  {
    assert Plus(a, at - a) == at;
    ApartPart(a, n, b, k, at - a, size);
  }

  /** Memory after Make32to64Jmp keeps every range that is apart from the patched site and from the new stub. */
  lemma InstalledFrame(m: Mem, base: Addr, size: nat, site: Trampolines.Site, b: Addr, k: nat)
    requires Trampolines.FindPadding(m, base, size) != 0 && k < W
    requires Apart(site.src, PatchSize(site.srclen), b, k)
    requires Apart(Trampolines.FindPadding(m, base, size), STUB_SIZE, b, k)
    ensures SameAt(m, Trampolines.Installed(m, base, size, site), b, k)
  {
    hide Trampolines.FindPadding, WriteJump32, WriteJump64, Apart;
    var area := Trampolines.FindPadding(m, base, size);
    Jump32Frame(m, site.src, area, site.srclen, site.call, b, k);
    Jump64Frame(WriteJump32(m, site.src, area, site.srclen, site.call), area, site.dst, b, k);
  }

  // ---------------------------------------------------------------- one pair

  /** What the two calls are given, and where: the text segment, the hooked function, and the length to overwrite. */
  datatype Patch = Patch(base: Addr, size: nat, address: Addr, srclen: Addr, call: bool)

  /** The function lies in its text, apart from the cave. */
  predicate InText(pad: Addr, d: Patch) {
    && CaveApart(pad, d.base, d.size) && d.base <= d.address && d.address + d.srclen <= d.base + d.size
    && d.srclen >= JMP_CALL_BYTES
  }

  /**
   The detour: the function's first instruction goes to the stub and the stub to the replacement; the address
   CreatePrologueHook returned runs the original prologue and goes on behind it, in code the patch did not touch.
   */
  lemma TextDetour(t: HdeTable, pad: Addr, c: Cave, d: Patch, min: int, replacement: Addr)
    requires GoodCave(t, pad, c) && Accepted(t, c.m, c.used, d.address, min) && d.srclen <= min && InText(pad, d)
    requires var m := Hook(t, pad, c, d.address, min).0.m;
             var area := Trampolines.FindPadding(m, d.base, d.size);
             area != 0 && Apart(area, STUB_SIZE, d.address, InstructionSize(t, c.m, d.address, min))
    ensures var (c', original) := Hook(t, pad, c, d.address, min);
            var size := InstructionSize(t, c.m, d.address, min);
            var area := Trampolines.FindPadding(c'.m, d.base, d.size);
            var site := Trampolines.Site(d.address, replacement, d.srclen, d.call);
            var m := Trampolines.Installed(c'.m, d.base, d.size, site);
            && TargetOf(t, m, d.address) == To(area) && TargetOf(t, m, area) == To(replacement)
            && Lengths(t, CodeAt(m, original), 0, min) == Lengths(t, CodeAt(c.m, d.address), 0, min)
            && TargetOf(t, m, Plus(original, size)) == To(Plus(d.address, size))
            && SameAt(c'.m, m, Plus(d.address, d.srclen), size - d.srclen)
  {
    hide Decode, TargetOf, Relocated, InstructionSize, Trampolines.FindPadding, Trampolines.Installed, Apart, InText,
         GoodCave, JumpAt, StubAt, InReach, CaveApart;
    var size := InstructionSize(t, c.m, d.address, min);
    var (c', original) := Hook(t, pad, c, d.address, min);
    var area := Trampolines.FindPadding(c'.m, d.base, d.size);
    var site := Trampolines.Site(d.address, replacement, d.srclen, d.call);
    var m := Trampolines.Installed(c'.m, d.base, d.size, site);
    BoundaryAtLeast(t, c.m, d.address, min);
    Placement(t, pad, c, d, area, c'.m);
    // the way to the replacement
    ApartSymmetric(area, STUB_SIZE, d.address, size);
    Head(d.address, size, area, STUB_SIZE, d.srclen);
    Trampolines.NewHook(c'.m, d.base, d.size, site);
    Trampolines.ShortDistance(d.address, area);
    JumpGoes(t, m, d.address, area, d.call);
    StubGoes(t, m, area, replacement);
    // the way back
    TextApart(pad, d.base, d.size, d.address, d.srclen, c.used, size + STUB_SIZE);
    TextApart(pad, d.base, d.size, area, STUB_SIZE, c.used, size + STUB_SIZE);
    InstalledFrame(c'.m, d.base, d.size, site, original, size + STUB_SIZE);
    RelocatedSurvives(t, pad, c, d.address, min, m);
    // what follows the patched bytes
    Rest(d.address, size, area, STUB_SIZE, d.srclen);
    InstalledFrame(c'.m, d.base, d.size, site, Plus(d.address, d.srclen), size - d.srclen);
  }

  /** Where the stub and the patch lie. */
  lemma Placement(t: HdeTable, pad: Addr, c: Cave, d: Patch, area: Addr, m: Mem)
    requires InText(pad, d) && d.srclen <= MAX_CAVE_SIZE && GoodCave(t, pad, c)
    requires area == Trampolines.FindPadding(m, d.base, d.size) != 0
    ensures pad + MAX_CAVE_SIZE + OVERRUN <= W && d.base < area < d.base + d.size + 2 && PatchSize(d.srclen) == d.srclen
    ensures -0x4000_0005 <= area - d.address - JMP_CALL_BYTES < Trampolines.MAX_TEXT
    ensures Trampolines.ValidText(d.base, d.size) && d.base <= d.address && d.srclen >= JMP_CALL_BYTES
    ensures d.address + d.srclen <= d.base + d.size && CaveApart(pad, d.base, d.size)
  {
    hide Trampolines.FindPadding, Decode, BlockIntact;
    Trampolines.PaddingPlaced(m, d.base, d.size);
  }

  lemma Head(a: Addr, n: nat, b: Addr, k: nat, len: nat)
    requires Apart(a, n, b, k) && len <= n < W
    ensures Apart(a, len, b, k)
  {
    assert Plus(a, 0) == a;
    ApartPart(a, n, b, k, 0, len);
  }

  lemma Rest(a: Addr, n: nat, b: Addr, k: nat, len: nat)
    requires Apart(b, k, a, n) && 0 < len <= n <= MAX_CAVE_SIZE
    ensures Apart(a, len, Plus(a, len), n - len) && Apart(b, k, Plus(a, len), n - len)
  {
    ApartSymmetric(b, k, a, n);
    ApartPart(a, n, b, k, len, n - len);
    ApartSymmetric(Plus(a, len), n - len, b, k);
    PlusOffset(a, len);
    OffsetBack(a, len);
  }

  // ------------------------------------------------------------ runs of pairs

  /** The arguments of CreatePrologueHook and of the Make32to64Jmp call behind it. */
  datatype Pair = Pair(address: Addr, min: int, dst: Addr, srclen: Addr, call: bool)

  /** Memory and cave, and the trampolines installed so far. */
  datatype Patched = Patched(c: Cave, hooks: seq<Trampolines.Trampoline>)

  function SiteOf(p: Pair): Trampolines.Site {
    Trampolines.Site(p.address, p.dst, p.srclen, p.call)
  }

  /** The text is patched only if the prologue could be relocated. */
  function OnePair(t: HdeTable, pad: Addr, base: Addr, size: nat, s: Patched, p: Pair): Patched {
    var (c, original) := Hook(t, pad, s.c, p.address, p.min);
    if original == 0 then Patched(c, s.hooks)
    else
      var seg := Trampolines.Install(Trampolines.Segment(c.m, s.hooks), base, size, SiteOf(p));
      Patched(c.(m := seg.m), seg.hooks)
  }

  function Pairs(t: HdeTable, pad: Addr, base: Addr, size: nat, s: Patched, ps: seq<Pair>): Patched
    decreases |ps|
  {
    if ps == [] then s else Pairs(t, pad, base, size, OnePair(t, pad, base, size, s, ps[0]), ps[1..])
  }

  /** The cave is good, the trampolines work, and every trampoline's function has a relocated prologue. */
  ghost predicate AllGood(t: HdeTable, pad: Addr, base: Addr, size: nat, s: Patched) {
    && CaveApart(pad, base, size) && GoodCave(t, pad, s.c)
    && Trampolines.Working(Trampolines.Segment(s.c.m, s.hooks), base, size)
    && forall h :: h in s.hooks ==> exists b :: b in s.c.blocks && b.source == h.src
  }

  /** The patch is admissible when it is made, and lies in the text. */
  ghost predicate AdmissiblePair(t: HdeTable, pad: Addr, base: Addr, size: nat, s: Patched, p: Pair) {
    var (c, original) := Hook(t, pad, s.c, p.address, p.min);
    original != 0 ==>
      && Trampolines.Admissible(Trampolines.Segment(c.m, s.hooks), base, size, SiteOf(p))
      && p.address + PatchSize(p.srclen) <= base + size
  }

  ghost predicate AdmissiblePairs(t: HdeTable, pad: Addr, base: Addr, size: nat, s: Patched, ps: seq<Pair>)
    decreases |ps|
  {
    ps != [] ==>
      && AdmissiblePair(t, pad, base, size, s, ps[0])
      && AdmissiblePairs(t, pad, base, size, OnePair(t, pad, base, size, s, ps[0]), ps[1..])
  }

  /** A new block leaves the text alone. */
  lemma HookKeepsText(t: HdeTable, pad: Addr, base: Addr, size: nat, s: Patched, p: Pair)
    requires CaveApart(pad, base, size) && Trampolines.Working(Trampolines.Segment(s.c.m, s.hooks), base, size)
    ensures var c := Hook(t, pad, s.c, p.address, p.min).0;
            Trampolines.Working(Trampolines.Segment(c.m, s.hooks), base, size)
  {
    hide Decode, InstructionSize, Relocated, Trampolines.Intact, Apart, CaveApart;
    if Accepted(t, s.c.m, s.c.used, p.address, p.min) {
      var c := Hook(t, pad, s.c, p.address, p.min).0;
      var n := InstructionSize(t, s.c.m, p.address, p.min);
      var at := Plus(pad, s.c.used);
      forall h | h in s.hooks ensures Trampolines.Intact(c.m, h) {
        TextApart(pad, base, size, h.src, JMP_CALL_BYTES, s.c.used, n + STUB_SIZE);
        ApartSymmetric(h.src, JMP_CALL_BYTES, at, n + STUB_SIZE);
        RelocatedFrame(s.c.m, at, p.address, n, h.src, JMP_CALL_BYTES);
        TextApart(pad, base, size, h.area, STUB_SIZE, s.c.used, n + STUB_SIZE);
        ApartSymmetric(h.area, STUB_SIZE, at, n + STUB_SIZE);
        RelocatedFrame(s.c.m, at, p.address, n, h.area, STUB_SIZE);
        Trampolines.IntactFrame(s.c.m, c.m, h);
      }
    }
  }

  /** A patch leaves the cave alone. */
  lemma InstallKeepsCave(t: HdeTable, pad: Addr, base: Addr, size: nat, c: Cave, site: Trampolines.Site)
    requires CaveApart(pad, base, size) && GoodCave(t, pad, c)
    requires base <= site.src && site.src + PatchSize(site.srclen) <= base + size
    ensures GoodCave(t, pad, c.(m := Trampolines.Installed(c.m, base, size, site)))
  {
    hide Decode, BlockIntact, Trampolines.FindPadding, Trampolines.Installed, Apart, CaveApart;
    var m := Trampolines.Installed(c.m, base, size, site);
    var area := Trampolines.FindPadding(c.m, base, size);
    if area == 0 {
      NothingInstalled(c.m, base, size, site);
    } else {
      AreaPlaced(pad, base, size, c.m);
      forall b | b in c.blocks ensures BlockIntact(t, pad, m, b) {
        BlocksBelow(c.blocks, c.used, b);
        TextApart(pad, base, size, site.src, PatchSize(site.srclen), b.start, BlockSize(b));
        TextApart(pad, base, size, area, STUB_SIZE, b.start, BlockSize(b));
        InstalledFrame(c.m, base, size, site, Plus(pad, b.start), BlockSize(b));
        BlockFrame(t, pad, c.m, m, b);
      }
    }
  }

  lemma NothingInstalled(m: Mem, base: Addr, size: nat, site: Trampolines.Site)
    requires Trampolines.FindPadding(m, base, size) == 0
    ensures Trampolines.Installed(m, base, size, site) == m
  {
  }

  lemma AreaPlaced(pad: Addr, base: Addr, size: nat, m: Mem)
    requires CaveApart(pad, base, size) && Trampolines.FindPadding(m, base, size) != 0
    ensures base < Trampolines.FindPadding(m, base, size) < base + size + 2
  {
    hide Trampolines.FindPadding;
    Trampolines.PaddingPlaced(m, base, size);
  }

  /** One pair keeps everything, and every earlier trampoline and block. */
  lemma PairKeeps(t: HdeTable, pad: Addr, base: Addr, size: nat, s: Patched, p: Pair)
    requires AllGood(t, pad, base, size, s) && AdmissiblePair(t, pad, base, size, s, p)
    ensures var s' := OnePair(t, pad, base, size, s, p);
            AllGood(t, pad, base, size, s') && s.hooks <= s'.hooks && s.c.blocks <= s'.c.blocks
  {
    hide Decode, GoodCave, Trampolines.Working, Trampolines.Admissible, Trampolines.FindPadding, Trampolines.Installed,
         CaveApart, InstructionSize, Relocated;
    var (c, original) := Hook(t, pad, s.c, p.address, p.min);
    HookKeepsCave(t, pad, s.c, p.address, p.min);
    HookKeepsText(t, pad, base, size, s, p);
    forall h | h in s.hooks ensures exists b :: b in c.blocks && b.source == h.src {
      var b :| b in s.c.blocks && b.source == h.src;
      assert b in c.blocks;
    }
    if original != 0 {
      var seg := Trampolines.Segment(c.m, s.hooks);
      var seg' := Trampolines.Install(seg, base, size, SiteOf(p));
      TextIsValid(pad, base, size);
      SiteInText(seg, base, size, SiteOf(p));
      Trampolines.InstallKeepsWorking(seg, base, size, SiteOf(p));
      InstallKeepsCave(t, pad, base, size, c, SiteOf(p));
      NewBlockSource(t, pad, s.c, p.address, p.min);
      forall h | h in seg'.hooks ensures exists b :: b in c.blocks && b.source == h.src {
        if h !in s.hooks {
          assert h.src == p.address;
          assert c.blocks[|s.c.blocks|] in c.blocks;
        }
      }
    }
  }

  lemma TextIsValid(pad: Addr, base: Addr, size: nat)
    requires CaveApart(pad, base, size)
    ensures Trampolines.ValidText(base, size)
  {
  }

  lemma SiteInText(seg: Trampolines.Segment, base: Addr, size: nat, site: Trampolines.Site)
    requires Trampolines.Admissible(seg, base, size, site)
    ensures base <= site.src
  {
  }

  lemma NewBlockSource(t: HdeTable, pad: Addr, c: Cave, address: Addr, min: int)
    requires Hook(t, pad, c, address, min).1 != 0
    ensures var bs := Hook(t, pad, c, address, min).0.blocks;
            |bs| == |c.blocks| + 1 && bs[|c.blocks|].source == address
  {
    hide InstructionSize, Relocated;
  }

  lemma {:induction false} PairsKeep(t: HdeTable, pad: Addr, base: Addr, size: nat, s: Patched, ps: seq<Pair>)
    requires AllGood(t, pad, base, size, s) && AdmissiblePairs(t, pad, base, size, s, ps)
    ensures var s' := Pairs(t, pad, base, size, s, ps);
            AllGood(t, pad, base, size, s') && s.hooks <= s'.hooks && s.c.blocks <= s'.c.blocks
    decreases |ps|
  {
    hide AllGood, AdmissiblePair, OnePair;
    if ps != [] {
      PairKeeps(t, pad, base, size, s, ps[0]);
      PairsKeep(t, pad, base, size, OnePair(t, pad, base, size, s, ps[0]), ps[1..]);
    }
  }

  /**
   At the end of any admissible run of pairs on one text and one empty cave: every hooked function reaches its
   replacement through its stub and has a relocated prologue, and every relocated prologue still is the bytes it was
   made of, splits into whole instructions, and goes on behind them in its function.
   */
  lemma PairsReach(t: HdeTable, pad: Addr, base: Addr, size: nat, m: Mem, ps: seq<Pair>)
    requires CaveApart(pad, base, size)
    requires AdmissiblePairs(t, pad, base, size, Patched(Cave(m, 0, []), []), ps)
    ensures var s := Pairs(t, pad, base, size, Patched(Cave(m, 0, []), []), ps);
            && (forall h :: h in s.hooks ==>
                  && TargetOf(t, s.c.m, h.src) == To(h.area) && TargetOf(t, s.c.m, h.area) == To(h.dst)
                  && exists b :: b in s.c.blocks && b.source == h.src)
            && (forall b :: b in s.c.blocks ==>
                  && BlockIntact(t, pad, s.c.m, b)
                  && TargetOf(t, s.c.m, Plus(Plus(pad, b.start), b.size)) == To(Plus(b.source, b.size)))
  {
    hide TargetOf, Pairs, AdmissiblePairs, Decode;
    var s0 := Patched(Cave(m, 0, []), []);
    assert AllGood(t, pad, base, size, s0);
    PairsKeep(t, pad, base, size, s0, ps);
    var s := Pairs(t, pad, base, size, s0, ps);
    forall h | h in s.hooks
      ensures TargetOf(t, s.c.m, h.src) == To(h.area) && TargetOf(t, s.c.m, h.area) == To(h.dst)
    {
      Trampolines.HookReaches(t, Trampolines.Segment(s.c.m, s.hooks), base, size, h);
    }
    forall b | b in s.c.blocks
      ensures BlockIntact(t, pad, s.c.m, b)
      ensures TargetOf(t, s.c.m, Plus(Plus(pad, b.start), b.size)) == To(Plus(b.source, b.size))
    {
      StubGoes(t, s.c.m, Plus(Plus(pad, b.start), b.size), Plus(b.source, b.size));
    }
  }
}
