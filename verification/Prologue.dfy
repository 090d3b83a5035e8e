/**
 GetInstructionSize and CreatePrologueHook (common/memory.c): whole instructions of a function's prologue are copied
 to a code cave, followed by a jump back behind the copied ones.
 */
module Prologue {
  import opened Bytes
  import opened Memory
  import opened Table64
  import opened Hde64Spec
  import opened Jumps
  import Hde64Jumps
  import Hde64Proofs

  /** The cave the build script generates (build.sh line 4). */
  const MAX_CAVE_SIZE: nat := 4096

  /** A stream from position n on. */
  function Skip(code: Code, n: nat): Code {
    (i: nat) => code(n + i)
  }

  // -------------------------------------------------- instruction boundaries

  /** The lengths of the instructions from position `at` until at least min bytes are covered. */
  function Lengths(t: HdeTable, code: Code, at: nat, min: nat): seq<nat>
    decreases if at < min then min - at else 0
  {
    if at >= min then []
    else
      var hs := Decode(t, Skip(code, at));
      if F_ERROR in hs.flags || hs.len == 0 then [] else [hs.len] + Lengths(t, code, at + hs.len, min)
  }

  /** The end of the first whole instructions that cover min bytes; 0 if one of them does not decode. */
  function Boundary(t: HdeTable, code: Code, at: nat, min: nat): (n: nat)
    ensures n == 0 || (n >= at && n >= min)
    decreases if at < min then min - at else 0
  {
    if at >= min then at
    else
      var hs := Decode(t, Skip(code, at));
      if F_ERROR in hs.flags || hs.len == 0 then 0 else Boundary(t, code, at + hs.len, min)
  }

  /** GetInstructionSize */
  function InstructionSize(t: HdeTable, m: Mem, address: Addr, min: nat): nat {
    if address == 0 then 0 else Boundary(t, CodeAt(m, address), 0, min)
  }

  function Sum(ls: seq<nat>): nat {
    if ls == [] then 0 else ls[0] + Sum(ls[1..])
  }

  /** The boundary is the sum of the instruction lengths. */
  lemma {:induction false} BoundaryIsSum(t: HdeTable, code: Code, at: nat, min: nat)
    requires Boundary(t, code, at, min) != 0
    ensures Boundary(t, code, at, min) == at + Sum(Lengths(t, code, at, min))
    decreases if at < min then min - at else 0
  {
    hide Decode;
    if at < min {
      var n := Decode(t, Skip(code, at)).len;
      BoundaryIsSum(t, code, at + n, min);
      var rest := Lengths(t, code, at + n, min);
      assert ([n] + rest)[1..] == rest;
    }
  }

  /** A copy of the bytes up to the boundary splits into the same instructions. */
  lemma {:induction false} CopyKeepsLengths(t: HdeTable, a: Code, b: Code, at: nat, min: nat)
    requires Boundary(t, a, at, min) != 0 && Agree(a, b, Boundary(t, a, at, min))
    ensures Lengths(t, b, at, min) == Lengths(t, a, at, min) && Boundary(t, b, at, min) == Boundary(t, a, at, min)
    decreases if at < min then min - at else 0
  {
    hide Decode, WellFormed;
    if at < min {
      var hs := Decode(t, Skip(a, at));
      Hde64Proofs.Locality(t, Skip(a, at), Skip(b, at));
      CopyKeepsLengths(t, a, b, at + hs.len, min);
    }
  }

  // --------------------------------------------------------------------- hooks

  /** What a call reserved in the cave: `size` copied bytes of `source`, a stub and its pointer. */
  datatype Block = Block(start: nat, source: Addr, min: nat, size: nat, bytes: seq<byte>)

  /** The bytes a block occupies. */
  function BlockSize(b: Block): nat {
    b.size + STUB_SIZE
  }

  /** Would the call be accepted? The size check counts the stub but not the pointer behind it. */
  predicate Accepted(t: HdeTable, m: Mem, used: nat, address: Addr, min: int) {
    && address != 0 && min >= 5
    && InstructionSize(t, m, address, min) != 0
    && used + InstructionSize(t, m, address, min) + |JMP_STUB| <= MAX_CAVE_SIZE
  }

  /** A prologue of three near jumps, say: its first fifteen bytes make room for a 64-bit jump. */
  lemma AcceptsNearJumps(t: HdeTable, m: Mem, address: Addr)
    requires address != 0 && m(address) == 0xe9 && m(Plus(address, 5)) == 0xe9 && m(Plus(address, 10)) == 0xe9
    ensures InstructionSize(t, m, address, STUB_SIZE) == 15 && Accepted(t, m, 0, address, STUB_SIZE)
  {
    hide Decode, Boundary;
    var code := CodeAt(m, address);
    assert Plus(address, 0) == address;
    Hde64Jumps.NearJump(t, Skip(code, 0));
    Hde64Jumps.NearJump(t, Skip(code, 5));
    Hde64Jumps.NearJump(t, Skip(code, 10));
    BoundaryStep(t, code, 0, STUB_SIZE);
    BoundaryStep(t, code, 5, STUB_SIZE);
    BoundaryStep(t, code, 10, STUB_SIZE);
    BoundaryStep(t, code, 15, STUB_SIZE);
  }

  lemma BoundaryStep(t: HdeTable, code: Code, at: nat, min: nat)
    ensures var hs := Decode(t, Skip(code, at));
            Boundary(t, code, at, min) ==
              if at >= min then at else if F_ERROR in hs.flags || hs.len == 0 then 0
                else Boundary(t, code, at + hs.len, min)
  {
    hide Decode;
  }

  /** The three writes of an accepted call. */
  function Relocated(m: Mem, at: Addr, address: Addr, size: nat): Mem {
    var m1 := Write(m, at, Read(m, address, size));
    var m2 := Write(m1, Plus(at, size), JMP_STUB);
    Write(m2, Plus(at, size + |JMP_STUB|), LeBytes(Plus(address, size), 8))
  }

  lemma JumpBehindCopy(at: Addr, size: nat)
    requires size <= MAX_CAVE_SIZE
    ensures Apart(Plus(at, size), STUB_SIZE, at, size) && Plus(Plus(at, size), 6) == Plus(at, size + 6)
  {
    PlusPlus(at, size, 6);
    PlusOffset(at, size);
    assert size > 0 ==> Offset(Plus(at, size), at) == W - size;
  }

  /** The second and third write are a stub. */
  lemma RelocatedIsStub(m: Mem, at: Addr, address: Addr, size: nat)
    requires size <= MAX_CAVE_SIZE
    ensures Relocated(m, at, address, size)
         == WriteJump64(Write(m, at, Read(m, address, size)), Plus(at, size), Plus(address, size))
  {
    JumpBehindCopy(at, size);
  }

  lemma RelocatedBytes(m: Mem, at: Addr, address: Addr, size: nat)
    requires size <= MAX_CAVE_SIZE
    ensures var m' := Relocated(m, at, address, size);
            Read(m', at, size) == Read(m, address, size) && StubAt(m', Plus(at, size), Plus(address, size))
  {
    hide Apart, Offset, Relocated, WriteJump64, StubAt, Write;
    var copied := Read(m, address, size);
    var m1 := Write(m, at, copied);
    ReadBack(m, at, copied);
    JumpBehindCopy(at, size);
    Jump64Written(m1, Plus(at, size), Plus(address, size));
    Jump64Frame(m1, Plus(at, size), Plus(address, size), at, size);
    RelocatedIsStub(m, at, address, size);
  }

  lemma RelocatedFrame(m: Mem, at: Addr, address: Addr, size: nat, b: Addr, k: nat)
    requires size <= MAX_CAVE_SIZE && k < W && Apart(at, size + STUB_SIZE, b, k)
    ensures SameAt(m, Relocated(m, at, address, size), b, k)
  {
    hide Relocated, WriteJump64, Write;
    var m1 := Write(m, at, Read(m, address, size));
    ApartPart(at, size + STUB_SIZE, b, k, 0, size);
    ApartPart(at, size + STUB_SIZE, b, k, size, STUB_SIZE);
    assert Plus(at, 0) == at;
    WriteFrame(m, at, Read(m, address, size), b, k);
    Jump64Frame(m1, Plus(at, size), Plus(address, size), b, k);
    RelocatedIsStub(m, at, address, size);
  }

  /**
   The relocated prologue: decoding the cave from the returned address gives the instruction lengths of the original
   prologue, at least min bytes, and then a six-byte jump to the instruction behind them.
   */
  lemma RelocatedPrologue(t: HdeTable, m: Mem, at: Addr, address: Addr, min: nat)
    requires address != 0 && 0 < InstructionSize(t, m, address, min) <= MAX_CAVE_SIZE
    ensures var size := InstructionSize(t, m, address, min);
            var m' := Relocated(m, at, address, size);
            && Lengths(t, CodeAt(m', at), 0, min) == Lengths(t, CodeAt(m, address), 0, min)
            && size == Sum(Lengths(t, CodeAt(m, address), 0, min)) && size >= min
            && TargetOf(t, m', Plus(at, size)) == To(Plus(address, size))
            && Decode(t, CodeAt(m', Plus(at, size))).len == 6
  {
    hide Decode, TargetOf, StubAt, Relocated;
    var size := InstructionSize(t, m, address, min);
    var m' := Relocated(m, at, address, size);
    RelocatedBytes(m, at, address, size);
    var a, b := CodeAt(m, address), CodeAt(m', at);
    forall i: nat | i < size ensures a(i) == b(i) {
      assert Read(m', at, size)[i] == Read(m, address, size)[i];
    }
    CopyKeepsLengths(t, a, b, 0, min);
    BoundaryIsSum(t, a, 0, min);
    StubGoes(t, m', Plus(at, size), Plus(address, size));
  }

  /** The cave and what was put into it. */
  datatype Cave = Cave(m: Mem, used: nat, blocks: seq<Block>)

  /** One call of CreatePrologueHook after the cave is initialised, and the address it returns. */
  function Hook(t: HdeTable, pad: Addr, c: Cave, address: Addr, min: int): (Cave, Addr) {
    if !Accepted(t, c.m, c.used, address, min) then (c, 0)
    else
      var size := InstructionSize(t, c.m, address, min);
      var at := Plus(pad, c.used);
      var block := Block(c.used, address, min, size, Read(c.m, address, size));
      (Cave(Relocated(c.m, at, address, size), c.used + BlockSize(block), c.blocks + [block]), at)
  }

  // ------------------------------------------------------- which calls succeed

  /** Does a valid instruction stand at `at` and end at n? */
  ghost predicate Instruction(t: HdeTable, code: Code, at: nat, n: nat) {
    var hs := Decode(t, Skip(code, at));
    F_ERROR !in hs.flags && n == at + hs.len
  }

  /** Each position is the end of the instruction at the one before; the first is the function's. */
  ghost predicate Walk(t: HdeTable, code: Code, starts: seq<nat>) {
    && starts != [] && starts[0] == 0
    && forall i :: 0 <= i < |starts| - 1 ==> Instruction(t, code, starts[i], starts[i + 1])
  }

  function Last(starts: seq<nat>): nat
    requires starts != []
  {
    starts[|starts| - 1]
  }

  /** A walk that covers min bytes, and no sooner than with its last instruction. */
  ghost predicate Covers(t: HdeTable, code: Code, min: nat, starts: seq<nat>) {
    Walk(t, code, starts) && Last(starts) >= min && forall i :: 0 <= i < |starts| - 1 ==> starts[i] < min
  }

  /** A walk that comes to an undefined instruction before min bytes are covered. */
  ghost predicate Breaks(t: HdeTable, code: Code, min: nat, starts: seq<nat>) {
    && Walk(t, code, starts) && (forall i :: 0 <= i < |starts| ==> starts[i] < min)
    && F_ERROR in Decode(t, Skip(code, Last(starts))).flags
  }

  lemma BoundaryNext(t: HdeTable, code: Code, at: nat, n: nat, min: nat)
    requires Instruction(t, code, at, n) && at < min
    ensures at < n && Boundary(t, code, at, min) == Boundary(t, code, n, min)
  {
    hide Decode, Boundary, WellFormed, Parse;
    Hde64Proofs.LengthBounds(t, Skip(code, at));
    BoundaryStep(t, code, at, min);
  }

  lemma {:induction false} BoundaryOfWalk(t: HdeTable, code: Code, min: nat, starts: seq<nat>, i: nat)
    requires Walk(t, code, starts) && i < |starts| && forall j :: 0 <= j < |starts| - 1 ==> starts[j] < min
    ensures Boundary(t, code, starts[i], min) == Boundary(t, code, Last(starts), min)
    decreases |starts| - i
  {
    hide Instruction, Boundary, WellFormed;
    if i < |starts| - 1 {
      BoundaryNext(t, code, starts[i], starts[i + 1], min);
      BoundaryOfWalk(t, code, min, starts, i + 1);
    }
  }

  lemma BoundaryIs(t: HdeTable, code: Code, min: nat, starts: seq<nat>)
    ensures Covers(t, code, min, starts) ==> Boundary(t, code, 0, min) == Last(starts)
    ensures Breaks(t, code, min, starts) ==> Boundary(t, code, 0, min) == 0
  {
    hide Decode, Boundary;
    if Covers(t, code, min, starts) || Breaks(t, code, min, starts) {
      BoundaryOfWalk(t, code, min, starts, 0);
      BoundaryStep(t, code, Last(starts), min);
    }
  }

  lemma Covered(t: HdeTable, code: Code, min: nat, starts: seq<nat>)
    ensures Covers(t, code, min, starts) ==> starts != [] && Last(starts) >= min
  {
  }

  lemma InstructionHere(t: HdeTable, code: Code, at: nat)
    requires F_ERROR !in Decode(t, Skip(code, at)).flags
    ensures Instruction(t, code, at, at + Decode(t, Skip(code, at)).len)
  {
    hide Decode;
  }

  lemma WalkOn(t: HdeTable, code: Code, starts: seq<nat>, n: nat)
    requires Walk(t, code, starts) && Instruction(t, code, Last(starts), n)
    ensures Walk(t, code, starts + [n])
  {
    hide Instruction;
  }

  /** Every prologue is covered by a walk or breaks one off. */
  lemma WalkEnds(t: HdeTable, code: Code, min: nat) returns (starts: seq<nat>)
    ensures Covers(t, code, min, starts) || Breaks(t, code, min, starts)
  {
    hide Decode, WellFormed, Instruction;
    starts := [0];
    while Last(starts) < min && F_ERROR !in Decode(t, Skip(code, Last(starts))).flags
      invariant Walk(t, code, starts) && forall i :: 0 <= i < |starts| - 1 ==> starts[i] < min
      decreases if Last(starts) < min then min - Last(starts) else 0
    {
      var at := Last(starts);
      var n := at + Decode(t, Skip(code, at)).len;
      assert Instruction(t, code, at, n) by { InstructionHere(t, code, at); }
      BoundaryNext(t, code, at, n, min);
      WalkOn(t, code, starts, n);
      starts := starts + [n];
    }
  }

  /**
   A call puts a block into the cave if and only if the address is not null, at least five bytes are asked for, they are
   covered by whole valid instructions, and these leave six bytes of the cave free. The block is as long as the walk
   that covers them, and its address is answered; a call that is refused answers 0 and changes nothing.
   */
  lemma HookVerdict(t: HdeTable, pad: Addr, c: Cave, address: Addr, min: int)
    ensures var (c', r) := Hook(t, pad, c, address, min);
            var code := CodeAt(c.m, address);
            && (c' != c <==> address != 0 && min >= 5
                             && exists starts :: Covers(t, code, min, starts) && c.used + Last(starts) + 6 <= 4096)
            && (c' == c ==> r == 0)
            && (c' != c ==> forall starts :: Covers(t, code, min, starts) ==>
                  var n := Last(starts);
                  && r == Plus(pad, c.used) && c'.used == c.used + n + 14
                  && c'.blocks == c.blocks + [Block(c.used, address, min, n, Read(c.m, address, n))])
  {
    hide Boundary, Covers, Relocated;
    if address != 0 && min >= 5 {
      var code := CodeAt(c.m, address);
      var starts := WalkEnds(t, code, min);
      forall s ensures Covers(t, code, min, s) ==> s != [] && Boundary(t, code, 0, min) == Last(s) >= min {
        BoundaryIs(t, code, min, s);
        Covered(t, code, min, s);
      }
      BoundaryIs(t, code, min, starts);
    }
  }

  /** The block still holds the prologue it was given: same bytes, same instructions, and the jump back. */
  ghost predicate BlockIntact(t: HdeTable, pad: Addr, m: Mem, b: Block) {
    var at := Plus(pad, b.start);
    && |b.bytes| == b.size && b.size >= b.min && Read(m, at, b.size) == b.bytes
    && StubAt(m, Plus(at, b.size), Plus(b.source, b.size))
    && Sum(Lengths(t, CodeAt(m, at), 0, b.min)) == b.size
  }

  /** Blocks follow each other without gap or overlap, from the start of the cave to `used`. */
  predicate Contiguous(blocks: seq<Block>, used: nat) {
    if blocks == [] then used == 0
    else
      var last := blocks[|blocks| - 1];
      used == last.start + BlockSize(last) && Contiguous(blocks[..|blocks| - 1], last.start)
  }

  /** The pad is a linker-placed range; the last block may run past it by the bytes the size check forgets. */
  const OVERRUN: nat := 8

  ghost predicate GoodCave(t: HdeTable, pad: Addr, c: Cave) {
    && pad + MAX_CAVE_SIZE + OVERRUN <= W && c.used <= MAX_CAVE_SIZE + OVERRUN && Contiguous(c.blocks, c.used)
    && (forall b :: b in c.blocks ==> BlockIntact(t, pad, c.m, b))
  }

  lemma {:induction false} BlocksBelow(blocks: seq<Block>, used: nat, b: Block)
    requires Contiguous(blocks, used) && b in blocks
    ensures b.start + BlockSize(b) <= used
    decreases |blocks|
  {
    var n := |blocks| - 1;
    if b != blocks[n] {
      assert b in blocks[..n];
      BlocksBelow(blocks[..n], blocks[n].start, b);
    }
  }

  lemma BlockFrame(t: HdeTable, pad: Addr, m: Mem, m': Mem, b: Block)
    requires BlockIntact(t, pad, m, b) && SameAt(m, m', Plus(pad, b.start), BlockSize(b))
    ensures BlockIntact(t, pad, m', b)
  {
    hide Decode;
    var at := Plus(pad, b.start);
    assert Read(m', at, b.size) == Read(m, at, b.size);
    var jump := Plus(at, b.size);
    forall i | 0 <= i < STUB_SIZE ensures m'(Plus(jump, i)) == m(Plus(jump, i)) {
      PlusPlus(at, b.size, i);
    }
    StubFrame(m, m', jump, Plus(b.source, b.size));
    var c, c' := CodeAt(m, at), CodeAt(m', at);
    if b.min > 0 {
      SumIsBoundary(t, c, 0, b.min);
      CopyKeepsLengths(t, c, c', 0, b.min);
    }
  }

  lemma StubFrame(m: Mem, m': Mem, src: Addr, dst: Addr)
    requires StubAt(m, src, dst) && SameAt(m, m', src, STUB_SIZE)
    ensures StubAt(m', src, dst)
  {
    assert Read(m', src, 6) == Read(m, src, 6);
    forall i | 0 <= i < 8 ensures m'(Plus(Plus(src, 6), i)) == m(Plus(Plus(src, 6), i)) {
      PlusPlus(src, 6, i);
    }
    assert Read(m', Plus(src, 6), 8) == Read(m, Plus(src, 6), 8);
  }

  /** Lengths that cover min bytes come from a walk without error. */
  lemma {:induction false} SumIsBoundary(t: HdeTable, code: Code, at: nat, min: nat)
    requires at + Sum(Lengths(t, code, at, min)) >= min && min > 0
    ensures Boundary(t, code, at, min) == at + Sum(Lengths(t, code, at, min))
    decreases if at < min then min - at else 0
  {
    hide Decode;
    if at < min {
      var n := Decode(t, Skip(code, at)).len;
      var ls := Lengths(t, code, at, min);
      if ls != [] {
        var rest := Lengths(t, code, at + n, min);
        assert ([n] + rest)[1..] == rest;
        SumIsBoundary(t, code, at + n, min);
      }
    }
  }

  /** A call keeps the earlier blocks as they were and adds at most one intact block behind them. */
  lemma HookKeepsCave(t: HdeTable, pad: Addr, c: Cave, address: Addr, min: int)
    requires GoodCave(t, pad, c)
    ensures var (c', r) := Hook(t, pad, c, address, min);
            GoodCave(t, pad, c') && c.blocks <= c'.blocks && (r == 0 || r == pad + c.used)
  {
    hide Decode, BlockIntact, InstructionSize, Relocated;
    if Accepted(t, c.m, c.used, address, min) {
      var size := InstructionSize(t, c.m, address, min);
      var at := Plus(pad, c.used);
      var block := Block(c.used, address, min, size, Read(c.m, address, size));
      var m' := Relocated(c.m, at, address, size);
      NewBlock(t, pad, c.m, c.used, address, min);
      forall b | b in c.blocks ensures BlockIntact(t, pad, m', b) {
        BlocksBelow(c.blocks, c.used, b);
        BlocksApart(pad, b, c.used, size);
        RelocatedFrame(c.m, at, address, size, Plus(pad, b.start), BlockSize(b));
        BlockFrame(t, pad, c.m, m', b);
      }
      assert (c.blocks + [block])[..|c.blocks|] == c.blocks;
    }
  }

  lemma BlocksApart(pad: Addr, b: Block, used: nat, size: nat)
    requires pad + MAX_CAVE_SIZE + OVERRUN <= W && b.start + BlockSize(b) <= used
    requires used + size + |JMP_STUB| <= MAX_CAVE_SIZE
    ensures Apart(Plus(pad, used), size + STUB_SIZE, Plus(pad, b.start), BlockSize(b))
  {
  }

  lemma NewBlock(t: HdeTable, pad: Addr, m: Mem, used: nat, address: Addr, min: int)
    requires Accepted(t, m, used, address, min)
    ensures var size := InstructionSize(t, m, address, min);
            BlockIntact(t, pad, Relocated(m, Plus(pad, used), address, size),
                        Block(used, address, min, size, Read(m, address, size)))
  {
    hide Decode, TargetOf, Relocated;
    RelocatedBytes(m, Plus(pad, used), address, InstructionSize(t, m, address, min));
    RelocatedPrologue(t, m, Plus(pad, used), address, min);
  }

  /** The arguments of one call. */
  datatype Request = Request(address: Addr, min: int)

  function Hooks(t: HdeTable, pad: Addr, c: Cave, rs: seq<Request>): Cave
    decreases |rs|
  {
    if rs == [] then c else Hooks(t, pad, Hook(t, pad, c, rs[0].address, rs[0].min).0, rs[1..])
  }

  /** Over any run of calls the cave stays good: at most MAX_CAVE_SIZE + 8 bytes used, no earlier block changed. */
  lemma {:induction false} HooksKeepCave(t: HdeTable, pad: Addr, c: Cave, rs: seq<Request>)
    requires GoodCave(t, pad, c)
    ensures GoodCave(t, pad, Hooks(t, pad, c, rs)) && c.blocks <= Hooks(t, pad, c, rs).blocks
    decreases |rs|
  {
    hide GoodCave, Hook;
    if rs != [] {
      HookKeepsCave(t, pad, c, rs[0].address, rs[0].min);
      HooksKeepCave(t, pad, Hook(t, pad, c, rs[0].address, rs[0].min).0, rs[1..]);
    }
  }

  lemma OneNearJump(t: HdeTable, m: Mem, address: Addr)
    requires address != 0 && m(address) == 0xe9
    ensures InstructionSize(t, m, address, JMP_CALL_BYTES) == JMP_CALL_BYTES
  {
    hide Decode, Boundary;
    var code := CodeAt(m, address);
    assert Plus(address, 0) == address;
    Hde64Jumps.NearJump(t, Skip(code, 0));
    BoundaryStep(t, code, 0, JMP_CALL_BYTES);
    BoundaryStep(t, code, JMP_CALL_BYTES, JMP_CALL_BYTES);
  }

  /** k hooks of one function whose prologue is a near jump. */
  function SameHook(address: Addr, k: nat): seq<Request> {
    if k == 0 then [] else [Request(address, JMP_CALL_BYTES)] + SameHook(address, k - 1)
  }

  /** Each of them takes nineteen bytes, as long as the check lets it. */
  lemma {:induction false} HooksFill(t: HdeTable, pad: Addr, c: Cave, address: Addr, k: nat)
    requires address != 0 && c.m(address) == 0xe9 && Offset(pad, address) >= MAX_CAVE_SIZE + OVERRUN
    requires pad + MAX_CAVE_SIZE + OVERRUN <= W && c.used + 19 * k <= MAX_CAVE_SIZE + OVERRUN
    ensures Hooks(t, pad, c, SameHook(address, k)).used == c.used + 19 * k
    decreases k
  {
    hide InstructionSize, Relocated, Offset;
    if k > 0 {
      OneNearJump(t, c.m, address);
      var c' := Hook(t, pad, c, address, JMP_CALL_BYTES).0;
      OutsideCave(pad, address, c.used);
      RelocatedFrame(c.m, Plus(pad, c.used), address, JMP_CALL_BYTES, address, 1);
      assert Plus(address, 0) == address;
      assert c'.m(Plus(address, 0)) == c.m(Plus(address, 0));
      HooksFill(t, pad, c', address, k - 1);
      assert SameHook(address, k)[1..] == SameHook(address, k - 1);
    }
  }

  lemma OutsideCave(pad: Addr, address: Addr, used: nat)
    requires pad + MAX_CAVE_SIZE + OVERRUN <= W && used + 19 <= MAX_CAVE_SIZE + OVERRUN
    requires Offset(pad, address) >= MAX_CAVE_SIZE + OVERRUN
    ensures Apart(Plus(pad, used), JMP_CALL_BYTES + STUB_SIZE, address, 1)
  {
    var d := Offset(pad, address);
    assert Plus(pad, d) == address;
    assert Offset(Plus(pad, used), address) == d - used;
    assert address != Plus(pad, used);
  }

  /**
   The bound is attained: 216 hooks of a function whose prologue is a near jump, on an empty cave, are all accepted and
   leave the pointer of the last one in the eight bytes behind the cave.
   */
  lemma CaveOverruns(t: HdeTable, pad: Addr, m: Mem, address: Addr)
    requires address != 0 && m(address) == 0xe9 && Offset(pad, address) >= MAX_CAVE_SIZE + OVERRUN
    requires pad + MAX_CAVE_SIZE + OVERRUN <= W
    ensures var c := Hooks(t, pad, Cave(m, 0, []), SameHook(address, 216));
            c.used == MAX_CAVE_SIZE + OVERRUN && GoodCave(t, pad, c)
  {
    hide Hooks, SameHook, Offset;
    HooksFill(t, pad, Cave(m, 0, []), address, 216);
    HooksKeepCave(t, pad, Cave(m, 0, []), SameHook(address, 216));
  }

  /** Would this call be accepted and put its block past the end of the cave? */
  predicate LeavesCave(t: HdeTable, c: Cave, r: Request) {
    && r.address != 0 && r.min >= 5
    && var size := InstructionSize(t, c.m, r.address, r.min);
       size != 0 && MAX_CAVE_SIZE - STUB_SIZE < c.used + size <= MAX_CAVE_SIZE - |JMP_STUB|
  }

  lemma OneCallLeaves(t: HdeTable, pad: Addr, c: Cave, r: Request)
    requires c.used <= MAX_CAVE_SIZE
    ensures Hook(t, pad, c, r.address, r.min).0.used > MAX_CAVE_SIZE <==> LeavesCave(t, c, r)
  {
    hide InstructionSize, Relocated;
  }

  /** Once a block has left the cave no call is accepted any more, */
  lemma {:induction false} FullCaveStays(t: HdeTable, pad: Addr, c: Cave, rs: seq<Request>)
    requires c.used > MAX_CAVE_SIZE
    ensures Hooks(t, pad, c, rs) == c
    ensures forall r: Request :: Hook(t, pad, c, r.address, r.min) == (c, 0)
    decreases |rs|
  {
    hide InstructionSize, Relocated;
    if rs != [] {
      FullCaveStays(t, pad, c, rs[1..]);
    }
  }

  /** so only the last block ever does. */
  lemma OnlyLastLeaves(t: HdeTable, pad: Addr, c: Cave, i: nat)
    requires GoodCave(t, pad, c) && i + 1 < |c.blocks|
    ensures c.blocks[i].start + BlockSize(c.blocks[i]) <= MAX_CAVE_SIZE
  {
    hide BlockIntact;
    var n := |c.blocks| - 1;
    var last := c.blocks[n];
    assert c.blocks[..n][i] == c.blocks[i];
    BlocksBelow(c.blocks[..n], last.start, c.blocks[i]);
  }

  lemma HooksPrefix(t: HdeTable, pad: Addr, c: Cave, rs: seq<Request>, k: nat)
    requires k < |rs|
    ensures Hooks(t, pad, c, rs[..0]) == c
    ensures Hooks(t, pad, c, rs[..k + 1]) == Hooks(t, pad, Hook(t, pad, c, rs[0].address, rs[0].min).0, rs[1..][..k])
  {
    hide Hook;
    assert rs[..k + 1][1..] == rs[1..][..k];
  }

  /**
   A run of calls takes the cave past its end if and only if, before some call of it, what is used and the
   instructions the call would copy come to more than MAX_CAVE_SIZE - 14 and at most MAX_CAVE_SIZE - 6 bytes.
   */
  lemma {:induction false} RunLeavesIff(t: HdeTable, pad: Addr, c: Cave, rs: seq<Request>)
    requires c.used <= MAX_CAVE_SIZE
    ensures Hooks(t, pad, c, rs).used > MAX_CAVE_SIZE <==>
            exists k :: 0 <= k < |rs| && LeavesCave(t, Hooks(t, pad, c, rs[..k]), rs[k])
    decreases |rs|
  {
    hide Hook, LeavesCave;
    if rs != [] {
      var c1 := Hook(t, pad, c, rs[0].address, rs[0].min).0;
      OneCallLeaves(t, pad, c, rs[0]);
      HooksPrefix(t, pad, c, rs, 0);
      if c1.used > MAX_CAVE_SIZE {
        FullCaveStays(t, pad, c1, rs[1..]);
        assert LeavesCave(t, Hooks(t, pad, c, rs[..0]), rs[0]);
      } else {
        RunLeavesIff(t, pad, c1, rs[1..]);
        forall k | 0 < k < |rs| ensures Hooks(t, pad, c, rs[..k]) == Hooks(t, pad, c1, rs[1..][..k - 1]) {
          HooksPrefix(t, pad, c, rs, k - 1);
        }
        if k :| 0 <= k < |rs| && LeavesCave(t, Hooks(t, pad, c, rs[..k]), rs[k]) {
          assert LeavesCave(t, Hooks(t, pad, c1, rs[1..][..k - 1]), rs[1..][k - 1]);
        }
        if j :| 0 <= j < |rs[1..]| && LeavesCave(t, Hooks(t, pad, c1, rs[1..][..j]), rs[1..][j]) {
          assert LeavesCave(t, Hooks(t, pad, c, rs[..j + 1]), rs[j + 1]);
        }
      }
    }
  }

  /** Whoever keeps the bytes of the new block keeps the relocated prologue. */
  lemma RelocatedSurvives(t: HdeTable, pad: Addr, c: Cave, address: Addr, min: int, m: Mem)
    requires Accepted(t, c.m, c.used, address, min)
    requires var (c', original) := Hook(t, pad, c, address, min);
             SameAt(c'.m, m, original, InstructionSize(t, c.m, address, min) + STUB_SIZE)
    ensures var original := Hook(t, pad, c, address, min).1;
            && Lengths(t, CodeAt(m, original), 0, min) == Lengths(t, CodeAt(c.m, address), 0, min)
            && TargetOf(t, m, Plus(original, InstructionSize(t, c.m, address, min)))
               == To(Plus(address, InstructionSize(t, c.m, address, min)))
  {
    hide Decode, TargetOf, Relocated, InstructionSize, StubAt;
    var size := InstructionSize(t, c.m, address, min);
    var (c', original) := Hook(t, pad, c, address, min);
    RelocatedPrologue(t, c.m, original, address, min);
    RelocatedBytes(c.m, original, address, size);
    forall i | 0 <= i < STUB_SIZE ensures m(Plus(Plus(original, size), i)) == c'.m(Plus(Plus(original, size), i)) {
      PlusPlus(original, size, i);
    }
    StubFrame(c'.m, m, Plus(original, size), Plus(address, size));
    StubGoes(t, m, Plus(original, size), Plus(address, size));
    var a, b := CodeAt(c'.m, original), CodeAt(m, original);
    SumIsBoundary(t, a, 0, min);
    BoundaryAtLeast(t, c.m, address, min);
    CopyKeepsLengths(t, a, b, 0, min);
  }

  /**
   The detour a caller builds with CreatePrologueHook and WriteJump64: the hooked function goes to the replacement,
   and the returned address runs the original prologue and goes on behind it, in code the detour did not touch.
   */
  lemma Detour(t: HdeTable, pad: Addr, c: Cave, address: Addr, min: int, replacement: Addr)
    requires GoodCave(t, pad, c) && Accepted(t, c.m, c.used, address, min) && min >= STUB_SIZE
    requires Apart(address, STUB_SIZE, pad, MAX_CAVE_SIZE + OVERRUN)
    ensures var (c', original) := Hook(t, pad, c, address, min);
            var size := InstructionSize(t, c.m, address, min);
            var m := WriteJump64(c'.m, address, replacement);
            && TargetOf(t, m, address) == To(replacement)
            && Lengths(t, CodeAt(m, original), 0, min) == Lengths(t, CodeAt(c.m, address), 0, min)
            && TargetOf(t, m, Plus(original, size)) == To(Plus(address, size))
            && (forall i :: STUB_SIZE <= i < size ==> c'.m(Plus(address, i)) == m(Plus(address, i)))
            && SameAt(c'.m, m, Plus(address, size), MAX_CAVE_SIZE)
  {
    hide Decode, TargetOf, Relocated, InstructionSize, StubAt, WriteJump64;
    var size := InstructionSize(t, c.m, address, min);
    var (c', original) := Hook(t, pad, c, address, min);
    var m := WriteJump64(c'.m, address, replacement);
    Jump64Written(c'.m, address, replacement);
    StubGoes(t, m, address, replacement);
    assert Apart(address, STUB_SIZE, original, size + STUB_SIZE) by { PartOfCave(pad, address, c.used, size); }
    Jump64Frame(c'.m, address, replacement, original, size + STUB_SIZE);
    RelocatedSurvives(t, pad, c, address, min, m);
    BoundaryAtLeast(t, c.m, address, min);
    Behind(address, size);
    Jump64Frame(c'.m, address, replacement, Plus(address, STUB_SIZE), size - STUB_SIZE);
    forall i | STUB_SIZE <= i < size ensures c'.m(Plus(address, i)) == m(Plus(address, i)) {
      PlusPlus(address, STUB_SIZE, i - STUB_SIZE);
    }
    Jump64Frame(c'.m, address, replacement, Plus(address, size), MAX_CAVE_SIZE);
  }

  lemma BoundaryAtLeast(t: HdeTable, m: Mem, address: Addr, min: nat)
    requires InstructionSize(t, m, address, min) != 0
    ensures InstructionSize(t, m, address, min) >= min
  {
    hide Decode;
  }

  lemma PartOfCave(pad: Addr, address: Addr, used: nat, size: nat)
    requires pad + MAX_CAVE_SIZE + OVERRUN <= W && used + size + |JMP_STUB| <= MAX_CAVE_SIZE
    requires Apart(address, STUB_SIZE, pad, MAX_CAVE_SIZE + OVERRUN)
    ensures Apart(address, STUB_SIZE, Plus(pad, used), size + STUB_SIZE)
  {
    ApartSymmetric(address, STUB_SIZE, pad, MAX_CAVE_SIZE + OVERRUN);
    ApartPart(pad, MAX_CAVE_SIZE + OVERRUN, address, STUB_SIZE, used, size + STUB_SIZE);
    ApartSymmetric(Plus(pad, used), size + STUB_SIZE, address, STUB_SIZE);
  }

  lemma Behind(address: Addr, size: nat)
    requires STUB_SIZE <= size <= MAX_CAVE_SIZE
    ensures Apart(address, STUB_SIZE, Plus(address, STUB_SIZE), size - STUB_SIZE)
    ensures Apart(address, STUB_SIZE, Plus(address, size), MAX_CAVE_SIZE)
  {
    hide Plus, Offset;
    PlusOffset(address, STUB_SIZE);
    OffsetBack(address, STUB_SIZE);
    PlusOffset(address, size);
    OffsetBack(address, size);
  }
}
