/** The jumps memory.c writes and reads back, and where the patched code transfers control. */
module Jumps {
  import opened Bytes
  import opened Memory
  import opened Table64
  import opened Hde64Spec
  import Hde64Jumps

  const JMP_CALL_BYTES: nat := 5
  const MAX_MEMSET: nat := 0x2000

  /** int32_t from its 32 bits. */
  function Signed32(v: nat): int {
    if v < 0x8000_0000 then v else v - 0x1_0000_0000
  }

  /** The 32 bits of relativeAddress. */
  function Relative32(src: Addr, dst: Addr): nat {
    (dst - src - JMP_CALL_BYTES) % 0x1_0000_0000
  }

  /** memset(temp, c, len) */
  function Filled(c: byte, len: nat): (s: seq<byte>)
    ensures |s| == len && forall i :: 0 <= i < len ==> s[i] == c
  {
    seq<byte>(len, i => c)
  }

  /** sys_proc_memset(pid, src, 0x90, len): refused above 8 KiB. */
  function FillNops(m: Mem, src: Addr, len: nat): Mem {
    if len > MAX_MEMSET then m else Write(m, src, Filled(0x90, len))
  }

  function JumpOpcode(call: bool): byte {
    if call then 0xe8 else 0xe9
  }

  /** WriteJump32_pid */
  function WriteJump32(m: Mem, src: Addr, dst: Addr, len: nat, call: bool): Mem {
    if src == 0 || dst == 0 || len < JMP_CALL_BYTES then m
    else
      var filled := if len != JMP_CALL_BYTES then FillNops(m, src, len) else m;
      Write(Write(filled, src, [JumpOpcode(call)]), Plus(src, 1), LeBytes(Relative32(src, dst), 4))
  }

  const JMP_STUB: seq<byte> := [0xff, 0x25, 0, 0, 0, 0]

  /** WriteJump64_pid */
  function WriteJump64(m: Mem, src: Addr, dst: Addr): Mem {
    Write(Write(m, src, JMP_STUB), Plus(src, 6), LeBytes(dst, 8))
  }

  /** The bytes memory must touch for WriteJump32 of this length. */
  function PatchSize(len: nat): nat {
    if len > MAX_MEMSET then JMP_CALL_BYTES else len
  }

  const STUB_SIZE: nat := 14

  /** ReadLEA32 */
  function ReadLEA32(m: Mem, address: Addr, offset: Addr, lea_size: Addr, lea_opcode_size: Addr): Addr {
    if address == 0 then 0
    else
      var patch := if offset != 0 then Plus(address, offset) else address;
      var lea := Signed32(Le(CodeAt(m, Plus(address, lea_size)), 0, 4));
      Plus(Plus(patch, lea), lea_opcode_size)
  }

  // ------------------------------------------------------------ what is written

  /** A call or jump to dst stands at src. */
  ghost predicate JumpAt(m: Mem, src: Addr, dst: Addr, call: bool) {
    m(src) == JumpOpcode(call) && Read(m, Plus(src, 1), 4) == LeBytes(Relative32(src, dst), 4)
  }

  /** The 14-byte stub to dst stands at src. */
  ghost predicate StubAt(m: Mem, src: Addr, dst: Addr) {
    Read(m, src, 6) == JMP_STUB && Read(m, Plus(src, 6), 8) == LeBytes(dst, 8)
  }

  lemma Jump32Written(m: Mem, src: Addr, dst: Addr, len: nat, call: bool)
    requires src != 0 && dst != 0 && len >= JMP_CALL_BYTES
    ensures JumpAt(WriteJump32(m, src, dst, len, call), src, dst, call)
    ensures WriteJump32(m, src, dst, len, call)(src) == if call then 0xe8 else 0xe9
  {
    var filled := if len != JMP_CALL_BYTES then FillNops(m, src, len) else m;
    var m1 := Write(filled, src, [JumpOpcode(call)]);
    assert m1(src) == JumpOpcode(call);
    hide Write, LeBytes, Relative32, Offset, FillNops;
    OperandWritten(m1, src, LeBytes(Relative32(src, dst), 4));
  }

  /** Behind the five bytes, a patch of up to 8 KiB is nops to its end; a longer one is the jump alone. */
  lemma Jump32Padded(m: Mem, src: Addr, dst: Addr, len: nat, call: bool, i: nat)
    requires src != 0 && dst != 0 && 5 <= i < len && i < W
    ensures var at := Plus(src, i);
            WriteJump32(m, src, dst, len, call)(at) == if len <= 0x2000 then 0x90 else m(at)
  {
    hide LeBytes, Relative32;
    PlusOffset(src, i);
    assert Offset(Plus(src, 1), Plus(src, i)) == i - 1;
  }

  lemma OperandWritten(m: Mem, src: Addr, operand: seq<byte>)
    requires |operand| == 4
    ensures Write(m, Plus(src, 1), operand)(src) == m(src)
    ensures Read(Write(m, Plus(src, 1), operand), Plus(src, 1), 4) == operand
  {
    ReadBack(m, Plus(src, 1), operand);
    assert Offset(Plus(src, 1), src) == W - 1;
  }

  lemma Jump32Frame(m: Mem, src: Addr, dst: Addr, len: nat, call: bool, b: Addr, k: nat)
    requires Apart(src, PatchSize(len), b, k) && k < W
    ensures SameAt(m, WriteJump32(m, src, dst, len, call), b, k)
  {
    if src != 0 && dst != 0 && len >= JMP_CALL_BYTES && k > 0 {
      var filled := if len != JMP_CALL_BYTES then FillNops(m, src, len) else m;
      var m1 := Write(filled, src, [JumpOpcode(call)]);
      var rel := LeBytes(Relative32(src, dst), 4);
      if len != JMP_CALL_BYTES && len <= MAX_MEMSET {
        WriteFrame(m, src, Filled(0x90, len), b, k);
      }
      ApartPart(src, PatchSize(len), b, k, 0, 1);
      ApartPart(src, PatchSize(len), b, k, 1, 4);
      assert Plus(src, 0) == src;
      WriteFrame(filled, src, [JumpOpcode(call)], b, k);
      WriteFrame(m1, Plus(src, 1), rel, b, k);
    }
  }

  lemma OffsetFromPart(a: Addr, b: Addr, at: nat)
    requires at <= Offset(a, b)
    ensures Offset(Plus(a, at), b) == Offset(a, b) - at
  {
  }

  lemma OffsetToPart(a: Addr, b: Addr, at: nat)
    requires Offset(b, a) + at < W
    ensures Offset(b, Plus(a, at)) == Offset(b, a) + at
  {
  }

  /** A part of a range keeps apart from what the range is apart from. */
  lemma ApartPart(a: Addr, n: nat, b: Addr, k: nat, at: nat, size: nat)
    requires Apart(a, n, b, k) && at + size <= n && n < W
    ensures Apart(Plus(a, at), size, b, k)
  {
    if n > 0 && k > 0 && size > 0 {
      hide Plus;
      var d, e := Offset(a, b), Offset(b, a);
      assert d + e == W;
      hide Offset;
      OffsetFromPart(a, b, at);
      OffsetToPart(a, b, at);
    }
  }

  lemma Jump64Written(m: Mem, src: Addr, dst: Addr)
    ensures StubAt(WriteJump64(m, src, dst), src, dst)
  {
    var m1 := Write(m, src, JMP_STUB);
    ReadBack(m, src, JMP_STUB);
    ReadBack(m1, Plus(src, 6), LeBytes(dst, 8));
    assert Offset(src, Plus(src, 6)) == 6 && Offset(Plus(src, 6), src) == W - 6;
    WriteFrame(m1, Plus(src, 6), LeBytes(dst, 8), src, 6);
  }

  lemma Jump64Frame(m: Mem, src: Addr, dst: Addr, b: Addr, k: nat)
    requires Apart(src, STUB_SIZE, b, k) && k < W
    ensures SameAt(m, WriteJump64(m, src, dst), b, k)
  {
    ApartPart(src, STUB_SIZE, b, k, 0, 6);
    ApartPart(src, STUB_SIZE, b, k, 6, 8);
    assert Plus(src, 0) == src;
    WriteFrame(m, src, JMP_STUB, b, k);
    WriteFrame(Write(m, src, JMP_STUB), Plus(src, 6), LeBytes(dst, 8), b, k);
  }

  // ------------------------------------------------------- where control goes

  /** The word of n bytes stored at a + at. */
  lemma WordAt(m: Mem, a: Addr, at: nat, n: nat, v: nat)
    requires v < Pow256(n) && Read(m, Plus(a, at), n) == LeBytes(v, n)
    ensures Le(CodeAt(m, a), at, n) == v
  {
    assert Slice(CodeAt(m, a), at, n) == Read(m, Plus(a, at), n) by {
      forall i | 0 <= i < n ensures CodeAt(m, a)(at + i) == m(Plus(Plus(a, at), i)) {
        PlusPlus(a, at, i);
      }
    }
    LeOfLeBytes(CodeAt(m, a), at, n, v);
  }

  lemma WordSizes()
    ensures Pow256(4) == 0x1_0000_0000 && Pow256(8) == W
  {
    assert Pow256(2) == 0x1_0000;
    assert Pow256(4) == 256 * (256 * Pow256(2));
    assert Pow256(6) == 256 * (256 * Pow256(4));
    assert Pow256(8) == 256 * (256 * Pow256(6));
  }

  /** dst is within a signed 32-bit displacement of the byte after the jump. */
  predicate InReach(src: Addr, dst: Addr) {
    Plus(src, JMP_CALL_BYTES + Signed32(Relative32(src, dst))) == dst
  }

  /** InReach in terms of the 64-bit distance. */
  lemma ReachIsDistance(src: Addr, dst: Addr)
    ensures var d := (dst - src - JMP_CALL_BYTES) % W;
            InReach(src, dst) <==> d < 0x8000_0000 || d >= W - 0x8000_0000
  {
    var d := (dst - src - JMP_CALL_BYTES) % W;
    var q := (dst - src - JMP_CALL_BYTES) / W;
    assert dst - src - JMP_CALL_BYTES == d + 0x1_0000_0000 * (0x1_0000_0000 * q);
    assert Relative32(src, dst) == d % 0x1_0000_0000;
  }

  /** ReadLEA32 at any place of an instruction: the address, moved by both sizes and by the signed displacement. */
  lemma ReadLeaTarget(m: Mem, address: Addr, offset: Addr, lea_size: Addr, lea_opcode_size: Addr)
    ensures var v := Le(CodeAt(m, Plus(address, lea_size)), 0, 4);
            var rel := if v >= 0x8000_0000 then v - 0x1_0000_0000 else v;
            ReadLEA32(m, address, offset, lea_size, lea_opcode_size) ==
              if address == 0 then 0 else (address + offset + rel + lea_opcode_size) % W
  {
    hide Le;
    var rel := Signed32(Le(CodeAt(m, Plus(address, lea_size)), 0, 4));
    assert Plus(address, 0) == address;
    PlusPlus(address, offset, rel);
    PlusPlus(address, offset + rel, lea_opcode_size);
  }

  /** ReadLEA32 reads back the target WriteJump32 wrote, exactly when the displacement fits. */
  lemma ReadLeaInvertsWriteJump(m: Mem, src: Addr, dst: Addr, len: nat, call: bool)
    requires src != 0 && dst != 0 && len >= JMP_CALL_BYTES
    ensures ReadLEA32(WriteJump32(m, src, dst, len, call), src, 0, 1, 5) == dst <==> InReach(src, dst)
  {
    var m' := WriteJump32(m, src, dst, len, call);
    Jump32Written(m, src, dst, len, call);
    WordSizes();
    assert Plus(Plus(src, 1), 0) == Plus(src, 1);
    WordAt(m', Plus(src, 1), 0, 4, Relative32(src, dst));
    PlusPlus(src, Signed32(Relative32(src, dst)), 5);
  }

  /**
   Where the instruction at pc sends control, by the record of the decoder: a relative call or jump, or a jump
   through a RIP-relative pointer (FF /4, mod 0, rm 5).
   */
  datatype Target = Falls | To(addr: Addr)

  function RecordTarget(m: Mem, pc: Addr, hs: Hde64s): Target {
    if F_ERROR in hs.flags then Falls
    else if (hs.opcode == 0xe8 || hs.opcode == 0xe9) && F_IMM32 in hs.flags && F_RELATIVE in hs.flags then
      To(Plus(pc, hs.len + Signed32(hs.imm % 0x1_0000_0000)))
    else if hs.opcode == 0xff && hs.modrm_reg == 4 && hs.modrm_mod == 0 && hs.modrm_rm == 5 then
      To(Le(CodeAt(m, Plus(pc, hs.len + Signed32(hs.disp % 0x1_0000_0000))), 0, 8) % W)
    else Falls
  }

  function TargetOf(t: HdeTable, m: Mem, pc: Addr): Target {
    RecordTarget(m, pc, Decode(t, CodeAt(m, pc)))
  }

  /** Executing the jump at src goes to the target it was written for. */
  lemma JumpGoes(t: HdeTable, m: Mem, src: Addr, dst: Addr, call: bool)
    requires JumpAt(m, src, dst, call) && InReach(src, dst)
    ensures TargetOf(t, m, src) == To(dst)
    ensures Decode(t, CodeAt(m, src)).len == JMP_CALL_BYTES
    ensures Decode(t, CodeAt(m, src)).imm == Relative32(src, dst)
  {
    hide Decode, LeBytes, Le, WellFormed;
    var code := CodeAt(m, src);
    assert Plus(src, 0) == src && code(0) == JumpOpcode(call);
    Hde64Jumps.NearJump(t, code);
    WordSizes();
    WordAt(m, src, 1, 4, Relative32(src, dst));
  }

  /** Executing the stub at src goes to the address stored behind it. */
  lemma StubGoes(t: HdeTable, m: Mem, src: Addr, dst: Addr)
    requires StubAt(m, src, dst)
    ensures TargetOf(t, m, src) == To(dst)
    ensures var hs := Decode(t, CodeAt(m, src)); hs.len == 6 && hs.disp == 0 && F_ERROR !in hs.flags
  {
    hide Decode, LeBytes, Le, WellFormed;
    var code := CodeAt(m, src);
    var stub := Read(m, src, 6);
    assert Plus(src, 0) == src;
    assert code(0) == stub[0] && code(1) == stub[1] && code(2) == stub[2] && code(3) == stub[3] && code(4) == stub[4]
      && code(5) == stub[5];
    Hde64Jumps.IndirectJump(t, code);
    ZeroWord(code, 2, 4);
    WordSizes();
    assert Plus(Plus(src, 6), 0) == Plus(src, 6);
    WordAt(m, Plus(src, 6), 0, 8, dst);
  }

  lemma {:induction false} ZeroWord(code: Code, at: nat, n: nat)
    requires forall i :: at <= i < at + n ==> code(i) == 0
    ensures Le(code, at, n) == 0
    decreases n
  {
    if n > 0 {
      ZeroWord(code, at + 1, n - 1);
    }
  }
}
