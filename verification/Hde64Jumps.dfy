/** The decoder on the two jumps the hook engine writes, and on ENTER. */
module Hde64Jumps {
  import opened Bytes
  import opened Table64
  import opened Hde64Spec
  import Hde64Proofs

  /** Without prefixes the front stage starts from a cleared record. */
  lemma NoPrefixes(t: HdeTable, code: Code)
    requires PrefixOf(code(0)) == NONE
    ensures PrefixRun(code, 0) == 0
    ensures ReadFront(t, code) == ReadRex(t, code, 1, CLEARED, {NONE}, code(0))
  {
    hide ReadRex, WellFormed;
    assert PrefixSet(code, 0) == {};
    assert Raise(PrefixFields(code, 0), PrefixFlags({})) == CLEARED;
  }

  lemma JumpClasses(t: HdeTable)
    ensures |t| == TABLE_SIZE
    ensures ClassByte(t, false, 0xe8) == 0x50 && ClassByte(t, false, 0xe9) == 0x50
    ensures ClassByte(t, false, 0xff) != C_ERROR && Resolved(t, false, ClassByte(t, false, 0xff)) == C_MODRM
    ensures !Has(GroupMask(t, false, ClassByte(t, false, 0xff)), 8)
    ensures ClassByte(t, false, 0xc8) == 0x06
    ensures ClassByte(t, true, 0xf6) == C_MODRM && ClassByte(t, true, 0xf7) == C_MODRM
  {
    hide ClassByte, Resolved, GroupMask;
  }

  /** The front stage on a one-byte opcode without prefix or REX. */
  lemma OneByteFront(t: HdeTable, code: Code, opcode: byte)
    requires opcode == 0xc8 || opcode == 0xe8 || opcode == 0xe9 || opcode == 0xff
    ensures ReadRex(t, code, 1, CLEARED, {NONE}, opcode)
         == Classify(t, false, Front(1, CLEARED.(opcode := opcode), {NONE}, false, opcode, 0, 0))
  {
    hide Classify, WellFormed;
  }

  lemma NearJumpFront(t: HdeTable, opcode: byte)
    requires opcode == 0xe8 || opcode == 0xe9
    ensures Classify(t, false, Front(1, CLEARED.(opcode := opcode), {NONE}, false, opcode, 0, 0))
         == Front(1, CLEARED.(opcode := opcode), {NONE}, false, opcode, 0x50, 0)
  {
    JumpClasses(t);
    hide WellFormed, ClassByte;
  }

  lemma NearJumpImm(code: Code, f: Front)
    requires f.cflags == 0x50 && P66 !in f.pref && f.hs.imm == 0 && f.hs.flags == {}
    ensures ReadImm(code, f) == Cursor(f.p + 4, f.hs.(imm := Le(code, f.p, 4), flags := {F_IMM32, F_RELATIVE}))
  {
    hide Le;
    assert {} + {F_IMM32, F_RELATIVE} == {F_IMM32, F_RELATIVE};
  }

  /** call rel32 and jmp rel32: five bytes, the displacement in the immediate. */
  lemma NearJump(t: HdeTable, code: Code)
    requires code(0) == 0xe8 || code(0) == 0xe9
    ensures Decode(t, code)
            == CLEARED.(len := 5, opcode := code(0), imm := Le(code, 1, 4), flags := {F_IMM32, F_RELATIVE})
  {
    hide ReadFront, ReadRex, ReadImm, Classify, PrefixRun, WellFormed, Le;
    NoPrefixes(t, code);
    OneByteFront(t, code, code(0));
    NearJumpFront(t, code(0));
    var f := Front(1, CLEARED.(opcode := code(0)), {NONE}, false, code(0), 0x50, 0);
    assert ReadModrm(t, code, f) == f;
    NearJumpImm(code, f);
  }

  lemma IndirectJumpErrors(t: HdeTable, f: Front)
    requires f.hs.opcode2 == 0 && f.opcode == 0xff && !Has(f.mask, 8) && LOCK !in f.pref
    ensures ModrmErrors(t, f, 0x25) == {}
  {
    hide WellFormed;
  }

  lemma IndirectJumpAddress(code: Code, p: nat, hs: Hde64s, pref: set<Prefix>)
    requires P67 !in pref && hs.disp == 0 && hs.flags == {F_MODRM}
    ensures ReadAddress(code, p, hs, pref, 0, 5)
            == Cursor(p + 4, hs.(disp := Le(code, p, 4), flags := {F_MODRM, F_DISP32}))
  {
    hide Le;
    assert {F_MODRM} + {F_DISP32} == {F_MODRM, F_DISP32};
  }

  /** jmp qword ptr [rip + disp32]: six bytes, the displacement after the ModRM byte. */
  lemma IndirectJump(t: HdeTable, code: Code)
    requires code(0) == 0xff && code(1) == 0x25
    ensures Decode(t, code)
            == CLEARED.(len := 6, opcode := 0xff, modrm := 0x25, modrm_mod := 0, modrm_reg := 4, modrm_rm := 5,
                                        disp := Le(code, 2, 4), flags := {F_MODRM, F_DISP32})
  {
    hide ReadFront, ReadRex, ReadImm, ReadAddress, ModrmErrors, PrefixRun, PrefixOf, WellFormed, Le, ClassByte,
        GroupMask;
    assert PrefixOf(0xff) == NONE by { OpcodeIsNoPrefix(); }
    NoPrefixes(t, code);
    OneByteFront(t, code, 0xff);
    JumpClasses(t);
    var mask := GroupMask(t, false, ClassByte(t, false, 0xff));
    var f := Front(1, CLEARED.(opcode := 0xff), {NONE}, false, 0xff, C_MODRM, mask);
    IndirectJumpErrors(t, f);
    var hs := Raise(ModrmFields(f.hs, 0x25), {});
    assert hs.flags == {F_MODRM};
    IndirectJumpAddress(code, 2, hs, {NONE});
    var g := ReadModrm(t, code, f);
    NoImm(code, g);
  }

  lemma OpcodeIsNoPrefix()
    ensures PrefixOf(0xff) == NONE && PrefixOf(0xe8) == NONE && PrefixOf(0xe9) == NONE
  {
  }

  lemma NoImm(code: Code, f: Front)
    requires f.cflags == C_MODRM
    ensures ReadImm(code, f) == Cursor(f.p, f.hs)
  {
  }

  /** ENTER iw, ib without prefixes: four bytes, with both immediate flags raised. */
  lemma Enter(t: HdeTable, code: Code)
    requires code(0) == 0xc8
    ensures var hs := Decode(t, code);
            hs.len == 4 && F_ERROR !in hs.flags && Hde64Proofs.Overlapped(hs.flags) && hs.imm == 256 * code(2) + code(3)
  {
    hide ReadFront, ReadRex, Classify, PrefixRun, WellFormed, Le, TakeImm;
    NoPrefixes(t, code);
    OneByteFront(t, code, 0xc8);
    EnterFront(t);
    var f := Front(1, CLEARED.(opcode := 0xc8), {NONE}, false, 0xc8, 0x06, 0);
    assert ReadModrm(t, code, f) == f;
    Hde64Proofs.TwoImmediates(code, Cursor(1, f.hs));
  }

  lemma EnterFront(t: HdeTable)
    ensures Classify(t, false, Front(1, CLEARED.(opcode := 0xc8), {NONE}, false, 0xc8, 0, 0))
         == Front(1, CLEARED.(opcode := 0xc8), {NONE}, false, 0xc8, 0x06, 0)
  {
    JumpClasses(t);
    hide PlainEntry, ClassByte, WellFormed;
  }
}
