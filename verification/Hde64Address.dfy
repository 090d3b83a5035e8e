/**
 How many bytes of address follow a ModRM byte, against the addressing tables of the Intel SDM, volume 2 (tables 2-2 and
 2-3): the SIB byte and the displacement, on the bytes of the instruction.
 */
module Hde64Address {
  import opened Bytes
  import opened Table64
  import opened Hde64Spec
  import opened Hde64Proofs
  import opened Hde64Maps
  import opened Hde64Errors
  import Hde64Jumps

  /** Moves to and from control and debug registers have no memory form, whatever the mode field says. */
  predicate RegisterMove(code: Code) {
    TwoByte(code) && 0x20 <= OpcodeByte(code) <= 0x23
  }

  function Mode(code: Code): nat {
    if RegisterMove(code) then 3 else code(ModrmAt(code)) / 64
  }

  function RmField(code: Code): nat {
    code(ModrmAt(code)) % 8
  }

  predicate HasSib(code: Code) {
    Mode(code) != 3 && RmField(code) == 4
  }

  /** Does a SIB byte follow whose base field is 5? */
  predicate SibWithoutBase(code: Code) {
    HasSib(code) && code(ModrmAt(code) + 1) % 8 == 5
  }

  /** The displacement the tables give with 64-bit and with 32-bit addresses. */
  function TableDisp(code: Code): nat {
    match Mode(code)
    case 0 => if RmField(code) == 5 || SibWithoutBase(code) then 4 else 0
    case 1 => 1
    case 2 => 4
    case _ => 0
  }

  /** The displacement that 16-bit addressing would have instead: three cases behind an address-size prefix. */
  predicate Misaddressed(code: Code) {
    && P67 in Prefixes(code)
    && ((Mode(code) == 0 && (RmField(code) == 5 || RmField(code) == 6)) || (Mode(code) == 2 && !SibWithoutBase(code)))
  }

  /** Where the displacement starts. */
  function DispAt(code: Code): nat {
    ModrmAt(code) + if HasSib(code) then 2 else 1
  }

  /** What the address bytes leave in the record, on the bytes m (the ModRM byte) and s (the byte behind it). */
  lemma AddressRead(code: Code, p: nat, hs: Hde64s, pref: set<Prefix>, mod: nat, rm: nat)
    requires hs.flags !! {F_SIB, F_DISP8, F_DISP16, F_DISP32} && mod < 4
    ensures var r := ReadAddress(code, p, hs, pref, mod, rm).hs;
            var has_sib := mod != 3 && rm == 4;
            && (F_SIB in r.flags <==> has_sib) && (has_sib ==> r.sib == code(p)) && r.modrm == hs.modrm
            && DispSize(r.flags) == SizeRead(pref, mod, rm, code(p))
            && r.disp == Le(code, if has_sib then p + 1 else p, DispSize(r.flags))
  {
    hide Le;
  }

  /** The size read for mod, rm and a following byte s. */
  function SizeRead(pref: set<Prefix>, mod: nat, rm: nat, s: byte): nat {
    if mod % 2 == 0 && rm == 4 && s % 8 == 5 then 4
    else if mod == 1 then 1
    else if mod == 2 then if P67 in pref then 2 else 4
    else if mod == 0 && rm == 5 && P67 !in pref then 4
    else if mod == 0 && rm == 6 && P67 in pref then 2
    else 0
  }

  lemma ModrmRead(t: HdeTable, code: Code, f: Front)
    requires Has(f.cflags, C_MODRM) && f.hs.flags !! OPERAND_FLAGS
    ensures var r := ReadModrm(t, code, f).hs;
            var m := code(f.p);
            var mod := OperandMod(f.hs.opcode2 != 0, f.opcode, m / 64);
            var has_sib := mod != 3 && m % 8 == 4;
            && r.modrm == m && (F_SIB in r.flags <==> has_sib) && (has_sib ==> r.sib == code(f.p + 1))
            && DispSize(r.flags) == SizeRead(f.pref, mod, m % 8, code(f.p + 1))
            && r.disp == Le(code, if has_sib then f.p + 2 else f.p + 1, DispSize(r.flags))
  {
    hide ModrmErrors, ReadAddress, ModrmClass, WellFormed, Le, SizeRead, DispSize;
    var m := code(f.p);
    ErrorFlags(t, f, m);
    var hs := Raise(ModrmFields(f.hs, m), ModrmErrors(t, f, m));
    AddressRead(code, f.p + 1, hs, f.pref, OperandMod(f.hs.opcode2 != 0, f.opcode, m / 64), m % 8);
  }

  /** The fields the ModRM stage is alone to write. */
  ghost predicate SameOperand(g: Hde64s, f: Hde64s) {
    && g.modrm == f.modrm && g.sib == f.sib && g.disp == f.disp
    && forall x :: x in OPERAND_FLAGS ==> (x in g.flags <==> x in f.flags)
  }

  lemma TakeKeeps(code: Code, c: Cursor, n: nat, fl: set<Flag>)
    requires fl !! OPERAND_FLAGS
    ensures SameOperand(TakeImm(code, c, n, fl).hs, c.hs)
  {
    hide Le, UpperBytes;
  }

  lemma FixedKeeps(code: Code, c: Cursor, cflags: byte, imm16: bool)
    ensures SameOperand(TakeFixed(code, c, cflags, imm16).hs, c.hs)
  {
    hide TakeImm;
    var c1 := if imm16 then TakeImm(code, c, 2, {F_IMM16}) else c;
    var c2 := if Has(cflags, C_IMM8) then TakeImm(code, c1, 1, {F_IMM8}) else c1;
    TakeKeeps(code, c, 2, {F_IMM16});
    TakeKeeps(code, c1, 1, {F_IMM8});
    TakeKeeps(code, c2, 4, {F_IMM32, F_RELATIVE});
    TakeKeeps(code, c2, 1, {F_IMM8, F_RELATIVE});
  }

  lemma ImmKeepsOperand(code: Code, f: Front)
    ensures SameOperand(ReadImm(code, f).hs, f.hs)
  {
    hide TakeImm, TakeFixed;
    var c := Cursor(f.p, f.hs);
    var imm16 := Has(f.cflags, C_IMM16);
    TakeKeeps(code, c, 2, {F_IMM16, F_RELATIVE});
    TakeKeeps(code, c, 4, {F_IMM32, F_RELATIVE});
    TakeKeeps(code, c, 8, {F_IMM64});
    TakeKeeps(code, c, 4, {F_IMM32});
    FixedKeeps(code, c, f.cflags, imm16);
    FixedKeeps(code, TakeImm(code, c, 8, {F_IMM64}), f.cflags, imm16);
    FixedKeeps(code, TakeImm(code, c, 4, {F_IMM32}), f.cflags, imm16);
    FixedKeeps(code, c, f.cflags, true);
  }

  /** The immediates and the length limit leave the operand alone. */
  lemma OperandKept(t: HdeTable, code: Code)
    ensures var g, hs := ReadModrm(t, code, ReadFront(t, code)).hs, Decode(t, code);
            SameOperand(hs, g) && DispSize(hs.flags) == DispSize(g.flags)
  {
    hide ReadFront, ReadModrm, ReadImm, WellFormed;
    ImmKeepsOperand(code, ReadModrm(t, code, ReadFront(t, code)));
  }

  /**
   The operand bytes of every error-free instruction. A ModRM byte is read exactly when the opcode's class asks for one;
   a SIB byte follows in the modes with memory when rm is 4; the displacement stands behind them and has the size of the
   tables if and only if the instruction is not misaddressed, and the 16-bit size otherwise.
   */
  lemma AddressRule(t: HdeTable, code: Code)
    requires F_ERROR !in Decode(t, code).flags
    ensures var hs := Decode(t, code);
            && (F_MODRM in hs.flags <==> Has(ClassOf(t, TwoByte(code), OpcodeByte(code)), C_MODRM))
            && (F_MODRM in hs.flags ==>
                  && hs.modrm == code(ModrmAt(code)) && (F_SIB in hs.flags <==> HasSib(code))
                  && (HasSib(code) ==> hs.sib == code(ModrmAt(code) + 1))
                  && hs.disp == Le(code, DispAt(code), DispSize(hs.flags))
                  && (DispSize(hs.flags) == TableDisp(code) <==> !Misaddressed(code))
                  && (Misaddressed(code) ==>
                        DispSize(hs.flags) == if Mode(code) == 0 && RmField(code) == 5 then 0 else 2))
            && (F_MODRM !in hs.flags ==> F_SIB !in hs.flags && DispSize(hs.flags) == 0)
  {
    hide Decode, ReadFront, ReadModrm, WellFormed, PrefixRun, PrefixOf, ClassOf, Le, DispSize, TableDisp, Misaddressed,
         TwoByte, OpcodeByte, ModrmAt, Prefixes, SizeRead, OffsetMove, WideMove, OPERAND_FLAGS;
    var f := ReadFront(t, code);
    var g := ReadModrm(t, code, f);
    NoSecondRex(t, code);
    FrontOf(t, code);
    OperandKept(t, code);
    ModeRead(t, code, f);
    assert f.hs.flags !! OPERAND_FLAGS by { NoOperandYet(f.hs.flags); }
    assert {F_MODRM, F_SIB} <= OPERAND_FLAGS by { NoOperandYet(f.hs.flags); }
    if Has(f.cflags, C_MODRM) {
      ModrmFrame(t, code, f);
      ModrmRead(t, code, f);
      SizesAgree(code, f.pref);
    } else {
      NoModrmKeeps(t, code, f);
    }
  }

  lemma NoOperandYet(flags: set<Flag>)
    ensures {F_MODRM, F_SIB} <= OPERAND_FLAGS
    ensures flags <= PREFIX_FLAGS + {F_PREFIX_REX} + OPCODE_ERROR ==> flags !! OPERAND_FLAGS
  {
  }

  lemma ModeRead(t: HdeTable, code: Code, f: Front)
    requires FrontRead(t, code, f)
    ensures OperandMod(f.hs.opcode2 != 0, f.opcode, code(f.p) / 64) == Mode(code)
  {
    hide ModrmAt, TwoByte, OpcodeByte, ClassOf, OffsetMove, WideMove, Prefixes, WellFormed, ClassByte;
  }

  lemma NoModrmKeeps(t: HdeTable, code: Code, f: Front)
    requires !Has(f.cflags, C_MODRM) && f.hs.flags !! OPERAND_FLAGS
    ensures var flags := ReadModrm(t, code, f).hs.flags;
            F_MODRM !in flags && F_SIB !in flags && DispSize(flags) == 0
  {
  }

  /** The size read is the table's, but for the three cases. */
  lemma SizesAgree(code: Code, pref: set<Prefix>)
    requires P67 in pref <==> P67 in Prefixes(code)
    ensures var size := SizeRead(pref, Mode(code), RmField(code), code(ModrmAt(code) + 1));
            && (size == TableDisp(code) <==> !Misaddressed(code))
            && (Misaddressed(code) ==> size == if Mode(code) == 0 && RmField(code) == 5 then 0 else 2)
  {
    hide Prefixes, TwoByte, ModrmAt, OpcodeByte, PrefixOf, PrefixRun;
  }

  // ----------------------------------------------------------- a wrong length

  /** jmp [eip + disp32] as far as its ModRM byte. */
  predicate EipJump(code: Code) {
    code(0) == 0x67 && code(1) == 0xff && code(2) == 0x25
  }

  lemma EipJumpBytes(code: Code)
    requires EipJump(code)
    ensures PrefixRun(code, 0) == 1 && Prefixes(code) == {P67} && ModrmAt(code) == 2
    ensures !TwoByte(code) && OpcodeByte(code) == 0xff && RegField(code) == 4
    ensures WithOpcode(code) && !OffsetMove(code) && Misaddressed(code)
  {
    hide PrefixRun, PrefixSet;
    assert PrefixOf(0x67) == P67 && PrefixOf(0xff) == NONE;
    OnePrefix(code);
  }

  /** It asks for no error and no immediate. */
  lemma EipJumpForm(t: HdeTable, code: Code)
    requires MapFacts(t) && EipJump(code)
    ensures HasModrm(t, code) && ClassOf(t, false, 0xff) == C_MODRM && !Undefined(t, code) && !PrefixRefused(t, code)
    ensures !UndefinedInGroup(t, code) && !UndefinedX87(t, code) && !OperandRefused(t, code)
  {
    hide PrefixRun, PrefixOf, PrefixSet, ClassByte, Resolved, GroupMask, WellFormed, MapFacts, Prefixes, RegField,
         TwoByte, OpcodeByte, ModrmAt, RegisterRefused;
    EipJumpBytes(code);
    Hde64Jumps.JumpClasses(t);
    TopBitIsShiftedTop(GroupMask(t, false, ClassByte(t, false, 0xff)), 4);
  }

  lemma EipJumpEnd(t: HdeTable, code: Code, f: Front)
    requires f.cflags == C_MODRM && f.opcode == 0xff && f.hs.opcode2 == 0 && P67 in f.pref && code(f.p) == 0x25
    ensures ReadImm(code, ReadModrm(t, code, f)).p == f.p + 1
  {
    hide ModrmErrors, WellFormed, Le;
  }

  /** jmp [eip + disp32] has seven bytes; the decoder takes three, without an error, and its displacement for code. */
  lemma EipJumpIsTooShort(t: HdeTable, code: Code)
    requires MapFacts(t) && EipJump(code)
    ensures Decode(t, code).len == 3 && F_ERROR !in Decode(t, code).flags && Misaddressed(code)
  {
    hide ReadFront, ReadModrm, ReadImm, WellFormed, MapFacts, PrefixRun, Prefixes, HasModrm, Undefined,
         PrefixRefused, UndefinedInGroup, UndefinedX87, LockAllowed, OperandRefused, OpcodeByte, TwoByte, ModrmAt,
         ClassOf, Misaddressed, WithOpcode;
    EipJumpBytes(code);
    EipJumpForm(t, code);
    assert PrefixRun(code, 0) < MAX_PREFIXES && code(OpcodeAt(code)) / 16 != 4 by { OpcodeThere(code); }
    FrontOf(t, code);
    EipJumpEnd(t, code, ReadFront(t, code));
    NoErrorIff(t, code);
  }

  lemma OpcodeThere(code: Code)
    requires WithOpcode(code)
    ensures PrefixRun(code, 0) < MAX_PREFIXES && code(OpcodeAt(code)) / 16 != 4
  {
    hide PrefixRun;
  }
}
