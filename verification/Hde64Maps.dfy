/**
 Where the decoder confuses the two opcode maps: the test that gives the group-3 opcodes F6 and F7 an immediate does not
 ask for the map, and an opcode of the 0F map counts as a one-byte opcode when its second byte is 0.
 */
module Hde64Maps {
  import opened Bytes
  import opened Table64
  import opened Hde64Spec
  import opened Hde64Proofs
  import Hde64Jumps

  // ------------------------------------------------------------------ frames

  /** The fields that say which opcode and which operand form was read. */
  ghost predicate SameForm(g: Hde64s, f: Hde64s) {
    && g.opcode == f.opcode && g.opcode2 == f.opcode2
    && g.modrm_reg == f.modrm_reg && g.modrm_mod == f.modrm_mod
  }

  lemma ImmFrame(code: Code, f: Front)
    ensures var c := ReadImm(code, f);
            SameForm(c.hs, f.hs) && c.hs.flags <= f.hs.flags + IMM_FLAGS + {F_RELATIVE}
  {
    hide Le, UpperBytes;
  }

  lemma AddressFrame(code: Code, p: nat, hs: Hde64s, pref: set<Prefix>, mod: nat, rm: nat)
    ensures var c := ReadAddress(code, p, hs, pref, mod, rm);
            SameForm(c.hs, hs) && c.hs.flags <= hs.flags + OPERAND_FLAGS && hs.flags <= c.hs.flags
  {
    hide Le;
  }

  /** What the ModRM stage leaves of the front stage, and what it adds. */
  lemma ModrmFrame(t: HdeTable, code: Code, f: Front)
    requires Has(f.cflags, C_MODRM)
    ensures var g := ReadModrm(t, code, f);
            var m := code(f.p);
            && g.pref == f.pref && g.op64 == f.op64 && g.hs.opcode == f.hs.opcode && g.hs.opcode2 == f.hs.opcode2
            && g.hs.modrm_mod == m / 64 && g.hs.modrm_reg == m / 8 % 8
            && g.cflags == ModrmClass(f.cflags, f.opcode, m / 8 % 8)
            && f.hs.flags + {F_MODRM} + ModrmErrors(t, f, m) <= g.hs.flags
            && g.hs.flags <= f.hs.flags + {F_MODRM} + ModrmErrors(t, f, m) + OPERAND_FLAGS
  {
    hide ModrmErrors, ReadAddress, ModrmClass, WellFormed;
    var m := code(f.p);
    var hs := Raise(ModrmFields(f.hs, m), ModrmErrors(t, f, m));
    AddressFrame(code, f.p + 1, hs, f.pref, OperandMod(f.hs.opcode2 != 0, f.opcode, m / 64), m % 8);
  }

  lemma NoModrmFrame(t: HdeTable, code: Code, f: Front)
    requires !Has(f.cflags, C_MODRM)
    ensures var g := ReadModrm(t, code, f);
            && g.pref == f.pref && g.op64 == f.op64 && g.cflags == f.cflags && SameForm(g.hs, f.hs)
            && g.hs.flags <= f.hs.flags + LOCK_ERROR
  {
  }

  // --------------------------------------------------- the opcode, on the bytes

  /** Is the opcode one of the 0F map? */
  predicate TwoByte(code: Code) {
    code(OpcodeAt(code)) == 0x0f
  }

  /** The opcode byte in its map, and where a ModRM byte follows it. */
  function OpcodeByte(code: Code): byte {
    if TwoByte(code) then code(OpcodeAt(code) + 1) else code(OpcodeAt(code))
  }

  function ModrmAt(code: Code): nat {
    OpcodeAt(code) + if TwoByte(code) then 2 else 1
  }

  function RegField(code: Code): nat {
    code(ModrmAt(code)) / 8 % 8
  }

  /** The prefixes the later stages test. */
  function Prefixes(code: Code): set<Prefix> {
    var n := PrefixRun(code, 0);
    if n == 0 then {NONE} else PrefixSet(code, n)
  }

  /** Does a REX byte with the W bit stand before the opcode? */
  predicate RexW(code: Code) {
    var c := code(PrefixRun(code, 0));
    c / 16 == 4 && c / 8 % 2 == 1
  }

  /** mov to and from an absolute offset, and mov of a full-width constant to a register. */
  predicate OffsetMove(code: Code) {
    !TwoByte(code) && 0xa0 <= OpcodeByte(code) <= 0xa3
  }

  predicate WideMove(code: Code) {
    !TwoByte(code) && RexW(code) && 0xb8 <= OpcodeByte(code) <= 0xbf
  }

  /** The class the table gives an opcode, the decoder's stand-in for an undefined one. */
  function ClassOf(t: HdeTable, two: bool, opcode: byte): byte {
    var c := ClassByte(t, two, opcode);
    if c != C_ERROR then Resolved(t, two, c) else if opcode == 0x24 || opcode == 0x26 then 1 else 0
  }

  /** What the front stage leaves behind, in terms of the bytes it read. */
  ghost predicate FrontRead(t: HdeTable, code: Code, f: Front) {
    var two, op := TwoByte(code), OpcodeByte(code);
    && f.p == ModrmAt(code) && f.opcode == op && f.hs.opcode == code(OpcodeAt(code))
    && f.hs.opcode2 == (if two then op else 0) && f.cflags == ClassOf(t, two, op)
    && (f.op64 <==> OffsetMove(code) || WideMove(code))
    && (!OffsetMove(code) ==> f.pref == Prefixes(code)) && (LOCK in f.pref <==> LOCK in Prefixes(code))
    && (P67 in f.pref <==> P67 in Prefixes(code))
    && f.hs.flags <= PREFIX_FLAGS + {F_PREFIX_REX} + OPCODE_ERROR
    && (F_ERROR !in f.hs.flags ==> ClassByte(t, two, op) != C_ERROR)
    && (!two && ClassByte(t, two, op) != C_ERROR ==> F_ERROR !in f.hs.flags)
  }

  lemma OpcodeRead(t: HdeTable, code: Code, p: nat, hs: Hde64s, pref: set<Prefix>, op64: bool, c: byte)
    requires hs.flags <= PREFIX_FLAGS + {F_PREFIX_REX} && hs.opcode2 == 0
    ensures var f := ReadOpcode(t, code, p, hs, pref, op64, c);
            var two := c == 0x0f;
            var op := if two then code(p) else c;
            && f.p == (if two then p + 1 else p) && f.opcode == op && f.hs.opcode == c
            && f.hs.opcode2 == (if two then op else 0) && f.cflags == ClassOf(t, two, op)
            && f.op64 == (op64 || 0xa0 <= c <= 0xa3) && (!(0xa0 <= c <= 0xa3) ==> f.pref == pref)
            && (LOCK in f.pref <==> LOCK in pref) && (P67 in f.pref <==> P67 in pref)
            && f.hs.flags <= PREFIX_FLAGS + {F_PREFIX_REX} + OPCODE_ERROR
            && (F_ERROR !in f.hs.flags ==> ClassByte(t, two, op) != C_ERROR)
            && (!two && ClassByte(t, two, op) != C_ERROR ==> F_ERROR !in f.hs.flags)
  {
    hide Meets, RefusedPrefixes, ClassByte, Resolved, GroupMask, WellFormed;
  }

  /** For at most fifteen prefixes and no second REX byte. */
  lemma FrontOf(t: HdeTable, code: Code)
    requires PrefixRun(code, 0) < MAX_PREFIXES && code(OpcodeAt(code)) / 16 != 4
    ensures FrontRead(t, code, ReadFront(t, code))
  {
    hide PrefixFields, PrefixRun, PrefixOf, PrefixSet, PrefixFlags, ReadOpcode, ClassOf, WellFormed;
    var n := PrefixRun(code, 0);
    var p, c := n + 1, code(n);
    PrefixFieldsClear(code, n);
    ClearedOpcode(code, n);
    var hs := Raise(PrefixFields(code, n), PrefixFlags(PrefixSet(code, n)));
    if c / 16 != 4 {
      OpcodeRead(t, code, p, hs, Prefixes(code), false, c);
    } else {
      var rex := RexFields(hs, c);
      OpcodeRead(t, code, p + 1, rex, Prefixes(code), rex.rex_w != 0 && code(p) / 8 == 0x17, code(p));
    }
  }

  lemma ClearedOpcode(code: Code, n: nat)
    ensures PrefixFields(code, n).opcode == 0 && PrefixFields(code, n).opcode2 == 0
  {
  }

  /** What the immediates and the length limit add to the record of the ModRM stage. */
  lemma LastStages(t: HdeTable, code: Code)
    ensures var g := ReadModrm(t, code, ReadFront(t, code)).hs;
            var hs := Decode(t, code);
            && SameForm(hs, g) && g.flags <= hs.flags
            && hs.flags <= g.flags + IMM_FLAGS + {F_RELATIVE, F_ERROR, F_ERROR_LENGTH}
  {
    hide ReadFront, ReadModrm, ReadImm, WellFormed;
    var g := ReadModrm(t, code, ReadFront(t, code));
    ImmFrame(code, g);
    ImmRaises(code, g);
  }

  /** An instruction without error has at most fourteen prefixes and one REX byte. */
  lemma NoSecondRex(t: HdeTable, code: Code)
    requires F_ERROR !in Decode(t, code).flags
    ensures PrefixRun(code, 0) < MAX_PREFIXES && code(OpcodeAt(code)) / 16 != 4
  {
    hide Decode, ReadModrm, PrefixRun, PrefixOf, Encode, ReportsPrefixes, SubfieldsAgree, WellFormed, ReadOpcode,
         PrefixFields, PrefixSet, PrefixFlags;
    Layout(t, code);
    LengthBounds(t, code);
    LastStages(t, code);
    ModrmRaises(t, code, ReadFront(t, code));
  }

  // -------------------------------------------------------------- immediates

  /** The bytes of immediate a class names, for a 16-bit or a 32-bit operand. */
  function NamedSize(c: byte, op16: bool): nat {
    (if Has(c, C_IMM8) || Has(c, C_REL8) then 1 else 0) + (if Has(c, C_IMM16) then 2 else 0)
    + (if !Has(c, C_IMM_P66) then 0 else if op16 then 2 else 4)
  }

  lemma NamedBytes(code: Code, f: Front)
    requires PlainClass(f.cflags)
    ensures var wide := f.op64 && (f.cflags == 0x10 || f.cflags == 0x11);
            ReadImm(code, f).p == f.p + if wide then 8 else NamedSize(f.cflags, P66 in f.pref)
  {
    hide Le, UpperBytes, Raise;
  }

  /** Is the operand 16 bits wide? REX.W overrides the prefix (section 2.2.1.2 of the Intel SDM, volume 2). */
  predicate Operand16(code: Code) {
    P66 in Prefixes(code) && !RexW(code)
  }

  /** TEST is the only form of the groups F6 and F7 of the one-byte map that has an immediate. */
  predicate GroupTest(code: Code) {
    !TwoByte(code) && (OpcodeByte(code) == 0xf6 || OpcodeByte(code) == 0xf7) && RegField(code) <= 1
  }

  /** The immediate that the class and the rules for operand size and address size give. */
  function RuleSize(t: HdeTable, code: Code): nat {
    if OffsetMove(code) then if P67 in Prefixes(code) then 4 else 8
    else if WideMove(code) then 8
    else if GroupTest(code) then if OpcodeByte(code) == 0xf6 then 1 else if Operand16(code) then 2 else 4
    else NamedSize(ClassOf(t, TwoByte(code), OpcodeByte(code)), Operand16(code))
  }

  /** F6 and F7 of the 0F map, PSADBW and MASKMOVQ, with register field 0 or 1: the map is not looked at. */
  predicate Misjudged(code: Code) {
    TwoByte(code) && (OpcodeByte(code) == 0xf6 || OpcodeByte(code) == 0xf7) && RegField(code) <= 1
  }

  /** A0 to A3 behind an address-size prefix: the offset is read at full width all the same. */
  predicate OffsetTooWide(code: Code) {
    OffsetMove(code) && P67 in Prefixes(code)
  }

  /** An immediate of operand size behind both the operand-size prefix and REX.W: the prefix wins. */
  predicate Narrowed(t: HdeTable, code: Code) {
    && P66 in Prefixes(code) && RexW(code) && !OffsetMove(code) && !WideMove(code)
    && (Has(ClassOf(t, TwoByte(code), OpcodeByte(code)), C_IMM_P66) || (GroupTest(code) && OpcodeByte(code) == 0xf7))
  }

  /** The class the immediate stage works with. */
  function ReadClass(t: HdeTable, code: Code): byte {
    var c := ClassOf(t, TwoByte(code), OpcodeByte(code));
    if Has(c, C_MODRM) then ModrmClass(c, OpcodeByte(code), RegField(code)) else c
  }

  lemma GroupClass(t: HdeTable, two: bool, opcode: byte)
    ensures var c := ClassByte(t, two, opcode);
            c != C_ERROR ==>
              PlainClass(Resolved(t, two, c)) && (opcode == 0xf6 || opcode == 0xf7 ==> Resolved(t, two, c) == 1)
  {
    hide WellFormed, ClassByte;
    PlainClasses(t, two, opcode);
  }

  /** The classes the one-byte theorem needs, on the shipped table. */
  lemma OperandClass(t: HdeTable, opcode: byte)
    requires MapFacts(t) && (0xa0 <= opcode <= 0xa3 || 0xb8 <= opcode <= 0xbf || opcode == 0x05)
    ensures ClassByte(t, false, opcode) == C_IMM_P66 && ClassOf(t, false, opcode) == C_IMM_P66
  {
    hide WellFormed;
    TableSize(t);
  }

  /** How many bytes of immediate the decoder reads. */
  lemma ImmediateRead(t: HdeTable, code: Code)
    requires F_ERROR !in Decode(t, code).flags
    ensures var c := ReadClass(t, code);
            && PlainClass(c) && ClassByte(t, TwoByte(code), OpcodeByte(code)) != C_ERROR
            && ((OffsetMove(code) || WideMove(code)) && c == 0x10 ==> ImmSize(Decode(t, code).flags) == 8)
            && (!OffsetMove(code) && !WideMove(code) ==>
                  ImmSize(Decode(t, code).flags) == NamedSize(c, P66 in Prefixes(code)))
  {
    hide ReadFront, ReadModrm, ReadImm, PrefixRun, PrefixOf, WellFormed, AddressBytes, RexBytes, OpcodeBytes, ImmBytes,
         LastPrefix, PrefixSet, PrefixFlags, PlainClass, Encode, SubfieldsAgree, SameOpcode, ClassByte, Resolved,
         ImmSize, NamedSize, OffsetMove, WideMove, OpcodeByte, ModrmAt, Prefixes, TwoByte, OpcodeAt, ClassOf,
         ModrmClass;
    var f := ReadFront(t, code);
    var g := ReadModrm(t, code, f);
    var c := ReadImm(code, g);
    NoSecondRex(t, code);
    FrontOf(t, code);
    ModrmLocal(t, code, code, f);
    ImmLocal(code, code, g);
    ModrmRaises(t, code, f);
    ImmRaises(code, g);
    FrontLayout(t, code);
    ModrmLayout(t, code, f);
    ClearImm(g.hs, f.hs);
    ImmLayout(code, g);
    SizeOfBytes(c.hs, code(g.p));
    if Has(f.cflags, C_MODRM) {
      ModrmFrame(t, code, f);
    } else {
      NoModrmFrame(t, code, f);
    }
    NamedBytes(code, g);
  }

  lemma SizeOfBytes(hs: Hde64s, lost: byte)
    requires Overlapped(hs.flags) ==> ImmSize(hs.flags) == 3
    ensures |ImmBytes(hs, lost)| == ImmSize(hs.flags)
  {
    hide ImmSize;
  }

  /**
   The immediate of every error-free instruction, with any prefixes and operands, against the rules: it has the size
   they give if and only if it is none of the three cases; those are 1 byte, or 2 or 4, too long, 8 bytes instead of 4,
   and 2 instead of 4.
   */
  lemma ImmediateRule(t: HdeTable, code: Code)
    requires MapFacts(t) && F_ERROR !in Decode(t, code).flags
    ensures var size, rule := ImmSize(Decode(t, code).flags), RuleSize(t, code);
            && (size == rule <==> !Misjudged(code) && !OffsetTooWide(code) && !Narrowed(t, code))
            && (Misjudged(code) ==>
                  rule == 0 && size == if OpcodeByte(code) == 0xf6 then 1 else if P66 in Prefixes(code) then 2 else 4)
            && (OffsetTooWide(code) ==> size == 8 && rule == 4)
            && (Narrowed(t, code) ==> size == 2 && rule == 4)
  {
    hide Decode, WellFormed, ImmSize, PrefixRun, PrefixOf, PrefixSet, OpcodeAt, ClassByte, Resolved, MapFacts, RexW,
         Prefixes;
    ImmediateRead(t, code);
    GroupClass(t, TwoByte(code), OpcodeByte(code));
    if OffsetMove(code) || WideMove(code) {
      OperandClass(t, OpcodeByte(code));
    }
  }

  lemma RelativeImm(code: Code, f: Front)
    requires PlainClass(f.cflags) && F_RELATIVE !in f.hs.flags
    ensures F_RELATIVE in ReadImm(code, f).hs.flags <==> Has(f.cflags, C_REL8) || Has(f.cflags, C_REL32)
  {
    hide TakeImm;
    forall c: Cursor, n: nat, fl: set<Flag>
      ensures F_RELATIVE in TakeImm(code, c, n, fl).hs.flags <==> F_RELATIVE in c.hs.flags || F_RELATIVE in fl
    {
      TakeFlags(code, c, n, fl);
    }
  }

  lemma TakeFlags(code: Code, c: Cursor, n: nat, fl: set<Flag>)
    ensures TakeImm(code, c, n, fl).hs.flags == c.hs.flags + fl
  {
    hide Le, UpperBytes;
  }

  /** Neither of the first two stages says that an immediate is relative. */
  lemma NotYetRelative(t: HdeTable, code: Code, f: Front)
    requires f.hs.flags <= PREFIX_FLAGS + {F_PREFIX_REX} + OPCODE_ERROR
    ensures F_RELATIVE !in ReadModrm(t, code, f).hs.flags
  {
    hide ReadModrm, ModrmErrors, WellFormed;
    if Has(f.cflags, C_MODRM) {
      ModrmFrame(t, code, f);
      ErrorFlags(t, f, code(f.p));
    } else {
      NoModrmFrame(t, code, f);
    }
  }

  lemma RelativeClass(t: HdeTable, code: Code)
    requires PlainClass(ClassOf(t, TwoByte(code), OpcodeByte(code)))
    ensures var c, r := ClassOf(t, TwoByte(code), OpcodeByte(code)), ReadClass(t, code);
            var op := OpcodeByte(code);
            (op == 0xf6 || op == 0xf7 ==> c == 1) ==>
              PlainClass(r) && (Has(r, C_REL8) <==> Has(c, C_REL8)) && (Has(r, C_REL32) <==> Has(c, C_REL32))
  {
    hide ClassOf, OpcodeByte, TwoByte, RegField, WellFormed;
  }

  /** The immediate of an error-free instruction is relative exactly when its class names a displacement of a jump. */
  lemma RelativeRule(t: HdeTable, code: Code)
    requires F_ERROR !in Decode(t, code).flags
    ensures var c := ClassOf(t, TwoByte(code), OpcodeByte(code));
            F_RELATIVE in Decode(t, code).flags <==> Has(c, C_REL8) || Has(c, C_REL32)
  {
    hide Decode, ReadFront, ReadModrm, ReadImm, PrefixRun, PrefixOf, WellFormed, PrefixSet, PrefixFlags, PlainClass,
         ClassByte, Resolved, OffsetMove, WideMove, OpcodeByte, ModrmAt, Prefixes, TwoByte, OpcodeAt, ModrmClass, Has,
         ClassOf, OPCODE_ERROR, PREFIX_FLAGS, ReadClass;
    var f := ReadFront(t, code);
    var g := ReadModrm(t, code, f);
    NoSecondRex(t, code);
    FrontOf(t, code);
    ImmediateRead(t, code);
    OpcodeClassPlain(t, code);
    NotYetRelative(t, code, f);
    assert g.cflags == ReadClass(t, code) by { ClassRead(t, code, f); }
    RelativeClass(t, code);
    RelativeImm(code, g);
    FinishKeepsRelative(t, code);
  }

  lemma ClassRead(t: HdeTable, code: Code, f: Front)
    requires FrontRead(t, code, f)
    ensures ReadModrm(t, code, f).cflags == ReadClass(t, code)
  {
    hide ModrmErrors, ReadAddress, ModrmClass, WellFormed, TwoByte, OpcodeByte, ClassOf, OffsetMove, WideMove, Prefixes,
         ModrmAt, ClassByte;
  }

  lemma OpcodeClassPlain(t: HdeTable, code: Code)
    requires ClassByte(t, TwoByte(code), OpcodeByte(code)) != C_ERROR
    ensures var c, op := ClassOf(t, TwoByte(code), OpcodeByte(code)), OpcodeByte(code);
            PlainClass(c) && (op == 0xf6 || op == 0xf7 ==> c == 1)
  {
    hide PlainClass, ClassByte, Resolved, TwoByte, OpcodeByte, WellFormed;
    GroupClass(t, TwoByte(code), OpcodeByte(code));
  }

  lemma FinishKeepsRelative(t: HdeTable, code: Code)
    ensures var c := ReadImm(code, ReadModrm(t, code, ReadFront(t, code)));
            F_RELATIVE in Decode(t, code).flags <==> F_RELATIVE in c.hs.flags
  {
    hide ReadFront, ReadModrm, ReadImm, WellFormed;
  }

  /** The bytes a misjudged instruction comes out too long. */
  function Surplus(code: Code): nat {
    if !Misjudged(code) then 0 else if OpcodeByte(code) == 0xf6 then 1 else if P66 in Prefixes(code) then 2 else 4
  }

  /**
   On any well-formed table, an error-free instruction of the 0F map has the immediate its class names behind its
   prefixes if and only if it is not F6 or F7 with register field 0 or 1.
   */
  lemma TwoByteImmediate(t: HdeTable, code: Code)
    requires F_ERROR !in Decode(t, code).flags && TwoByte(code)
    ensures var size := ImmSize(Decode(t, code).flags);
            var named := NamedSize(ClassOf(t, true, OpcodeByte(code)), P66 in Prefixes(code));
            size == named + Surplus(code) && (size == named <==> !Misjudged(code))
  {
    hide Decode, WellFormed, ImmSize, PrefixRun, PrefixOf, PrefixSet, OpcodeAt, ClassByte, Resolved, RexW, Prefixes;
    ImmediateRead(t, code);
    GroupClass(t, true, OpcodeByte(code));
  }

  lemma OnePrefix(code: Code)
    requires PrefixOf(code(0)) != NONE && PrefixOf(code(1)) == NONE
    ensures PrefixRun(code, 0) == 1 && PrefixSet(code, 1) == {PrefixOf(code(0))}
  {
    hide PrefixOf;
    assert PrefixRun(code, 1) == 1;
  }

  lemma KnownBytes()
    ensures PrefixOf(0x0f) == NONE && PrefixOf(0xa1) == NONE && PrefixOf(0x48) == NONE
    ensures PrefixOf(0xf0) == LOCK && PrefixOf(0x66) == P66 && PrefixOf(0x67) == P67
  {
  }

  /** What follows a one-byte opcode without ModRM byte and without LOCK. */
  lemma OnlyImmediate(t: HdeTable, code: Code)
    requires PrefixRun(code, 0) < MAX_PREFIXES && code(OpcodeAt(code)) / 16 != 4 && !TwoByte(code)
    requires LOCK !in Prefixes(code) && ClassByte(t, false, OpcodeByte(code)) == C_IMM_P66
    requires var f := ReadFront(t, code); ReadImm(code, f).p <= MAX_LENGTH
    ensures Decode(t, code).len == ReadImm(code, ReadFront(t, code)).p && F_ERROR !in Decode(t, code).flags
  {
    hide Decode, ReadFront, ReadModrm, ReadImm, PrefixRun, PrefixOf, PrefixSet, WellFormed, ClassByte, OpcodeAt,
         Prefixes, RexW;
    FrontOf(t, code);
    var f := ReadFront(t, code);
    NoOperand(t, code, f);
    ShortEnough(t, code);
    ImmFrame(code, f);
  }

  lemma NoOperand(t: HdeTable, code: Code, f: Front)
    requires !Has(f.cflags, C_MODRM) && LOCK !in f.pref
    ensures ReadModrm(t, code, f) == f
  {
  }

  lemma ShortEnough(t: HdeTable, code: Code)
    requires ReadImm(code, ReadModrm(t, code, ReadFront(t, code))).p <= MAX_LENGTH
    ensures var c := ReadImm(code, ReadModrm(t, code, ReadFront(t, code))); Decode(t, code) == c.hs.(len := c.p)
  {
    hide ReadFront, ReadModrm, ReadImm, WellFormed;
  }

  /** mov eax, [offset] behind an address-size prefix has six bytes; the decoder takes ten. */
  lemma OffsetMoveIsTooLong(t: HdeTable, code: Code)
    requires MapFacts(t) && code(0) == 0x67 && code(1) == 0xa1
    ensures Decode(t, code).len == 10 && F_ERROR !in Decode(t, code).flags && OffsetTooWide(code)
  {
    hide Decode, ReadFront, ReadImm, PrefixRun, PrefixOf, PrefixSet, WellFormed, ClassByte, MapFacts, ClassOf;
    KnownBytes();
    OnePrefix(code);
    OperandClass(t, 0xa1);
    FrontOf(t, code);
    NamedBytes(code, ReadFront(t, code));
    OnlyImmediate(t, code);
  }

  /** add rax, imm32 behind an operand-size prefix has seven bytes; the decoder takes five. */
  lemma WideAddIsTooShort(t: HdeTable, code: Code)
    requires MapFacts(t) && code(0) == 0x66 && code(1) == 0x48 && code(2) == 0x05
    ensures Decode(t, code).len == 5 && F_ERROR !in Decode(t, code).flags && Narrowed(t, code)
  {
    hide Decode, ReadFront, ReadImm, PrefixRun, PrefixOf, PrefixSet, WellFormed, ClassByte, MapFacts, ClassOf;
    KnownBytes();
    OnePrefix(code);
    OperandClass(t, 0x05);
    FrontOf(t, code);
    NamedBytes(code, ReadFront(t, code));
    OnlyImmediate(t, code);
  }

  /** A front stage without prefixes on an opcode of the 0F map that refuses no lack of them. */
  lemma MmxFront(t: HdeTable, code: Code)
    requires code(0) == 0x0f && (code(1) == 0xf6 || code(1) == 0xf7)
    ensures var f := ReadFront(t, code);
            && f.p == 2 && f.opcode == code(1) == f.hs.opcode2 && f.cflags == C_MODRM && f.mask == 0 && f.pref == {NONE}
            && !f.op64 && (MapFacts(t) ==> f.hs.flags == {})
  {
    hide ClassByte, WellFormed, PrefixOf, ReadFront;
    assert PrefixOf(0x0f) == NONE by { KnownBytes(); }
    Hde64Jumps.NoPrefixes(t, code);
    Hde64Jumps.JumpClasses(t);
  }

  lemma {:induction false} NoTriple(t: seq<byte>, i: nat, opcode: byte)
    requires |t| == TABLE_SIZE && i <= 14 && forall k :: i <= k < 14 ==> t[DELTA_OP2_ONLY_MEM + 3 * k] != opcode
    ensures FirstTriple(t, DELTA_OP2_ONLY_MEM + 3 * i, TABLE_SIZE, opcode) == TABLE_SIZE
    decreases 14 - i
  {
    if i < 14 {
      NoTriple(t, i + 1, opcode);
    }
  }

  lemma {:induction false} NoPair(t: seq<byte>, i: nat, opcode: byte)
    requires |t| == TABLE_SIZE && i <= 9 && forall k :: i <= k < 9 ==> t[DELTA_OP2_LOCK_OK + 2 * k] != opcode
    ensures FirstPair(t, DELTA_OP2_LOCK_OK + 2 * i, DELTA_OP_ONLY_MEM, opcode) == DELTA_OP_ONLY_MEM
    decreases 9 - i
  {
    if i < 9 {
      NoPair(t, i + 1, opcode);
    }
  }

  lemma MmxErrors(t: HdeTable, f: Front, m: byte)
    requires MapFacts(t) && f.hs.opcode2 == f.opcode && (f.opcode == 0xf6 || f.opcode == 0xf7)
    requires f.mask == 0 && f.pref == {NONE} && m / 64 == 3
    ensures ModrmErrors(t, f, m) == {}
  {
    hide FirstTriple, WellFormed, Lockable, ShiftedTop, Meets;
    TableSize(t);
    NoTriple(t, 0, f.opcode);
  }

  /**
   PSADBW and MASKMOVQ on registers 0 and 1, three bytes long: the decoder says four and seven, and on the header's
   table it says so without an error.
   */
  lemma MmxIsTooLong(t: HdeTable, code: Code)
    requires code(0) == 0x0f && (code(1) == 0xf6 || code(1) == 0xf7) && code(2) / 64 == 3 && code(2) / 8 % 8 <= 1
    ensures var hs := Decode(t, code);
            && hs.len == (if code(1) == 0xf6 then 4 else 7)
            && (if code(1) == 0xf6 then F_IMM8 else F_IMM32) in hs.flags
            && (MapFacts(t) ==> F_ERROR !in hs.flags)
  {
    hide ReadFront, WellFormed, ModrmErrors, ReadAddress, ReadImm, MapFacts;
    MmxFront(t, code);
    var f := ReadFront(t, code);
    var m := code(2);
    var g := ReadModrm(t, code, f);
    RegisterForm(code, 3, Raise(ModrmFields(f.hs, m), ModrmErrors(t, f, m)), {NONE}, m % 8);
    ModrmFrame(t, code, f);
    MmxImm(code, g);
    ImmFrame(code, g);
    TableSize(t);
    if MapFacts(t) {
      MmxErrors(t, f, m);
    }
  }

  lemma RegisterForm(code: Code, p: nat, hs: Hde64s, pref: set<Prefix>, rm: nat)
    ensures ReadAddress(code, p, hs, pref, 3, rm).p == p
  {
  }

  lemma MmxImm(code: Code, f: Front)
    requires (f.cflags == 3 || f.cflags == 0x11) && P66 !in f.pref && !f.op64
    ensures var c := ReadImm(code, f);
            c.p == f.p + (if f.cflags == 3 then 1 else 4) && (if f.cflags == 3 then F_IMM8 else F_IMM32) in c.hs.flags
  {
    hide Le, UpperBytes;
  }

  // ------------------------------------------------------------------- locks

  lemma LockFlag(t: HdeTable, f: Front, m: byte)
    ensures F_ERROR_LOCK in ModrmErrors(t, f, m) <==>
              LOCK in f.pref && (m / 64 == 3 || !Lockable(t, f.hs.opcode2 != 0, f.opcode, m / 8 % 8))
  {
    hide Lockable, BadOperand, UndefinedFpu, ShiftedTop, WellFormed;
  }

  /** A locked instruction of the 0F map with a memory operand. */
  predicate LockedMemory(t: HdeTable, code: Code) {
    && PrefixRun(code, 0) < MAX_PREFIXES && TwoByte(code) && LOCK in Prefixes(code)
    && Has(ClassOf(t, true, OpcodeByte(code)), C_MODRM) && code(ModrmAt(code)) / 64 != 3
  }

  /** The lock table of a memory operand: the one-byte map's when the second opcode byte is 0. */
  lemma LockedTwoByte(t: HdeTable, code: Code)
    requires LockedMemory(t, code)
    ensures F_ERROR_LOCK in Decode(t, code).flags <==>
            !Lockable(t, OpcodeByte(code) != 0, OpcodeByte(code), RegField(code))
  {
    hide Decode, ReadFront, ReadModrm, Lockable, WellFormed, LockedMemory, OpcodeByte, RegField;
    LastStages(t, code);
    LockRead(t, code, ReadFront(t, code));
  }

  lemma LockRead(t: HdeTable, code: Code, f: Front)
    requires LockedMemory(t, code) && f == ReadFront(t, code)
    ensures F_ERROR_LOCK in ReadModrm(t, code, f).hs.flags <==>
            !Lockable(t, OpcodeByte(code) != 0, OpcodeByte(code), RegField(code))
  {
    hide ReadFront, ReadModrm, Lockable, WellFormed, ModrmErrors, PrefixRun, PrefixOf, PrefixSet, ClassOf, OpcodeAt,
         Prefixes, RexW;
    FrontOf(t, code);
    ModrmFrame(t, code, f);
    LockFlag(t, f, code(f.p));
    ErrorFlags(t, f, code(f.p));
  }

  lemma ZeroIsLockable(t: HdeTable, reg: nat)
    requires MapFacts(t) && reg < 8
    ensures Lockable(t, false, 0, reg) && !Lockable(t, true, 0, reg)
  {
    hide FirstPair, WellFormed;
    TableSize(t);
    NoPair(t, 0, 0);
    FirstAtOnce(t);
  }

  lemma FirstAtOnce(t: HdeTable)
    requires MapFacts(t)
    ensures FirstPair(t, DELTA_OP_LOCK_OK, DELTA_OP2_LOCK_OK, 0) == DELTA_OP_LOCK_OK
  {
    hide WellFormed;
  }

  /**
   With the header's table, the verdict on a locked memory form of the 0F map is that of the map's lock table if and
   only if the second opcode byte is not 0; LOCK 0F 00 is never refused, and should always be.
   */
  lemma LockVerdict(t: HdeTable, code: Code)
    requires MapFacts(t) && LockedMemory(t, code)
    ensures var op := OpcodeByte(code);
            && ((F_ERROR_LOCK in Decode(t, code).flags <==> !Lockable(t, true, op, RegField(code))) <==> op != 0)
            && (op == 0 ==> F_ERROR_LOCK !in Decode(t, code).flags)
  {
    hide Decode, Lockable, MapFacts, WellFormed, LockedMemory;
    LockedTwoByte(t, code);
    if OpcodeByte(code) == 0 {
      ZeroIsLockable(t, RegField(code));
    }
  }

  lemma LockedFront(t: HdeTable, code: Code)
    requires MapFacts(t) && code(0) == 0xf0 && code(1) == 0x0f && code(2) == 0
    ensures var f := ReadFront(t, code);
            && f.p == 3 && f.opcode == 0 && f.hs.opcode == 0x0f && f.hs.opcode2 == 0 && f.cflags == C_MODRM
            && f.mask == 0x03 && f.pref == {LOCK} && f.hs.flags == {F_PREFIX_LOCK}
  {
    hide WellFormed, PrefixOf, PrefixRun, LastPrefix, PrefixFields;
    KnownBytes();
    OnePrefix(code);
    PrefixFieldsClear(code, 1);
  }

  /** LOCK SLDT and its neighbours with a memory operand: an undefined instruction that is taken for a defined one. */
  lemma LockedSldt(t: HdeTable, code: Code)
    requires MapFacts(t)
    requires code(0) == 0xf0 && code(1) == 0x0f && code(2) == 0 && code(3) / 64 != 3 && code(3) / 8 % 8 <= 5
    ensures F_ERROR !in Decode(t, code).flags && F_PREFIX_LOCK in Decode(t, code).flags
  {
    hide ReadFront, WellFormed, ModrmErrors, ReadAddress, ReadImm, MapFacts;
    LockedFront(t, code);
    var f := ReadFront(t, code);
    var g := ReadModrm(t, code, f);
    ModrmFrame(t, code, f);
    ImmFrame(code, g);
    ImmRaises(code, g);
    Hde64Jumps.NoImm(code, g);
    ModrmLocal(t, code, code, f);
    SldtErrors(t, f, code(3));
  }

  lemma SldtErrors(t: HdeTable, f: Front, m: byte)
    requires MapFacts(t) && f.hs.opcode2 == 0 && f.opcode == 0 && f.mask == 0x03 && m / 64 != 3 && m / 8 % 8 <= 5
    ensures ModrmErrors(t, f, m) == {}
  {
    hide Lockable, WellFormed, MapFacts, Meets;
    ZeroIsLockable(t, m / 8 % 8);
  }
}
