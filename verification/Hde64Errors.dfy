/**
 When the decoder reports an error, and which, on the bytes of the instruction and the entries of the table: the masks
 are read as the C expressions read them and the table entries are named by what stands in them.
 */
module Hde64Errors {
  import opened Bytes
  import opened Table64
  import opened Hde64Spec
  import opened Hde64Proofs
  import opened Hde64Maps

  // -------------------------------------------------------------- mask bytes

  /** `x << s`, of which a byte keeps the low eight bits. */
  function Shifted(x: byte, s: nat): nat {
    if s == 0 then x else 2 * Shifted(x, s - 1)
  }

  /** `(uint8_t)(x << s) & 0x80` */
  predicate TopBit(x: byte, s: nat) {
    Shifted(x, s) % 0x100 >= 0x80
  }

  lemma ShiftedValue(x: byte)
    ensures Shifted(x, 0) == x && Shifted(x, 1) == 2 * x && Shifted(x, 2) == 4 * x && Shifted(x, 3) == 8 * x
    ensures Shifted(x, 4) == 16 * x && Shifted(x, 5) == 32 * x && Shifted(x, 6) == 64 * x && Shifted(x, 7) == 128 * x
  {
    assert Shifted(x, 1) == 2 * x && Shifted(x, 2) == 4 * x && Shifted(x, 3) == 8 * x;
    assert Shifted(x, 4) == 16 * x && Shifted(x, 5) == 32 * x && Shifted(x, 6) == 64 * x;
  }

  /** The bit of each weight comes out on top when it is shifted there. */
  lemma Bit7(x: byte)
    ensures x % 0x100 >= 0x80 <==> Has(x, 0x80)
  {
  }

  lemma Bit6(x: byte)
    ensures 2 * x % 0x100 >= 0x80 <==> Has(x, 0x40)
  {
  }

  lemma Bit5(x: byte)
    ensures 4 * x % 0x100 >= 0x80 <==> Has(x, 0x20)
  {
  }

  lemma Bit4(x: byte)
    ensures 8 * x % 0x100 >= 0x80 <==> Has(x, 0x10)
  {
  }

  lemma Bit3(x: byte)
    ensures 16 * x % 0x100 >= 0x80 <==> Has(x, 0x08)
  {
  }

  lemma Bit2(x: byte)
    ensures 32 * x % 0x100 >= 0x80 <==> Has(x, 0x04)
  {
  }

  lemma Bit1(x: byte)
    ensures 64 * x % 0x100 >= 0x80 <==> Has(x, 0x02)
  {
  }

  lemma Bit0(x: byte)
    ensures 128 * x % 0x100 >= 0x80 <==> Has(x, 0x01)
  {
  }

  lemma TopBitIsShiftedTop(x: byte, s: nat)
    requires s < 8
    ensures TopBit(x, s) == ShiftedTop(x, s)
  {
    hide Shifted, Has;
    ShiftedValue(x);
    Bit7(x);
    Bit6(x);
    Bit5(x);
    Bit4(x);
    Bit3(x);
    Bit2(x);
    Bit1(x);
    Bit0(x);
  }

  /** The PRE_ bit of a prefix. */
  function PrefixBit(k: Prefix): nat {
    match k
    case NONE => 0x01
    case F2 => 0x02
    case F3 => 0x04
    case P66 => 0x08
    case P67 => 0x10
    case LOCK => 0x20
    case SEG => 0x40
  }

  lemma MeetsIsCommonBit(mask: byte, pref: set<Prefix>)
    ensures Meets(mask, pref) <==> exists k :: k in pref && Has(mask, PrefixBit(k))
  {
    if Meets(mask, pref) {
      var k :| k in pref && (k == NONE || k == F2 || k == F3 || k == P66 || k == P67 || k == LOCK || k == SEG)
               && Has(mask, PrefixBit(k));
    }
  }

  // ----------------------------------------------------------- table entries

  /** Is k the first of the entries of `stride` bytes from `from` to `end` that is about the opcode? */
  ghost predicate FirstEntry(t: seq<byte>, from: nat, end: nat, stride: nat, opcode: byte, k: nat)
    requires from <= end <= |t| && stride > 0
  {
    && from <= k < end && (k - from) % stride == 0 && t[k] == opcode
    && forall j :: from <= j < k && (j - from) % stride == 0 ==> t[j] != opcode
  }

  lemma {:induction false} FirstPairIsFirst(t: seq<byte>, from: nat, end: nat, opcode: byte)
    requires from <= end <= |t| && (end - from) % 2 == 0
    ensures var k := FirstPair(t, from, end, opcode);
            && (k < end ==> FirstEntry(t, from, end, 2, opcode, k))
            && (k == end ==> forall j :: from <= j < end && (j - from) % 2 == 0 ==> t[j] != opcode)
    decreases end - from
  {
    if from < end && t[from] != opcode {
      FirstPairIsFirst(t, from + 2, end, opcode);
      var k := FirstPair(t, from, end, opcode);
      forall j | from <= j < k && (j - from) % 2 == 0 ensures t[j] != opcode {
        if j > from {
          assert (j - (from + 2)) % 2 == 0;
        }
      }
    }
  }

  lemma {:induction false} FirstTripleIsFirst(t: seq<byte>, from: nat, end: nat, opcode: byte)
    requires from <= end <= |t| && (end - from) % 3 == 0
    ensures var k := FirstTriple(t, from, end, opcode);
            && (k < end ==> FirstEntry(t, from, end, 3, opcode, k))
            && (k == end ==> forall j :: from <= j < end && (j - from) % 3 == 0 ==> t[j] != opcode)
    decreases end - from
  {
    if from < end && t[from] != opcode {
      FirstTripleIsFirst(t, from + 3, end, opcode);
      var k := FirstTriple(t, from, end, opcode);
      forall j | from <= j < k && (j - from) % 3 == 0 ensures t[j] != opcode {
        if j > from {
          assert (j - (from + 3)) % 3 == 0;
        }
      }
    }
  }

  // ---------------------------------------------- the conditions, on the bytes

  /** An opcode counts as one of the 0F map unless its second byte is 0. */
  predicate TakenForTwoByte(code: Code) {
    TwoByte(code) && OpcodeByte(code) != 0
  }

  predicate HasModrm(t: HdeTable, code: Code) {
    Has(ClassOf(t, TwoByte(code), OpcodeByte(code)), C_MODRM)
  }

  predicate Undefined(t: HdeTable, code: Code) {
    ClassByte(t, TwoByte(code), OpcodeByte(code)) == C_ERROR
  }

  /** Does the opcode of the 0F map refuse one of the prefixes (or the lack of any)? */
  ghost predicate PrefixRefused(t: HdeTable, code: Code) {
    && TakenForTwoByte(code)
    && var row := DELTA_PREFIXES + t[DELTA_PREFIXES + OpcodeByte(code) / 4];
       exists k :: k in Prefixes(code) && Has(t[row + OpcodeByte(code) % 4], PrefixBit(k))
  }

  /** Is the register field one the group of the opcode does not define? */
  predicate UndefinedInGroup(t: HdeTable, code: Code) {
    var c := ClassByte(t, TwoByte(code), OpcodeByte(code));
    HasModrm(t, code) && c != C_ERROR && TopBit(GroupMask(t, TwoByte(code), c), RegField(code))
  }

  /** Is it an undefined x87 instruction? Memory forms have one mask an opcode, register forms one a register field. */
  predicate UndefinedX87(t: HdeTable, code: Code) {
    var m := code(ModrmAt(code));
    && HasModrm(t, code) && !TwoByte(code) && 0xd9 <= OpcodeByte(code) <= 0xdf
    && if m / 64 == 3 then TopBit(t[DELTA_FPU_MODRM + 8 * (OpcodeByte(code) - 0xd9) + RegField(code)], m % 8)
       else TopBit(t[DELTA_FPU_REG + OpcodeByte(code) - 0xd9], RegField(code))
  }

  /** The entry of the lock table that is about the opcode, one entry for both forms of a one-byte opcode. */
  ghost predicate LockPair(t: HdeTable, code: Code, k: nat) {
    if TakenForTwoByte(code) then FirstEntry(t, DELTA_OP2_LOCK_OK, DELTA_OP_ONLY_MEM, 2, OpcodeByte(code), k)
    else FirstEntry(t, DELTA_OP_LOCK_OK, DELTA_OP2_LOCK_OK, 2, OpcodeByte(code) - OpcodeByte(code) % 2, k)
  }

  /** May LOCK stand before the instruction? */
  ghost predicate LockAllowed(t: HdeTable, code: Code) {
    && HasModrm(t, code) && code(ModrmAt(code)) / 64 != 3
    && exists k :: LockPair(t, code, k) && !TopBit(t[k + 1], RegField(code))
  }

  /** The entry of the memory-only table that is about the opcode. */
  ghost predicate MemoryTriple(t: HdeTable, code: Code, k: nat) {
    if TakenForTwoByte(code) then FirstEntry(t, DELTA_OP2_ONLY_MEM, TABLE_SIZE, 3, OpcodeByte(code), k)
    else FirstEntry(t, DELTA_OP_ONLY_MEM, DELTA_OP2_ONLY_MEM, 3, OpcodeByte(code), k)
  }

  ghost predicate RegisterRefused(t: HdeTable, code: Code) {
    exists k :: MemoryTriple(t, code, k) && (exists x :: x in Prefixes(code) && Has(t[k + 1], PrefixBit(x)))
                && !TopBit(t[k + 2], RegField(code))
  }

  /** The system registers there are: CR0, CR2 to CR4; DR0 to DR3, DR6, DR7; ES, CS, SS, DS, FS, GS. */
  const CONTROL: set<nat> := {0, 2, 3, 4}
  const DEBUG: set<nat> := {0, 1, 2, 3, 6, 7}
  const SEGMENT: set<nat> := {0, 1, 2, 3, 4, 5}

  predicate NamesSystemRegister(two: bool, opcode: byte) {
    if two then 0x20 <= opcode <= 0x23 else opcode == 0x8c || opcode == 0x8e
  }

  /** The system registers such an opcode can name; CS cannot be loaded. */
  function SystemRegisters(opcode: byte): set<nat> {
    if opcode == 0x20 || opcode == 0x22 then CONTROL
    else if opcode == 0x21 || opcode == 0x23 then DEBUG
    else if opcode == 0x8e then SEGMENT - {1}
    else SEGMENT
  }

  /** Is the memory form of a 0F opcode that works on registers only used with these prefixes? */
  predicate MemoryRefused(two: bool, opcode: byte, prefixes: set<Prefix>) {
    && two
    && (opcode in {0x50, 0xd7, 0xf7} ==> !(prefixes !! {NONE, P66}))
    && (opcode == 0xd6 ==> !(prefixes !! {F2, F3}))
    && opcode in {0x50, 0xd7, 0xf7, 0xd6, 0xc5}
  }

  /** Does the ModRM byte name an operand that the opcode does not have? */
  ghost predicate OperandRefused(t: HdeTable, code: Code) {
    && HasModrm(t, code)
    && if NamesSystemRegister(TakenForTwoByte(code), OpcodeByte(code)) then
         RegField(code) !in SystemRegisters(OpcodeByte(code))
       else if code(ModrmAt(code)) / 64 == 3 then RegisterRefused(t, code)
       else MemoryRefused(TakenForTwoByte(code), OpcodeByte(code), Prefixes(code))
  }

  /** At most fifteen prefixes and no second REX byte. */
  predicate WithOpcode(code: Code) {
    PrefixRun(code, 0) < 16 && code(OpcodeAt(code)) / 16 != 4
  }

  // --------------------------------------------------------------- front stage

  /** The part of the front stage FrontRead does not speak of: the mask and the errors. */
  ghost predicate FrontErrors(t: HdeTable, code: Code, f: Front) {
    var c := ClassByte(t, TwoByte(code), OpcodeByte(code));
    && f.mask == (if c == C_ERROR then 0 else GroupMask(t, TwoByte(code), c))
    && (F_ERROR_OPCODE in f.hs.flags <==> c == C_ERROR
                                          || (TakenForTwoByte(code)
                                              && Meets(RefusedPrefixes(t, OpcodeByte(code)), Prefixes(code))))
    && (F_ERROR in f.hs.flags <==> F_ERROR_OPCODE in f.hs.flags)
  }

  lemma OpcodeErrors(t: HdeTable, code: Code, p: nat, hs: Hde64s, pref: set<Prefix>, op64: bool, c: byte)
    requires hs.flags <= PREFIX_FLAGS + {F_PREFIX_REX} && hs.opcode2 == 0
    ensures var f := ReadOpcode(t, code, p, hs, pref, op64, c);
            var two := c == 0x0f;
            var op := if two then code(p) else c;
            var k := ClassByte(t, two, op);
            && f.mask == (if k == C_ERROR then 0 else GroupMask(t, two, k))
            && (F_ERROR_OPCODE in f.hs.flags <==>
                  k == C_ERROR || (two && op != 0 && Meets(RefusedPrefixes(t, op), pref)))
            && (F_ERROR in f.hs.flags <==> F_ERROR_OPCODE in f.hs.flags)
  {
    hide Meets, RefusedPrefixes, ClassByte, Resolved, GroupMask, WellFormed;
  }

  lemma FrontErrorsOf(t: HdeTable, code: Code)
    requires WithOpcode(code)
    ensures FrontErrors(t, code, ReadFront(t, code))
  {
    hide PrefixFields, PrefixRun, PrefixOf, PrefixSet, PrefixFlags, ReadOpcode, WellFormed, Meets, RefusedPrefixes,
         ClassByte, GroupMask;
    var n := PrefixRun(code, 0);
    var p, c := n + 1, code(n);
    PrefixFieldsClear(code, n);
    ClearedOpcode(code, n);
    var hs := Raise(PrefixFields(code, n), PrefixFlags(PrefixSet(code, n)));
    if c / 16 != 4 {
      OpcodeErrors(t, code, p, hs, Prefixes(code), false, c);
    } else {
      var rex := RexFields(hs, c);
      OpcodeErrors(t, code, p + 1, rex, Prefixes(code), rex.rex_w != 0 && code(p) / 8 == 0x17, code(p));
    }
  }

  // --------------------------------------------------------------- ModRM stage

  lemma ModrmErrorFlags(t: HdeTable, f: Front, m: byte)
    ensures var e := ModrmErrors(t, f, m);
            var two := f.hs.opcode2 != 0;
            var mod, reg, rm := m / 64, m / 8 % 8, m % 8;
            && (F_ERROR_OPCODE in e <==>
                  || (f.mask != 0 && ShiftedTop(f.mask, reg))
                  || (!two && 0xd9 <= f.opcode <= 0xdf && UndefinedFpu(t, f.opcode, mod, reg, rm)))
            && (F_ERROR_LOCK in e <==> LOCK in f.pref && (mod == 3 || !Lockable(t, two, f.opcode, reg)))
            && (F_ERROR_OPERAND in e <==> BadOperand(t, two, f.opcode, f.pref, mod, reg))
            && (F_ERROR in e <==> F_ERROR_OPCODE in e || F_ERROR_LOCK in e || F_ERROR_OPERAND in e)
  {
    hide Lockable, BadOperand, UndefinedFpu, ShiftedTop, WellFormed;
  }

  lemma PairIff(t: seq<byte>, from: nat, end: nat, opcode: byte, j: nat)
    requires from <= end <= |t| && (end - from) % 2 == 0
    ensures FirstEntry(t, from, end, 2, opcode, j) <==> j == FirstPair(t, from, end, opcode) && j < end
  {
    hide FirstPair;
    FirstPairIsFirst(t, from, end, opcode);
  }

  lemma TripleIff(t: seq<byte>, from: nat, end: nat, opcode: byte, j: nat)
    requires from <= end <= |t| && (end - from) % 3 == 0
    ensures FirstEntry(t, from, end, 3, opcode, j) <==> j == FirstTriple(t, from, end, opcode) && j < end
  {
    hide FirstTriple;
    FirstTripleIsFirst(t, from, end, opcode);
  }

  lemma LockableIff(t: HdeTable, code: Code)
    requires HasModrm(t, code)
    ensures LockAllowed(t, code) <==>
            code(ModrmAt(code)) / 64 != 3 && Lockable(t, TakenForTwoByte(code), OpcodeByte(code), RegField(code))
  {
    hide HasModrm, ModrmAt, FirstPair, WellFormed, ShiftedTop, TopBit, PrefixRun, OpcodeByte, TwoByte, TakenForTwoByte,
         RegField, FirstEntry;
    TableSize(t);
    RegIsSmall(code);
    var two, op, reg := TakenForTwoByte(code), OpcodeByte(code), RegField(code);
    var from := if two then DELTA_OP2_LOCK_OK else DELTA_OP_LOCK_OK;
    var end := if two then DELTA_OP_ONLY_MEM else DELTA_OP2_LOCK_OK;
    var key := if two then op else op - op % 2;
    var k := FirstPair(t, from, end, key);
    forall j: nat ensures LockPair(t, code, j) <==> j == k && j < end {
      PairIff(t, from, end, key, j);
    }
    if k < end {
      TopBitIsShiftedTop(t[k + 1], reg);
      assert LockPair(t, code, k);
    }
  }

  lemma MemoryOnlyIff(t: HdeTable, code: Code)
    ensures MemoryOnly(t, TakenForTwoByte(code), OpcodeByte(code), Prefixes(code), RegField(code)) <==>
            RegisterRefused(t, code)
  {
    hide FirstTriple, WellFormed, ShiftedTop, TopBit, PrefixRun, OpcodeByte, TwoByte, TakenForTwoByte, RegField,
         FirstEntry, Prefixes, Meets;
    TableSize(t);
    RegIsSmall(code);
    var two, op, reg := TakenForTwoByte(code), OpcodeByte(code), RegField(code);
    var from := if two then DELTA_OP2_ONLY_MEM else DELTA_OP_ONLY_MEM;
    var end := if two then TABLE_SIZE else DELTA_OP2_ONLY_MEM;
    var k := FirstTriple(t, from, end, op);
    forall j: nat ensures MemoryTriple(t, code, j) <==> j == k && j < end {
      TripleIff(t, from, end, op, j);
    }
    if k < end {
      TopBitIsShiftedTop(t[k + 2], reg);
      MeetsIsCommonBit(t[k + 1], Prefixes(code));
      assert MemoryTriple(t, code, k);
    }
  }

  lemma BadOperandIff(t: HdeTable, code: Code)
    requires HasModrm(t, code)
    ensures var two, op, mod := TakenForTwoByte(code), OpcodeByte(code), code(ModrmAt(code)) / 64;
            BadOperand(t, two, op, Prefixes(code), mod, RegField(code)) <==> OperandRefused(t, code)
  {
    hide MemoryOnly, RegisterRefused, PrefixRun, PrefixOf, PrefixSet, OpcodeByte, TakenForTwoByte, ModrmAt, WellFormed,
         HasModrm, Prefixes;
    MemoryOnlyIff(t, code);
    RegIsSmall(code);
    MemoryRefusedIff(Prefixes(code));
    SmallRegisters(RegField(code));
  }

  lemma MemoryRefusedIff(prefixes: set<Prefix>)
    ensures prefixes !! {NONE, P66} <==> NONE !in prefixes && P66 !in prefixes
    ensures prefixes !! {F2, F3} <==> F2 !in prefixes && F3 !in prefixes
  {
  }

  lemma SmallRegisters(reg: nat)
    requires reg < 8
    ensures reg in CONTROL <==> !(reg > 4 || reg == 1)
    ensures reg in DEBUG <==> !(reg == 4 || reg == 5)
    ensures reg in SEGMENT <==> reg <= 5
    ensures reg in SEGMENT - {1} <==> !(reg == 1 || reg > 5)
  {
  }

  lemma RegIsSmall(code: Code)
    ensures RegField(code) < 8
  {
  }

  predicate BadOpcode(f: Front, t: HdeTable, m: byte) {
    var reg := m / 8 % 8;
    || (f.mask != 0 && ShiftedTop(f.mask, reg))
    || (f.hs.opcode2 == 0 && 0xd9 <= f.opcode <= 0xdf && UndefinedFpu(t, f.opcode, m / 64, reg, m % 8))
  }

  lemma BadOpcodeIff(t: HdeTable, code: Code, f: Front)
    requires FrontRead(t, code, f) && FrontErrors(t, code, f) && HasModrm(t, code)
    ensures BadOpcode(f, t, code(f.p)) <==> UndefinedInGroup(t, code) || UndefinedX87(t, code)
  {
    hide ShiftedTop, TopBit, PrefixRun, PrefixOf, PrefixSet, OpcodeByte, TwoByte, Prefixes, ModrmAt, ClassByte,
         GroupMask, WellFormed, HasModrm, Meets, OffsetMove, WideMove;
    TableSize(t);
    var m, op := code(f.p), OpcodeByte(code);
    var reg, rm := m / 8 % 8, m % 8;
    TopBitIsShiftedTop(f.mask, reg);
    ZeroHasNoTop(reg);
    if 0xd9 <= op <= 0xdf {
      TopBitIsShiftedTop(t[DELTA_FPU_MODRM + (op - 0xd9) * 8 + reg], rm);
      TopBitIsShiftedTop(t[DELTA_FPU_REG + (op - 0xd9)], reg);
    }
  }

  lemma ZeroHasNoTop(s: nat)
    requires s < 8
    ensures !ShiftedTop(0, s)
  {
  }

  /** The errors of the first two stages. */
  ghost predicate StageErrors(t: HdeTable, code: Code, flags: set<Flag>) {
    && (F_ERROR_OPCODE in flags <==>
          Undefined(t, code) || PrefixRefused(t, code) || UndefinedInGroup(t, code) || UndefinedX87(t, code))
    && (F_ERROR_LOCK in flags <==> LOCK in Prefixes(code) && !LockAllowed(t, code))
    && (F_ERROR_OPERAND in flags <==> OperandRefused(t, code))
    && (F_ERROR in flags <==> F_ERROR_OPCODE in flags || F_ERROR_LOCK in flags || F_ERROR_OPERAND in flags)
    && F_ERROR_LENGTH !in flags
  }

  lemma RefusedIff(t: HdeTable, code: Code)
    ensures PrefixRefused(t, code) <==>
              TakenForTwoByte(code) && Meets(RefusedPrefixes(t, OpcodeByte(code)), Prefixes(code))
  {
    hide TakenForTwoByte, OpcodeByte, Prefixes, WellFormed, Meets;
    MeetsIsCommonBit(RefusedPrefixes(t, OpcodeByte(code)), Prefixes(code));
  }

  const ERRORS: set<Flag> := {F_ERROR, F_ERROR_OPCODE, F_ERROR_LOCK, F_ERROR_OPERAND, F_ERROR_LENGTH}

  /** A stage that raises the flags e, and beyond them none that tells an error. */
  lemma RaisedErrors(f: set<Flag>, e: set<Flag>, rest: set<Flag>, g: set<Flag>)
    requires f + e <= g <= f + e + rest && rest !! ERRORS
    ensures forall x :: x in ERRORS ==> (x in g <==> x in f || x in e)
  {
    hide ERRORS;
  }

  lemma ErrorsApart()
    ensures {F_MODRM} + OPERAND_FLAGS !! ERRORS && IMM_FLAGS + {F_RELATIVE} !! ERRORS
    ensures {F_ERROR, F_ERROR_OPCODE, F_ERROR_LOCK, F_ERROR_OPERAND, F_ERROR_LENGTH} == ERRORS
  {
  }

  lemma NoModrmErrors(t: HdeTable, code: Code, f: Front)
    requires FrontRead(t, code, f) && FrontErrors(t, code, f) && !HasModrm(t, code)
    ensures StageErrors(t, code, ReadModrm(t, code, f).hs.flags)
  {
    hide OpcodeByte, TwoByte, Prefixes, ModrmAt, ClassByte, ClassOf, GroupMask, WellFormed, Meets, OffsetMove, WideMove,
         PrefixRefused;
    RefusedIff(t, code);
  }

  /** The ModRM stage keeps the errors of the front stage and adds its own. */
  lemma ModrmAddsErrors(t: HdeTable, code: Code, f: Front)
    requires Has(f.cflags, C_MODRM)
    ensures var m, g := code(f.p), ReadModrm(t, code, f).hs.flags;
            forall x :: x in ERRORS ==> (x in g <==> x in f.hs.flags || x in ModrmErrors(t, f, m))
  {
    hide ReadModrm, ModrmErrors, ERRORS, OPERAND_FLAGS, WellFormed;
    var m := code(f.p);
    ModrmFrame(t, code, f);
    ErrorsApart();
    RaisedErrors(f.hs.flags, ModrmErrors(t, f, m), {F_MODRM} + OPERAND_FLAGS, ReadModrm(t, code, f).hs.flags);
  }

  lemma WithModrmErrors(t: HdeTable, code: Code, f: Front)
    requires FrontRead(t, code, f) && FrontErrors(t, code, f) && HasModrm(t, code) && !OffsetMove(code)
    ensures StageErrors(t, code, ReadModrm(t, code, f).hs.flags)
  {
    hide OpcodeByte, TwoByte, Prefixes, ModrmAt, ClassByte, ClassOf, GroupMask, WellFormed, Meets, OffsetMove, WideMove,
         PrefixRefused, ModrmErrors, Lockable, BadOperand, ShiftedTop, UndefinedFpu, OperandRefused, UndefinedInGroup,
         UndefinedX87, ReadModrm, LockAllowed, RefusedPrefixes, RegField;
    RefusedIff(t, code);
    var m := code(f.p);
    assert RegField(code) == m / 8 % 8 by { FieldOf(code); }
    ModrmAddsErrors(t, code, f);
    ModrmErrorFlags(t, f, m);
    ErrorFlags(t, f, m);
    BadOpcodeIff(t, code, f);
    LockableIff(t, code);
    BadOperandIff(t, code);
  }

  lemma FieldOf(code: Code)
    ensures RegField(code) == code(ModrmAt(code)) / 8 % 8
  {
  }

  /**
   The errors of every instruction with at most fifteen prefixes and one REX byte, each raised if and only if: the
   opcode is undefined, or refuses a prefix, or is undefined in its group or as an x87 form; LOCK stands before what may
   not be locked; the operand is one the opcode does not have; the whole is longer than fifteen bytes.
   */
  lemma ErrorRule(t: HdeTable, code: Code)
    requires MapFacts(t) && WithOpcode(code)
    ensures var flags := Decode(t, code).flags;
            && (F_ERROR_OPCODE in flags <==>
                  Undefined(t, code) || PrefixRefused(t, code) || UndefinedInGroup(t, code) || UndefinedX87(t, code))
            && (F_ERROR_LOCK in flags <==> LOCK in Prefixes(code) && !LockAllowed(t, code))
            && (F_ERROR_OPERAND in flags <==> OperandRefused(t, code))
            && (F_ERROR_LENGTH in flags <==> Parse(t, code).p > 15)
            && (F_ERROR in flags <==> F_ERROR_OPCODE in flags || F_ERROR_LOCK in flags || F_ERROR_OPERAND in flags
                                      || F_ERROR_LENGTH in flags)
  {
    hide Decode, ReadFront, ReadModrm, ReadImm, WellFormed, MapFacts, PrefixRun, Prefixes, Undefined, PrefixRefused,
         UndefinedInGroup, UndefinedX87, LockAllowed, OperandRefused, ClassOf, ClassByte;
    var f := ReadFront(t, code);
    var g := ReadModrm(t, code, f);
    FrontOf(t, code);
    FrontErrorsOf(t, code);
    if OffsetMove(code) {
      OperandClass(t, OpcodeByte(code));
    }
    if HasModrm(t, code) {
      WithModrmErrors(t, code, f);
    } else {
      NoModrmErrors(t, code, f);
    }
    ImmErrors(code, g);
    LengthError(t, code);
  }

  lemma ImmErrors(code: Code, f: Front)
    ensures forall x :: x in ERRORS ==> (x in ReadImm(code, f).hs.flags <==> x in f.hs.flags)
  {
    hide ReadImm, ERRORS, IMM_FLAGS;
    ImmFrame(code, f);
    ImmRaises(code, f);
    ErrorsApart();
    RaisedErrors(f.hs.flags, {}, IMM_FLAGS + {F_RELATIVE}, ReadImm(code, f).hs.flags);
  }

  lemma LengthError(t: HdeTable, code: Code)
    ensures var c, flags := Parse(t, code), Decode(t, code).flags;
            && (F_ERROR_LENGTH !in c.hs.flags ==> (F_ERROR_LENGTH in flags <==> c.p > 15))
            && (F_ERROR in flags <==> F_ERROR in c.hs.flags || c.p > 15)
            && (F_ERROR_OPCODE in flags <==> F_ERROR_OPCODE in c.hs.flags)
            && (F_ERROR_LOCK in flags <==> F_ERROR_LOCK in c.hs.flags)
            && (F_ERROR_OPERAND in flags <==> F_ERROR_OPERAND in c.hs.flags)
  {
    hide Parse;
  }

  /** The instructions the decoder takes for valid ones. */
  lemma NoErrorIff(t: HdeTable, code: Code)
    requires MapFacts(t)
    ensures F_ERROR !in Decode(t, code).flags <==>
              && WithOpcode(code) && Parse(t, code).p <= 15
              && !Undefined(t, code) && !PrefixRefused(t, code) && !UndefinedInGroup(t, code)
              && !UndefinedX87(t, code) && (LOCK in Prefixes(code) ==> LockAllowed(t, code)) && !OperandRefused(t, code)
  {
    hide Decode, Parse, WellFormed, MapFacts, PrefixRun, Prefixes, Undefined, PrefixRefused, UndefinedInGroup,
         UndefinedX87, LockAllowed, OperandRefused;
    if WithOpcode(code) {
      ErrorRule(t, code);
    } else {
      if F_ERROR !in Decode(t, code).flags {
        NoSecondRex(t, code);
      }
    }
  }
}
