/**
 Which instructions the lock tables of the header let LOCK stand before: those of the Intel SDM's list (volume 2, LOCK),
 and the 82 and 83 forms of the same group.
 */
module Hde64Locks {
  import opened Bytes
  import opened Table64
  import opened Hde64Spec
  import opened Hde64Maps
  import opened Hde64Errors

  /** ADD, OR, ADC, SBB, AND, SUB, XOR; their immediate forms; XCHG; NOT and NEG; INC and DEC. */
  predicate OneByteLock(opcode: byte, reg: nat) {
    || (opcode < 0x38 && opcode % 8 <= 1)
    || (0x80 <= opcode <= 0x83 && reg != 7)
    || opcode == 0x86 || opcode == 0x87
    || ((opcode == 0xf6 || opcode == 0xf7) && (reg == 2 || reg == 3))
    || ((opcode == 0xfe || opcode == 0xff) && reg <= 1)
  }

  /** BTS, BTR, BTC and their immediate forms; CMPXCHG; XADD; CMPXCHG8B. */
  predicate TwoByteLock(opcode: byte, reg: nat) {
    || opcode == 0xab || opcode == 0xb3 || opcode == 0xbb || (opcode == 0xba && reg >= 5)
    || opcode == 0xb0 || opcode == 0xb1 || opcode == 0xc0 || opcode == 0xc1
    || (opcode == 0xc7 && reg == 1)
  }

  /** The lock sections of the header lie at their offsets. */
  ghost predicate LockSections(t: seq<byte>) {
    && |t| == TABLE_SIZE
    && t[DELTA_OP_LOCK_OK..DELTA_OP2_LOCK_OK] == OP_LOCK_OK && t[DELTA_OP2_LOCK_OK..DELTA_OP_ONLY_MEM] == OP2_LOCK_OK
  }

  lemma PairsSections(h: seq<byte>, a: seq<byte>, b: seq<byte>, c: seq<byte>, d: seq<byte>, e: seq<byte>)
    requires |h| == 0x17c && |a| == 50 && |b| == 24 && |c| == 18 && |d| == 15 && |e| == 42
    ensures var t := h + (a + b + c + d + e);
            && |t| == TABLE_SIZE
            && t[DELTA_OP_LOCK_OK..DELTA_OP2_LOCK_OK] == b && t[DELTA_OP2_LOCK_OK..DELTA_OP_ONLY_MEM] == c
  {
  }

  lemma ShippedLocks()
    ensures LockSections(HDE64_TABLE)
  {
    ShippedSections();
    PairsEntries();
    Table64.LockEntry(0);
    OnlyMemEntry(0);
    var h := ONE_BYTE_INDEX + ONE_BYTE_GROUPS + TWO_BYTE_INDEX + TWO_BYTE_GROUPS + ROWS + FPU + PREFIX_INDEX;
    PairsSections(h, PREFIX_ROWS, OP_LOCK_OK, OP2_LOCK_OK, OP_ONLY_MEM, OP2_ONLY_MEM);
  }

  lemma {:induction false} PairAt(t: seq<byte>, from: nat, end: nat, opcode: byte, i: nat)
    requires from <= end <= |t| && (end - from) % 2 == 0 && from + 2 * i <= end
    requires forall j :: 0 <= j < i ==> t[from + 2 * j] != opcode
    requires from + 2 * i < end ==> t[from + 2 * i] == opcode
    ensures FirstPair(t, from, end, opcode) == from + 2 * i
    decreases i
  {
    if i > 0 {
      assert t[from + 2 * 0] != opcode;
      forall j | 0 <= j < i - 1 ensures t[from + 2 + 2 * j] != opcode {
        assert t[from + 2 * (j + 1)] != opcode;
      }
      PairAt(t, from + 2, end, opcode, i - 1);
    }
  }

  /** The entries of the two sections, told as a rule. */
  function OneByteEntry(i: nat): (byte, byte)
    requires i < 12
  {
    if i < 7 then (8 * i, 0)
    else if i == 7 then (0x80, 0x01) else if i == 8 then (0x82, 0x01) else if i == 9 then (0x86, 0)
    else if i == 10 then (0xf6, 0xcf) else (0xfe, 0x3f)
  }

  function TwoByteEntry(i: nat): (byte, byte)
    requires i < 9
  {
    if i == 0 then (0xab, 0) else if i == 1 then (0xb0, 0) else if i == 2 then (0xb1, 0) else if i == 3 then (0xb3, 0)
    else if i == 4 then (0xba, 0xf8) else if i == 5 then (0xbb, 0) else if i == 6 then (0xc0, 0)
    else if i == 7 then (0xc1, 0) else (0xc7, 0xbf)
  }

  lemma OneByteSection(i: nat)
    requires i < 12
    ensures |OP_LOCK_OK| == 24 && (OP_LOCK_OK[2 * i], OP_LOCK_OK[2 * i + 1]) == OneByteEntry(i)
  {
  }

  lemma TwoByteSection(i: nat)
    requires i < 9
    ensures |OP2_LOCK_OK| == 18 && (OP2_LOCK_OK[2 * i], OP2_LOCK_OK[2 * i + 1]) == TwoByteEntry(i)
  {
  }

  lemma OneByteKeys(t: seq<byte>, i: nat)
    requires LockSections(t) && i < 12
    ensures var k := DELTA_OP_LOCK_OK + 2 * i; (t[k], t[k + 1]) == OneByteEntry(i)
  {
    hide OneByteEntry;
    OneByteSection(i);
    var s := t[DELTA_OP_LOCK_OK..DELTA_OP2_LOCK_OK];
    assert s[2 * i] == t[DELTA_OP_LOCK_OK + 2 * i] && s[2 * i + 1] == t[DELTA_OP_LOCK_OK + 2 * i + 1];
  }

  lemma TwoByteKeys(t: seq<byte>, i: nat)
    requires LockSections(t) && i < 9
    ensures var k := DELTA_OP2_LOCK_OK + 2 * i; (t[k], t[k + 1]) == TwoByteEntry(i)
  {
    hide TwoByteEntry;
    TwoByteSection(i);
    var s := t[DELTA_OP2_LOCK_OK..DELTA_OP_ONLY_MEM];
    assert s[2 * i] == t[DELTA_OP2_LOCK_OK + 2 * i] && s[2 * i + 1] == t[DELTA_OP2_LOCK_OK + 2 * i + 1];
  }

  /** The entry that is about a key, 12 and 9 for none. */
  function OneByteIndex(key: byte): nat {
    if key < 0x38 && key % 8 == 0 then key / 8
    else if key == 0x80 then 7 else if key == 0x82 then 8 else if key == 0x86 then 9
    else if key == 0xf6 then 10 else if key == 0xfe then 11 else 12
  }

  function TwoByteIndex(key: byte): nat {
    if key == 0xab then 0 else if key == 0xb0 then 1 else if key == 0xb1 then 2 else if key == 0xb3 then 3
    else if key == 0xba then 4 else if key == 0xbb then 5 else if key == 0xc0 then 6 else if key == 0xc1 then 7
    else if key == 0xc7 then 8 else 9
  }

  lemma OneByteFound(t: HdeTable, key: byte)
    requires LockSections(t)
    ensures |t| == TABLE_SIZE
    ensures var k, i := FirstPair(t, DELTA_OP_LOCK_OK, DELTA_OP2_LOCK_OK, key), OneByteIndex(key);
            k == DELTA_OP_LOCK_OK + 2 * i && (i < 12 ==> (key, t[k + 1]) == OneByteEntry(i))
  {
    hide FirstPair, WellFormed, LockSections;
    TableSize(t);
    var i := OneByteIndex(key);
    forall j | 0 <= j < 12 && j != i ensures t[DELTA_OP_LOCK_OK + 2 * j] != key {
      OneByteKeys(t, j);
    }
    if i < 12 {
      OneByteKeys(t, i);
    }
    PairAt(t, DELTA_OP_LOCK_OK, DELTA_OP2_LOCK_OK, key, i);
  }

  lemma OneByteLockable(t: HdeTable, opcode: byte, reg: nat)
    requires LockSections(t) && reg < 8
    ensures Lockable(t, false, opcode, reg) <==> OneByteLock(opcode, reg)
  {
    hide FirstPair, WellFormed, LockSections;
    OneByteFound(t, opcode - opcode % 2);
  }

  lemma TwoByteFound(t: HdeTable, key: byte)
    requires LockSections(t)
    ensures |t| == TABLE_SIZE
    ensures var k, i := FirstPair(t, DELTA_OP2_LOCK_OK, DELTA_OP_ONLY_MEM, key), TwoByteIndex(key);
            k == DELTA_OP2_LOCK_OK + 2 * i && (i < 9 ==> (key, t[k + 1]) == TwoByteEntry(i))
  {
    hide FirstPair, WellFormed, LockSections;
    TableSize(t);
    var i := TwoByteIndex(key);
    forall j | 0 <= j < 9 && j != i ensures t[DELTA_OP2_LOCK_OK + 2 * j] != key {
      TwoByteKeys(t, j);
    }
    if i < 9 {
      TwoByteKeys(t, i);
    }
    PairAt(t, DELTA_OP2_LOCK_OK, DELTA_OP_ONLY_MEM, key, i);
  }

  lemma TwoByteLockable(t: HdeTable, opcode: byte, reg: nat)
    requires LockSections(t) && reg < 8
    ensures Lockable(t, true, opcode, reg) <==> TwoByteLock(opcode, reg)
  {
    hide FirstPair, WellFormed, LockSections;
    TwoByteFound(t, opcode);
  }

  /**
   With the header's table, an instruction behind LOCK draws the lock error if and only if it is not a memory form on
   the list; which list is asked does not depend on the map alone (0F 00 is looked up as opcode 0).
   */
  lemma LockRule(t: HdeTable, code: Code)
    requires LockSections(t) && MapFacts(t) && WithOpcode(code) && LOCK in Prefixes(code)
    ensures var op, reg := OpcodeByte(code), RegField(code);
            F_ERROR_LOCK in Decode(t, code).flags <==>
              !(HasModrm(t, code) && code(ModrmAt(code)) / 64 != 3
                && if TakenForTwoByte(code) then TwoByteLock(op, reg) else OneByteLock(op, reg))
  {
    hide Decode, WellFormed, MapFacts, LockSections, HasModrm, ModrmAt, OpcodeByte, TakenForTwoByte, WithOpcode,
         Prefixes, LockAllowed, OneByteLock, TwoByteLock, Lockable, Undefined, PrefixRefused, UndefinedInGroup,
         UndefinedX87, OperandRefused;
    ErrorRule(t, code);
    RegIsSmall(code);
    if HasModrm(t, code) {
      LockableIff(t, code);
      OneByteLockable(t, OpcodeByte(code), RegField(code));
      TwoByteLockable(t, OpcodeByte(code), RegField(code));
    } else {
      assert !LockAllowed(t, code) by { NotLockable(t, code); }
    }
  }

  lemma NotLockable(t: HdeTable, code: Code)
    requires !HasModrm(t, code)
    ensures !LockAllowed(t, code)
  {
  }
}