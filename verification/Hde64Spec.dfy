/**
 What hde64_disasm computes (common/HDE/HDE64.c), stage by stage: prefixes, opcode, ModRM with SIB and
 displacement, immediates. A stage takes the position it starts at and returns the position it stops at.
 */
module Hde64Spec {
  import opened Bytes
  import opened Table64

  /** The bits of `pref`. NONE is the bit set when no prefix was read. */
  datatype Prefix = NONE | F2 | F3 | P66 | P67 | LOCK | SEG

  /** The bits of `flags`. */
  datatype Flag =
    | F_MODRM | F_SIB
    | F_IMM8 | F_IMM16 | F_IMM32 | F_IMM64
    | F_DISP8 | F_DISP16 | F_DISP32
    | F_RELATIVE
    | F_ERROR | F_ERROR_OPCODE | F_ERROR_LENGTH | F_ERROR_LOCK | F_ERROR_OPERAND
    | F_PREFIX_REPNZ | F_PREFIX_REPX | F_PREFIX_66 | F_PREFIX_67 | F_PREFIX_LOCK | F_PREFIX_SEG | F_PREFIX_REX

  type bit = b: int | 0 <= b < 2

  /** hde64s. `imm` and `disp` are the unions, read at full width. */
  datatype Hde64s = Hde64s(
    len: nat,
    p_rep: byte, p_lock: byte, p_seg: byte, p_66: byte, p_67: byte,
    rex_w: bit, rex_r: bit, rex_x: bit, rex_b: bit,
    opcode: byte, opcode2: byte,
    modrm: byte, modrm_mod: byte, modrm_reg: byte, modrm_rm: byte,
    sib: byte, sib_scale: byte, sib_index: byte, sib_base: byte,
    imm: nat, disp: nat,
    flags: set<Flag>)

  /** memset(hs, 0, sizeof(hde64s)) */
  const CLEARED := Hde64s(0, 0, 0, 0, 0, 0, 0, 0, 0, 0, 0, 0, 0, 0, 0, 0, 0, 0, 0, 0, 0, 0, {})

  const OPCODE_ERROR: set<Flag> := {F_ERROR, F_ERROR_OPCODE}
  const LOCK_ERROR: set<Flag> := {F_ERROR, F_ERROR_LOCK}
  const OPERAND_ERROR: set<Flag> := {F_ERROR, F_ERROR_OPERAND}

  /** `hs->flags |= fl` */
  function Raise(hs: Hde64s, fl: set<Flag>): Hde64s {
    hs.(flags := hs.flags + fl)
  }

  // ---------------------------------------------------------------- prefixes

  /** The prefix a byte is, NONE for any other byte. */
  function PrefixOf(b: byte): Prefix {
    if b == 0xf3 then F3
    else if b == 0xf2 then F2
    else if b == 0xf0 then LOCK
    else if b == 0x26 || b == 0x2e || b == 0x36 || b == 0x3e || b == 0x64 || b == 0x65 then SEG
    else if b == 0x66 then P66
    else if b == 0x67 then P67
    else NONE
  }

  const MAX_PREFIXES: nat := 16

  /** The number of leading prefix bytes, counted from n and up to MAX_PREFIXES. */
  function PrefixRun(code: Code, n: nat): (r: nat)
    requires n <= MAX_PREFIXES
    ensures n <= r <= MAX_PREFIXES
    ensures forall i :: n <= i < r ==> PrefixOf(code(i)) != NONE
    ensures r < MAX_PREFIXES ==> PrefixOf(code(r)) == NONE
    decreases MAX_PREFIXES - n
  {
    if n < MAX_PREFIXES && PrefixOf(code(n)) != NONE then PrefixRun(code, n + 1) else n
  }

  /** The last of the first n bytes that is one of these prefixes, 0 if none is. */
  function LastPrefix(code: Code, n: nat, kinds: set<Prefix>): byte {
    if n == 0 then 0
    else if PrefixOf(code(n - 1)) in kinds then code(n - 1)
    else LastPrefix(code, n - 1, kinds)
  }

  /** The prefixes among the first n bytes. */
  function PrefixSet(code: Code, n: nat): set<Prefix> {
    set i | 0 <= i < n :: PrefixOf(code(i))
  }

  /** `(uint32_t)pref << 23` */
  function PrefixFlags(pref: set<Prefix>): set<Flag> {
    (if F2 in pref then {F_PREFIX_REPNZ} else {}) + (if F3 in pref then {F_PREFIX_REPX} else {})
    + (if P66 in pref then {F_PREFIX_66} else {}) + (if P67 in pref then {F_PREFIX_67} else {})
    + (if LOCK in pref then {F_PREFIX_LOCK} else {}) + (if SEG in pref then {F_PREFIX_SEG} else {})
  }

  /** The prefix fields after n prefix bytes. */
  function PrefixFields(code: Code, n: nat): Hde64s {
    CLEARED.(p_rep := LastPrefix(code, n, {F2, F3}), p_lock := LastPrefix(code, n, {LOCK}),
    p_seg := LastPrefix(code, n, {SEG}), p_66 := LastPrefix(code, n, {P66}), p_67 := LastPrefix(code, n, {P67}))
  }

  /** `mask & pref` for a mask byte of the table. */
  predicate Meets(mask: byte, pref: set<Prefix>) {
    || (NONE in pref && Has(mask, 1)) || (F2 in pref && Has(mask, 2)) || (F3 in pref && Has(mask, 4))
    || (P66 in pref && Has(mask, 8)) || (P67 in pref && Has(mask, 16)) || (LOCK in pref && Has(mask, 32))
    || (SEG in pref && Has(mask, 64))
  }

  // ------------------------------------------------------------------ opcode

  /** The decoder's local state between two stages. */
  datatype Front = Front(p: nat, hs: Hde64s, pref: set<Prefix>, op64: bool, opcode: byte, cflags: byte, mask: byte)

  /** The prefixes a 0F opcode refuses. */
  function RefusedPrefixes(t: HdeTable, opcode: byte): byte {
    t[DELTA_PREFIXES + t[DELTA_PREFIXES + opcode / 4] + opcode % 4]
  }

  /** Table lookup of an opcode. */
  function Classify(t: HdeTable, two: bool, f: Front): (r: Front)
    ensures r.p == f.p && r.pref == f.pref && r.op64 == f.op64 && r.opcode == f.opcode
    ensures r.hs == f.hs || r.hs == Raise(f.hs, OPCODE_ERROR)
  {
    var c := ClassByte(t, two, f.opcode);
    var hs := if c == C_ERROR then Raise(f.hs, OPCODE_ERROR) else f.hs;
    var refused := hs.opcode2 != 0 && Meets(RefusedPrefixes(t, f.opcode), f.pref);
    f.(hs := if refused then Raise(hs, OPCODE_ERROR) else hs,
    cflags := if c != C_ERROR then Resolved(t, two, c) else if f.opcode == 0x24 || f.opcode == 0x26 then 1 else 0,
    mask := if c != C_ERROR then GroupMask(t, two, c) else 0)
  }

  /** The opcode starts with byte c, the byte before position p. */
  function ReadOpcode(t: HdeTable, code: Code, p: nat, hs: Hde64s, pref: set<Prefix>, op64: bool, c: byte): Front {
    if c == 0x0f then
      Classify(t, true, Front(p + 1, hs.(opcode := c, opcode2 := code(p)), pref, op64, code(p), 0, 0))
    else if 0xa0 <= c <= 0xa3 then
      Classify(t, false, Front(p, hs.(opcode := c), if P67 in pref then pref + {P66} else pref - {P66}, true, c, 0, 0))
    else
      Classify(t, false, Front(p, hs.(opcode := c), pref, op64, c, 0, 0))
  }

  /** The fields of a REX byte. */
  function RexFields(hs: Hde64s, c: byte): Hde64s {
    Raise(hs, {F_PREFIX_REX}).(rex_w := c / 8 % 2, rex_r := c / 4 % 2, rex_x := c / 2 % 2, rex_b := c % 2)
  }

  /** REX, if c (the byte before p) is one, and the opcode. */
  function ReadRex(t: HdeTable, code: Code, p: nat, hs: Hde64s, pref: set<Prefix>, c: byte): Front {
    if c / 16 != 4 then
      ReadOpcode(t, code, p, hs, pref, false, c)
    else
      var rex := RexFields(hs, c);
      var op64 := rex.rex_w != 0 && code(p) / 8 == 0x17;
      if code(p) / 16 == 4 then
        Front(p + 1, Raise(rex, OPCODE_ERROR), pref, op64, code(p), 0, 0)
      else
        ReadOpcode(t, code, p + 1, rex, pref, op64, code(p))
  }

  /** Prefixes, REX and opcode. A sixteenth prefix byte is taken for the opcode. */
  function ReadFront(t: HdeTable, code: Code): Front {
    var n := PrefixRun(code, 0);
    var p := if n < MAX_PREFIXES then n + 1 else n;
    var hs := Raise(PrefixFields(code, n), PrefixFlags(PrefixSet(code, n)));
    ReadRex(t, code, p, hs, if n == 0 then {NONE} else PrefixSet(code, n), code(p - 1))
  }

  // ------------------------------------------------------------------- ModRM

  /** `(x << s) & 0x80` for a byte x. */
  predicate ShiftedTop(x: byte, s: nat)
    requires s < 8
  {
    Has(x, if s == 0 then 0x80 else if s == 1 then 0x40 else if s == 2 then 0x20 else if s == 3 then 0x10
           else if s == 4 then 0x08 else if s == 5 then 0x04 else if s == 6 then 0x02 else 0x01)
  }

  /** The first (opcode, mask) pair of t[from..end) for the opcode, `end` if there is none. */
  function FirstPair(t: seq<byte>, from: nat, end: nat, opcode: byte): (k: nat)
    requires from <= end <= |t| && (end - from) % 2 == 0
    ensures from <= k <= end && (k - from) % 2 == 0
    ensures k < end ==> t[k] == opcode && k + 2 <= end
    decreases end - from
  {
    if from == end || t[from] == opcode then from else FirstPair(t, from + 2, end, opcode)
  }

  /** The first (opcode, prefixes, mask) triple of t[from..end) for the opcode, `end` if there is none. */
  function FirstTriple(t: seq<byte>, from: nat, end: nat, opcode: byte): (k: nat)
    requires from <= end <= |t| && (end - from) % 3 == 0
    ensures from <= k <= end && (k - from) % 3 == 0
    ensures k < end ==> t[k] == opcode && k + 3 <= end
    decreases end - from
  {
    if from == end || t[from] == opcode then from else FirstTriple(t, from + 3, end, opcode)
  }

  /** May the memory form of the opcode take a LOCK prefix? */
  predicate Lockable(t: HdeTable, two: bool, opcode: byte, reg: nat)
    requires reg < 8
  {
    var from := if two then DELTA_OP2_LOCK_OK else DELTA_OP_LOCK_OK;
    var end := if two then DELTA_OP_ONLY_MEM else DELTA_OP2_LOCK_OK;
    var k := FirstPair(t, from, end, if two then opcode else opcode - opcode % 2);
    k < end && !ShiftedTop(t[k + 1], reg)
  }

  /** Is the register form of the opcode undefined? */
  predicate MemoryOnly(t: HdeTable, two: bool, opcode: byte, pref: set<Prefix>, reg: nat)
    requires reg < 8
  {
    var from := if two then DELTA_OP2_ONLY_MEM else DELTA_OP_ONLY_MEM;
    var end := if two then TABLE_SIZE else DELTA_OP2_ONLY_MEM;
    var k := FirstTriple(t, from, end, opcode);
    k < end && Meets(t[k + 1], pref) && !ShiftedTop(t[k + 2], reg)
  }

  /** Is the form of an x87 opcode undefined? */
  predicate UndefinedFpu(t: HdeTable, opcode: byte, mod: nat, reg: nat, rm: nat)
    requires 0xd9 <= opcode <= 0xdf && reg < 8 && rm < 8
  {
    if mod == 3 then ShiftedTop(t[DELTA_FPU_MODRM + (opcode - 0xd9) * 8 + reg], rm)
    else ShiftedTop(t[DELTA_FPU_REG + (opcode - 0xd9)], reg)
  }

  /** The mode that sizes the operand: moves to and from control and debug registers are register moves. */
  function OperandMod(two: bool, opcode: byte, mod: nat): nat {
    if two && 0x20 <= opcode <= 0x23 then 3 else mod
  }

  /** Does the ModRM byte name an operand the opcode does not have? */
  predicate BadOperand(t: HdeTable, two: bool, opcode: byte, pref: set<Prefix>, mod: nat, reg: nat)
    requires reg < 8
  {
    if two && (opcode == 0x20 || opcode == 0x22) then reg > 4 || reg == 1
    else if two && (opcode == 0x21 || opcode == 0x23) then reg == 4 || reg == 5
    else if !two && opcode == 0x8c then reg > 5
    else if !two && opcode == 0x8e then reg == 1 || reg > 5
    else if mod == 3 then MemoryOnly(t, two, opcode, pref, reg)
    else if two && (opcode == 0x50 || opcode == 0xd7 || opcode == 0xf7) then NONE in pref || P66 in pref
    else if two && opcode == 0xd6 then F2 in pref || F3 in pref
    else two && opcode == 0xc5
  }

  /** The errors the ModRM byte m raises. */
  function ModrmErrors(t: HdeTable, f: Front, m: byte): set<Flag> {
    var two := f.hs.opcode2 != 0;
    var mod, reg, rm := m / 64, m / 8 % 8, m % 8;
    (if f.mask != 0 && ShiftedTop(f.mask, reg) then OPCODE_ERROR else {})
    + (if !two && 0xd9 <= f.opcode <= 0xdf && UndefinedFpu(t, f.opcode, mod, reg, rm) then OPCODE_ERROR else {})
    + (if LOCK in f.pref && (mod == 3 || !Lockable(t, two, f.opcode, reg)) then LOCK_ERROR else {})
    + (if BadOperand(t, two, f.opcode, f.pref, mod, reg) then OPERAND_ERROR else {})
  }

  /** The displacement size before the SIB byte is looked at. */
  function ModDisp(pref: set<Prefix>, mod: nat, rm: nat): nat {
    if mod == 0 then
      if P67 in pref then if rm == 6 then 2 else 0
      else if rm == 5 then 4 else 0
    else if mod == 1 then 1
    else if mod == 2 then if P67 in pref then 2 else 4
    else 0
  }

  function DispFlags(size: nat): set<Flag> {
    if size == 1 then {F_DISP8} else if size == 2 then {F_DISP16} else if size == 4 then {F_DISP32} else {}
  }

  function ModrmFields(hs: Hde64s, m: byte): Hde64s {
    Raise(hs, {F_MODRM}).(modrm := m, modrm_mod := m / 64, modrm_reg := m / 8 % 8, modrm_rm := m % 8)
  }

  function SibFields(hs: Hde64s, s: byte): Hde64s {
    Raise(hs, {F_SIB}).(sib := s, sib_scale := s / 64, sib_index := s / 8 % 8, sib_base := s % 8)
  }

  /** The displacement size once the SIB byte is known. */
  function SibDisp(disp: nat, mod: nat, sib: byte): nat {
    if sib % 8 == 5 && mod % 2 == 0 then 4 else disp
  }

  /** The group-3 opcodes F6 and F7 take an immediate when the register field is 0 or 1. */
  function ModrmClass(cflags: byte, opcode: byte, reg: nat): byte {
    if reg <= 1 && opcode == 0xf6 && !Has(cflags, C_IMM8) then cflags + C_IMM8
    else if reg <= 1 && opcode == 0xf7 && !Has(cflags, C_IMM_P66) then cflags + C_IMM_P66
    else cflags
  }

  /** The displacement of `size` bytes at p. */
  function ReadDisp(code: Code, p: nat, hs: Hde64s, size: nat): Hde64s {
    Raise(hs, DispFlags(size)).(disp := Le(code, p, size))
  }

  /** A read position and the record so far. */
  datatype Cursor = Cursor(p: nat, hs: Hde64s)

  /** SIB and displacement, from the position after the ModRM byte. */
  function ReadAddress(code: Code, p: nat, hs: Hde64s, pref: set<Prefix>, mod: nat, rm: nat): Cursor {
    var size := ModDisp(pref, mod, rm);
    if mod != 3 && rm == 4 then
      var s := code(p);
      var size' := SibDisp(size, mod, s);
      Cursor(p + 1 + size', ReadDisp(code, p + 1, SibFields(hs, s), size'))
    else
      Cursor(p + size, ReadDisp(code, p, hs, size))
  }

  /** ModRM, SIB and displacement, when the opcode has them. */
  function ReadModrm(t: HdeTable, code: Code, f: Front): Front {
    if !Has(f.cflags, C_MODRM) then
      if LOCK in f.pref then f.(hs := Raise(f.hs, LOCK_ERROR)) else f
    else
      var m := code(f.p);
      var mod := OperandMod(f.hs.opcode2 != 0, f.opcode, m / 64);
      var hs := Raise(ModrmFields(f.hs, m), ModrmErrors(t, f, m));
      var c := ReadAddress(code, f.p + 1, hs, f.pref, mod, m % 8);
      f.(p := c.p, hs := c.hs, cflags := ModrmClass(f.cflags, f.opcode, m / 8 % 8))
  }

  // -------------------------------------------------------------- immediates

  /** The bytes of the union above the n lowest. */
  function UpperBytes(imm: nat, n: nat): nat {
    if n == 1 then imm - imm % 0x100
    else if n == 2 then imm - imm % 0x1_0000
    else if n == 4 then imm - imm % 0x1_0000_0000
    else 0
  }

  /** Store n immediate bytes in the union (the bytes above keep their value) and step over them. */
  function TakeImm(code: Code, c: Cursor, n: nat, fl: set<Flag>): Cursor {
    Cursor(c.p + n, Raise(c.hs, fl).(imm := UpperBytes(c.hs.imm, n) + Le(code, c.p, n)))
  }

  /** The fixed-size immediates of a class, in the order they are read. */
  function TakeFixed(code: Code, c: Cursor, cflags: byte, imm16: bool): Cursor {
    var c1 := if imm16 then TakeImm(code, c, 2, {F_IMM16}) else c;
    var c2 := if Has(cflags, C_IMM8) then TakeImm(code, c1, 1, {F_IMM8}) else c1;
    if Has(cflags, C_REL32) then TakeImm(code, c2, 4, {F_IMM32, F_RELATIVE})
    else if Has(cflags, C_REL8) then TakeImm(code, c2, 1, {F_IMM8, F_RELATIVE})
    else c2
  }

  function ReadImm(code: Code, f: Front): Cursor {
    var c := Cursor(f.p, f.hs);
    var imm16 := Has(f.cflags, C_IMM16);
    if !Has(f.cflags, C_IMM_P66) then TakeFixed(code, c, f.cflags, imm16)
    else if Has(f.cflags, C_REL32) then
      if P66 in f.pref then TakeImm(code, c, 2, {F_IMM16, F_RELATIVE})
      else TakeImm(code, c, 4, {F_IMM32, F_RELATIVE})
    else if f.op64 then TakeFixed(code, TakeImm(code, c, 8, {F_IMM64}), f.cflags, imm16)
    else if P66 !in f.pref then TakeFixed(code, TakeImm(code, c, 4, {F_IMM32}), f.cflags, imm16)
    else TakeFixed(code, c, f.cflags, true)
  }

  const MAX_LENGTH: nat := 15

  /** The length field, with the architectural limit. */
  function Finish(c: Cursor): Hde64s {
    if c.p > MAX_LENGTH then Raise(c.hs, {F_ERROR, F_ERROR_LENGTH}).(len := MAX_LENGTH) else c.hs.(len := c.p)
  }

  /** Where the instruction ends before the length limit is applied, and its record. */
  function Parse(t: HdeTable, code: Code): Cursor {
    ReadImm(code, ReadModrm(t, code, ReadFront(t, code)))
  }

  /** hde64_disasm */
  function Decode(t: HdeTable, code: Code): Hde64s {
    Finish(Parse(t, code))
  }
}
