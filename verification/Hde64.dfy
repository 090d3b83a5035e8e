/**
 hde64_disasm in the source's own form: a read cursor, flag words and a record updated in place, table walks as loops.
 Each method is proved equal to its stage of Hde64Spec.
 */
module Hde64 {
  import opened Bytes
  import opened Table64
  import opened Hde64Spec
  import Hde64Proofs

  /** A run of n prefixes that cannot go on is the run. */
  lemma {:induction false} RunEnds(code: Code, m: nat, n: nat)
    requires m <= n <= MAX_PREFIXES && (forall i :: m <= i < n ==> PrefixOf(code(i)) != NONE)
    requires n == MAX_PREFIXES || PrefixOf(code(n)) == NONE
    ensures PrefixRun(code, m) == n
    decreases n - m
  {
    if m < n {
      RunEnds(code, m + 1, n);
    }
  }

  lemma NothingRead(code: Code)
    ensures PrefixFields(code, 0) == CLEARED && PrefixSet(code, 0) == {}
  {
  }

  /** One more byte: the field of its kind is overwritten, a byte that is no prefix changes nothing. */
  lemma PrefixStep(code: Code, n: nat)
    ensures var hs, c, k := PrefixFields(code, n), code(n), PrefixOf(code(n));
            PrefixFields(code, n + 1) ==
              if k == F2 || k == F3 then hs.(p_rep := c)
              else if k == LOCK then hs.(p_lock := c)
              else if k == SEG then hs.(p_seg := c)
              else if k == P66 then hs.(p_66 := c)
              else if k == P67 then hs.(p_67 := c)
              else hs
    ensures PrefixSet(code, n + 1) == PrefixSet(code, n) + {PrefixOf(code(n))}
  {
    hide PrefixOf;
  }

  /** The prefix loop: c is the last byte read, p the position after it. */
  method ReadPrefixes(code: Code) returns (p: nat, c: byte, hs: Hde64s, pref: set<Prefix>)
    ensures var n := PrefixRun(code, 0);
            && p == (if n < MAX_PREFIXES then n + 1 else n) && c == code(p - 1)
            && hs == PrefixFields(code, n) && pref == PrefixSet(code, n)
  {
    hide PrefixRun, PrefixFields, PrefixSet;
    assert PrefixFields(code, 0) == CLEARED && PrefixSet(code, 0) == {} by { NothingRead(code); }
    p, hs, pref, c := 0, CLEARED, {}, 0;
    var x: nat := MAX_PREFIXES;
    while x != 0
      invariant x + p == MAX_PREFIXES
      invariant forall i :: 0 <= i < p ==> PrefixOf(code(i)) != NONE
      invariant p > 0 ==> c == code(p - 1)
      invariant hs == PrefixFields(code, p) && pref == PrefixSet(code, p)
      decreases x
    {
      PrefixStep(code, p);
      c := code(p);
      p := p + 1;
      if c == 0xf3 {
        hs, pref := hs.(p_rep := c), pref + {F3};
      } else if c == 0xf2 {
        hs, pref := hs.(p_rep := c), pref + {F2};
      } else if c == 0xf0 {
        hs, pref := hs.(p_lock := c), pref + {LOCK};
      } else if c == 0x26 || c == 0x2e || c == 0x36 || c == 0x3e || c == 0x64 || c == 0x65 {
        hs, pref := hs.(p_seg := c), pref + {SEG};
      } else if c == 0x66 {
        hs, pref := hs.(p_66 := c), pref + {P66};
      } else if c == 0x67 {
        hs, pref := hs.(p_67 := c), pref + {P67};
      } else {
        RunEnds(code, 0, p - 1);
        return;
      }
      x := x - 1;
    }
    RunEnds(code, 0, p);
  }

  /** Lines 102 to 132: class byte, group entry and refused prefixes of an opcode. */
  method LookUp(t: HdeTable, two: bool, front: Front) returns (f: Front)
    ensures f == Classify(t, two, front)
  {
    hide WellFormed, Meets;
    TableSize(t);
    f := front;
    var ht := if two then DELTA_OPCODES else 0;
    var cflags, x := t[ht + t[ht + f.opcode / 4] + f.opcode % 4], 0;
    if cflags == C_ERROR {
      f := f.(hs := Raise(f.hs, OPCODE_ERROR));
      cflags := 0;
      if f.opcode == 0x24 || f.opcode == 0x26 {
        cflags := cflags + 1;
      }
    }
    if cflags >= C_GROUP {
      ht := ht + cflags % 0x80;
      cflags, x := t[ht], t[ht + 1];
    }
    if f.hs.opcode2 != 0 {
      ht := DELTA_PREFIXES;
      var refused := RefusedPrefixes(t, f.opcode);
      if Meets(refused, f.pref) {
        f := f.(hs := Raise(f.hs, OPCODE_ERROR));
      }
    }
    f := f.(cflags := cflags, mask := x);
  }

  /** Lines 67 to 100: REX and opcode bytes, from the byte c before p. */
  method ReadRexAndOpcode(t: HdeTable, code: Code, at: nat, record: Hde64s, prefixes: set<Prefix>, first: byte)
    returns (f: Front)
    ensures f == ReadRex(t, code, at, record, prefixes, first)
  {
    hide Classify, WellFormed;
    var p, hs, pref, c, op64, two := at, record, prefixes, first, false, false;
    if c / 16 == 4 {
      hs := RexFields(hs, c);
      if hs.rex_w != 0 && code(p) / 8 == 0x17 {
        op64 := true;
      }
      c := code(p);
      p := p + 1;
      if c / 16 == 4 {
        return Front(p, Raise(hs, OPCODE_ERROR), pref, op64, c, 0, 0);
      }
    }
    hs := hs.(opcode := c);
    if c == 0x0f {
      c := code(p);
      p := p + 1;
      hs := hs.(opcode2 := c);
      two := true;
    } else if 0xa0 <= c <= 0xa3 {
      op64 := true;
      if P67 in pref {
        pref := pref + {P66};
      } else {
        pref := pref - {P66};
      }
    }
    f := LookUp(t, two, Front(p, hs, pref, op64, c, 0, 0));
  }

  /** Lines 19 to 132. */
  method ReadToOpcode(t: HdeTable, code: Code) returns (f: Front)
    ensures f == ReadFront(t, code)
  {
    hide PrefixRun, PrefixFields, PrefixFlags, ReadRex, WellFormed;
    var p, c, hs, pref := ReadPrefixes(code);
    hs := Raise(hs, PrefixFlags(pref));
    ghost var n := PrefixRun(code, 0);
    if n > 0 {
      assert PrefixOf(code(0)) in PrefixSet(code, n);
    }
    if pref == {} {
      pref := {NONE};
    }
    f := ReadRexAndOpcode(t, code, p, hs, pref, c);
  }

  /** Lines 186 to 199: walk the pairs from ht; the walk steps by two and meets table_end exactly. */
  method WalkPairs(t: seq<byte>, from: nat, table_end: nat, op: byte, m_reg: nat) returns (ok: bool)
    requires m_reg < 8 && from <= table_end <= |t| && (table_end - from) % 2 == 0
    ensures var k := FirstPair(t, from, table_end, op);
            ok == (k < table_end && !ShiftedTop(t[k + 1], m_reg))
  {
    hide ShiftedTop, Has;
    var ht := from;
    while ht != table_end
      invariant from <= ht <= table_end && (table_end - ht) % 2 == 0
      invariant FirstPair(t, ht, table_end, op) == FirstPair(t, from, table_end, op)
      decreases table_end - ht
    {
      var key := t[ht];
      ht := ht + 1;
      if key == op {
        return !ShiftedTop(t[ht], m_reg);
      }
      ht := ht + 1;
    }
    ok := false;
  }

  /** Lines 271 to 284: walk the triples from ht; the walk steps by three and meets table_end exactly. */
  method WalkTriples(t: seq<byte>, from: nat, table_end: nat, opcode: byte, pref: set<Prefix>, m_reg: nat)
    returns (bad: bool)
    requires m_reg < 8 && from <= table_end <= |t| && (table_end - from) % 3 == 0
    ensures var k := FirstTriple(t, from, table_end, opcode);
            bad == (k < table_end && Meets(t[k + 1], pref) && !ShiftedTop(t[k + 2], m_reg))
  {
    hide ShiftedTop, Meets;
    var ht := from;
    while ht != table_end
      invariant from <= ht <= table_end && (table_end - ht) % 3 == 0
      invariant FirstTriple(t, ht, table_end, opcode) == FirstTriple(t, from, table_end, opcode)
      decreases table_end - ht
    {
      var key := t[ht];
      ht := ht + 1;
      if key == opcode {
        var mask := t[ht];
        ht := ht + 1;
        return Meets(mask, pref) && !ShiftedTop(t[ht], m_reg);
      }
      ht := ht + 2;
    }
    bad := false;
  }

  /** Lines 166 to 203: the LOCK prefix needs a lockable opcode with a memory operand. */
  method LockError(t: HdeTable, two: bool, opcode: byte, m_mod: nat, m_reg: nat) returns (bad: bool)
    requires m_reg < 8
    ensures bad == (m_mod == 3 || !Lockable(t, two, opcode, m_reg))
  {
    hide FirstPair, WellFormed, ShiftedTop, Has;
    TableSize(t);
    if m_mod == 3 {
      return true;
    }
    var ok;
    if two {
      var ht := DELTA_OP2_LOCK_OK;
      var table_end := ht + DELTA_OP_ONLY_MEM - DELTA_OP2_LOCK_OK;
      ok := WalkPairs(t, ht, table_end, opcode, m_reg);
    } else {
      var ht := DELTA_OP_LOCK_OK;
      var table_end := ht + DELTA_OP2_LOCK_OK - DELTA_OP_LOCK_OK;
      ok := WalkPairs(t, ht, table_end, opcode - opcode % 2, m_reg);
    }
    bad := !ok;
  }

  /** Lines 205 to 316: an operand the opcode does not have, and the mode moves to control registers are given. */
  method OperandError(t: HdeTable, two: bool, opcode: byte, pref: set<Prefix>, mod: nat, m_reg: nat)
    returns (bad: bool, m_mod: nat)
    requires m_reg < 8
    ensures bad == BadOperand(t, two, opcode, pref, mod, m_reg) && m_mod == OperandMod(two, opcode, mod)
  {
    hide FirstTriple, WellFormed, ShiftedTop, Meets;
    TableSize(t);
    m_mod := mod;
    if two {
      if opcode == 0x20 || opcode == 0x22 {
        m_mod := 3;
        return m_reg > 4 || m_reg == 1, m_mod;
      } else if opcode == 0x21 || opcode == 0x23 {
        m_mod := 3;
        return m_reg == 4 || m_reg == 5, m_mod;
      }
    } else {
      if opcode == 0x8c {
        return m_reg > 5, m_mod;
      } else if opcode == 0x8e {
        return m_reg == 1 || m_reg > 5, m_mod;
      }
    }
    if m_mod == 3 {
      var ht, table_end := 0, 0;
      if two {
        ht := DELTA_OP2_ONLY_MEM;
        table_end := ht + TABLE_SIZE - DELTA_OP2_ONLY_MEM;
      } else {
        ht := DELTA_OP_ONLY_MEM;
        table_end := ht + DELTA_OP2_ONLY_MEM - DELTA_OP_ONLY_MEM;
      }
      bad := WalkTriples(t, ht, table_end, opcode, pref, m_reg);
    } else if two {
      if opcode == 0x50 || opcode == 0xd7 || opcode == 0xf7 {
        bad := NONE in pref || P66 in pref;
      } else if opcode == 0xd6 {
        bad := F2 in pref || F3 in pref;
      } else {
        bad := opcode == 0xc5;
      }
    } else {
      bad := false;
    }
  }

  /** Lines 142 to 317: the errors of a ModRM byte, raised one after the other. */
  method RaiseModrmErrors(t: HdeTable, front: Front, record: Hde64s, m: byte) returns (hs: Hde64s, m_mod: nat)
    ensures hs == Raise(record, ModrmErrors(t, front, m))
    ensures m_mod == OperandMod(front.hs.opcode2 != 0, front.opcode, m / 64)
  {
    hide Lockable, BadOperand, UndefinedFpu, WellFormed, ShiftedTop;
    hs := record;
    var two := front.hs.opcode2 != 0;
    var m_reg, m_rm := m / 8 % 8, m % 8;
    m_mod := m / 64;
    if front.mask != 0 && ShiftedTop(front.mask, m_reg) {
      hs := Raise(hs, OPCODE_ERROR);
    }
    if !two && 0xd9 <= front.opcode <= 0xdf {
      if UndefinedFpu(t, front.opcode, m_mod, m_reg, m_rm) {
        hs := Raise(hs, OPCODE_ERROR);
      }
    }
    if LOCK in front.pref {
      var bad := LockError(t, two, front.opcode, m_mod, m_reg);
      if bad {
        hs := Raise(hs, LOCK_ERROR);
      }
    }
    var bad;
    bad, m_mod := OperandError(t, two, front.opcode, front.pref, m_mod, m_reg);
    if bad {
      hs := Raise(hs, OPERAND_ERROR);
    }
  }

  /** Lines 319 to 386: the look-ahead byte c is the SIB byte or is put back. */
  method ReadAddressBytes(code: Code, at: nat, record: Hde64s, pref: set<Prefix>, m_mod: nat, m_rm: nat)
    returns (p: nat, hs: Hde64s)
    ensures Cursor(p, hs) == ReadAddress(code, at, record, pref, m_mod, m_rm)
  {
    hide Le, SibFields, DispFlags;
    p, hs := at, record;
    var c := code(p);
    p := p + 1;
    var disp_size := 0;
    if m_mod == 0 {
      if P67 in pref {
        if m_rm == 6 {
          disp_size := 2;
        }
      } else if m_rm == 5 {
        disp_size := 4;
      }
    } else if m_mod == 1 {
      disp_size := 1;
    } else if m_mod == 2 {
      disp_size := 2;
      if P67 !in pref {
        disp_size := disp_size * 2;
      }
    }
    if m_mod != 3 && m_rm == 4 {
      p := p + 1;
      hs := SibFields(hs, c);
      if c % 8 == 5 && m_mod % 2 == 0 {
        disp_size := 4;
      }
    }
    p := p - 1;
    hs := ReadDisp(code, p, hs, disp_size);
    p := p + disp_size;
  }

  /** Lines 134 to 391. */
  method ReadModrmStage(t: HdeTable, code: Code, front: Front) returns (f: Front)
    ensures f == ReadModrm(t, code, front)
  {
    hide ModrmErrors, ReadAddress, WellFormed;
    f := front;
    if Has(f.cflags, C_MODRM) {
      var m := code(f.p);
      var hs := ModrmFields(f.hs, m);
      var m_mod;
      hs, m_mod := RaiseModrmErrors(t, front, hs, m);
      var cflags := f.cflags;
      if m / 8 % 8 <= 1 {
        if f.opcode == 0xf6 {
          if !Has(cflags, C_IMM8) { cflags := cflags + C_IMM8; }
        } else if f.opcode == 0xf7 {
          if !Has(cflags, C_IMM_P66) { cflags := cflags + C_IMM_P66; }
        }
      }
      var p;
      p, hs := ReadAddressBytes(code, f.p + 1, hs, f.pref, m_mod, m % 8);
      f := f.(p := p, hs := hs, cflags := cflags);
    } else if LOCK in f.pref {
      f := f.(hs := Raise(f.hs, LOCK_ERROR));
    }
  }

  /** Lines 393 to 448, the jumps to imm16_ok and rel32_ok as flags. */
  method ReadImmediates(code: Code, f: Front) returns (p: nat, hs: Hde64s)
    ensures Cursor(p, hs) == ReadImm(code, f)
  {
    hide TakeImm, Has;
    var c := Cursor(f.p, f.hs);
    var imm16_ok, rel32_ok := false, false;
    if Has(f.cflags, C_IMM_P66) {
      if Has(f.cflags, C_REL32) {
        if P66 in f.pref {
          c := TakeImm(code, c, 2, {F_IMM16, F_RELATIVE});
          return c.p, c.hs;
        }
        rel32_ok := true;
      } else if f.op64 {
        c := TakeImm(code, c, 8, {F_IMM64});
      } else if P66 !in f.pref {
        c := TakeImm(code, c, 4, {F_IMM32});
      } else {
        imm16_ok := true;
      }
    }
    if !rel32_ok {
      if imm16_ok || Has(f.cflags, C_IMM16) {
        c := TakeImm(code, c, 2, {F_IMM16});
      }
      if Has(f.cflags, C_IMM8) {
        c := TakeImm(code, c, 1, {F_IMM8});
      }
    }
    if rel32_ok || Has(f.cflags, C_REL32) {
      c := TakeImm(code, c, 4, {F_IMM32, F_RELATIVE});
    } else if Has(f.cflags, C_REL8) {
      c := TakeImm(code, c, 1, {F_IMM8, F_RELATIVE});
    }
    p, hs := c.p, c.hs;
  }

  /** hde64_disasm: the record of the instruction at the code pointer, and its length. */
  method Disasm(t: HdeTable, code: Code) returns (len: nat, hs: Hde64s)
    ensures hs == Decode(t, code) && len == hs.len
    ensures 1 <= len <= MAX_LENGTH
  {
    hide ReadFront, ReadModrm, ReadImm, WellFormed;
    var f := ReadToOpcode(t, code);
    f := ReadModrmStage(t, code, f);
    var p;
    p, hs := ReadImmediates(code, f);
    Hde64Proofs.LengthBounds(t, code);
    assert Cursor(p, hs) == Parse(t, code);
    hs := hs.(len := p % 256);
    if hs.len > MAX_LENGTH {
      hs := Raise(hs, {F_ERROR, F_ERROR_LENGTH}).(len := MAX_LENGTH);
    }
    len := hs.len;
  }
}
