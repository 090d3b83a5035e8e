/** What the decoder promises: bounded length, a record that accounts for every byte, and locality. */
module Hde64Proofs {
  import opened Bytes
  import opened Table64
  import opened Hde64Spec

  // ---------------------------------------------------------------- locality

  lemma {:induction false} PrefixRunLocal(a: Code, b: Code, n: nat)
    requires n <= MAX_PREFIXES
    requires Agree(a, b, PrefixRun(a, n))
             && (PrefixRun(a, n) < MAX_PREFIXES ==> a(PrefixRun(a, n)) == b(PrefixRun(a, n)))
    ensures PrefixRun(b, n) == PrefixRun(a, n)
    decreases MAX_PREFIXES - n
  {
    if n < MAX_PREFIXES && PrefixOf(a(n)) != NONE {
      PrefixRunLocal(a, b, n + 1);
    }
  }

  lemma {:induction false} LastPrefixLocal(a: Code, b: Code, n: nat, kinds: set<Prefix>)
    requires Agree(a, b, n)
    ensures LastPrefix(a, n, kinds) == LastPrefix(b, n, kinds)
  {
    if n != 0 {
      LastPrefixLocal(a, b, n - 1, kinds);
    }
  }

  lemma PrefixFieldsLocal(a: Code, b: Code, n: nat)
    requires Agree(a, b, n)
    ensures PrefixFields(a, n) == PrefixFields(b, n) && PrefixSet(a, n) == PrefixSet(b, n)
  {
    LastPrefixLocal(a, b, n, {F2, F3});
    LastPrefixLocal(a, b, n, {LOCK});
    LastPrefixLocal(a, b, n, {SEG});
    LastPrefixLocal(a, b, n, {P66});
    LastPrefixLocal(a, b, n, {P67});
  }

  lemma ReadOpcodeLocal(t: HdeTable, a: Code, b: Code, p: nat, hs: Hde64s, pref: set<Prefix>, op64: bool, c: byte)
    requires Agree(a, b, ReadOpcode(t, a, p, hs, pref, op64, c).p)
    ensures ReadOpcode(t, b, p, hs, pref, op64, c) == ReadOpcode(t, a, p, hs, pref, op64, c)
    ensures p <= ReadOpcode(t, a, p, hs, pref, op64, c).p <= p + 1
  {
    hide Classify;
  }

  lemma ReadRexLocal(t: HdeTable, a: Code, b: Code, p: nat, hs: Hde64s, pref: set<Prefix>, c: byte)
    requires Agree(a, b, ReadRex(t, a, p, hs, pref, c).p)
    ensures ReadRex(t, b, p, hs, pref, c) == ReadRex(t, a, p, hs, pref, c)
    ensures p <= ReadRex(t, a, p, hs, pref, c).p <= p + 2
  {
    hide ReadOpcode, RexFields;
    if c / 16 != 4 {
      ReadOpcodeLocal(t, a, b, p, hs, pref, false, c);
    } else {
      var rex := RexFields(hs, c);
      var op64 := rex.rex_w != 0 && a(p) / 8 == 0x17;
      ReadOpcodeLocal(t, a, a, p + 1, rex, pref, op64, a(p));
      if a(p) / 16 != 4 {
        ReadOpcodeLocal(t, a, b, p + 1, rex, pref, op64, a(p));
      }
    }
  }

  /** The front stage stops one or two bytes after its first non-prefix byte, or three with a REX byte. */
  lemma FrontEnd(t: HdeTable, code: Code)
    ensures var n := PrefixRun(code, 0);
            (if n < MAX_PREFIXES then n + 1 else n) <= ReadFront(t, code).p <= n + 3
  {
    hide ReadRex, PrefixFields, PrefixRun, PrefixOf, PrefixFlags, PrefixSet, WellFormed;
    var n := PrefixRun(code, 0);
    var p := if n < MAX_PREFIXES then n + 1 else n;
    var hs := Raise(PrefixFields(code, n), PrefixFlags(PrefixSet(code, n)));
    ReadRexLocal(t, code, code, p, hs, if n == 0 then {NONE} else PrefixSet(code, n), code(p - 1));
  }

  /** The REX byte and the opcode are read up to the position the front stage reports, and not beyond. */
  lemma FrontLocal(t: HdeTable, a: Code, b: Code)
    requires Agree(a, b, ReadFront(t, a).p)
    ensures ReadFront(t, b) == ReadFront(t, a)
  {
    hide ReadRex, PrefixFields, PrefixRun, PrefixOf, PrefixFlags, PrefixSet, WellFormed;
    var n := PrefixRun(a, 0);
    FrontEnd(t, a);
    PrefixRunLocal(a, b, 0);
    PrefixFieldsLocal(a, b, n);
    var p := if n < MAX_PREFIXES then n + 1 else n;
    var hs := Raise(PrefixFields(a, n), PrefixFlags(PrefixSet(a, n)));
    ReadRexLocal(t, a, b, p, hs, if n == 0 then {NONE} else PrefixSet(a, n), a(p - 1));
  }

  lemma AddressLocal(a: Code, b: Code, p: nat, hs: Hde64s, pref: set<Prefix>, mod: nat, rm: nat)
    requires Agree(a, b, ReadAddress(a, p, hs, pref, mod, rm).p)
    ensures ReadAddress(b, p, hs, pref, mod, rm) == ReadAddress(a, p, hs, pref, mod, rm)
    ensures p <= ReadAddress(a, p, hs, pref, mod, rm).p <= p + 5
  {
    hide SibFields, Raise, DispFlags;
    var size := ModDisp(pref, mod, rm);
    if mod != 3 && rm == 4 {
      LeLocal(a, b, p + 1, SibDisp(size, mod, a(p)));
    } else {
      LeLocal(a, b, p, size);
    }
  }

  lemma ModrmLocal(t: HdeTable, a: Code, b: Code, f: Front)
    requires Agree(a, b, ReadModrm(t, a, f).p)
    ensures ReadModrm(t, b, f) == ReadModrm(t, a, f)
    ensures f.p <= ReadModrm(t, a, f).p <= f.p + 6
  {
    hide ModrmErrors, ModrmFields, Raise, ModrmClass, ReadAddress, WellFormed;
    if Has(f.cflags, C_MODRM) {
      var m := a(f.p);
      var hs := Raise(ModrmFields(f.hs, m), ModrmErrors(t, f, m));
      var mod := OperandMod(f.hs.opcode2 != 0, f.opcode, m / 64);
      AddressLocal(a, a, f.p + 1, hs, f.pref, mod, m % 8);
      AddressLocal(a, b, f.p + 1, hs, f.pref, mod, m % 8);
    }
  }

  lemma TakeImmLocal(a: Code, b: Code, c: Cursor, n: nat, fl: set<Flag>)
    requires Agree(a, b, c.p + n)
    ensures TakeImm(a, c, n, fl) == TakeImm(b, c, n, fl)
  {
    LeLocal(a, b, c.p, n);
  }

  lemma TakeFixedLocal(a: Code, b: Code, c: Cursor, cflags: byte, imm16: bool)
    requires Agree(a, b, TakeFixed(a, c, cflags, imm16).p)
    ensures TakeFixed(b, c, cflags, imm16) == TakeFixed(a, c, cflags, imm16)
    ensures c.p <= TakeFixed(a, c, cflags, imm16).p <= c.p + 7
  {
    var c1 := if imm16 then TakeImm(a, c, 2, {F_IMM16}) else c;
    var c2 := if Has(cflags, C_IMM8) then TakeImm(a, c1, 1, {F_IMM8}) else c1;
    TakeImmLocal(a, b, c, if imm16 then 2 else 0, {F_IMM16});
    TakeImmLocal(a, b, c1, if Has(cflags, C_IMM8) then 1 else 0, {F_IMM8});
    if Has(cflags, C_REL32) {
      TakeImmLocal(a, b, c2, 4, {F_IMM32, F_RELATIVE});
    } else if Has(cflags, C_REL8) {
      TakeImmLocal(a, b, c2, 1, {F_IMM8, F_RELATIVE});
    }
  }

  lemma ImmLocal(a: Code, b: Code, f: Front)
    requires Agree(a, b, ReadImm(a, f).p)
    ensures ReadImm(b, f) == ReadImm(a, f)
    ensures f.p <= ReadImm(a, f).p <= f.p + 15
  {
    var c := Cursor(f.p, f.hs);
    var imm16 := Has(f.cflags, C_IMM16);
    if !Has(f.cflags, C_IMM_P66) {
      TakeFixedLocal(a, b, c, f.cflags, imm16);
    } else if Has(f.cflags, C_REL32) {
      if P66 in f.pref {
        TakeImmLocal(a, b, c, 2, {F_IMM16, F_RELATIVE});
      } else {
        TakeImmLocal(a, b, c, 4, {F_IMM32, F_RELATIVE});
      }
    } else if f.op64 {
      TakeFixedBound(a, TakeImm(a, c, 8, {F_IMM64}), f.cflags, imm16);
      TakeImmLocal(a, b, c, 8, {F_IMM64});
      TakeFixedLocal(a, b, TakeImm(a, c, 8, {F_IMM64}), f.cflags, imm16);
    } else if P66 !in f.pref {
      TakeFixedBound(a, TakeImm(a, c, 4, {F_IMM32}), f.cflags, imm16);
      TakeImmLocal(a, b, c, 4, {F_IMM32});
      TakeFixedLocal(a, b, TakeImm(a, c, 4, {F_IMM32}), f.cflags, imm16);
    } else {
      TakeFixedLocal(a, b, c, f.cflags, true);
    }
  }

  lemma TakeFixedBound(code: Code, c: Cursor, cflags: byte, imm16: bool)
    ensures c.p <= TakeFixed(code, c, cflags, imm16).p <= c.p + 7
  {
  }

  lemma ParseLocal(t: HdeTable, a: Code, b: Code)
    requires Agree(a, b, Parse(t, a).p)
    ensures Parse(t, b) == Parse(t, a)
    ensures 1 <= Parse(t, a).p <= 40
  {
    hide ReadFront, ReadModrm, ReadImm;
    var f := ReadFront(t, a);
    var g := ReadModrm(t, a, f);
    ModrmLocal(t, a, a, f);
    ImmLocal(a, a, g);
    FrontLocal(t, a, b);
    ModrmLocal(t, a, b, f);
    ImmLocal(a, b, g);
    FrontEnd(t, a);
  }

  /**
   The record depends only on the bytes it says it consumed: any other stream with the same first `len` bytes
   decodes to the same record, unless the instruction ran past the length limit.
   */
  lemma Locality(t: HdeTable, a: Code, b: Code)
    requires F_ERROR !in Decode(t, a).flags || F_ERROR_LENGTH !in Decode(t, a).flags
    requires Agree(a, b, Decode(t, a).len)
    ensures Decode(t, b) == Decode(t, a)
  {
    hide Parse;
    ParseLocal(t, a, b);
  }

  /** Every call reports between one and fifteen bytes; the position never reaches 256, so `len` is not truncated. */
  lemma LengthBounds(t: HdeTable, code: Code)
    ensures 1 <= Decode(t, code).len <= MAX_LENGTH
    ensures Parse(t, code).p < 256
  {
    hide Parse;
    ParseLocal(t, code, code);
  }

  // ------------------------------------------------------------------ layout

  /** The bytes a record stands for after its prefixes (section 2.1 of the Intel SDM, volume 2). */
  function RexBytes(hs: Hde64s): seq<byte> {
    if F_PREFIX_REX in hs.flags then [0x40 + 8 * hs.rex_w + 4 * hs.rex_r + 2 * hs.rex_x + hs.rex_b] else []
  }

  function OpcodeBytes(hs: Hde64s): seq<byte> {
    if hs.opcode == 0x0f then [hs.opcode, hs.opcode2] else [hs.opcode]
  }

  function DispSize(flags: set<Flag>): nat {
    if F_DISP8 in flags then 1 else if F_DISP16 in flags then 2 else if F_DISP32 in flags then 4 else 0
  }

  function AddressBytes(hs: Hde64s): seq<byte> {
    (if F_MODRM in hs.flags then [hs.modrm] else []) + (if F_SIB in hs.flags then [hs.sib] else [])
    + LeBytes(hs.disp, DispSize(hs.flags))
  }

  /** The size the immediate flags name. */
  function ImmSize(flags: set<Flag>): nat {
    (if F_IMM8 in flags then 1 else 0) + (if F_IMM16 in flags then 2 else 0) + (if F_IMM32 in flags then 4 else 0)
    + (if F_IMM64 in flags then 8 else 0)
  }

  /** Both union members were written: the 8-bit one overwrote the low byte of the 16-bit one. */
  predicate Overlapped(flags: set<Flag>) {
    F_IMM8 in flags && F_IMM16 in flags
  }

  /** The immediate bytes; `lost` is the byte the union no longer holds when two members overlapped. */
  function ImmBytes(hs: Hde64s, lost: byte): seq<byte> {
    if Overlapped(hs.flags) then [lost, hs.imm / 256 % 256, hs.imm % 256] else LeBytes(hs.imm, ImmSize(hs.flags))
  }

  /** The encoding of a record, prefixes aside. */
  function Encode(hs: Hde64s, lost: byte): seq<byte> {
    RexBytes(hs) + OpcodeBytes(hs) + AddressBytes(hs) + ImmBytes(hs, lost)
  }

  /** The fields of two, three and three bits that split a byte agree with the byte. */
  predicate SubfieldsAgree(hs: Hde64s) {
    && (F_MODRM in hs.flags ==> SplitByte(hs.modrm, hs.modrm_mod, hs.modrm_reg, hs.modrm_rm))
    && (F_SIB in hs.flags ==> SplitByte(hs.sib, hs.sib_scale, hs.sib_index, hs.sib_base))
  }

  predicate SplitByte(b: byte, high: byte, middle: byte, low: byte) {
    b == 64 * high + 8 * middle + low && high < 4 && middle < 8 && low < 8
  }

  const PREFIX_FLAGS: set<Flag> := {F_PREFIX_REPNZ, F_PREFIX_REPX, F_PREFIX_66, F_PREFIX_67, F_PREFIX_LOCK,
                                    F_PREFIX_SEG}

  /** No stage after the prefixes has raised a flag, except REX, and both unions are clear. */
  ghost predicate OnlyPrefixes(hs: Hde64s) {
    hs.flags <= PREFIX_FLAGS + {F_PREFIX_REX} && hs.imm == 0 && hs.disp == 0
  }

  lemma ReadOpcodeLayout(t: HdeTable, code: Code, p: nat, hs: Hde64s, pref: set<Prefix>, op64: bool, c: byte)
    requires OnlyPrefixes(hs) && p > 0 && c == code(p - 1)
    ensures var f := ReadOpcode(t, code, p, hs, pref, op64, c);
            F_ERROR !in f.hs.flags ==>
              && f.hs == hs.(opcode := f.hs.opcode, opcode2 := f.hs.opcode2)
              && OpcodeBytes(f.hs) == Slice(code, p - 1, f.p - (p - 1))
              && PlainClass(f.cflags)
              && (f.opcode == 0xf6 || f.opcode == 0xf7 ==> f.cflags == C_MODRM)
  {
    hide Meets, RefusedPrefixes, PlainEntry, ClassByte, Resolved, GroupMask;
    var f := ReadOpcode(t, code, p, hs, pref, op64, c);
    PlainClasses(t, c == 0x0f, f.opcode);
  }

  lemma PlainClasses(t: HdeTable, two: bool, opcode: byte)
    ensures var c := ClassByte(t, two, opcode);
            c != C_ERROR ==> 
              && PlainClass(Resolved(t, two, c))
              && (opcode == 0xf6 || opcode == 0xf7 ==> Resolved(t, two, c) == C_MODRM)
  {
    assert PlainEntry(t, two, ClassByte(t, two, opcode));
  }

  /** What a front stage without error leaves for the ModRM stage. */
  ghost predicate CleanFront(f: Front) {
    && OnlyPrefixes(f.hs) && PlainClass(f.cflags) && (f.opcode == 0xf6 || f.opcode == 0xf7 ==> f.cflags == C_MODRM)
  }

  lemma ReadRexLayout(t: HdeTable, code: Code, p: nat, hs: Hde64s, pref: set<Prefix>, c: byte)
    requires OnlyPrefixes(hs) && F_PREFIX_REX !in hs.flags && p > 0 && c == code(p - 1)
    ensures var f := ReadRex(t, code, p, hs, pref, c);
            F_ERROR !in f.hs.flags ==>
              CleanFront(f) && RexBytes(f.hs) + OpcodeBytes(f.hs) == Slice(code, p - 1, f.p - (p - 1))
  {
    hide ReadOpcode, WellFormed, PlainClass, OpcodeBytes;
    ReadRexLocal(t, code, code, p, hs, pref, c);
    var f := ReadRex(t, code, p, hs, pref, c);
    if c / 16 != 4 {
      ReadOpcodeLayout(t, code, p, hs, pref, false, c);
      assert [] + OpcodeBytes(f.hs) == OpcodeBytes(f.hs);
    } else if code(p) / 16 != 4 {
      var rex := RexFields(hs, c);
      ReadOpcodeLayout(t, code, p + 1, rex, pref, rex.rex_w != 0 && code(p) / 8 == 0x17, code(p));
      ReadOpcodeLocal(t, code, code, p + 1, rex, pref, rex.rex_w != 0 && code(p) / 8 == 0x17, code(p));
      assert Slice(code, p - 1, f.p - (p - 1)) == [c] + Slice(code, p, f.p - p);
    }
  }

  /** The record of a front stage that raised no error: its REX and opcode re-encode to what it read. */
  lemma FrontLayout(t: HdeTable, code: Code)
    ensures var f := ReadFront(t, code);
            var n := PrefixRun(code, 0);
            n < MAX_PREFIXES && F_ERROR !in f.hs.flags ==>
              CleanFront(f) && RexBytes(f.hs) + OpcodeBytes(f.hs) == Slice(code, n, f.p - n)
  {
    hide PrefixFields, PrefixRun, PrefixOf, PrefixSet, PrefixFlags, ReadRex, WellFormed, CleanFront, OpcodeBytes,
        RexBytes;
    var n := PrefixRun(code, 0);
    if n < MAX_PREFIXES {
      FrontEnd(t, code);
      PrefixFieldsClear(code, n);
      var hs := Raise(PrefixFields(code, n), PrefixFlags(PrefixSet(code, n)));
      ReadRexLayout(t, code, n + 1, hs, if n == 0 then {NONE} else PrefixSet(code, n), code(n));
    }
  }

  lemma PrefixFieldsClear(code: Code, n: nat)
    ensures OnlyPrefixes(PrefixFields(code, n)) && PrefixFields(code, n).flags == {}
    ensures PrefixFlags(PrefixSet(code, n)) <= PREFIX_FLAGS
  {
  }

  const OPERAND_FLAGS: set<Flag> := {F_MODRM, F_SIB, F_DISP8, F_DISP16, F_DISP32}
  const IMM_FLAGS: set<Flag> := {F_IMM8, F_IMM16, F_IMM32, F_IMM64}

  lemma ReadDispLayout(code: Code, p: nat, hs: Hde64s, size: nat)
    requires size == 0 || size == 1 || size == 2 || size == 4
    requires F_DISP8 !in hs.flags && F_DISP16 !in hs.flags && F_DISP32 !in hs.flags
    ensures var r := ReadDisp(code, p, hs, size);
            LeBytes(r.disp, DispSize(r.flags)) == Slice(code, p, size)
  {
    LeBytesOfLe(code, p, size);
    assert DispSize(ReadDisp(code, p, hs, size).flags) == size;
  }

  /** The fields the ModRM stage does not touch. */
  ghost predicate SameOpcode(g: Hde64s, f: Hde64s) {
    && RexBytes(g) == RexBytes(f) && OpcodeBytes(g) == OpcodeBytes(f) && g.imm == f.imm
    && (g.flags * IMM_FLAGS == f.flags * IMM_FLAGS)
  }

  lemma MemoryLayout(code: Code, p: nat, hs: Hde64s, size: nat)
    requires size == 0 || size == 1 || size == 2 || size == 4
    requires hs.flags !! {F_SIB, F_DISP8, F_DISP16, F_DISP32} && F_MODRM in hs.flags && p > 0 && hs.modrm == code(p - 1)
    ensures var r := ReadDisp(code, p, hs, size);
            && AddressBytes(r) == Slice(code, p - 1, 1 + size) && SameOpcode(r, hs)
            && (SubfieldsAgree(hs) ==> SubfieldsAgree(r))
  {
    ReadDispLayout(code, p, hs, size);
    assert Slice(code, p - 1, 1 + size) == [hs.modrm] + [] + Slice(code, p, size);
  }

  lemma SibLayout(code: Code, p: nat, hs: Hde64s, s: byte, size: nat)
    requires size == 0 || size == 1 || size == 2 || size == 4
    requires hs.flags !! {F_SIB, F_DISP8, F_DISP16, F_DISP32} && F_MODRM in hs.flags && p > 1
    requires hs.modrm == code(p - 2) && s == code(p - 1)
    ensures var r := ReadDisp(code, p, SibFields(hs, s), size);
            && AddressBytes(r) == Slice(code, p - 2, 2 + size) && SameOpcode(r, hs)
            && (SubfieldsAgree(hs) ==> SubfieldsAgree(r))
  {
    hide RexBytes, OpcodeBytes, SameOpcode;
    HeadKept(hs, ReadDisp(code, p, SibFields(hs, s), size));
    ReadDispLayout(code, p, SibFields(hs, s), size);
    assert Slice(code, p - 2, 2 + size) == [hs.modrm] + [s] + Slice(code, p, size);
  }

  /** SIB and displacement follow the ModRM byte at p - 1. */
  lemma AddressLayout(code: Code, p: nat, hs: Hde64s, pref: set<Prefix>, mod: nat, rm: nat)
    requires hs.flags !! {F_SIB, F_DISP8, F_DISP16, F_DISP32} && F_MODRM in hs.flags && p > 0 && hs.modrm == code(p - 1)
    ensures var c := ReadAddress(code, p, hs, pref, mod, rm);
            && AddressBytes(c.hs) == Slice(code, p - 1, c.p - (p - 1))
            && SameOpcode(c.hs, hs) && (SubfieldsAgree(hs) ==> SubfieldsAgree(c.hs))
  {
    hide AddressBytes, SameOpcode, SubfieldsAgree, ReadDisp, SibFields;
    var size := ModDisp(pref, mod, rm);
    if mod != 3 && rm == 4 {
      SibLayout(code, p + 1, hs, code(p), SibDisp(size, mod, code(p)));
    } else {
      MemoryLayout(code, p, hs, size);
    }
  }

  lemma ModrmClassPlain(cflags: byte, opcode: byte, reg: nat)
    requires PlainClass(cflags) && (opcode == 0xf6 || opcode == 0xf7 ==> cflags == C_MODRM)
    ensures PlainClass(ModrmClass(cflags, opcode, reg))
  {
  }

  /** The ModRM byte itself, before the address bytes are read. */
  lemma ModrmByteLayout(t: HdeTable, f: Front, m: byte)
    requires CleanFront(f)
    ensures var hs := Raise(ModrmFields(f.hs, m), ModrmErrors(t, f, m));
            && hs.flags !! {F_SIB, F_DISP8, F_DISP16, F_DISP32} && F_MODRM in hs.flags && hs.modrm == m
            && SubfieldsAgree(hs) && SameOpcode(hs, f.hs)
  {
    hide ModrmErrors, WellFormed, RexBytes, OpcodeBytes, SameOpcode;
    ErrorFlags(t, f, m);
    HeadKept(f.hs, Raise(ModrmFields(f.hs, m), ModrmErrors(t, f, m)));
  }

  /** The ModRM stage accounts for its bytes and leaves the opcode and the immediate alone. */
  lemma ModrmLayout(t: HdeTable, code: Code, f: Front)
    requires CleanFront(f)
    ensures var g := ReadModrm(t, code, f);
            && AddressBytes(g.hs) == Slice(code, f.p, g.p - f.p)
            && SubfieldsAgree(g.hs) && SameOpcode(g.hs, f.hs) && PlainClass(g.cflags)
  {
    hide ModrmErrors, ModrmFields, WellFormed, AddressBytes, RexBytes, OpcodeBytes, ReadAddress, ModrmClass, PlainClass;
    if Has(f.cflags, C_MODRM) {
      var m := code(f.p);
      var mod := OperandMod(f.hs.opcode2 != 0, f.opcode, m / 64);
      var hs := Raise(ModrmFields(f.hs, m), ModrmErrors(t, f, m));
      ModrmByteLayout(t, f, m);
      AddressLayout(code, f.p + 1, hs, f.pref, mod, m % 8);
      ModrmClassPlain(f.cflags, f.opcode, m / 8 % 8);
    } else {
      NoAddress(f.hs);
      NoAddress(Raise(f.hs, LOCK_ERROR));
      HeadKept(f.hs, Raise(f.hs, LOCK_ERROR));
    }
  }

  lemma HeadKept(f: Hde64s, g: Hde64s)
    requires g.opcode == f.opcode && g.opcode2 == f.opcode2 && g.imm == f.imm
    requires g.rex_w == f.rex_w && g.rex_r == f.rex_r && g.rex_x == f.rex_x && g.rex_b == f.rex_b
    requires f.flags <= g.flags && g.flags - f.flags !! IMM_FLAGS + {F_PREFIX_REX}
    ensures SameOpcode(g, f)
  {
  }

  lemma NoAddress(hs: Hde64s)
    requires hs.flags !! OPERAND_FLAGS && hs.disp == 0
    ensures AddressBytes(hs) == []
  {
  }

  lemma ErrorFlags(t: HdeTable, f: Front, m: byte)
    ensures ModrmErrors(t, f, m) <= {F_ERROR, F_ERROR_OPCODE, F_ERROR_LOCK, F_ERROR_OPERAND}
  {
    hide UndefinedFpu, Lockable, BadOperand, ShiftedTop, WellFormed;
  }

  /** One immediate of n bytes and the flags that announce it. */
  predicate ImmKind(n: nat, fl: set<Flag>) {
    || (n == 1 && (fl == {F_IMM8} || fl == {F_IMM8, F_RELATIVE}))
    || (n == 2 && (fl == {F_IMM16} || fl == {F_IMM16, F_RELATIVE}))
    || (n == 4 && (fl == {F_IMM32} || fl == {F_IMM32, F_RELATIVE}))
    || (n == 8 && fl == {F_IMM64})
  }

  /** The bytes of an immediate are those read, whatever its size. */
  lemma OneImmediate(code: Code, c: Cursor, n: nat, fl: set<Flag>)
    requires c.hs.imm == 0 && c.hs.flags !! IMM_FLAGS && ImmKind(n, fl)
    ensures var r := TakeImm(code, c, n, fl);
            !Overlapped(r.hs.flags) && LeBytes(r.hs.imm, ImmSize(r.hs.flags)) == Slice(code, c.p, n)
  {
    LeBytesOfLe(code, c.p, n);
    var r := TakeImm(code, c, n, fl);
    assert forall x :: x in IMM_FLAGS ==> (x in r.hs.flags <==> x in fl);
  }

  /** A 16-bit and then an 8-bit immediate: the union keeps the high byte of the first and the whole second. */
  lemma TwoImmediates(code: Code, c: Cursor)
    requires c.hs.imm == 0
    ensures var r := TakeImm(code, TakeImm(code, c, 2, {F_IMM16}), 1, {F_IMM8});
            && r.p == c.p + 3 && r.hs == Raise(c.hs, {F_IMM16, F_IMM8}).(imm := r.hs.imm)
            && r.hs.imm == 256 * code(c.p + 1) + code(c.p + 2)
  {
    hide Le;
    ShortWords(code, c.p);
    ShortWords(code, c.p + 2);
    assert {F_IMM16} + {F_IMM8} == {F_IMM16, F_IMM8};
    assert c.hs.flags + {F_IMM16} + {F_IMM8} == c.hs.flags + {F_IMM16, F_IMM8};
  }

  lemma OverlapLayout(code: Code, p: nat, hs: Hde64s)
    requires F_IMM8 in hs.flags && F_IMM16 in hs.flags && F_IMM32 !in hs.flags && F_IMM64 !in hs.flags
    requires hs.imm == 256 * code(p + 1) + code(p + 2)
    ensures Overlapped(hs.flags) && ImmSize(hs.flags) == 3 && ImmBytes(hs, code(p)) == Slice(code, p, 3)
  {
  }

  /** The immediates of a plain class: none, one, or the two of ENTER. */
  lemma ImmShape(code: Code, f: Front) returns (n: nat, fl: set<Flag>)
    requires PlainClass(f.cflags)
    ensures var c := Cursor(f.p, f.hs);
            || ReadImm(code, f) == c
            || (ImmKind(n, fl) && ReadImm(code, f) == TakeImm(code, c, n, fl))
            || (f.cflags == 6 && ReadImm(code, f) == TakeImm(code, TakeImm(code, c, 2, {F_IMM16}), 1, {F_IMM8}))
  {
    hide TakeImm;
    n, fl := 0, {};
    if f.cflags == 2 || f.cflags == 3 {
      n, fl := 1, {F_IMM8};
    } else if f.cflags == 4 {
      n, fl := 2, {F_IMM16};
    } else if f.cflags == 0x20 {
      n, fl := 1, {F_IMM8, F_RELATIVE};
    } else if f.cflags == 0x50 {
      if P66 in f.pref { n, fl := 2, {F_IMM16, F_RELATIVE}; } else { n, fl := 4, {F_IMM32, F_RELATIVE}; }
    } else if f.cflags == 0x10 || f.cflags == 0x11 {
      if f.op64 { n, fl := 8, {F_IMM64}; }
      else if P66 !in f.pref { n, fl := 4, {F_IMM32}; }
      else { n, fl := 2, {F_IMM16}; }
    }
  }

  /** The immediate stage accounts for its bytes; the first of them is the lost one when two immediates overlap. */
  lemma ImmLayout(code: Code, f: Front)
    requires f.hs.imm == 0 && f.hs.flags !! IMM_FLAGS && PlainClass(f.cflags)
    ensures var c := ReadImm(code, f);
            c.p >= f.p && ImmBytes(c.hs, code(f.p)) == Slice(code, f.p, c.p - f.p)
            && (Overlapped(c.hs.flags) ==> f.cflags == 6 && c.p == f.p + 3 && ImmSize(c.hs.flags) == 3)
            && SameButImm(c.hs, f.hs)
  {
    hide ReadImm, PlainClass, ImmSize;
    var n, fl := ImmShape(code, f);
    var c := Cursor(f.p, f.hs);
    if ReadImm(code, f) == c {
      NoImmediate(f.hs);
      assert LeBytes(0, 0) == [];
    } else if ImmKind(n, fl) && ReadImm(code, f) == TakeImm(code, c, n, fl) {
      OneImmediate(code, c, n, fl);
    } else {
      TwoImmediates(code, c);
      OverlapLayout(code, f.p, ReadImm(code, f).hs);
    }
  }

  lemma NoImmediate(hs: Hde64s)
    requires hs.flags !! IMM_FLAGS
    ensures ImmSize(hs.flags) == 0 && !Overlapped(hs.flags)
  {
  }

  /** The immediate stage changes nothing but the immediate, its flags and F_RELATIVE. */
  ghost predicate SameButImm(g: Hde64s, f: Hde64s) {
    && g == f.(imm := g.imm, flags := g.flags)
    && f.flags <= g.flags <= f.flags + IMM_FLAGS + {F_RELATIVE}
  }

  /** The prefix fields and flags of a record say which prefixes were read: the last of each kind, and which kinds. */
  ghost predicate ReportsPrefixes(hs: Hde64s, code: Code, n: nat) {
    && hs.p_rep == LastPrefix(code, n, {F2, F3}) && hs.p_lock == LastPrefix(code, n, {LOCK})
    && hs.p_seg == LastPrefix(code, n, {SEG}) && hs.p_66 == LastPrefix(code, n, {P66})
    && hs.p_67 == LastPrefix(code, n, {P67})
    && hs.flags * PREFIX_FLAGS == PrefixFlags(PrefixSet(code, n))
  }

  /** g differs from f in no prefix field. */
  ghost predicate SamePrefixes(g: Hde64s, f: Hde64s) {
    && g.p_rep == f.p_rep && g.p_lock == f.p_lock && g.p_seg == f.p_seg && g.p_66 == f.p_66 && g.p_67 == f.p_67
    && g.flags * PREFIX_FLAGS == f.flags * PREFIX_FLAGS
  }

  lemma OpcodeKeepsPrefixes(t: HdeTable, code: Code, p: nat, hs: Hde64s, pref: set<Prefix>, op64: bool, c: byte)
    ensures SamePrefixes(ReadOpcode(t, code, p, hs, pref, op64, c).hs, hs)
  {
    hide Meets, RefusedPrefixes, ClassByte, Resolved, GroupMask, WellFormed;
  }

  lemma RexKeepsPrefixes(t: HdeTable, code: Code, p: nat, hs: Hde64s, pref: set<Prefix>, c: byte)
    ensures SamePrefixes(ReadRex(t, code, p, hs, pref, c).hs, hs)
  {
    hide ReadOpcode, WellFormed;
    var rex := RexFields(hs, c);
    OpcodeKeepsPrefixes(t, code, p, hs, pref, false, c);
    OpcodeKeepsPrefixes(t, code, p + 1, rex, pref, rex.rex_w != 0 && code(p) / 8 == 0x17, code(p));
  }

  lemma FrontReportsPrefixes(t: HdeTable, code: Code)
    ensures ReportsPrefixes(ReadFront(t, code).hs, code, PrefixRun(code, 0))
  {
    hide PrefixRun, PrefixOf, PrefixSet, LastPrefix, ReadRex, WellFormed;
    var n := PrefixRun(code, 0);
    var p := if n < MAX_PREFIXES then n + 1 else n;
    var hs := Raise(PrefixFields(code, n), PrefixFlags(PrefixSet(code, n)));
    RexKeepsPrefixes(t, code, p, hs, if n == 0 then {NONE} else PrefixSet(code, n), code(p - 1));
  }

  lemma AddressKeepsPrefixes(code: Code, p: nat, hs: Hde64s, pref: set<Prefix>, mod: nat, rm: nat)
    ensures SamePrefixes(ReadAddress(code, p, hs, pref, mod, rm).hs, hs)
  {
  }

  lemma ModrmKeepsPrefixes(t: HdeTable, code: Code, f: Front)
    ensures SamePrefixes(ReadModrm(t, code, f).hs, f.hs)
  {
    hide ModrmErrors, ReadAddress, WellFormed;
    var m := code(f.p);
    ErrorFlags(t, f, m);
    var hs := Raise(ModrmFields(f.hs, m), ModrmErrors(t, f, m));
    AddressKeepsPrefixes(code, f.p + 1, hs, f.pref, OperandMod(f.hs.opcode2 != 0, f.opcode, m / 64), m % 8);
  }

  lemma ModrmRaises(t: HdeTable, code: Code, f: Front)
    ensures f.hs.flags <= ReadModrm(t, code, f).hs.flags
  {
    hide ModrmErrors, WellFormed;
  }

  lemma ImmRaises(code: Code, f: Front)
    ensures f.hs.flags <= ReadImm(code, f).hs.flags
  {
    hide Le, UpperBytes;
  }

  /** The encodings of the stages before the immediate are unchanged by it and by the length field. */
  lemma ImmKeeps(g: Hde64s, f: Hde64s, len: nat)
    requires SameButImm(g, f)
    ensures var h := g.(len := len);
            && AddressBytes(h) == AddressBytes(f) && RexBytes(h) == RexBytes(f) && OpcodeBytes(h) == OpcodeBytes(f)
            && (SubfieldsAgree(f) ==> SubfieldsAgree(h)) && SamePrefixes(h, f)
  {
    hide LeBytes;
    assert DispSize(g.flags) == DispSize(f.flags);
  }

  /** The byte the union may have lost: the first of three immediate bytes. */
  function LostByte(code: Code, len: nat): byte {
    if len >= 3 then code(len - 3) else 0
  }

  /** Three stages in a row make a record. */
  lemma Assemble(code: Code, n: nat, p: nat, q: nat, r: nat, f: Hde64s, g: Hde64s, c: Hde64s)
    requires n < p <= q <= r
    requires RexBytes(f) + OpcodeBytes(f) == Slice(code, n, p - n)
    requires AddressBytes(g) == Slice(code, p, q - p) && SameOpcode(g, f)
    requires ImmBytes(c, code(q)) == Slice(code, q, r - q) && (Overlapped(c.flags) ==> r == q + 3)
    requires SameButImm(c, g)
    ensures Encode(c.(len := r), LostByte(code, r)) == Slice(code, n, r - n)
  {
    hide AddressBytes, RexBytes, OpcodeBytes, ImmSize, LeBytes;
    ImmKeeps(c, g, r);
    assert ImmBytes(c.(len := r), LostByte(code, r)) == ImmBytes(c, code(q));
    assert Slice(code, n, r - n) == Slice(code, n, p - n) + Slice(code, p, q - p) + Slice(code, q, r - q);
  }

  /**
   A record without error accounts for every byte consumed: the prefixes, then the encoding of its fields. The
   16-bit immediate of an overlapped union is the one byte the record no longer tells.
   */
  lemma Layout(t: HdeTable, code: Code)
    requires F_ERROR !in Decode(t, code).flags
    ensures var hs := Decode(t, code);
            var n := PrefixRun(code, 0);
            && n < hs.len && ReportsPrefixes(hs, code, n) && SubfieldsAgree(hs)
            && (Overlapped(hs.flags) ==> ImmSize(hs.flags) == 3)
            && Encode(hs, LostByte(code, hs.len)) == Slice(code, n, hs.len - n)
  {
    hide ReadFront, ReadModrm, ReadImm, PrefixRun, PrefixOf, WellFormed, AddressBytes, RexBytes, OpcodeBytes, ImmBytes,
         LastPrefix, PrefixSet, PrefixFlags, PlainClass, Encode, SubfieldsAgree, SameOpcode;
    var n := PrefixRun(code, 0);
    var f := ReadFront(t, code);
    var g := ReadModrm(t, code, f);
    var c := ReadImm(code, g);
    FrontEnd(t, code);
    ModrmLocal(t, code, code, f);
    ImmLocal(code, code, g);
    ModrmRaises(t, code, f);
    ImmRaises(code, g);
    FrontLayout(t, code);
    ModrmLayout(t, code, f);
    ClearImm(g.hs, f.hs);
    ImmLayout(code, g);
    FrontReportsPrefixes(t, code);
    ModrmKeepsPrefixes(t, code, f);
    Assemble(code, n, f.p, g.p, c.p, f.hs, g.hs, c.hs);
    ImmKeeps(c.hs, g.hs, c.p);
  }

  lemma ClearImm(g: Hde64s, f: Hde64s)
    requires SameOpcode(g, f) && OnlyPrefixes(f)
    ensures g.imm == 0 && g.flags !! IMM_FLAGS
  {
    hide RexBytes, OpcodeBytes;
    assert forall x :: x in IMM_FLAGS ==> x !in f.flags * IMM_FLAGS;
  }

  /** The length is the sum of the parts the record names, one to fifteen. */
  lemma LengthAccounting(t: HdeTable, code: Code)
    requires F_ERROR !in Decode(t, code).flags
    ensures var hs := Decode(t, code);
            hs.len == PrefixRun(code, 0)
                      + (if F_PREFIX_REX in hs.flags then 1 else 0) + (if hs.opcode == 0x0f then 2 else 1)
                      + (if F_MODRM in hs.flags then 1 else 0) + (if F_SIB in hs.flags then 1 else 0)
                      + DispSize(hs.flags) + ImmSize(hs.flags)
  {
    hide Decode, PrefixRun, PrefixOf, DispSize, ImmSize, ReportsPrefixes, SubfieldsAgree, WellFormed;
    Layout(t, code);
    var hs := Decode(t, code);
    assert |Encode(hs, LostByte(code, hs.len))| == hs.len - PrefixRun(code, 0);
  }

  // ------------------------------------------------------------ the overlap

  /** Where the opcode starts: behind the prefixes and a REX byte. */
  function OpcodeAt(code: Code): nat {
    var n := PrefixRun(code, 0);
    if code(n) / 16 == 4 then n + 1 else n
  }

  lemma OpcodeClass(t: HdeTable, code: Code, p: nat, hs: Hde64s, pref: set<Prefix>, op64: bool, c: byte)
    ensures var f := ReadOpcode(t, code, p, hs, pref, op64, c);
            F_ERROR !in f.hs.flags ==> (f.cflags == 0x06 <==> c == 0xc8)
  {
    hide Meets, RefusedPrefixes, PlainEntry, ClassByte, Resolved, GroupMask, PrefixOf;
    var f := ReadOpcode(t, code, p, hs, pref, op64, c);
    EnterClass(t, c == 0x0f, f.opcode);
  }

  lemma EnterClass(t: HdeTable, two: bool, opcode: byte)
    ensures var c := ClassByte(t, two, opcode);
            c != C_ERROR ==> (Resolved(t, two, c) == 0x06 <==> !two && opcode == 0xc8)
  {
    hide PlainEntry;
    assert TwoImmediatesEntry(t, two, opcode) ==> !two && opcode == 0xc8;
  }

  /** Only ENTER, the one-byte opcode C8, comes out of the front stage with the class of two immediates. */
  lemma FrontClass(t: HdeTable, code: Code)
    ensures var f := ReadFront(t, code);
            PrefixRun(code, 0) < MAX_PREFIXES && F_ERROR !in f.hs.flags ==>
              (f.cflags == 0x06 <==> code(OpcodeAt(code)) == 0xc8)
  {
    hide PrefixFields, PrefixRun, PrefixOf, PrefixSet, PrefixFlags, ReadOpcode, WellFormed;
    var n := PrefixRun(code, 0);
    var p, c := n + 1, code(n);
    if n < MAX_PREFIXES {
      var hs := Raise(PrefixFields(code, n), PrefixFlags(PrefixSet(code, n)));
      var pref := if n == 0 then {NONE} else PrefixSet(code, n);
      var rex := RexFields(hs, c);
      OpcodeClass(t, code, p, hs, pref, false, c);
      OpcodeClass(t, code, p + 1, rex, pref, rex.rex_w != 0 && code(p) / 8 == 0x17, code(p));
    }
  }

  lemma ModrmKeepsEnter(t: HdeTable, code: Code, f: Front)
    requires f.opcode == 0xf6 || f.opcode == 0xf7 ==> f.cflags == C_MODRM
    ensures ReadModrm(t, code, f).cflags == 0x06 <==> f.cflags == 0x06
  {
    hide ReadAddress, ModrmErrors, WellFormed;
  }

  lemma TwoImmediatesOverlap(code: Code, f: Front)
    requires f.cflags == 0x06
    ensures Overlapped(ReadImm(code, f).hs.flags)
  {
    hide Le, UpperBytes;
  }

  /** Two immediates meet in the union exactly for ENTER: opcode C8 of the one-byte map, behind any prefixes. */
  lemma OverlapIsEnter(t: HdeTable, code: Code)
    requires F_ERROR !in Decode(t, code).flags
    ensures Overlapped(Decode(t, code).flags) <==> code(OpcodeAt(code)) == 0xc8
  {
    hide ReadFront, ReadModrm, ReadImm, PrefixRun, PrefixOf, WellFormed, AddressBytes, RexBytes, OpcodeBytes, ImmBytes,
         SubfieldsAgree, SameOpcode, PlainClass, OpcodeAt, Overlapped;
    var f := ReadFront(t, code);
    var g := ReadModrm(t, code, f);
    FrontEnd(t, code);
    ModrmLocal(t, code, code, f);
    ImmLocal(code, code, g);
    ModrmRaises(t, code, f);
    ImmRaises(code, g);
    FrontLayout(t, code);
    FrontClass(t, code);
    ModrmLayout(t, code, f);
    ClearImm(g.hs, f.hs);
    ImmLayout(code, g);
    ModrmKeepsEnter(t, code, f);
    if g.cflags == 0x06 {
      TwoImmediatesOverlap(code, g);
    }
  }

  /** No instruction is a proper prefix of another: two complete encodings that start alike are the same. */
  lemma PrefixFree(t: HdeTable, a: Code, b: Code)
    requires F_ERROR !in Decode(t, a).flags
    requires Decode(t, a).len <= Decode(t, b).len && Agree(a, b, Decode(t, a).len)
    ensures Decode(t, b).len == Decode(t, a).len && F_ERROR !in Decode(t, b).flags
  {
    Locality(t, a, b);
  }

  /** What a record tells about its bytes: all of them, unless the opcode is ENTER's. */
  lemma RecordTellsBytes(t: HdeTable, a: Code, b: Code)
    requires F_ERROR !in Decode(t, a).flags && Decode(t, a) == Decode(t, b) && a(OpcodeAt(a)) != 0xc8
    ensures PrefixRun(a, 0) == PrefixRun(b, 0)
    ensures forall i :: PrefixRun(a, 0) <= i < Decode(t, a).len ==> a(i) == b(i)
  {
    hide Decode, PrefixRun, PrefixOf, ReportsPrefixes, SubfieldsAgree, WellFormed, RexBytes, OpcodeBytes, AddressBytes,
         OpcodeAt;
    OverlapIsEnter(t, a);
    Layout(t, a);
    Layout(t, b);
    var hs, n := Decode(t, a), PrefixRun(a, 0);
    assert Encode(hs, LostByte(a, hs.len)) == Encode(hs, LostByte(b, hs.len));
    forall i | n <= i < hs.len ensures a(i) == b(i) {
      assert a(i) == Slice(a, n, hs.len - n)[i - n] == Slice(b, n, hs.len - n)[i - n] == b(i);
    }
  }

  /** For ENTER the low byte of the 16-bit immediate is free: any other value gives the same record. */
  lemma OverlapHidesByte(t: HdeTable, a: Code, b: Code)
    requires F_ERROR !in Decode(t, a).flags && a(OpcodeAt(a)) == 0xc8
    requires forall i :: 0 <= i < Decode(t, a).len && i != Decode(t, a).len - 3 ==> a(i) == b(i)
    ensures Decode(t, b) == Decode(t, a)
  {
    hide ReadFront, ReadModrm, ReadImm, PrefixRun, PrefixOf, WellFormed, AddressBytes, RexBytes, OpcodeBytes, ImmBytes,
         SubfieldsAgree, SameOpcode, PlainClass, OpcodeAt;
    OverlapIsEnter(t, a);
    var f := ReadFront(t, a);
    var g := ReadModrm(t, a, f);
    var c := ReadImm(a, g);
    FrontEnd(t, a);
    ModrmLocal(t, a, a, f);
    ImmLocal(a, a, g);
    ModrmRaises(t, a, f);
    ImmRaises(a, g);
    FrontLayout(t, a);
    ModrmLayout(t, a, f);
    ClearImm(g.hs, f.hs);
    ImmLayout(a, g);
    FrontLocal(t, a, b);
    ModrmLocal(t, a, b, f);
    EnterImm(a, b, g);
  }

  lemma EnterImm(a: Code, b: Code, f: Front)
    requires f.cflags == 6 && f.hs.imm == 0 && a(f.p + 1) == b(f.p + 1) && a(f.p + 2) == b(f.p + 2)
    ensures ReadImm(a, f) == ReadImm(b, f)
  {
    hide TakeImm;
    TwoImmediates(a, Cursor(f.p, f.hs));
    TwoImmediates(b, Cursor(f.p, f.hs));
  }
}
