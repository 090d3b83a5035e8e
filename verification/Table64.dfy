/** common/HDE/Table64.h: the opcode table of the length decoder and the facts the decoder relies on. */
module Table64 {
  import opened Bytes

  // Operand classes of an opcode (one byte, a set of bits).
  const C_MODRM: nat := 0x01
  const C_IMM8: nat := 0x02
  const C_IMM16: nat := 0x04
  const C_IMM_P66: nat := 0x10
  const C_REL8: nat := 0x20
  const C_REL32: nat := 0x40
  const C_GROUP: nat := 0x80
  const C_ERROR: byte := 0xff

  // Where each sub-table starts.
  const DELTA_OPCODES: nat := 0x4a
  const DELTA_FPU_REG: nat := 0xfd
  const DELTA_FPU_MODRM: nat := 0x104
  const DELTA_PREFIXES: nat := 0x13c
  const DELTA_OP_LOCK_OK: nat := 0x1ae
  const DELTA_OP2_LOCK_OK: nat := 0x1c6
  const DELTA_OP_ONLY_MEM: nat := 0x1d8
  const DELTA_OP2_ONLY_MEM: nat := 0x1e7
  const TABLE_SIZE: nat := 0x211

  /** Is the bit `mask` (a power of two) set in b? */
  predicate Has(b: byte, mask: nat)
    requires mask > 0
  {
    b / mask % 2 == 1
  }

  /** The sub-table pointer of the one-byte and of the two-byte opcode map. */
  function MapBase(two: bool): nat {
    if two then DELTA_OPCODES else 0
  }

  /** The class byte of an opcode: a row index, then one of the row's four entries. */
  function ClassByte(t: seq<byte>, two: bool, opcode: byte): byte
    requires |t| == TABLE_SIZE
  {
    t[MapBase(two) + t[MapBase(two) + opcode / 4] + opcode % 4]
  }

  /** The operand classes of an opcode once a group entry (bit C_GROUP) is followed. */
  function Resolved(t: seq<byte>, two: bool, c: byte): byte
    requires |t| == TABLE_SIZE
  {
    if c < 0x80 then c else t[MapBase(two) + c % 0x80]
  }

  /** The register mask of a group entry, 0 for any other entry. */
  function GroupMask(t: seq<byte>, two: bool, c: byte): byte
    requires |t| == TABLE_SIZE
  {
    if c < 0x80 then 0 else t[MapBase(two) + c % 0x80 + 1]
  }

  /** No class names two immediates that share a size flag; an operand-size immediate stands alone. */
  predicate PlainClass(c: byte) {
    c == 0 || c == 1 || c == 2 || c == 3 || c == 4 || c == 6 || c == 0x10 || c == 0x11 || c == 0x20 || c == 0x50
  }

  /** Does entry c of a row of the given map stand for an undefined opcode or a plain class? */
  predicate PlainEntry(t: seq<byte>, two: bool, c: byte)
    requires |t| == TABLE_SIZE
  {
    c == C_ERROR || PlainClass(Resolved(t, two, c))
  }

  /** Does an opcode have the class of a 16-bit and then an 8-bit immediate? */
  predicate TwoImmediatesEntry(t: seq<byte>, two: bool, opcode: byte)
    requires |t| == TABLE_SIZE
  {
    var c := ClassByte(t, two, opcode);
    c != C_ERROR && Resolved(t, two, c) == 0x06
  }

  /** What the decoder needs of its table. */
  ghost predicate WellFormed(t: seq<byte>) {
    && |t| == TABLE_SIZE
       // the prefix sub-table's rows stay inside the table
    && (forall i :: DELTA_PREFIXES <= i < DELTA_PREFIXES + 64 ==> DELTA_PREFIXES + t[i] + 3 < TABLE_SIZE)
    && (forall two: bool, opcode: byte :: PlainEntry(t, two, ClassByte(t, two, opcode)))
       // the two opcodes whose immediate depends on the register field carry no other immediate
    && (forall two: bool, opcode: byte :: opcode == 0xf6 || opcode == 0xf7 ==>
          ClassByte(t, two, opcode) == C_MODRM)
       // only enter has the class of two immediates
    && (forall two: bool, opcode: byte :: TwoImmediatesEntry(t, two, opcode) ==> !two && opcode == 0xc8)
       // enter, call rel32, jmp rel32 and the FF group with its jmp r/m64 entry
    && ClassByte(t, false, 0xc8) == 0x06
    && ClassByte(t, false, 0xe8) == 0x50 && ClassByte(t, false, 0xe9) == 0x50
    && ClassByte(t, false, 0xff) != C_ERROR && Resolved(t, false, ClassByte(t, false, 0xff)) == C_MODRM
    && !Has(GroupMask(t, false, ClassByte(t, false, 0xff)), 8)
  }

  /** Offset 0x000: row index of each four one-byte opcodes. */
  const ONE_BYTE_INDEX: seq<byte> :=
    ([0xa5, 0xaa, 0xa5, 0xb8, 0xa5, 0xaa, 0xa5, 0xaa, 0xa5, 0xb8, 0xa5, 0xb8, 0xa5, 0xb8, 0xa5, 0xb8]
    + [0xc0, 0xc0, 0xc0, 0xc0, 0xc0, 0xc0, 0xc0, 0xc0, 0xac, 0xc0, 0xcc, 0xc0, 0xa1, 0xa1, 0xa1, 0xa1])
    + ([0xb1, 0xa5, 0xa5, 0xa6, 0xc0, 0xc0, 0xd7, 0xda, 0xe0, 0xc0, 0xe4, 0xc0, 0xea, 0xea, 0xe0, 0xe0]
    + [0x98, 0xc8, 0xee, 0xf1, 0xa5, 0xd3, 0xa5, 0xa5, 0xa1, 0xea, 0x9e, 0xc0, 0xc0, 0xc2, 0xc0, 0xe6])

  /** Offset 0x040: group entries of the one-byte map: class, register mask. */
  const ONE_BYTE_GROUPS: seq<byte> :=
    [0x03, 0x7f, 0x11, 0x7f, 0x01, 0x7f, 0x01, 0x3f, 0x01, 0x01]

  /** Offset 0x04a: row index of each four 0F opcodes, relative to DELTA_OPCODES. */
  const TWO_BYTE_INDEX: seq<byte> :=
    ([0xab, 0x8b, 0x90, 0x64, 0x5b, 0x5b, 0x5b, 0x5b, 0x5b, 0x92, 0x5b, 0x5b, 0x76, 0x90, 0x92, 0x92]
    + [0x5b, 0x5b, 0x5b, 0x5b, 0x5b, 0x5b, 0x5b, 0x5b, 0x5b, 0x5b, 0x5b, 0x5b, 0x6a, 0x73, 0x90, 0x5b])
    + ([0x52, 0x52, 0x52, 0x52, 0x5b, 0x5b, 0x5b, 0x5b, 0x77, 0x7c, 0x77, 0x85, 0x5b, 0x5b, 0x70, 0x5b]
    + [0x7a, 0xaf, 0x76, 0x76, 0x5b, 0x5b, 0x5b, 0x5b, 0x5b, 0x5b, 0x5b, 0x5b, 0x5b, 0x5b, 0x5b, 0x86])

  /** Offset 0x08a: group entries of the 0F map. */
  const TWO_BYTE_GROUPS: seq<byte> :=
    [0x01, 0x03, 0x01, 0x04, 0x03, 0xd5, 0x03, 0xd5, 0x03, 0xcc, 0x01, 0xbc, 0x03, 0xf0]

  /** Offset 0x098: the rows both maps share. */
  const ROWS: seq<byte> :=
    ([0x03, 0x03, 0x04, 0x00, 0x50, 0x50, 0x50, 0x50, 0xff, 0x20, 0x20, 0x20, 0x20, 0x01, 0x01, 0x01]
    + ([0x01, 0xc4, 0x02, 0x10, 0xff, 0xff, 0xff, 0x01, 0x00, 0x03, 0x11, 0xff, 0x03, 0xc4, 0xc6, 0xc8]
    + [0x02, 0x10, 0x00, 0xff, 0xcc, 0x01, 0x01, 0x01, 0x00, 0x00, 0x00, 0x00, 0x01, 0x01, 0x03, 0x01]))
    + (([0xff, 0xff, 0xc0, 0xc2, 0x10, 0x11, 0x02, 0x03, 0x01, 0x01, 0x01, 0xff, 0xff, 0xff, 0x00, 0x00]
    + [0x00, 0xff, 0x00, 0x00, 0xff, 0xff, 0xff, 0xff, 0x10, 0x10, 0x10, 0x10, 0x02, 0x10, 0x00, 0x00])
    + ([0xc6, 0xc8, 0x02, 0x02, 0x02, 0x02, 0x06, 0x00, 0x04, 0x00, 0x02, 0xff, 0x00, 0xc0, 0xc2, 0x01]
    + [0x01, 0x03, 0x03, 0x03, 0xca]))

  /** Offset 0x0fd: undefined memory forms of D9..DF. */
  const FPU_REG: seq<byte> :=
    [0x40, 0x00, 0x0a, 0x00, 0x04, 0x00, 0x00]

  /** Offset 0x104: undefined register forms of D9..DF. */
  const FPU_MODRM: seq<byte> :=
    ([0x00, 0x00, 0x7f, 0x00, 0x33, 0x01, 0x00, 0x00, 0x00, 0x00, 0x00, 0x00, 0xff, 0xbf, 0xff, 0xff]
    + [0x00, 0x00, 0x00, 0x00, 0x07, 0x00, 0x00, 0xff, 0x00, 0x00, 0x00, 0x00, 0x00, 0x00, 0x00, 0x00])
    + ([0x00, 0x00, 0x00, 0x00, 0x00, 0x00, 0xff, 0xff, 0x00, 0x00, 0x00, 0xbf, 0x00, 0x00, 0x00, 0x00]
    + [0x00, 0x00, 0x00, 0x00, 0x7f, 0x00, 0x00, 0xff])

  /** Offset 0x13c: row index of each four 0F opcodes, relative to DELTA_PREFIXES. */
  const PREFIX_INDEX: seq<byte> :=
    ([0x40, 0x40, 0x40, 0x40, 0x41, 0x49, 0x40, 0x40, 0x40, 0x40, 0x4c, 0x42, 0x40, 0x40, 0x40, 0x40]
    + [0x40, 0x40, 0x40, 0x40, 0x4f, 0x44, 0x53, 0x40, 0x40, 0x40, 0x44, 0x57, 0x43, 0x5c, 0x40, 0x60])
    + ([0x40, 0x40, 0x40, 0x40, 0x40, 0x40, 0x40, 0x40, 0x40, 0x40, 0x40, 0x40, 0x40, 0x40, 0x64, 0x66]
    + [0x6e, 0x6b, 0x40, 0x40, 0x6a, 0x46, 0x40, 0x40, 0x44, 0x46, 0x40, 0x40, 0x5b, 0x44, 0x40, 0x40])

  /** Offset 0x17c: prefixes a 0F opcode refuses. */
  const PREFIX_ROWS: seq<byte> :=
    ([0x00, 0x00, 0x00, 0x00, 0x06, 0x06, 0x06, 0x06, 0x01, 0x06, 0x06, 0x02, 0x06, 0x06, 0x00, 0x06]
    + [0x00, 0x0a, 0x0a, 0x00, 0x00, 0x00, 0x02, 0x07, 0x07, 0x06, 0x02, 0x0d, 0x06, 0x06, 0x06, 0x0e])
    + ([0x05, 0x05, 0x02, 0x02, 0x00, 0x00, 0x04, 0x04, 0x04, 0x04, 0x05, 0x06, 0x06, 0x06, 0x00, 0x00]
    + [0x00, 0x0e])

  /** Offset 0x1ae: lockable one-byte opcodes: opcode, register mask. */
  const OP_LOCK_OK: seq<byte> :=
    [0x00, 0x00, 0x08, 0x00, 0x10, 0x00, 0x18, 0x00, 0x20, 0x00, 0x28, 0x00, 0x30, 0x00, 0x80, 0x01]
    + [0x82, 0x01, 0x86, 0x00, 0xf6, 0xcf, 0xfe, 0x3f]

  /** Offset 0x1c6: lockable 0F opcodes: opcode, register mask. */
  const OP2_LOCK_OK: seq<byte> :=
    [0xab, 0x00, 0xb0, 0x00, 0xb1, 0x00, 0xb3, 0x00, 0xba, 0xf8, 0xbb, 0x00, 0xc0, 0x00, 0xc1, 0x00]
    + [0xc7, 0xbf]

  /** Offset 0x1d8: memory-only one-byte opcodes: opcode, prefixes, register mask. */
  const OP_ONLY_MEM: seq<byte> :=
    [0x62, 0xff, 0x00, 0x8d, 0xff, 0x00, 0xc4, 0xff, 0x00, 0xc5, 0xff, 0x00, 0xff, 0xff, 0xeb]

  /** Offset 0x1e7: memory-only 0F opcodes. */
  const OP2_ONLY_MEM: seq<byte> :=
    [0x01, 0xff, 0x0e, 0x12, 0x08, 0x00, 0x13, 0x09, 0x00, 0x16, 0x08, 0x00, 0x17, 0x09, 0x00, 0x2b]
    + ([0x09, 0x00, 0xae, 0xff, 0x07, 0xb2, 0xff, 0x00, 0xb4, 0xff, 0x00, 0xb5, 0xff, 0x00, 0xc3, 0x01]
    + [0x00, 0xc7, 0xff, 0xbf, 0xe7, 0x08, 0x00, 0xf0, 0x02, 0x00])

  /** The sections the proofs need no contents of. */
  const FPU: seq<byte> := FPU_REG + FPU_MODRM
  const PAIRS: seq<byte> := PREFIX_ROWS + OP_LOCK_OK + OP2_LOCK_OK + OP_ONLY_MEM + OP2_ONLY_MEM

  /** hde64_table: the sections in order. */
  const HDE64_TABLE: seq<byte> :=
    ONE_BYTE_INDEX + ONE_BYTE_GROUPS + TWO_BYTE_INDEX + TWO_BYTE_GROUPS + ROWS + FPU + PREFIX_INDEX + PAIRS

  lemma OneByteIndexRange(i: nat)
    requires i < 64
    ensures |ONE_BYTE_INDEX| == 64 && 0x98 <= ONE_BYTE_INDEX[i] <= 0xf1 && !(0xb9 <= ONE_BYTE_INDEX[i] <= 0xbc)
    ensures 0xeb <= ONE_BYTE_INDEX[i] <= 0xee ==> i == 50
  {
  }

  lemma TwoByteIndexRange(i: nat)
    requires i < 64
    ensures |TWO_BYTE_INDEX| == 64 && 0x52 <= TWO_BYTE_INDEX[i] <= 0xaf && !(0xa1 <= TWO_BYTE_INDEX[i] <= 0xa4)
  {
  }

  lemma PrefixIndexRange(i: nat)
    requires i < 64
    ensures |PREFIX_INDEX| == 64 && 0x40 <= PREFIX_INDEX[i] <= 0x6e
  {
  }

  /** The row entries: an error, a plain class, or one of the seven group entries. */
  predicate RowEntry(i: nat, c: byte) {
    || c == C_ERROR || (PlainClass(c) && (c == 0x06 ==> i == 86))
    || c == 0xc0 || c == 0xc2 || c == 0xc4 || c == 0xc6 || c == 0xc8
    || (i == 36 && c == 0xcc) || (i == 100 && c == 0xca)
  }

  lemma RowEntriesLow(i: nat)
    requires i < 48
    ensures |ROWS| == 101 && RowEntry(i, ROWS[i])
  {
  }

  lemma RowEntriesHigh(i: nat)
    requires 48 <= i < 101
    ensures |ROWS| == 101 && RowEntry(i, ROWS[i])
  {
  }

  /** What the sections must say for a table made of them to be well-formed. */
  ghost predicate SectionFacts(index1: seq<byte>, groups1: seq<byte>, index2: seq<byte>, groups2: seq<byte>,
                               rows: seq<byte>, prefixes: seq<byte>) {
    && |index1| == 64 && |groups1| == 10 && |index2| == 64 && |groups2| == 14 && |rows| == 101 && |prefixes| == 64
    && (forall i :: 0 <= i < 64 ==> 0x98 <= index1[i] <= 0xf1 && !(0xb9 <= index1[i] <= 0xbc))
    && (forall i :: 0 <= i < 64 ==> (0xeb <= index1[i] <= 0xee ==> i == 50))
    && (forall i :: 0 <= i < 64 ==> 0x52 <= index2[i] <= 0xaf && !(0xa1 <= index2[i] <= 0xa4))
    && (forall i :: 0 <= i < 64 ==> 0x40 <= prefixes[i] <= 0x6e)
    && (forall i :: 0 <= i < 101 ==> RowEntry(i, rows[i]))
    && groups1[0] == 0x03 && groups1[2] == 0x11 && groups1[4] == 0x01 && groups1[6] == 0x01 && groups1[8] == 0x01
    && groups1[9] == 0x01
    && groups2[0] == 0x01 && groups2[2] == 0x01 && groups2[4] == 0x03 && groups2[6] == 0x03 && groups2[8] == 0x03
    && groups2[10] == 0x01 && groups2[12] == 0x03
    && OpcodeFacts(index1, index2, rows)
  }

  /** The rows of c8, e8, f4 and fc in the one-byte map, and of f4 in the 0f map. */
  ghost predicate OpcodeFacts(index1: seq<byte>, index2: seq<byte>, rows: seq<byte>)
    requires |index1| == 64 && |index2| == 64 && |rows| == 101
  {
    && index1[58] == 0x9e && rows[6] == 0x50 && rows[7] == 0x50
    && index1[61] == 0xc2 && rows[44] == 0x01 && rows[45] == 0x01
    && index1[63] == 0xe6 && rows[81] == 0xc8
    && index1[50] == 0xee && rows[86] == 0x06
    && index2[61] == 0x5b && rows[15] == 0x01 && rows[16] == 0x01
  }

  lemma ShippedOpcodes()
    ensures |ONE_BYTE_INDEX| == 64 && |TWO_BYTE_INDEX| == 64 && |ROWS| == 101
    ensures OpcodeFacts(ONE_BYTE_INDEX, TWO_BYTE_INDEX, ROWS)
  {
  }

  lemma ShippedSections()
    ensures SectionFacts(ONE_BYTE_INDEX, ONE_BYTE_GROUPS, TWO_BYTE_INDEX, TWO_BYTE_GROUPS, ROWS, PREFIX_INDEX)
    ensures |FPU| == 63 && |PAIRS| == 149
  {
    ShippedOpcodes();
    forall i | 0 <= i < 64
      ensures |ONE_BYTE_INDEX| == 64 && 0x98 <= ONE_BYTE_INDEX[i] <= 0xf1 && !(0xb9 <= ONE_BYTE_INDEX[i] <= 0xbc)
      ensures 0xeb <= ONE_BYTE_INDEX[i] <= 0xee ==> i == 50
    {
      OneByteIndexRange(i);
    }
    forall i | 0 <= i < 64
      ensures |TWO_BYTE_INDEX| == 64 && 0x52 <= TWO_BYTE_INDEX[i] <= 0xaf && !(0xa1 <= TWO_BYTE_INDEX[i] <= 0xa4)
    {
      TwoByteIndexRange(i);
    }
    forall i | 0 <= i < 64 ensures |PREFIX_INDEX| == 64 && 0x40 <= PREFIX_INDEX[i] <= 0x6e {
      PrefixIndexRange(i);
    }
    forall i | 0 <= i < 101 ensures |ROWS| == 101 && RowEntry(i, ROWS[i]) {
      if i < 48 { RowEntriesLow(i); } else { RowEntriesHigh(i); }
    }
  }

  /** A row entry has a plain class in each map that reaches it. */
  lemma PlainRow(t: seq<byte>, i: nat, c: byte)
    requires |t| == TABLE_SIZE && i < 101 && RowEntry(i, c)
    requires t[0x40] == 0x03 && t[0x42] == 0x11 && t[0x44] == 0x01 && t[0x46] == 0x01 && t[0x48] == 0x01
    requires t[0x8a] == 0x01 && t[0x8c] == 0x01 && t[0x8e] == 0x03 && t[0x90] == 0x03 && t[0x92] == 0x03
    requires t[0x94] == 0x01 && t[0x96] == 0x03
    ensures i != 36 && i != 100 ==> PlainEntry(t, false, c)
    ensures PlainEntry(t, true, c)
    ensures i != 86 && c != C_ERROR && i != 36 && i != 100 ==> Resolved(t, false, c) != 0x06
    ensures i != 86 && c != C_ERROR ==> Resolved(t, true, c) != 0x06
  {
  }

  /** The sections lie at their offsets in t. */
  ghost predicate Placed(a: seq<byte>, b: seq<byte>, c: seq<byte>, d: seq<byte>, e: seq<byte>, g: seq<byte>,
                         t: seq<byte>) {
    && |t| == TABLE_SIZE && |a| == 64 && |b| == 10 && |c| == 64 && |d| == 14 && |e| == 101 && |g| == 64
    && t[..0x40] == a && t[0x40..0x4a] == b && t[0x4a..0x8a] == c && t[0x8a..0x98] == d && t[0x98..0xfd] == e
    && t[0x13c..0x17c] == g
  }

  lemma SectionsPlaced(a: seq<byte>, b: seq<byte>, c: seq<byte>, d: seq<byte>, e: seq<byte>, f: seq<byte>, g: seq<byte>,
                       h: seq<byte>)
    requires |a| == 64 && |b| == 10 && |c| == 64 && |d| == 14 && |e| == 101 && |f| == 63 && |g| == 64 && |h| == 149
    ensures Placed(a, b, c, d, e, g, a + b + c + d + e + f + g + h)
  {
  }

  lemma PlainOpcode(a: seq<byte>, b: seq<byte>, c: seq<byte>, d: seq<byte>, e: seq<byte>, g: seq<byte>, t: seq<byte>,
                    two: bool, opcode: byte)
    requires SectionFacts(a, b, c, d, e, g) && Placed(a, b, c, d, e, g, t)
    ensures PlainEntry(t, two, ClassByte(t, two, opcode))
    ensures TwoImmediatesEntry(t, two, opcode) ==> !two && opcode == 0xc8
  {
    var index := if two then c[opcode / 4] else a[opcode / 4];
    assert t[MapBase(two) + opcode / 4] == index by {
      if two { assert t[0x4a..0x8a][opcode / 4] == index; } else { assert t[..0x40][opcode / 4] == index; }
    }
    var k := MapBase(two) + index + opcode % 4 - 0x98;
    assert t[0x98 + k] == t[0x98..0xfd][k] == e[k] && RowEntry(k, e[k]);
    GroupsPlaced(a, b, c, d, e, g, t);
    PlainRow(t, k, e[k]);
  }

  lemma GroupsPlaced(a: seq<byte>, b: seq<byte>, c: seq<byte>, d: seq<byte>, e: seq<byte>, g: seq<byte>, t: seq<byte>)
    requires Placed(a, b, c, d, e, g, t)
    ensures forall i :: 0 <= i < 10 ==> t[0x40 + i] == b[i]
    ensures forall i :: 0 <= i < 14 ==> t[0x8a + i] == d[i]
  {
    forall i | 0 <= i < 10 ensures t[0x40 + i] == b[i] { assert t[0x40..0x4a][i] == b[i]; }
    forall i | 0 <= i < 14 ensures t[0x8a + i] == d[i] { assert t[0x8a..0x98][i] == d[i]; }
  }

  lemma OpcodesPlaced(a: seq<byte>, b: seq<byte>, c: seq<byte>, d: seq<byte>, e: seq<byte>, g: seq<byte>, t: seq<byte>)
    requires Placed(a, b, c, d, e, g, t) && OpcodeFacts(a, c, e)
    ensures ClassByte(t, false, 0xe8) == 0x50 && ClassByte(t, false, 0xe9) == 0x50 && ClassByte(t, false, 0xff) == 0xc8
    ensures ClassByte(t, false, 0xc8) == 0x06
    ensures ClassByte(t, false, 0xf6) == 0x01 && ClassByte(t, false, 0xf7) == 0x01
    ensures ClassByte(t, true, 0xf6) == 0x01 && ClassByte(t, true, 0xf7) == 0x01
  {
    assert t[50] == a[50] && t[58] == a[58] && t[61] == a[61] && t[63] == a[63];
    assert t[0x4a + 61] == t[0x4a..0x8a][61] == c[61];
    var r := t[0x98..0xfd];
    assert r[6] == t[0x9e] && r[7] == t[0x9f] && r[15] == t[0xa7] && r[16] == t[0xa8];
    assert r[44] == t[0xc4] && r[45] == t[0xc5] && r[81] == t[0xe9] && r[86] == t[0xee];
  }

  /** The table of the header has every property the decoder needs. */
  lemma ShippedTable()
    ensures WellFormed(HDE64_TABLE)
  {
    ShippedSections();
    SectionsPlaced(ONE_BYTE_INDEX, ONE_BYTE_GROUPS, TWO_BYTE_INDEX, TWO_BYTE_GROUPS, ROWS, FPU, PREFIX_INDEX, PAIRS);
    PlacedTable(ONE_BYTE_INDEX, ONE_BYTE_GROUPS, TWO_BYTE_INDEX, TWO_BYTE_GROUPS, ROWS, PREFIX_INDEX, HDE64_TABLE);
  }

  lemma PlacedTable(a: seq<byte>, b: seq<byte>, c: seq<byte>, d: seq<byte>, e: seq<byte>, g: seq<byte>, t: seq<byte>)
    requires SectionFacts(a, b, c, d, e, g) && Placed(a, b, c, d, e, g, t)
    ensures WellFormed(t)
  {
    forall two: bool, opcode: byte
      ensures PlainEntry(t, two, ClassByte(t, two, opcode))
      ensures TwoImmediatesEntry(t, two, opcode) ==> !two && opcode == 0xc8
    {
      PlainOpcode(a, b, c, d, e, g, t, two, opcode);
    }
    OpcodesPlaced(a, b, c, d, e, g, t);
    GroupsPlaced(a, b, c, d, e, g, t);
    forall i | DELTA_PREFIXES <= i < DELTA_PREFIXES + 64 ensures DELTA_PREFIXES + t[i] + 3 < TABLE_SIZE {
      assert t[i] == t[0x13c..0x17c][i - DELTA_PREFIXES];
    }
  }

  /** A table the decoder may run on. */
  type HdeTable = t: seq<byte> | WellFormed(t) ghost witness (ShippedTable(); HDE64_TABLE)

  lemma TableSize(t: HdeTable)
    ensures |t| == TABLE_SIZE
  {
  }

  // --------------------------------------------- entries of the later tables

  ghost predicate OperandFacts(t: seq<byte>)
    requires |t| >= 0x13c
  {
    && t[40] == 0xe0 && t[46] == 0xe0 && t[47] == 0xe0 && (forall i :: 0xe0 <= i < 0xe4 ==> t[i] == C_IMM_P66)
    && t[1] == 0xaa && t[0xab] == C_IMM_P66
  }

  /** What the prefix, lock and memory-only tables say of F6 and F7 of the 0F map, and of opcode 0. */
  ghost predicate MapFacts(t: seq<byte>)
    requires |t| == TABLE_SIZE
  {
    // PSADBW and MASKMOVQ refuse F2 and F3, and their register forms are defined
    && t[DELTA_PREFIXES + 61] == 0x44 && t[DELTA_PREFIXES + 0x46] == 0x06 && t[DELTA_PREFIXES + 0x47] == 0x06
    && (forall i :: 0 <= i < 14 ==> t[DELTA_OP2_ONLY_MEM + 3 * i] != 0xf6 && t[DELTA_OP2_ONLY_MEM + 3 * i] != 0xf7)
       // A0 to A3 and B8 to BF have an immediate of operand size, and so has 05
    && OperandFacts(t)
       // 0F 00 is a group of ModRM opcodes, defined for register fields 0 to 5
    && t[DELTA_OPCODES] == 0xab && t[DELTA_OPCODES + 0xab] == 0xc0 && t[DELTA_OPCODES + 0x40] == C_MODRM
    && t[DELTA_OPCODES + 0x41] == 0x03
       // opcode 0 may be locked in the one-byte map, whatever its register field, and not in the 0F map
    && t[DELTA_OP_LOCK_OK] == 0 && t[DELTA_OP_LOCK_OK + 1] == 0
    && (forall i :: 0 <= i < 9 ==> t[DELTA_OP2_LOCK_OK + 2 * i] != 0)
  }

  lemma PairsEntries()
    ensures |PREFIX_INDEX| == 64 && PREFIX_INDEX[61] == 0x44
    ensures |PREFIX_ROWS| == 50 && PREFIX_ROWS[6] == 0x06 && PREFIX_ROWS[7] == 0x06
    ensures |OP_LOCK_OK| == 24 && OP_LOCK_OK[0] == 0 && OP_LOCK_OK[1] == 0 && |OP_ONLY_MEM| == 15
  {
  }

  lemma ZeroEntries()
    ensures |TWO_BYTE_INDEX| == 64 && TWO_BYTE_INDEX[0] == 0xab && |ROWS| == 101 && ROWS[93] == 0xc0
    ensures |TWO_BYTE_GROUPS| == 14 && TWO_BYTE_GROUPS[0] == C_MODRM && TWO_BYTE_GROUPS[1] == 0x03
  {
  }

  lemma OperandEntries()
    ensures |ONE_BYTE_INDEX| == 64 && ONE_BYTE_INDEX[1] == 0xaa && ONE_BYTE_INDEX[40] == 0xe0
    ensures ONE_BYTE_INDEX[46] == 0xe0 && ONE_BYTE_INDEX[47] == 0xe0
    ensures |ROWS| == 101 && ROWS[19] == C_IMM_P66
    ensures ROWS[72] == C_IMM_P66 && ROWS[73] == C_IMM_P66 && ROWS[74] == C_IMM_P66 && ROWS[75] == C_IMM_P66
  {
  }

  lemma OperandPlaced(a: seq<byte>, b: seq<byte>, c: seq<byte>, d: seq<byte>, e: seq<byte>, f: seq<byte>)
    requires |a| == 64 && |b| == 10 && |c| == 64 && |d| == 14 && |e| == 101 && |f| == 63
    ensures var front := a + b + c + d + e + f;
            && |front| == 0x13c && front[1] == a[1] && front[40] == a[40] && front[46] == a[46] && front[47] == a[47]
            && front[0xab] == e[19] && forall i :: 0xe0 <= i < 0xe4 ==> front[i] == e[i - 0x98]
  {
  }

  lemma FrontEntries(a: seq<byte>, b: seq<byte>, c: seq<byte>, d: seq<byte>, e: seq<byte>, f: seq<byte>)
    requires |a| == 64 && |b| == 10 && |c| == 64 && |d| == 14 && |e| == 101 && |f| == 63
    ensures var front := a + b + c + d + e + f;
            |front| == 0x13c && front[0x4a] == c[0] && front[0x8a] == d[0] && front[0x8b] == d[1]
              && front[0xf5] == e[93]
  {
  }

  lemma LockEntry(i: nat)
    requires i < 9
    ensures |OP2_LOCK_OK| == 18 && OP2_LOCK_OK[2 * i] != 0
  {
  }

  lemma OnlyMemEntry(i: nat)
    requires i < 14
    ensures |OP2_ONLY_MEM| == 42 && OP2_ONLY_MEM[3 * i] != 0xf6 && OP2_ONLY_MEM[3 * i] != 0xf7
  {
  }

  lemma PlacedFacts(front: seq<byte>, prefixes: seq<byte>, a: seq<byte>, b: seq<byte>, c: seq<byte>, d: seq<byte>,
                    e: seq<byte>)
    requires |front| == 0x13c && |prefixes| == 64 && |a| == 50 && |b| == 24 && |c| == 18 && |d| == 15 && |e| == 42
    requires front[0x4a] == 0xab && front[0xf5] == 0xc0 && front[0x8a] == C_MODRM && front[0x8b] == 0x03
    requires OperandFacts(front)
    requires prefixes[61] == 0x44 && a[6] == 0x06 && a[7] == 0x06 && b[0] == 0 && b[1] == 0
    requires forall i :: 0 <= i < 9 ==> c[2 * i] != 0
    requires forall i :: 0 <= i < 14 ==> e[3 * i] != 0xf6 && e[3 * i] != 0xf7
    ensures var t := front + prefixes + (a + b + c + d + e); |t| == TABLE_SIZE && MapFacts(t)
  {
    var t := front + prefixes + (a + b + c + d + e);
    assert t[0x4a] == front[0x4a] && t[0xf5] == front[0xf5] && t[0x8a] == front[0x8a] && t[0x8b] == front[0x8b];
    assert forall i :: 0 <= i < 0x13c ==> t[i] == front[i];
    assert t[DELTA_PREFIXES + 61] == prefixes[61];
    assert t[DELTA_PREFIXES + 0x46] == a[6] && t[DELTA_PREFIXES + 0x47] == a[7];
    assert t[DELTA_OP_LOCK_OK] == b[0] && t[DELTA_OP_LOCK_OK + 1] == b[1];
    forall i | 0 <= i < 9 ensures t[DELTA_OP2_LOCK_OK + 2 * i] == c[2 * i] {
    }
    forall i | 0 <= i < 14 ensures t[DELTA_OP2_ONLY_MEM + 3 * i] == e[3 * i] {
    }
  }

  /** The table of the header has these entries too. */
  lemma ShippedMaps()
    ensures |HDE64_TABLE| == TABLE_SIZE && MapFacts(HDE64_TABLE)
  {
    ShippedSections();
    PairsEntries();
    forall i | 0 <= i < 9 ensures |OP2_LOCK_OK| == 18 && OP2_LOCK_OK[2 * i] != 0 {
      LockEntry(i);
    }
    LockEntry(0);
    OnlyMemEntry(0);
    forall i | 0 <= i < 14 ensures |OP2_ONLY_MEM| == 42 && OP2_ONLY_MEM[3 * i] != 0xf6 && OP2_ONLY_MEM[3 * i] != 0xf7 {
      OnlyMemEntry(i);
    }
    ZeroEntries();
    FrontEntries(ONE_BYTE_INDEX, ONE_BYTE_GROUPS, TWO_BYTE_INDEX, TWO_BYTE_GROUPS, ROWS, FPU);
    OperandEntries();
    OperandPlaced(ONE_BYTE_INDEX, ONE_BYTE_GROUPS, TWO_BYTE_INDEX, TWO_BYTE_GROUPS, ROWS, FPU);
    ShippedMapsOf(ONE_BYTE_INDEX + ONE_BYTE_GROUPS + TWO_BYTE_INDEX + TWO_BYTE_GROUPS + ROWS + FPU);
  }

  lemma ShippedMapsOf(front: seq<byte>)
    requires front == ONE_BYTE_INDEX + ONE_BYTE_GROUPS + TWO_BYTE_INDEX + TWO_BYTE_GROUPS + ROWS + FPU
             && |front| == 0x13c
    requires front[0x4a] == 0xab && front[0xf5] == 0xc0 && front[0x8a] == C_MODRM && front[0x8b] == 0x03
    requires OperandFacts(front)
    requires |PREFIX_INDEX| == 64 && |PREFIX_ROWS| == 50 && |OP_LOCK_OK| == 24 && |OP2_LOCK_OK| == 18
             && |OP_ONLY_MEM| == 15
    requires |OP2_ONLY_MEM| == 42 && PREFIX_INDEX[61] == 0x44 && PREFIX_ROWS[6] == 0x06 && PREFIX_ROWS[7] == 0x06
    requires OP_LOCK_OK[0] == 0 && OP_LOCK_OK[1] == 0
    requires forall i :: 0 <= i < 9 ==> OP2_LOCK_OK[2 * i] != 0
    requires forall i :: 0 <= i < 14 ==> OP2_ONLY_MEM[3 * i] != 0xf6 && OP2_ONLY_MEM[3 * i] != 0xf7
    ensures |HDE64_TABLE| == TABLE_SIZE && MapFacts(HDE64_TABLE)
  {
    hide MapFacts;
    PlacedFacts(front, PREFIX_INDEX, PREFIX_ROWS, OP_LOCK_OK, OP2_LOCK_OK, OP_ONLY_MEM, OP2_ONLY_MEM);
  }
}
