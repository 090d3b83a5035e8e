/** What a record tells of the legacy prefixes, on the bytes in front of the opcode. */
module Hde64Prefixes {
  import opened Bytes
  import opened Table64
  import opened Hde64Spec
  import opened Hde64Proofs

  const SEGMENTS: set<byte> := {0x26, 0x2e, 0x36, 0x3e, 0x64, 0x65}
  const LEGACY: set<byte> := {0xf0, 0xf2, 0xf3, 0x66, 0x67} + SEGMENTS

  /** Is v the last of the first n bytes that is one of these, or 0 when none is? */
  ghost predicate LastOf(code: Code, n: nat, kinds: set<byte>, v: byte) {
    || (v == 0 && forall i :: 0 <= i < n ==> code(i) !in kinds)
    || exists i :: 0 <= i < n && code(i) == v && v in kinds && forall j :: i < j < n ==> code(j) !in kinds
  }

  ghost predicate Among(code: Code, n: nat, kinds: set<byte>) {
    exists i :: 0 <= i < n && code(i) in kinds
  }

  /** The bytes that count as one of these prefixes. */
  ghost predicate SameKinds(kinds: set<Prefix>, bytes: set<byte>) {
    forall b: byte :: PrefixOf(b) in kinds <==> b in bytes
  }

  lemma {:induction false} LastPrefixIsLast(code: Code, n: nat, kinds: set<Prefix>, bytes: set<byte>)
    requires SameKinds(kinds, bytes)
    ensures LastOf(code, n, bytes, LastPrefix(code, n, kinds))
  {
    hide PrefixOf;
    if n != 0 {
      if PrefixOf(code(n - 1)) in kinds {
        assert code(n - 1) in bytes;
      } else {
        LastPrefixIsLast(code, n - 1, kinds, bytes);
        LastStays(code, n - 1, bytes, LastPrefix(code, n - 1, kinds));
      }
    }
  }

  lemma LastStays(code: Code, n: nat, kinds: set<byte>, v: byte)
    requires LastOf(code, n, kinds, v) && code(n) !in kinds
    ensures LastOf(code, n + 1, kinds, v)
  {
    if !(forall i :: 0 <= i < n ==> code(i) !in kinds) {
      var i :| 0 <= i < n && code(i) == v && v in kinds && forall j :: i < j < n ==> code(j) !in kinds;
      assert forall j :: i < j < n + 1 ==> code(j) !in kinds;
    }
  }

  lemma PrefixBytes()
    ensures SameKinds({F2, F3}, {0xf2, 0xf3}) && SameKinds({LOCK}, {0xf0}) && SameKinds({SEG}, SEGMENTS)
    ensures SameKinds({P66}, {0x66}) && SameKinds({P67}, {0x67}) && SameKinds({F2}, {0xf2}) && SameKinds({F3}, {0xf3})
    ensures forall b: byte :: PrefixOf(b) == NONE <==> b !in LEGACY
  {
  }

  lemma KindAmong(code: Code, n: nat, kind: Prefix, bytes: set<byte>)
    requires SameKinds({kind}, bytes)
    ensures kind in PrefixSet(code, n) <==> Among(code, n, bytes)
  {
    hide PrefixOf;
    forall i | 0 <= i < n ensures PrefixOf(code(i)) == kind <==> code(i) in bytes {
      assert PrefixOf(code(i)) in {kind} <==> code(i) in bytes;
    }
  }

  /**
   The prefixes are the leading bytes of the eleven kinds, at most sixteen; a flag is raised for a kind exactly when one
   of them is of that kind, and a field holds the last byte of its kind.
   */
  lemma PrefixRule(t: HdeTable, code: Code)
    requires F_ERROR !in Decode(t, code).flags
    ensures var hs, n := Decode(t, code), PrefixRun(code, 0);
            && n < 15 && (forall i :: 0 <= i < n ==> code(i) in LEGACY) && code(n) !in LEGACY
            && (F_PREFIX_REPNZ in hs.flags <==> Among(code, n, {0xf2}))
            && (F_PREFIX_REPX in hs.flags <==> Among(code, n, {0xf3}))
            && (F_PREFIX_66 in hs.flags <==> Among(code, n, {0x66}))
            && (F_PREFIX_67 in hs.flags <==> Among(code, n, {0x67}))
            && (F_PREFIX_LOCK in hs.flags <==> Among(code, n, {0xf0}))
            && (F_PREFIX_SEG in hs.flags <==> Among(code, n, SEGMENTS))
            && LastOf(code, n, {0xf2, 0xf3}, hs.p_rep) && LastOf(code, n, {0xf0}, hs.p_lock)
            && LastOf(code, n, SEGMENTS, hs.p_seg) && LastOf(code, n, {0x66}, hs.p_66)
            && LastOf(code, n, {0x67}, hs.p_67)
  {
    hide Decode, PrefixOf, WellFormed, Encode, SubfieldsAgree, LastPrefix, PrefixSet, LastOf, Among, SEGMENTS, LEGACY,
         SameKinds;
    var hs, n := Decode(t, code), PrefixRun(code, 0);
    Layout(t, code);
    LengthBounds(t, code);
    PrefixBytes();
    LastPrefixIsLast(code, n, {F2, F3}, {0xf2, 0xf3});
    LastPrefixIsLast(code, n, {LOCK}, {0xf0});
    LastPrefixIsLast(code, n, {SEG}, SEGMENTS);
    LastPrefixIsLast(code, n, {P66}, {0x66});
    LastPrefixIsLast(code, n, {P67}, {0x67});
    KindAmong(code, n, F2, {0xf2});
    KindAmong(code, n, F3, {0xf3});
    KindAmong(code, n, P66, {0x66});
    KindAmong(code, n, P67, {0x67});
    KindAmong(code, n, LOCK, {0xf0});
    KindAmong(code, n, SEG, SEGMENTS);
    FlagsReported(hs.flags, PrefixSet(code, n));
  }

  lemma FlagsReported(flags: set<Flag>, pref: set<Prefix>)
    requires flags * PREFIX_FLAGS == PrefixFlags(pref)
    ensures (F_PREFIX_REPNZ in flags <==> F2 in pref) && (F_PREFIX_REPX in flags <==> F3 in pref)
    ensures (F_PREFIX_66 in flags <==> P66 in pref) && (F_PREFIX_67 in flags <==> P67 in pref)
    ensures (F_PREFIX_LOCK in flags <==> LOCK in pref) && (F_PREFIX_SEG in flags <==> SEG in pref)
  {
    var reported := flags * PREFIX_FLAGS;
    assert F_PREFIX_REPNZ in flags <==> F_PREFIX_REPNZ in reported;
    assert F_PREFIX_REPX in flags <==> F_PREFIX_REPX in reported;
    assert F_PREFIX_66 in flags <==> F_PREFIX_66 in reported;
    assert F_PREFIX_67 in flags <==> F_PREFIX_67 in reported;
    assert F_PREFIX_LOCK in flags <==> F_PREFIX_LOCK in reported;
    assert F_PREFIX_SEG in flags <==> F_PREFIX_SEG in reported;
  }
}
