/** Bytes, little-endian words and byte streams shared by the decoder and the hook engine. */
module Bytes {

  type byte = b: int | 0 <= b < 256

  /** The bytes a code pointer sees: index 0 is the byte it points at. */
  type Code = nat -> byte

  /** The two streams are equal on their first n bytes. */
  ghost predicate Agree(a: Code, b: Code, n: nat) {
    forall i: nat :: i < n ==> a(i) == b(i)
  }

  /** The bytes of `code` in the half-open range [from, from + n). */
  function Slice(code: Code, from: nat, n: nat): (s: seq<byte>)
    ensures |s| == n && forall i :: 0 <= i < n ==> s[i] == code(from + i)
  {
    seq(n, i requires 0 <= i => code(from + i))
  }

  /** The little-endian word of n bytes starting at `at`. */
  function Le(code: Code, at: nat, n: nat): (v: nat)
    decreases n
  {
    if n == 0 then 0 else code(at) + 256 * Le(code, at + 1, n - 1)
  }

  /** The n low bytes of v, least significant first. */
  function LeBytes(v: nat, n: nat): (s: seq<byte>)
    ensures |s| == n
  {
    if n == 0 then [] else [v % 256] + LeBytes(v / 256, n - 1)
  }

  function Pow256(n: nat): (p: nat)
    ensures p > 0
  {
    if n == 0 then 1 else 256 * Pow256(n - 1)
  }

  /** Reading a word and writing it back gives the bytes it was read from. */
  lemma {:induction false} LeBytesOfLe(code: Code, at: nat, n: nat)
    ensures LeBytes(Le(code, at, n), n) == Slice(code, at, n)
    decreases n
  {
    if n != 0 {
      LeBytesOfLe(code, at + 1, n - 1);
      assert Slice(code, at, n) == [code(at)] + Slice(code, at + 1, n - 1);
      assert Le(code, at, n) % 256 == code(at) && Le(code, at, n) / 256 == Le(code, at + 1, n - 1);
    }
  }

  /** Writing a word and reading it back gives the word, when it fits in n bytes. */
  lemma {:induction false} LeOfLeBytes(code: Code, at: nat, n: nat, v: nat)
    requires v < Pow256(n)
    requires Slice(code, at, n) == LeBytes(v, n)
    ensures Le(code, at, n) == v
    decreases n
  {
    if n != 0 {
      assert code(at) == Slice(code, at, n)[0] == v % 256;
      assert Slice(code, at + 1, n - 1) == Slice(code, at, n)[1..] == LeBytes(v / 256, n - 1);
      LeOfLeBytes(code, at + 1, n - 1, v / 256);
    }
  }

  /** A word only depends on its own bytes. */
  lemma {:induction false} LeLocal(a: Code, b: Code, at: nat, n: nat)
    requires Agree(a, b, at + n)
    ensures Le(a, at, n) == Le(b, at, n)
    decreases n
  {
    if n != 0 {
      LeLocal(a, b, at + 1, n - 1);
    }
  }

  lemma {:induction false} LeBound(code: Code, at: nat, n: nat)
    ensures Le(code, at, n) < Pow256(n)
    decreases n
  {
    if n != 0 {
      LeBound(code, at + 1, n - 1);
    }
  }

  lemma ShortWords(code: Code, at: nat)
    ensures Le(code, at, 1) == code(at)
    ensures Le(code, at, 2) == code(at) + 256 * code(at + 1)
  {
    assert Le(code, at + 1, 1) == code(at + 1) + 256 * Le(code, at + 2, 0);
  }
}
