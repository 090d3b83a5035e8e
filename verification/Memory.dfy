/** A 64-bit address space and the two ways memory.c touches it: whole-range reads and writes (sys_proc_rw). */
module Memory {
  import opened Bytes

  /** 2^64: uintptr_t arithmetic is modulo W. */
  const W: int := 0x1_0000_0000_0000_0000

  type Addr = a: int | 0 <= a < W
  type Mem = Addr -> byte

  /** `a + n` on uintptr_t. */
  function Plus(a: Addr, n: int): Addr {
    (a + n) % W
  }

  /** How far x lies past a. */
  function Offset(a: Addr, x: Addr): nat {
    (x - a) % W
  }

  /** The bytes a pointer to `a` sees. */
  function CodeAt(m: Mem, a: Addr): Code {
    (i: nat) => m(Plus(a, i))
  }

  /** The n bytes from a on. */
  function Read(m: Mem, a: Addr, n: nat): (s: seq<byte>)
    ensures |s| == n && forall i :: 0 <= i < n ==> s[i] == m(Plus(a, i))
  {
    seq<byte>(n, i requires 0 <= i => m(Plus(a, i)))
  }

  /** m with `data` stored from a on. */
  function Write(m: Mem, a: Addr, data: seq<byte>): Mem {
    (x: Addr) => if Offset(a, x) < |data| then data[Offset(a, x)] else m(x)
  }

  /** The ranges of n bytes from a and of k bytes from b share no address. */
  predicate Apart(a: Addr, n: nat, b: Addr, k: nat) {
    n == 0 || k == 0 || (Offset(a, b) >= n && Offset(b, a) >= k)
  }

  /** m and m' hold the same n bytes from a on. */
  ghost predicate SameAt(m: Mem, m': Mem, a: Addr, n: nat) {
    forall i :: 0 <= i < n ==> m'(Plus(a, i)) == m(Plus(a, i))
  }

  lemma PlusOffset(a: Addr, i: nat)
    requires i < W
    ensures Offset(a, Plus(a, i)) == i
  {
  }

  lemma OffsetBack(a: Addr, i: nat)
    requires 0 < i < W
    ensures Offset(Plus(a, i), a) == W - i
  {
  }

  lemma PlusPlus(a: Addr, i: int, j: int)
    ensures Plus(Plus(a, i), j) == Plus(a, i + j)
  {
  }

  lemma ReadBack(m: Mem, a: Addr, data: seq<byte>)
    requires |data| < W
    ensures Read(Write(m, a, data), a, |data|) == data
  {
    forall i | 0 <= i < |data| ensures Write(m, a, data)(Plus(a, i)) == data[i] {
      PlusOffset(a, i);
    }
  }

  lemma ApartOffset(a: Addr, n: nat, b: Addr, k: nat, i: nat)
    requires Apart(a, n, b, k) && i < k && k < W
    ensures Offset(a, Plus(b, i)) >= n
  {
    if n > 0 {
      var d := Offset(a, b);
      assert a != b ==> d + Offset(b, a) == W;
      assert Plus(b, i) == Plus(a, d + i);
      PlusOffset(a, d + i);
    }
  }

  /** A write leaves every range apart from its own alone. */
  lemma WriteFrame(m: Mem, a: Addr, data: seq<byte>, b: Addr, k: nat)
    requires Apart(a, |data|, b, k) && k < W
    ensures SameAt(m, Write(m, a, data), b, k)
  {
    forall i | 0 <= i < k ensures Write(m, a, data)(Plus(b, i)) == m(Plus(b, i)) {
      ApartOffset(a, |data|, b, k, i);
    }
  }

  lemma ApartSymmetric(a: Addr, n: nat, b: Addr, k: nat)
    requires Apart(a, n, b, k)
    ensures Apart(b, k, a, n)
  {
  }
}
