/** The 64-bit FNV-1a string ids of common/stringid.h, for narrow and for wide strings. */
module StringId {

  type u64 = x: int | 0 <= x < 0x1_0000_0000_0000_0000
  /** char is signed; wchar_t, under -fshort-wchar, is an unsigned type of 16 bits. */
  type schar = c: int | -0x80 <= c < 0x80
  type wchar = c: int | 0 <= c < 0x1_0000

  const BASIS: u64 := 0xCBF29CE484222325

  /** A character as it meets a uint64_t: a negative one is sign-extended. */
  function Extend(c: int): u64
    requires -0x80 <= c < 0x1_0000
  {
    if c < 0 then 0x1_0000_0000_0000_0000 + c else c
  }

  /** Exclusive or, bit by bit. */
  function Xor(a: nat, b: nat): nat {
    if a == 0 && b == 0 then 0 else 2 * Xor(a / 2, b / 2) + (a + b) % 2
  }

  lemma XorStep(a: nat, b: nat)
    ensures Xor(a, b) == 2 * Xor(a / 2, b / 2) + (a + b) % 2
  {
    if a == 0 && b == 0 {
      assert Xor(0, 0) == 0;
    }
  }

  lemma {:induction false} XorCommutes(a: nat, b: nat)
    ensures Xor(a, b) == Xor(b, a)
  {
    if a != 0 || b != 0 {
      XorCommutes(a / 2, b / 2);
    }
  }

  lemma {:induction false} XorUndone(a: nat, b: nat)
    ensures Xor(Xor(a, b), b) == a
    decreases a + b
  {
    hide Xor;
    var x := Xor(a, b);
    XorStep(a, b);
    XorStep(x, b);
    if a != 0 || b != 0 {
      XorUndone(a / 2, b / 2);
      Halves(x, Xor(a / 2, b / 2), (a + b) % 2);
      assert (x + b) % 2 == a % 2;
    } else {
      XorZero();
    }
  }

  lemma Halves(x: nat, half: nat, bit: nat)
    requires x == 2 * half + bit && bit < 2
    ensures x / 2 == half && x % 2 == bit
  {
  }

  lemma XorZero()
    ensures Xor(0, 0) == 0
  {
  }

  function PowerOfTwo(n: nat): nat {
    if n == 0 then 1 else 2 * PowerOfTwo(n - 1)
  }

  lemma {:induction false} XorFits(a: nat, b: nat, n: nat)
    requires a < PowerOfTwo(n) && b < PowerOfTwo(n)
    ensures Xor(a, b) < PowerOfTwo(n)
  {
    if n > 0 && (a != 0 || b != 0) {
      XorFits(a / 2, b / 2, n - 1);
    }
  }

  lemma EightMore(n: nat)
    ensures PowerOfTwo(n + 8) == 0x100 * PowerOfTwo(n)
  {
    assert PowerOfTwo(n + 2) == 4 * PowerOfTwo(n);
    assert PowerOfTwo(n + 4) == 4 * PowerOfTwo(n + 2);
    assert PowerOfTwo(n + 6) == 4 * PowerOfTwo(n + 4);
  }

  lemma WordSize()
    ensures PowerOfTwo(64) == 0x1_0000_0000_0000_0000
  {
    assert PowerOfTwo(0) == 1;
    hide PowerOfTwo;
    EightMore(0);
    EightMore(8);
    EightMore(16);
    EightMore(24);
    EightMore(32);
    EightMore(40);
    EightMore(48);
    EightMore(56);
  }

  function Xor64(a: u64, b: u64): u64 {
    WordSize();
    XorFits(a, b, 64);
    Xor(a, b)
  }

  /** base = 0x100000001B3 * (base ^ unit), modulo 2^64. */
  function Mix(base: u64, unit: u64): u64 {
    0x100000001B3 * Xor64(base, unit) % 0x1_0000_0000_0000_0000
  }

  /** The step undone: the multiplier has an inverse modulo 2^64. */
  function Unmix(base: u64, unit: u64): u64 {
    Xor64(0xCE965057AFF6957B * base % 0x1_0000_0000_0000_0000, unit)
  }

  lemma WholeWords(x: u64, t: int)
    ensures (x + 0x1_0000_0000_0000_0000 * t) % 0x1_0000_0000_0000_0000 == x
  {
  }

  /** 0xCE965057AFF6957B * 0x100000001B3 is 0xce9650590f * 2^64 + 1. */
  lemma Inverse(x: u64)
    ensures 0xCE965057AFF6957B * (0x100000001B3 * x % 0x1_0000_0000_0000_0000) % 0x1_0000_0000_0000_0000 == x
    ensures 0x100000001B3 * (0xCE965057AFF6957B * x % 0x1_0000_0000_0000_0000) % 0x1_0000_0000_0000_0000 == x
  {
    var q := 0x100000001B3 * x / 0x1_0000_0000_0000_0000;
    assert 0x100000001B3 * x % 0x1_0000_0000_0000_0000 == 0x100000001B3 * x - 0x1_0000_0000_0000_0000 * q;
    WholeWords(x, 0xce9650590f * x - 0xCE965057AFF6957B * q);
    var r := 0xCE965057AFF6957B * x / 0x1_0000_0000_0000_0000;
    assert 0xCE965057AFF6957B * x % 0x1_0000_0000_0000_0000 == 0xCE965057AFF6957B * x - 0x1_0000_0000_0000_0000 * r;
    WholeWords(x, 0xce9650590f * x - 0x100000001B3 * r);
  }

  /** Each step is a bijection of the 64-bit states. */
  lemma MixUndone(base: u64, unit: u64)
    ensures Unmix(Mix(base, unit), unit) == base
    ensures Mix(Unmix(base, unit), unit) == base
  {
    hide Xor;
    Inverse(Xor64(base, unit));
    Inverse(base);
    XorUndone(base, unit);
    XorUndone(0xCE965057AFF6957B * base % 0x1_0000_0000_0000_0000, unit);
  }

  /** From one state different characters lead to different states. */
  lemma MixSeparates(base: u64, a: u64, b: u64)
    requires Mix(base, a) == Mix(base, b)
    ensures a == b
  {
    hide Xor;
    Inverse(Xor64(base, a));
    Inverse(Xor64(base, b));
    XorUndone(a, base);
    XorUndone(b, base);
    XorCommutes(a, base);
    XorCommutes(b, base);
  }

  // ------------------------------------------------------------------ hashes

  /** The characters as the 64-bit units that are mixed in. */
  function UnitsA(s: seq<schar>): (u: seq<u64>)
    ensures |u| == |s| && forall i :: 0 <= i < |s| ==> u[i] == Extend(s[i])
  {
    seq(|s|, i requires 0 <= i < |s| => Extend(s[i]))
  }

  function UnitsW(s: seq<wchar>): (u: seq<u64>)
    ensures |u| == |s| && forall i :: 0 <= i < |s| ==> u[i] == Extend(s[i])
  {
    seq(|s|, i requires 0 <= i < |s| => Extend(s[i]))
  }

  /** The state behind a string, from a given state. */
  function Hash(base: u64, units: seq<u64>): u64
    decreases |units|
  {
    if units == [] then base else Hash(Mix(base, units[0]), units[1..])
  }

  /** The state before it. */
  function Unhash(base: u64, units: seq<u64>): u64
    decreases |units|
  {
    if units == [] then base else Unmix(Unhash(base, units[1..]), units[0])
  }

  function IdA(s: seq<schar>): u64 {
    Hash(BASIS, UnitsA(s))
  }

  function IdW(s: seq<wchar>): u64 {
    Hash(BASIS, UnitsW(s))
  }

  /** The state before a string can be told from the state behind it, so a common ending never makes two ids meet. */
  lemma {:induction false} HashUndone(base: u64, units: seq<u64>)
    ensures Unhash(Hash(base, units), units) == base && Hash(Unhash(base, units), units) == base
    decreases |units|
  {
    hide Mix, Unmix;
    if units != [] {
      HashUndone(Mix(base, units[0]), units[1..]);
      MixUndone(base, units[0]);
      HashUndone(base, units[1..]);
      MixUndone(Unhash(base, units[1..]), units[0]);
    }
  }

  lemma {:induction false} HashAppend(base: u64, a: seq<u64>, b: seq<u64>)
    ensures Hash(base, a + b) == Hash(Hash(base, a), b)
    decreases |a|
  {
    hide Mix;
    if a == [] {
      assert a + b == b;
    } else {
      assert (a + b)[1..] == a[1..] + b;
      HashAppend(Mix(base, a[0]), a[1..], b);
    }
  }

  /** Two strings that differ in exactly one position. */
  ghost predicate DifferAt<T>(s: seq<T>, t: seq<T>, p: nat) {
    |s| == |t| && p < |s| && s[p] != t[p] && forall i :: 0 <= i < |s| && i != p ==> s[i] == t[i]
  }

  lemma {:induction false} UnitsSeparate(base: u64, u: seq<u64>, v: seq<u64>, p: nat)
    requires DifferAt(u, v, p)
    ensures Hash(base, u) != Hash(base, v)
  {
    hide Mix;
    var before, after := u[..p], u[p + 1..];
    assert u == before + ([u[p]] + after) && v == before + ([v[p]] + after);
    HashAppend(base, before, [u[p]] + after);
    HashAppend(base, before, [v[p]] + after);
    var mid := Hash(base, before);
    HashFirst(mid, u[p], after);
    HashFirst(mid, v[p], after);
    HashUndone(Mix(mid, u[p]), after);
    HashUndone(Mix(mid, v[p]), after);
    if Mix(mid, u[p]) == Mix(mid, v[p]) {
      MixSeparates(mid, u[p], v[p]);
    }
  }

  lemma HashFirst(base: u64, unit: u64, units: seq<u64>)
    ensures Hash(base, [unit] + units) == Hash(Mix(base, unit), units)
  {
    hide Mix;
    assert ([unit] + units)[1..] == units;
  }

  /** Strings that differ in exactly one position never share an id: as switch keys they are told apart. */
  lemma OneDifferenceSeparates(s: seq<schar>, t: seq<schar>, p: nat)
    requires DifferAt(s, t, p)
    ensures IdA(s) != IdA(t)
  {
    hide Hash;
    UnitsSeparate(BASIS, UnitsA(s), UnitsA(t), p);
  }

  lemma OneDifferenceSeparatesWide(s: seq<wchar>, t: seq<wchar>, p: nat)
    requires DifferAt(s, t, p)
    ensures IdW(s) != IdW(t)
  {
    hide Hash;
    UnitsSeparate(BASIS, UnitsW(s), UnitsW(t), p);
  }

  // ------------------------------------------------------------ published ids

  lemma {:induction false} XorWithZero(a: nat)
    ensures Xor(a, 0) == a
  {
    if a != 0 {
      XorWithZero(a / 2);
    }
  }

  /** high with n zero bits behind it. */
  function Up(high: nat, n: nat): nat {
    if n == 0 then high else 2 * Up(high, n - 1)
  }

  lemma SameParity(a: nat, low: nat, b: nat)
    requires a % 2 == low % 2
    ensures (a + b) % 2 == (low + b) % 2
  {
  }

  /** A short number meets only the lowest bits of a word. */
  lemma {:induction false} XorLow(high: nat, low: nat, b: nat, n: nat)
    requires low < PowerOfTwo(n) && b < PowerOfTwo(n)
    ensures Xor(Up(high, n) + low, b) == Up(high, n) + Xor(low, b)
  {
    hide Xor;
    if n == 0 {
      XorWithZero(high);
      XorZero();
    } else {
      var a := Up(high, n) + low;
      Halves(a, Up(high, n - 1) + low / 2, low % 2);
      SameParity(a, low, b);
      XorStep(a, b);
      XorStep(low, b);
      XorLow(high, low / 2, b / 2, n - 1);
    }
  }

  lemma XorByte(high: nat, low: nat, b: nat)
    requires low < 0x100 && b < 0x100
    ensures Xor(0x100 * high + low, b) == 0x100 * high + Xor(low, b)
  {
    hide Xor;
    assert PowerOfTwo(8) == 0x100 by { EightMore(0); }
    assert Up(high, 8) == 0x100 * high by {
      assert Up(high, 1) == 2 * high;
      assert Up(high, 3) == 4 * Up(high, 1);
      assert Up(high, 5) == 4 * Up(high, 3);
      assert Up(high, 7) == 4 * Up(high, 5);
    }
    XorLow(high, low, b, 8);
  }

  /** The published FNV-1a values of the empty string, "a" and "ab". */
  lemma PublishedIds()
    ensures IdA([]) == 0xCBF29CE484222325 && IdA([0x61]) == 0xAF63DC4C8601EC8C
    ensures IdA([0x61, 0x62]) == 0x089C4407B545986A
  {
    hide Hash, Mix;
    NothingHashed();
    HashFirst(BASIS, 0x61, []);
    HashFirst(BASIS, 0x61, [0x62]);
    HashFirst(0xAF63DC4C8601EC8C, 0x62, []);
    KnownSteps();
    assert UnitsA([0x61]) == [0x61] + [] && UnitsA([0x61, 0x62]) == [0x61] + [0x62] && [0x62] == [0x62] + [];
    HashOfNothing(0xAF63DC4C8601EC8C);
    HashOfNothing(0x089C4407B545986A);
  }

  lemma HashOfNothing(base: u64)
    ensures Hash(base, []) == base
  {
  }

  lemma KnownByte()
    ensures Xor(0x25, 0x61) == 0x44
  {
    hide Xor;
    XorZero();
    XorStep(0x25, 0x61);
    XorStep(0x12, 0x30);
    XorStep(0x09, 0x18);
    XorStep(0x04, 0x0c);
    XorStep(0x02, 0x06);
    XorStep(0x01, 0x03);
    XorStep(0x00, 0x01);
  }

  lemma OtherKnownByte()
    ensures Xor(0x8C, 0x62) == 0xEE
  {
    hide Xor;
    XorZero();
    XorStep(0x8c, 0x62);
    XorStep(0x46, 0x31);
    XorStep(0x23, 0x18);
    XorStep(0x11, 0x0c);
    XorStep(0x08, 0x06);
    XorStep(0x04, 0x03);
    XorStep(0x02, 0x01);
    XorStep(0x01, 0x00);
  }

  lemma KnownSteps()
    ensures Mix(BASIS, 0x61) == 0xAF63DC4C8601EC8C && Mix(0xAF63DC4C8601EC8C, 0x62) == 0x089C4407B545986A
  {
    hide Xor;
    KnownByte();
    OtherKnownByte();
    XorByte(0xCBF29CE4842223, 0x25, 0x61);
    XorByte(0xAF63DC4C8601EC, 0x8C, 0x62);
  }

  // --------------------------------------------------------- narrow and wide

  /** The wide character of the same code, from 0 to 255. */
  function Widen(c: schar): wchar {
    if c < 0 then c + 0x100 else c
  }

  function Widened(s: seq<schar>): (w: seq<wchar>)
    ensures |w| == |s| && forall i :: 0 <= i < |s| ==> w[i] == Widen(s[i])
  {
    seq(|s|, i requires 0 <= i < |s| => Widen(s[i]))
  }

  predicate IsAscii(c: schar) {
    c >= 0
  }

  /** An ASCII string and its wide form have the same id; */
  lemma AsciiIdsAgree(s: seq<schar>)
    requires forall i :: 0 <= i < |s| ==> IsAscii(s[i])
    ensures IdW(Widened(s)) == IdA(s)
  {
    hide Hash;
    forall i | 0 <= i < |s| ensures Widened(s)[i] == s[i] {
      assert IsAscii(s[i]);
    }
    assert UnitsA(s) == UnitsW(Widened(s));
  }

  /** with one character outside ASCII they never do. */
  lemma OneOtherCharacter(s: seq<schar>, p: nat)
    requires p < |s| && !IsAscii(s[p]) && forall i :: 0 <= i < |s| && i != p ==> IsAscii(s[i])
    ensures IdW(Widened(s)) != IdA(s)
  {
    hide Hash;
    forall i | 0 <= i < |s| ensures Extend(s[i]) == Extend(Widened(s)[i]) <==> i != p {
      assert i != p ==> IsAscii(s[i]);
    }
    UnitsSeparate(BASIS, UnitsA(s), UnitsW(Widened(s)), p);
  }

  // ------------------------------------------------------------- the methods

  lemma HashLast(base: u64, units: seq<u64>, i: nat)
    requires i < |units|
    ensures Hash(base, units[..i + 1]) == Mix(Hash(base, units[..i]), units[i])
  {
    hide Mix;
    assert units[..i + 1] == units[..i] + [units[i]];
    HashAppend(base, units[..i], [units[i]]);
    HashFirst(Hash(base, units[..i]), units[i], []);
    assert [units[i]] + [] == [units[i]];
  }

  method ToStringId64A(str: seq<schar>) returns (base: u64)
    ensures base == IdA(str)
  {
    hide Hash, Mix;
    base := BASIS;
    ghost var units := UnitsA(str);
    var i := 0;
    NothingHashed();
    while i < |str|
      invariant 0 <= i <= |str| && base == Hash(BASIS, units[..i])
    {
      HashLast(BASIS, units, i);
      base := Mix(base, Extend(str[i]));
      i := i + 1;
    }
    assert units[..i] == units;
  }

  method ToStringId64W(str: seq<wchar>) returns (base: u64)
    ensures base == IdW(str)
  {
    hide Hash, Mix;
    base := BASIS;
    ghost var units := UnitsW(str);
    var i := 0;
    NothingHashed();
    while i < |str|
      invariant 0 <= i <= |str| && base == Hash(BASIS, units[..i])
    {
      HashLast(BASIS, units, i);
      base := Mix(base, Extend(str[i]));
      i := i + 1;
    }
    assert units[..i] == units;
  }

  lemma NothingHashed()
    ensures Hash(BASIS, []) == BASIS
  {
  }
}
