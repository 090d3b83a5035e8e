/** pattern_to_byte and PatternScan of common/memory.c: IDA-style byte patterns. */
module Patterns {
  import opened Bytes
  import opened Ctype
  import opened Memory

  // --------------------------------------------------------------- strtoull

  predicate IsHex(c: char) {
    '0' <= c <= '9' || 'a' <= c <= 'f' || 'A' <= c <= 'F'
  }

  function HexValue(c: char): (v: nat)
    requires IsHex(c)
    ensures v < 16
  {
    if '0' <= c <= '9' then (c - '0') as nat
    else if 'a' <= c <= 'f' then (c - 'a') as nat + 10
    else (c - 'A') as nat + 10
  }

  /** The character at i, the terminating NUL from the end of the string on. */
  function At(s: string, i: nat): char {
    if i < |s| then s[i] else '\0'
  }

  function SkipSpace(s: string, i: nat): (j: nat)
    requires i <= |s|
    ensures i <= j <= |s|
    decreases |s| - i
  {
    if i < |s| && IsSpace(s[i]) then SkipSpace(s, i + 1) else i
  }

  /** The value of the run of hex digits from i, on top of acc, and where the run ends. */
  function Digits(s: string, i: nat, acc: nat): (r: (nat, nat))
    requires i <= |s|
    ensures i <= r.1 <= |s|
    decreases |s| - i
  {
    if i < |s| && IsHex(s[i]) then Digits(s, i + 1, 16 * acc + HexValue(s[i])) else (acc, i)
  }

  /** strtoull(s + i, &end, 16): the value and `end`. Without digits nothing is consumed; overflow saturates. */
  function Strtoull16(s: string, i: nat): (r: (Addr, nat))
    requires i <= |s|
    ensures i <= r.1 <= |s|
  {
    var j := SkipSpace(s, i);
    var negative := At(s, j) == '-';
    var k := if At(s, j) == '-' || At(s, j) == '+' then j + 1 else j;
    var prefixed := At(s, k) == '0' && (At(s, k + 1) == 'x' || At(s, k + 1) == 'X') && IsHex(At(s, k + 2));
    var d := if prefixed then k + 2 else k;
    if !IsHex(At(s, d)) then (0, i)
    else
      var (v, end) := Digits(s, d, 0);
      if v >= W then (W - 1, end) else if negative then ((0 - v) % W, end) else (v, end)
  }

  // --------------------------------------------------------- pattern_to_byte

  /** The bytes of a pattern from position i on; 0xff stands for a wildcard. */
  function PatternBytes(s: string, i: nat): seq<byte>
    decreases |s| - i
  {
    if i >= |s| then []
    else if s[i] == '?' then [0xff] + PatternBytes(s, if At(s, i + 1) == '?' then i + 3 else i + 2)
    else
      var (v, end) := Strtoull16(s, i);
      [v % 256] + PatternBytes(s, end + 1)
  }

  lemma PatternStep(s: string, i: nat)
    requires i < |s|
    ensures s[i] == '?' ==> PatternBytes(s, i) == [0xff] + PatternBytes(s, if At(s, i + 1) == '?' then i + 3 else i + 2)
    ensures s[i] != '?' ==> PatternBytes(s, i) == [Strtoull16(s, i).0 % 256] + PatternBytes(s, Strtoull16(s, i).1 + 1)
  {
    hide Strtoull16;
  }

  lemma NoMoreTokens(s: string, i: nat)
    requires i >= |s|
    ensures PatternBytes(s, i) == []
  {
  }

  /** The loop of pattern_to_byte: `current` moves past a token and then past one separator. */
  method PatternToByte(pattern: string) returns (bytes: seq<byte>)
    ensures bytes == PatternBytes(pattern, 0)
  {
    hide PatternBytes, Strtoull16;
    bytes := [];
    var current := 0;
    while current < |pattern|
      invariant bytes + PatternBytes(pattern, current) == PatternBytes(pattern, 0)
      decreases |pattern| - current
    {
      PatternStep(pattern, current);
      if pattern[current] == '?' {
        current := current + 1;
        if At(pattern, current) == '?' {
          current := current + 1;
        }
        bytes := bytes + [0xff];
      } else {
        var (v, end) := Strtoull16(pattern, current);
        bytes := bytes + [v % 256];
        current := end;
      }
      current := current + 1;
    }
    NoMoreTokens(pattern, current);
  }

  // ------------------------------------------------------------- round trip

  /** A token of a well-formed pattern. */
  datatype Token = Hex(hi: char, lo: char) | Digit(d: char) | One | Two

  predicate ValidToken(t: Token) {
    (t.Hex? ==> IsHex(t.hi) && IsHex(t.lo)) && (t.Digit? ==> IsHex(t.d))
  }

  function TokenText(t: Token): string {
    match t
    case Hex(hi, lo) => [hi, lo]
    case Digit(d) => [d]
    case One => "?"
    case Two => "??"
  }

  function TokenByte(t: Token): byte
    requires ValidToken(t)
  {
    match t
    case Hex(hi, lo) => 16 * HexValue(hi) + HexValue(lo)
    case Digit(d) => HexValue(d)
    case One => 0xff
    case Two => 0xff
  }

  /** The tokens with one space between them. */
  function PatternText(ts: seq<Token>): string {
    if ts == [] then ""
    else if |ts| == 1 then TokenText(ts[0])
    else TokenText(ts[0]) + " " + PatternText(ts[1..])
  }

  function TokenBytes(ts: seq<Token>): seq<byte>
    requires forall t :: t in ts ==> ValidToken(t)
  {
    seq(|ts|, i requires 0 <= i < |ts| => TokenByte(ts[i]))
  }

  /** Two hex digits that end at a space or at the end of the string parse to their value. */
  lemma HexPair(s: string, i: nat)
    requires i + 2 <= |s| && IsHex(s[i]) && IsHex(s[i + 1]) && (i + 2 == |s| || s[i + 2] == ' ')
    ensures Strtoull16(s, i) == (16 * HexValue(s[i]) + HexValue(s[i + 1]), i + 2)
  {
    assert Digits(s, i + 2, 16 * HexValue(s[i]) + HexValue(s[i + 1]))
        == (16 * HexValue(s[i]) + HexValue(s[i + 1]), i + 2);
    assert Digits(s, i + 1, HexValue(s[i])) == Digits(s, i + 2, 16 * HexValue(s[i]) + HexValue(s[i + 1]));
  }

  lemma HexDigit(s: string, i: nat)
    requires i < |s| && IsHex(s[i]) && (i + 1 == |s| || s[i + 1] == ' ')
    ensures Strtoull16(s, i) == (HexValue(s[i]), i + 1)
  {
    assert Digits(s, i + 1, HexValue(s[i])) == (HexValue(s[i]), i + 1);
  }

  /** The token stands at position i of the string, up to the end or a space. */
  predicate TokenAt(s: string, i: nat, t: Token) {
    match t
    case Hex(hi, lo) => i + 2 <= |s| && s[i] == hi && s[i + 1] == lo && (i + 2 == |s| || s[i + 2] == ' ')
    case Digit(d) => i + 1 <= |s| && s[i] == d && (i + 1 == |s| || s[i + 1] == ' ')
    case One => i + 1 <= |s| && s[i] == '?' && (i + 1 == |s| || s[i + 1] == ' ')
    case Two => i + 2 <= |s| && s[i] == '?' && s[i + 1] == '?' && (i + 2 == |s| || s[i + 2] == ' ')
  }

  lemma ParseToken(s: string, i: nat, t: Token)
    requires ValidToken(t) && TokenAt(s, i, t)
    ensures PatternBytes(s, i) == [TokenByte(t)] + PatternBytes(s, i + |TokenText(t)| + 1)
  {
    hide Strtoull16;
    if t.Hex? {
      HexPair(s, i);
    } else if t.Digit? {
      HexDigit(s, i);
    }
  }

  lemma PrintedToken(s: string, i: nat, ts: seq<Token>)
    requires i <= |s| && s[i..] == PatternText(ts) && ts != []
    ensures TokenAt(s, i, ts[0])
    ensures |ts| == 1 ==> i + |TokenText(ts[0])| == |s|
    ensures |ts| > 1 ==> i + |TokenText(ts[0])| + 1 <= |s| && s[i + |TokenText(ts[0])| + 1..] == PatternText(ts[1..])
  {
    var text, rest := TokenText(ts[0]), PatternText(ts[1..]);
    var tail := s[i..];
    assert s[i] == tail[0] && (i + 1 < |s| ==> s[i + 1] == tail[1]) && (i + 2 < |s| ==> s[i + 2] == tail[2]);
    if |ts| > 1 {
      assert tail == text + " " + rest;
      assert s[i + |text| + 1..] == tail[|text| + 1..] == rest;
    }
  }

  lemma {:induction false} ParsePrinted(s: string, i: nat, ts: seq<Token>)
    requires i <= |s| && s[i..] == PatternText(ts) && forall t :: t in ts ==> ValidToken(t)
    ensures PatternBytes(s, i) == TokenBytes(ts)
    decreases |ts|
  {
    hide PatternBytes, TokenAt, TokenText, TokenByte, ValidToken;
    if ts == [] {
      NoMoreTokens(s, i);
    } else {
      PrintedToken(s, i, ts);
      ParseToken(s, i, ts[0]);
      var next := i + |TokenText(ts[0])| + 1;
      if |ts| == 1 {
        NoMoreTokens(s, next);
        assert TokenBytes(ts) == [TokenByte(ts[0])] + [];
      } else {
        ParsePrinted(s, next, ts[1..]);
        assert TokenBytes(ts) == [TokenByte(ts[0])] + TokenBytes(ts[1..]);
      }
    }
  }

  /** Parsing undoes printing. */
  lemma PatternRoundTrip(ts: seq<Token>)
    requires forall t :: t in ts ==> ValidToken(t)
    ensures PatternBytes(PatternText(ts), 0) == TokenBytes(ts)
  {
    assert PatternText(ts)[0..] == PatternText(ts);
    ParsePrinted(PatternText(ts), 0, ts);
  }

  /** The token k of a pattern made of hex pairs only. */
  predicate HexTokenIs(s: string, k: nat, b: byte) {
    && 3 * k + 2 <= |s| && IsHex(s[3 * k]) && IsHex(s[3 * k + 1])
    && 16 * HexValue(s[3 * k]) + HexValue(s[3 * k + 1]) == b
    && (3 * k + 2 < |s| ==> s[3 * k + 2] == ' ')
  }

  lemma HexStep(s: string, k: nat, b: byte)
    requires HexTokenIs(s, k, b)
    ensures PatternBytes(s, 3 * k) == [b] + PatternBytes(s, 3 * (k + 1))
  {
    hide Strtoull16;
    HexPair(s, 3 * k);
    assert s[3 * k] != '?';
  }

  lemma {:induction false} HexPattern(s: string, k: nat, bytes: seq<byte>)
    requires k <= |bytes| && bytes != [] && |s| == 3 * |bytes| - 1
    requires forall i :: k <= i < |bytes| ==> HexTokenIs(s, i, bytes[i])
    ensures PatternBytes(s, 3 * k) == bytes[k..]
    decreases |bytes| - k
  {
    hide PatternBytes, HexTokenIs;
    if k < |bytes| {
      HexStep(s, k, bytes[k]);
      HexPattern(s, k + 1, bytes);
      assert bytes[k..] == [bytes[k]] + bytes[k + 1..];
    } else {
      NoMoreTokens(s, 3 * k);
    }
  }

  // ------------------------------------------------------------- PatternScan

  const MAX_PATTERN_LENGTH: nat := 512

  /** Does the pattern match at base + i? A pattern byte 0xff matches anything. */
  predicate MatchesAt(m: Mem, base: Addr, i: nat, pattern: seq<byte>) {
    forall j :: 0 <= j < |pattern| ==> pattern[j] == 0xff || m(Plus(base, i + j)) == pattern[j]
  }

  /** The least match at or after i, `size` if there is none. */
  function FirstMatch(m: Mem, base: Addr, i: nat, size: nat, pattern: seq<byte>): (r: nat)
    requires i <= size
    ensures i <= r <= size && (r < size ==> MatchesAt(m, base, r, pattern))
    ensures forall k :: i <= k < r ==> !MatchesAt(m, base, k, pattern)
    decreases size - i
  {
    if i == size || MatchesAt(m, base, i, pattern) then i else FirstMatch(m, base, i + 1, size, pattern)
  }

  /** PatternScan for a parsed pattern. */
  function Scan(m: Mem, base: Addr, size: nat, pattern: seq<byte>, offset: nat): Addr {
    if base == 0 || size == 0 || pattern == [] || |pattern| >= MAX_PATTERN_LENGTH then 0
    else
      var i := FirstMatch(m, base, 0, size, pattern);
      if i < size then Plus(base, i + offset) else 0
  }

  /** Is there a byte at base + i that the pattern does not allow? */
  ghost predicate Differs(m: Mem, base: Addr, i: nat, pattern: seq<byte>) {
    exists j :: 0 <= j < |pattern| && pattern[j] != 0xff && m(Plus(base, i + j)) != pattern[j]
  }

  /** Is i the first place of the module that does not differ from the pattern? */
  ghost predicate FirstPlace(m: Mem, base: Addr, size: nat, pattern: seq<byte>, i: nat) {
    i < size && !Differs(m, base, i, pattern) && forall k :: 0 <= k < i ==> Differs(m, base, k, pattern)
  }

  /** A module, and a pattern of 1 to 511 bytes. */
  predicate Scannable(base: Addr, size: nat, pattern: seq<byte>) {
    base != 0 && size != 0 && 0 < |pattern| < 512
  }

  /** The answer a scan owes: the first place, moved by the offset; 0 for no place, and for what it does not scan. */
  ghost predicate FirstFound(m: Mem, base: Addr, size: nat, pattern: seq<byte>, offset: nat, r: Addr) {
    && (!Scannable(base, size, pattern) ==> r == 0)
    && (Scannable(base, size, pattern) ==>
          && (forall i: nat :: FirstPlace(m, base, size, pattern, i) ==> r == Plus(base, i + offset))
          && ((forall i: nat :: i < size ==> Differs(m, base, i, pattern)) ==> r == 0))
  }

  lemma ScanFindsFirst(m: Mem, base: Addr, size: nat, pattern: seq<byte>, offset: nat)
    ensures FirstFound(m, base, size, pattern, offset, Scan(m, base, size, pattern, offset))
  {
    hide FirstMatch, FirstPlace, Differs;
    if Scannable(base, size, pattern) {
      var r := FirstMatch(m, base, 0, size, pattern);
      forall i: nat ensures FirstPlace(m, base, size, pattern, i) <==> i == r && r < size {
        FirstPlaceIff(m, base, size, pattern, i);
      }
      if r < size {
        DiffersIff(m, base, r, pattern);
      }
    }
  }

  lemma DiffersIff(m: Mem, base: Addr, i: nat, pattern: seq<byte>)
    ensures Differs(m, base, i, pattern) <==> !MatchesAt(m, base, i, pattern)
  {
  }

  lemma FirstPlaceIff(m: Mem, base: Addr, size: nat, pattern: seq<byte>, i: nat)
    ensures var r := FirstMatch(m, base, 0, size, pattern);
            FirstPlace(m, base, size, pattern, i) <==> i == r && r < size
  {
    hide FirstMatch, MatchesAt, Differs;
    forall k: nat ensures Differs(m, base, k, pattern) <==> !MatchesAt(m, base, k, pattern) {
      DiffersIff(m, base, k, pattern);
    }
  }

  lemma ScanRefused(m: Mem, base: Addr, size: nat, pattern: seq<byte>, offset: nat)
    requires !Scannable(base, size, pattern)
    ensures Scan(m, base, size, pattern, offset) == 0
  {
  }

  /** A match with none before it is the one the scan answers; without any it answers 0. */
  lemma ScanIs(m: Mem, base: Addr, i: nat, size: nat, pattern: seq<byte>, offset: nat)
    requires Scannable(base, size, pattern) && i <= size && forall k :: 0 <= k < i ==> !MatchesAt(m, base, k, pattern)
    requires i < size ==> MatchesAt(m, base, i, pattern)
    ensures Scan(m, base, size, pattern, offset) == if i < size then Plus(base, i + offset) else 0
  {
    hide MatchesAt;
    assert FirstMatch(m, base, 0, size, pattern) == i;
  }

  /** The scan loops of PatternScan. */
  method PatternScan(m: Mem, module_base: Addr, module_size: Addr, signature: string, offset: Addr) returns (r: Addr)
    ensures r == Scan(m, module_base, module_size, PatternBytes(signature, 0), offset)
    ensures FirstFound(m, module_base, module_size, PatternBytes(signature, 0), offset, r)
  {
    hide FirstFound, FirstMatch, Scan;
    ScanFindsFirst(m, module_base, module_size, PatternBytes(signature, 0), offset);
    if module_base == 0 || module_size == 0 {
      ScanRefused(m, module_base, module_size, PatternBytes(signature, 0), offset);
      return 0;
    }
    var patternBytes := PatternToByte(signature);
    hide PatternBytes;
    var patternLength := |patternBytes|;
    if patternLength == 0 || patternLength >= MAX_PATTERN_LENGTH {
      ScanRefused(m, module_base, module_size, patternBytes, offset);
      return 0;
    }
    var i := 0;
    while i < module_size
      invariant i <= module_size
      invariant forall k :: 0 <= k < i ==> !MatchesAt(m, module_base, k, patternBytes)
    {
      var found := true;
      var j := 0;
      while j < patternLength
        invariant j <= patternLength
        invariant found ==> forall k :: 0 <= k < j ==>
                    patternBytes[k] == 0xff || m(Plus(module_base, i + k)) == patternBytes[k]
        invariant !found ==> !MatchesAt(m, module_base, i, patternBytes)
      {
        if m(Plus(module_base, i + j)) != patternBytes[j] && patternBytes[j] != 0xff {
          found := false;
          break;
        }
        j := j + 1;
      }
      if found {
        ScanIs(m, module_base, i, module_size, patternBytes, offset);
        return Plus(module_base, i + offset);
      }
      i := i + 1;
    }
    ScanIs(m, module_base, i, module_size, patternBytes, offset);
    r := 0;
  }
}
