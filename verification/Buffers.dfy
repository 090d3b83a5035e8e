/** Character buffers: what fits them, and writing into them. */
module Buffers {

  /** What a buffer of n bytes keeps of a string: strncpy and a terminator, or snprintf. */
  function Cut(s: string, n: nat): (r: string)
    requires n > 0
    ensures |r| < n && r <= s && (|s| < n ==> r == s)
  {
    if |s| < n then s else s[..n - 1]
  }

  /** The buffer with a text written over it. */
  function Over(buffer: seq<char>, at: nat, text: string): (r: seq<char>)
    requires at + |text| <= |buffer|
    ensures |r| == |buffer|
  {
    buffer[..at] + text + buffer[at + |text|..]
  }

  lemma OverNothing(buffer: seq<char>, at: nat)
    requires at <= |buffer|
    ensures Over(buffer, at, "") == buffer
  {
  }

  lemma OverTwice(buffer: seq<char>, at: nat, a: string, b: string)
    requires at + |a| + |b| <= |buffer|
    ensures Over(Over(buffer, at, a), at + |a|, b) == Over(buffer, at, a + b)
  {
  }

  method Put(output: array<char>, at: nat, c: char)
    requires at < output.Length
    modifies output
    ensures output[..] == Over(old(output[..]), at, [c])
  {
    output[at] := c;
  }

  method Memcpy(output: array<char>, at: nat, text: string)
    requires at + |text| <= output.Length
    modifies output
    ensures output[..] == Over(old(output[..]), at, text)
  {
    hide Over;
    ghost var buffer := output[..];
    assert text[..0] == "";
    OverNothing(buffer, at);
    for i := 0 to |text|
      invariant output[..] == Over(buffer, at, text[..i])
    {
      Put(output, at + i, text[i]);
      OverTwice(buffer, at, text[..i], [text[i]]);
      assert text[..i] + [text[i]] == text[..i + 1];
    }
    assert text[..|text|] == text;
  }

  method MemcpyTwo(output: array<char>, at: nat, first: string, second: string)
    requires at + |first| + |second| <= output.Length
    modifies output
    ensures output[..] == Over(old(output[..]), at, first + second)
  {
    hide Over;
    Memcpy(output, at, first);
    Memcpy(output, at + |first|, second);
    OverTwice(old(output[..]), at, first, second);
  }

  lemma OverAgain(buffer: seq<char>, at: nat, a: string, b: string)
    requires |a| <= |b| && at + |b| <= |buffer|
    ensures Over(Over(buffer, at, a), at, b) == Over(buffer, at, b)
  {
  }
}
