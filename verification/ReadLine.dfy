/** ftp_readline of plugin_server/source/ftp/ftp.c: lines from a byte stream into a buffer that grows. */
module ReadLine {

  /** What one read of one byte gives; anything but a byte and an interruption ends the connection. */
  datatype Read = Byte(c: char) | Interrupted | Closed

  const CHUNK: nat := 1024

  /** What realloc leaves in the bytes it adds, by index. */
  type Garbage = nat -> char

  /** The buffer and the position; the position is always inside. */
  datatype Raw = Raw(buffer: seq<char>, position: nat)
  type State = s: Raw | s.position < |s.buffer| witness Raw(['\0'], 0)

  /** calloc */
  function Fresh(): State {
    Raw(seq(CHUNK, _ => '\0'), 0)
  }

  function Grown(buffer: seq<char>, g: Garbage): (r: seq<char>)
    ensures |r| == |buffer| + CHUNK && r[..|buffer|] == buffer && forall i :: |buffer| <= i < |r| ==> r[i] == g(i)
  {
    buffer + seq(CHUNK, i requires 0 <= i < CHUNK => g(|buffer| + i))
  }

  /** A byte other than a line feed: a carriage return ends the string and starts over. */
  function Feed(s: State, c: char, g: Garbage): State {
    if c == '\r' then Raw(s.buffer[s.position := '\0'], 0)
    else
      var buffer := s.buffer[s.position := c];
      if s.position + 1 >= |buffer| then Raw(Grown(buffer, g), s.position + 1) else Raw(buffer, s.position + 1)
  }

  datatype Outcome = Line(buffer: seq<char>, rest: seq<Read>) | Lost(rest: seq<Read>)

  /** The loop; a script that ends is a closed connection. */
  function ReadFrom(s: State, input: seq<Read>, g: Garbage): Outcome
    decreases |input|
  {
    if input == [] then Lost([])
    else match input[0]
      case Interrupted => ReadFrom(s, input[1..], g)
      case Closed => Lost(input[1..])
      case Byte(c) => if c == '\n' then Line(s.buffer, input[1..]) else ReadFrom(Feed(s, c, g), input[1..], g)
  }

  /** What strlen and strchr see of a buffer; all of it if there is no NUL. */
  function CString(buffer: seq<char>): string {
    if buffer == [] || buffer[0] == '\0' then "" else [buffer[0]] + CString(buffer[1..])
  }

  // -------------------------------------------------------------- the method

  class Connection {
    var input: seq<Read>

    constructor (input: seq<Read>)
      ensures this.input == input
    {
      this.input := input;
    }

    method Next() returns (r: Read)
      modifies this
      ensures old(input) == [] ==> r == Closed && input == []
      ensures old(input) != [] ==> r == old(input)[0] && input == old(input)[1..]
    {
      if input == [] {
        return Closed;
      }
      r := input[0];
      input := input[1..];
    }
  }

  /** Every write is inside the buffer, through all reallocations. */
  method FtpReadline(fd: Connection, g: Garbage) returns (line: array?<char>)
    modifies fd
    ensures var r := ReadFrom(Fresh(), old(fd.input), g);
            && fd.input == r.rest && (line == null <==> r.Lost?)
            && (line != null ==> fresh(line) && line[..] == r.buffer)
  {
    hide ReadFrom;
    var bufsize, position := CHUNK, 0;
    var buffer := new char[bufsize](_ => '\0');
    assert buffer[..] == Fresh().buffer;
    while true
      invariant fresh(buffer) && 0 <= position < bufsize == buffer.Length
      invariant ReadFrom(Fresh(), old(fd.input), g) == ReadFrom(Raw(buffer[..], position), fd.input, g)
      decreases |fd.input|
    {
      ghost var s: State := Raw(buffer[..], position);
      ReadStep(s, fd.input, g);
      ghost var before := |fd.input|;
      var len := fd.Next();
      if len == Interrupted {
        continue;
      }
      if len == Closed {
        return null;
      }
      var c := len.c;
      if c == '\r' {
        buffer[position] := '\0';
        position := 0;
        assert buffer[..] == Feed(s, c, g).buffer;
        continue;
      }
      if c == '\n' {
        return buffer;
      }
      buffer[position] := c;
      position := position + 1;
      if position >= bufsize {
        var old_size, old_buffer := bufsize, buffer;
        bufsize := bufsize + 1024;
        ghost var content := old_buffer[..];
        buffer := new char[bufsize](i requires 0 <= i < old_size + 1024 reads old_buffer =>
          if i < old_size && i < old_buffer.Length then old_buffer[i] else g(i));
        assert buffer[..] == Grown(content, g);
      }
      assert Raw(buffer[..], position) == Feed(s, c, g);
    }
  }

  lemma ReadStep(s: State, input: seq<Read>, g: Garbage)
    ensures ReadFrom(s, [], g) == Lost([])
    ensures input != [] ==>
              ReadFrom(s, input, g) == match input[0]
                case Interrupted => ReadFrom(s, input[1..], g)
                case Closed => Lost(input[1..])
                case Byte(_) =>
                  if input[0].c == '\n' then Line(s.buffer, input[1..])
                    else ReadFrom(Feed(s, input[0].c, g), input[1..], g)
  {
    hide Feed;
  }

  // ------------------------------------------------- how much one call takes

  /** The first read that ends a call: a line feed or a lost connection. */
  predicate EndsAt(input: seq<Read>, k: nat) {
    && k < |input| && (input[k] == Byte('\n') || input[k] == Closed)
    && forall j :: 0 <= j < k ==> input[j] != Byte('\n') && input[j] != Closed
  }

  /** A call takes everything up to the first line feed, or to the end of the connection, when it returns nothing. */
  lemma {:induction false} TakesUpTo(s: State, input: seq<Read>, g: Garbage, k: nat)
    ensures EndsAt(input, k) ==>
              var r := ReadFrom(s, input, g); r.rest == input[k + 1..] && (r.Line? <==> input[k] == Byte('\n'))
    ensures (forall j :: 0 <= j < |input| ==> input[j] != Byte('\n') && input[j] != Closed) ==>
              ReadFrom(s, input, g) == Lost([])
    decreases |input|
  {
    hide ReadFrom, Feed;
    ReadStep(s, input, g);
    if input != [] && input[0] != Byte('\n') && input[0] != Closed {
      var s' := if input[0] == Interrupted then s else Feed(s, input[0].c, g);
      if k > 0 {
        TakesUpTo(s', input[1..], g, k - 1);
        assert EndsAt(input, k) ==> EndsAt(input[1..], k - 1) && input[1..][k..] == input[k + 1..];
      } else {
        TakesUpTo(s', input[1..], g, 0);
      }
    }
  }

  // ----------------------------------------------------------------- framing

  /** The reads give a text, interrupted anywhere, and then the rest. */
  ghost predicate Sends(input: seq<Read>, text: string, rest: seq<Read>)
    decreases |input|
  {
    if text == "" then input == rest
    else input != [] && match input[0]
      case Interrupted => Sends(input[1..], text, rest)
      case Closed => false
      case Byte(c) => c == text[0] && Sends(input[1..], text[1..], rest)
  }

  /** The state behind a text without line feed. */
  function Fed(text: string, g: Garbage): State {
    if text == "" then Fresh() else Feed(Fed(text[..|text| - 1], g), text[|text| - 1], g)
  }

  /** The text behind the last carriage return. */
  function Tail(text: string): (r: string)
    ensures '\r' !in text ==> r == text
  {
    if text == "" || text[|text| - 1] == '\r' then "" else Tail(text[..|text| - 1]) + [text[|text| - 1]]
  }

  lemma {:induction false} FedHoldsTail(text: string, g: Garbage)
    ensures var s := Fed(text, g); s.position == |Tail(text)| && s.buffer[..s.position] == Tail(text)
  {
    if text != "" {
      FedHoldsTail(text[..|text| - 1], g);
    }
  }

  /** Reading a text without line feed feeds it. */
  lemma {:induction false} ReadThrough(fed: string, more: string, input: seq<Read>, rest: seq<Read>, g: Garbage)
    requires Sends(input, more, rest) && '\n' !in more
    ensures ReadFrom(Fed(fed, g), input, g) == ReadFrom(Fed(fed + more, g), rest, g)
    decreases |input|
  {
    hide Feed, ReadFrom, Fed;
    if more == "" {
      assert fed + more == fed;
    } else {
      ReadStep(Fed(fed, g), input, g);
      if input[0] == Interrupted {
        ReadThrough(fed, more, input[1..], rest, g);
      } else {
        FedStep(fed, more[0], g);
        ReadThrough(fed + [more[0]], more[1..], input[1..], rest, g);
        assert fed + [more[0]] + more[1..] == fed + more;
      }
    }
  }

  lemma FedStep(text: string, c: char, g: Garbage)
    ensures Fed("", g) == Fresh() && Fed(text + [c], g) == Feed(Fed(text, g), c, g)
  {
    hide Feed;
    assert (text + [c])[..|text|] == text;
  }

  lemma {:induction false} SendsSplit(input: seq<Read>, a: string, b: string, rest: seq<Read>) returns (mid: seq<Read>)
    requires Sends(input, a + b, rest)
    ensures Sends(input, a, mid) && Sends(mid, b, rest)
    decreases |input|
  {
    if a == "" {
      assert a + b == b;
      mid := input;
    } else if input[0] == Interrupted {
      mid := SendsSplit(input[1..], a, b, rest);
    } else {
      assert (a + b)[1..] == a[1..] + b;
      mid := SendsSplit(input[1..], a[1..], b, rest);
    }
  }

  lemma {:induction false} CStringEnds(buffer: seq<char>, n: nat)
    requires n < |buffer| && buffer[n] == '\0' && forall i :: 0 <= i < n ==> buffer[i] != '\0'
    ensures CString(buffer) == buffer[..n]
  {
    if n > 0 {
      CStringEnds(buffer[1..], n - 1);
      assert buffer[..n] == [buffer[0]] + buffer[1..][..n - 1];
    }
  }

  /**
   A text without line feed and NUL, of any length, that is ended by CRLF: one call takes exactly that and returns what
   is behind the last carriage return of the text, which is all of it when there is none.
   */
  lemma ReadsCrlfLine(text: string, input: seq<Read>, rest: seq<Read>, g: Garbage)
    requires '\n' !in text && '\0' !in text && Sends(input, text + "\r\n", rest)
    ensures var r := ReadFrom(Fresh(), input, g); r.Line? && r.rest == rest && CString(r.buffer) == Tail(text)
  {
    hide ReadFrom, Fed, Tail, CString;
    assert text + "\r\n" == (text + "\r") + "\n";
    var mid := SendsSplit(input, text + "\r", "\n", rest);
    FedStep(text, '\r', g);
    ReadThrough("", text + "\r", input, mid, g);
    assert "" + (text + "\r") == text + "\r";
    var s := Fed(text + "\r", g);
    LineFeedEnds(s, mid, rest, g);
    FedHoldsTail(text, g);
    TailIsPart(text);
    var n := |Tail(text)|;
    assert s.buffer[..n] == Fed(text, g).buffer[..n];
    assert forall i :: 0 <= i < n ==> s.buffer[i] == s.buffer[..n][i];
    CStringEnds(s.buffer, n);
  }

  lemma {:induction false} LineFeedEnds(s: State, input: seq<Read>, rest: seq<Read>, g: Garbage)
    requires Sends(input, "\n", rest)
    ensures ReadFrom(s, input, g) == Line(s.buffer, rest)
    decreases |input|
  {
    hide ReadFrom;
    ReadStep(s, input, g);
    if input[0] == Interrupted {
      LineFeedEnds(s, input[1..], rest, g);
    } else {
      assert "\n"[1..] == "";
    }
  }

  lemma {:induction false} TailIsPart(text: string)
    ensures forall i :: 0 <= i < |Tail(text)| ==> Tail(text)[i] in text
  {
    if text != "" && text[|text| - 1] != '\r' {
      TailIsPart(text[..|text| - 1]);
      assert text == text[..|text| - 1] + [text[|text| - 1]];
    }
  }

  function Crlf(lines: seq<string>): string {
    if lines == [] then "" else lines[0] + "\r\n" + Crlf(lines[1..])
  }

  /** Successive calls, one for each element of `gs`; the reading stops at a lost connection. */
  function ReadLines(input: seq<Read>, gs: seq<Garbage>): (seq<string>, seq<Read>)
    decreases |gs|
  {
    if gs == [] then ([], input)
    else match ReadFrom(Fresh(), input, gs[0])
      case Lost(rest) => ([], rest)
      case Line(buffer, rest) => var (ls, end) := ReadLines(rest, gs[1..]); ([CString(buffer)] + ls, end)
  }

  /**
   Lines free of CR, LF and NUL, sent with CRLF and interrupted anywhere, come back one by one, whatever their length.
   */
  lemma {:induction false} LinesRoundTrip(lines: seq<string>, input: seq<Read>, rest: seq<Read>, gs: seq<Garbage>)
    requires |gs| == |lines| && Sends(input, Crlf(lines), rest)
    requires forall l :: l in lines ==> '\r' !in l && '\n' !in l && '\0' !in l
    ensures ReadLines(input, gs) == (lines, rest)
    decreases |lines|
  {
    hide ReadFrom, CString, Sends;
    if lines == [] {
      NothingSent(input, rest);
    } else {
      var mid := SendsSplit(input, lines[0] + "\r\n", Crlf(lines[1..]), rest);
      assert lines[0] in lines;
      ReadsCrlfLine(lines[0], input, mid, gs[0]);
      LinesRoundTrip(lines[1..], mid, rest, gs[1..]);
      assert lines == [lines[0]] + lines[1..];
    }
  }

  lemma NothingSent(input: seq<Read>, rest: seq<Read>)
    requires Sends(input, "", rest)
    ensures input == rest
  {
  }

  // ------------------------------------------------------- a bare line feed

  /** The text before the last carriage return. */
  function Earlier(text: string): (r: string)
    requires '\r' in text
    ensures |r| < |text|
  {
    if text[|text| - 1] == '\r' then text[..|text| - 1] else Earlier(text[..|text| - 1])
  }

  /** The parts of a text that a carriage return ends, in order. */
  function Parts(text: string): seq<string>
    decreases |text|
  {
    if '\r' !in text then [] else Parts(Earlier(text)) + [Tail(Earlier(text))]
  }

  /** What the parts leave at index i: the last one that reaches there decides, else calloc or realloc. */
  function Left(parts: seq<string>, i: nat, g: Garbage): char {
    if parts == [] then if i < CHUNK then '\0' else g(i)
    else
      var last := parts[|parts| - 1];
      if |last| > i then last[i] else if |last| == i then '\0' else Left(parts[..|parts| - 1], i, g)
  }

  lemma PartsStep(text: string, c: char)
    ensures Parts("") == [] && Tail("") == ""
    ensures Parts(text + [c]) == if c == '\r' then Parts(text) + [Tail(text)] else Parts(text)
    ensures Tail(text + [c]) == if c == '\r' then "" else Tail(text) + [c]
  {
    var more := text + [c];
    assert more[..|text|] == text && more[|text|] == c;
    assert c == '\r' ==> '\r' in more;
    if c != '\r' {
      assert '\r' in more <==> '\r' in text;
    }
  }

  lemma LeftStep(parts: seq<string>, last: string, i: nat, g: Garbage)
    ensures Left(parts + [last], i, g) == if |last| > i then last[i] else if |last| == i then '\0'
            else Left(parts, i, g)
  {
    assert (parts + [last])[..|parts|] == parts;
  }

  /** The bytes from the position on, and those realloc has not added yet. */
  lemma {:induction false} FedLeaves(text: string, g: Garbage)
    ensures var s := Fed(text, g);
            && (forall i :: |Tail(text)| <= i < |s.buffer| ==> s.buffer[i] == Left(Parts(text), i, g))
            && (forall i: nat :: i >= |s.buffer| ==> Left(Parts(text), i, g) == g(i))
            && CHUNK <= |s.buffer|
  {
    hide Fed, Parts, Tail, Left;
    if text == "" {
      FedStep("", '\r', g);
      PartsStep("", '\r');
      forall i: nat ensures Left([], i, g) == if i < CHUNK then '\0' else g(i) {
        NothingLeft(i, g);
      }
    } else {
      var shorter, c := text[..|text| - 1], text[|text| - 1];
      assert text == shorter + [c];
      FedLeaves(shorter, g);
      FedHoldsTail(shorter, g);
      FedStep(shorter, c, g);
      PartsStep(shorter, c);
      if c == '\r' {
        var s := Fed(shorter, g);
        assert forall i :: 0 <= i < s.position ==> s.buffer[i] == s.buffer[..s.position][i];
        forall i: nat ensures
          Left(Parts(text), i, g) == if |Tail(shorter)| > i then Tail(shorter)[i] else if |Tail(shorter)| == i then '\0'
                                     else Left(Parts(shorter), i, g)
        {
          LeftStep(Parts(shorter), Tail(shorter), i, g);
        }
      }
    }
  }

  lemma NothingLeft(i: nat, g: Garbage)
    ensures Left([], i, g) == if i < CHUNK then '\0' else g(i)
  {
  }

  /**
   Nothing stale follows a text of n bytes: the last part that is not shorter is as long, or every part is shorter and
   the byte is 0.
   */
  predicate EndsClean(parts: seq<string>, n: nat, g: Garbage) {
    if parts == [] then n < CHUNK || g(n) == '\0'
    else
      var last := parts[|parts| - 1];
      |last| == n || (|last| < n && EndsClean(parts[..|parts| - 1], n, g))
  }

  lemma {:induction false} CleanIsNul(parts: seq<string>, n: nat, g: Garbage)
    requires forall x :: x in parts ==> '\0' !in x
    ensures Left(parts, n, g) == '\0' <==> EndsClean(parts, n, g)
  {
    if parts != [] {
      var last := parts[|parts| - 1];
      assert last in parts;
      if |last| > n {
        assert last[n] in last;
      } else {
        CleanIsNul(parts[..|parts| - 1], n, g);
      }
    }
  }

  lemma {:induction false} PartsArePlain(text: string)
    requires '\0' !in text
    ensures forall x :: x in Parts(text) ==> '\0' !in x
    decreases |text|
  {
    if '\r' in text {
      EarlierIsPart(text);
      TailIsPart(Earlier(text));
      PartsArePlain(Earlier(text));
    }
  }

  lemma {:induction false} EarlierIsPart(text: string)
    requires '\r' in text
    ensures Earlier(text) <= text
  {
    if text[|text| - 1] != '\r' {
      EarlierIsPart(text[..|text| - 1]);
    }
  }

  /**
   A text ended by a bare line feed is not terminated by the code. What comes back starts with the text behind the last
   carriage return, and is that text exactly when nothing stale follows it in the buffer.
   */
  lemma ReadsBareLine(text: string, input: seq<Read>, rest: seq<Read>, g: Garbage)
    requires '\n' !in text && '\0' !in text && Sends(input, text + "\n", rest)
    ensures var r := ReadFrom(Fresh(), input, g);
            && r.Line? && r.rest == rest && Tail(text) <= CString(r.buffer)
            && (CString(r.buffer) == Tail(text) <==> EndsClean(Parts(text), |Tail(text)|, g))
    ensures '\r' !in text ==> (EndsClean(Parts(text), |Tail(text)|, g) <==> |text| < CHUNK || g(|text|) == '\0')
  {
    hide ReadFrom, Fed, CString, Sends, Tail, Left;
    var mid := SendsSplit(input, text, "\n", rest);
    ReadThrough("", text, input, mid, g);
    assert "" + text == text;
    FedStep("", '\r', g);
    var s := Fed(text, g);
    LineFeedEnds(s, mid, rest, g);
    FedHoldsTail(text, g);
    FedLeaves(text, g);
    TailIsPart(text);
    PartsArePlain(text);
    var n := |Tail(text)|;
    CleanIsNul(Parts(text), n, g);
    assert forall i :: 0 <= i < n ==> s.buffer[i] == s.buffer[..n][i];
    if s.buffer[n] == '\0' {
      CStringEnds(s.buffer, n);
    } else {
      CStringGoesOn(s.buffer, n);
    }
  }

  lemma {:induction false} CStringGoesOn(buffer: seq<char>, n: nat)
    requires n < |buffer| && forall i :: 0 <= i <= n ==> buffer[i] != '\0'
    ensures buffer[..n] <= CString(buffer) && |CString(buffer)| > n
  {
    if n > 0 {
      CStringGoesOn(buffer[1..], n - 1);
      assert buffer[..n] == [buffer[0]] + buffer[1..][..n - 1];
    }
  }

  /** "ab", CR, "c" and a bare line feed: the "b" of the first part comes back behind the "c". */
  lemma StaleByteComesBack(input: seq<Read>, rest: seq<Read>, g: Garbage)
    requires Sends(input, "ab\rc\n", rest)
    ensures var r := ReadFrom(Fresh(), input, g); r.Line? && r.rest == rest && CString(r.buffer) == "cb"
  {
    hide ReadFrom, Fed, CString, Sends, Tail, Parts, Left;
    var text := "ab\rc";
    assert text + "\n" == "ab\rc\n";
    var mid := SendsSplit(input, text, "\n", rest);
    ReadThrough("", text, input, mid, g);
    assert "" + text == text;
    FedStep("", '\r', g);
    var s := Fed(text, g);
    LineFeedEnds(s, mid, rest, g);
    FedHoldsTail(text, g);
    FedLeaves(text, g);
    StaleParts();
    LeftStep([], "ab", 1, g);
    LeftStep([], "ab", 2, g);
    assert [] + ["ab"] == ["ab"];
    assert s.buffer[0] == s.buffer[..1][0];
    CStringEnds(s.buffer, 2);
    assert s.buffer[..2] == "cb";
  }

  lemma StaleParts()
    ensures Parts("ab\rc") == ["ab"] && Tail("ab\rc") == "c"
  {
    hide Parts, Tail;
    PartsStep("", 'a');
    PartsStep("a", 'b');
    PartsStep("ab", '\r');
    PartsStep("ab\r", 'c');
    assert "" + ['a'] == "a" && "a" + ['b'] == "ab" && "ab" + ['\r'] == "ab\r" && "ab\r" + ['c'] == "ab\rc";
    assert [] + ["ab"] == ["ab"] && "" + ['c'] == "c";
  }
}
