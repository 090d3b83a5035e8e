/** str_replace of plugin_mono/source/shellui_patch/settings_menu.c: search and replace into a buffer of fixed size. */
module Rewrite {
  import opened Buffers

  datatype ReplaceMode = REPLACE_MATCH | ADD_BEFORE | ADD_AFTER | REPLACE_LINE | OTHER

  datatype Job = Job(search: string, replacement: string, mode: ReplaceMode)

  /** The first line feed, |s| if there is none. */
  function LineEnd(s: string): (e: nat)
    ensures e <= |s| && (e < |s| ==> s[e] == '\n') && forall j :: 0 <= j < e ==> s[j] != '\n'
  {
    if s == "" || s[0] == '\n' then 0 else 1 + LineEnd(s[1..])
  }

  /** One turn of the loop: what is written, how much input it takes, and the size asked for against the room left. */
  datatype Piece = Piece(text: string, taken: nat, asked: nat)

  function Next(job: Job, s: string): (p: Piece)
    requires s != "" && job.search != ""
    ensures 0 < p.taken <= |s| && (p.asked == 0 ==> |p.text| <= 1) && (p.asked > 0 ==> |p.text| <= p.asked)
  {
    var n := |job.search|;
    if !(job.search <= s) then Piece([s[0]], 1, 0)
    else match job.mode
      case REPLACE_MATCH => Piece(job.replacement, n, |job.replacement|)
      case ADD_BEFORE => Piece(job.replacement + job.search, n, |job.replacement| + n)
      case ADD_AFTER => Piece(job.search + job.replacement, n, |job.replacement| + n)
      case REPLACE_LINE =>
        // The start of the line is looked up and not used: what precedes the match stays.
        var e := LineEnd(s);
        if e < |s| then Piece(job.replacement + "\n", e + 1, |job.replacement| + 1)
        else LastLinePiece(job, s)
      case OTHER => Piece([s[0]], 1, 0)
  }

  /** The match is in the last line and no line feed follows: one character too many is asked for. */
  function LastLinePiece(job: Job, s: string): Piece {
    Piece(job.replacement, |s|, |job.replacement| + 1)
  }

  /** The rewrite with no limit on the output. */
  function Whole(job: Job, s: string): string
    requires job.search != ""
  {
    if s == "" then "" else var p := Next(job, s); p.text + Whole(job, s[p.taken..])
  }

  /** The rewrite that ends at the first piece whose size asked for reaches the room left. */
  function Bounded(job: Job, s: string, room: nat): (r: string)
    requires job.search != ""
    ensures |r| <= room
    decreases |s|
  {
    if s == "" then ""
    else
      var p := Next(job, s);
      if p.asked >= room then "" else p.text + Bounded(job, s[p.taken..], room - |p.text|)
  }

  // -------------------------------------------------------------- the method

  /** One turn of the loop, `stop` being the jump out of it. */
  method Turn(job: Job, s: string, output: array<char>, at: nat) returns (stop: bool, taken: nat, out_len: nat)
    requires job.search != "" && s != "" && at < output.Length - 1
    modifies output
    ensures var p := Next(job, s);
            && (stop <==> p.asked >= output.Length - 1 - at)
            && (stop ==> output[..] == old(output[..]))
            && (!stop ==> taken == p.taken && out_len == at + |p.text| < output.Length
                          && output[..] == Over(old(output[..]), at, p.text))
  {
    hide Over, LineEnd;
    var Job(search, replacement, mode) := job;
    var size := output.Length;
    stop, taken, out_len := false, |search|, at;
    if search <= s && mode != OTHER {
      match mode {
        case REPLACE_MATCH =>
          if out_len + |replacement| >= size - 1 { return true, 0, at; }
          Memcpy(output, out_len, replacement);
          out_len := out_len + |replacement|;
        case ADD_BEFORE =>
          if out_len + |replacement| + |search| >= size - 1 { return true, 0, at; }
          MemcpyTwo(output, out_len, replacement, search);
          out_len := out_len + |replacement| + |search|;
        case ADD_AFTER =>
          if out_len + |search| + |replacement| >= size - 1 { return true, 0, at; }
          MemcpyTwo(output, out_len, search, replacement);
          out_len := out_len + |search| + |replacement|;
        case REPLACE_LINE =>
          var line_end := LineEnd(s);
          if out_len + |replacement| + 1 >= size - 1 { return true, 0, at; }
          if line_end < |s| {
            MemcpyTwo(output, out_len, replacement, "\n");
            out_len, taken := out_len + |replacement| + 1, line_end + 1;
          } else {
            Memcpy(output, out_len, replacement);
            out_len, taken := out_len + |replacement|, line_end;
          }
      }
    } else {
      Put(output, out_len, s[0]);
      out_len, taken := out_len + 1, 1;
    }
  }

  method StrReplace(input: string, search: string, replacement: string, output: array<char>, mode: ReplaceMode)
    requires search != "" && output.Length > 0
    modifies output
    ensures var r := Bounded(Job(search, replacement, mode), input, output.Length - 1);
            output[..] == Over(old(output[..]), 0, r + "\0")
  {
    hide Bounded, Next, Over;
    var size, job := output.Length, Job(search, replacement, mode);
    var pos, out_len := 0, 0;
    ghost var buffer, done := output[..], "";
    assert input[0..] == input;
    OverNothing(buffer, 0);
    while pos < |input| && out_len < size - 1
      invariant 0 <= pos <= |input| && 0 <= out_len == |done| <= size - 1
      invariant Bounded(job, input, size - 1) == done + Bounded(job, input[pos..], size - 1 - out_len)
      invariant output[..] == Over(buffer, 0, done)
      decreases |input| - pos
    {
      BoundedStep(job, input[pos..], size - 1 - out_len);
      ghost var p := Next(job, input[pos..]);
      var stop, taken, at := Turn(job, input[pos..], output, out_len);
      if stop {
        break;
      }
      assert input[pos..][taken..] == input[pos + taken..];
      OverTwice(buffer, 0, done, p.text);
      pos, out_len, done := pos + taken, at, done + p.text;
    }
    BoundedEnd(job, size - 1 - out_len);
    assert pos == |input| ==> input[pos..] == "";
    assert Bounded(job, input, size - 1) == done;
    Put(output, out_len, '\0');
    OverTwice(buffer, 0, done, "\0");
  }

  lemma BoundedEnd(job: Job, room: nat)
    requires job.search != ""
    ensures Bounded(job, "", room) == ""
  {
  }

  lemma BoundedStep(job: Job, s: string, room: nat)
    requires job.search != "" && s != ""
    ensures var p := Next(job, s);
            if p.asked >= room then Bounded(job, s, room) == ""
            else |p.text| <= room && Bounded(job, s, room) == p.text + Bounded(job, s[p.taken..], room - |p.text|)
  {
  }

  // ------------------------------------------- the buffer against the rewrite

  lemma WholeStep(job: Job, s: string)
    requires job.search != "" && s != ""
    ensures Whole(job, s) == Next(job, s).text + Whole(job, s[Next(job, s).taken..])
  {
  }

  lemma NothingLeft(job: Job, room: nat)
    requires job.search != ""
    ensures Whole(job, "") == "" && Bounded(job, "", room) == ""
  {
  }

  /** Whatever the buffer's size, it holds a prefix of the rewrite. */
  lemma {:induction false} BoundedIsPrefix(job: Job, s: string, room: nat)
    requires job.search != ""
    ensures Bounded(job, s, room) <= Whole(job, s)
    decreases |s|
  {
    hide Next, LineEnd;
    if s != "" {
      var p := Next(job, s);
      if p.asked < room {
        BoundedIsPrefix(job, s[p.taken..], room - |p.text|);
      }
    }
  }

  /** No occurrence starts before position n. */
  ghost predicate NoneBefore(s: string, search: string, n: nat)
    requires n <= |s|
  {
    forall j :: 0 <= j < n ==> !(search <= s[j..])
  }

  ghost predicate Occurs(search: string, s: string) {
    !NoneBefore(s, search, |s|)
  }

  lemma NoneBeforeStep(s: string, search: string, n: nat)
    requires 0 < n <= |s|
    ensures NoneBefore(s, search, n) <==> !(search <= s) && NoneBefore(s[1..], search, n - 1)
  {
    assert s[0..] == s;
    if NoneBefore(s, search, n) {
      forall j | 0 <= j < n - 1 ensures !(search <= s[1..][j..]) {
        assert s[1..][j..] == s[j + 1..];
      }
    } else {
      var j :| 0 <= j < n && search <= s[j..];
      assert j > 0 ==> s[1..][j - 1..] == s[j..];
    }
  }

  /** The text behind the last line feed. */
  function LastLine(s: string): string {
    if '\n' in s then LastLine(s[1..]) else s
  }

  lemma LineEndIs(s: string, e: nat)
    requires e <= |s| && (e < |s| ==> s[e] == '\n') && forall j :: 0 <= j < e ==> s[j] != '\n'
    ensures LineEnd(s) == e
  {
    hide LineEnd;
  }

  lemma LastLineStep(s: string)
    ensures LastLine(s) == if LineEnd(s) == |s| then s else LastLine(s[1..])
  {
    hide LineEnd;
  }

  lemma {:induction false} LastLineOfRest(s: string, n: nat)
    requires LineEnd(s) < |s| && n <= LineEnd(s) + 1
    ensures LastLine(s[n..]) == LastLine(s)
    decreases n
  {
    hide LineEnd, LastLine;
    if n == 0 {
      assert s[0..] == s;
    } else {
      LastLineStep(s);
      if n > 1 {
        LineEndIs(s[1..], LineEnd(s) - 1);
        LastLineOfRest(s[1..], n - 1);
        assert s[1..][n - 1..] == s[n..];
      }
    }
  }

  /** Does the line mode give up one character early? */
  ghost predicate CutShort(job: Job, s: string, room: nat)
    requires job.search != ""
  {
    && job.mode == REPLACE_LINE && job.replacement != "" && |Whole(job, s)| + 1 == room
    && Occurs(job.search, LastLine(s))
  }

  /**
   A rewrite shorter than the output size less one comes out whole, except in line mode when it is one character
   shorter and the last line, which no line feed ends, has a match.
   */
  lemma {:induction false} WholeWhenItFits(job: Job, s: string, room: nat)
    requires job.search != "" && |Whole(job, s)| < room
    ensures Bounded(job, s, room) == Whole(job, s) <==> !CutShort(job, s, room)
    decreases |s|
  {
    hide LineEnd, LastLine, Occurs, Whole, Bounded, Next;
    if s == "" {
      NothingLeft(job, room);
      NothingOccurs(job.search);
    } else {
      WholeStep(job, s);
      BoundedStep(job, s, room);
      var p := Next(job, s);
      PieceSize(job, s);
      if job.search <= s && job.mode == REPLACE_LINE && LineEnd(s) == |s| {
        LastLineStep(s);
        OccursStep(job.search, s);
        NothingLeft(job, room - |p.text|);
        assert s[p.taken..] == "";
      } else {
        var rest := s[p.taken..];
        WholeWhenItFits(job, rest, room - |p.text|);
        assert Bounded(job, s, room)[|p.text|..] == Bounded(job, rest, room - |p.text|);
        assert Whole(job, s)[|p.text|..] == Whole(job, rest);
        if job.mode == REPLACE_LINE {
          LastLineMatch(job, s);
        }
      }
    }
  }

  /** What the size test is about, by mode. */
  lemma PieceSize(job: Job, s: string)
    requires job.search != "" && s != ""
    ensures var p := Next(job, s);
            if job.mode == REPLACE_LINE && job.search <= s && LineEnd(s) == |s| then p == LastLinePiece(job, s)
            else p.asked <= |p.text|
  {
    hide LineEnd;
  }

  /** No piece of the line mode but the one in the last line skips what decides. */
  lemma LastLineMatch(job: Job, s: string)
    requires job.search != "" && s != "" && job.mode == REPLACE_LINE && !(job.search <= s && LineEnd(s) == |s|)
    ensures Occurs(job.search, LastLine(s[Next(job, s).taken..])) <==> Occurs(job.search, LastLine(s))
  {
    hide LineEnd, LastLine, Occurs;
    var p := Next(job, s);
    if LineEnd(s) < |s| {
      LastLineOfRest(s, p.taken);
    } else {
      LineEndIs(s[1..], |s| - 1);
      LastLineStep(s);
      LastLineStep(s[1..]);
      OccursStep(job.search, s);
    }
  }

  lemma OccursStep(search: string, s: string)
    requires s != ""
    ensures Occurs(search, s) <==> search <= s || Occurs(search, s[1..])
  {
    NoneBeforeStep(s, search, |s|);
  }

  lemma NothingOccurs(search: string)
    ensures !Occurs(search, LastLine(""))
  {
    assert LastLine("") == "";
  }

  /** Five bytes hold the rewrite of "ab" to "axy" and its terminator, but the line mode stops behind the "a". */
  lemma LineModeStopsEarly()
    ensures var job := Job("b", "xy", REPLACE_LINE);
            Whole(job, "ab") == "axy" && Bounded(job, "ab", 5 - 1) == "a"
  {
    hide Whole, Bounded;
    var job := Job("b", "xy", REPLACE_LINE);
    assert "ab"[1..] == "b" && "b"[1..] == "";
    assert Next(job, "ab") == Piece("a", 1, 0);
    assert Next(job, "b") == Piece("xy", 1, 3);
    WholeStep(job, "ab");
    WholeStep(job, "b");
    NothingLeft(job, 0);
    BoundedStep(job, "ab", 4);
    BoundedStep(job, "b", 3);
  }

  function BothTexts(insert: Job): string {
    if insert.mode == ADD_BEFORE then insert.replacement + insert.search else insert.search + insert.replacement
  }

  /** Inserting before or after a match is replacing it by the two texts together, in any buffer. */
  lemma {:induction false} InsertIsReplace(insert: Job, s: string, room: nat)
    requires insert.search != "" && (insert.mode == ADD_BEFORE || insert.mode == ADD_AFTER)
    ensures var replace := Job(insert.search, BothTexts(insert), REPLACE_MATCH);
            Bounded(insert, s, room) == Bounded(replace, s, room) && Whole(insert, s) == Whole(replace, s)
    decreases |s|
  {
    hide LineEnd, Whole, Bounded;
    var replace := Job(insert.search, BothTexts(insert), REPLACE_MATCH);
    if s == "" {
      NothingLeft(insert, room);
      NothingLeft(replace, room);
    } else {
      var p := Next(insert, s);
      assert p == Next(replace, s);
      WholeStep(insert, s);
      WholeStep(replace, s);
      BoundedStep(insert, s, room);
      BoundedStep(replace, s, room);
      InsertIsReplace(insert, s[p.taken..], if p.asked < room then room - |p.text| else 0);
    }
  }

  /** The size one match asks for, by mode. */
  function Asked(job: Job): nat {
    match job.mode
    case REPLACE_MATCH => |job.replacement|
    case ADD_BEFORE => |job.search| + |job.replacement|
    case ADD_AFTER => |job.search| + |job.replacement|
    case REPLACE_LINE => |job.replacement| + 1
    case OTHER => 0
  }

  /**
   Where the rewrite is broken off: everything before position i is rewritten in full, and there either the buffer is
   full or a match stands whose text would not leave one more byte free.
   */
  lemma {:induction false} StopsWhenFull(job: Job, s: string, room: nat) returns (i: nat)
    requires job.search != ""
    ensures i <= |s| && Bounded(job, s, room) + Whole(job, s[i..]) == Whole(job, s)
    ensures i < |s| ==>
              var n := |Bounded(job, s, room)|;
              n == room || (job.mode != OTHER && job.search <= s[i..] && n + Asked(job) >= room)
    decreases |s|
  {
    hide LineEnd, Whole, Bounded;
    i := 0;
    assert s[0..] == s;
    if s == "" {
      NothingLeft(job, room);
    } else {
      WholeStep(job, s);
      BoundedStep(job, s, room);
      var p := Next(job, s);
      if p.asked < room {
        var rest := s[p.taken..];
        var k := StopsWhenFull(job, rest, room - |p.text|);
        i := p.taken + k;
        assert rest[k..] == s[i..];
        var r := Bounded(job, rest, room - |p.text|);
        assert p.text + r + Whole(job, rest[k..]) == p.text + (r + Whole(job, rest[k..]));
      } else {
        assert "" + Whole(job, s) == Whole(job, s);
      }
    }
  }

  /** An unknown mode copies the input. */
  lemma {:induction false} OtherCopies(job: Job, s: string)
    requires job.search != "" && job.mode == OTHER
    ensures Whole(job, s) == s
    decreases |s|
  {
    hide LineEnd, Whole;
    if s == "" {
      NothingLeft(job, 0);
    } else {
      WholeStep(job, s);
      OtherCopies(job, s[1..]);
      assert [s[0]] + s[1..] == s;
    }
  }

  /**
   The line mode, for any search text: what stands before the first match is kept, the rest of its line gives way to the
   replacement, and the rewrite goes on behind the line feed.
   */
  lemma {:induction false} LineModeAtMatch(s: string, search: string, replacement: string, i: nat, e: nat)
    requires search != "" && i <= e <= |s| && i < |s| && search <= s[i..] && NoneBefore(s, search, i)
    requires (e < |s| ==> s[e] == '\n') && forall j :: i <= j < e ==> s[j] != '\n'
    ensures var job := Job(search, replacement, REPLACE_LINE);
            Whole(job, s) == s[..i] + replacement + if e < |s| then "\n" + Whole(job, s[e + 1..]) else ""
    decreases i
  {
    hide LineEnd, Whole, NoneBefore;
    var job := Job(search, replacement, REPLACE_LINE);
    WholeStep(job, s);
    if i == 0 {
      LineEndIs(s, e);
      assert s[0..] == s && s[..0] == "";
      if e == |s| {
        NothingLeft(job, 0);
        assert s[e..] == "";
      }
    } else {
      NoneBeforeStep(s, search, i);
      assert s[1..][i - 1..] == s[i..];
      LineModeAtMatch(s[1..], search, replacement, i - 1, e - 1);
      assert s[..i] == [s[0]] + s[1..][..i - 1];
      assert e < |s| ==> s[1..][e - 1 + 1..] == s[e + 1..];
    }
  }

  // ---------------------------------------------------- leftmost occurrences

  /** The fields of a text around the leftmost occurrences that do not overlap. */
  ghost predicate IsSplit(s: string, search: string, fields: seq<string>)
    decreases |fields|
  {
    && fields != []
    && if |fields| == 1 then fields[0] == s && NoneBefore(s, search, |s|)
       else
         && fields[0] + search <= s && NoneBefore(s, search, |fields[0]|)
         && IsSplit(s[|fields[0]| + |search|..], search, fields[1..])
  }

  function Join(fields: seq<string>, between: string): string {
    if fields == [] then "" else if |fields| == 1 then fields[0] else fields[0] + between + Join(fields[1..], between)
  }

  function SplitAt(s: string, search: string): (fields: seq<string>)
    requires search != ""
    ensures fields != []
    decreases |s|
  {
    if s == "" then [""]
    else if search <= s then [""] + SplitAt(s[|search|..], search)
    else Prepend(s[0], SplitAt(s[1..], search))
  }

  function Prepend(c: char, fields: seq<string>): seq<string>
    requires fields != []
  {
    [[c] + fields[0]] + fields[1..]
  }

  /** A first character where no occurrence starts belongs to the first field. */
  lemma SplitStep(s: string, search: string, fields: seq<string>)
    requires s != "" && !(search <= s) && fields != []
    ensures IsSplit(s[1..], search, fields) <==> IsSplit(s, search, Prepend(s[0], fields))
  {
    hide NoneBefore;
    var f, more := fields[0], Prepend(s[0], fields);
    assert more[1..] == fields[1..] && more[0] == [s[0]] + f;
    if |fields| == 1 {
      NoneBeforeStep(s, search, |s|);
      assert s == [s[0]] + s[1..];
    } else {
      assert more[0] + search == [s[0]] + (f + search);
      assert f + search <= s[1..] <==> more[0] + search <= s by {
        assert s == [s[0]] + s[1..];
        assert f + search <= s[1..] ==> more[0] + search <= s;
        assert more[0] + search <= s ==> (more[0] + search)[1..] == f + search;
      }
      if more[0] + search <= s {
        NoneBeforeStep(s, search, |more[0]|);
        assert s[|more[0]| + |search|..] == s[1..][|f| + |search|..];
      }
    }
  }

  /** An occurrence at the front is behind an empty first field. */
  lemma SplitHere(s: string, search: string, fields: seq<string>)
    requires search != "" && search <= s && fields != []
    ensures IsSplit(s[|search|..], search, fields) <==> IsSplit(s, search, [""] + fields)
  {
    assert ([""] + fields)[1..] == fields && "" + search == search;
  }

  /** Every text has such a split, */
  lemma {:induction false} SplitExists(s: string, search: string)
    requires search != ""
    ensures IsSplit(s, search, SplitAt(s, search))
    decreases |s|
  {
    hide IsSplit;
    if s == "" {
      SplitNothing(search);
    } else if search <= s {
      SplitExists(s[|search|..], search);
      SplitHere(s, search, SplitAt(s[|search|..], search));
    } else {
      SplitExists(s[1..], search);
      SplitStep(s, search, SplitAt(s[1..], search));
    }
  }

  lemma SplitNothing(search: string)
    ensures IsSplit("", search, [""])
  {
  }

  /** joining it with the search text gives the text back, */
  lemma {:induction false} JoinOfSplit(s: string, search: string, fields: seq<string>)
    requires IsSplit(s, search, fields)
    ensures Join(fields, search) == s
    decreases |fields|
  {
    if |fields| > 1 {
      var n := |fields[0]| + |search|;
      JoinOfSplit(s[n..], search, fields[1..]);
      assert s == s[..n] + s[n..];
      assert s[..n] == fields[0] + search;
    }
  }

  /** and the match mode is the join with the replacement: every occurrence between two fields is replaced. */
  lemma {:induction false} ReplaceIsJoin(s: string, search: string, replacement: string, fields: seq<string>)
    requires search != "" && IsSplit(s, search, fields)
    ensures Whole(Job(search, replacement, REPLACE_MATCH), s) == Join(fields, replacement)
    decreases |s|
  {
    hide IsSplit, LineEnd, Whole, Join;
    var job := Job(search, replacement, REPLACE_MATCH);
    SplitStart(s, search, fields);
    JoinStart(fields, replacement);
    if s == "" {
      NothingLeft(job, 0);
    } else if search <= s {
      SplitHere(s, search, fields[1..]);
      WholeStep(job, s);
      ReplaceIsJoin(s[|search|..], search, replacement, fields[1..]);
    } else {
      var less := [fields[0][1..]] + fields[1..];
      assert fields[0] == [s[0]] + less[0] && less[1..] == fields[1..];
      assert Prepend(s[0], less) == fields;
      SplitStep(s, search, less);
      WholeStep(job, s);
      ReplaceIsJoin(s[1..], search, replacement, less);
      JoinPrepend(s[0], less, replacement);
    }
  }

  /** How the fields of a split begin. */
  lemma SplitStart(s: string, search: string, fields: seq<string>)
    requires search != "" && IsSplit(s, search, fields)
    ensures fields != [] && (s == "" ==> fields == [""])
    ensures s != "" && search <= s ==> |fields| > 1 && fields[0] == "" && fields == [""] + fields[1..]
    ensures s != "" && !(search <= s) ==> fields[0] != "" && fields[0][0] == s[0]
  {
    assert s[0..] == s;
    if |fields| > 1 {
      assert fields[0] == "" ==> fields[0] + search == search;
    }
  }

  lemma JoinStart(fields: seq<string>, between: string)
    requires fields != []
    ensures Join([""], between) == ""
    ensures |fields| > 1 && fields[0] == "" ==> Join(fields, between) == between + Join(fields[1..], between)
  {
  }

  lemma JoinPrepend(c: char, fields: seq<string>, between: string)
    requires fields != []
    ensures Join(Prepend(c, fields), between) == [c] + Join(fields, between)
  {
    assert Prepend(c, fields)[1..] == fields[1..];
  }

  // --------------------------------------------------------------- line mode

  /** One line: what precedes the first match stays, the rest of the line becomes the replacement. */
  function EditLine(line: string, search: string, replacement: string): string {
    if line == "" then "" else if search <= line then replacement
    else [line[0]] + EditLine(line[1..], search, replacement)
  }

  function EditLines(s: string, search: string, replacement: string): string
    decreases |s|
  {
    var e := LineEnd(s);
    if e == |s| then EditLine(s, search, replacement)
    else EditLine(s[..e], search, replacement) + "\n" + EditLines(s[e + 1..], search, replacement)
  }

  /** With a search text inside one line, the line mode edits the lines one by one. */
  lemma {:induction false} LineModeByLines(s: string, search: string, replacement: string)
    requires search != "" && '\n' !in search
    ensures Whole(Job(search, replacement, REPLACE_LINE), s) == EditLines(s, search, replacement)
    decreases |s|
  {
    hide LineEnd, Whole, EditLines;
    var job := Job(search, replacement, REPLACE_LINE);
    var e := LineEnd(s);
    EditStep(s, search, replacement);
    if s == "" {
      NothingLeft(job, 0);
    } else {
      WholeStep(job, s);
      if search <= s {
        MatchInLine(s, search);
        if e < |s| {
          LineModeByLines(s[e + 1..], search, replacement);
        } else {
          NothingLeft(job, 0);
          assert s[|s|..] == "";
        }
      } else {
        LineModeByLines(s[1..], search, replacement);
        EditSkips(s, search, replacement);
      }
    }
  }

  lemma EditStep(s: string, search: string, replacement: string)
    ensures var e := LineEnd(s);
            EditLines(s, search, replacement) ==
              if e == |s| then EditLine(s, search, replacement)
              else EditLine(s[..e], search, replacement) + "\n" + EditLines(s[e + 1..], search, replacement)
  {
    hide LineEnd, EditLine;
  }

  lemma EditLineStep(line: string, search: string, replacement: string)
    ensures EditLine(line, search, replacement) ==
            if line == "" then "" else if search <= line then replacement
            else [line[0]] + EditLine(line[1..], search, replacement)
  {
  }

  lemma EditSkips(s: string, search: string, replacement: string)
    requires s != "" && search != "" && !(search <= s)
    ensures EditLines(s, search, replacement) == [s[0]] + EditLines(s[1..], search, replacement)
  {
    hide LineEnd, EditLines, EditLine;
    var e := LineEnd(s);
    EditStep(s, search, replacement);
    EditLineStep(s[..e], search, replacement);
    if e == 0 {
      assert s[..0] == "" && s[0] == '\n';
    } else {
      LineEndIs(s[1..], e - 1);
      EditStep(s[1..], search, replacement);
      if e < |s| {
        assert s[1..][e - 1 + 1..] == s[e + 1..];
        assert s[..e][1..] == s[1..][..e - 1];
        assert !(search <= s[..e]);
      } else {
        assert s[..e] == s;
      }
    }
  }

  lemma MatchInLine(s: string, search: string)
    requires search <= s && '\n' !in search
    ensures search <= s[..LineEnd(s)]
  {
    assert forall j :: 0 <= j < |search| ==> s[j] == search[j] && search[j] in search;
  }
}
