/** What ini_load makes of a line written by hand: comments, headers and keys with any blanks, quotes and marks. */
module IniLines {
  import opened Buffers
  import opened Ctype
  import opened IniText
  import opened IniStore
  import opened IniFormat

  // ------------------------------------------------------------------ quotes

  /** A quote that no backslash stands before. */
  predicate Plain(s: string, i: nat)
    requires i < |s|
  {
    (s[i] == '"' || s[i] == '\'') && (i == 0 || s[i - 1] != '\\')
  }

  /** The plain quotes before position end. */
  function Quotes(s: string, end: nat): set<nat>
    requires end <= |s|
  {
    set i: nat | i < end && Plain(s, i)
  }

  lemma QuotesStep(s: string, i: nat)
    requires i < |s|
    ensures |Quotes(s, i + 1)| == |Quotes(s, i)| + if Plain(s, i) then 1 else 0
  {
    if Plain(s, i) {
      assert Quotes(s, i + 1) == Quotes(s, i) + {i};
    } else {
      assert Quotes(s, i + 1) == Quotes(s, i);
    }
  }

  /** The scan of extract_comment finds a quote open at a mark when an odd number of plain quotes stands before it. */
  lemma {:induction false} QuoteParity(s: string, i: nat, end: nat, open: bool)
    requires i <= end < |s| && !IsQuote(s[end]) && open == (|Quotes(s, i)| % 2 == 1)
    requires i > 0 && IsQuote(s[i]) ==> s[i - 1] != '\\'
    ensures QuoteOpen(s, i, end, open) <==> |Quotes(s, end)| % 2 == 1
    decreases end - i
  {
    if i < end {
      QuotesStep(s, i);
      if IsQuote(s[i]) {
        QuoteParity(s, i + 1, end, !open);
      } else if s[i] == '\\' && IsQuote(s[i + 1]) {
        QuotesStep(s, i + 1);
        QuoteParity(s, i + 2, end, open);
      } else {
        QuoteParity(s, i + 1, end, open);
      }
    }
  }

  // ------------------------------------------------------------------- split

  /** The first c of the line stands at pos, behind an even number of plain quotes. */
  predicate CutsAt(line: string, c: char, pos: nat) {
    && pos < |line| && line[pos] == c && (forall i :: 0 <= i < pos ==> line[i] != c)
    && |Quotes(line, pos)| % 2 == 0
  }

  /** A comment as it is written: blanks, a text, blanks. */
  predicate Written(s: string, text: string) {
    Trimmed(text) && exists i, j :: 0 <= i <= j <= |s| && Blank(s[..i]) && s[i..j] == text && Blank(s[j..])
  }

  lemma WrittenTrims(s: string, text: string)
    requires Written(s, text)
    ensures Trim(s) == text
  {
    hide Trim, Blank;
    var i, j :| 0 <= i <= j <= |s| && Blank(s[..i]) && s[i..j] == text && Blank(s[j..]);
    assert s == s[..i] + text + s[j..];
    TrimAround(s[..i], text, s[j..]);
  }

  lemma ExtractIs(line: string, c: char, pos: nat)
    requires !IsQuote(c)
    ensures CutsAt(line, c, pos) ==> ExtractComment(line, c) == Split(line[..pos], Some(Trim(line[pos + 1..])))
    ensures (forall p :: !CutsAt(line, c, p)) ==> ExtractComment(line, c) == Split(line, None)
  {
    hide Trim, QuoteOpen, Quotes;
    var p := Find(line, c, 0);
    if p < |line| {
      assert Quotes(line, 0) == {} by { NoQuotesYet(line); }
      QuoteParity(line, 0, p, false);
      assert CutsAt(line, c, p) || QuoteOpen(line, 0, p, false);
    }
  }

  lemma NoQuotesYet(line: string)
    ensures Quotes(line, 0) == {}
  {
  }

  lemma {:induction false} StartTrimmed(s: string) returns (i: nat)
    ensures i <= |s| && Blank(s[..i]) && TrimStart(s) == s[i..]
  {
    if s != "" && IsSpace(s[0]) {
      var k := StartTrimmed(s[1..]);
      i := k + 1;
      assert s[1..][k..] == s[i..];
      forall j | 0 <= j < i ensures IsSpace(s[j]) {
        if j > 0 { assert s[1..][..k][j - 1] == s[j]; }
      }
    } else {
      i := 0;
    }
  }

  lemma {:induction false} EndTrimmed(s: string) returns (j: nat)
    ensures j <= |s| && Blank(s[j..]) && TrimEnd(s) == s[..j]
  {
    if s != "" && IsSpace(s[|s| - 1]) {
      var rest := s[..|s| - 1];
      j := EndTrimmed(rest);
      forall k | 0 <= k < |s| - j ensures IsSpace(s[j..][k]) {
        if j + k < |s| - 1 { assert rest[j..][k] == s[j + k]; }
      }
    } else {
      j := |s|;
    }
  }

  /** Trimming is the one way to read a text between blanks. */
  lemma TrimIff(s: string, text: string)
    ensures Trim(s) == text <==> Written(s, text)
  {
    if Written(s, text) {
      WrittenTrims(s, text);
    }
    if Trim(s) == text {
      var i := StartTrimmed(s);
      var j := EndTrimmed(s[i..]);
      assert s[i..][j..] == s[i + j..] && s[i..][..j] == s[i..i + j];
    }
  }

  ghost predicate HasCut(line: string, c: char) {
    exists pos: nat :: CutsAt(line, c, pos)
  }

  /** The line cut at its first c, and what is written behind it. */
  ghost predicate CutAs(line: string, c: char, r: Split) {
    exists pos: nat :: CutsAt(line, c, pos) && r.line == line[..pos] && r.comment.Some?
                  && Written(line[pos + 1..], r.comment.value)
  }

  lemma CutIff(line: string, c: char, r: Split)
    requires !IsQuote(c)
    ensures HasCut(line, c) ==> (ExtractComment(line, c) == r <==> CutAs(line, c, r))
    ensures HasCut(line, c) <==> ExtractComment(line, c).comment.Some?
    ensures !HasCut(line, c) ==> ExtractComment(line, c) == Split(line, None)
  {
    hide CutsAt, Trim, Written, ExtractComment;
    if pos: nat :| CutsAt(line, c, pos) {
      ExtractIs(line, c, pos);
      forall p: nat | CutsAt(line, c, p) ensures p == pos {
        OneCut(line, c, pos, p);
      }
      assert pos < |line| by { OneCut(line, c, pos, pos); }
      if r.comment.Some? {
        TrimIff(line[pos + 1..], r.comment.value);
      }
      assert CutAs(line, c, r) <==>
          r.line == line[..pos] && r.comment.Some? && Written(line[pos + 1..], r.comment.value);
    } else {
      ExtractIs(line, c, 0);
    }
  }

  lemma OneCut(line: string, c: char, p: nat, q: nat)
    requires CutsAt(line, c, p) && CutsAt(line, c, q)
    ensures p == q < |line|
  {
  }

  /**
   Where a line is divided: at its first ';' if that one is not quoted; at its first '#' otherwise, if that one is not
   quoted; nowhere in the other cases. No later mark is looked at.
   */
  lemma SplitIff(line: string, r: Split)
    ensures SplitComment(line) == r <==>
              if HasCut(line, ';') then CutAs(line, ';', r)
              else if HasCut(line, '#') then CutAs(line, '#', r)
              else r == Split(line, None)
  {
    hide ExtractComment, HasCut, CutAs;
    CutIff(line, ';', r);
    CutIff(line, '#', r);
  }

  /** What a line is divided into. */
  ghost predicate Divides(line: string, r: Split) {
    if HasCut(line, ';') then CutAs(line, ';', r)
    else if HasCut(line, '#') then CutAs(line, '#', r)
    else r == Split(line, None)
  }

  // ------------------------------------------------------------------- lines

  /** The first character of the line that is not a space stands at i. */
  predicate StartsAt(line: string, i: nat) {
    i < |line| && Blank(line[..i]) && !IsSpace(line[i])
  }

  /** The store with one more comment waiting: at the end of the newest section's, or of the file's. */
  function WithWaiting(s: Store, text: string): Store {
    if s.sections == [] then s.(header := s.header + [text])
    else s.(sections := [s.sections[0].(before := s.sections[0].before + [text])] + s.sections[1..])
  }

  lemma TrimStartAt(line: string, i: nat)
    requires StartsAt(line, i)
    ensures TrimStart(line) == line[i..]
  {
    assert line == line[..i] + line[i..];
    TrimStartSkips(line[..i], line[i..]);
  }

  lemma WrittenLonger(s: string, b: string, text: string)
    requires Written(s, text) && Blank(b)
    ensures Written(s + b, text)
  {
    var i, j :| 0 <= i <= j <= |s| && Blank(s[..i]) && s[i..j] == text && Blank(s[j..]);
    var t := s + b;
    assert t[..i] == s[..i] && t[i..j] == s[i..j] && t[j..] == s[j..] + b;
    assert Blank(t[j..]);
  }

  lemma NotBlank(t: string)
    requires t != "" && !IsSpace(t[0])
    ensures !Blank(t[0..])
  {
    assert t[0..][0] == t[0];
  }

  /** The trimmed line starts with the first character that is no space, and what follows it reads the same. */
  lemma TrimmedLine(line: string, i: nat)
    requires StartsAt(line, i)
    ensures var t := Trim(line); t != "" && t[0] == line[i] && Trim(t[1..]) == Trim(line[i + 1..])
  {
    hide TrimStart, TrimEnd, Trim;
    TrimStartAt(line, i);
    var t := line[i..];
    var j := EndTrimmed(t);
    assert Trim(line) == t[..j] by { TrimParts(line); }
    if j == 0 {
      NotBlank(t);
      assert false;
    }
    var text := Trim(t[..j][1..]);
    TrimIff(t[..j][1..], text);
    WrittenLonger(t[..j][1..], t[j..], text);
    assert t[..j][1..] + t[j..] == line[i + 1..];
    TrimIff(line[i + 1..], text);
  }

  lemma TrimParts(line: string)
    ensures Trim(line) == TrimEnd(TrimStart(line))
  {
  }

  /** A comment of its own, behind either mark, waits for the next key or section. */
  lemma CommentOnItsOwn(s: Store, line: string, i: nat, text: string)
    requires StartsAt(line, i) && (line[i] == ';' || line[i] == '#') && Written(line[i + 1..], text)
    ensures ParseLine(s, line) == WithWaiting(s, if |text| < 512 then text else text[..511])
  {
    hide Trim, Written, ParseHeader, ParseKey;
    TrimmedLine(line, i);
    TrimIff(line[i + 1..], text);
  }

  /** So does a blank line, as an empty comment. */
  lemma BlankLine(s: Store, line: string)
    requires Blank(line)
    ensures ParseLine(s, line) == WithWaiting(s, "")
  {
    hide Trim, ParseHeader, ParseKey;
    assert line == line + "" + "";
    TrimAround(line, "", "");
  }

  /** What a buffer of 512 characters keeps of the comment behind a line. */
  function Kept(comment: Option<string>): string {
    if comment.None? then "" else if |comment.value| < 512 then comment.value else comment.value[..511]
  }

  predicate FirstAt(s: string, c: char, e: nat) {
    e < |s| && s[e] == c && forall j :: 0 <= j < e ==> s[j] != c
  }

  lemma FindFirst(s: string, c: char, e: nat)
    ensures FirstAt(s, c, e) ==> Find(s, c, 0) == e
    ensures c !in s ==> Find(s, c, 0) == |s|
  {
  }

  /** The part of a line in front of its comment is a prefix of it. */
  lemma DividesPrefix(line: string, r: Split)
    requires Divides(line, r)
    ensures r.line <= line && SplitComment(line) == r
  {
    hide SplitComment, HasCut, CutAs;
    SplitIff(line, r);
  }

  /**
   A key: the text in front of the first '=' of what is left of the line, the text behind it, and the comment, each
   without the blanks around it, with the comments that were waiting.
   */
  lemma KeyOnItsLine(s: Store, line: string, i: nat, r: Split, e: nat, key: string, value: string)
    requires s.sections != [] && StartsAt(line, i) && line[i] !in ";#[" && Divides(line, r)
    requires FirstAt(r.line, '=', e) && Written(r.line[..e], key) && Written(r.line[e + 1..], value)
    ensures var cur := s.sections[0];
            var k := KeyEntry(if |key| < 256 then key else key[..255], if |value| < 512 then value else value[..511],
                              Kept(r.comment), cur.before);
            ParseLine(s, line) == s.(sections := [cur.(keys := [k] + cur.keys, before := [])] + s.sections[1..])
  {
    hide Trim, Written, ParseHeader, Divides, SplitComment, Find;
    TrimmedLine(line, i);
    DividesPrefix(line, r);
    FindFirst(r.line, '=', e);
    FindFirst(line, '=', e);
    TrimIff(r.line[..e], key);
    TrimIff(r.line[e + 1..], value);
    CutIs(key, MAX_KEY_LENGTH);
    CutIs(value, MAX_VALUE_LENGTH);
    KeyStored(s, line, r, e);
  }

  lemma CutIs(s: string, n: nat)
    requires n > 0
    ensures Cut(s, n) == if |s| < n then s else s[..n - 1]
  {
  }

  /** The key record in front of the newest section's keys, which takes the waiting comments. */
  lemma KeyPut(s: Store, key: string, value: string, comment: string)
    requires s.sections != []
    ensures var cur := s.sections[0];
            var s1 := SetPending(s, []);
            var c := CreateKey(s1.sections[0], key);
            var kv := c.keys[0].(value := value, before := Pending(s), comment := comment);
            s1.(sections := [c.(keys := [kv] + c.keys[1..])] + s1.sections[1..]) ==
              s.(sections := [cur.(keys := [KeyEntry(Cut(key, MAX_KEY_LENGTH), value, comment, cur.before)] + cur.keys,
                before := [])] + s.sections[1..])
  {
    hide Cut;
    var cur := s.sections[0];
    var s1 := SetPending(s, []);
    assert s1.sections[0] == cur.(before := []) && s1.sections[1..] == s.sections[1..];
    assert CreateKey(s1.sections[0], key).keys[1..] == cur.keys;
  }

  /** ParseKey, once the parts of the line are known. */
  lemma KeyStored(s: Store, line: string, r: Split, e: nat)
    requires s.sections != [] && SplitComment(line) == r && e < |r.line| && Find(r.line, '=', 0) == e
    requires Find(line, '=', 0) == e < |line|
    ensures var cur := s.sections[0];
            var key, value := Trim(r.line[..e]), Trim(r.line[e + 1..]);
            var k := KeyEntry(Cut(key, MAX_KEY_LENGTH), Cut(value, MAX_VALUE_LENGTH), StoredComment(r.comment),
                              cur.before);
            ParseKey(s, line) == s.(sections := [cur.(keys := [k] + cur.keys, before := [])] + s.sections[1..])
  {
    hide Trim, SplitComment, Find, Cut, StoredComment, SetPending, Pending;
    KeyPut(s, Trim(r.line[..e]), Cut(Trim(r.line[e + 1..]), MAX_VALUE_LENGTH), StoredComment(r.comment));
  }

  /** A line of text without '=' in front of its comment, or in front of any section, is forgotten. */
  lemma OtherLine(s: Store, line: string, i: nat, r: Split)
    requires StartsAt(line, i) && line[i] !in ";#[" && Divides(line, r) && (s.sections == [] || '=' !in r.line)
    ensures ParseLine(s, line) == s
  {
    hide Trim, ParseHeader, Divides, SplitComment, Find;
    TrimmedLine(line, i);
    DividesPrefix(line, r);
    FindFirst(r.line, '=', 0);
  }

  /**
   A header: a section named after what stands between the second character of the line and the first ']' in front of
   the comment. The waiting comments are lost. The name is the one between the brackets if and only if the line starts
   with its bracket; an indented header has a name that begins with one.
   */
  lemma HeaderOnItsLine(s: Store, line: string, i: nat, r: Split, e: nat, name: string)
    requires StartsAt(line, i) && line[i] == '[' && Divides(line, r)
    requires FirstAt(r.line, ']', e) && e > 0 && Written(r.line[1..e], name)
    ensures var x := SectionEntry(if |name| < 256 then name else name[..255], Kept(r.comment), [], []);
            ParseLine(s, line) ==
              if s.sections == [] then Store([], [x])
              else s.(sections := [x, s.sections[0].(before := [])] + s.sections[1..])
    ensures i > 0 ==> name != "" && name[0] == '['
  {
    hide Trim, Written, ParseKey, Divides, SplitComment, Find;
    TrimmedLine(line, i);
    DividesPrefix(line, r);
    FindFirst(r.line, ']', e);
    TrimIff(r.line[1..e], name);
    if i > 0 {
      Indented(line, i, r.line, e, name);
    }
    var s1 := SetPending(s, []);
    assert s.sections != [] ==> s1.sections == [s.sections[0].(before := [])] + s.sections[1..];
  }

  /** An indented bracket is part of the name. */
  lemma Indented(line: string, i: nat, left: string, e: nat, name: string)
    requires StartsAt(line, i) && i > 0 && line[i] == '[' && left <= line && FirstAt(left, ']', e)
    requires Written(left[1..e], name)
    ensures name != "" && name[0] == '['
  {
    hide Trim;
    var inner := left[1..e];
    assert e > i by { BracketBehind(line, i, left, e); }
    assert StartsAt(inner, i - 1) by {
      var blanks := inner[..i - 1];
      forall j | 0 <= j < |blanks| ensures IsSpace(blanks[j]) {
        assert blanks[j] == line[..i][j + 1];
      }
    }
    TrimmedLine(inner, i - 1);
    TrimIff(inner, name);
  }

  lemma BracketBehind(line: string, i: nat, left: string, e: nat)
    requires StartsAt(line, i) && line[i] == '[' && left <= line && FirstAt(left, ']', e)
    ensures e > i
  {
    assert forall j :: 0 <= j < i ==> IsSpace(line[..i][j]) && line[..i][j] == line[j];
  }

  /** A bracket that is not closed in front of the comment starts no section. */
  lemma OpenBracket(s: Store, line: string, i: nat, r: Split)
    requires StartsAt(line, i) && line[i] == '[' && Divides(line, r) && ']' !in r.line
    ensures ParseLine(s, line) == s
  {
    hide Trim, ParseKey, Divides, SplitComment, Find;
    TrimmedLine(line, i);
    DividesPrefix(line, r);
    FindFirst(r.line, ']', 0);
  }

  // ------------------------------------------------------- which mark divides

  lemma NoPlainQuotes(s: string, end: nat)
    requires end <= |s| && forall i :: 0 <= i < end ==> !IsQuote(s[i])
    ensures Quotes(s, end) == {}
  {
  }

  lemma OneQuote(s: string, k: nat, end: nat)
    requires k < end <= |s| && Plain(s, k) && forall i :: 0 <= i < end && i != k ==> !IsQuote(s[i])
    ensures Quotes(s, end) == {k}
  {
  }

  lemma NoCut(line: string, c: char, e: nat)
    requires FirstAt(line, c, e) && |Quotes(line, e)| % 2 == 1
    ensures !HasCut(line, c)
  {
    hide Quotes;
    forall p: nat ensures !CutsAt(line, c, p) {
      if p > e && p < |line| && line[p] == c {
        assert line[e] == c;
      }
    }
  }

  lemma NoMark(line: string, c: char)
    requires c !in line
    ensures !HasCut(line, c)
  {
    hide Quotes;
    forall p: nat ensures !CutsAt(line, c, p) {
      if p < |line| { assert line[p] in line; }
    }
  }

  /** Behind text without marks, either mark starts a comment; a '#' only when no ';' comes later. */
  lemma InlineMark(head: string, m: char, rest: string, text: string)
    requires Without(head, MARKS) && (m == ';' || (m == '#' && ';' !in rest)) && Written(rest, text)
    ensures Divides(head + [m] + rest, Split(head, Some(text)))
  {
    hide Written, Quotes;
    var line, pos := head + [m] + rest, |head|;
    assert forall j :: 0 <= j < pos ==> line[j] == head[j] && head[j] !in MARKS;
    NoPlainQuotes(line, pos);
    assert CutsAt(line, m, pos);
    assert line[..pos] == head && line[pos + 1..] == rest;
    assert CutAs(line, m, Split(head, Some(text)));
    if m == '#' {
      assert forall j :: 0 <= j < |line| ==> line[j] == (if j <= pos then (head + [m])[j] else rest[j - pos - 1]);
      NoMark(line, ';');
    }
  }

  /** A '#' comment with a ';' in it loses its beginning to the value: the line is divided at the ';'. */
  lemma HashThenSemicolon(head: string, middle: string, rest: string, text: string)
    requires Without(head, MARKS) && Without(middle, ";'\"") && Written(rest, text)
    ensures Divides(head + "#" + middle + ";" + rest, Split(head + "#" + middle, Some(text)))
  {
    hide Written, Quotes;
    var front := head + "#" + middle;
    var line, pos := front + ";" + rest, |front|;
    forall j | 0 <= j < pos ensures line[j] != ';' && !IsQuote(line[j]) {
      if j < |head| {
        assert line[j] == head[j] && head[j] !in MARKS;
      } else if j > |head| {
        assert line[j] == middle[j - |head| - 1] && middle[j - |head| - 1] !in ";'\"";
      }
    }
    NoPlainQuotes(line, pos);
    assert CutsAt(line, ';', pos);
    assert line[..pos] == front && line[pos + 1..] == rest;
  }

  /** Not to be mistaken for the start of an escape. */
  predicate EndsPlain(head: string) {
    head != "" ==> head[|head| - 1] != '\\'
  }

  /** A mark inside quotes does not divide the line. */
  lemma QuotedMark(head: string, q: char, text: string, tail: string)
    requires Without(head, MARKS) && EndsPlain(head) && IsQuote(q) && Without(text, "'\"") && Without(tail, MARKS)
    ensures var line := head + [q] + text + [q] + tail; Divides(line, Split(line, None))
  {
    hide Quotes;
    var line := head + [q] + text + [q] + tail;
    QuotedFirst(head, q, text, tail, ';');
    QuotedFirst(head, q, text, tail, '#');
  }

  /** A quoted ';' hides every later one: the comment behind it stays in the line. */
  lemma QuotedSemicolonHides(head: string, q: char, text: string, tail: string)
    requires Without(head, MARKS) && EndsPlain(head) && IsQuote(q) && Without(text, "'\"") && ';' in text
    requires '#' !in text && '#' !in tail
    ensures var line := head + [q] + text + [q] + tail; Divides(line, Split(line, None))
  {
    hide Quotes;
    var line := head + [q] + text + [q] + tail;
    assert '#' !in line by {
      assert '#' !in head by { forall j | 0 <= j < |head| ensures head[j] != '#' { assert head[j] !in MARKS; } }
    }
    NoMark(line, '#');
    QuotedFirst(head, q, text, tail, ';');
  }

  /** A text in quotes between two others, by position. */
  ghost predicate Quoted(line: string, head: string, q: char, text: string, tail: string) {
    var k, e := |head|, |head| + 1 + |text|;
    && |line| == e + 1 + |tail| && (forall j :: 0 <= j < k ==> line[j] == head[j]) && line[k] == q == line[e]
    && (forall j :: k < j < e ==> line[j] == text[j - k - 1])
    && (forall j :: e < j < |line| ==> line[j] == tail[j - e - 1])
  }

  lemma QuotedFirst(head: string, q: char, text: string, tail: string, c: char)
    requires Without(head, MARKS) && EndsPlain(head) && IsQuote(q) && Without(text, "'\"") && (c == ';' || c == '#')
    requires c in text || Without(tail, MARKS)
    ensures !HasCut(head + [q] + text + [q] + tail, c)
  {
    var line := head + [q] + text + [q] + tail;
    assert Quoted(line, head, q, text, tail);
    if c in text {
      MarkInQuotes(line, head, q, text, tail, c);
    } else {
      MarkNowhere(line, head, q, text, tail, c);
    }
  }

  lemma MarkInQuotes(line: string, head: string, q: char, text: string, tail: string, c: char)
    requires Quoted(line, head, q, text, tail) && Without(head, MARKS) && EndsPlain(head) && IsQuote(q)
    requires Without(text, "'\"") && (c == ';' || c == '#') && c in text
    ensures !HasCut(line, c)
  {
    hide Quotes, HasCut;
    var k, i := |head|, Find(text, c, 0);
    forall j | 0 <= j < k + 1 + i ensures line[j] != c && (j != k ==> !IsQuote(line[j])) {
      if j < k {
        assert head[j] !in MARKS;
      } else if j > k {
        assert text[j - k - 1] !in "'\"";
      }
    }
    assert line[k + 1 + i] == text[i] == c;
    OneQuote(line, k, k + 1 + i);
    NoCut(line, c, k + 1 + i);
  }

  lemma MarkNowhere(line: string, head: string, q: char, text: string, tail: string, c: char)
    requires Quoted(line, head, q, text, tail) && Without(head, MARKS) && IsQuote(q) && Without(tail, MARKS)
    requires (c == ';' || c == '#') && c !in text
    ensures !HasCut(line, c)
  {
    hide Quotes, HasCut;
    var k, e := |head|, |head| + 1 + |text|;
    forall j | 0 <= j < |line| ensures line[j] != c {
      if j < k {
        assert head[j] !in MARKS;
      } else if k < j < e {
        assert text[j - k - 1] in text;
      } else if j > e {
        assert tail[j - e - 1] !in MARKS;
      }
    }
    NoMark(line, c);
  }
}
