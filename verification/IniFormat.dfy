/** The text form of a store: what ini_save prints and what ini_load makes of a text. */
module IniFormat {
  import opened Buffers
  import opened Ctype
  import opened IniText
  import opened IniStore

  // ------------------------------------------------------------------- print

  /** The lines of a text, without their line feeds. */
  function CommentLine(c: string): string {
    if c == "" then "" else "; " + c
  }

  function CommentLines(cs: seq<string>): seq<string> {
    seq(|cs|, i requires 0 <= i < |cs| => CommentLine(cs[i]))
  }

  function InlineComment(c: string): string {
    if c == "" then "" else " ; " + c
  }

  function HeaderLine(s: SectionEntry): string {
    "[" + s.name + "]" + InlineComment(s.comment)
  }

  function KeyLine(k: KeyEntry): string {
    k.key + " = " + k.value + InlineComment(k.comment)
  }

  function KeyLines(ks: seq<KeyEntry>): seq<string> {
    if ks == [] then [] else CommentLines(ks[0].before) + [KeyLine(ks[0])] + KeyLines(ks[1..])
  }

  function SectionLines(ss: seq<SectionEntry>): seq<string> {
    if ss == [] then []
    else CommentLines(ss[0].before) + [HeaderLine(ss[0])] + KeyLines(ss[0].keys) + [""] + SectionLines(ss[1..])
  }

  function StoreLines(s: Store): seq<string> {
    CommentLines(s.header) + SectionLines(s.sections)
  }

  /** The text with a line feed behind every line. */
  function Text(lines: seq<string>): string {
    if lines == [] then "" else lines[0] + "\n" + Text(lines[1..])
  }

  /** The file ini_save writes. */
  function Print(s: Store): string {
    Text(StoreLines(s))
  }

  // ------------------------------------------------------------------- parse

  /** The characters one fgets call takes: a line with its line feed, at most MAX_LINE_LENGTH - 1. */
  function Taken(text: string): (n: nat)
    ensures n <= |text| && n <= 1023 && (text != "" ==> n > 0)
    ensures forall i :: 0 <= i < n - 1 ==> text[i] != '\n'
    ensures n == |text| || n == 1023 || (n > 0 && text[n - 1] == '\n')
  {
    var k := Find(text, '\n', 0);
    var whole := if k < |text| then k + 1 else |text|;
    if whole < MAX_LINE_LENGTH then whole else MAX_LINE_LENGTH - 1
  }

  /** The comments waiting for the next key or section: the newest section's, the file's before there is one. */
  function Pending(s: Store): seq<string> {
    if s.sections == [] then s.header else s.sections[0].before
  }

  function SetPending(s: Store, cs: seq<string>): Store {
    if s.sections == [] then s.(header := cs)
    else s.(sections := [s.sections[0].(before := cs)] + s.sections[1..])
  }

  function AddPending(s: Store, text: string): Store {
    SetPending(s, Pending(s) + [Cut(text, MAX_COMMENT_LENGTH)])
  }

  /** The inline comment to store: an absent and an empty one are the same. */
  function StoredComment(c: Option<string>): string {
    if c.Some? then Cut(c.value, MAX_COMMENT_LENGTH) else ""
  }

  /**
   Lines 225 to 258: a section header. The comments waiting for it are dropped. (The line has a '[' before any ']', so
   `end` is never 0.)
   */
  function ParseHeader(s: Store, line: string): Store {
    var sp := SplitComment(line);
    var end := Find(sp.line, ']', 0);
    if end == |sp.line| || end == 0 then s
    else
      var s1 := CreateSection(SetPending(s, []), Trim(sp.line[1..end]));
      s1.(sections := [s1.sections[0].(comment := StoredComment(sp.comment))] + s1.sections[1..])
  }

  /** Lines 260 to 298: a key, which takes the waiting comments. */
  function ParseKey(s: Store, line: string): Store {
    if Find(line, '=', 0) == |line| || s.sections == [] then s
    else
      var sp := SplitComment(line);
      var e := Find(sp.line, '=', 0);
      if e == |sp.line| then s
      else
        var before := Pending(s);
        var s1 := SetPending(s, []);
        var cur := CreateKey(s1.sections[0], Trim(sp.line[..e]));
        var kv := cur.keys[0].(value := Cut(Trim(sp.line[e + 1..]), MAX_VALUE_LENGTH), before := before,
        comment := StoredComment(sp.comment));
        s1.(sections := [cur.(keys := [kv] + cur.keys[1..])] + s1.sections[1..])
  }

  /** The body of the load loop, for a line cut at its first line break. */
  function ParseLine(s: Store, line: string): Store {
    var t := Trim(line);
    if t == "" then AddPending(s, "")
    else if t[0] == ';' || t[0] == '#' then AddPending(s, Trim(t[1..]))
    else if t[0] == '[' then ParseHeader(s, line)
    else ParseKey(s, line)
  }

  function ParseText(s: Store, text: string): Store
    decreases |text|
  {
    if text == "" then s else ParseText(ParseLine(s, UpToBreak(text[..Taken(text)])), text[Taken(text)..])
  }

  /** ini_load: an empty store when the file cannot be opened. */
  function Load(file: Option<string>): Store {
    if file.None? then EMPTY else ParseText(EMPTY, file.value)
  }

  /** One parsed line keeps every stored name inside its buffer, */
  lemma ParseLineKeepsNames(s: Store, line: string)
    requires NamesFit(s)
    ensures NamesFit(ParseLine(s, line))
  {
    hide Trim, SplitComment, Find, StoredComment;
    var s' := ParseLine(s, line);
    if s.sections != [] {
      assert s.sections[0] in s.sections && forall x :: x in s.sections[1..] ==> x in s.sections;
    }
    forall x, k | x in s'.sections && k in x.keys ensures |k.key| < MAX_KEY_LENGTH {
      if x !in s.sections && k !in s.sections[0].keys {
        assert k == x.keys[0];
      }
    }
  }

  /** so a loaded store's names fit. */
  lemma {:induction false} LoadedNamesFit(s: Store, text: string)
    requires NamesFit(s)
    ensures NamesFit(ParseText(s, text))
    decreases |text|
  {
    hide ParseLine, NamesFit, UpToBreak, Taken;
    if text != "" {
      var line := UpToBreak(text[..Taken(text)]);
      ParseLineKeepsNames(s, line);
      LoadedNamesFit(ParseLine(s, line), text[Taken(text)..]);
    }
  }

  function ParseLines(s: Store, lines: seq<string>): Store
    decreases |lines|
  {
    if lines == [] then s else ParseLines(ParseLine(s, lines[0]), lines[1..])
  }

  // -------------------------------------------------------------- the lines

  /** A line fgets takes whole and strcspn leaves whole. */
  predicate WholeLine(l: string) {
    |l| < MAX_LINE_LENGTH - 1 && forall i :: 0 <= i < |l| ==> l[i] != '\n' && l[i] != '\r' && l[i] != '\0'
  }

  lemma {:induction false} UpToBreakOfLine(l: string)
    requires forall i :: 0 <= i < |l| ==> l[i] != '\n' && l[i] != '\r' && l[i] != '\0'
    ensures UpToBreak(l + "\n") == l
  {
    if l != "" {
      assert (l + "\n")[1..] == l[1..] + "\n";
      UpToBreakOfLine(l[1..]);
    }
  }

  lemma TakenLine(l: string, rest: string)
    requires WholeLine(l)
    ensures Taken(l + "\n" + rest) == |l| + 1
    ensures (l + "\n" + rest)[..|l| + 1] == l + "\n" && (l + "\n" + rest)[|l| + 1..] == rest
  {
    var text := l + "\n" + rest;
    assert text[|l|] == '\n';
    assert forall j :: 0 <= j < |l| ==> text[j] == l[j];
    var k := Find(text, '\n', 0);
    assert k == |l|;
  }

  /** Loading a printed text parses its lines one by one. */
  lemma {:induction false} ParsePrintedLines(s: Store, lines: seq<string>)
    requires forall l :: l in lines ==> WholeLine(l)
    ensures ParseText(s, Text(lines)) == ParseLines(s, lines)
    decreases |lines|
  {
    hide ParseLine, Taken, UpToBreak;
    if lines != [] {
      var l, rest := lines[0], Text(lines[1..]);
      TakenLine(l, rest);
      UpToBreakOfLine(l);
      ParsePrintedLines(ParseLine(s, l), lines[1..]);
      assert Text(lines) == l + "\n" + rest;
    }
  }

  lemma {:induction false} ParseAppend(s: Store, a: seq<string>, b: seq<string>)
    ensures ParseLines(s, a + b) == ParseLines(ParseLines(s, a), b)
    decreases |a|
  {
    hide ParseLine;
    if a == [] {
      assert a + b == b;
    } else {
      assert (a + b)[1..] == a[1..] + b;
      ParseAppend(ParseLine(s, a[0]), a[1..], b);
    }
  }

  /** What one fgets takes: at most 1023 characters, the line feed only at the end. */
  predicate Piece(p: string) {
    0 < |p| <= 1023 && forall i :: 0 <= i < |p| - 1 ==> p[i] != '\n'
  }

  /** The pieces of a file: all but the last end with a line feed or are 1023 characters long. */
  predicate Pieces(ps: seq<string>) {
    && (forall i :: 0 <= i < |ps| ==> Piece(ps[i]))
    && forall i :: 0 <= i < |ps| - 1 ==> |ps[i]| == 1023 || ps[i][|ps[i]| - 1] == '\n'
  }

  function Concat(ps: seq<string>): string {
    if ps == [] then "" else ps[0] + Concat(ps[1..])
  }

  /** The lines the pieces stand for. */
  function LinesOf(ps: seq<string>): seq<string> {
    if ps == [] then [] else [UpToBreak(ps[0])] + LinesOf(ps[1..])
  }

  lemma TakenPiece(p: string, rest: string)
    requires Piece(p) && (rest != "" ==> |p| == 1023 || p[|p| - 1] == '\n')
    ensures Taken(p + rest) == |p| && (p + rest)[..|p|] == p && (p + rest)[|p|..] == rest
  {
    hide Taken;
    var text := p + rest;
    var n := Taken(text);
    assert forall i :: 0 <= i < |p| ==> text[i] == p[i];
  }

  /** Any file, long lines and an unfinished last one included: each piece is a line, up to its first break. */
  lemma {:induction false} FileInPieces(s: Store, ps: seq<string>)
    requires Pieces(ps)
    ensures ParseText(s, Concat(ps)) == ParseLines(s, LinesOf(ps))
    decreases |ps|
  {
    hide ParseLine, Taken, UpToBreak;
    if ps != [] {
      var rest := Concat(ps[1..]);
      assert |ps| == 1 ==> rest == "";
      TakenPiece(ps[0], rest);
      assert Pieces(ps[1..]);
      FileInPieces(ParseLine(s, UpToBreak(ps[0])), ps[1..]);
      assert LinesOf(ps)[1..] == LinesOf(ps[1..]);
    }
  }

  /** Every file is a sequence of such pieces. */
  lemma {:induction false} PiecesExist(text: string) returns (ps: seq<string>)
    ensures Pieces(ps) && Concat(ps) == text
    decreases |text|
  {
    hide Taken;
    if text == "" {
      ps := [];
    } else {
      var n := Taken(text);
      var more := PiecesExist(text[n..]);
      ps := [text[..n]] + more;
      assert ps[1..] == more;
      assert more == [] || text[n..] != "" by {
        if more != [] { assert |Concat(more)| >= |more[0]| > 0; }
      }
    }
  }

  // ------------------------------------------------------------ well-formed

  /** No character of a set that means something to the parser. */
  predicate Without(s: string, cs: string) {
    forall i :: 0 <= i < |s| ==> s[i] !in cs
  }

  const BREAKS: string := "\n\r\0"
  const MARKS: string := ";#'\""

  predicate GoodComment(c: string) {
    Trimmed(c) && Without(c, BREAKS) && |c| < MAX_COMMENT_LENGTH
  }

  predicate GoodText(s: string) {
    Trimmed(s) && Without(s, BREAKS) && Without(s, MARKS)
  }

  ghost predicate GoodKey(k: KeyEntry) {
    && GoodText(k.key) && |k.key| < MAX_KEY_LENGTH && Without(k.key, "=") && (k.key != "" ==> k.key[0] != '[')
    && GoodText(k.value) && |k.value| < MAX_VALUE_LENGTH
    && GoodComment(k.comment) && (forall c :: c in k.before ==> GoodComment(c))
    && |KeyLine(k)| < MAX_LINE_LENGTH - 1
  }

  ghost predicate GoodSection(s: SectionEntry) {
    && GoodText(s.name) && |s.name| < MAX_SECTION_LENGTH && Without(s.name, "]")
    && GoodComment(s.comment) && (forall c :: c in s.before ==> GoodComment(c))
    && (forall k :: k in s.keys ==> GoodKey(k))
    && |HeaderLine(s)| < MAX_LINE_LENGTH - 1
  }

  /** A store whose text says everything about it. */
  ghost predicate WellFormed(s: Store) {
    (forall c :: c in s.header ==> GoodComment(c)) && (forall x :: x in s.sections ==> GoodSection(x))
  }

  // ---------------------------------------------------------- one line each

  lemma NoneOf(s: string, cs: string, c: char)
    requires Without(s, cs) && c in cs
    ensures Find(s, c, 0) == |s|
  {
  }

  /** A marker-free text and then an inline comment split where they were joined. */
  lemma SplitInline(body: string, c: string)
    requires Without(body, MARKS) && GoodComment(c)
    ensures var sp := SplitComment(body + InlineComment(c));
            StoredComment(sp.comment) == c && sp.line == if c == "" then body else body + " "
  {
    hide Find, Trim, QuoteOpen, Cut;
    var line := body + InlineComment(c);
    if c == "" {
      assert line == body;
      NoneOf(body, MARKS, ';');
      NoneOf(body, MARKS, '#');
    } else {
      var pos := |body| + 1;
      assert line[pos] == ';' && line[|body|] == ' ' && forall j :: 0 <= j < |body| ==> line[j] == body[j];
      forall j | 0 <= j < pos ensures line[j] != ';' && !IsQuote(line[j]) {
        if j < |body| { assert body[j] !in MARKS; }
      }
      assert Find(line, ';', 0) == pos;
      NoQuotes(line, 0, pos);
      assert line[pos + 1..] == " " + c + "";
      TrimAround(" ", c, "");
      assert line[..pos] == body + " ";
    }
  }

  /** The first character of a line that does not start with a space decides what the line is. */
  lemma FirstOfTrim(line: string)
    requires line != "" && !IsSpace(line[0])
    ensures Trim(line) != "" && Trim(line)[0] == line[0]
  {
    assert TrimStart(line) == line;
    FirstLinesOf(line);
  }

  lemma {:induction false} FirstLinesOf(s: string)
    requires s != "" && !IsSpace(s[0])
    ensures TrimEnd(s) != "" && TrimEnd(s)[0] == s[0]
    decreases |s|
  {
    if IsSpace(s[|s| - 1]) {
      FirstLinesOf(s[..|s| - 1]);
    }
  }

  lemma CutComment(c: string)
    requires GoodComment(c)
    ensures Cut(c, MAX_COMMENT_LENGTH) == c && Cut("", MAX_COMMENT_LENGTH) == ""
  {
  }

  lemma ParseCommentLine(s: Store, c: string)
    requires GoodComment(c)
    ensures ParseLine(s, CommentLine(c)) == SetPending(s, Pending(s) + [c])
  {
    hide SetPending, ParseHeader, ParseKey, Trim, Cut;
    CutComment(c);
    if c == "" {
      TrimAround("", "", "");
      assert "" + "" + "" == "";
    } else {
      var line := "; " + c;
      assert line == "" + line + "";
      TrimAround("", line, "");
      assert line[1..] == " " + c + "";
      TrimAround(" ", c, "");
    }
  }

  /** The name between the brackets. */
  lemma HeaderName(x: SectionEntry, after: string)
    requires GoodSection(x)
    ensures var left := "[" + x.name + "]" + after;
            Find(left, ']', 0) == |x.name| + 1 && Trim(left[1..|x.name| + 1]) == x.name
  {
    hide Trim, Find;
    var left, end := "[" + x.name + "]" + after, |x.name| + 1;
    assert left[end] == ']' && forall j :: 0 < j < end ==> left[j] == x.name[j - 1];
    assert forall j :: 0 <= j < end ==> left[j] != ']';
    assert left[1..end] == "" + x.name + "";
    TrimAround("", x.name, "");
  }

  lemma ParseHeaderLine(s: Store, x: SectionEntry)
    requires GoodSection(x)
    ensures ParseLine(s, HeaderLine(x))
         == Store(SetPending(s, []).header, [SectionEntry(x.name, x.comment, [], [])] + SetPending(s, []).sections)
  {
    hide SetPending, ParseKey, Trim, SplitComment, Find, StoredComment;
    var line := HeaderLine(x);
    var body := "[" + x.name + "]";
    assert line[0] == '[';
    FirstOfTrim(line);
    assert Without(body, MARKS) by {
      forall i | 0 <= i < |body| ensures body[i] !in MARKS {
        if 0 < i < |body| - 1 { assert body[i] == x.name[i - 1]; }
      }
    }
    SplitInline(body, x.comment);
    HeaderName(x, "");
    HeaderName(x, " ");
    assert body + "" == body;
  }

  lemma KeyBodyPlain(k: KeyEntry)
    requires GoodKey(k)
    ensures Without(k.key + " = " + k.value, MARKS)
  {
    var body := k.key + " = " + k.value;
    forall i | 0 <= i < |body| ensures body[i] !in MARKS {
      if i < |k.key| {
        assert body[i] == k.key[i];
      } else if i >= |k.key| + 3 {
        assert body[i] == k.value[i - |k.key| - 3];
      }
    }
  }

  lemma KeyEquals(k: KeyEntry, after: string)
    requires GoodKey(k)
    ensures Find(k.key + " = " + k.value + after, '=', 0) == |k.key| + 1
  {
    hide Find;
    var left := k.key + " = " + k.value + after;
    assert left[|k.key| + 1] == '=' && left[|k.key|] == ' ';
    assert forall j :: 0 <= j < |k.key| ==> left[j] == k.key[j] && k.key[j] !in "=";
  }

  /** The two sides of the equals sign. */
  lemma KeySides(k: KeyEntry, after: string)
    requires GoodKey(k) && Blank(after)
    ensures var left, e := k.key + " = " + k.value + after, |k.key| + 1;
            Trim(left[..e]) == k.key && Trim(left[e + 1..]) == k.value
  {
    hide Trim, Without;
    var left, e := k.key + " = " + k.value + after, |k.key| + 1;
    assert left[..e] == "" + k.key + " ";
    TrimAround("", k.key, " ");
    assert left[e + 1..] == " " + k.value + after;
    TrimAround(" ", k.value, after);
  }

  /** What the parser reads off a key line. */
  lemma KeyLineParts(k: KeyEntry)
    requires GoodKey(k)
    ensures var sp := SplitComment(KeyLine(k));
            var e := Find(sp.line, '=', 0);
            && Find(KeyLine(k), '=', 0) < |KeyLine(k)| && e < |sp.line| && Trim(sp.line[..e]) == k.key
            && Trim(sp.line[e + 1..]) == k.value && StoredComment(sp.comment) == k.comment
  {
    hide Trim, SplitComment, StoredComment, Find, Without, Trimmed;
    var body := k.key + " = " + k.value;
    var after := if k.comment == "" then "" else " ";
    KeyBodyPlain(k);
    SplitInline(body, k.comment);
    assert body + "" == body;
    KeyEquals(k, after);
    KeyEquals(k, InlineComment(k.comment));
    KeySides(k, after);
  }

  lemma ParseKeyLine(s: Store, k: KeyEntry)
    requires GoodKey(k) && s.sections != []
    ensures var cur := s.sections[0];
            ParseLine(s, KeyLine(k)) ==
              s.(sections := [cur.(keys := [k.(before := cur.before)] + cur.keys, before := [])] + s.sections[1..])
  {
    hide ParseHeader, Trim, SplitComment, StoredComment, KeyLine, Find;
    FirstOfKeyLine(k);
    KeyLineParts(k);
    var cur := s.sections[0];
    var s1 := SetPending(s, []);
    assert s1.sections[0] == cur.(before := []) && s1.sections[1..] == s.sections[1..];
    var cur1 := CreateKey(s1.sections[0], k.key);
    assert cur1.keys[1..] == cur.keys;
  }

  lemma {:induction false} FirstOfKeyLine(k: KeyEntry)
    requires GoodKey(k)
    ensures var t := Trim(KeyLine(k)); t != "" && t[0] != ';' && t[0] != '#' && t[0] != '['
  {
    var line := KeyLine(k);
    if k.key != "" {
      assert line[0] == k.key[0];
      FirstOfTrim(line);
      assert k.key[0] !in MARKS;
    } else {
      assert line == " " + line[1..] && line[1] == '=';
      TrimStartSkips(" ", line[1..]);
      FirstOfTrim(line[1..]);
    }
  }
}
