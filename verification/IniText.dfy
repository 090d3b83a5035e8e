/** The string helpers of common/ini.c, on C strings given by their contents. */
module IniText {
  import opened Ctype

  const MAX_LINE_LENGTH: nat := 1024
  const MAX_KEY_LENGTH: nat := 256
  const MAX_VALUE_LENGTH: nat := 512
  const MAX_SECTION_LENGTH: nat := 256
  const MAX_COMMENT_LENGTH: nat := 512

  /** The index of the first c at or after i, |s| if there is none. */
  function Find(s: string, c: char, i: nat): (k: nat)
    requires i <= |s|
    ensures i <= k <= |s| && (k < |s| ==> s[k] == c) && forall j :: i <= j < k ==> s[j] != c
    decreases |s| - i
  {
    if i == |s| || s[i] == c then i else Find(s, c, i + 1)
  }

  /** line[strcspn(line, "\r\n")] = 0, for a buffer that may also hold a NUL. */
  function UpToBreak(s: string): (r: string)
    ensures r <= s && (|r| < |s| ==> s[|r|] in "\r\n\0") && forall i :: 0 <= i < |r| ==> r[i] !in "\r\n\0"
  {
    if s == "" || s[0] == '\r' || s[0] == '\n' || s[0] == '\0' then "" else [s[0]] + UpToBreak(s[1..])
  }

  // -------------------------------------------------------------------- trim

  function TrimStart(s: string): (r: string)
    ensures |r| <= |s| && (r == "" || !IsSpace(r[0]))
  {
    if s != "" && IsSpace(s[0]) then TrimStart(s[1..]) else s
  }

  function TrimEnd(s: string): (r: string)
    ensures |r| <= |s| && r <= s && (r == "" || !IsSpace(r[|r| - 1]))
  {
    if s != "" && IsSpace(s[|s| - 1]) then TrimEnd(s[..|s| - 1]) else s
  }

  /** trim_whitespace */
  function Trim(s: string): (r: string)
    ensures |r| <= |s| && Trimmed(r)
  {
    TrimEnd(TrimStart(s))
  }

  /** No space at either end. */
  predicate Trimmed(s: string) {
    s == "" || (!IsSpace(s[0]) && !IsSpace(s[|s| - 1]))
  }

  predicate Blank(s: string) {
    forall i :: 0 <= i < |s| ==> IsSpace(s[i])
  }

  lemma {:induction false} TrimStartSkips(a: string, s: string)
    requires Blank(a)
    ensures TrimStart(a + s) == TrimStart(s)
  {
    if a == "" {
      assert a + s == s;
    } else {
      assert (a + s)[1..] == a[1..] + s;
      TrimStartSkips(a[1..], s);
    }
  }

  lemma {:induction false} TrimEndSkips(s: string, b: string)
    requires Blank(b)
    ensures TrimEnd(s + b) == TrimEnd(s)
  {
    if b == "" {
      assert s + b == s;
    } else {
      assert (s + b)[..|s + b| - 1] == s + b[..|b| - 1];
      TrimEndSkips(s, b[..|b| - 1]);
    }
  }

  /** Trimming removes what was put around a trimmed string, and nothing else. */
  lemma TrimAround(a: string, s: string, b: string)
    requires Blank(a) && Blank(b) && Trimmed(s)
    ensures Trim(a + s + b) == s
  {
    assert a + s + b == a + (s + b);
    TrimStartSkips(a, s + b);
    if s == "" {
      assert s + b == b && b + "" == b;
      TrimStartSkips(b, "");
    } else {
      assert TrimStart(s + b) == s + b;
      TrimEndSkips(s, b);
    }
  }

  lemma TrimStartStep(s: string, i: nat)
    requires i < |s|
    ensures TrimStart(s[i..]) == if IsSpace(s[i]) then TrimStart(s[i + 1..]) else s[i..]
  {
    assert s[i..][1..] == s[i + 1..];
  }

  lemma TrimEndStep(s: string, i: nat, end: nat)
    requires i <= end < |s|
    ensures TrimEnd(s[i..end + 1]) == if IsSpace(s[end]) then TrimEnd(s[i..end]) else s[i..end + 1]
  {
    assert s[i..end + 1][..end - i] == s[i..end];
  }

  /** trim_whitespace as the source runs it: two cursors that move inwards. */
  method TrimWhitespace(str: string) returns (r: string)
    ensures r == Trim(str)
  {
    hide TrimStart, TrimEnd, IsSpace;
    var start := 0;
    assert str[0..] == str;
    while start < |str| && IsSpace(str[start])
      invariant start <= |str| && TrimStart(str) == TrimStart(str[start..])
    {
      TrimStartStep(str, start);
      start := start + 1;
    }
    if start == |str| {
      NothingLeft();
      return "";
    }
    TrimStartStep(str, start);
    var end := |str| - 1;
    assert str[start..end + 1] == str[start..];
    while end > start && IsSpace(str[end])
      invariant start <= end < |str| && Trim(str) == TrimEnd(str[start..end + 1])
    {
      TrimEndStep(str, start, end);
      end := end - 1;
    }
    TrimEndStep(str, start, end);
    r := str[start..end + 1];
  }

  lemma NothingLeft()
    ensures TrimStart("") == "" && TrimEnd("") == ""
  {
  }

  // ---------------------------------------------------------------- comments

  predicate IsQuote(c: char) {
    c == '"' || c == '\''
  }

  /** Is a quote open at position end, scanning from i? A backslash takes the quote behind it away. */
  predicate QuoteOpen(s: string, i: nat, end: nat, open: bool)
    requires end <= |s|
    decreases end - i
  {
    if i >= end then open
    else if IsQuote(s[i]) then QuoteOpen(s, i + 1, end, !open)
    else if s[i] == '\\' && i + 1 < |s| && IsQuote(s[i + 1]) then QuoteOpen(s, i + 2, end, open)
    else QuoteOpen(s, i + 1, end, open)
  }

  datatype Option<T> = None | Some(value: T)

  /** A line after extract_comment: what is left of it, and the comment if there is one. */
  datatype Split = Split(line: string, comment: Option<string>)

  /** extract_comment */
  function ExtractComment(line: string, c: char): (r: Split)
    ensures r.line <= line
  {
    var pos := Find(line, c, 0);
    if pos == |line| || QuoteOpen(line, 0, pos, false) then Split(line, None)
    else Split(line[..pos], Some(Trim(line[pos + 1..])))
  }

  /** The two calls the parser makes: a semicolon comment, else a hash comment. */
  function SplitComment(line: string): (r: Split)
    ensures r.line <= line
  {
    var s := ExtractComment(line, ';');
    if s.comment.Some? then s else ExtractComment(line, '#')
  }

  /** The quote scan of extract_comment. */
  method ExtractCommentLoop(line: string, c: char) returns (r: Split)
    ensures r == ExtractComment(line, c)
  {
    var pos := Find(line, c, 0);
    if pos == |line| {
      return Split(line, None);
    }
    var open, check := false, 0;
    while check < pos
      invariant QuoteOpen(line, 0, pos, false) == QuoteOpen(line, check, pos, open)
      decreases pos - check
    {
      if IsQuote(line[check]) {
        open := !open;
      } else if line[check] == '\\' && check + 1 < |line| && IsQuote(line[check + 1]) {
        check := check + 1;
      }
      check := check + 1;
    }
    if open {
      return Split(line, None);
    }
    var text := TrimWhitespace(line[pos + 1..]);
    r := Split(line[..pos], Some(text));
  }

  lemma {:induction false} NoQuotes(s: string, i: nat, end: nat)
    requires end <= |s| && forall j :: i <= j < end ==> !IsQuote(s[j])
    requires end < |s| ==> !IsQuote(s[end])
    ensures !QuoteOpen(s, i, end, false)
    decreases end - i
  {
    if i < end {
      if s[i] == '\\' && i + 1 < |s| && IsQuote(s[i + 1]) {
        assert false;
      }
      NoQuotes(s, i + 1, end);
    }
  }
}
