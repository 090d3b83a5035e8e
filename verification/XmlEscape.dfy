/** xml_escape and the buffers of write_page, plugin_mono/source/pkg_broswer.c. */
module XmlEscape {
  import opened Buffers

  const PKG_MAX_PATH_LEN: nat := 512

  function Entity(c: char): (e: string)
    ensures 0 < |e| <= 6
  {
    if c == '&' then "&amp;"
    else if c == '<' then "&lt;"
    else if c == '>' then "&gt;"
    else if c == '"' then "&quot;"
    else if c == '\'' then "&apos;"
    else [c]
  }

  /** The escaped text with no limit. */
  function Escape(s: string): string {
    if s == "" then "" else Entity(s[0]) + Escape(s[1..])
  }

  /** How many characters are escaped before less than seven bytes are free. */
  function Taken(s: string, room: nat): (n: nat)
    ensures n <= |s|
  {
    if s == "" || room <= 6 then 0 else 1 + Taken(s[1..], room - |Entity(s[0])|)
  }

  // -------------------------------------------------------------- the method

  /** The loop over the input; nothing is written when the buffer has no byte at all. */
  method EscapeInto(input: string, out: array<char>, out_sz: nat)
    requires out_sz <= out.Length
    modifies out
    ensures out_sz == 0 ==> out[..] == old(out[..])
    ensures out_sz > 0 ==>
              var r := Escape(input[..Taken(input, out_sz)]);
              |r| < out_sz && out[..] == Over(old(out[..]), 0, r + "\0")
  {
    hide Escape, Taken, Entity, Over;
    if out_sz == 0 {
      return;
    }
    var o, p := 0, 0;
    ghost var buffer, done := out[..], "";
    assert input[0..] == input && input[..0] == "";
    EscapeNothing();
    OverNothing(buffer, 0);
    while p < |input| && o + 6 < out_sz
      invariant 0 <= p <= |input| && 0 <= o == |done| < out_sz
      invariant done == Escape(input[..p]) && out[..] == Over(buffer, 0, done)
      invariant Taken(input, out_sz) == p + Taken(input[p..], out_sz - o)
    {
      var e := Entity(input[p]);
      assert input[p..][1..] == input[p + 1..];
      TakenStep(input[p..], out_sz - o);
      EscapeAppend(input[..p], [input[p]]);
      EscapeOne(input[p]);
      assert input[..p] + [input[p]] == input[..p + 1];
      Memcpy(out, o, e);
      OverTwice(buffer, 0, done, e);
      o, p, done := o + |e|, p + 1, done + e;
    }
    TakenStep(input[p..], out_sz - o);
    Put(out, o, '\0');
    OverTwice(buffer, 0, done, "\0");
  }

  lemma EscapeNothing()
    ensures Escape("") == ""
  {
  }

  lemma EscapeOne(c: char)
    ensures Escape([c]) == Entity(c)
  {
    assert [c][1..] == "";
  }

  lemma TakenStep(s: string, room: nat)
    ensures Taken(s, room) == if s == "" || room <= 6 then 0 else 1 + Taken(s[1..], room - |Entity(s[0])|)
  {
  }

  lemma {:induction false} EscapeAppend(a: string, b: string)
    ensures Escape(a + b) == Escape(a) + Escape(b)
  {
    if a == "" {
      assert a + b == b;
    } else {
      assert (a + b)[1..] == a[1..] + b;
      EscapeAppend(a[1..], b);
    }
  }

  // ----------------------------------------------------------- where it cuts

  /** The cut is at the first character that finds less than seven bytes free. */
  lemma {:induction false} CutIsFirst(s: string, room: nat)
    requires room > 0
    ensures var n := Taken(s, room);
            && |Escape(s[..n])| < room && (n == |s| || |Escape(s[..n])| + 6 >= room)
            && forall m :: 0 <= m < n ==> |Escape(s[..m])| + 6 < room
  {
    hide Escape, Entity;
    EscapeNothing();
    assert s[..0] == "";
    if s != "" && room > 6 {
      var k := |Entity(s[0])|;
      CutIsFirst(s[1..], room - k);
      var n := Taken(s, room);
      forall m | 0 < m <= n ensures |Escape(s[..m])| == k + |Escape(s[1..][..m - 1])| {
        assert s[..m] == [s[0]] + s[1..][..m - 1];
        EscapeAppend([s[0]], s[1..][..m - 1]);
        EscapeOne(s[0]);
      }
    }
  }

  /** The whole input is escaped exactly when its last character still finds seven bytes free. */
  lemma WholeIff(s: string, room: nat)
    requires room > 0
    ensures Taken(s, room) == |s| <==> s == "" || |Escape(s[..|s| - 1])| + 6 < room
  {
    hide Escape, Taken;
    CutIsFirst(s, room);
    var n := Taken(s, room);
    if s != "" && n < |s| {
      assert s[..|s| - 1] == s[..n] + s[n..|s| - 1];
      EscapeAppend(s[..n], s[n..|s| - 1]);
    }
  }

  lemma {:induction false} EscapeSize(s: string)
    ensures |s| <= |Escape(s)| <= 6 * |s|
  {
    if s != "" {
      EscapeSize(s[1..]);
    }
  }

  /** Six bytes for every character are enough. */
  lemma SixTimesIsEnough(s: string, room: nat)
    requires room > 6 * |s|
    ensures Taken(s, room) == |s|
  {
    WholeIff(s, room);
    if s != "" {
      EscapeSize(s[..|s| - 1]);
    }
  }

  // ------------------------------------------------------------ reading back

  /** A reference at the start of a text, and the character it stands for. */
  datatype Reference = NoReference | Reference(text: string, stands: char)

  /** The predefined entities (section 4.6 of XML 1.0) and the one character reference write_page uses. */
  function ReferenceAt(t: string): (r: Reference)
    ensures r.Reference? ==> r.text <= t && r.text != ""
  {
    if "&amp;" <= t then Reference("&amp;", '&')
    else if "&lt;" <= t then Reference("&lt;", '<')
    else if "&gt;" <= t then Reference("&gt;", '>')
    else if "&quot;" <= t then Reference("&quot;", '"')
    else if "&apos;" <= t then Reference("&apos;", '\'')
    else if "&#xa;" <= t then Reference("&#xa;", '\n')
    else NoReference
  }

  /** What an XML processor reads. */
  function Unescape(t: string): string {
    if t == "" then ""
    else
      var r := ReferenceAt(t);
      if r.NoReference? then [t[0]] + Unescape(t[1..]) else [r.stands] + Unescape(t[|r.text|..])
  }

  lemma UnescapeStep(t: string)
    requires t != ""
    ensures var r := ReferenceAt(t);
            Unescape(t) == if r.NoReference? then [t[0]] + Unescape(t[1..]) else [r.stands] + Unescape(t[|r.text|..])
  {
    hide ReferenceAt;
  }

  /** An entity is recognized as itself, whatever follows. */
  lemma EntityIsReference(c: char, t: string)
    ensures ReferenceAt(Entity(c) + t) == if Entity(c) == [c] then NoReference else Reference(Entity(c), c)
  {
    var u := Entity(c) + t;
    assert Entity(c) <= u && u[0] == Entity(c)[0];
    if c == '>' || c == '<' || c == '"' {
      assert u[1] == Entity(c)[1];
    } else if c == '\'' || c == '&' {
      assert u[2] == Entity(c)[2];
    }
  }

  lemma UnescapeEntity(c: char, t: string)
    ensures Unescape(Entity(c) + t) == [c] + Unescape(t)
  {
    hide Unescape, Entity, ReferenceAt;
    UnescapeStep(Entity(c) + t);
    EntityIsReference(c, t);
    assert (Entity(c) + t)[|Entity(c)|..] == t;
  }

  /** What was escaped is read back, and what stands behind it is not touched. */
  lemma {:induction false} UnescapeAfterEscape(s: string, t: string)
    ensures Unescape(Escape(s) + t) == s + Unescape(t)
  {
    hide Unescape, Entity;
    if s == "" {
      assert Escape(s) + t == t && s + Unescape(t) == Unescape(t);
    } else {
      var rest := Escape(s[1..]) + t;
      assert Escape(s) + t == Entity(s[0]) + rest;
      UnescapeEntity(s[0], rest);
      UnescapeAfterEscape(s[1..], t);
      assert s == [s[0]] + s[1..];
    }
  }

  /** So the buffer always reads back to a prefix of the input. */
  lemma BufferReadsBack(s: string, room: nat)
    ensures Unescape(Escape(s[..Taken(s, room)])) == s[..Taken(s, room)]
  {
    hide Unescape, Escape, Taken;
    var n := Taken(s, room);
    UnescapeAfterEscape(s[..n], "");
    UnescapeNothing();
    assert Escape(s[..n]) + "" == Escape(s[..n]) && s[..n] + "" == s[..n];
  }

  lemma UnescapeNothing()
    ensures Unescape("") == ""
  {
  }

  /** Nothing that ends an attribute value or starts a tag is left. */
  lemma {:induction false} NoMarkupLeft(s: string)
    ensures forall i :: 0 <= i < |Escape(s)| ==> Escape(s)[i] !in "<>\"'"
  {
    if s != "" {
      NoMarkupLeft(s[1..]);
      var e := Entity(s[0]);
      assert forall i :: 0 <= i < |e| ==> e[i] !in "<>\"'";
    }
  }

  // -------------------------------------------------------------- write_page

  const BEFORE_PATH: string := "Install package from "
  const BEFORE_SIZE: string := "Size: "

  /** The description attribute of an entry. */
  function Description(path: string, size: string): string {
    BEFORE_PATH + Escape(path) + "&#xa;" + BEFORE_SIZE + size
  }

  /**
   The three buffers of a list entry hold the whole escaped path, title and description, and the description reads
   back to the path and the size on two lines.
   */
  lemma PageHoldsEverything(path: string, title: string, size: string)
    requires |path| < PKG_MAX_PATH_LEN && |title| < 64 && |size| < 24
    ensures Taken(path, PKG_MAX_PATH_LEN * 6) == |path| && Taken(title, 64 * 6) == |title|
    ensures Cut(Description(path, size), PKG_MAX_PATH_LEN * 6 + 128) == Description(path, size)
    ensures Unescape(Description(path, size)) == BEFORE_PATH + path + "\n" + BEFORE_SIZE + Unescape(size)
  {
    hide Escape, Taken, Unescape;
    SixTimesIsEnough(path, PKG_MAX_PATH_LEN * 6);
    SixTimesIsEnough(title, 64 * 6);
    EscapeSize(path);
    ReadsBack(BEFORE_PATH, path, BEFORE_SIZE, size);
  }

  lemma ReadsBack(a: string, path: string, b: string, size: string)
    requires Plain(a) && Plain(b)
    ensures Unescape(a + Escape(path) + "&#xa;" + b + size) == a + path + "\n" + b + Unescape(size)
  {
    hide Escape, Unescape, Plain;
    var line := b + size;
    var tail := "&#xa;" + line;
    assert a + Escape(path) + "&#xa;" + b + size == a + (Escape(path) + tail);
    PlainEscape(a);
    UnescapeAfterEscape(a, Escape(path) + tail);
    UnescapeAfterEscape(path, tail);
    UnescapeBreak(line);
    PlainEscape(b);
    UnescapeAfterEscape(b, size);
  }

  /** A text without the five characters. */
  predicate Plain(s: string) {
    forall i :: 0 <= i < |s| ==> s[i] != '&' && s[i] != '<' && s[i] != '>' && s[i] != '"' && s[i] != '\''
  }

  lemma {:induction false} PlainEscape(s: string)
    requires Plain(s)
    ensures Escape(s) == s
  {
    if s != "" {
      PlainEscape(s[1..]);
      assert s == [s[0]] + s[1..];
    }
  }

  lemma UnescapeBreak(t: string)
    ensures Unescape("&#xa;" + t) == "\n" + Unescape(t)
  {
    hide Unescape;
    var u := "&#xa;" + t;
    UnescapeStep(u);
    assert u[1] == '#' && "&#xa;" <= u && u[5..] == t;
  }
}
