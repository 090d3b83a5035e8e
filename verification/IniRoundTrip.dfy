/** Saving and loading an INI store: the same contents in reversed order, and after two cycles in the old order. */
module IniRoundTrip {
  import opened Buffers
  import opened IniText
  import opened IniStore
  import opened IniFormat

  function Reversed<T>(s: seq<T>): (r: seq<T>)
    ensures |r| == |s|
  {
    if s == [] then [] else Reversed(s[1..]) + [s[0]]
  }

  lemma {:induction false} ReversedAt<T>(s: seq<T>, i: nat)
    requires i < |s|
    ensures Reversed(s)[i] == s[|s| - 1 - i]
  {
    if i < |s| - 1 {
      ReversedAt(s[1..], i);
    }
  }

  lemma ReversedTwice<T>(s: seq<T>)
    ensures Reversed(Reversed(s)) == s
  {
    forall i | 0 <= i < |s| ensures Reversed(Reversed(s))[i] == s[i] {
      ReversedAt(Reversed(s), i);
      ReversedAt(s, |s| - 1 - i);
    }
  }

  lemma ReversedElements<T>(s: seq<T>)
    ensures forall x :: x in Reversed(s) ==> x in s
  {
    forall x | x in Reversed(s) ensures x in s {
      var i :| 0 <= i < |s| && Reversed(s)[i] == x;
      ReversedAt(s, i);
    }
  }

  /** A section as a reload leaves it: keys reversed, its own leading comments replaced. */
  function Reloaded(x: SectionEntry, before: seq<string>): SectionEntry {
    SectionEntry(x.name, x.comment, before, Reversed(x.keys))
  }

  function ReloadedSections(ss: seq<SectionEntry>): (r: seq<SectionEntry>)
    ensures |r| == |ss|
    ensures forall i :: 0 <= i < |ss| ==> r[i] == Reloaded(ss[|ss| - 1 - i], if i == 0 then [""] else [])
  {
    seq(|ss|, i requires 0 <= i < |ss| =>
      Reloaded(ss[|ss| - 1 - i], if i == 0 then [""] else []))
  }

  /**
   What a save and a load make of a store: the header comments survive only without sections; the blank line behind
   the last section waits there for a key that does not come.
   */
  function ReloadedStore(s: Store): Store {
    if s.sections == [] then Store(s.header, []) else Store([], ReloadedSections(s.sections))
  }

  lemma ReloadedAt(s: Store, i: nat)
    requires i < |s.sections|
    ensures |ReloadedStore(s).sections| == |s.sections|
    ensures var x, y := ReloadedStore(s).sections[i], s.sections[|s.sections| - 1 - i];
            x.name == y.name && x.comment == y.comment && x.keys == Reversed(y.keys)
  {
  }

  // ------------------------------------------------------------ parsing print

  lemma {:induction false} ParseComments(s: Store, cs: seq<string>)
    requires forall c :: c in cs ==> GoodComment(c)
    ensures ParseLines(s, CommentLines(cs)) == SetPending(s, Pending(s) + cs)
    decreases |cs|
  {
    hide ParseLine, CommentLine, GoodComment;
    if cs == [] {
      assert Pending(s) + cs == Pending(s);
      assert SetPending(s, Pending(s)) == s;
    } else {
      assert CommentLines(cs)[1..] == CommentLines(cs[1..]);
      var s1 := SetPending(s, Pending(s) + [cs[0]]);
      ParseCommentLine(s, cs[0]);
      ParseComments(s1, cs[1..]);
      assert Pending(s) + [cs[0]] + cs[1..] == Pending(s) + cs;
    }
  }

  /** The store with these keys put before the newest section's, last one first. */
  function WithKeys(s: Store, ks: seq<KeyEntry>): Store
    requires s.sections != []
  {
    s.(sections := [s.sections[0].(keys := Reversed(ks) + s.sections[0].keys)] + s.sections[1..])
  }

  lemma ParseOneKey(s: Store, k: KeyEntry)
    requires GoodKey(k) && s.sections != [] && s.sections[0].before == []
    ensures ParseLines(s, CommentLines(k.before) + [KeyLine(k)]) == WithKeys(s, [k])
  {
    hide ParseLine, GoodComment, KeyLine, CommentLines;
    var s1 := SetPending(s, k.before);
    ParseComments(s, k.before);
    assert [] + k.before == k.before;
    ParseAppend(s, CommentLines(k.before), [KeyLine(k)]);
    ParseKeyLine(s1, k);
    OneLine(s1, KeyLine(k));
    var cur := s.sections[0];
    assert s1.sections[1..] == s.sections[1..];
    assert Reversed([k]) == [k];
  }

  lemma OneLine(s: Store, l: string)
    ensures ParseLines(s, [l]) == ParseLine(s, l)
  {
    hide ParseLine;
    assert [l][1..] == [];
  }

  lemma {:induction false} ParseKeys(s: Store, ks: seq<KeyEntry>)
    requires s.sections != [] && s.sections[0].before == [] && forall k :: k in ks ==> GoodKey(k)
    ensures ParseLines(s, KeyLines(ks)) == WithKeys(s, ks)
    decreases |ks|
  {
    hide ParseLine, GoodKey, KeyLine, CommentLines;
    if ks == [] {
      assert Reversed(ks) + s.sections[0].keys == s.sections[0].keys;
      assert [s.sections[0]] + s.sections[1..] == s.sections;
    } else {
      var s1 := WithKeys(s, [ks[0]]);
      ParseOneKey(s, ks[0]);
      ParseAppend(s, CommentLines(ks[0].before) + [KeyLine(ks[0])], KeyLines(ks[1..]));
      ParseKeys(s1, ks[1..]);
      assert Reversed([ks[0]]) == [ks[0]];
      assert Reversed(ks[1..]) + ([ks[0]] + s.sections[0].keys) == Reversed(ks) + s.sections[0].keys;
    }
  }

  /** The store after one more section was read: whatever comments were waiting are gone. */
  function WithSection(s: Store, x: SectionEntry): Store {
    var s1 := SetPending(s, []);
    Store(s1.header, [Reloaded(x, [""])] + s1.sections)
  }

  lemma ParseOneSection(s: Store, x: SectionEntry)
    requires GoodSection(x)
    ensures ParseLines(s, CommentLines(x.before) + [HeaderLine(x)] + KeyLines(x.keys) + [""]) == WithSection(s, x)
  {
    assert GoodComment("");
    hide ParseLine, GoodComment, KeyLines, CommentLines, HeaderLine;
    var a, b := CommentLines(x.before), [HeaderLine(x)];
    var s1 := SetPending(s, Pending(s) + x.before);
    ParseComments(s, x.before);
    ParseAppend(s, a, b);
    ParseHeaderLine(s1, x);
    OneLine(s1, HeaderLine(x));
    var cleared := SetPending(s, []);
    assert SetPending(s1, []) == cleared;
    var s2 := Store(cleared.header, [SectionEntry(x.name, x.comment, [], [])] + cleared.sections);
    assert ParseLines(s, a + b) == s2;
    ParseAppend(s, a + b, KeyLines(x.keys));
    ParseKeys(s2, x.keys);
    assert Reversed(x.keys) + [] == Reversed(x.keys);
    var s3 := WithKeys(s2, x.keys);
    ParseAppend(s, a + b + KeyLines(x.keys), [""]);
    OneLine(s3, "");
    ParseCommentLine(s3, "");
    assert [] + [""] == [""];
  }

  /** Reading the sections one after the other. */
  function WithSections(s: Store, ss: seq<SectionEntry>): Store
    decreases |ss|
  {
    if ss == [] then s else WithSections(WithSection(s, ss[0]), ss[1..])
  }

  lemma {:induction false} ParseSections(s: Store, ss: seq<SectionEntry>)
    requires forall x :: x in ss ==> GoodSection(x)
    ensures ParseLines(s, SectionLines(ss)) == WithSections(s, ss)
    decreases |ss|
  {
    hide ParseLine, GoodSection, KeyLines, CommentLines, HeaderLine, WithSection;
    if ss != [] {
      ParseOneSection(s, ss[0]);
      ParseAppend(s, CommentLines(ss[0].before) + [HeaderLine(ss[0])] + KeyLines(ss[0].keys) + [""],
        SectionLines(ss[1..]));
      ParseSections(WithSection(s, ss[0]), ss[1..]);
    }
  }

  /** The sections read so far, closed form: they are the reloaded ones in front of what was there. */
  lemma {:induction false} SectionsRead(s: Store, ss: seq<SectionEntry>)
    requires ss != []
    ensures WithSections(s, ss)
         == Store(SetPending(s, []).header, ReloadedSections(ss) + SetPending(s, []).sections)
    decreases |ss|
  {
    var s1 := WithSection(s, ss[0]);
    if |ss| == 1 {
      assert ss[1..] == [];
      assert WithSections(s, ss) == s1;
      assert ReloadedSections(ss) == [Reloaded(ss[0], [""])];
    } else {
      SectionsRead(s1, ss[1..]);
      var rest := SetPending(s, []).sections;
      assert SetPending(s1, []).sections == [Reloaded(ss[0], [])] + rest;
      assert ReloadedSections(ss) == ReloadedSections(ss[1..]) + [Reloaded(ss[0], [])];
    }
  }

  // ---------------------------------------------------------------- theorems

  lemma CommentLineWhole(c: string)
    requires GoodComment(c)
    ensures WholeLine(CommentLine(c))
  {
    forall i | 0 <= i < |CommentLine(c)| ensures CommentLine(c)[i] !in BREAKS {
      if c != "" && i >= 2 { assert CommentLine(c)[i] == c[i - 2]; }
    }
    NoBreaks(CommentLine(c));
  }

  lemma NoBreaks(l: string)
    requires Without(l, BREAKS)
    ensures forall i :: 0 <= i < |l| ==> l[i] != '\n' && l[i] != '\r' && l[i] != '\0'
  {
    forall i | 0 <= i < |l| ensures l[i] != '\n' && l[i] != '\r' && l[i] != '\0' {
      assert l[i] !in BREAKS;
      assert BREAKS[0] == '\n' && BREAKS[1] == '\r' && BREAKS[2] == '\0';
    }
  }

  lemma WithoutAppend(a: string, b: string, cs: string)
    requires Without(a, cs) && Without(b, cs)
    ensures Without(a + b, cs)
  {
  }

  lemma InlineWhole(c: string)
    requires GoodComment(c)
    ensures Without(InlineComment(c), BREAKS)
  {
    if c != "" {
      assert Without(" ; ", BREAKS);
      WithoutAppend(" ; ", c, BREAKS);
    }
  }

  lemma KeyLineWhole(k: KeyEntry)
    requires GoodKey(k)
    ensures WholeLine(KeyLine(k))
  {
    assert Without(" = ", BREAKS);
    WithoutAppend(k.key, " = ", BREAKS);
    WithoutAppend(k.key + " = ", k.value, BREAKS);
    InlineWhole(k.comment);
    WithoutAppend(k.key + " = " + k.value, InlineComment(k.comment), BREAKS);
    NoBreaks(KeyLine(k));
  }

  lemma HeaderLineWhole(x: SectionEntry)
    requires GoodSection(x)
    ensures WholeLine(HeaderLine(x))
  {
    assert Without("[", BREAKS) && Without("]", BREAKS);
    WithoutAppend("[", x.name, BREAKS);
    WithoutAppend("[" + x.name, "]", BREAKS);
    InlineWhole(x.comment);
    WithoutAppend("[" + x.name + "]", InlineComment(x.comment), BREAKS);
    NoBreaks(HeaderLine(x));
  }

  lemma CommentLinesWhole(cs: seq<string>)
    requires forall c :: c in cs ==> GoodComment(c)
    ensures forall l :: l in CommentLines(cs) ==> WholeLine(l)
  {
    forall l | l in CommentLines(cs) ensures WholeLine(l) {
      var i :| 0 <= i < |cs| && l == CommentLine(cs[i]);
      CommentLineWhole(cs[i]);
    }
  }

  lemma {:induction false} KeyLinesWhole(ks: seq<KeyEntry>)
    requires forall k :: k in ks ==> GoodKey(k)
    ensures forall l :: l in KeyLines(ks) ==> WholeLine(l)
  {
    hide WholeLine, KeyLine, CommentLines;
    if ks != [] {
      assert GoodKey(ks[0]);
      CommentLinesWhole(ks[0].before);
      KeyLineWhole(ks[0]);
      KeyLinesWhole(ks[1..]);
    }
  }

  lemma {:induction false} SectionLinesWhole(ss: seq<SectionEntry>)
    requires forall x :: x in ss ==> GoodSection(x)
    ensures forall l :: l in SectionLines(ss) ==> WholeLine(l)
  {
    if ss != [] {
      assert WholeLine("");
      hide WholeLine, HeaderLine, CommentLines, KeyLines;
      assert GoodSection(ss[0]);
      CommentLinesWhole(ss[0].before);
      HeaderLineWhole(ss[0]);
      KeyLinesWhole(ss[0].keys);
      SectionLinesWhole(ss[1..]);
    }
  }

  /** Loading what was saved. */
  lemma LoadOfSave(s: Store)
    requires WellFormed(s)
    ensures Load(Some(Print(s))) == ReloadedStore(s)
  {
    hide ParseText, ParseLine, WholeLine, GoodComment, GoodSection, SectionLines, CommentLines;
    CommentLinesWhole(s.header);
    SectionLinesWhole(s.sections);
    ParsePrintedLines(EMPTY, StoreLines(s));
    ParseAppend(EMPTY, CommentLines(s.header), SectionLines(s.sections));
    ParseComments(EMPTY, s.header);
    assert [] + s.header == s.header;
    var s1 := Store(s.header, []);
    ParseSections(s1, s.sections);
    if s.sections != [] {
      SectionsRead(s1, s.sections);
      assert ReloadedSections(s.sections) + [] == ReloadedSections(s.sections);
    }
  }

  /** Same sections and keys, in this order, with every value, inline comment and key comment. */
  ghost predicate SameContent(a: Store, b: Store) {
    |a.sections| == |b.sections| && forall i :: 0 <= i < |a.sections| ==>
      && a.sections[i].name == b.sections[i].name && a.sections[i].comment == b.sections[i].comment
      && a.sections[i].keys == b.sections[i].keys
  }

  /** The order a reload produces, contents untouched. */
  function InReverse(s: Store): Store {
    s.(sections := seq(|s.sections|, i requires 0 <= i < |s.sections| =>
      var x := s.sections[|s.sections| - 1 - i]; x.(keys := Reversed(x.keys))))
  }

  /** One save and load keep the contents and reverse the order of the sections and of the keys in each. */
  lemma OneCycle(s: Store)
    requires WellFormed(s)
    ensures SameContent(Load(Some(Print(s))), InReverse(s))
  {
    hide Load, Print, WellFormed, ReloadedStore;
    LoadOfSave(s);
    ReloadedSize(s);
    forall i | 0 <= i < |s.sections|
      ensures var x, y := ReloadedStore(s).sections[i], InReverse(s).sections[i];
              x.name == y.name && x.comment == y.comment && x.keys == y.keys
    {
      ReloadedAt(s, i);
    }
  }

  lemma ReloadedSize(s: Store)
    ensures |ReloadedStore(s).sections| == |s.sections|
  {
  }

  lemma ReloadedSectionGood(y: SectionEntry, waiting: seq<string>)
    requires GoodSection(y) && forall c :: c in waiting ==> c == ""
    ensures GoodSection(Reloaded(y, waiting))
  {
    assert GoodComment("");
    hide GoodKey, GoodText, GoodComment, Without, Reversed;
    ReversedElements(y.keys);
    assert HeaderLine(Reloaded(y, waiting)) == HeaderLine(y);
  }

  lemma ReloadedWellFormed(s: Store)
    requires WellFormed(s)
    ensures WellFormed(ReloadedStore(s))
  {
    hide GoodSection, GoodComment, Reloaded;
    var ss := s.sections;
    forall i | 0 <= i < |ss| ensures GoodSection(ReloadedSections(ss)[i]) {
      assert ss[|ss| - 1 - i] in ss;
      ReloadedSectionGood(ss[|ss| - 1 - i], if i == 0 then [""] else []);
    }
  }

  /** Two save and load cycles restore the exact order. */
  lemma TwoCycles(s: Store)
    requires WellFormed(s)
    ensures SameContent(Load(Some(Print(Load(Some(Print(s)))))), s)
  {
    hide Load, Print, WellFormed, ReloadedStore;
    var r := ReloadedStore(s);
    LoadOfSave(s);
    ReloadedWellFormed(s);
    LoadOfSave(r);
    ReloadedSize(s);
    ReloadedSize(r);
    forall i | 0 <= i < |s.sections|
      ensures var x, y := ReloadedStore(r).sections[i], s.sections[i];
              x.name == y.name && x.comment == y.comment && x.keys == y.keys
    {
      ReloadedAt(r, i);
      ReloadedAt(s, |s.sections| - 1 - i);
      ReversedTwice(s.sections[i].keys);
    }
  }

  /** With distinct names no answer of ini_get changes. */
  lemma GetAfterCycle(s: Store, section: string, key: string)
    requires WellFormed(s) && Distinct(s)
    ensures Get(Load(Some(Print(s))), section, key) == Get(s, section, key)
    ensures Distinct(Load(Some(Print(s))))
  {
    hide Load, Print, WellFormed, FindSection, FindKey, Reversed, ReloadedStore;
    LoadOfSave(s);
    ReloadedSize(s);
    var ss, r := s.sections, ReloadedStore(s).sections;
    var n := |ss|;
    forall i | 0 <= i < n ensures r[i].name == ss[n - 1 - i].name && r[i].keys == Reversed(ss[n - 1 - i].keys) {
      ReloadedAt(s, i);
    }
    forall i | 0 <= i < n ensures DistinctKeys(r[i].keys) {
      ReversedDistinct(ss[n - 1 - i].keys);
    }
    var i := FindSection(ss, section);
    if i < n {
      FoundSection(r, section, n - 1 - i);
      ReversedKeyLookup(ss[i].keys, key);
    } else {
      NoSection(r, section);
    }
  }

  lemma ReversedDistinct(ks: seq<KeyEntry>)
    requires DistinctKeys(ks)
    ensures DistinctKeys(Reversed(ks))
  {
    forall i | 0 <= i < |ks| ensures Reversed(ks)[i] == ks[|ks| - 1 - i] {
      ReversedAt(ks, i);
    }
  }

  lemma ReversedKeyLookup(ks: seq<KeyEntry>, key: string)
    requires DistinctKeys(ks)
    ensures var j, j' := FindKey(ks, key), FindKey(Reversed(ks), key);
            (j == |ks| <==> j' == |ks|) && (j < |ks| ==> j' < |ks| && Reversed(ks)[j'] == ks[j])
  {
    hide FindKey, Reversed;
    var r, j := Reversed(ks), FindKey(ks, key);
    forall i | 0 <= i < |ks| ensures r[i] == ks[|ks| - 1 - i] {
      ReversedAt(ks, i);
    }
    if j < |ks| {
      FoundKey(r, key, |ks| - 1 - j);
    } else {
      NoKey(r, key);
    }
  }

  // ------------------------------------------------------ a setting survives

  /** The entry of a key before it is set: a new one if there is none. */
  function EntryBefore(s: Store, section: string, key: string): KeyEntry {
    var i := FindSection(s.sections, section);
    if i == |s.sections| then KeyEntry(key, "", "", [])
    else
      var ks := s.sections[i].keys;
      var j := FindKey(ks, key);
      if j == |ks| then KeyEntry(key, "", "", []) else ks[j]
  }

  /** Arguments whose texts the file format can hold: the printed line of the key must fit, with the comment it has. */
  ghost predicate GoodSetting(s: Store, section: string, key: string, value: string, comment: Option<string>) {
    && GoodText(section) && |section| < MAX_SECTION_LENGTH && Without(section, "]")
    && GoodText(key) && |key| < MAX_KEY_LENGTH && Without(key, "=") && (key != "" ==> key[0] != '[')
    && GoodText(value) && |value| < MAX_VALUE_LENGTH && (comment.Some? ==> GoodComment(comment.value))
    && |KeyLine(IniStore.Assign(EntryBefore(s, section, key), value, comment))| < MAX_LINE_LENGTH - 1
  }

  lemma WellFormedNamesFit(s: Store)
    requires WellFormed(s)
    ensures NamesFit(s)
  {
    hide GoodText, GoodComment, Without, KeyLine, HeaderLine;
    forall x, k | x in s.sections && k in x.keys ensures |k.key| < MAX_KEY_LENGTH {
      assert GoodSection(x) && GoodKey(k);
    }
    forall x | x in s.sections ensures |x.name| < MAX_SECTION_LENGTH {
      assert GoodSection(x);
    }
  }

  lemma SetEntryGood(old_entry: KeyEntry, value: string, comment: Option<string>)
    requires GoodText(old_entry.key) && |old_entry.key| < MAX_KEY_LENGTH && Without(old_entry.key, "=")
    requires old_entry.key != "" ==> old_entry.key[0] != '['
    requires GoodComment(old_entry.comment) && forall c :: c in old_entry.before ==> GoodComment(c)
    requires GoodText(value) && |value| < MAX_VALUE_LENGTH && (comment.Some? ==> GoodComment(comment.value))
    requires |KeyLine(IniStore.Assign(old_entry, value, comment))| < MAX_LINE_LENGTH - 1
    ensures GoodKey(IniStore.Assign(old_entry, value, comment))
  {
    hide GoodText, Without, KeyLine, Trimmed;
  }

  lemma NewNamesGood(section: string)
    requires GoodText(section) && |section| < MAX_SECTION_LENGTH && Without(section, "]")
    ensures GoodSection(SectionEntry(section, "", [], [])) && GoodComment("")
  {
  }

  function EntryIn(x: SectionEntry, key: string): KeyEntry {
    var j := FindKey(x.keys, key);
    if j < |x.keys| then x.keys[j] else KeyEntry(key, "", "", [])
  }

  lemma SetKeyParts(x: SectionEntry, key: string, value: string, comment: Option<string>)
    requires |key| < MAX_KEY_LENGTH
    ensures var x' := SetKey(x, key, value, comment);
            && x'.name == x.name && x'.comment == x.comment && x'.before == x.before
            && forall k :: k in x'.keys ==> k in x.keys || k == IniStore.Assign(EntryIn(x, key), value, comment)
  {
    hide FindKey, IniStore.Assign, Cut;
    CutFits(key);
  }

  lemma SetKeyGood(x: SectionEntry, key: string, value: string, comment: Option<string>)
    requires GoodSection(x) && |key| < MAX_KEY_LENGTH && GoodKey(IniStore.Assign(EntryIn(x, key), value, comment))
    ensures GoodSection(SetKey(x, key, value, comment))
  {
    hide GoodKey, GoodText, GoodComment, Without, EntryIn, IniStore.Assign, SetKey;
    SetKeyParts(x, key, value, comment);
    assert HeaderLine(SetKey(x, key, value, comment)) == HeaderLine(x);
  }

  /** Setting a key to such texts keeps the store well-formed. */
  lemma SetKeepsWellFormed(s: Store, section: string, key: string, value: string, comment: Option<string>)
    requires WellFormed(s) && GoodSetting(s, section, key, value, comment)
    ensures WellFormed(Set(s, section, key, value, comment))
  {
    hide GoodSection, GoodKey, GoodText, GoodComment, Without, FindSection, FindKey, SetKey, IniStore.Assign, KeyLine,
        Cut;
    var ss, ss' := s.sections, Set(s, section, key, value, comment).sections;
    var i := FindSection(ss, section);
    var was := if i < |ss| then ss[i] else SectionEntry(section, "", [], []);
    NewNamesGood(section);
    CutFits(section);
    if i < |ss| {
      assert ss[i] in ss;
    }
    EntryGood(was, key, value, comment, EntryBefore(s, section, key));
    SetKeyGood(was, key, value, comment);
    forall x | x in ss' ensures GoodSection(x) {
      if x !in ss {
        assert x == SetKey(was, key, value, comment);
      }
    }
  }

  lemma EntryGood(was: SectionEntry, key: string, value: string, comment: Option<string>, e: KeyEntry)
    requires GoodSection(was) && e == EntryIn(was, key)
    requires GoodText(key) && |key| < MAX_KEY_LENGTH && Without(key, "=") && (key != "" ==> key[0] != '[')
    requires GoodText(value) && |value| < MAX_VALUE_LENGTH && (comment.Some? ==> GoodComment(comment.value))
    requires |KeyLine(IniStore.Assign(e, value, comment))| < MAX_LINE_LENGTH - 1
    ensures GoodKey(IniStore.Assign(e, value, comment))
  {
    assert GoodComment("");
    hide GoodText, GoodComment, Without, KeyLine, HeaderLine, FindKey, IniStore.Assign;
    if e in was.keys {
      assert GoodKey(e);
    }
    SetEntryGood(e, value, comment);
  }

  /** What the settings menu relies on: a value set, saved and loaded again is the value ini_get returns. */
  lemma SettingSurvives(s: Store, section: string, key: string, value: string, comment: Option<string>)
    requires WellFormed(s) && Distinct(s) && GoodSetting(s, section, key, value, comment)
    ensures Get(Load(Some(Print(Set(s, section, key, value, comment)))), section, key) == Some(value)
  {
    hide Load, Print, WellFormed, Get, Set, KeyLine, EntryBefore;
    WellFormedNamesFit(s);
    GetAfterSet(s, section, key, value, comment);
    SetKeepsDistinct(s, section, key, value, comment);
    SetKeepsWellFormed(s, section, key, value, comment);
    GetAfterCycle(Set(s, section, key, value, comment), section, key);
  }
}
