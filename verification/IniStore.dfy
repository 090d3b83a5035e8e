/** The contents of an INIFile and the operations of common/ini.c on them, with the laws callers rely on. */
module IniStore {
  import opened Buffers
  import opened IniText

  datatype KeyEntry = KeyEntry(key: string, value: string, comment: string, before: seq<string>)
  datatype SectionEntry = SectionEntry(name: string, comment: string, before: seq<string>, keys: seq<KeyEntry>)

  /** The comment lists, and the sections and keys in list order (newest first). */
  datatype Store = Store(header: seq<string>, sections: seq<SectionEntry>)

  const EMPTY := Store([], [])

  /** find_section: the first section of that name, |ss| if there is none. */
  function FindSection(ss: seq<SectionEntry>, name: string): (k: nat)
    ensures k <= |ss| && (k < |ss| ==> ss[k].name == name) && forall j :: 0 <= j < k ==> ss[j].name != name
  {
    if ss == [] || ss[0].name == name then 0 else 1 + FindSection(ss[1..], name)
  }

  /** find_key: the first key of that name, |ks| if there is none. */
  function FindKey(ks: seq<KeyEntry>, name: string): (k: nat)
    ensures k <= |ks| && (k < |ks| ==> ks[k].key == name) && forall j :: 0 <= j < k ==> ks[j].key != name
  {
    if ks == [] || ks[0].key == name then 0 else 1 + FindKey(ks[1..], name)
  }

  /** create_section: the new section is the first one. */
  function CreateSection(s: Store, name: string): Store {
    s.(sections := [SectionEntry(Cut(name, MAX_SECTION_LENGTH), "", [], [])] + s.sections)
  }

  /** create_key: the new key is the first one. */
  function CreateKey(s: SectionEntry, name: string): SectionEntry {
    s.(keys := [KeyEntry(Cut(name, MAX_KEY_LENGTH), "", "", [])] + s.keys)
  }

  /** ini_get */
  function Get(s: Store, section: string, key: string): Option<string> {
    var i := FindSection(s.sections, section);
    if i == |s.sections| then None
    else
      var ks := s.sections[i].keys;
      var j := FindKey(ks, key);
      if j == |ks| then None else Some(ks[j].value)
  }

  /** The key's value, and its comment if one is given, overwritten. */
  function Assign(k: KeyEntry, value: string, comment: Option<string>): KeyEntry {
    k.(value := Cut(value, MAX_VALUE_LENGTH),
    comment := if comment.Some? then Cut(comment.value, MAX_COMMENT_LENGTH) else k.comment)
  }

  /** The section after the key was set, created first if it is missing. */
  function SetKey(s: SectionEntry, key: string, value: string, comment: Option<string>): SectionEntry {
    var s1 := if FindKey(s.keys, key) == |s.keys| then CreateKey(s, key) else s;
    var j := if FindKey(s.keys, key) == |s.keys| then 0 else FindKey(s.keys, key);
    s1.(keys := s1.keys[j := Assign(s1.keys[j], value, comment)])
  }

  /** ini_set_with_comment; ini_set is the call without a comment. */
  function Set(s: Store, section: string, key: string, value: string, comment: Option<string>): Store {
    var i := FindSection(s.sections, section);
    var s1 := if i == |s.sections| then CreateSection(s, section) else s;
    var i1 := if i == |s.sections| then 0 else i;
    s1.(sections := s1.sections[i1 := SetKey(s1.sections[i1], key, value, comment)])
  }

  /** ini_delete_key: unchanged when the section or the key is missing. */
  function DeleteKey(s: Store, section: string, key: string): Store {
    var i := FindSection(s.sections, section);
    if i == |s.sections| then s
    else
      var ks := s.sections[i].keys;
      var j := FindKey(ks, key);
      if j == |ks| then s
      else s.(sections := s.sections[i := s.sections[i].(keys := ks[..j] + ks[j + 1..])])
  }

  /** ini_delete_section */
  function DeleteSection(s: Store, section: string): Store {
    var i := FindSection(s.sections, section);
    if i == |s.sections| then s else s.(sections := s.sections[..i] + s.sections[i + 1..])
  }

  /** ini_add_comment: the header's when no section is named. */
  function AddComment(s: Store, section: Option<string>, text: string): Store {
    if section.None? then s.(header := s.header + [Cut(text, MAX_COMMENT_LENGTH)])
    else
      var i := FindSection(s.sections, section.value);
      if i == |s.sections| then s
      else
        var x := s.sections[i];
        s.(sections := s.sections[i := x.(before := x.before + [Cut(text, MAX_COMMENT_LENGTH)])])
  }

  /** ini_add_section_comment */
  function AddSectionComment(s: Store, section: string, text: string): Store {
    var i := FindSection(s.sections, section);
    if i == |s.sections| then s
    else s.(sections := s.sections[i := s.sections[i].(comment := Cut(text, MAX_COMMENT_LENGTH))])
  }

  // -------------------------------------------------------------------- laws

  ghost predicate DistinctKeys(ks: seq<KeyEntry>) {
    forall i, j :: 0 <= i < j < |ks| ==> ks[i].key != ks[j].key
  }

  /** No two sections of one name, no two keys of one name in a section. */
  ghost predicate Distinct(s: Store) {
    && (forall i, j :: 0 <= i < j < |s.sections| ==> s.sections[i].name != s.sections[j].name)
    && (forall i :: 0 <= i < |s.sections| ==> DistinctKeys(s.sections[i].keys))
  }

  lemma {:induction false} FoundSection(ss: seq<SectionEntry>, name: string, k: nat)
    requires k < |ss| && ss[k].name == name && forall j :: 0 <= j < k ==> ss[j].name != name
    ensures FindSection(ss, name) == k
  {
    if k > 0 {
      FoundSection(ss[1..], name, k - 1);
    }
  }

  lemma {:induction false} FoundKey(ks: seq<KeyEntry>, name: string, k: nat)
    requires k < |ks| && ks[k].key == name && forall j :: 0 <= j < k ==> ks[j].key != name
    ensures FindKey(ks, name) == k
  {
    if k > 0 {
      FoundKey(ks[1..], name, k - 1);
    }
  }

  lemma {:induction false} NoSection(ss: seq<SectionEntry>, name: string)
    requires forall j :: 0 <= j < |ss| ==> ss[j].name != name
    ensures FindSection(ss, name) == |ss|
  {
    if ss != [] {
      NoSection(ss[1..], name);
    }
  }

  lemma {:induction false} NoKey(ks: seq<KeyEntry>, name: string)
    requires forall j :: 0 <= j < |ks| ==> ks[j].key != name
    ensures FindKey(ks, name) == |ks|
  {
    if ks != [] {
      NoKey(ks[1..], name);
    }
  }

  /** Every stored name fits its buffer; the names of a real INIFile always do. */
  ghost predicate NamesFit(s: Store) {
    && (forall x :: x in s.sections ==> |x.name| < MAX_SECTION_LENGTH)
    && (forall x, k :: x in s.sections && k in x.keys ==> |k.key| < MAX_KEY_LENGTH)
  }

  lemma FindKeyBehind(x: KeyEntry, b: seq<KeyEntry>, name: string)
    ensures FindKey([x] + b, name) == if x.key == name then 0 else 1 + FindKey(b, name)
  {
    assert ([x] + b)[1..] == b;
  }

  lemma {:induction false} SameKeyNames(ks: seq<KeyEntry>, ks': seq<KeyEntry>, name: string)
    requires |ks| == |ks'| && forall i :: 0 <= i < |ks| ==> ks[i].key == ks'[i].key
    ensures FindKey(ks', name) == FindKey(ks, name)
  {
    if ks != [] {
      SameKeyNames(ks[1..], ks'[1..], name);
    }
  }

  lemma FindSectionBehind(x: SectionEntry, b: seq<SectionEntry>, name: string)
    ensures FindSection([x] + b, name) == if x.name == name then 0 else 1 + FindSection(b, name)
  {
    assert ([x] + b)[1..] == b;
  }

  lemma {:induction false} SameSectionNames(ss: seq<SectionEntry>, ss': seq<SectionEntry>, name: string)
    requires |ss| == |ss'| && forall i :: 0 <= i < |ss| ==> ss[i].name == ss'[i].name
    ensures FindSection(ss', name) == FindSection(ss, name)
  {
    if ss != [] {
      SameSectionNames(ss[1..], ss'[1..], name);
    }
  }

  lemma CutFits(name: string)
    requires |name| < MAX_KEY_LENGTH
    ensures Cut(name, MAX_KEY_LENGTH) == name && MAX_KEY_LENGTH == MAX_SECTION_LENGTH
  {
  }

  lemma AssignWrites(k: KeyEntry, value: string, comment: Option<string>)
    ensures Assign(k, value, comment).key == k.key && Assign(k, value, comment).value == Cut(value, MAX_VALUE_LENGTH)
  {
  }

  /** Setting an entry of a section leaves the section's other keys alone. */
  lemma SetKeyLookup(s: SectionEntry, key: string, value: string, comment: Option<string>, other: string)
    requires |key| < MAX_KEY_LENGTH
    ensures var ks, ks' := s.keys, SetKey(s, key, value, comment).keys;
            var j, j' := FindKey(ks, other), FindKey(ks', other);
            && (other == key ==> j' < |ks'| && ks'[j'].value == Cut(value, MAX_VALUE_LENGTH))
            && (other != key ==> (j == |ks| <==> j' == |ks'|) && (j < |ks| ==> j' < |ks'| && ks'[j'] == ks[j]))
  {
    hide FindKey, Assign, Cut;
    var ks := s.keys;
    var at := FindKey(ks, key);
    var ks1 := if at == |ks| then CreateKey(s, key).keys else ks;
    if at == |ks| {
      CutFits(key);
      FindKeyBehind(ks1[0], ks, other);
    }
    AssignWrites(ks1[if at == |ks| then 0 else at], value, comment);
    SameKeyNames(ks1, SetKey(s, key, value, comment).keys, other);
  }

  /** Where a section is found after a set: the set one at its old place or in front, the others as before. */
  lemma SetLookup(s: Store, section: string, key: string, value: string, comment: Option<string>, other: string)
    requires |section| < MAX_SECTION_LENGTH
    ensures var ss, ss' := s.sections, Set(s, section, key, value, comment).sections;
            var i, i' := FindSection(ss, other), FindSection(ss', other);
            var was := if i < |ss| then ss[i] else SectionEntry(other, "", [], []);
            && (other == section ==> i' < |ss'| && ss'[i'] == SetKey(was, key, value, comment))
            && (other != section ==> (i == |ss| <==> i' == |ss'|) && (i < |ss| ==> i' < |ss'| && ss'[i'] == ss[i]))
  {
    hide SetKey, FindSection, Cut;
    var ss := s.sections;
    var at := FindSection(ss, section);
    var ss1 := if at == |ss| then CreateSection(s, section).sections else ss;
    if at == |ss| {
      CutFits(section);
      FindSectionBehind(ss1[0], ss, other);
    }
    SetKeepsName(ss1[if at == |ss| then 0 else at], key, value, comment);
    SameSectionNames(ss1, Set(s, section, key, value, comment).sections, other);
  }

  lemma SetKeepsName(s: SectionEntry, key: string, value: string, comment: Option<string>)
    ensures SetKey(s, key, value, comment).name == s.name
  {
  }

  /**
   What ini_get answers after ini_set: the value cut to its buffer, exactly when both names fit theirs. A longer name
   is stored cut and never found again.
   */
  lemma GetAfterSet(s: Store, section: string, key: string, value: string, comment: Option<string>)
    requires NamesFit(s)
    ensures Get(Set(s, section, key, value, comment), section, key)
         == if |section| < MAX_SECTION_LENGTH && |key| < MAX_KEY_LENGTH then Some(Cut(value, MAX_VALUE_LENGTH))
            else None
  {
    var s' := Set(s, section, key, value, comment);
    SetKeepsNames(s, section, key, value, comment);
    if |section| >= MAX_SECTION_LENGTH {
      NoSection(s'.sections, section);
    } else {
      SetLookup(s, section, key, value, comment, section);
      var i := FindSection(s.sections, section);
      var was := if i < |s.sections| then s.sections[i] else SectionEntry(section, "", [], []);
      if |key| >= MAX_KEY_LENGTH {
        var i' := FindSection(s'.sections, section);
        assert s'.sections[i'] in s'.sections;
        NoKey(s'.sections[i'].keys, key);
      } else {
        SetKeyLookup(was, key, value, comment, key);
      }
    }
  }

  /** Every other answer of ini_get is unchanged by a set with names that fit. */
  lemma SetFrame(s: Store, section: string, key: string, value: string, comment: Option<string>,
                 section': string, key': string)
    requires |section| < MAX_SECTION_LENGTH && |key| < MAX_KEY_LENGTH && (section != section' || key != key')
    ensures Get(Set(s, section, key, value, comment), section', key') == Get(s, section', key')
  {
    SetLookup(s, section, key, value, comment, section');
    if section == section' {
      var i := FindSection(s.sections, section);
      var was := if i < |s.sections| then s.sections[i] else SectionEntry(section, "", [], []);
      SetKeyLookup(was, key, value, comment, key');
    }
  }

  lemma SetKeepsNames(s: Store, section: string, key: string, value: string, comment: Option<string>)
    requires NamesFit(s)
    ensures NamesFit(Set(s, section, key, value, comment))
  {
    var s' := Set(s, section, key, value, comment);
    var i := FindSection(s.sections, section);
    var was := if i < |s.sections| then s.sections[i] else SectionEntry(Cut(section, MAX_SECTION_LENGTH), "", [], []);
    var at := if i < |s.sections| then i else 0;
    forall x, k | x in s'.sections && k in x.keys ensures |k.key| < MAX_KEY_LENGTH {
      if x !in s.sections {
        assert x == SetKey(was, key, value, comment);
        if i < |s.sections| { assert was in s.sections; }
      }
    }
    forall x | x in s'.sections ensures |x.name| < MAX_SECTION_LENGTH {
      if x !in s.sections {
        assert x == SetKey(was, key, value, comment);
        if i < |s.sections| { assert was in s.sections; }
      }
    }
  }

  /** Distinct names stay distinct. */
  lemma SetKeepsDistinct(s: Store, section: string, key: string, value: string, comment: Option<string>)
    requires Distinct(s) && |section| < MAX_SECTION_LENGTH && |key| < MAX_KEY_LENGTH
    ensures Distinct(Set(s, section, key, value, comment))
  {
    var ss, ss' := s.sections, Set(s, section, key, value, comment).sections;
    var at := FindSection(ss, section);
    var shift := if at == |ss| then 1 else 0;
    var was := if at < |ss| then ss[at] else SectionEntry(section, "", [], []);
    assert forall k :: shift <= k < |ss'| ==> ss'[k].name == ss[k - shift].name;
    var j := FindKey(was.keys, key);
    assert DistinctKeys(SetKey(was, key, value, comment).keys);
    forall i | 0 <= i < |ss'| ensures DistinctKeys(ss'[i].keys) {
      if i != (if at == |ss| then 0 else at) { assert ss'[i] == ss[i - shift]; }
    }
  }

  lemma {:induction false} FindKeyAppend(a: seq<KeyEntry>, b: seq<KeyEntry>, name: string)
    ensures FindKey(a + b, name) == if FindKey(a, name) < |a| then FindKey(a, name) else |a| + FindKey(b, name)
  {
    if a == [] {
      assert a + b == b;
    } else {
      assert (a + b)[1..] == a[1..] + b;
      FindKeyAppend(a[1..], b, name);
    }
  }

  lemma OtherKeyLookup(a: seq<KeyEntry>, x: KeyEntry, b: seq<KeyEntry>, name: string)
    requires name != x.key
    ensures var xs, xs' := a + ([x] + b), a + b;
            var i, i' := FindKey(xs, name), FindKey(xs', name);
            (i == |xs| <==> i' == |xs'|) && (i < |xs| ==> i' < |xs'| && xs'[i'] == xs[i])
  {
    hide FindKey;
    FindKeyBehind(x, b, name);
    FindKeyAppend(a, [x] + b, name);
    FindKeyAppend(a, b, name);
  }

  lemma RemovedKeyLookup(xs: seq<KeyEntry>, j: nat, name: string)
    requires j < |xs| && j == FindKey(xs, xs[j].key)
    ensures var xs' := xs[..j] + xs[j + 1..];
            var i, i' := FindKey(xs, name), FindKey(xs', name);
            && (name != xs[j].key ==> (i == |xs| <==> i' == |xs'|) && (i < |xs| ==> i' < |xs'| && xs'[i'] == xs[i]))
            && (name == xs[j].key ==> (i' == |xs'| <==> FindKey(xs[j + 1..], name) == |xs| - j - 1))
  {
    hide FindKey;
    var a, x, b := xs[..j], xs[j], xs[j + 1..];
    if name == x.key {
      assert forall k :: 0 <= k < |a| ==> a[k].key != name;
      NoKey(a, name);
      FindKeyAppend(a, b, name);
    } else {
      assert xs == a + ([x] + b);
      OtherKeyLookup(a, x, b, name);
    }
  }

  lemma {:induction false} FindSectionAppend(a: seq<SectionEntry>, b: seq<SectionEntry>, name: string)
    ensures FindSection(a + b, name) == if FindSection(a, name) < |a| then FindSection(a, name)
            else |a| + FindSection(b, name)
  {
    if a == [] {
      assert a + b == b;
    } else {
      assert (a + b)[1..] == a[1..] + b;
      FindSectionAppend(a[1..], b, name);
    }
  }

  lemma OtherSectionLookup(a: seq<SectionEntry>, x: SectionEntry, b: seq<SectionEntry>, name: string)
    requires name != x.name
    ensures var xs, xs' := a + ([x] + b), a + b;
            var i, i' := FindSection(xs, name), FindSection(xs', name);
            (i == |xs| <==> i' == |xs'|) && (i < |xs| ==> i' < |xs'| && xs'[i'] == xs[i])
  {
    hide FindSection;
    FindSectionBehind(x, b, name);
    FindSectionAppend(a, [x] + b, name);
    FindSectionAppend(a, b, name);
  }

  lemma RemovedSectionLookup(xs: seq<SectionEntry>, j: nat, name: string)
    requires j < |xs| && j == FindSection(xs, xs[j].name)
    ensures var xs' := xs[..j] + xs[j + 1..];
            var i, i' := FindSection(xs, name), FindSection(xs', name);
            && (name != xs[j].name ==> (i == |xs| <==> i' == |xs'|) && (i < |xs| ==> i' < |xs'| && xs'[i'] == xs[i]))
            && (name == xs[j].name ==> (i' == |xs'| <==> FindSection(xs[j + 1..], name) == |xs| - j - 1))
  {
    hide FindSection;
    var a, x, b := xs[..j], xs[j], xs[j + 1..];
    if name == x.name {
      assert forall k :: 0 <= k < |a| ==> a[k].name != name;
      NoSection(a, name);
      FindSectionAppend(a, b, name);
    } else {
      assert xs == a + ([x] + b);
      OtherSectionLookup(a, x, b, name);
    }
  }

  /** After a delete the key is gone, exactly when the section did not hold it a second time. */
  lemma GetAfterDeleteKey(s: Store, section: string, key: string)
    ensures var i := FindSection(s.sections, section);
            Get(DeleteKey(s, section, key), section, key) == None <==>
              (i < |s.sections| ==>
                 var ks := s.sections[i].keys;
                 forall m :: FindKey(ks, key) < m < |ks| ==> ks[m].key != key)
  {
    hide FindSection, FindKey;
    var i := FindSection(s.sections, section);
    if i < |s.sections| {
      var ks := s.sections[i].keys;
      var j := FindKey(ks, key);
      if j < |ks| {
        SameSectionNames(s.sections, DeleteKey(s, section, key).sections, section);
        RemovedKeyLookup(ks, j, key);
        var later := ks[j + 1..];
        assert forall m :: j < m < |ks| ==> ks[m] == later[m - j - 1];
        assert forall m :: 0 <= m < |later| ==> later[m] == ks[m + j + 1];
      }
    }
  }

  /** Every other answer is unchanged by a delete. */
  lemma DeleteKeyFrame(s: Store, section: string, key: string, section': string, key': string)
    requires section != section' || key != key'
    ensures Get(DeleteKey(s, section, key), section', key') == Get(s, section', key')
  {
    hide FindSection, FindKey;
    var i := FindSection(s.sections, section);
    if i < |s.sections| {
      var ks := s.sections[i].keys;
      var j := FindKey(ks, key);
      if j < |ks| {
        SameSectionNames(s.sections, DeleteKey(s, section, key).sections, section');
        RemovedKeyLookup(ks, j, key');
      }
    }
  }

  lemma DeleteKeyKeepsDistinct(s: Store, section: string, key: string)
    requires Distinct(s)
    ensures Distinct(DeleteKey(s, section, key)) && Get(DeleteKey(s, section, key), section, key) == None
  {
    hide FindSection, FindKey;
    GetAfterDeleteKey(s, section, key);
    var i := FindSection(s.sections, section);
    if i < |s.sections| {
      var ks := s.sections[i].keys;
      var j := FindKey(ks, key);
      assert DistinctKeys(ks);
      if j < |ks| {
        var ks' := ks[..j] + ks[j + 1..];
        assert forall m :: 0 <= m < |ks'| ==> ks'[m] == ks[if m < j then m else m + 1];
        assert DistinctKeys(ks');
        var ss' := DeleteKey(s, section, key).sections;
        assert forall m :: 0 <= m < |ss'| ==> ss'[m].name == s.sections[m].name;
        forall m | 0 <= m < |ss'| ensures DistinctKeys(ss'[m].keys) {
          if m != i { assert ss'[m] == s.sections[m]; }
        }
      }
    }
  }

  lemma DeleteSectionKeepsDistinct(s: Store, section: string)
    requires Distinct(s)
    ensures Distinct(DeleteSection(s, section))
  {
    hide FindSection, DistinctKeys;
    var ss, ss' := s.sections, DeleteSection(s, section).sections;
    var i := FindSection(ss, section);
    assert forall m :: 0 <= m < |ss'| ==> ss'[m] == ss[if m < i then m else m + 1];
  }

  /** With distinct names, deleting a section forgets all its entries and no other. */
  lemma DeleteSectionFrame(s: Store, section: string, section': string, key': string)
    requires Distinct(s)
    ensures Get(DeleteSection(s, section), section', key') == if section == section' then None
            else Get(s, section', key')
  {
    hide FindSection, FindKey, DistinctKeys;
    var ss := s.sections;
    var i := FindSection(ss, section);
    if i < |ss| {
      RemovedSectionLookup(ss, i, section');
      var later := ss[i + 1..];
      if section == section' {
        assert forall m :: 0 <= m < |later| ==> later[m] == ss[m + i + 1];
        NoSection(later, section);
      }
    }
  }

  // ------------------------------------------------- which entry, and what of it

  predicate NoSectionOf(s: Store, name: string) {
    forall i :: 0 <= i < |s.sections| ==> s.sections[i].name != name
  }

  /** The first section of that name stands at i. */
  predicate SectionAt(s: Store, name: string, i: nat) {
    && i < |s.sections| && s.sections[i].name == name
    && forall k :: 0 <= k < i ==> s.sections[k].name != name
  }

  predicate NoKeyOf(x: SectionEntry, name: string) {
    forall j :: 0 <= j < |x.keys| ==> x.keys[j].key != name
  }

  /** The first key of that name stands at j. */
  predicate KeyAt(x: SectionEntry, name: string, j: nat) {
    j < |x.keys| && x.keys[j].key == name && forall k :: 0 <= k < j ==> x.keys[k].key != name
  }

  /** What ini_get answers: the value of the first key of that name in the first section of that name. */
  lemma GetIff(s: Store, section: string, key: string, value: string)
    ensures Get(s, section, key) == Some(value) <==>
              exists i: nat, j: nat :: SectionAt(s, section, i) && KeyAt(s.sections[i], key, j)
                             && s.sections[i].keys[j].value == value
  {
    hide FindSection, FindKey;
    var i := FindSection(s.sections, section);
    if i < |s.sections| {
      var j := FindKey(s.sections[i].keys, key);
      assert SectionAt(s, section, i);
      assert j < |s.sections[i].keys| ==> KeyAt(s.sections[i], key, j);
      forall m: nat, n: nat | SectionAt(s, section, m) && KeyAt(s.sections[m], key, n) ensures m == i && n == j {
        FoundSection(s.sections, section, m);
        FoundKey(s.sections[m].keys, key, n);
      }
    }
  }

  /** A key that is there keeps its place, its own comment unless one is given, and the comments in front of it. */
  lemma SetExistingKey(s: Store, section: string, key: string, value: string, comment: Option<string>, i: nat, j: nat)
    requires SectionAt(s, section, i) && KeyAt(s.sections[i], key, j)
    ensures var x := s.sections[i];
            var note := if comment.None? then x.keys[j].comment else Cut(comment.value, 512);
            Set(s, section, key, value, comment) ==
              s.(sections := s.sections[i := x.(keys := x.keys[j := KeyEntry(key, Cut(value, 512), note,
                                                                          x.keys[j].before)])])
  {
    hide FindSection, FindKey, Cut;
    FoundSection(s.sections, section, i);
    FoundKey(s.sections[i].keys, key, j);
  }

  /** A new key comes first in its section, without comments in front of it. */
  lemma SetNewKey(s: Store, section: string, key: string, value: string, comment: Option<string>, i: nat)
    requires SectionAt(s, section, i) && NoKeyOf(s.sections[i], key)
    ensures var x := s.sections[i];
            var note := if comment.None? then "" else Cut(comment.value, 512);
            Set(s, section, key, value, comment) ==
              s.(sections := s.sections[i := x.(keys := [KeyEntry(Cut(key, 256), Cut(value, 512), note, [])] + x.keys)])
  {
    hide FindSection, FindKey, Cut;
    FoundSection(s.sections, section, i);
    NoKey(s.sections[i].keys, key);
    var x := s.sections[i];
    var k := CreateKey(x, key).keys[0];
    assert ([k] + x.keys)[0 := Assign(k, value, comment)] == [Assign(k, value, comment)] + x.keys;
  }

  /** A new section comes first in the file. */
  lemma SetNewSection(s: Store, section: string, key: string, value: string, comment: Option<string>)
    requires NoSectionOf(s, section)
    ensures var note := if comment.None? then "" else Cut(comment.value, 512);
            var k := KeyEntry(Cut(key, 256), Cut(value, 512), note, []);
            Set(s, section, key, value, comment) ==
              s.(sections := [SectionEntry(Cut(section, 256), "", [], [k])] + s.sections)
  {
    hide FindSection, Cut;
    NoSection(s.sections, section);
    var x := CreateSection(s, section).sections[0];
    var k := CreateKey(x, key).keys[0];
    assert SetKey(x, key, value, comment).keys == [Assign(k, value, comment)];
    assert ([x] + s.sections)[0 := SetKey(x, key, value, comment)] == [SetKey(x, key, value, comment)] + s.sections;
  }

  /** Deleting a key that a set has created gives the store back, */
  lemma DeleteKeyUndoesSet(s: Store, section: string, key: string, value: string, comment: Option<string>, i: nat)
    requires SectionAt(s, section, i) && NoKeyOf(s.sections[i], key) && |key| < 256
    ensures DeleteKey(Set(s, section, key, value, comment), section, key) == s
  {
    hide FindSection, FindKey, Cut, Set;
    SetNewKey(s, section, key, value, comment, i);
    var s' := Set(s, section, key, value, comment);
    FoundSection(s'.sections, section, i);
    FoundKey(s'.sections[i].keys, key, 0);
    assert s'.sections[i].keys[..0] + s'.sections[i].keys[1..] == s.sections[i].keys;
  }

  /** and so does deleting a section that a set has created. */
  lemma DeleteSectionUndoesSet(s: Store, section: string, key: string, value: string, comment: Option<string>)
    requires NoSectionOf(s, section) && |section| < 256
    ensures DeleteSection(Set(s, section, key, value, comment), section) == s
  {
    hide FindSection, Cut, Set;
    SetNewSection(s, section, key, value, comment);
    var s' := Set(s, section, key, value, comment);
    FoundSection(s'.sections, section, 0);
    assert s'.sections[..0] + s'.sections[1..] == s.sections;
  }

  /** A delete takes out the first key of that name with its comments; without one it changes nothing. */
  lemma DeleteKeyIs(s: Store, section: string, key: string, i: nat, j: nat)
    ensures SectionAt(s, section, i) && KeyAt(s.sections[i], key, j) ==>
              var s', ks := DeleteKey(s, section, key), s.sections[i].keys;
              s' == s.(sections := s.sections[i := s.sections[i].(keys := s'.sections[i].keys)])
              && s'.sections[i].keys[..j] + [ks[j]] + s'.sections[i].keys[j..] == ks
    ensures NoSectionOf(s, section) || (SectionAt(s, section, i) && NoKeyOf(s.sections[i], key)) ==>
              DeleteKey(s, section, key) == s
  {
    hide FindSection, FindKey;
  }

  /** A deleted section is the first of that name; without one nothing changes. */
  lemma DeleteSectionIs(s: Store, section: string, i: nat)
    ensures SectionAt(s, section, i) ==>
              var s' := DeleteSection(s, section);
              s'.header == s.header && s'.sections[..i] + [s.sections[i]] + s'.sections[i..] == s.sections
    ensures NoSectionOf(s, section) ==> DeleteSection(s, section) == s
  {
    hide FindSection;
    if SectionAt(s, section, i) {
      FoundSection(s.sections, section, i);
    }
  }

  /** A comment comes last among those of the file, or of the first section of that name; nothing else changes. */
  lemma CommentIsLast(s: Store, section: string, text: string, i: nat)
    ensures AddComment(s, None, text) == s.(header := s.header + [Cut(text, 512)])
    ensures SectionAt(s, section, i) ==>
              var x := s.sections[i];
              AddComment(s, Some(section), text) ==
                s.(sections := s.sections[i := SectionEntry(x.name, x.comment, x.before + [Cut(text, 512)], x.keys)])
    ensures NoSectionOf(s, section) ==> AddComment(s, Some(section), text) == s
  {
    hide FindSection, Cut;
    if SectionAt(s, section, i) {
      FoundSection(s.sections, section, i);
    }
  }

  /** The comment behind a header is replaced; nothing else changes. */
  lemma SectionCommentIsReplaced(s: Store, section: string, text: string, i: nat)
    ensures SectionAt(s, section, i) ==>
              var x := s.sections[i];
              AddSectionComment(s, section, text) ==
                s.(sections := s.sections[i := SectionEntry(x.name, Cut(text, 512), x.before, x.keys)])
    ensures NoSectionOf(s, section) ==> AddSectionComment(s, section, text) == s
  {
    hide FindSection, Cut;
    if SectionAt(s, section, i) {
      FoundSection(s.sections, section, i);
    }
  }
}
