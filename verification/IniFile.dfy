/**
 common/ini.c on its linked lists: an INIFile holds a list of Section nodes, each a list of KeyValue nodes. Every
 operation is proved to act on the lists as IniStore and IniFormat say. (Comment lists are sequence fields.)
 */
module IniFile {
  import opened Buffers
  import opened IniText
  import opened IniStore
  import opened IniFormat

  class KeyValue {
    var key: string
    var value: string
    var comment: string
    var before: seq<string>
    var next: KeyValue?
    /** The section whose list the node is on. */
    ghost var owner: Section

    constructor (key: string, next: KeyValue?, ghost owner: Section)
      ensures Entry() == KeyEntry(key, "", "", []) && this.next == next && this.owner == owner
    {
      this.key, value, comment, before, this.next, this.owner := key, "", "", [], next, owner;
    }

    ghost function Entry(): KeyEntry
      reads this
    {
      KeyEntry(key, value, comment, before)
    }

    /** The strncpy calls of ini_set_with_comment. */
    method Overwrite(value: string, comment: Option<string>)
      modifies this`value, this`comment
      ensures Entry() == Assign(old(Entry()), value, comment)
    {
      this.value := Cut(value, MAX_VALUE_LENGTH);
      if comment.Some? {
        this.comment := Cut(comment.value, MAX_COMMENT_LENGTH);
      }
    }

    /** What ini_load stores in a new key. */
    method Fill(text: string, note: Option<string>, cs: seq<string>)
      requires comment == ""
      modifies this`value, this`comment, this`before
      ensures Entry()
              == old(Entry()).(value := Cut(text, MAX_VALUE_LENGTH), comment := StoredComment(note), before := cs)
    {
      value, before := Cut(text, MAX_VALUE_LENGTH), cs;
      if note.Some? && note.value != "" {
        comment := Cut(note.value, MAX_COMMENT_LENGTH);
      }
    }
  }

  class Section {
    var name: string
    var comment: string
    var before: seq<string>
    var keys: KeyValue?
    var next: Section?
    /** What the section and its key list say, and the nodes of that list in order. */
    ghost var entry: SectionEntry
    ghost var spine: seq<KeyValue>

    constructor (name: string, next: Section?)
      ensures Linked() && entry == SectionEntry(name, "", [], []) && spine == [] && this.next == next
    {
      this.name, comment, before, keys, this.next := name, "", [], null, next;
      entry, spine := SectionEntry(name, "", [], []), [];
    }

    /** The key list is the spine, without cycle. */
    ghost predicate Chained()
      reads `keys, `spine, spine`next
    {
      && keys == (if spine == [] then null else spine[0])
      && (forall i {:trigger spine[i].next} :: 0 <= i < |spine| ==>
            spine[i].next == if i + 1 < |spine| then spine[i + 1] else null)
      && (forall i, j :: 0 <= i < j < |spine| ==> spine[i] != spine[j])
    }

    /**
     The key list is the spine, no node is on another section's list, and the fields say what `entry`
     says.
     */
    ghost predicate Linked()
      reads `name, `comment, `before, `keys, `entry, `spine, spine
    {
      && Chained()
      && (forall i :: 0 <= i < |spine| ==> spine[i].owner == this)
      && entry.name == name && entry.comment == comment && entry.before == before && |entry.keys| == |spine|
      && (forall i :: 0 <= i < |spine| ==> spine[i].Entry() == entry.keys[i])
    }

    /** find_key */
    method Find(key_name: string) returns (current: KeyValue?, ghost k: nat)
      requires Linked()
      ensures k == FindKey(entry.keys, key_name)
      ensures current == if FindKey(entry.keys, key_name) < |spine| then spine[FindKey(entry.keys, key_name)] else null
    {
      hide FindKey;
      current, k := keys, 0;
      while current != null
        invariant k <= |spine| && current == if k < |spine| then spine[k] else null
        invariant forall j :: 0 <= j < k ==> entry.keys[j].key != key_name
        decreases |spine| - k
      {
        if current.key == key_name {
          FoundKey(entry.keys, key_name, k);
          return;
        }
        current, k := current.next, k + 1;
      }
      NoKey(entry.keys, key_name);
    }

    /** create_key */
    method Create(key_name: string) returns (kv: KeyValue)
      requires Linked()
      modifies this`keys, this`spine, this`entry
      ensures Linked() && fresh(kv) && spine == [kv] + old(spine)
      ensures entry == IniStore.CreateKey(old(entry), key_name)
    {
      hide Cut;
      kv := new KeyValue(Cut(key_name, MAX_KEY_LENGTH), keys, this);
      keys := kv;
      spine, entry := [kv] + spine, IniStore.CreateKey(entry, key_name);
    }

    /** Overwriting the j-th key changes that entry and no link. */
    method Overwrite(key: KeyValue, ghost j: nat, value: string, comment: Option<string>)
      requires Linked() && j < |spine| && key == spine[j]
      modifies this`entry, key`value, key`comment
      ensures Linked()
      ensures entry == old(entry).(keys := old(entry).keys[j := IniStore.Assign(old(entry).keys[j], value, comment)])
    {
      hide IniStore.Assign;
      key.Overwrite(value, comment);
      entry := entry.(keys := entry.keys[j := key.Entry()]);
    }

    /** The key part of ini_set_with_comment: find or create the key, then overwrite its buffers. */
    method Assign(key_name: string, value: string, comment: Option<string>) returns (ghost added: set<object>)
      requires Linked()
      modifies this`keys, this`spine, this`entry, spine
      ensures Linked() && fresh(added) && forall k :: k in spine ==> k in old(spine) || k in added
      ensures entry == SetKey(old(entry), key_name, value, comment)
    {
      hide Cut, FindKey, IniStore.Assign;
      var key, j := Find(key_name);
      added := {};
      if key == null {
        key := Create(key_name);
        j, added := 0, {key};
      }
      Overwrite(key, j, value, comment);
    }

    /** The loop of ini_delete_key: two cursors, then the found node is unlinked. */
    method Delete(key_name: string) returns (ok: bool)
      requires Linked()
      modifies this`keys, this`spine, this`entry, spine
      ensures Linked() && forall k :: k in spine ==> k in old(spine)
      ensures var j := FindKey(old(entry).keys, key_name);
              && (ok <==> j < |old(entry).keys|)
              && entry == if ok then old(entry).(keys := old(entry).keys[..j] + old(entry).keys[j + 1..])
                else old(entry)
    {
      hide FindKey;
      var prev: KeyValue?, current := null, keys;
      ghost var k := 0;
      while current != null
        invariant k <= |spine| && current == if k < |spine| then spine[k] else null
        invariant prev == if k > 0 then spine[k - 1] else null
        invariant forall j :: 0 <= j < k ==> entry.keys[j].key != key_name
        decreases |spine| - k
      {
        if current.key == key_name {
          FoundKey(entry.keys, key_name, k);
          Unlink(prev, current, k);
          return true;
        }
        prev, current, k := current, current.next, k + 1;
      }
      NoKey(entry.keys, key_name);
      ok := false;
    }

    /** The k-th node leaves the list. */
    method Unlink(prev: KeyValue?, current: KeyValue, ghost k: nat)
      requires Linked() && k < |spine| && current == spine[k] && prev == if k > 0 then spine[k - 1] else null
      modifies this`keys, this`spine, this`entry, (if prev == null then {} else {prev})`next
      ensures Linked() && spine == old(spine)[..k] + old(spine)[k + 1..]
      ensures entry == old(entry).(keys := old(entry).keys[..k] + old(entry).keys[k + 1..])
    {
      hide Chained;
      ghost var was, ks := spine, entry.keys;
      UnlinkNode(prev, current, k);
      entry := entry.(keys := ks[..k] + ks[k + 1..]);
      forall i | 0 <= i < |spine| ensures spine[i].owner == this && spine[i].Entry() == entry.keys[i] {
        var m := if i < k then i else i + 1;
        assert spine[i] == was[m] && entry.keys[i] == ks[m];
      }
    }

    method UnlinkNode(prev: KeyValue?, current: KeyValue, ghost k: nat)
      requires Chained() && k < |spine| && current == spine[k] && prev == if k > 0 then spine[k - 1] else null
      modifies this`keys, this`spine, (if prev == null then {} else {prev})`next
      ensures Chained() && spine == old(spine)[..k] + old(spine)[k + 1..]
    {
      ghost var was := spine;
      assert current.next == if k + 1 < |was| then was[k + 1] else null;
      if prev != null {
        prev.next := current.next;
      } else {
        keys := current.next;
      }
      spine := was[..k] + was[k + 1..];
      forall i | 0 <= i < |spine|
        ensures spine[i] == was[if i < k then i else i + 1]
        ensures spine[i].next == if i + 1 < |spine| then spine[i + 1] else null
      {
        var m := if i < k then i else i + 1;
        var n := was[m];
        assert i != k - 1 ==> n.next == old(n.next);
        assert old(n.next) == if m + 1 < |was| then was[m + 1] else null;
      }
    }

    /** Filling in the first key. */
    method Fill(key: KeyValue, text: string, note: Option<string>, cs: seq<string>)
      requires Linked() && spine != [] && key == spine[0] && key.comment == ""
      modifies this`entry, key`value, key`comment, key`before
      ensures Linked()
      ensures var was := old(entry).keys[0];
              var kv := was.(value := Cut(text, MAX_VALUE_LENGTH), comment := StoredComment(note), before := cs);
              entry == old(entry).(keys := [kv] + old(entry).keys[1..])
    {
      hide Cut, StoredComment;
      key.Fill(text, note, cs);
      entry := entry.(keys := [key.Entry()] + entry.keys[1..]);
    }

    /** The key branch of the load loop: a new key that takes the comments waiting on this section. */
    method AddParsed(key_name: string, text: string, note: Option<string>) returns (kv: KeyValue)
      requires Linked()
      modifies this`keys, this`spine, this`entry, this`before
      ensures Linked() && fresh(kv) && spine == [kv] + old(spine)
      ensures var was := old(entry);
              var kv := KeyEntry(Cut(key_name, MAX_KEY_LENGTH), Cut(text, MAX_VALUE_LENGTH), StoredComment(note),
                                 was.before);
              entry == was.(keys := [kv] + was.keys, before := [])
    {
      hide Cut, StoredComment, Linked;
      FieldsAgree(this);
      kv := Create(key_name);
      ghost var made := entry;
      FieldsAgree(this);
      FirstAgrees(this);
      Fill(kv, text, note, before);
      SetBefore([]);
      assert made.keys[1..] == old(entry).keys;
    }

    /** Assignments to the section's own fields. */
    method SetBefore(cs: seq<string>)
      requires Linked()
      modifies this`before, this`entry
      ensures Linked() && entry == old(entry).(before := cs)
    {
      before, entry := cs, entry.(before := cs);
    }

    method SetComment(text: string)
      requires Linked()
      modifies this`comment, this`entry
      ensures Linked() && entry == old(entry).(comment := text)
    {
      comment, entry := text, entry.(comment := text);
    }
  }

  class INIFile {
    var sections: Section?
    var header: seq<string>
    var modified: bool
    /** What the file holds, the nodes of the section list in order, and every object of the structure. */
    ghost var contents: Store
    ghost var spine: seq<Section>
    ghost var Repr: set<object>

    /** The section list is the spine, without cycle. */
    ghost predicate Chained()
      reads `sections, `spine, spine`next
    {
      && sections == (if spine == [] then null else spine[0])
      && (forall i {:trigger spine[i].next} :: 0 <= i < |spine| ==>
            spine[i].next == if i + 1 < |spine| then spine[i + 1] else null)
      && (forall i, j :: 0 <= i < j < |spine| ==> spine[i] != spine[j])
    }

    /** Both levels of the lists are well linked, and they say what `contents` says. */
    ghost predicate Valid()
      reads this, Repr
    {
      && this in Repr
      && (forall s :: s in spine ==> s in Repr && forall k :: k in s.spine ==> k in Repr)
      && Chained()
      && contents.header == header && |contents.sections| == |spine|
      && (forall i :: 0 <= i < |spine| ==> spine[i].Linked() && spine[i].entry == contents.sections[i])
    }

    constructor ()
      ensures Valid() && fresh(Repr) && contents == EMPTY && !modified
    {
      sections, header, modified := null, [], false;
      contents, spine, Repr := EMPTY, [], {this};
    }

    /** find_section */
    method Find(section_name: string) returns (current: Section?, ghost k: nat)
      requires Valid()
      ensures k == FindSection(contents.sections, section_name)
      ensures current == if FindSection(contents.sections, section_name) < |spine|
                         then spine[FindSection(contents.sections, section_name)] else null
    {
      hide FindSection;
      current, k := sections, 0;
      while current != null
        invariant k <= |spine| && current == if k < |spine| then spine[k] else null
        invariant forall j :: 0 <= j < k ==> contents.sections[j].name != section_name
        decreases |spine| - k
      {
        if current.name == section_name {
          FoundSection(contents.sections, section_name, k);
          return;
        }
        current, k := current.next, k + 1;
      }
      NoSection(contents.sections, section_name);
    }

    /** ini_get */
    method Lookup(section_name: string, key_name: string) returns (r: Option<string>)
      requires Valid()
      ensures r == Get(contents, section_name, key_name)
    {
      hide FindSection, FindKey;
      var section, i := Find(section_name);
      if section == null {
        return None;
      }
      var key, j := section.Find(key_name);
      if key == null {
        return None;
      }
      assert key.Entry() == section.entry.keys[j];
      r := Some(key.value);
    }

    /** create_section */
    method CreateSection(section_name: string) returns (section: Section)
      requires Valid()
      modifies this`sections, this`spine, this`Repr, this`contents
      ensures Valid() && fresh(section) && Repr == old(Repr) + {section} && spine == [section] + old(spine)
      ensures contents == IniStore.CreateSection(old(contents), section_name)
    {
      hide Cut, Section.Linked;
      section := new Section(Cut(section_name, MAX_SECTION_LENGTH), sections);
      sections := section;
      spine, Repr, contents := [section] + spine, Repr + {section}, IniStore.CreateSection(contents, section_name);
    }

    /** ini_set_with_comment from the section on. */
    method SetIn(section: Section, ghost i: nat, key_name: string, value: string, comment: Option<string>)
      requires Valid() && i < |spine| && section == spine[i]
      modifies section`keys, section`spine, section`entry, section.spine, this`Repr, this`contents
      ensures Valid() && fresh(Repr - old(Repr)) && spine == old(spine)
      ensures var ss := old(contents).sections;
              contents == old(contents).(sections := ss[i := SetKey(ss[i], key_name, value, comment)])
    {
      hide SetKey, Section.Linked, Chained;
      SectionsApart(this, i);
      ghost var added := section.Assign(key_name, value, comment);
      Repr := Repr + added;
      forall j | 0 <= j < |spine| && j != i ensures spine[j].Linked() && spine[j].entry == contents.sections[j] {
        forall k | 0 <= k < |spine[j].spine| ensures unchanged(spine[j].spine[k]) {
          assert spine[j].spine[k] in spine[j].spine;
        }
        assert old(spine[j].Linked());
      }
      forall s | s in spine ensures s in Repr && forall k :: k in s.spine ==> k in Repr {
        assert s in old(spine);
      }
      contents := contents.(sections := contents.sections[i := section.entry]);
    }

    /** ini_set and ini_set_with_comment, for arguments that are not NULL. */
    method SetWithComment(section_name: string, key_name: string, value: string, comment: Option<string>)
      requires Valid()
      modifies Repr
      ensures Valid() && fresh(Repr - old(Repr)) && modified
      ensures contents == Set(old(contents), section_name, key_name, value, comment)
    {
      hide SetKey, FindSection, IniStore.CreateSection, Valid;
      SizesAgree(this);
      var section, i := Find(section_name);
      if section == null {
        section := CreateSection(section_name);
        i := 0;
      }
      SectionsApart(this, i);
      SetIn(section, i, key_name, value, comment);
      MarkModified();
    }

    method MarkModified()
      requires Valid()
      modifies this`modified
      ensures Valid() && modified
    {
      modified := true;
    }

    /** ini_add_comment: on the header, or on a section that must exist. */
    method AddComment(section_name: Option<string>, text: string) returns (ok: bool)
      requires Valid()
      modifies Repr
      ensures Valid() && Repr == old(Repr) && contents == IniStore.AddComment(old(contents), section_name, text)
      ensures var ss := old(contents).sections;
              ok <==> section_name.None? || FindSection(ss, section_name.value) < |ss|
      ensures modified == (old(modified) || ok)
    {
      hide FindSection, Valid, Cut, Section.Linked;
      SizesAgree(this);
      if section_name.None? {
        SetHeader(header + [Cut(text, MAX_COMMENT_LENGTH)]);
      } else {
        var section, i := Find(section_name.value);
        if section == null {
          return false;
        }
        SectionsApart(this, i);
        FieldsAgree(section);
        SetBeforeOf(section, i, section.before + [Cut(text, MAX_COMMENT_LENGTH)]);
      }
      MarkModified();
      ok := true;
    }

    /** ini_add_section_comment */
    method AddSectionComment(section_name: string, text: string) returns (ok: bool)
      requires Valid()
      modifies Repr
      ensures Valid() && Repr == old(Repr) && contents == IniStore.AddSectionComment(old(contents), section_name, text)
      ensures ok <==> FindSection(old(contents).sections, section_name) < |old(contents).sections|
      ensures modified == (old(modified) || ok)
    {
      hide FindSection, Valid, Cut, Section.Linked;
      SizesAgree(this);
      var section, i := Find(section_name);
      if section == null {
        return false;
      }
      SectionsApart(this, i);
      SetCommentOf(section, i, Cut(text, MAX_COMMENT_LENGTH));
      MarkModified();
      ok := true;
    }

    /** ini_delete_key */
    method DeleteKey(section_name: string, key_name: string) returns (ok: bool)
      requires Valid()
      modifies Repr
      ensures Valid() && Repr == old(Repr) && contents == IniStore.DeleteKey(old(contents), section_name, key_name)
      ensures ok <==> Get(old(contents), section_name, key_name).Some?
      ensures modified == (old(modified) || ok)
    {
      hide FindSection, FindKey, Valid, Section.Linked;
      SizesAgree(this);
      var section, i := Find(section_name);
      if section == null {
        return false;
      }
      SectionsApart(this, i);
      ghost var ks := section.entry.keys;
      ok := DeleteIn(section, i, key_name);
      if ok {
        MarkModified();
      } else {
        assert contents.sections == old(contents).sections;
      }
    }

    /** ini_delete_key from the section on. */
    method DeleteIn(section: Section, ghost i: nat, key_name: string) returns (ok: bool)
      requires Valid() && i < |spine| && section == spine[i]
      modifies section`keys, section`spine, section`entry, section.spine, this`contents
      ensures Valid() && spine == old(spine)
      ensures var was := old(contents).sections[i]; var j := FindKey(was.keys, key_name);
              && (ok <==> j < |was.keys|)
              && contents == if !ok then old(contents)
                             else old(contents).(sections :=
                               old(contents).sections[i := was.(keys := was.keys[..j] + was.keys[j + 1..])])
    {
      hide FindKey, Section.Linked, Chained;
      SectionsApart(this, i);
      ok := section.Delete(key_name);
      forall j | 0 <= j < |spine| && j != i ensures spine[j].Linked() && spine[j].entry == contents.sections[j] {
        forall k | 0 <= k < |spine[j].spine| ensures unchanged(spine[j].spine[k]) {
          assert spine[j].spine[k] in spine[j].spine;
        }
        assert old(spine[j].Linked());
      }
      forall s | s in spine ensures s in Repr && forall k :: k in s.spine ==> k in Repr {
        assert s in old(spine);
      }
      contents := contents.(sections := contents.sections[i := section.entry]);
    }

    /** The loop of ini_delete_section: two cursors, then the found section is unlinked. */
    method DeleteSection(section_name: string) returns (ok: bool)
      requires Valid()
      modifies this, spine
      ensures Valid() && Repr == old(Repr) && contents == IniStore.DeleteSection(old(contents), section_name)
      ensures ok <==> FindSection(old(contents).sections, section_name) < |old(contents).sections|
      ensures modified == (old(modified) || ok)
    {
      hide FindSection, Section.Linked;
      var prev: Section?, current := null, sections;
      ghost var k := 0;
      while current != null
        invariant Valid() && contents == old(contents) && spine == old(spine) && Repr == old(Repr)
            && modified == old(modified)
        invariant k <= |spine| && current == if k < |spine| then spine[k] else null
        invariant prev == if k > 0 then spine[k - 1] else null
        invariant forall j :: 0 <= j < k ==> contents.sections[j].name != section_name
        decreases |spine| - k
      {
        FieldsAgree(current);
        if current.name == section_name {
          FoundSection(contents.sections, section_name, k);
          Unlink(prev, current, k);
          MarkModified();
          return true;
        }
        prev, current, k := current, current.next, k + 1;
      }
      NoSection(contents.sections, section_name);
      ok := false;
    }

    /** The k-th section leaves the list. */
    method Unlink(prev: Section?, current: Section, ghost k: nat)
      requires Valid() && k < |spine| && current == spine[k] && prev == if k > 0 then spine[k - 1] else null
      modifies this`sections, this`spine, this`contents, (if prev == null then {} else {prev})`next
      ensures Valid()
      ensures contents == old(contents).(sections := old(contents).sections[..k] + old(contents).sections[k + 1..])
    {
      hide Section.Linked, Chained;
      ghost var was, ss := spine, contents.sections;
      UnlinkNode(prev, current, k);
      contents := contents.(sections := ss[..k] + ss[k + 1..]);
      forall i | 0 <= i < |spine| ensures spine[i].Linked() && spine[i].entry == contents.sections[i] {
        var m := if i < k then i else i + 1;
        assert spine[i] == was[m] && contents.sections[i] == ss[m];
        assert old(was[m].Linked());
      }
      forall s | s in spine ensures s in Repr && forall k :: k in s.spine ==> k in Repr {
        assert s in was;
      }
    }

    method UnlinkNode(prev: Section?, current: Section, ghost k: nat)
      requires Chained() && k < |spine| && current == spine[k] && prev == if k > 0 then spine[k - 1] else null
      modifies this`sections, this`spine, (if prev == null then {} else {prev})`next
      ensures Chained() && spine == old(spine)[..k] + old(spine)[k + 1..]
    {
      ghost var was := spine;
      assert current.next == if k + 1 < |was| then was[k + 1] else null;
      if prev != null {
        prev.next := current.next;
      } else {
        sections := current.next;
      }
      spine := was[..k] + was[k + 1..];
      forall i | 0 <= i < |spine|
        ensures spine[i] == was[if i < k then i else i + 1]
        ensures spine[i].next == if i + 1 < |spine| then spine[i + 1] else null
      {
        var m := if i < k then i else i + 1;
        var n := was[m];
        assert i != k - 1 ==> n.next == old(n.next);
        assert old(n.next) == if m + 1 < |was| then was[m + 1] else null;
      }
    }

    // ------------------------------------------------------------------ load

    /** ini_load. The section read last is also where the pending comments wait. */
    static method Load(file: Option<string>) returns (ini: INIFile)
      ensures ini.Valid() && fresh(ini.Repr) && !ini.modified && ini.contents == IniFormat.Load(file)
    {
      hide IniFormat.ParseLine, Taken, UpToBreak, INIFile.Valid;
      ini := new INIFile();
      if file.None? {
        return;
      }
      var rest := file.value;
      var current: Section? := null;
      FirstSection(ini);
      while rest != ""
        invariant ini.Valid() && fresh(ini.Repr) && !ini.modified && current == ini.sections
        invariant ParseText(EMPTY, file.value) == ParseText(ini.contents, rest)
        decreases |rest|
      {
        var n := Taken(rest);
        current := ini.LoadLine(current, UpToBreak(rest[..n]));
        rest := rest[n..];
      }
    }

    /** The body of the load loop. */
    method LoadLine(current: Section?, line: string) returns (now: Section?)
      requires Valid() && current == sections
      modifies Repr
      ensures Valid() && fresh(Repr - old(Repr)) && now == sections && modified == old(modified)
      ensures contents == ParseLine(old(contents), line)
    {
      hide Valid, Trim, ParseHeader, ParseKey, Cut;
      SizesAgree(this);
      var trimmed := TrimWhitespace(line);
      now := current;
      if trimmed == "" {
        AddPendingComment(current, "");
      } else if trimmed[0] == ';' || trimmed[0] == '#' {
        var text := TrimWhitespace(trimmed[1..]);
        AddPendingComment(current, text);
      } else if trimmed[0] == '[' {
        now := LoadHeader(current, line);
      } else {
        LoadKey(current, line);
      }
    }

    /** add_comment_to_list(pending_comments, text) */
    method AddPendingComment(current: Section?, text: string)
      requires Valid() && current == sections
      modifies Repr
      ensures Valid() && Repr == old(Repr) && sections == old(sections) && modified == old(modified)
      ensures contents == AddPending(old(contents), text)
    {
      hide Valid, Cut, Section.Linked;
      SizesAgree(this);
      FirstSection(this);
      if current == null {
        SetHeader(header + [Cut(text, MAX_COMMENT_LENGTH)]);
      } else {
        SectionsApart(this, 0);
        FieldsAgree(current);
        SetBeforeOf(current, 0, current.before + [Cut(text, MAX_COMMENT_LENGTH)]);
      }
    }

    /** The two calls of extract_comment. */
    static method CutComment(line: string) returns (left: string, comment: Option<string>)
      ensures Split(left, comment) == SplitComment(line)
    {
      hide ExtractComment;
      var r := ExtractCommentLoop(line, ';');
      if r.comment.None? {
        r := ExtractCommentLoop(line, '#');
      }
      left, comment := r.line, r.comment;
    }

    /** The header branch. */
    method LoadHeader(current: Section?, line: string) returns (now: Section?)
      requires Valid() && current == sections
      modifies Repr
      ensures Valid() && fresh(Repr - old(Repr)) && now == sections && modified == old(modified)
      ensures contents == ParseHeader(old(contents), line)
    {
      hide Valid, Cut, Section.Linked, SplitComment, Trim;
      SizesAgree(this);
      FirstSection(this);
      var left, comment := CutComment(line);
      var end := IniText.Find(left, ']', 0);
      if end == |left| || end == 0 {
        return current;
      }
      var name := TrimWhitespace(left[1..end]);
      var section := CreateSection(name);
      FirstSection(this);
      if current == null {
        SetHeader([]);
      } else {
        SectionsApart(this, 1);
        SetBeforeOf(current, 1, []);
      }
      now := section;
      FirstSection(this);
      SectionsApart(this, 0);
      SetCommentOf(section, 0, StoredComment(comment));
    }

    /** The key branch. */
    method LoadKey(current: Section?, line: string)
      requires Valid() && current == sections
      modifies Repr
      ensures Valid() && fresh(Repr - old(Repr)) && sections == old(sections) && modified == old(modified)
      ensures contents == ParseKey(old(contents), line)
    {
      hide Valid, Cut, Section.Linked, SplitComment, Trim, StoredComment;
      SizesAgree(this);
      FirstSection(this);
      if IniText.Find(line, '=', 0) == |line| || current == null {
        return;
      }
      var left, comment := CutComment(line);
      var equals := IniText.Find(left, '=', 0);
      if equals == |left| {
        return;
      }
      var key := TrimWhitespace(left[..equals]);
      var value := TrimWhitespace(left[equals + 1..]);
      SectionsApart(this, 0);
      AddKeyTo(current, key, value, comment);
    }

    /** A parsed key goes to the first section. */
    method AddKeyTo(section: Section, key_name: string, text: string, note: Option<string>)
      requires Valid() && spine != [] && section == spine[0]
      modifies section`keys, section`spine, section`entry, section`before, this`Repr, this`contents
      ensures Valid() && fresh(Repr - old(Repr))
      ensures var was := old(contents).sections[0];
              contents == old(contents).(sections :=
                [was.(keys := [KeyEntry(Cut(key_name, MAX_KEY_LENGTH), Cut(text, MAX_VALUE_LENGTH), StoredComment(note),
                                        was.before)] + was.keys, before := [])] + old(contents).sections[1..])
    {
      hide Cut, StoredComment, Section.Linked, Chained;
      SectionsApart(this, 0);
      ghost var nodes := section.spine;
      var kv := section.AddParsed(key_name, text, note);
      Repr := Repr + {kv};
      ghost var ss := contents.sections;
      contents := contents.(sections := [section.entry] + ss[1..]);
      forall j | 0 <= j < |spine| ensures spine[j].Linked() && spine[j].entry == contents.sections[j] {
        if j > 0 {
          assert old(spine[j].Linked());
          assert contents.sections[j] == ss[j];
        }
      }
      forall s | s in spine ensures s in Repr && forall k :: k in s.spine ==> k in Repr {
        assert s in old(spine);
        if s == section {
          assert forall k :: k in s.spine ==> k == kv || k in nodes;
        }
      }
    }

    // ------------------------------------------------------------------ save

    /** ini_save: the text of the file, if it opens. */
    method Save(opens: bool) returns (ok: bool, text: string)
      requires Valid()
      modifies this`modified
      ensures Valid() && ok == opens && modified == (old(modified) && !opens)
      ensures ok ==> text == Print(contents)
    {
      hide Section.Linked, Text, KeyLines, SectionLines, CommentLines, HeaderLine;
      ok, text := opens, "";
      if !opens {
        return;
      }
      text := PrintComments(header);
      var section := sections;
      ghost var i := 0;
      assert contents.sections[0..] == contents.sections;
      TextAppend(CommentLines(header), SectionLines(contents.sections));
      while section != null
        invariant i <= |spine| && section == if i < |spine| then spine[i] else null
        invariant Print(contents) == text + Text(SectionLines(contents.sections[i..]))
        decreases |spine| - i
      {
        FieldsAgree(section);
        var before := PrintComments(section.before);
        var keys := PrintKeys(section);
        SectionText(contents.sections, i);
        var line := PrintHeader(section);
        text := text + before + line + keys + "\n";
        section, i := section.next, i + 1;
      }
      assert contents.sections[i..] == [];
      NoText();
      modified := false;
    }

    method SetHeader(cs: seq<string>)
      requires Valid()
      modifies this`header, this`contents
      ensures Valid() && contents == old(contents).(header := cs)
    {
      header, contents := cs, contents.(header := cs);
    }

    method SetBeforeOf(section: Section, ghost i: nat, cs: seq<string>)
      requires Valid() && i < |spine| && section == spine[i]
      modifies section`before, section`entry, this`contents
      ensures Valid()
      ensures contents
              == old(contents).(sections := old(contents).sections[i := old(contents).sections[i].(before := cs)])
    {
      hide Section.Linked;
      section.SetBefore(cs);
      contents := contents.(sections := contents.sections[i := section.entry]);
    }

    method SetCommentOf(section: Section, ghost i: nat, text: string)
      requires Valid() && i < |spine| && section == spine[i]
      modifies section`comment, section`entry, this`contents
      ensures Valid()
      ensures contents
              == old(contents).(sections := old(contents).sections[i := old(contents).sections[i].(comment := text)])
    {
      hide Section.Linked;
      section.SetComment(text);
      contents := contents.(sections := contents.sections[i := section.entry]);
    }
  }

  /** The fields of a section say what its entry says. */
  lemma FieldsAgree(s: Section)
    requires s.Linked()
    ensures s.name == s.entry.name && s.comment == s.entry.comment && s.before == s.entry.before
  {
  }

  lemma FirstAgrees(s: Section)
    requires s.Linked() && s.spine != []
    ensures s.entry.keys != [] && s.spine[0].Entry() == s.entry.keys[0]
  {
  }

  lemma FirstSection(f: INIFile)
    requires f.Valid()
    ensures |f.spine| == |f.contents.sections|
    ensures f.sections == if f.spine == [] then null else f.spine[0]
  {
  }

  lemma SizesAgree(f: INIFile)
    requires f.Valid()
    ensures |f.spine| == |f.contents.sections| && f in f.Repr && f.header == f.contents.header
  {
  }

  /** No node of another section is this section or one of its nodes. */
  lemma SectionsApart(f: INIFile, i: nat)
    requires f.Valid() && i < |f.spine|
    ensures forall j :: 0 <= j < |f.spine| && j != i ==>
              f.spine[j] != f.spine[i] && forall k :: k in f.spine[j].spine ==> k !in f.spine[i].spine
    ensures f.spine[i] in f.Repr && (forall k :: k in f.spine[i].spine ==> k in f.Repr)
    ensures f.spine[i].Linked() && f.spine[i].entry == f.contents.sections[i]
  {
    assert f.spine[i] in f.spine;
    forall j | 0 <= j < |f.spine| && j != i
      ensures f.spine[j] != f.spine[i] && forall k :: k in f.spine[j].spine ==> k !in f.spine[i].spine
    {
      assert f.spine[j].Linked() && f.spine[i].Linked();
    }
  }

  // ------------------------------------------------------------------- text

  lemma {:induction false} TextAppend(a: seq<string>, b: seq<string>)
    ensures Text(a + b) == Text(a) + Text(b)
  {
    if a == [] {
      assert a + b == b;
    } else {
      assert (a + b)[1..] == a[1..] + b;
      TextAppend(a[1..], b);
    }
  }

  lemma NoText()
    ensures Text([]) == "" && SectionLines([]) == [] && KeyLines([]) == []
  {
  }

  lemma OneLine(l: string)
    ensures Text([l]) == l + "\n"
  {
    assert Text([l][1..]) == "";
  }

  /** The text of the sections from the i-th on, one section at a time. */
  lemma SectionText(ss: seq<SectionEntry>, i: nat)
    requires i < |ss|
    ensures Text(SectionLines(ss[i..])) == Text(CommentLines(ss[i].before)) + (HeaderLine(ss[i]) + "\n")
                                           + Text(KeyLines(ss[i].keys)) + "\n" + Text(SectionLines(ss[i + 1..]))
  {
    hide Text, KeyLines, CommentLines, HeaderLine;
    var a, h, ks, rest := CommentLines(ss[i].before), [HeaderLine(ss[i])], KeyLines(ss[i].keys),
        SectionLines(ss[i + 1..]);
    assert ss[i..][0] == ss[i] && ss[i..][1..] == ss[i + 1..];
    TextAppend(a + h + ks + [""], rest);
    TextAppend(a + h + ks, [""]);
    TextAppend(a + h, ks);
    TextAppend(a, h);
    OneLine(HeaderLine(ss[i]));
    OneLine("");
  }

  lemma KeyText(ks: seq<KeyEntry>, j: nat)
    requires j < |ks|
    ensures Text(KeyLines(ks[j..]))
            == Text(CommentLines(ks[j].before)) + (KeyLine(ks[j]) + "\n") + Text(KeyLines(ks[j + 1..]))
  {
    hide Text, CommentLines, KeyLine;
    var a, h, rest := CommentLines(ks[j].before), [KeyLine(ks[j])], KeyLines(ks[j + 1..]);
    assert ks[j..][0] == ks[j] && ks[j..][1..] == ks[j + 1..];
    TextAppend(a + h, rest);
    TextAppend(a, h);
    OneLine(KeyLine(ks[j]));
  }

  /** The loop over a comment list: an empty comment is an empty line. */
  method PrintComments(cs: seq<string>) returns (text: string)
    ensures text == Text(CommentLines(cs))
  {
    hide Text;
    text := "";
    assert CommentLines(cs[..0]) == [];
    NoText();
    for i := 0 to |cs|
      invariant text == Text(CommentLines(cs[..i]))
    {
      assert CommentLines(cs[..i + 1]) == CommentLines(cs[..i]) + [CommentLine(cs[i])];
      TextAppend(CommentLines(cs[..i]), [CommentLine(cs[i])]);
      OneLine(CommentLine(cs[i]));
      if |cs[i]| == 0 {
        text := text + "\n";
      } else {
        text := text + ("; " + cs[i] + "\n");
      }
    }
    assert cs[..|cs|] == cs;
  }

  method PrintHeader(section: Section) returns (text: string)
    requires section.Linked()
    ensures text == HeaderLine(section.entry) + "\n"
  {
    if |section.comment| > 0 {
      text := "[" + section.name + "] ; " + section.comment + "\n";
    } else {
      text := "[" + section.name + "]\n";
    }
  }

  method PrintKey(key: KeyValue) returns (text: string)
    ensures text == KeyLine(key.Entry()) + "\n"
  {
    if |key.comment| > 0 {
      text := key.key + " = " + key.value + " ; " + key.comment + "\n";
    } else {
      text := key.key + " = " + key.value + "\n";
    }
  }

  /** The loop over the keys of a section. */
  method PrintKeys(section: Section) returns (text: string)
    requires section.Linked()
    ensures text == Text(KeyLines(section.entry.keys))
  {
    hide Text, KeyLines, CommentLines, KeyLine;
    text := "";
    var key := section.keys;
    ghost var j := 0;
    assert section.entry.keys[0..] == section.entry.keys;
    while key != null
      invariant j <= |section.spine| && key == if j < |section.spine| then section.spine[j] else null
      invariant Text(KeyLines(section.entry.keys)) == text + Text(KeyLines(section.entry.keys[j..]))
      decreases |section.spine| - j
    {
      assert key.Entry() == section.entry.keys[j];
      var before := PrintComments(key.before);
      KeyText(section.entry.keys, j);
      var line := PrintKey(key);
      text := text + before + line;
      key, j := key.next, j + 1;
    }
    assert section.entry.keys[j..] == [];
    NoText();
  }
}
