/** scan_dir_recursive and scan_all_usb of plugin_mono/source/pkg_broswer.c: the bounded list of package files. */
module UsbScan {
  import TitleId

  const PKG_MAX_RESULTS: nat := 1024
  const PKG_MAX_DEPTH: nat := 12

  /**
   What readdir and stat find: a directory, with its entries in readdir order if it opens, a regular file, or something
   else (stat fails or neither).
   */
  datatype Tree =
    | Dir(name: string, opens: bool, children: seq<Tree>)
    | File(name: string, size: nat)
    | Other(name: string)

  datatype PkgEntry = PkgEntry(path: string, title_id: string, size: nat)

  predicate HasPkgExt(name: string) {
    && |name| >= 5
    && var ext := name[|name| - 4..];
       ext[0] == '.' && (ext[1] == 'p' || ext[1] == 'P') && (ext[2] == 'k' || ext[2] == 'K')
         && (ext[3] == 'g' || ext[3] == 'G')
  }

  predicate Skipped(name: string) {
    name == "." || name == ".." || name == ".git" || name == "node_modules"
  }

  /** The record of a file; a title id always fits the sixteen bytes of its field. */
  function Entry(dir: string, name: string, size: nat): PkgEntry {
    PkgEntry(dir + "/" + name, TitleId.FirstTitleId(TitleId.Runs(name)), size)
  }

  // ------------------------------------------------- the list without limits

  /** The packages below a directory, each before what follows it. */
  function ListDir(dir: string, node: Tree, depth: nat): seq<PkgEntry>
    decreases node, 1
  {
    if node.Dir? && depth <= PKG_MAX_DEPTH && node.opens then ListChildren(dir, node, 0, depth) else []
  }

  function ListChildren(dir: string, node: Tree, i: nat, depth: nat): seq<PkgEntry>
    requires node.Dir? && i <= |node.children|
    decreases node, 0, |node.children| - i
  {
    if i == |node.children| then []
    else
      var c := node.children[i];
      var here := if Skipped(c.name) then []
                  else if c.Dir? then ListDir(dir + "/" + c.name, c, depth + 1)
                  else if c.File? && HasPkgExt(c.name) then [Entry(dir, c.name, c.size)]
                  else [];
      here + ListChildren(dir, node, i + 1, depth)
  }

  // -------------------------------------------------------- the bounded list

  /** What the scan comes by: it enters a directory, or it finds a package. */
  datatype Event = Enter | Found(entry: PkgEntry)

  function DirEvents(dir: string, node: Tree, depth: nat): seq<Event>
    decreases node, 1
  {
    if !node.Dir? || depth > PKG_MAX_DEPTH then []
    else [Enter] + if node.opens then ChildEvents(dir, node, 0, depth) else []
  }

  function EventsOf(dir: string, c: Tree, depth: nat): seq<Event>
    decreases c, 2
  {
    if Skipped(c.name) then []
    else if c.Dir? then DirEvents(dir + "/" + c.name, c, depth + 1)
    else if c.File? && HasPkgExt(c.name) then [Found(Entry(dir, c.name, c.size))]
    else []
  }

  function ChildEvents(dir: string, node: Tree, i: nat, depth: nat): seq<Event>
    requires node.Dir? && i <= |node.children|
    decreases node, 0, |node.children| - i
  {
    if i == |node.children| then []
    else EventsOf(dir, node.children[i], depth) + ChildEvents(dir, node, i + 1, depth)
  }

  datatype State = State(items: seq<PkgEntry>, overflow: bool)

  function Step(st: State, e: Event): State {
    if |st.items| >= PKG_MAX_RESULTS then st.(overflow := true)
    else match e
      case Enter => st
      case Found(entry) => st.(items := st.items + [entry])
  }

  function Run(st: State, es: seq<Event>): State
    decreases |es|
  {
    if es == [] then st else Run(Step(st, es[0]), es[1..])
  }

  lemma {:induction false} RunAppend(st: State, a: seq<Event>, b: seq<Event>)
    ensures Run(st, a + b) == Run(Run(st, a), b)
    decreases |a|
  {
    hide Step;
    if a == [] {
      assert a + b == b;
    } else {
      assert (a + b)[1..] == a[1..] + b;
      RunAppend(Step(st, a[0]), a[1..], b);
    }
  }

  /** With the flag up and the list full nothing changes any more. */
  lemma {:induction false} RunWhenFull(st: State, es: seq<Event>)
    requires |st.items| >= PKG_MAX_RESULTS && st.overflow
    ensures Run(st, es) == st
    decreases |es|
  {
    if es != [] {
      RunWhenFull(st, es[1..]);
    }
  }

  // --------------------------------------------------------------- the theorem

  function Packages(es: seq<Event>): seq<PkgEntry> {
    if es == [] then [] else (if es[0].Found? then [es[0].entry] else []) + Packages(es[1..])
  }

  /** Is a directory entered behind the last package? */
  predicate EnteredLast(es: seq<Event>) {
    es != [] && (EnteredLast(es[1..]) || (es[0].Enter? && Packages(es) == []))
  }

  function Limit(items: seq<PkgEntry>): seq<PkgEntry> {
    if |items| <= 1024 then items else items[..1024]
  }

  /**
   The list is the first 1024 packages. The flag goes up exactly when there are more, or when there are exactly 1024
   and a directory is entered behind the last of them.
   */
  lemma {:induction false} RunIsLimit(st: State, es: seq<Event>)
    requires |st.items| <= PKG_MAX_RESULTS
    ensures var all := st.items + Packages(es);
            && Run(st, es).items == Limit(all)
            && (Run(st, es).overflow <==>
                st.overflow || |all| > 1024 || (|all| == 1024 && EnteredLast(es)))
    decreases |es|
  {
    if es == [] {
      assert st.items + Packages(es) == st.items;
    } else {
      var next := Step(st, es[0]);
      RunIsLimit(next, es[1..]);
      if |st.items| == PKG_MAX_RESULTS {
        RunWhenFull(next, es[1..]);
        if Packages(es) == [] {
          LastPackage(es);
        }
      } else {
        assert st.items + Packages(es) == next.items + Packages(es[1..]);
        if es[0].Enter? && Packages(es) == [] {
          assert |st.items + Packages(es)| == |st.items|;
        }
      }
    }
  }

  /** Without packages every event is an entry. */
  lemma {:induction false} LastPackage(es: seq<Event>)
    requires es != [] && Packages(es) == []
    ensures EnteredLast(es)
  {
  }

  lemma {:induction false} PackagesAppend(a: seq<Event>, b: seq<Event>)
    ensures Packages(a + b) == Packages(a) + Packages(b)
  {
    if a == [] {
      assert a + b == b;
    } else {
      assert (a + b)[1..] == a[1..] + b;
      PackagesAppend(a[1..], b);
    }
  }

  /** The packages the bounded scan comes by are those of the list without limits. */
  lemma {:induction false} PackagesOfDir(dir: string, node: Tree, depth: nat)
    ensures Packages(DirEvents(dir, node, depth)) == ListDir(dir, node, depth)
    decreases node, 1
  {
    hide Packages;
    OnePackage(Enter);
    if node.Dir? && depth <= PKG_MAX_DEPTH && node.opens {
      PackagesOfChildren(dir, node, 0, depth);
      PackagesAppend([Enter], ChildEvents(dir, node, 0, depth));
    } else {
      assert [Enter] + [] == [Enter];
    }
  }

  lemma OnePackage(e: Event)
    ensures Packages([]) == [] && Packages([e]) == if e.Found? then [e.entry] else []
  {
    assert [e][1..] == [];
  }

  lemma {:induction false} PackagesOfChildren(dir: string, node: Tree, i: nat, depth: nat)
    requires node.Dir? && i <= |node.children|
    ensures Packages(ChildEvents(dir, node, i, depth)) == ListChildren(dir, node, i, depth)
    decreases node, 0, |node.children| - i
  {
    hide Packages, HasPkgExt, Skipped, Entry;
    OnePackage(Enter);
    if i < |node.children| {
      var c := node.children[i];
      PackagesAppend(EventsOf(dir, c, depth), ChildEvents(dir, node, i + 1, depth));
      PackagesOfChildren(dir, node, i + 1, depth);
      if c.Dir? {
        PackagesOfDir(dir + "/" + c.name, c, depth + 1);
      } else if c.File? {
        OnePackage(Found(Entry(dir, c.name, c.size)));
      }
    }
  }

  // ------------------------------------------------- the flag on a full list

  /** Exactly 1024 packages, and behind them a folder that does not open or is empty. */
  predicate FullThenFolder(node: Tree) {
    && node.Dir? && node.opens && |node.children| == PKG_MAX_RESULTS + 1
    && (forall i :: 0 <= i < PKG_MAX_RESULTS ==>
          node.children[i].File? && !Skipped(node.children[i].name) && HasPkgExt(node.children[i].name))
    && var last := node.children[PKG_MAX_RESULTS];
       last.Dir? && !Skipped(last.name) && (last.opens ==> last.children == [])
  }

  lemma FolderEvents(dir: string, c: Tree, depth: nat)
    requires c.Dir? && !Skipped(c.name) && (c.opens ==> c.children == []) && depth < PKG_MAX_DEPTH
    ensures EventsOf(dir, c, depth) == [Enter]
  {
    hide Skipped, ChildEvents;
    assert [Enter] + [] == [Enter];
    if c.opens {
      ChildStep(dir + "/" + c.name, c, 0, depth + 1);
    }
  }

  lemma {:induction false} FullEvents(dir: string, node: Tree, i: nat, depth: nat)
    requires FullThenFolder(node) && i <= PKG_MAX_RESULTS && depth < PKG_MAX_DEPTH
    ensures var es := ChildEvents(dir, node, i, depth);
            |Packages(es)| == PKG_MAX_RESULTS - i && EnteredLast(es)
    decreases PKG_MAX_RESULTS - i
  {
    hide Packages, EnteredLast, ChildEvents, Skipped, HasPkgExt, Entry;
    ChildStep(dir, node, i, depth);
    var c := node.children[i];
    if i < PKG_MAX_RESULTS {
      FullEvents(dir, node, i + 1, depth);
      FoundBefore(Entry(dir, c.name, c.size), ChildEvents(dir, node, i + 1, depth));
    } else {
      FolderEvents(dir, c, depth);
      ChildStep(dir, node, i + 1, depth);
      assert [Enter] + [] == [Enter];
      LastEnter();
    }
  }

  lemma FoundBefore(e: PkgEntry, es: seq<Event>)
    ensures Packages([Found(e)] + es) == [e] + Packages(es) && (EnteredLast(es) ==> EnteredLast([Found(e)] + es))
  {
    assert ([Found(e)] + es)[1..] == es;
  }

  lemma EnterBefore(es: seq<Event>)
    ensures Packages([Enter] + es) == Packages(es) && (EnteredLast(es) ==> EnteredLast([Enter] + es))
  {
    assert ([Enter] + es)[1..] == es;
  }

  lemma LastEnter()
    ensures Packages([Enter]) == [] && EnteredLast([Enter])
  {
    assert [Enter][1..] == [];
  }

  /** The list of such a directory is complete, and the flag says that it is not. */
  lemma FlagOnCompleteList(dir: string, node: Tree, depth: nat)
    requires FullThenFolder(node) && depth < PKG_MAX_DEPTH
    ensures var st := Run(State([], false), DirEvents(dir, node, depth));
            st.items == ListDir(dir, node, depth) && |st.items| == PKG_MAX_RESULTS && st.overflow
  {
    hide FullThenFolder, Packages, EnteredLast, ChildEvents, Run, ListDir;
    FullIsOpen(node);
    var es := ChildEvents(dir, node, 0, depth);
    FullEvents(dir, node, 0, depth);
    EnterBefore(es);
    assert DirEvents(dir, node, depth) == [Enter] + es;
    PackagesOfDir(dir, node, depth);
    RunIsLimit(State([], false), [Enter] + es);
    assert [] + Packages([Enter] + es) == Packages([Enter] + es);
  }

  lemma FullIsOpen(node: Tree)
    requires FullThenFolder(node)
    ensures node.Dir? && node.opens
  {
  }

  /** A file name of four digits. */
  function Numbered(i: nat): string {
    [Decimal(i / 1000), Decimal(i / 100), Decimal(i / 10), Decimal(i)] + ".pkg"
  }

  function Decimal(d: nat): char {
    ('0' as int + d % 10) as char
  }

  lemma NumberedNames(i: nat, j: nat)
    requires i < 10000 && j < 10000
    ensures !Skipped(Numbered(i)) && HasPkgExt(Numbered(i))
    ensures Numbered(i) == Numbered(j) ==> i == j
  {
    var a, b := Numbered(i), Numbered(j);
    assert |a| == 8 && a[4..] == ".pkg" && a[4] == '.';
    if a == b {
      hide Decimal, Skipped, HasPkgExt;
      assert a[0] == b[0] && a[1] == b[1] && a[2] == b[2] && a[3] == b[3];
      SameDigit(i / 1000, j / 1000);
      SameDigit(i / 100, j / 100);
      SameDigit(i / 10, j / 10);
      SameDigit(i, j);
      SameNumber(i, j);
    }
  }

  lemma SameNumber(i: nat, j: nat)
    requires i < 10000 && j < 10000
    requires i / 1000 % 10 == j / 1000 % 10 && i / 100 % 10 == j / 100 % 10 && i / 10 % 10 == j / 10 % 10
    requires i % 10 == j % 10
    ensures i == j
  {
    FourDigits(i);
    FourDigits(j);
  }

  lemma FourDigits(i: nat)
    requires i < 10000
    ensures i == 1000 * (i / 1000 % 10) + 100 * (i / 100 % 10) + 10 * (i / 10 % 10) + i % 10
  {
    assert i / 100 == i / 10 / 10 && i / 1000 == i / 100 / 10;
  }

  lemma SameDigit(d: nat, e: nat)
    requires Decimal(d) == Decimal(e)
    ensures d % 10 == e % 10
  {
    assert Decimal(d) as int == '0' as int + d % 10 && Decimal(e) as int == '0' as int + e % 10;
  }

  /** A stick with 0000.pkg to 1023.pkg and an empty folder. */
  function FullStick(): Tree {
    Dir("usb0", true, seq(PKG_MAX_RESULTS, i requires 0 <= i => File(Numbered(i), 0)) + [Dir("saves", true, [])])
  }

  /** No two entries of it share a name, as in every directory, and it is full. */
  lemma FullStickIsFull()
    ensures FullThenFolder(FullStick())
    ensures var cs := FullStick().children; forall i, j :: 0 <= i < j < |cs| ==> cs[i].name != cs[j].name
  {
    hide Numbered;
    var cs := FullStick().children;
    NoSkip();
    forall i, j | 0 <= i < j < |cs| ensures cs[i].name != cs[j].name {
      NumberedNames(i, if j < PKG_MAX_RESULTS then j else 0);
      if j == PKG_MAX_RESULTS {
        NumberedSize(i);
      }
    }
    forall i | 0 <= i < PKG_MAX_RESULTS ensures !Skipped(cs[i].name) && HasPkgExt(cs[i].name) {
      NumberedNames(i, i);
    }
  }

  lemma NoSkip()
    ensures !Skipped("saves")
  {
  }

  lemma NumberedSize(i: nat)
    ensures |Numbered(i)| == 8
  {
  }

  // -------------------------------------------------------------- completeness

  /** A chain of directory positions from `node` to a package file that the scan may go down. */
  ghost predicate Reaches(node: Tree, way: seq<nat>, depth: nat)
    decreases |way|
  {
    && way != [] && node.Dir? && node.opens && depth <= PKG_MAX_DEPTH && way[0] < |node.children|
    && var c := node.children[way[0]];
       !Skipped(c.name) && if |way| == 1 then c.File? && HasPkgExt(c.name) else Reaches(c, way[1..], depth + 1)
  }

  ghost function EntryAt(dir: string, node: Tree, way: seq<nat>, depth: nat): PkgEntry
    requires Reaches(node, way, depth)
    decreases |way|
  {
    var c := node.children[way[0]];
    if |way| == 1 then Entry(dir, c.name, c.size) else EntryAt(dir + "/" + c.name, c, way[1..], depth + 1)
  }

  /** The list holds an entry exactly when some way leads to its file. */
  lemma {:induction false} ListedIff(dir: string, node: Tree, depth: nat, e: PkgEntry)
    ensures e in ListDir(dir, node, depth) <==>
            exists way :: Reaches(node, way, depth) && EntryAt(dir, node, way, depth) == e
  {
    if e in ListDir(dir, node, depth) {
      var way := ListedHasWay(dir, node, 0, depth, e);
    }
    if way :| Reaches(node, way, depth) && EntryAt(dir, node, way, depth) == e {
      WayIsListed(dir, node, way, depth);
    }
  }

  lemma {:induction false} ListedHasWay(dir: string, node: Tree, i: nat, depth: nat, e: PkgEntry)
      returns (way: seq<nat>)
    requires node.Dir? && node.opens && depth <= PKG_MAX_DEPTH && i <= |node.children|
             && e in ListChildren(dir, node, i, depth)
    ensures Reaches(node, way, depth) && EntryAt(dir, node, way, depth) == e
    decreases node, |node.children| - i
  {
    hide HasPkgExt, Skipped, Entry;
    var c := node.children[i];
    if e in ListChildren(dir, node, i + 1, depth) {
      way := ListedHasWay(dir, node, i + 1, depth, e);
    } else if c.Dir? {
      var rest := ListedHasWay(dir + "/" + c.name, c, 0, depth + 1, e);
      way := [i] + rest;
      assert way[1..] == rest;
    } else {
      way := [i];
    }
  }

  lemma {:induction false} WayIsListed(dir: string, node: Tree, way: seq<nat>, depth: nat)
    requires Reaches(node, way, depth)
    ensures EntryAt(dir, node, way, depth) in ListDir(dir, node, depth)
    decreases |way|
  {
    hide HasPkgExt, Skipped, Entry;
    var c := node.children[way[0]];
    if |way| > 1 {
      WayIsListed(dir + "/" + c.name, c, way[1..], depth + 1);
    }
    ListedFrom(dir, node, 0, way[0], depth, EntryAt(dir, node, way, depth));
  }

  lemma {:induction false} ListedFrom(dir: string, node: Tree, i: nat, k: nat, depth: nat, e: PkgEntry)
    requires node.Dir? && i <= k < |node.children| && e in ListChildren(dir, node, k, depth)
    ensures e in ListChildren(dir, node, i, depth)
    decreases k - i
  {
    if i < k {
      ListedFrom(dir, node, i + 1, k, depth, e);
    }
  }

  // ----------------------------------------------------------- what is listed

  const NOT_ENTERED: set<string> := {".", "..", ".git", "node_modules"}
  const PKG_SUFFIXES: set<string> := {".pkg", ".pkG", ".pKg", ".pKG", ".Pkg", ".PkG", ".PKg", ".PKG"}

  /** Directories that open, each in the one before, and a package file at the end; the scan goes twelve levels down. */
  ghost predicate Chain(nodes: seq<Tree>, depth: nat) {
    && |nodes| >= 2 && depth + |nodes| - 2 <= 12
    && (forall i :: 0 <= i < |nodes| - 1 ==> nodes[i].Dir? && nodes[i].opens && nodes[i + 1] in nodes[i].children)
    && (forall i :: 1 <= i < |nodes| ==> nodes[i].name !in NOT_ENTERED)
    && IsPackage(nodes[|nodes| - 1])
  }

  predicate IsPackage(file: Tree) {
    file.File? && |file.name| >= 5 && file.name[|file.name| - 4..] in PKG_SUFFIXES
  }

  /** The names below a directory, joined. */
  function PathOf(dir: string, nodes: seq<Tree>): string {
    if |nodes| <= 1 then dir else PathOf(dir, nodes[..|nodes| - 1]) + "/" + nodes[|nodes| - 1].name
  }

  lemma {:induction false} PathBehind(dir: string, nodes: seq<Tree>)
    requires |nodes| >= 2
    ensures PathOf(dir, nodes) == PathOf(dir + "/" + nodes[1].name, nodes[1..])
    decreases |nodes|
  {
    if |nodes| > 2 {
      var front := nodes[..|nodes| - 1];
      PathBehind(dir, front);
      assert front[1..] == nodes[1..][..|nodes| - 2];
    } else {
      assert nodes[1..][..1] == nodes[1..];
      assert PathOf(dir, nodes[..1]) == dir;
    }
  }

  lemma PackageName(name: string)
    ensures HasPkgExt(name) <==> |name| >= 5 && name[|name| - 4..] in PKG_SUFFIXES
    ensures Skipped(name) <==> name in NOT_ENTERED
  {
    if |name| >= 5 {
      var ext := name[|name| - 4..];
      assert ext == [ext[0], ext[1], ext[2], ext[3]];
    }
  }

  lemma ChainTail(nodes: seq<Tree>, depth: nat)
    requires |nodes| >= 2
    ensures Chain(nodes, depth) <==>
              && depth <= 12 && nodes[0].Dir? && nodes[0].opens && nodes[1] in nodes[0].children
              && nodes[1].name !in NOT_ENTERED
              && if |nodes| == 2 then IsPackage(nodes[1]) else Chain(nodes[1..], depth + 1)
  {
    hide IsPackage;
    var tail := nodes[1..];
    if |nodes| > 2 {
      assert forall i :: 0 <= i < |tail| ==> tail[i] == nodes[i + 1];
      assert tail[|tail| - 1] == nodes[|nodes| - 1];
      if Chain(tail, depth + 1) && nodes[0].Dir? && nodes[0].opens && nodes[1] in nodes[0].children
         && nodes[1].name !in NOT_ENTERED {
        forall i | 0 <= i < |nodes| - 1
          ensures nodes[i].Dir? && nodes[i].opens && nodes[i + 1] in nodes[i].children
        {
          if i > 0 { assert tail[i - 1].Dir?; }
        }
        forall i | 1 <= i < |nodes| ensures nodes[i].name !in NOT_ENTERED {
          if i > 1 { assert tail[i - 1].name !in NOT_ENTERED; }
        }
      }
    }
  }

  /** The record a chain stands for: the joined path, the title id of the file's name, the file's size. */
  ghost predicate Records(dir: string, nodes: seq<Tree>, e: PkgEntry) {
    && |nodes| >= 2 && nodes[|nodes| - 1].File?
    && e == PkgEntry(PathOf(dir, nodes), TitleId.FirstTitleId(TitleId.Runs(nodes[|nodes| - 1].name)),
                     nodes[|nodes| - 1].size)
  }

  lemma {:induction false} WayHasChain(dir: string, node: Tree, way: seq<nat>, depth: nat) returns (nodes: seq<Tree>)
    requires Reaches(node, way, depth)
    ensures |nodes| >= 2 && nodes[0] == node && Chain(nodes, depth)
    ensures Records(dir, nodes, EntryAt(dir, node, way, depth))
    decreases |way|
  {
    hide HasPkgExt, Skipped, Chain, TitleId.FirstTitleId, TitleId.Runs;
    var c := node.children[way[0]];
    PackageName(c.name);
    if |way| == 1 {
      nodes := [node, c];
      assert nodes[..1] == [node] && PathOf(dir, [node]) == dir;
    } else {
      var rest := WayHasChain(dir + "/" + c.name, c, way[1..], depth + 1);
      nodes := [node] + rest;
      assert nodes[1..] == rest;
      PathBehind(dir, nodes);
    }
    ChainTail(nodes, depth);
  }

  lemma {:induction false} ChainHasWay(dir: string, nodes: seq<Tree>, depth: nat, e: PkgEntry) returns (way: seq<nat>)
    requires Chain(nodes, depth) && Records(dir, nodes, e)
    ensures Reaches(nodes[0], way, depth) && EntryAt(dir, nodes[0], way, depth) == e
    decreases |nodes|
  {
    hide HasPkgExt, Skipped, Chain, TitleId.FirstTitleId, TitleId.Runs;
    ChainTail(nodes, depth);
    PackageName(nodes[1].name);
    PathBehind(dir, nodes);
    var i :| 0 <= i < |nodes[0].children| && nodes[0].children[i] == nodes[1];
    if |nodes| == 2 {
      way := [i];
      assert PathOf(dir + "/" + nodes[1].name, nodes[1..]) == dir + "/" + nodes[1].name;
    } else {
      var rest := ChainHasWay(dir + "/" + nodes[1].name, nodes[1..], depth + 1, e);
      way := [i] + rest;
      assert way[1..] == rest;
    }
  }

  /**
   The list of a directory holds a record exactly when it is that of a package file some chain of directories leads to:
   none of the four names on the way, at most twelve levels down.
   */
  lemma ListedRule(dir: string, node: Tree, depth: nat, e: PkgEntry)
    ensures e in ListDir(dir, node, depth) <==>
              exists nodes :: Chain(nodes, depth) && nodes[0] == node && Records(dir, nodes, e)
  {
    hide ListDir, Records;
    ListedIff(dir, node, depth, e);
    if e in ListDir(dir, node, depth) {
      var way :| Reaches(node, way, depth) && EntryAt(dir, node, way, depth) == e;
      var nodes := WayHasChain(dir, node, way, depth);
    }
    if nodes :| Chain(nodes, depth) && nodes[0] == node && Records(dir, nodes, e) {
      var way := ChainHasWay(dir, nodes, depth, e);
    }
  }

  // -------------------------------------------------------------- the methods

  /** pkg_list_t */
  class PkgList {
    const entries: array<PkgEntry>
    var count: nat
    var overflow: bool

    /** memset of a fresh list. */
    constructor (blank: PkgEntry)
      ensures Valid() && fresh(entries) && Value() == State([], false)
    {
      entries := new PkgEntry[PKG_MAX_RESULTS](_ => blank);
      count, overflow := 0, false;
    }

    ghost predicate Valid()
      reads this
    {
      entries.Length == PKG_MAX_RESULTS && count <= PKG_MAX_RESULTS
    }

    ghost function Value(): State
      requires Valid()
      reads this, entries
    {
      State(entries[..count], overflow)
    }

    method Add(e: PkgEntry)
      requires Valid() && count < PKG_MAX_RESULTS
      modifies this`count, entries
      ensures Valid() && Value() == old(Value()).(items := old(Value()).items + [e])
    {
      entries[count] := e;
      count := count + 1;
    }
  }

  lemma RunOne(st: State, e: Event)
    ensures Run(st, [e]) == Step(st, e) && Run(st, []) == st
  {
    assert [e][1..] == [];
  }

  method ScanDirRecursive(dir: string, node: Tree, list: PkgList, depth: nat)
    requires list.Valid() && node.Dir?
    modifies list, list.entries
    ensures list.Valid() && list.Value() == Run(old(list.Value()), DirEvents(dir, node, depth))
    decreases node
  {
    hide Run, ChildEvents, Skipped, HasPkgExt, Entry;
    ghost var st := list.Value();
    RunOne(st, Enter);
    if depth > PKG_MAX_DEPTH {
      return;
    }
    ghost var rest := if node.opens then ChildEvents(dir, node, 0, depth) else [];
    RunAppend(st, [Enter], rest);
    if list.count >= PKG_MAX_RESULTS {
      list.overflow := true;
      RunWhenFull(list.Value(), rest);
      return;
    }
    if !node.opens {
      return;
    }
    var i := 0;
    while i < |node.children|
      invariant i <= |node.children| && list.Valid()
      invariant Run(st, DirEvents(dir, node, depth)) == Run(list.Value(), ChildEvents(dir, node, i, depth))
    {
      var c := node.children[i];
      ghost var now := list.Value();
      ChildStep(dir, node, i, depth);
      RunAppend(now, EventsOf(dir, c, depth), ChildEvents(dir, node, i + 1, depth));
      i := i + 1;
      if Skipped(c.name) {
        RunOne(now, Enter);
        continue;
      }
      if c.Dir? {
        ScanDirRecursive(dir + "/" + c.name, c, list, depth + 1);
      } else if c.File? && HasPkgExt(c.name) {
        RunOne(now, Found(Entry(dir, c.name, c.size)));
        if list.count >= PKG_MAX_RESULTS {
          list.overflow := true;
          RunWhenFull(list.Value(), ChildEvents(dir, node, i, depth));
          return;
        }
        list.Add(Entry(dir, c.name, c.size));
      } else {
        RunOne(now, Enter);
      }
    }
    ChildStep(dir, node, i, depth);
    RunOne(list.Value(), Enter);
  }

  lemma ChildStep(dir: string, node: Tree, i: nat, depth: nat)
    requires node.Dir? && i <= |node.children|
    ensures ChildEvents(dir, node, i, depth) ==
            if i == |node.children| then []
              else EventsOf(dir, node.children[i], depth) + ChildEvents(dir, node, i + 1, depth)
  {
  }

  // --------------------------------------------------------------- all roots

  /** What stat finds under a path. */
  type Mounts = map<string, Tree>

  function Digit(d: nat): string
    requires d < 8
  {
    ["01234567"[d]]
  }

  /** The k-th root: /mnt/usb0, /mnt/usb0.0 to /mnt/usb0.7, /mnt/usb1, ... */
  function Root(k: nat): string
    requires k < 72
  {
    "/mnt/usb" + Digit(k / 9) + if k % 9 == 0 then "" else "." + Digit(k % 9 - 1)
  }

  /** The roots are the eight sticks and the eight partitions of each, */
  lemma RootNames(stick: nat, partition: nat)
    requires stick < 8 && partition < 8
    ensures Root(9 * stick) == "/mnt/usb" + ["01234567"[stick]]
    ensures Root(9 * stick + 1 + partition) == "/mnt/usb" + ["01234567"[stick]] + "." + ["01234567"[partition]]
  {
    assert "" + "/mnt/usb" == "/mnt/usb";
    assert "/mnt/usb" + ["01234567"[stick]] + "" == "/mnt/usb" + ["01234567"[stick]];
  }

  /** all different. */
  lemma RootsDiffer(i: nat, k: nat)
    requires i < 72 && k < 72 && Root(i) == Root(k)
    ensures i == k
  {
    DigitAt(i);
    DigitAt(k);
    DigitsDiffer(i / 9, k / 9);
    if i % 9 != 0 && k % 9 != 0 {
      DigitsDiffer(i % 9 - 1, k % 9 - 1);
    }
  }

  lemma DigitAt(k: nat)
    requires k < 72
    ensures |Root(k)| == (if k % 9 == 0 then 9 else 11) && Root(k)[8] == "01234567"[k / 9]
    ensures k % 9 != 0 ==> Root(k)[10] == "01234567"[k % 9 - 1]
  {
  }

  lemma DigitsDiffer(a: nat, b: nat)
    requires a < 8 && b < 8 && "01234567"[a] == "01234567"[b]
    ensures a == b
  {
  }

  function RootEvents(mnt: Mounts, k: nat): seq<Event>
    requires k < 72
  {
    if Root(k) in mnt && mnt[Root(k)].Dir? then DirEvents(Root(k), mnt[Root(k)], 0) else []
  }

  /** The events of the first n roots. */
  function AllEvents(mnt: Mounts, n: nat): seq<Event>
    requires n <= 72
  {
    if n == 0 then [] else AllEvents(mnt, n - 1) + RootEvents(mnt, n - 1)
  }

  function ListRoots(mnt: Mounts, n: nat): seq<PkgEntry>
    requires n <= 72
  {
    if n == 0 then []
    else ListRoots(mnt, n - 1)
         + if Root(n - 1) in mnt && mnt[Root(n - 1)].Dir? then ListDir(Root(n - 1), mnt[Root(n - 1)], 0) else []
  }

  lemma {:induction false} PackagesOfRoots(mnt: Mounts, n: nat)
    requires n <= 72
    ensures Packages(AllEvents(mnt, n)) == ListRoots(mnt, n)
  {
    hide Packages, Root, ListDir, DirEvents;
    OnePackage(Enter);
    if n > 0 {
      PackagesOfRoots(mnt, n - 1);
      PackagesAppend(AllEvents(mnt, n - 1), RootEvents(mnt, n - 1));
      if Root(n - 1) in mnt {
        PackagesOfDir(Root(n - 1), mnt[Root(n - 1)], 0);
      }
    }
  }

  /** One root of the loop. */
  method ScanRoot(mnt: Mounts, k: nat, list: PkgList)
    requires k < 72 && list.Valid()
    modifies list, list.entries
    ensures list.Valid() && list.Value() == Run(old(list.Value()), RootEvents(mnt, k))
  {
    hide Run, Root, DirEvents;
    RunOne(list.Value(), Enter);
    if Root(k) in mnt && mnt[Root(k)].Dir? {
      ScanDirRecursive(Root(k), mnt[Root(k)], list, 0);
    }
  }

  /**
   Over all roots: the list is the first 1024 packages. A list without the flag is complete, more than 1024 packages
   raise it, and so does a directory entered behind exactly 1024.
   */
  method ScanAllUsb(mnt: Mounts, list: PkgList)
    requires list.Valid()
    modifies list, list.entries
    ensures list.Valid() && list.entries[..list.count] == Limit(ListRoots(mnt, 72))
    ensures !list.overflow ==> list.entries[..list.count] == ListRoots(mnt, 72)
    ensures list.overflow <==>
              var n := |ListRoots(mnt, 72)|;
              n > 1024 || (n == 1024 && EnteredLast(AllEvents(mnt, 72)))
  {
    hide Run, Step, AllEvents, RootEvents, ListRoots, EnteredLast;
    list.count, list.overflow := 0, false;
    ghost var st := list.Value();
    assert st == State([], false);
    NoRoots(mnt, st);
    for i := 0 to 8
      invariant list.Valid() && list.Value() == Run(st, AllEvents(mnt, 9 * i))
    {
      ScanRoot(mnt, 9 * i, list);
      NextRoot(mnt, 9 * i, st);
      for j := 0 to 8
        invariant list.Valid() && list.Value() == Run(st, AllEvents(mnt, 9 * i + 1 + j))
      {
        ScanRoot(mnt, 9 * i + 1 + j, list);
        NextRoot(mnt, 9 * i + 1 + j, st);
      }
    }
    PackagesOfRoots(mnt, 72);
    RunIsLimit(st, AllEvents(mnt, 72));
    assert [] + ListRoots(mnt, 72) == ListRoots(mnt, 72);
  }

  lemma NoRoots(mnt: Mounts, st: State)
    ensures Run(st, AllEvents(mnt, 0)) == st
  {
  }

  lemma NextRoot(mnt: Mounts, k: nat, st: State)
    requires k < 72
    ensures Run(st, AllEvents(mnt, k + 1)) == Run(Run(st, AllEvents(mnt, k)), RootEvents(mnt, k))
  {
    hide Run, RootEvents;
    RunAppend(st, AllEvents(mnt, k), RootEvents(mnt, k));
  }
}
