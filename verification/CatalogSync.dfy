/** Filling a directory inode from the catalog tree and merging a newer catalog
    tree into it, as functions on the value of the inode tree. */
module CatalogSync {
  import opened CatalogTree
  import opened Hiding
  import opened InodeTree
  import opened Totals

  /** How far below `d` directories can still lie. */
  ghost function Height(dirs: Dirs, d: Path): nat {
    var m := MaxLength(dirs.Keys);
    if |d| > m then 0 else m - |d| + 1
  }

  lemma HeightDrops(dirs: Dirs, d: Path, name: string)
    requires d in dirs
    ensures Height(dirs, d + [name]) < Height(dirs, d)
  {
  }

  // ---------------------------------------------------------------------
  // Populating
  // ---------------------------------------------------------------------

  /** The inode made for a new entry. */
  function NewNode(dirs: Dirs, d: Path, e: DirEntry): Node
    requires d in dirs
    decreases Height(dirs, d), 0, 0
  {
    HeightDrops(dirs, d, e.name);
    if e.file.Some? then Node(e.file, map[]) else Populate(dirs, d + [e.name])
  }

  /** The directory inode made for `d`. */
  function Populate(dirs: Dirs, d: Path): Node
    decreases Height(dirs, d), 2, 0
  {
    Node(None, PopulateUpTo(dirs, d, |Entries(dirs, d)|))
  }

  /** Its children after `k` entries; a name that is taken is not overwritten. */
  function PopulateUpTo(dirs: Dirs, d: Path, k: nat): map<string, Node>
    requires k <= |Entries(dirs, d)|
    decreases Height(dirs, d), 1, k
  {
    if k == 0 then map[]
    else
      var children, e := PopulateUpTo(dirs, d, k - 1), Entries(dirs, d)[k - 1];
      if e.name in children then children else children[e.name := NewNode(dirs, d, e)]
  }

  // ---------------------------------------------------------------------
  // Merging
  // ---------------------------------------------------------------------

  function Surviving(n: Node, names: seq<string>): map<string, Node> {
    map name | name in n.children && name in names :: n.children[name]
  }

  /** What is gone from the catalog goes, what is new is added, shared directories
      are merged, shared files stay as they are. */
  function Sync(n: Node, dirs: Dirs, d: Path): Node
    decreases Height(dirs, d), 2, 0
  {
    n.(children := SyncUpTo(n, dirs, d, |Entries(dirs, d)|))
  }

  function SyncUpTo(n: Node, dirs: Dirs, d: Path, k: nat): map<string, Node>
    requires k <= |Entries(dirs, d)|
    decreases Height(dirs, d), 1, k
  {
    if k == 0 then Surviving(n, Names(Entries(dirs, d)))
    else SyncEntry(SyncUpTo(n, dirs, d, k - 1), dirs, d, Entries(dirs, d)[k - 1])
  }

  function SyncEntry(children: map<string, Node>, dirs: Dirs, d: Path, e: DirEntry): map<string, Node>
    requires d in dirs
    decreases Height(dirs, d), 0, 0
  {
    HeightDrops(dirs, d, e.name);
    if e.name !in children then children[e.name := NewNode(dirs, d, e)]
    else if e.file.None? then children[e.name := Sync(children[e.name], dirs, d + [e.name])]
    else children
  }

  // ---------------------------------------------------------------------
  // What a reader of the directory sees
  // ---------------------------------------------------------------------

  /** The first entry of that name; a directory may list a name more than once. */
  function FirstNamed(entries: seq<DirEntry>, name: string): (r: Option<DirEntry>)
    ensures r.Some? ==> r.value in entries && r.value.name == name
    ensures r.None? ==> forall e | e in entries :: e.name != name
  {
    if entries == [] then None
    else if entries[0].name == name then Some(entries[0])
    else FirstNamed(entries[1..], name)
  }

  lemma {:induction false} FirstNamedAppend(entries: seq<DirEntry>, e: DirEntry, name: string)
    ensures FirstNamed(entries + [e], name) ==
      if FirstNamed(entries, name).Some? then FirstNamed(entries, name) else if e.name == name then Some(e) else None
    decreases |entries|
  {
    if entries == [] {
      assert entries + [e] == [e] && [e][1..] == [];
    } else {
      assert (entries + [e])[1..] == entries[1..] + [e];
      FirstNamedAppend(entries[1..], e, name);
    }
  }

  lemma NamedIff(entries: seq<DirEntry>, name: string)
    ensures name in Names(entries) <==> FirstNamed(entries, name).Some?
  {
    if name in Names(entries) {
      var i :| 0 <= i < |entries| && Names(entries)[i] == name;
      assert entries[i] in entries;
    }
    if FirstNamed(entries, name).Some? {
      var e := FirstNamed(entries, name).value;
      var i :| 0 <= i < |entries| && entries[i] == e;
      assert Names(entries)[i] == name;
    }
  }

  /** The inode `c` is of the kind the entry asks for; `exact`: the very file. */
  predicate SameSort(c: Node, e: Option<DirEntry>, exact: bool) {
    && e.Some? && c.file.Some? == e.value.file.Some?
    && (c.file.Some? ==> c.children == map[] && (exact ==> c.file == e.value.file))
  }

  /** The names below `n` are exactly the catalog's below `d`, each of the kind (and,
      if `exact`, the file) of the first entry of that name. */
  ghost predicate Matches(n: Node, dirs: Dirs, d: Path, exact: bool)
    decreases n, 0
  {
    && (forall name :: name in n.children <==> name in Names(Entries(dirs, d)))
    && (forall name | name in n.children :: ChildMatches(n.children[name], name, dirs, d, exact))
  }

  ghost predicate ChildMatches(c: Node, name: string, dirs: Dirs, d: Path, exact: bool)
    decreases c, 1
  {
    && SameSort(c, FirstNamed(Entries(dirs, d), name), exact)
    && (c.file.None? ==> Matches(c, dirs, d + [name], exact))
  }

  /** A name listed first for a file and again for a directory. */
  predicate Clash(dirs: Dirs, d: Path, name: string) {
    var first := FirstNamed(Entries(dirs, d), name);
    first.Some? && first.value.file.Some? && SubDir(name) in Entries(dirs, d)
  }

  /** Where `n` and the catalog share a path they agree on its kind, and in the
      directories they share no file's name clashes with a directory's. */
  ghost predicate Compatible(n: Node, dirs: Dirs, d: Path, exact: bool)
    decreases n, 0
  {
    && (forall name :: !Clash(dirs, d, name))
    && (forall name | name in n.children && name in Names(Entries(dirs, d)) ::
          ChildCompatible(n.children[name], name, dirs, d, exact))
  }

  ghost predicate ChildCompatible(c: Node, name: string, dirs: Dirs, d: Path, exact: bool)
    decreases c, 1
  {
    && SameSort(c, FirstNamed(Entries(dirs, d), name), exact)
    && (c.file.None? ==> Compatible(c, dirs, d + [name], exact))
  }

  /** Below the root every subdirectory is listed once and is not empty, as in every
      built tree. */
  ghost predicate Tame(dirs: Dirs) {
    forall d: Path, name: string | d != [] && SubDir(name) in Entries(dirs, d) ::
      multiset(Entries(dirs, d))[SubDir(name)] == 1 && Entries(dirs, d + [name]) != []
  }

  // ---------------------------------------------------------------------
  // What populating shows
  // ---------------------------------------------------------------------

  lemma PrefixEntries(entries: seq<DirEntry>, k: nat)
    requires 0 < k <= |entries|
    ensures entries[..k] == entries[..k - 1] + [entries[k - 1]]
  {
  }

  lemma {:induction false} PopulatedChild(dirs: Dirs, d: Path, k: nat, name: string)
    requires k <= |Entries(dirs, d)|
    ensures var first, children := FirstNamed(Entries(dirs, d)[..k], name), PopulateUpTo(dirs, d, k);
      (name in children <==> first.Some?) && (name in children ==> children[name] == NewNode(dirs, d, first.value))
    decreases k
  {
    if k > 0 {
      PopulatedChild(dirs, d, k - 1, name);
      PopulatedChild(dirs, d, k - 1, Entries(dirs, d)[k - 1].name);
      PrefixEntries(Entries(dirs, d), k);
      FirstNamedAppend(Entries(dirs, d)[..k - 1], Entries(dirs, d)[k - 1], name);
    }
  }

  /** A populated directory shows the catalog, whatever it lists; of several entries
      of one name it shows the first. */
  lemma {:induction false} PopulateMatches(dirs: Dirs, d: Path)
    ensures Matches(Populate(dirs, d), dirs, d, true)
    decreases Height(dirs, d)
  {
    var n, entries := Populate(dirs, d), Entries(dirs, d);
    assert entries[..|entries|] == entries;
    forall name ensures name in n.children <==> name in Names(entries) {
      PopulatedChild(dirs, d, |entries|, name);
      NamedIff(entries, name);
    }
    forall name | name in n.children ensures ChildMatches(n.children[name], name, dirs, d, true) {
      PopulatedChild(dirs, d, |entries|, name);
      NewNodeMatches(dirs, d, FirstNamed(entries, name).value, true);
    }
  }

  lemma {:induction false} NewNodeMatches(dirs: Dirs, d: Path, e: DirEntry, exact: bool)
    requires d in dirs
    ensures SameSort(NewNode(dirs, d, e), Some(e), exact)
    ensures e.file.None? ==> Matches(NewNode(dirs, d, e), dirs, d + [e.name], exact)
    decreases Height(dirs, d), 0
  {
    HeightDrops(dirs, d, e.name);
    if e.file.None? {
      PopulateMatches(dirs, d + [e.name]);
      if !exact { MatchesWeakens(NewNode(dirs, d, e), dirs, d + [e.name]); }
    }
  }

  lemma {:induction false} MatchesWeakens(n: Node, dirs: Dirs, d: Path)
    requires Matches(n, dirs, d, true)
    ensures Matches(n, dirs, d, false)
    decreases n
  {
    forall name | name in n.children ensures ChildMatches(n.children[name], name, dirs, d, false) {
      assert ChildMatches(n.children[name], name, dirs, d, true);
      if n.children[name].file.None? { MatchesWeakens(n.children[name], dirs, d + [name]); }
    }
  }

  // ---------------------------------------------------------------------
  // Convergence
  // ---------------------------------------------------------------------

  /** What a merge makes of a name, given the entries met so far. */
  function Merged(n: Node, dirs: Dirs, d: Path, entries: seq<DirEntry>, name: string): Node
    requires d in dirs && FirstNamed(entries, name).Some?
  {
    var first := FirstNamed(entries, name).value;
    if name !in n.children && first.file.None? then NewNode(dirs, d, first)
    else
      var base := if name in n.children then n.children[name] else NewNode(dirs, d, first);
      if SubDir(name) in entries then Sync(base, dirs, d + [name]) else base
  }

  /** The state of one name after `k` entries. */
  ghost predicate MergedUpTo(n: Node, dirs: Dirs, d: Path, k: nat, name: string)
    requires k <= |Entries(dirs, d)|
  {
    var children, met := SyncUpTo(n, dirs, d, k), Entries(dirs, d)[..k];
    if FirstNamed(met, name).Some? then name in children && children[name] == Merged(n, dirs, d, met, name)
    else
      && (name in children <==> name in n.children && name in Names(Entries(dirs, d)))
      && (name in children ==> children[name] == n.children[name])
  }

  lemma OnceInPrefix(entries: seq<DirEntry>, k: nat, e: DirEntry)
    requires k < |entries| && multiset(entries)[e] <= 1 && entries[k] == e
    ensures e !in entries[..k]
  {
    assert entries == entries[..k] + entries[k..] && entries[k..][0] == e;
    assert e in multiset(entries[k..]);
    assert e in entries[..k] <==> e in multiset(entries[..k]);
  }

  /** What one more entry does to `FirstNamed` and to the listed subdirectories. */
  lemma OneMoreMet(met: seq<DirEntry>, e: DirEntry, name: string)
    ensures SubDir(name) in met + [e] <==> SubDir(name) in met || e == SubDir(name)
    ensures FirstNamed(met + [e], name) ==
      if FirstNamed(met, name).Some? then FirstNamed(met, name) else if e.name == name then Some(e) else None
  {
    FirstNamedAppend(met, e, name);
  }

  lemma MergeOtherName(n: Node, dirs: Dirs, d: Path, k: nat, name: string)
    requires k < |Entries(dirs, d)| && MergedUpTo(n, dirs, d, k, name) && Entries(dirs, d)[k].name != name
    ensures MergedUpTo(n, dirs, d, k + 1, name)
  {
    var met, e := Entries(dirs, d)[..k], Entries(dirs, d)[k];
    assert Entries(dirs, d)[..k + 1] == met + [e];
    OneMoreMet(met, e, name);
  }

  lemma MergeFile(n: Node, dirs: Dirs, d: Path, k: nat)
    requires k < |Entries(dirs, d)| && Entries(dirs, d)[k].file.Some?
    requires MergedUpTo(n, dirs, d, k, Entries(dirs, d)[k].name)
    ensures MergedUpTo(n, dirs, d, k + 1, Entries(dirs, d)[k].name)
  {
    var met, e := Entries(dirs, d)[..k], Entries(dirs, d)[k];
    assert Entries(dirs, d)[..k + 1] == met + [e] && Names(Entries(dirs, d))[k] == e.name;
    OneMoreMet(met, e, e.name);
  }

  lemma MergeSubDir(n: Node, dirs: Dirs, d: Path, k: nat)
    requires Tame(dirs) && d != [] && k < |Entries(dirs, d)| && Entries(dirs, d)[k].file.None?
    requires MergedUpTo(n, dirs, d, k, Entries(dirs, d)[k].name)
    ensures MergedUpTo(n, dirs, d, k + 1, Entries(dirs, d)[k].name)
  {
    var met, e := Entries(dirs, d)[..k], Entries(dirs, d)[k];
    assert Entries(dirs, d)[..k + 1] == met + [e] && Names(Entries(dirs, d))[k] == e.name;
    assert e == SubDir(e.name) && e in Entries(dirs, d);
    OnceInPrefix(Entries(dirs, d), k, e);
    OneMoreMet(met, e, e.name);
  }

  lemma MergeOneMore(n: Node, dirs: Dirs, d: Path, k: nat, name: string)
    requires Tame(dirs) && d != [] && k < |Entries(dirs, d)| && MergedUpTo(n, dirs, d, k, name)
    ensures MergedUpTo(n, dirs, d, k + 1, name)
  {
    if Entries(dirs, d)[k].name != name {
      MergeOtherName(n, dirs, d, k, name);
    } else if Entries(dirs, d)[k].file.Some? {
      MergeFile(n, dirs, d, k);
    } else {
      MergeSubDir(n, dirs, d, k);
    }
  }

  lemma {:induction false} MergedChild(n: Node, dirs: Dirs, d: Path, k: nat, name: string)
    requires Tame(dirs) && d != [] && k <= |Entries(dirs, d)|
    ensures MergedUpTo(n, dirs, d, k, name)
    decreases k
  {
    if k > 0 {
      MergedChild(n, dirs, d, k - 1, name);
      MergeOneMore(n, dirs, d, k - 1, name);
    }
  }

  lemma SyncedChild(n: Node, dirs: Dirs, d: Path, name: string)
    requires Tame(dirs) && d != []
    ensures var s := Sync(n, dirs, d);
      && (name in s.children <==> name in Names(Entries(dirs, d)))
      && (name in Names(Entries(dirs, d)) <==> FirstNamed(Entries(dirs, d), name).Some?)
      && (name in s.children ==> s.children[name] == Merged(n, dirs, d, Entries(dirs, d), name))
  {
    MergedChild(n, dirs, d, |Entries(dirs, d)|, name);
    assert Entries(dirs, d)[..|Entries(dirs, d)|] == Entries(dirs, d);
    NamedIff(Entries(dirs, d), name);
  }

  /** Merging a listed directory leaves children: a file's inode is then no file as
      listed any more. */
  lemma ClashSpoils(n: Node, dirs: Dirs, d: Path, name: string)
    requires Tame(dirs) && d != [] && SubDir(name) in Entries(dirs, d)
    ensures Sync(n, dirs, d + [name]).children != map[]
  {
    var below := Entries(dirs, d + [name]);
    assert below != [] && below[0] in below;
    NamedIff(below, below[0].name);
    SyncedChild(n, dirs, d + [name], below[0].name);
  }

  lemma {:induction false} ChildConverges(n: Node, dirs: Dirs, d: Path, name: string, exact: bool)
    requires Tame(dirs) && d != [] && name in Names(Entries(dirs, d))
    requires name in n.children && n.children[name].file.None? ==>
      (Matches(Sync(n.children[name], dirs, d + [name]), dirs, d + [name], exact) <==>
        Compatible(n.children[name], dirs, d + [name], exact))
    ensures name in Sync(n, dirs, d).children
    ensures ChildMatches(Sync(n, dirs, d).children[name], name, dirs, d, exact) <==>
      !Clash(dirs, d, name) && (name in n.children ==> ChildCompatible(n.children[name], name, dirs, d, exact))
  {
    SyncedChild(n, dirs, d, name);
    var first := FirstNamed(Entries(dirs, d), name).value;
    if name !in n.children { NewNodeMatches(dirs, d, first, exact); }
    if Clash(dirs, d, name) {
      ClashSpoils(if name in n.children then n.children[name] else NewNode(dirs, d, first), dirs, d, name);
    } else if first.file.None? {
      assert first == SubDir(name);
    }
  }

  /** Whatever the inode tree was, after the merge it shows exactly the catalog's
      names and kinds below `d` if and only if the two agreed on the kind of every
      path they shared and no file's name clashed with a directory's; with `exact`,
      also the catalog's files, if and only if the shared files were the same. */
  lemma {:induction false} SyncConverges(n: Node, dirs: Dirs, d: Path, exact: bool)
    requires Tame(dirs) && d != []
    ensures Matches(Sync(n, dirs, d), dirs, d, exact) <==> Compatible(n, dirs, d, exact)
    decreases n
  {
    var s := Sync(n, dirs, d);
    forall name ensures name in s.children <==> name in Names(Entries(dirs, d)) { SyncedChild(n, dirs, d, name); }
    forall name | name in s.children
      ensures ChildMatches(s.children[name], name, dirs, d, exact) <==>
        !Clash(dirs, d, name) && (name in n.children ==> ChildCompatible(n.children[name], name, dirs, d, exact))
    {
      if name in n.children && n.children[name].file.None? { SyncConverges(n.children[name], dirs, d + [name], exact); }
      ChildConverges(n, dirs, d, name, exact);
    }
    forall name | name !in s.children ensures !Clash(dirs, d, name) { NamedIff(Entries(dirs, d), name); }
  }

  /** A path that stays a file keeps its old file, even if the catalog has another
      one there by now. */
  lemma SharedFileIsNotUpdated(n: Node, dirs: Dirs, d: Path, name: string, f: File)
    requires Tame(dirs) && d != [] && FileAt(name, f) in Entries(dirs, d) && name in n.children
    ensures name in Sync(n, dirs, d).children
    ensures SubDir(name) !in Entries(dirs, d) ==> Sync(n, dirs, d).children[name] == n.children[name]
  {
    SyncedChild(n, dirs, d, name);
    assert FileAt(name, f) in Entries(dirs, d) && FirstNamed(Entries(dirs, d), name).Some?;
  }

  lemma {:induction false} SyncLeavesAlone(n: Node, dirs: Dirs, d: Path, exact: bool)
    requires Tame(dirs) && d != [] && Matches(n, dirs, d, exact) && Compatible(n, dirs, d, exact)
    ensures Sync(n, dirs, d) == n
    decreases n
  {
    var s := Sync(n, dirs, d);
    forall name ensures name in s.children <==> name in n.children { SyncedChild(n, dirs, d, name); }
    forall name | name in n.children ensures s.children[name] == n.children[name] {
      SyncedChild(n, dirs, d, name);
      assert ChildMatches(n.children[name], name, dirs, d, exact) &&
        ChildCompatible(n.children[name], name, dirs, d, exact);
      assert !Clash(dirs, d, name);
      if n.children[name].file.None? { SyncLeavesAlone(n.children[name], dirs, d + [name], exact); }
    }
    assert s.children == n.children;
  }

  /** Merging a catalog that is already shown changes nothing, unless a file's name
      clashes with a directory's. */
  lemma SyncIdle(n: Node, dirs: Dirs, d: Path, exact: bool)
    requires Tame(dirs) && d != [] && Matches(n, dirs, d, exact)
    ensures Sync(n, dirs, d) == n <==> Compatible(n, dirs, d, exact)
  {
    SyncConverges(n, dirs, d, exact);
    if Compatible(n, dirs, d, exact) { SyncLeavesAlone(n, dirs, d, exact); }
  }

  // ---------------------------------------------------------------------
  // The inode tree and the catalog tree of the same files
  // ---------------------------------------------------------------------

  /** Which entries a listing has, from the placed files. */
  lemma EntryIff(dirs: Dirs, leaves: seq<Leaf>, d: Path, e: DirEntry)
    requires IsTreeBelowRoot(dirs, leaves) && d != []
    ensures e in Entries(dirs, d) <==>
      if e.file.Some? then Leaf(d, e.name, e.file.value) in leaves else HasDir(leaves, d + [e.name])
  {
    assert DirAgrees(dirs, leaves, d) && Count(dirs, d, e) == Expected(leaves, d, e);
    assert e in Entries(dirs, d) <==> e in multiset(Entries(dirs, d));
    if e.file.Some? {
      var l := Leaf(d, e.name, e.file.value);
      assert l in leaves <==> l in multiset(leaves);
    }
  }

  /** Below `d` no two files share a path and no file lies where a directory is. */
  ghost predicate UniqueBelow(leaves: seq<Leaf>, d: Path) {
    && (forall a, b | a in leaves && b in leaves && d <= a.dir && a.dir == b.dir && a.name == b.name ::
      a.file == b.file)
    && (forall l | l in leaves && d <= l.dir :: !HasDir(leaves, l.dir + [l.name]))
  }

  lemma UniqueDown(leaves: seq<Leaf>, d: Path, name: string)
    requires UniqueBelow(leaves, d)
    ensures UniqueBelow(leaves, d + [name])
  {
    assert forall l | l in leaves && d + [name] <= l.dir :: d <= l.dir;
  }

  /** Where names are unique, every entry is the first of its name. */
  lemma UniqueFirst(dirs: Dirs, leaves: seq<Leaf>, d: Path, e: DirEntry)
    requires IsTreeBelowRoot(dirs, leaves) && d != [] && UniqueBelow(leaves, d) && e in Entries(dirs, d)
    ensures FirstNamed(Entries(dirs, d), e.name) == Some(e) && !Clash(dirs, d, e.name)
  {
    var first := FirstNamed(Entries(dirs, d), e.name).value;
    EntryIff(dirs, leaves, d, first);
    EntryIff(dirs, leaves, d, e);
    EntryIff(dirs, leaves, d, SubDir(e.name));
    assert d <= d;
  }

  lemma TreeIsTame(dirs: Dirs, leaves: seq<Leaf>)
    requires IsTreeBelowRoot(dirs, leaves)
    ensures Tame(dirs)
  {
    forall d: Path, name: string | d != [] && SubDir(name) in Entries(dirs, d)
      ensures multiset(Entries(dirs, d))[SubDir(name)] == 1 && Entries(dirs, d + [name]) != []
    {
      EntryIff(dirs, leaves, d, SubDir(name));
      assert DirAgrees(dirs, leaves, d) && Count(dirs, d, SubDir(name)) == Expected(leaves, d, SubDir(name));
      ListedDirNotEmpty(dirs, leaves, d + [name]);
    }
  }

  lemma NamedEntry(dirs: Dirs, d: Path, name: string)
    ensures name in Names(Entries(dirs, d)) <==> exists e :: e in Entries(dirs, d) && e.name == name
  {
    if name in Names(Entries(dirs, d)) {
      var i :| 0 <= i < |Entries(dirs, d)| && Names(Entries(dirs, d))[i] == name;
      assert Entries(dirs, d)[i] in Entries(dirs, d);
    }
    if e :| e in Entries(dirs, d) && e.name == name {
      var i :| 0 <= i < |Entries(dirs, d)| && Entries(dirs, d)[i] == e;
      assert Names(Entries(dirs, d))[i] == name;
    }
  }

  lemma MatchesHoldsHere(n: Node, dirs: Dirs, leaves: seq<Leaf>, d: Path, name: string, f: File)
    requires IsTreeBelowRoot(dirs, leaves) && d != [] && UniqueBelow(leaves, d)
    requires n.file.None? && Matches(n, dirs, d, true)
    ensures name in n.children && n.children[name].file == Some(f) <==> Leaf(d, name, f) in leaves
  {
    NamedIff(Entries(dirs, d), name);
    EntryIff(dirs, leaves, d, FileAt(name, f));
    if Leaf(d, name, f) in leaves { UniqueFirst(dirs, leaves, d, FileAt(name, f)); }
    if name in n.children {
      assert ChildMatches(n.children[name], name, dirs, d, true);
      var first := FirstNamed(Entries(dirs, d), name).value;
      assert first == DirEntry(name, first.file);
    }
  }

  lemma MatchesDirHere(n: Node, dirs: Dirs, leaves: seq<Leaf>, d: Path, name: string)
    requires IsTreeBelowRoot(dirs, leaves) && d != [] && UniqueBelow(leaves, d) && Matches(n, dirs, d, true)
    ensures name in n.children && n.children[name].file.None? <==> HasDir(leaves, d + [name])
  {
    NamedIff(Entries(dirs, d), name);
    EntryIff(dirs, leaves, d, SubDir(name));
    if HasDir(leaves, d + [name]) { UniqueFirst(dirs, leaves, d, SubDir(name)); }
    if name in n.children {
      assert ChildMatches(n.children[name], name, dirs, d, true);
      var first := FirstNamed(Entries(dirs, d), name).value;
      assert first == DirEntry(name, first.file);
    }
  }

  lemma {:induction false} MatchesHolds(n: Node, dirs: Dirs, leaves: seq<Leaf>, d: Path, rel: Path, f: File)
    requires IsTreeBelowRoot(dirs, leaves) && d != [] && UniqueBelow(leaves, d)
    requires n.file.None? && Matches(n, dirs, d, true) && rel != []
    ensures Holds(n, rel, f) <==> Leaf(d + Parent(rel), Base(rel), f) in leaves
    decreases |rel|
  {
    var name := rel[0];
    if |rel| == 1 {
      assert d + Parent(rel) == d && rel[1..] == [];
      MatchesHoldsHere(n, dirs, leaves, d, name, f);
      if name in n.children { assert Holds(n, rel, f) <==> Holds(n.children[name], [], f); }
    } else {
      var rest := rel[1..];
      assert Parent(rest) == Parent(rel)[1..] && d + [name] + Parent(rest) == d + Parent(rel);
      var l := Leaf(d + Parent(rel), Base(rel), f);
      if l in leaves { assert d + [name] <= l.dir && HasDir(leaves, d + [name]); }
      MatchesDirHere(n, dirs, leaves, d, name);
      if name in n.children && n.children[name].file.None? {
        assert ChildMatches(n.children[name], name, dirs, d, true);
        UniqueDown(leaves, d, name);
        MatchesHolds(n.children[name], dirs, leaves, d + [name], rest, f);
      }
    }
  }

  lemma ListedDirNotEmpty(dirs: Dirs, leaves: seq<Leaf>, d: Path)
    requires IsTreeBelowRoot(dirs, leaves) && d != [] && HasDir(leaves, d)
    ensures Entries(dirs, d) != []
  {
    HasDirIff(leaves, d);
    var e :| Expected(leaves, d, e) > 0;
    assert DirAgrees(dirs, leaves, d) && Count(dirs, d, e) > 0;
  }

  lemma {:induction false} MatchesIsTidy(n: Node, dirs: Dirs, leaves: seq<Leaf>, d: Path)
    requires IsTreeBelowRoot(dirs, leaves) && d != [] && n.file.None? && Matches(n, dirs, d, true)
    ensures Tidy(n)
    decreases n
  {
    forall name | name in n.children ensures Tidy(n.children[name]) && !IsEmptyDir(n.children[name]) {
      var c := n.children[name];
      assert ChildMatches(c, name, dirs, d, true);
      var first := FirstNamed(Entries(dirs, d), name).value;
      if c.file.None? {
        MatchesIsTidy(c, dirs, leaves, d + [name]);
        EntryIff(dirs, leaves, d, first);
        ListedDirNotEmpty(dirs, leaves, d + [name]);
        var below := Entries(dirs, d + [name]);
        assert Names(below)[0] == below[0].name;
        assert below[0].name in c.children;
      }
    }
  }

  lemma MirrorsChild(n: Node, leaves: seq<Leaf>, d: Path, name: string)
    requires Mirrors(n, leaves, d) && name in n.children && n.children[name].file.None?
    ensures Mirrors(n.children[name], leaves, d + [name])
  {
    var c := n.children[name];
    forall rel: Path, f: File | rel != []
      ensures Holds(c, rel, f) <==> Leaf(d + [name] + Parent(rel), Base(rel), f) in leaves
    {
      var up := [name] + rel;
      assert up[1..] == rel && Base(up) == Base(rel) && d + Parent(up) == d + [name] + Parent(rel);
      assert Holds(n, up, f) <==> Leaf(d + Parent(up), Base(up), f) in leaves;
    }
  }

  /** Which children are files, from the placed files. */
  lemma MirrorsFile(n: Node, leaves: seq<Leaf>, d: Path, name: string, f: File)
    requires Mirrors(n, leaves, d)
    ensures name in n.children && n.children[name].file == Some(f) <==> Leaf(d, name, f) in leaves
  {
    var rel := [name];
    assert Parent(rel) == [] && d + [] == d && rel[1..] == [] && Base(rel) == name;
    assert Holds(n, rel, f) <==> Leaf(d + Parent(rel), Base(rel), f) in leaves;
    if name in n.children { assert Holds(n, rel, f) <==> Holds(n.children[name], [], f); }
  }

  lemma HoldsBelow(n: Node, rel: Path, f: File)
    requires Holds(n, rel, f) && |rel| > 1
    ensures rel[0] in n.children && n.children[rel[0]].file.None?
  {
    assert rel[1..] != [] && Holds(n.children[rel[0]], rel[1..], f);
  }

  /** Which children are directories. */
  lemma MirrorsDir(n: Node, leaves: seq<Leaf>, d: Path, name: string)
    requires Mirrors(n, leaves, d)
    ensures name in n.children && n.children[name].file.None? <==> HasDir(leaves, d + [name])
  {
    if HasDir(leaves, d + [name]) {
      var l :| l in leaves && d + [name] <= l.dir;
      var down := l.dir[|d|..] + [l.name];
      assert d + Parent(down) == l.dir && Base(down) == l.name && down[0] == name;
      assert Leaf(d + Parent(down), Base(down), l.file) in leaves;
      HoldsBelow(n, down, l.file);
    }
    if name in n.children && n.children[name].file.None? {
      var r, f := SomeFile(n.children[name]);
      var up := [name] + r;
      assert up[1..] == r && Holds(n, up, f) && r != [];
      assert Leaf(d + Parent(up), Base(up), f) in leaves;
      assert d + [name] <= d + Parent(up);
    }
  }

  lemma MirrorsNames(n: Node, dirs: Dirs, leaves: seq<Leaf>, d: Path, name: string)
    requires IsTreeBelowRoot(dirs, leaves) && d != [] && Mirrors(n, leaves, d)
    ensures name in n.children <==> name in Names(Entries(dirs, d))
  {
    NamedEntry(dirs, d, name);
    MirrorsDir(n, leaves, d, name);
    if name in n.children {
      var e := DirEntry(name, n.children[name].file);
      if e.file.Some? { MirrorsFile(n, leaves, d, name, e.file.value); }
      EntryIff(dirs, leaves, d, e);
      assert e in Entries(dirs, d);
    }
    if e :| e in Entries(dirs, d) && e.name == name {
      EntryIff(dirs, leaves, d, e);
      if e.file.Some? { MirrorsFile(n, leaves, d, name, e.file.value); }
    }
  }

  lemma {:induction false} MirrorsMatches(n: Node, dirs: Dirs, leaves: seq<Leaf>, d: Path)
    requires IsTreeBelowRoot(dirs, leaves) && d != [] && Mirrors(n, leaves, d)
    ensures Matches(n, dirs, d, true)
    decreases n
  {
    forall name ensures name in n.children <==> name in Names(Entries(dirs, d)) {
      MirrorsNames(n, dirs, leaves, d, name);
    }
    forall name | name in n.children ensures ChildMatches(n.children[name], name, dirs, d, true) {
      var c := n.children[name];
      assert Tidy(c);
      NamedIff(Entries(dirs, d), name);
      var first := FirstNamed(Entries(dirs, d), name).value;
      EntryIff(dirs, leaves, d, first);
      MirrorsDir(n, leaves, d, name);
      if first.file.Some? { MirrorsFile(n, leaves, d, name, first.file.value); }
      if c.file.None? {
        MirrorsChild(n, leaves, d, name);
        MirrorsMatches(c, dirs, leaves, d + [name]);
      }
    }
  }

  lemma {:induction false} HoldsOne(n: Node, rel: Path, f: File, g: File)
    requires Holds(n, rel, f) && Holds(n, rel, g)
    ensures f == g
    decreases |rel|
  {
    if rel != [] { HoldsOne(n.children[rel[0]], rel[1..], f, g); }
  }

  lemma {:induction false} NothingBelowFile(n: Node, rel: Path, more: Path, f: File, g: File)
    requires Holds(n, rel, f) && more != []
    ensures !Holds(n, rel + more, g)
    decreases |rel|
  {
    if rel == [] {
      assert rel + more == more;
    } else {
      assert (rel + more)[1..] == rel[1..] + more;
      NothingBelowFile(n.children[rel[0]], rel[1..], more, f, g);
    }
  }

  lemma LeafHeld(n: Node, leaves: seq<Leaf>, d: Path, l: Leaf)
    requires Mirrors(n, leaves, d) && l in leaves && d <= l.dir
    ensures Holds(n, l.dir[|d|..] + [l.name], l.file)
  {
    var rel := l.dir[|d|..] + [l.name];
    assert d + Parent(rel) == l.dir && Base(rel) == l.name;
    assert Holds(n, rel, l.file) <==> Leaf(d + Parent(rel), Base(rel), l.file) in leaves;
  }

  /** A tree can mirror only files that have their paths to themselves. */
  lemma MirrorsUnique(n: Node, leaves: seq<Leaf>, d: Path)
    requires Mirrors(n, leaves, d)
    ensures UniqueBelow(leaves, d)
  {
    forall a, b | a in leaves && b in leaves && d <= a.dir && a.dir == b.dir && a.name == b.name
      ensures a.file == b.file
    {
      LeafHeld(n, leaves, d, a);
      LeafHeld(n, leaves, d, b);
      HoldsOne(n, a.dir[|d|..] + [a.name], a.file, b.file);
    }
    forall l | l in leaves && d <= l.dir ensures !HasDir(leaves, l.dir + [l.name]) {
      LeafHeld(n, leaves, d, l);
      var rel := l.dir[|d|..] + [l.name];
      forall m | m in leaves ensures !(l.dir + [l.name] <= m.dir) {
        if l.dir + [l.name] <= m.dir {
          LeafHeld(n, leaves, d, m);
          var more := m.dir[|l.dir| + 1..] + [m.name];
          assert m.dir[|d|..] + [m.name] == rel + more;
          NothingBelowFile(n, rel, more, l.file, m.file);
        }
      }
    }
  }

  /** The two descriptions of "the inodes show the catalog": holding exactly the
      placed files without empty directories means having in every directory exactly
      the listed names with the listed kinds and files, and that no two placed files
      compete for a path. */
  lemma MirrorsIffMatches(n: Node, dirs: Dirs, leaves: seq<Leaf>, d: Path)
    requires IsTreeBelowRoot(dirs, leaves) && d != [] && n.file.None?
    ensures Mirrors(n, leaves, d) <==> Matches(n, dirs, d, true) && UniqueBelow(leaves, d)
  {
    if Mirrors(n, leaves, d) {
      MirrorsMatches(n, dirs, leaves, d);
      MirrorsUnique(n, leaves, d);
    }
    if Matches(n, dirs, d, true) && UniqueBelow(leaves, d) {
      MatchesIsTidy(n, dirs, leaves, d);
      forall rel: Path, f: File | rel != []
        ensures Holds(n, rel, f) <==> Leaf(d + Parent(rel), Base(rel), f) in leaves
      {
        MatchesHolds(n, dirs, leaves, d, rel, f);
      }
    }
  }

  lemma {:induction false} MatchesCompatible(n: Node, dirs: Dirs, leaves: seq<Leaf>, d: Path)
    requires IsTreeBelowRoot(dirs, leaves) && d != [] && UniqueBelow(leaves, d) && Matches(n, dirs, d, true)
    ensures Compatible(n, dirs, d, true)
    decreases n
  {
    forall name ensures !Clash(dirs, d, name) {
      var first := FirstNamed(Entries(dirs, d), name);
      if first.Some? { UniqueFirst(dirs, leaves, d, first.value); }
    }
    forall name | name in n.children ensures ChildCompatible(n.children[name], name, dirs, d, true) {
      assert ChildMatches(n.children[name], name, dirs, d, true);
      UniqueDown(leaves, d, name);
      if n.children[name].file.None? { MatchesCompatible(n.children[name], dirs, leaves, d + [name]); }
    }
  }

  /** Hiding in the inodes agrees with a rebuild: an inode tree that shows the
      catalog of `leaves` shows, after the keys are removed from it, the catalog that
      `ApplyHides` makes, and merging that catalog changes nothing more. */
  lemma HideAgreesWithRebuild(n: Node, dirs: Dirs, leaves: seq<Leaf>, d: Path, keys: set<string>, filtered: Dirs)
    requires IsTreeBelowRoot(dirs, leaves) && d != [] && n.file.None? && Matches(n, dirs, d, true) &&
      UniqueBelow(leaves, d)
    requires IsHiddenTreeOf(filtered, Visible(leaves, keys))
    ensures Matches(Hide(n, keys), filtered, d, true)
    ensures Sync(Hide(n, keys), filtered, d) == Hide(n, keys)
  {
    var visible := Visible(leaves, keys);
    MirrorsIffMatches(n, dirs, leaves, d);
    HideMirrors(n, leaves, d, keys);
    HiddenIsBelowRoot(filtered, visible);
    MirrorsIffMatches(Hide(n, keys), filtered, visible, d);
    TreeIsTame(filtered, visible);
    MatchesCompatible(Hide(n, keys), filtered, visible, d);
    SyncIdle(Hide(n, keys), filtered, d, true);
  }

  /** Where two files compete for a path it does not: the one that is shown is
      hidden, the inodes lose the name, and a rebuild lists it for the other. */
  lemma HiddenDuplicate(n: Node, dirs: Dirs, leaves: seq<Leaf>, d: Path, name: string, f: File, g: File,
                        keys: set<string>, filtered: Dirs)
    requires IsTreeBelowRoot(dirs, leaves) && d != [] && n.file.None? && Matches(n, dirs, d, true)
    requires FirstNamed(Entries(dirs, d), name) == Some(FileAt(name, f)) && Leaf(d, name, g) in leaves
    requires f.key in keys && g.key !in keys && IsHiddenTreeOf(filtered, Visible(leaves, keys))
    ensures name !in Hide(n, keys).children && name in Names(Entries(filtered, d))
  {
    NamedIff(Entries(dirs, d), name);
    assert ChildMatches(n.children[name], name, dirs, d, true);
    HideChild(n, keys, name);
    VisibleMember(leaves, keys, Leaf(d, name, g));
    HiddenIsBelowRoot(filtered, Visible(leaves, keys));
    EntryIff(filtered, Visible(leaves, keys), d, FileAt(name, g));
    NamedEntry(filtered, d, name);
  }

  // ---------------------------------------------------------------------
  // All categories
  // ---------------------------------------------------------------------

  /** What a merge does to one category of the root. */
  ghost function SyncCategory(children: map<string, Node>, dirs: Dirs, cat: string): map<string, Node> {
    if cat in children then children[cat := Sync(children[cat], dirs, [cat])]
    else if Entries(dirs, [cat]) == [] then children
    else children[cat := Populate(dirs, [cat])]
  }

  ghost function SyncCategories(children: map<string, Node>, dirs: Dirs, cats: seq<string>): map<string, Node> {
    if cats == [] then children
    else SyncCategory(SyncCategories(children, dirs, cats[..|cats| - 1]), dirs, cats[|cats| - 1])
  }

  lemma {:induction false} CategoryIsSynced(children: map<string, Node>, dirs: Dirs, cats: seq<string>, name: string)
    requires NoDuplicates(cats)
    ensures var synced, one := SyncCategories(children, dirs, cats), SyncCategory(children, dirs, name);
      if name in cats then (name in synced <==> name in one) && (name in synced ==> synced[name] == one[name])
      else (name in synced <==> name in children) && (name in synced ==> synced[name] == children[name])
    decreases |cats|
  {
    if cats != [] {
      var init, last := cats[..|cats| - 1], cats[|cats| - 1];
      assert cats == init + [last] && last !in init;
      CategoryIsSynced(children, dirs, init, name);
    }
  }

  /** Every category directory that exists agrees with the catalog on what they
      share, and no two of its files compete for a path. */
  ghost predicate AllAgree(n: Node, dirs: Dirs, leaves: seq<Leaf>, cats: seq<string>) {
    forall cat | cat in cats ::
      UniqueBelow(leaves, [cat]) && (cat in n.children ==> Compatible(n.children[cat], dirs, [cat], true))
  }

  ghost predicate DirsOnly(n: Node, cats: seq<string>) {
    forall cat | cat in cats && cat in n.children :: n.children[cat].file.None?
  }

  lemma NoCategory(dirs: Dirs, leaves: seq<Leaf>, cat: string)
    requires IsTreeBelowRoot(dirs, leaves)
    ensures Entries(dirs, [cat]) == [] <==> !HasDir(leaves, [cat])
  {
    if HasDir(leaves, [cat]) {
      ListedDirNotEmpty(dirs, leaves, [cat]);
    } else {
      assert DirAgrees(dirs, leaves, [cat]);
    }
  }

  lemma CategoryShown(n: Node, dirs: Dirs, leaves: seq<Leaf>, cats: seq<string>, cat: string)
    requires IsTreeBelowRoot(dirs, leaves) && NoDuplicates(cats) && cat in cats
    requires cat in n.children ==> n.children[cat].file.None?
    ensures var synced := SyncCategories(n.children, dirs, cats);
      (if cat in synced then Mirrors(synced[cat], leaves, [cat]) else !HasDir(leaves, [cat])) <==>
        UniqueBelow(leaves, [cat]) && (cat in n.children ==> Compatible(n.children[cat], dirs, [cat], true))
  {
    CategoryIsSynced(n.children, dirs, cats, cat);
    NoCategory(dirs, leaves, cat);
    TreeIsTame(dirs, leaves);
    if cat in n.children {
      SyncConverges(n.children[cat], dirs, [cat], true);
      MirrorsIffMatches(Sync(n.children[cat], dirs, [cat]), dirs, leaves, [cat]);
    } else if Entries(dirs, [cat]) != [] {
      PopulateMatches(dirs, [cat]);
      MirrorsIffMatches(Populate(dirs, [cat]), dirs, leaves, [cat]);
    } else {
      assert forall l | l in leaves :: !([cat] <= l.dir);
    }
  }

  /** After merging the catalog of `leaves`, the inodes show exactly those files if
      and only if they agreed with the catalog on everything they shared and no two
      of the files compete for a path. */
  lemma SyncShows(n: Node, dirs: Dirs, leaves: seq<Leaf>, cats: seq<string>)
    requires IsTreeBelowRoot(dirs, leaves) && NoDuplicates(cats) && DirsOnly(n, cats)
    ensures Shows(Node(n.file, SyncCategories(n.children, dirs, cats)), leaves, cats) <==>
      AllAgree(n, dirs, leaves, cats)
  {
    forall cat | cat in cats
      ensures var synced := SyncCategories(n.children, dirs, cats);
        (if cat in synced then Mirrors(synced[cat], leaves, [cat]) else !HasDir(leaves, [cat])) <==>
          UniqueBelow(leaves, [cat]) && (cat in n.children ==> Compatible(n.children[cat], dirs, [cat], true))
    {
      CategoryShown(n, dirs, leaves, cats, cat);
    }
  }
}
