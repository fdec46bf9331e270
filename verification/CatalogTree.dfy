/** The catalog tree: building it from placed files, adding the parent
    directories, and hiding files from it.

    A path is the sequence of its nonempty segments, the root being the empty
    sequence. `dirs` maps each directory to its entries as in the source; what a
    directory contains is compared as a multiset of entries, and its listing as
    the sequence of sorted names. Where a file is placed (category, title, season)
    is an input. */
module CatalogTree {
  import opened NameOrder
  import opened Totals

  type Path = seq<string>

  /** The content key is made of the three parts that follow it. */
  datatype File = File(key: string, kind: string, downloadId: string, fileId: string, size: int)

  /** A file entry, or a subdirectory if there is no file. */
  datatype DirEntry = DirEntry(name: string, file: Option<File>)

  type Dirs = map<Path, seq<DirEntry>>

  function SubDir(name: string): DirEntry { DirEntry(name, None) }

  function FileAt(name: string, f: File): DirEntry { DirEntry(name, Some(f)) }

  function Parent(p: Path): Path
    requires p != []
  {
    p[..|p| - 1]
  }

  function Base(p: Path): string
    requires p != []
  {
    p[|p| - 1]
  }

  function DirOf(p: Path): Path { if p == [] then [] else Parent(p) }

  /** The base name of "/" is "/". */
  function NameOf(p: Path): string { if p == [] then "/" else Base(p) }

  /** The multiplicity of an entry in a directory. */
  ghost function Count(dirs: Dirs, d: Path, e: DirEntry): nat {
    if d in dirs then multiset(dirs[d])[e] else 0
  }

  function Entries(dirs: Dirs, d: Path): seq<DirEntry> { if d in dirs then dirs[d] else [] }

  // ---------------------------------------------------------------------
  // What a tree should be
  // ---------------------------------------------------------------------

  /** A file at its place. */
  datatype Leaf = Leaf(dir: Path, name: string, file: File)

  /** `d` is a directory: some file lies in it or below it. */
  ghost predicate HasDir(leaves: seq<Leaf>, d: Path) {
    exists l :: l in leaves && d <= l.dir
  }

  /** How often an entry belongs in a directory: a file as often as it was placed
      there, a subdirectory once if some file lies below it. */
  ghost function Expected(leaves: seq<Leaf>, d: Path, e: DirEntry): nat {
    match e.file
    case Some(f) => multiset(leaves)[Leaf(d, e.name, f)]
    case None => if HasDir(leaves, d + [e.name]) then 1 else 0
  }

  /** `d` holds exactly what belongs there. */
  ghost predicate DirAgrees(dirs: Dirs, leaves: seq<Leaf>, d: Path) {
    && (d in dirs <==> HasDir(leaves, d))
    && (forall e :: Count(dirs, d, e) == Expected(leaves, d, e))
  }

  /** The reference definition: exactly the directories and entries that the placed
      files call for. */
  ghost predicate IsTreeOf(dirs: Dirs, leaves: seq<Leaf>) {
    forall d :: DirAgrees(dirs, leaves, d)
  }

  // ---------------------------------------------------------------------
  // Parent directories
  // ---------------------------------------------------------------------

  ghost predicate Below(dirs: Dirs, d: Path) {
    exists p :: p in dirs && d <= p
  }

  ghost function SubDirsAfter(dirs0: Dirs, dirs: Dirs, d: Path, name: string): nat {
    if d + [name] in dirs && Count(dirs0, d, SubDir(name)) == 0 then 1 else Count(dirs0, d, SubDir(name))
  }

  /** Every ancestor is there, every directory but the root has an entry in its
      parent, and nothing else has been added, lost or moved. */
  ghost predicate ParentsAdded(dirs0: Dirs, dirs: Dirs) {
    && (forall d :: d in dirs <==> Below(dirs0, d))
    && (forall d: Path, e: DirEntry :: e.file.Some? ==> Count(dirs, d, e) == Count(dirs0, d, e))
    && (forall d, name :: Count(dirs, d, SubDir(name)) == SubDirsAfter(dirs0, dirs, d, name))
  }

  /** The state between two rounds of the loop. */
  ghost predicate Rounds(dirs0: Dirs, dirs: Dirs, seen: set<Path>) {
    && seen <= dirs.Keys && dirs0.Keys <= dirs.Keys
    && (forall d | d in dirs :: Below(dirs0, d))
    && (forall d: Path, e: DirEntry :: e.file.Some? ==> Count(dirs, d, e) == Count(dirs0, d, e))
    && (forall d, name :: Count(dirs, d, SubDir(name)) ==
          if d + [name] in seen && Count(dirs0, d, SubDir(name)) == 0 then 1 else Count(dirs0, d, SubDir(name)))
  }

  /** A directory met in this round whose parent has no entry for it. */
  ghost predicate Missing(dirs: Dirs, seen: set<Path>, p: Path) {
    p in dirs && p !in seen && p != [] && Count(dirs, Parent(p), SubDir(Base(p))) == 0
  }

  ghost predicate NoDuplicates<T>(s: seq<T>) {
    forall i, j | 0 <= i < j < |s| :: s[i] != s[j]
  }

  lemma ParentBase(p: Path)
    requires p != []
    ensures Parent(p) + [Base(p)] == p
  {
  }

  lemma ChildPath(d: Path, name: string)
    ensures d + [name] != [] && Parent(d + [name]) == d && Base(d + [name]) == name
  {
  }

  /** Appending one entry. */
  lemma CountAppend(dirs: Dirs, p: Path, entry: DirEntry)
    ensures forall d: Path, e: DirEntry ::
      Count(dirs[p := Entries(dirs, p) + [entry]], d, e) == Count(dirs, d, e) + (if d == p && e == entry then 1 else 0)
  {
  }

  /** The directories found in one round to lack an entry in their parent. */
  method CollectMissing(dirs: Dirs, seen: set<Path>) returns (additions: seq<Path>)
    ensures forall p :: p in additions <==> Missing(dirs, seen, p)
    ensures NoDuplicates(additions)
  {
    additions := [];
    var todo := dirs.Keys;
    while todo != {}
      invariant todo <= dirs.Keys
      invariant forall p :: p in additions <==> Missing(dirs, seen, p) && p !in todo
      invariant NoDuplicates(additions)
    {
      var p :| p in todo;
      if p !in seen && p != [] {
        var found := HasSubDir(Entries(dirs, Parent(p)), Base(p));
        if !found { additions := additions + [p]; }
      }
      todo := todo - {p};
    }
  }

  method HasSubDir(entries: seq<DirEntry>, name: string) returns (found: bool)
    ensures found <==> multiset(entries)[SubDir(name)] > 0
  {
    for i := 0 to |entries|
      invariant forall j | 0 <= j < i :: entries[j] != SubDir(name)
    {
      if entries[i].name == name && entries[i].file == None {
        assert entries[i] == SubDir(name) && entries[i] in multiset(entries);
        return true;
      }
    }
    assert SubDir(name) !in entries;
    return false;
  }

  ghost predicate Appended(dirs: Dirs, dirs': Dirs, additions: seq<Path>) {
    && (forall d :: d in dirs' <==> d in dirs || exists p :: p in additions && p != [] && Parent(p) == d)
    && (forall d: Path, e: DirEntry :: Count(dirs', d, e) ==
          Count(dirs, d, e) + (if e.file.None? && d + [e.name] in additions then 1 else 0))
  }

  method AppendAll(dirs: Dirs, additions: seq<Path>) returns (dirs': Dirs)
    requires NoDuplicates(additions) && [] !in additions
    ensures Appended(dirs, dirs', additions)
  {
    dirs' := dirs;
    for i := 0 to |additions|
      invariant Appended(dirs, dirs', additions[..i])
    {
      var p := additions[i];
      AppendOne(dirs, dirs', additions, i);
      dirs' := dirs'[Parent(p) := Entries(dirs', Parent(p)) + [SubDir(Base(p))]];
    }
    assert additions[..|additions|] == additions;
  }

  lemma AppendOne(dirs: Dirs, dirs1: Dirs, additions: seq<Path>, i: nat)
    requires NoDuplicates(additions) && [] !in additions && i < |additions|
    requires Appended(dirs, dirs1, additions[..i])
    ensures var p := additions[i];
      Appended(dirs, dirs1[Parent(p) := Entries(dirs1, Parent(p)) + [SubDir(Base(p))]], additions[..i + 1])
  {
    var p := additions[i];
    var dirs2 := dirs1[Parent(p) := Entries(dirs1, Parent(p)) + [SubDir(Base(p))]];
    CountAppend(dirs1, Parent(p), SubDir(Base(p)));
    ParentBase(p);
    assert additions[..i + 1] == additions[..i] + [p];
    assert p !in additions[..i];
    forall d, e
      ensures Count(dirs2, d, e) ==
        Count(dirs, d, e) + (if e.file.None? && d + [e.name] in additions[..i + 1] then 1 else 0)
    {
      ChildPath(d, e.name);
    }
  }

  lemma RoundKeepsBelow(dirs0: Dirs, dirs: Dirs, seen: set<Path>, additions: seq<Path>, dirs': Dirs, d: Path)
    requires Rounds(dirs0, dirs, seen) && Appended(dirs, dirs', additions) && d in dirs'
    requires forall p :: p in additions <==> Missing(dirs, seen, p)
    ensures Below(dirs0, d)
  {
    if d !in dirs {
      var p :| p in additions && p != [] && Parent(p) == d;
      var q :| q in dirs0 && p <= q;
      assert d <= q;
    }
  }

  lemma RoundKeepsSubDir(dirs0: Dirs, dirs: Dirs, seen: set<Path>, additions: seq<Path>, dirs': Dirs, d: Path,
                         name: string)
    requires Rounds(dirs0, dirs, seen) && Appended(dirs, dirs', additions)
    requires forall p :: p in additions <==> Missing(dirs, seen, p)
    ensures Count(dirs', d, SubDir(name)) ==
      if d + [name] in dirs.Keys && Count(dirs0, d, SubDir(name)) == 0 then 1 else Count(dirs0, d, SubDir(name))
  {
    ChildPath(d, name);
    assert d + [name] in additions <==> Missing(dirs, seen, d + [name]);
  }

  lemma RoundKeeps(dirs0: Dirs, dirs: Dirs, seen: set<Path>, additions: seq<Path>, dirs': Dirs)
    requires Rounds(dirs0, dirs, seen) && Appended(dirs, dirs', additions)
    requires forall p :: p in additions <==> Missing(dirs, seen, p)
    ensures Rounds(dirs0, dirs', dirs.Keys)
  {
    forall d | d in dirs' ensures Below(dirs0, d) { RoundKeepsBelow(dirs0, dirs, seen, additions, dirs', d); }
    forall d: Path, name: string
      ensures Count(dirs', d, SubDir(name)) ==
        if d + [name] in dirs.Keys && Count(dirs0, d, SubDir(name)) == 0 then 1 else Count(dirs0, d, SubDir(name))
    {
      RoundKeepsSubDir(dirs0, dirs, seen, additions, dirs', d, name);
    }
  }

  /** Once every directory has been met, every ancestor of every directory exists. */
  lemma {:induction false} AncestorPresent(dirs0: Dirs, dirs: Dirs, p: Path, d: Path)
    requires Rounds(dirs0, dirs, dirs.Keys) && p in dirs && d <= p
    ensures d in dirs
    decreases |p|
  {
    if d != p {
      ParentBase(p);
      assert Count(dirs, Parent(p), SubDir(Base(p))) > 0;
      AncestorPresent(dirs0, dirs, Parent(p), d);
    }
  }

  lemma RoundsEnd(dirs0: Dirs, dirs: Dirs)
    requires Rounds(dirs0, dirs, dirs.Keys)
    ensures ParentsAdded(dirs0, dirs)
  {
    forall d ensures d in dirs <==> Below(dirs0, d) {
      if Below(dirs0, d) {
        var p :| p in dirs0 && d <= p;
        AncestorPresent(dirs0, dirs, p, d);
      }
    }
  }

  ghost function MaxLength(paths: set<Path>): (m: nat)
    ensures forall p | p in paths :: |p| <= m
  {
    if paths == {} then 0
    else
      var p :| p in paths;
      var m := MaxLength(paths - {p});
      assert forall q | q in paths :: q == p || q in paths - {p};
      if |p| > m then |p| else m
  }

  class Tree {
    var dirs: Dirs

    constructor ()
      ensures dirs == map[]
    {
      dirs := map[];
    }

    /** Go's append to the slice at a key, which starts out empty. */
    method Add(d: Path, e: DirEntry)
      modifies this
      ensures dirs == old(dirs)[d := Entries(old(dirs), d) + [e]]
    {
      dirs := dirs[d := Entries(dirs, d) + [e]];
    }

    method ListDir(p: Path) returns (entries: seq<DirEntry>)
      ensures entries == Entries(dirs, p)
    {
      if p in dirs { return dirs[p]; }
      return [];
    }

    method Lookup(p: Path) returns (found: Option<File>)
      ensures found == FindFile(Entries(dirs, DirOf(p)), NameOf(p))
      ensures IsFirstFile(Entries(dirs, DirOf(p)), NameOf(p), found)
    {
      FindsFirst(Entries(dirs, DirOf(p)), NameOf(p));
      var entries := ListDir(DirOf(p));
      found := Search(entries, NameOf(p));
    }

    /** Rounds over the directories not met so far; each round can only create
        shorter ones, so there is a last round. */
    method BuildParentDirs()
      modifies this
      ensures ParentsAdded(old(dirs), dirs)
    {
      ghost var dirs0 := dirs;
      var seen: set<Path>, more := {}, true;
      ghost var bound := MaxLength(dirs.Keys) + 2;
      while more
        invariant Rounds(dirs0, dirs, seen)
        invariant if more then forall p | p in dirs && p !in seen :: |p| + 1 < bound else seen == dirs.Keys
        decreases more, bound
      {
        var next;
        more, next := Round(dirs0, dirs, seen, bound);
        seen, dirs, bound := dirs.Keys, next, bound - 1;
      }
      RoundsEnd(dirs0, dirs);
    }
  }

  /** One round: collect what is missing, then append it. */
  method Round(ghost dirs0: Dirs, dirs: Dirs, seen: set<Path>, ghost bound: int) returns (more: bool, dirs': Dirs)
    requires Rounds(dirs0, dirs, seen) && forall p | p in dirs && p !in seen :: |p| + 1 < bound
    ensures Rounds(dirs0, dirs', dirs.Keys)
    ensures more ==> bound > 0 && forall p | p in dirs' && p !in dirs :: |p| + 1 < bound - 1
    ensures !more ==> dirs' == dirs
  {
    var additions := CollectMissing(dirs, seen);
    if |additions| == 0 {
      RoundKeeps(dirs0, dirs, seen, [], dirs);
      return false, dirs;
    }
    assert Missing(dirs, seen, additions[0]);
    dirs' := AppendAll(dirs, additions);
    RoundKeeps(dirs0, dirs, seen, additions, dirs');
    return true, dirs';
  }

  // ---------------------------------------------------------------------
  // Sorting
  // ---------------------------------------------------------------------

  function Names(entries: seq<DirEntry>): (names: seq<string>)
    ensures |names| == |entries| && forall i | 0 <= i < |entries| :: names[i] == entries[i].name
  {
    seq(|entries|, i requires 0 <= i < |entries| => entries[i].name)
  }

  function InsertByName(e: DirEntry, entries: seq<DirEntry>): (r: seq<DirEntry>)
    ensures multiset(r) == multiset{e} + multiset(entries)
    ensures |r| == |entries| + 1
  {
    if entries == [] || NameLe(e.name, entries[0].name) then
      [e] + entries
    else
      assert entries == [entries[0]] + entries[1..];
      [entries[0]] + InsertByName(e, entries[1..])
  }

  function SortByName(entries: seq<DirEntry>): (r: seq<DirEntry>)
    ensures multiset(r) == multiset(entries) && |r| == |entries|
  {
    if entries == [] then [] else
      assert entries == [entries[0]] + entries[1..];
      InsertByName(entries[0], SortByName(entries[1..]))
  }

  lemma FirstSorted(e: DirEntry, s: seq<DirEntry>)
    requires SortedNames(Names(s)) && forall j | 0 <= j < |s| :: NameLe(e.name, s[j].name)
    ensures SortedNames(Names([e] + s))
  {
    forall i, j | 0 <= i < j < |s| + 1 ensures NameLe(([e] + s)[i].name, ([e] + s)[j].name) {
      if i > 0 { assert NameLe(Names(s)[i - 1], Names(s)[j - 1]); }
    }
  }

  lemma TailSorted(s: seq<DirEntry>)
    requires SortedNames(Names(s)) && s != []
    ensures SortedNames(Names(s[1..])) && forall j | 0 < j < |s| :: NameLe(s[0].name, s[j].name)
  {
    var tail := s[1..];
    forall i, j | 0 <= i < j < |tail| ensures NameLe(tail[i].name, tail[j].name) {
      assert NameLe(Names(s)[i + 1], Names(s)[j + 1]);
    }
    forall j | 0 < j < |s| ensures NameLe(s[0].name, s[j].name) { assert NameLe(Names(s)[0], Names(s)[j]); }
  }

  lemma {:induction false} InsertByNameSorted(e: DirEntry, entries: seq<DirEntry>)
    requires SortedNames(Names(entries))
    ensures SortedNames(Names(InsertByName(e, entries)))
    decreases |entries|
  {
    if entries == [] {
    } else if NameLe(e.name, entries[0].name) {
      TailSorted(entries);
      forall j | 0 <= j < |entries| ensures NameLe(e.name, entries[j].name) {
        if j > 0 { NameLeTransitive(e.name, entries[0].name, entries[j].name); }
      }
      FirstSorted(e, entries);
    } else {
      var tail := entries[1..];
      TailSorted(entries);
      InsertByNameSorted(e, tail);
      NameLeTotal(e.name, entries[0].name);
      var rest := InsertByName(e, tail);
      forall j | 0 <= j < |rest| ensures NameLe(entries[0].name, rest[j].name) {
        assert rest[j] in multiset(rest) && (rest[j] == e || rest[j] in tail);
      }
      FirstSorted(entries[0], rest);
    }
  }

  lemma {:induction false} SortByNameSorts(entries: seq<DirEntry>)
    ensures SortedNames(Names(SortByName(entries))) && Alphabetical(Names(SortByName(entries)))
    decreases |entries|
  {
    if entries != [] {
      SortByNameSorts(entries[1..]);
      InsertByNameSorted(entries[0], SortByName(entries[1..]));
    }
    SortedIsAlphabetical(Names(SortByName(entries)));
  }

  ghost predicate AllSorted(dirs: Dirs) {
    forall d | d in dirs :: Alphabetical(Names(dirs[d]))
  }

  /** The same directories with the same entries. */
  ghost predicate SameEntries(dirs: Dirs, dirs': Dirs) {
    && dirs.Keys == dirs'.Keys
    && forall d: Path, e: DirEntry :: Count(dirs, d, e) == Count(dirs', d, e)
  }

  method SortDirs(dirs: Dirs) returns (dirs': Dirs)
    ensures SameEntries(dirs, dirs') && AllSorted(dirs')
  {
    dirs' := dirs;
    var todo := dirs.Keys;
    while todo != {}
      invariant todo <= dirs.Keys && SameEntries(dirs, dirs')
      invariant forall d | d in dirs && d !in todo :: Alphabetical(Names(dirs'[d]))
    {
      var p :| p in todo;
      SortByNameSorts(dirs'[p]);
      dirs' := dirs'[p := SortByName(dirs'[p])];
      todo := todo - {p};
    }
  }

  // ---------------------------------------------------------------------
  // Looking up
  // ---------------------------------------------------------------------

  function FindFile(entries: seq<DirEntry>, name: string): Option<File> {
    if entries == [] then None
    else if entries[0].name == name && entries[0].file != None then entries[0].file
    else FindFile(entries[1..], name)
  }

  /** The file of the first file entry of that name, if there is one. */
  ghost predicate IsFirstFile(entries: seq<DirEntry>, name: string, found: Option<File>) {
    match found
    case Some(f) =>
      exists i :: 0 <= i < |entries| && entries[i] == FileAt(name, f) &&
        forall j | 0 <= j < i :: entries[j].name != name || entries[j].file.None?
    case None => forall e | e in entries :: e.name != name || e.file.None?
  }

  lemma {:induction false} FindsFirst(entries: seq<DirEntry>, name: string)
    ensures IsFirstFile(entries, name, FindFile(entries, name))
    decreases |entries|
  {
    if entries != [] && !(entries[0].name == name && entries[0].file != None) {
      var tail, found := entries[1..], FindFile(entries[1..], name);
      FindsFirst(tail, name);
      if found.Some? {
        var i :| 0 <= i < |tail| && tail[i] == FileAt(name, found.value) &&
          forall j | 0 <= j < i :: tail[j].name != name || tail[j].file.None?;
        assert entries[i + 1] == FileAt(name, found.value);
        assert forall j | 0 < j < i + 1 :: entries[j] == tail[j - 1];
      }
    } else if entries != [] {
      assert entries[0] == FileAt(name, entries[0].file.value);
    }
  }

  method Search(entries: seq<DirEntry>, name: string) returns (found: Option<File>)
    ensures found == FindFile(entries, name)
  {
    for i := 0 to |entries|
      invariant FindFile(entries, name) == FindFile(entries[i..], name)
    {
      if entries[i].name == name && entries[i].file != None { return entries[i].file; }
      assert entries[i..][1..] == entries[i + 1..];
    }
    return None;
  }

  /** Looking a path up finds a file exactly when one was placed there. */
  lemma LookupFinds(dirs: Dirs, leaves: seq<Leaf>, d: Path, name: string)
    requires DirAgrees(dirs, leaves, d)
    ensures var found := FindFile(Entries(dirs, d), name);
      if found.Some? then Leaf(d, name, found.value) in leaves else forall f :: Leaf(d, name, f) !in leaves
  {
    var entries := Entries(dirs, d);
    FindFileIn(entries, name);
    forall f ensures FileAt(name, f) in entries <==> Leaf(d, name, f) in leaves {
      assert Count(dirs, d, FileAt(name, f)) == Expected(leaves, d, FileAt(name, f));
      assert FileAt(name, f) in entries <==> FileAt(name, f) in multiset(entries);
      assert Leaf(d, name, f) in leaves <==> Leaf(d, name, f) in multiset(leaves);
    }
  }

  lemma {:induction false} FindFileIn(entries: seq<DirEntry>, name: string)
    ensures var found := FindFile(entries, name);
      if found.Some? then FileAt(name, found.value) in entries else forall f :: FileAt(name, f) !in entries
    decreases |entries|
  {
    if entries != [] {
      FindFileIn(entries[1..], name);
      assert entries == [entries[0]] + entries[1..];
    }
  }

  // ---------------------------------------------------------------------
  // Building
  // ---------------------------------------------------------------------

  /** One video file of a download: its directory below /movies or /series, its
      name there, and the title under which it also appears in /all. */
  datatype Placement = Placement(dir: Path, title: Path, name: string, file: File)

  function PlacedLeaf(p: Placement): Leaf { Leaf(p.dir, p.name, p.file) }

  function AllLeaf(p: Placement): Leaf { Leaf(["all"] + p.title, p.name, p.file) }

  function PlacedLeaves(ps: seq<Placement>): seq<Leaf> {
    if ps == [] then [] else PlacedLeaves(ps[..|ps| - 1]) + [PlacedLeaf(ps[|ps| - 1])]
  }

  function Keys(ps: seq<Placement>): set<string> { set p | p in ps :: p.file.key }

  /** The first placement of every content key. */
  function AllLeaves(ps: seq<Placement>): seq<Leaf> {
    if ps == [] then []
    else
      var init, p := ps[..|ps| - 1], ps[|ps| - 1];
      if p.file.key in Keys(init) then AllLeaves(init) else AllLeaves(init) + [AllLeaf(p)]
  }

  /** How many of the leaves have this content key. */
  function KeyCount(leaves: seq<Leaf>, key: string): nat {
    if leaves == [] then 0
    else KeyCount(leaves[..|leaves| - 1], key) + (if leaves[|leaves| - 1].file.key == key then 1 else 0)
  }

  /** /all has every content key exactly once, however often it was placed. */
  lemma {:induction false} AllHasEachKeyOnce(ps: seq<Placement>, key: string)
    ensures KeyCount(AllLeaves(ps), key) == if key in Keys(ps) then 1 else 0
    decreases |ps|
  {
    if ps != [] {
      var init, p := ps[..|ps| - 1], ps[|ps| - 1];
      assert ps == init + [p] && Keys(ps) == Keys(init) + {p.file.key};
      AllHasEachKeyOnce(init, key);
      assert (AllLeaves(init) + [AllLeaf(p)])[..|AllLeaves(init)|] == AllLeaves(init);
    }
  }

  function TreeLeaves(ps: seq<Placement>, allDir: bool): seq<Leaf> {
    PlacedLeaves(ps) + (if allDir then AllLeaves(ps) else [])
  }

  /** Only the files so far, without any subdirectory entry. */
  ghost predicate IsForest(dirs: Dirs, leaves: seq<Leaf>) {
    && (forall d :: d in dirs <==> exists l :: l in leaves && l.dir == d)
    && (forall d: Path, e: DirEntry :: Count(dirs, d, e) == FilesPlaced(leaves, d, e))
  }

  ghost function FilesPlaced(leaves: seq<Leaf>, d: Path, e: DirEntry): nat {
    match e.file
    case Some(f) => multiset(leaves)[Leaf(d, e.name, f)]
    case None => 0
  }

  lemma ForestAdd(dirs: Dirs, leaves: seq<Leaf>, l: Leaf)
    requires IsForest(dirs, leaves)
    ensures IsForest(dirs[l.dir := Entries(dirs, l.dir) + [FileAt(l.name, l.file)]], leaves + [l])
  {
    CountAppend(dirs, l.dir, FileAt(l.name, l.file));
    var dirs', leaves' := dirs[l.dir := Entries(dirs, l.dir) + [FileAt(l.name, l.file)]], leaves + [l];
    assert l in leaves' && multiset(leaves') == multiset(leaves) + multiset{l};
    forall d ensures d in dirs' <==> exists x :: x in leaves' && x.dir == d {
      if d in dirs {
        var x :| x in leaves && x.dir == d;
        assert x in leaves';
      }
    }
    forall d: Path, e: DirEntry ensures Count(dirs', d, e) == FilesPlaced(leaves', d, e) {
      assert Count(dirs, d, e) == FilesPlaced(leaves, d, e);
    }
  }

  lemma ForestBecomesTree(dirs0: Dirs, leaves: seq<Leaf>, dirs: Dirs)
    requires IsForest(dirs0, leaves) && ParentsAdded(dirs0, dirs)
    ensures IsTreeOf(dirs, leaves)
  {
    forall d ensures d in dirs <==> HasDir(leaves, d) {
      if HasDir(leaves, d) {
        var l :| l in leaves && d <= l.dir;
        assert l.dir in dirs0;
      }
    }
    forall d ensures DirAgrees(dirs, leaves, d) {
      forall e ensures Count(dirs, d, e) == Expected(leaves, d, e) {
        if e.file == None { assert e == SubDir(e.name); }
      }
    }
  }

  lemma TreeSameEntries(dirs: Dirs, dirs': Dirs, leaves: seq<Leaf>)
    requires IsTreeOf(dirs, leaves) && SameEntries(dirs, dirs')
    ensures IsTreeOf(dirs', leaves)
  {
    forall d ensures DirAgrees(dirs', leaves, d) {
      assert DirAgrees(dirs, leaves, d);
    }
  }

  method BuildTree(ps: seq<Placement>, allDir: bool) returns (t: Tree)
    ensures fresh(t) && IsTreeOf(t.dirs, TreeLeaves(ps, allDir)) && AllSorted(t.dirs)
  {
    t := new Tree();
    for i := 0 to |ps|
      invariant fresh(t) && IsForest(t.dirs, PlacedLeaves(ps[..i]))
    {
      ForestAdd(t.dirs, PlacedLeaves(ps[..i]), PlacedLeaf(ps[i]));
      t.Add(ps[i].dir, FileAt(ps[i].name, ps[i].file));
      assert ps[..i + 1][..i] == ps[..i];
    }
    assert ps[..|ps|] == ps;
    assert PlacedLeaves(ps) + [] == PlacedLeaves(ps);
    if allDir { AddAllDir(t, ps, PlacedLeaves(ps)); }
    ghost var forest := t.dirs;
    t.BuildParentDirs();
    ForestBecomesTree(forest, TreeLeaves(ps, allDir), t.dirs);
    ghost var unsorted := t.dirs;
    t.dirs := SortDirs(t.dirs);
    TreeSameEntries(unsorted, t.dirs, TreeLeaves(ps, allDir));
  }

  /** Every file once more under /all, the first placement of each key only. */
  method AddAllDir(t: Tree, ps: seq<Placement>, ghost leaves: seq<Leaf>)
    requires IsForest(t.dirs, leaves)
    modifies t
    ensures IsForest(t.dirs, leaves + AllLeaves(ps))
  {
    var seen: set<string> := {};
    assert leaves + AllLeaves(ps[..0]) == leaves;
    for i := 0 to |ps|
      invariant seen == Keys(ps[..i])
      invariant IsForest(t.dirs, leaves + AllLeaves(ps[..i]))
    {
      var p := ps[i];
      assert ps[..i + 1][..i] == ps[..i] && ps[..i + 1] == ps[..i] + [p];
      assert Keys(ps[..i + 1]) == Keys(ps[..i]) + {p.file.key};
      if p.file.key !in seen {
        seen := seen + {p.file.key};
        ForestAdd(t.dirs, leaves + AllLeaves(ps[..i]), AllLeaf(p));
        assert leaves + AllLeaves(ps[..i]) + [AllLeaf(p)] == leaves + AllLeaves(ps[..i + 1]);
        t.Add(["all"] + p.title, FileAt(p.name, p.file));
      } else {
        assert AllLeaves(ps[..i + 1]) == AllLeaves(ps[..i]);
      }
    }
    assert ps[..|ps|] == ps;
  }
}
