/** Hiding files from a catalog tree (`ApplyHides`), and why it agrees with building
    the tree from the visible files only. */
module Hiding {
  import opened CatalogTree
  import opened NameOrder
  import opened Totals

  function Visible(leaves: seq<Leaf>, hidden: set<string>): seq<Leaf> {
    if leaves == [] then []
    else
      var init, l := leaves[..|leaves| - 1], leaves[|leaves| - 1];
      if l.file.key in hidden then Visible(init, hidden) else Visible(init, hidden) + [l]
  }

  predicate IsHidden(e: DirEntry, hidden: set<string>) { e.file.Some? && e.file.value.key in hidden }

  lemma {:induction false} VisibleCount(leaves: seq<Leaf>, hidden: set<string>, l: Leaf)
    ensures multiset(Visible(leaves, hidden))[l] == if l.file.key in hidden then 0 else multiset(leaves)[l]
    decreases |leaves|
  {
    if leaves != [] {
      var init, last := leaves[..|leaves| - 1], leaves[|leaves| - 1];
      VisibleCount(init, hidden, l);
      assert leaves == init + [last];
    }
  }

  lemma VisibleMember(leaves: seq<Leaf>, hidden: set<string>, l: Leaf)
    ensures l in Visible(leaves, hidden) <==> l in leaves && l.file.key !in hidden
  {
    VisibleCount(leaves, hidden, l);
    assert l in multiset(Visible(leaves, hidden)) <==> l in Visible(leaves, hidden);
    assert l in multiset(leaves) <==> l in leaves;
  }

  /** How often an entry belongs in a directory after hiding: below the root as in
      the tree of the visible files. The root's own subdirectory entries are lost,
      because the source looks for the children of "/" under "//name", which is
      nobody's path. */
  ghost function Wanted(visible: seq<Leaf>, d: Path, e: DirEntry): nat {
    if d == [] && e.file.None? then 0 else Expected(visible, d, e)
  }

  ghost predicate AnyWanted(visible: seq<Leaf>, d: Path) {
    exists e :: Wanted(visible, d, e) > 0
  }

  ghost predicate HiddenDir(dirs: Dirs, visible: seq<Leaf>, d: Path) {
    && (d in dirs <==> AnyWanted(visible, d))
    && (forall e :: Count(dirs, d, e) == Wanted(visible, d, e))
  }

  /** A tree whose root may lack subdirectory entries. */
  ghost predicate IsTreeBelowRoot(dirs: Dirs, leaves: seq<Leaf>) {
    && (forall d | d != [] :: DirAgrees(dirs, leaves, d))
    && (forall e: DirEntry | e.file.Some? :: Count(dirs, [], e) == Expected(leaves, [], e))
  }

  lemma TreeIsBelowRoot(dirs: Dirs, leaves: seq<Leaf>)
    requires IsTreeOf(dirs, leaves)
    ensures IsTreeBelowRoot(dirs, leaves)
  {
    assert DirAgrees(dirs, leaves, []);
  }

  /** What a tree is after hiding. */
  ghost predicate IsHiddenTreeOf(dirs: Dirs, visible: seq<Leaf>) {
    forall d :: HiddenDir(dirs, visible, d)
  }

  // ---------------------------------------------------------------------
  // Dropping the hidden files
  // ---------------------------------------------------------------------

  /** The loop that keeps an entry unless it is a hidden file. */
  method KeepEntries(entries: seq<DirEntry>, hidden: set<string>) returns (kept: seq<DirEntry>)
    ensures forall e: DirEntry :: multiset(kept)[e] == if IsHidden(e, hidden) then 0 else multiset(entries)[e]
  {
    kept := [];
    for i := 0 to |entries|
      invariant forall e: DirEntry :: multiset(kept)[e] == if IsHidden(e, hidden) then 0 else multiset(entries[..i])[e]
    {
      assert entries[..i + 1] == entries[..i] + [entries[i]];
      if !IsHidden(entries[i], hidden) { kept := kept + [entries[i]]; }
    }
    assert entries[..|entries|] == entries;
  }

  /** `kept` is `dirs` without hidden files and without directories left empty. */
  ghost predicate Filtered(dirs: Dirs, hidden: set<string>, kept: Dirs) {
    && (forall d: Path, e: DirEntry :: Count(kept, d, e) == if IsHidden(e, hidden) then 0 else Count(dirs, d, e))
    && (forall d | d in kept :: kept[d] != [])
  }

  method FilterDirs(dirs: Dirs, hidden: set<string>) returns (kept: Dirs)
    ensures Filtered(dirs, hidden, kept)
  {
    kept := map[];
    var todo := dirs.Keys;
    while todo != {}
      invariant todo <= dirs.Keys && kept.Keys !! todo
      invariant forall d: Path, e: DirEntry | d !in todo ::
        Count(kept, d, e) == if IsHidden(e, hidden) then 0 else Count(dirs, d, e)
      invariant forall d | d in kept :: kept[d] != []
    {
      var p :| p in todo;
      var entries := KeepEntries(dirs[p], hidden);
      todo := todo - {p};
      if |entries| > 0 { kept := kept[p := entries]; }
    }
  }

  lemma NonEmptyCount(entries: seq<DirEntry>)
    ensures entries != [] <==> exists e :: multiset(entries)[e] > 0
  {
    if entries != [] { assert entries[0] in multiset(entries); }
    if e :| multiset(entries)[e] > 0 { assert e in entries; }
  }

  /** A directory survives the filter exactly when it has a visible entry. */
  lemma KeptDir(dirs: Dirs, hidden: set<string>, kept: Dirs, d: Path)
    requires Filtered(dirs, hidden, kept)
    ensures d in kept <==> exists e :: !IsHidden(e, hidden) && Count(dirs, d, e) > 0
  {
    if d in kept {
      NonEmptyCount(kept[d]);
      var e :| multiset(kept[d])[e] > 0;
      assert Count(kept, d, e) > 0;
      assert !IsHidden(e, hidden) && Count(dirs, d, e) > 0;
    }
    if e :| !IsHidden(e, hidden) && Count(dirs, d, e) > 0 { assert Count(kept, d, e) > 0; }
  }

  lemma SubDirPresent(dirs: Dirs, leaves: seq<Leaf>, d: Path, name: string)
    requires IsTreeBelowRoot(dirs, leaves) && d != [] && HasDir(leaves, d + [name])
    ensures Count(dirs, d, SubDir(name)) == 1
  {
    assert DirAgrees(dirs, leaves, d);
    assert Count(dirs, d, SubDir(name)) == Expected(leaves, d, SubDir(name));
  }

  /** Subdirectory entries survive the filter, so after it no parent is missing and
      adding parents again changes nothing below the root. */
  lemma {:induction false} KeptAncestor(dirs: Dirs, leaves: seq<Leaf>, hidden: set<string>, kept: Dirs, p: Path,
                                        d: Path)
    requires IsTreeBelowRoot(dirs, leaves) && Filtered(dirs, hidden, kept) && p in kept && d <= p && d != []
    ensures d in kept
    decreases |p|
  {
    if d != p {
      assert d <= Parent(p) && Parent(p) != [];
      assert DirAgrees(dirs, leaves, p) && p in dirs by { KeptDir(dirs, hidden, kept, p); }
      ParentBase(p);
      SubDirPresent(dirs, leaves, Parent(p), Base(p));
      KeptDir(dirs, hidden, kept, Parent(p));
      assert !IsHidden(SubDir(Base(p)), hidden);
      KeptAncestor(dirs, leaves, hidden, kept, Parent(p), d);
    }
  }

  /** The same entries, the root's subdirectory entries aside. */
  ghost predicate SameBelowRoot(a: Dirs, b: Dirs) {
    && (forall d | d != [] :: d in a <==> d in b)
    && (forall d: Path, e: DirEntry | d != [] || e.file.Some? :: Count(a, d, e) == Count(b, d, e))
  }

  lemma NoParentMissing(dirs: Dirs, leaves: seq<Leaf>, hidden: set<string>, kept: Dirs, kept': Dirs)
    requires IsTreeBelowRoot(dirs, leaves) && Filtered(dirs, hidden, kept) && ParentsAdded(kept, kept')
    ensures SameBelowRoot(kept, kept')
  {
    forall d | d != [] ensures d in kept' <==> d in kept {
      if d in kept' {
        var p :| p in kept && d <= p;
        KeptAncestor(dirs, leaves, hidden, kept, p, d);
      }
    }
    forall d: Path, e: DirEntry | d != [] && e.file.None? ensures Count(kept, d, e) == Count(kept', d, e) {
      assert e == SubDir(e.name);
      if d + [e.name] in kept {
        KeptDir(dirs, hidden, kept, d + [e.name]);
        assert DirAgrees(dirs, leaves, d + [e.name]) && d + [e.name] in dirs;
        SubDirPresent(dirs, leaves, d, e.name);
      }
    }
  }

  // ---------------------------------------------------------------------
  // Pruning bottom-up
  // ---------------------------------------------------------------------

  /** The source asks for `dirPath + "/" + name`; for the root that is no path. */
  predicate ChildKnown(dirs: Dirs, d: Path, name: string) { d != [] && d + [name] in dirs }

  /** Whether the pass keeps an entry of `d`. */
  predicate Keeps(dirs: Dirs, d: Path, e: DirEntry) { e.file.Some? || ChildKnown(dirs, d, e.name) }

  method ValidEntries(dirs: Dirs, d: Path, entries: seq<DirEntry>) returns (valid: seq<DirEntry>)
    ensures forall e: DirEntry :: multiset(valid)[e] == if Keeps(dirs, d, e) then multiset(entries)[e] else 0
  {
    valid := [];
    for i := 0 to |entries|
      invariant forall e: DirEntry :: multiset(valid)[e] == if Keeps(dirs, d, e) then multiset(entries[..i])[e] else 0
    {
      assert entries[..i + 1] == entries[..i] + [entries[i]];
      if entries[i].file == None {
        if ChildKnown(dirs, d, entries[i].name) { valid := valid + [entries[i]]; }
      } else {
        valid := valid + [entries[i]];
      }
    }
    assert entries[..|entries|] == entries;
  }

  /** What the filter leaves of a tree, relative to the visible files. */
  ghost predicate KeptTree(kept: Dirs, leaves: seq<Leaf>, visible: seq<Leaf>) {
    && (forall d: Path, e: DirEntry | d != [] || e.file.Some? ::
          Count(kept, d, e) == Expected(if e.file.Some? then visible else leaves, d, e))
    && (forall l | l in visible :: l in leaves)
    && (forall d | d !in kept && d != [] :: !HasDir(visible, d))
  }

  lemma FilterKeepsTree(dirs: Dirs, leaves: seq<Leaf>, hidden: set<string>, kept: Dirs, kept': Dirs)
    requires IsTreeBelowRoot(dirs, leaves) && Filtered(dirs, hidden, kept) && SameBelowRoot(kept, kept')
    ensures KeptTree(kept', leaves, Visible(leaves, hidden))
  {
    var visible := Visible(leaves, hidden);
    forall d: Path, e: DirEntry | d != [] || e.file.Some?
      ensures Count(kept', d, e) == Expected(if e.file.Some? then visible else leaves, d, e)
    {
      assert Count(kept', d, e) == Count(kept, d, e);
      if d != [] { assert DirAgrees(dirs, leaves, d); }
      if e.file.Some? { VisibleCount(leaves, hidden, Leaf(d, e.name, e.file.value)); }
    }
    forall l | l in visible ensures l in leaves { VisibleMember(leaves, hidden, l); }
    forall d | d !in kept' && d != [] ensures !HasDir(visible, d) {
      if HasDir(visible, d) { VisibleDirKept(dirs, leaves, hidden, kept, d); }
    }
  }

  lemma VisibleDirKept(dirs: Dirs, leaves: seq<Leaf>, hidden: set<string>, kept: Dirs, d: Path)
    requires IsTreeBelowRoot(dirs, leaves) && Filtered(dirs, hidden, kept) && d != [] &&
      HasDir(Visible(leaves, hidden), d)
    ensures d in kept
  {
    var l :| l in Visible(leaves, hidden) && d <= l.dir;
    VisibleMember(leaves, hidden, l);
    assert DirAgrees(dirs, leaves, d);
    if d == l.dir {
      var e := FileAt(l.name, l.file);
      assert l in multiset(leaves) && Expected(leaves, d, e) > 0;
      assert Count(dirs, d, e) > 0 && !IsHidden(e, hidden);
    } else {
      var name := l.dir[|d|];
      assert d + [name] <= l.dir;
      SubDirPresent(dirs, leaves, d, name);
      assert !IsHidden(SubDir(name), hidden);
    }
    KeptDir(dirs, hidden, kept, d);
  }

  /** The directories already processed are final, the others untouched. */
  ghost predicate Pruning(kept: Dirs, cur: Dirs, visible: seq<Leaf>, todo: set<Path>) {
    && (forall d | d in todo :: d in kept && d in cur && cur[d] == kept[d])
    && (forall d | d !in todo :: HiddenDir(cur, visible, d))
  }

  /** The number of slashes in the path; the root, "/", has as many as "/movies". */
  function Depth(p: Path): nat { if p == [] then 1 else |p| }

  ghost predicate Deepest(todo: set<Path>, d: Path) {
    d in todo && forall q | q in todo :: Depth(q) <= Depth(d)
  }

  /** All deeper paths being final, `d` keeps exactly what belongs in it. */
  lemma PruneEntry(kept: Dirs, leaves: seq<Leaf>, visible: seq<Leaf>, cur: Dirs, todo: set<Path>, d: Path, e: DirEntry)
    requires KeptTree(kept, leaves, visible) && Pruning(kept, cur, visible, todo) && Deepest(todo, d)
    ensures (if Keeps(cur, d, e) then multiset(cur[d])[e] else 0) == Wanted(visible, d, e)
  {
    assert Count(kept, d, e) == multiset(cur[d])[e];
    if e.file.None? && d != [] {
      var c := d + [e.name];
      assert Depth(c) > Depth(d) && HiddenDir(cur, visible, c);
      WantedIff(visible, c);
      if HasDir(visible, c) { HasDirMonotone(visible, leaves, c); }
    }
  }

  lemma PruneOne(kept: Dirs, leaves: seq<Leaf>, visible: seq<Leaf>, cur: Dirs, todo: set<Path>, d: Path,
                 valid: seq<DirEntry>)
    requires KeptTree(kept, leaves, visible) && Pruning(kept, cur, visible, todo) && Deepest(todo, d)
    requires forall e: DirEntry :: multiset(valid)[e] == if Keeps(cur, d, e) then multiset(cur[d])[e] else 0
    ensures Pruning(kept, if valid != [] then cur[d := valid] else cur - {d}, visible, todo - {d})
  {
    forall e ensures multiset(valid)[e] == Wanted(visible, d, e) {
      PruneEntry(kept, leaves, visible, cur, todo, d, e);
    }
    NonEmptyCount(valid);
    SetDir(cur, visible, d, valid);
  }

  lemma SetDir(cur: Dirs, visible: seq<Leaf>, d: Path, valid: seq<DirEntry>)
    requires forall e :: multiset(valid)[e] == Wanted(visible, d, e)
    ensures var cur' := if valid != [] then cur[d := valid] else cur - {d};
      HiddenDir(cur', visible, d) && forall p | p != d && HiddenDir(cur, visible, p) :: HiddenDir(cur', visible, p)
  {
    var cur' := if valid != [] then cur[d := valid] else cur - {d};
    NonEmptyCount(valid);
    if AnyWanted(visible, d) {
      var e :| Wanted(visible, d, e) > 0;
      assert multiset(valid)[e] > 0;
    }
    if e :| multiset(valid)[e] > 0 { assert Wanted(visible, d, e) > 0; }
    forall p | p != d && HiddenDir(cur, visible, p) ensures HiddenDir(cur', visible, p) {
      forall e ensures Count(cur', p, e) == Wanted(visible, p, e) { assert Count(cur, p, e) == Wanted(visible, p, e); }
    }
  }

  lemma HasDirMonotone(a: seq<Leaf>, b: seq<Leaf>, d: Path)
    requires HasDir(a, d) && forall l | l in a :: l in b
    ensures HasDir(b, d)
  {
  }

  /** A directory holds something exactly when something belongs in it. */
  lemma HasDirIff(leaves: seq<Leaf>, d: Path)
    ensures HasDir(leaves, d) <==> exists e :: Expected(leaves, d, e) > 0
  {
    if HasDir(leaves, d) {
      var l :| l in leaves && d <= l.dir;
      if d == l.dir {
        assert l in multiset(leaves);
        assert Expected(leaves, d, FileAt(l.name, l.file)) > 0;
      } else {
        assert d + [l.dir[|d|]] <= l.dir;
        assert Expected(leaves, d, SubDir(l.dir[|d|])) > 0;
      }
    }
    if e :| Expected(leaves, d, e) > 0 {
      if e.file.Some? {
        var l := Leaf(d, e.name, e.file.value);
        assert l in multiset(leaves) && l in leaves && d <= l.dir;
      } else {
        var l :| l in leaves && d + [e.name] <= l.dir;
        assert d <= l.dir;
      }
    }
  }

  lemma WantedIff(visible: seq<Leaf>, d: Path)
    requires d != []
    ensures AnyWanted(visible, d) <==> HasDir(visible, d)
  {
    HasDirIff(visible, d);
    if e :| Expected(visible, d, e) > 0 { assert Wanted(visible, d, e) > 0; }
  }

  lemma {:induction false} SomeDeepest(paths: set<Path>) returns (p: Path)
    requires paths != {}
    ensures Deepest(paths, p)
    decreases |paths|
  {
    p :| p in paths;
    var rest := paths - {p};
    assert forall q | q in paths :: q == p || q in rest;
    if rest != {} {
      var q := SomeDeepest(rest);
      if Depth(q) > Depth(p) { p := q; }
    }
  }

  /** Deepest paths first; one pass is enough. */
  method PruneBottomUp(kept: Dirs, ghost leaves: seq<Leaf>, ghost visible: seq<Leaf>) returns (dirs: Dirs)
    requires KeptTree(kept, leaves, visible)
    ensures IsHiddenTreeOf(dirs, visible)
  {
    dirs := kept;
    var todo := kept.Keys;
    PruningStarts(kept, leaves, visible);
    while todo != {}
      invariant Pruning(kept, dirs, visible, todo)
    {
      ghost var deepest := SomeDeepest(todo);
      var d :| d in todo && forall q | q in todo :: Depth(q) <= Depth(d);
      var valid := ValidEntries(dirs, d, dirs[d]);
      PruneOne(kept, leaves, visible, dirs, todo, d, valid);
      if |valid| > 0 { dirs := dirs[d := valid]; } else { dirs := dirs - {d}; }
      todo := todo - {d};
    }
  }

  lemma PruningStarts(kept: Dirs, leaves: seq<Leaf>, visible: seq<Leaf>)
    requires KeptTree(kept, leaves, visible)
    ensures Pruning(kept, kept, visible, kept.Keys)
  {
    forall d | d !in kept ensures HiddenDir(kept, visible, d) {
      if d != [] { WantedIff(visible, d); }
      HasDirIff(visible, d);
      forall e ensures Wanted(visible, d, e) == 0 {
        if d == [] { assert Count(kept, d, e) == 0; }
      }
    }
  }

  // ---------------------------------------------------------------------
  // ApplyHides
  // ---------------------------------------------------------------------

  method ApplyHides(tree: Tree, hidden: set<string>, ghost leaves: seq<Leaf>) returns (filtered: Tree)
    requires IsTreeBelowRoot(tree.dirs, leaves)
    ensures hidden == {} ==> filtered == tree
    ensures hidden != {} ==>
      fresh(filtered) && IsHiddenTreeOf(filtered.dirs, Visible(leaves, hidden)) && AllSorted(filtered.dirs)
  {
    if |hidden| == 0 { return tree; }
    filtered := new Tree();
    filtered.dirs := FilterDirs(tree.dirs, hidden);
    ghost var kept := filtered.dirs;
    filtered.BuildParentDirs();
    NoParentMissing(tree.dirs, leaves, hidden, kept, filtered.dirs);
    FilterKeepsTree(tree.dirs, leaves, hidden, kept, filtered.dirs);
    var pruned := PruneBottomUp(filtered.dirs, leaves, Visible(leaves, hidden));
    filtered.dirs := SortDirs(pruned);
    SortedHiddenTree(pruned, filtered.dirs, Visible(leaves, hidden));
  }

  lemma SortedHiddenTree(dirs: Dirs, dirs': Dirs, visible: seq<Leaf>)
    requires IsHiddenTreeOf(dirs, visible) && SameEntries(dirs, dirs')
    ensures IsHiddenTreeOf(dirs', visible)
  {
    forall d ensures HiddenDir(dirs', visible, d) { assert HiddenDir(dirs, visible, d); }
  }

  // ---------------------------------------------------------------------
  // Hiding commutes with building
  // ---------------------------------------------------------------------

  /** The placements whose files are not hidden. */
  function VisibleFiles(ps: seq<Placement>, hidden: set<string>): seq<Placement> {
    if ps == [] then []
    else
      var init, p := ps[..|ps| - 1], ps[|ps| - 1];
      if p.file.key in hidden then VisibleFiles(init, hidden) else VisibleFiles(init, hidden) + [p]
  }

  lemma {:induction false} VisibleAppend(a: seq<Leaf>, b: seq<Leaf>, hidden: set<string>)
    ensures Visible(a + b, hidden) == Visible(a, hidden) + Visible(b, hidden)
    decreases |b|
  {
    if b == [] {
      assert a + b == a;
    } else {
      var init, l := b[..|b| - 1], b[|b| - 1];
      assert (a + b)[..|a + b| - 1] == a + init;
      VisibleAppend(a, init, hidden);
      assert Visible(a, hidden) + (Visible(init, hidden) + [l]) == Visible(a, hidden) + Visible(init, hidden) + [l];
    }
  }

  lemma OneMore(ps: seq<Placement>, p: Placement)
    ensures PlacedLeaves(ps + [p]) == PlacedLeaves(ps) + [PlacedLeaf(p)]
    ensures AllLeaves(ps + [p]) == if p.file.key in Keys(ps) then AllLeaves(ps) else AllLeaves(ps) + [AllLeaf(p)]
    ensures Keys(ps + [p]) == Keys(ps) + {p.file.key}
  {
    assert (ps + [p])[..|ps + [p]| - 1] == ps;
  }

  lemma VisibleOneMore(leaves: seq<Leaf>, l: Leaf, hidden: set<string>)
    ensures Visible(leaves + [l], hidden) ==
      if l.file.key in hidden then Visible(leaves, hidden) else Visible(leaves, hidden) + [l]
  {
    assert (leaves + [l])[..|leaves + [l]| - 1] == leaves;
  }

  lemma {:induction false} VisibleKeys(ps: seq<Placement>, hidden: set<string>)
    ensures Keys(VisibleFiles(ps, hidden)) == Keys(ps) - hidden
    decreases |ps|
  {
    if ps != [] {
      var init, p := ps[..|ps| - 1], ps[|ps| - 1];
      assert ps == init + [p];
      VisibleKeys(init, hidden);
      OneMore(init, p);
      OneMore(VisibleFiles(init, hidden), p);
    }
  }

  lemma {:induction false} VisiblePlaced(ps: seq<Placement>, hidden: set<string>)
    ensures Visible(PlacedLeaves(ps), hidden) == PlacedLeaves(VisibleFiles(ps, hidden))
    decreases |ps|
  {
    if ps != [] {
      var init, p := ps[..|ps| - 1], ps[|ps| - 1];
      VisiblePlaced(init, hidden);
      OneMore(VisibleFiles(init, hidden), p);
      VisibleOneMore(PlacedLeaves(init), PlacedLeaf(p), hidden);
    }
  }

  /** Dropping a hidden file never makes room in /all for another file of its key. */
  lemma {:induction false} VisibleAll(ps: seq<Placement>, hidden: set<string>)
    ensures Visible(AllLeaves(ps), hidden) == AllLeaves(VisibleFiles(ps, hidden))
    decreases |ps|
  {
    if ps != [] {
      var init, p := ps[..|ps| - 1], ps[|ps| - 1];
      VisibleAll(init, hidden);
      VisibleKeys(init, hidden);
      OneMore(VisibleFiles(init, hidden), p);
      VisibleOneMore(AllLeaves(init), AllLeaf(p), hidden);
    }
  }

  lemma VisibleTree(ps: seq<Placement>, allDir: bool, hidden: set<string>)
    ensures Visible(TreeLeaves(ps, allDir), hidden) == TreeLeaves(VisibleFiles(ps, hidden), allDir)
  {
    VisibleAppend(PlacedLeaves(ps), if allDir then AllLeaves(ps) else [], hidden);
    VisiblePlaced(ps, hidden);
    VisibleAll(ps, hidden);
  }

  /** A reader listing `d` in either tree sees the same. */
  ghost predicate SameListing(a: Dirs, b: Dirs, d: Path) {
    && (d in a <==> d in b)
    && multiset(Entries(a, d)) == multiset(Entries(b, d))
    && Names(Entries(a, d)) == Names(Entries(b, d))
  }

  lemma NamesFirst(e: DirEntry, s: seq<DirEntry>)
    ensures multiset([e] + s) == multiset{e} + multiset(s)
    ensures multiset(Names([e] + s)) == multiset{e.name} + multiset(Names(s))
  {
    assert Names([e] + s) == [e.name] + Names(s);
  }

  lemma {:induction false} TakeOut(s: seq<DirEntry>, e: DirEntry) returns (rest: seq<DirEntry>)
    requires e in s
    ensures |rest| < |s| && multiset(s) == multiset{e} + multiset(rest)
    ensures multiset(Names(s)) == multiset{e.name} + multiset(Names(rest))
    decreases |s|
  {
    assert s == [s[0]] + s[1..];
    NamesFirst(s[0], s[1..]);
    if s[0] == e {
      rest := s[1..];
    } else {
      var r := TakeOut(s[1..], e);
      NamesFirst(s[0], r);
      rest := [s[0]] + r;
    }
  }

  lemma {:induction false} NamesOf(a: seq<DirEntry>, b: seq<DirEntry>)
    requires multiset(a) == multiset(b)
    ensures multiset(Names(a)) == multiset(Names(b))
    decreases |a|
  {
    if a == [] {
      assert |multiset(b)| == 0;
    } else {
      assert a[0] in multiset(b);
      var ra := TakeOut(a, a[0]);
      var rb := TakeOut(b, a[0]);
      assert multiset(ra) == multiset(a) - multiset{a[0]} && multiset(rb) == multiset(b) - multiset{a[0]};
      NamesOf(ra, rb);
    }
  }

  lemma SortedListing(a: Dirs, b: Dirs, d: Path)
    requires AllSorted(a) && AllSorted(b) && (d in a <==> d in b)
    requires forall e: DirEntry :: Count(a, d, e) == Count(b, d, e)
    ensures SameListing(a, b, d)
  {
    assert forall e: DirEntry ::
      multiset(Entries(a, d))[e] == Count(a, d, e) && multiset(Entries(b, d))[e] == Count(b, d, e);
    assert multiset(Entries(a, d)) == multiset(Entries(b, d));
    NamesOf(Entries(a, d), Entries(b, d));
    SortedIsAlphabetical(Names(Entries(a, d)));
    SortedIsAlphabetical(Names(Entries(b, d)));
    SortedNamesUnique(Names(Entries(a, d)), Names(Entries(b, d)));
  }

  /** Below the root, hiding in a built tree and building from the visible files
      give the same listings, /all included. */
  lemma HidingCommutes(ps: seq<Placement>, allDir: bool, hidden: set<string>, filtered: Dirs, rebuilt: Dirs, d: Path)
    requires IsHiddenTreeOf(filtered, Visible(TreeLeaves(ps, allDir), hidden)) && AllSorted(filtered)
    requires IsTreeOf(rebuilt, TreeLeaves(VisibleFiles(ps, hidden), allDir)) && AllSorted(rebuilt)
    ensures d != [] ==> SameListing(filtered, rebuilt, d)
  {
    VisibleTree(ps, allDir, hidden);
    var visible := Visible(TreeLeaves(ps, allDir), hidden);
    if d != [] {
      assert HiddenDir(filtered, visible, d) && DirAgrees(rebuilt, visible, d);
      WantedIff(visible, d);
      forall e: DirEntry ensures Count(filtered, d, e) == Count(rebuilt, d, e) {
        assert Count(filtered, d, e) == Wanted(visible, d, e);
      }
      SortedListing(filtered, rebuilt, d);
    }
  }

  /** Exactly when the root agrees too: no visible file lies below it in a directory. */
  lemma RootListing(visible: seq<Leaf>, filtered: Dirs, rebuilt: Dirs)
    requires IsHiddenTreeOf(filtered, visible) && IsTreeOf(rebuilt, visible) && AllSorted(filtered) &&
      AllSorted(rebuilt)
    ensures SameListing(filtered, rebuilt, []) <==> forall l | l in visible :: l.dir == []
  {
    assert HiddenDir(filtered, visible, []) && DirAgrees(rebuilt, visible, []);
    if l :| l in visible && l.dir != [] {
      var e := SubDir(l.dir[0]);
      assert [l.dir[0]] <= l.dir && [] + [e.name] == [l.dir[0]];
      assert Expected(visible, [], e) == 1 && Wanted(visible, [], e) == 0;
      assert Count(filtered, [], e) == 0 && Count(rebuilt, [], e) == 1;
      assert multiset(Entries(filtered, []))[e] == 0 && multiset(Entries(rebuilt, []))[e] == 1;
    } else if visible == [] {
      NothingVisible(filtered, rebuilt);
    } else {
      assert visible[0] in visible && [] <= visible[0].dir;
      var f := FileAt(visible[0].name, visible[0].file);
      assert visible[0] in multiset(visible) && visible[0] == Leaf([], f.name, f.file.value);
      assert Wanted(visible, [], f) > 0;
      forall e: DirEntry ensures Count(filtered, [], e) == Count(rebuilt, [], e) {
        assert Count(filtered, [], e) == Wanted(visible, [], e) && Count(rebuilt, [], e) == Expected(visible, [], e);
      }
      SortedListing(filtered, rebuilt, []);
    }
  }

  /** With nothing to see the two roots agree as well. */
  lemma NothingVisible(filtered: Dirs, rebuilt: Dirs)
    requires IsHiddenTreeOf(filtered, []) && IsTreeOf(rebuilt, [])
    ensures SameListing(filtered, rebuilt, [])
  {
    assert HiddenDir(filtered, [], []) && DirAgrees(rebuilt, [], []);
  }

  /** Nothing hidden, nothing dangling, nothing empty. */
  lemma NothingLeftOver(dirs: Dirs, leaves: seq<Leaf>, hidden: set<string>, d: Path, e: DirEntry)
    requires IsHiddenTreeOf(dirs, Visible(leaves, hidden)) && d in dirs
    ensures dirs[d] != []
    ensures e in dirs[d] && e.file.Some? ==> e.file.value.key !in hidden && Leaf(d, e.name, e.file.value) in leaves
    ensures e in dirs[d] && e.file.None? ==> d + [e.name] in dirs
  {
    var visible := Visible(leaves, hidden);
    assert HiddenDir(dirs, visible, d);
    var w :| Wanted(visible, d, w) > 0;
    assert Count(dirs, d, w) > 0;
    if e in dirs[d] {
      assert e in multiset(dirs[d]) && Count(dirs, d, e) > 0;
      assert Wanted(visible, d, e) > 0;
      if e.file.Some? {
        VisibleMember(leaves, hidden, Leaf(d, e.name, e.file.value));
      } else {
        WantedIff(visible, d + [e.name]);
        assert HiddenDir(dirs, visible, d + [e.name]);
      }
    }
  }

  // ---------------------------------------------------------------------
  // Hiding in steps
  // ---------------------------------------------------------------------

  lemma {:induction false} VisibleTwice(leaves: seq<Leaf>, first: set<string>, second: set<string>)
    ensures Visible(Visible(leaves, first), second) == Visible(leaves, first + second)
    decreases |leaves|
  {
    if leaves != [] {
      var init, l := leaves[..|leaves| - 1], leaves[|leaves| - 1];
      VisibleTwice(init, first, second);
      VisibleOneMore(Visible(init, first), l, second);
    }
  }

  /** A filtered tree can be filtered again. */
  lemma HiddenIsBelowRoot(dirs: Dirs, visible: seq<Leaf>)
    requires IsHiddenTreeOf(dirs, visible)
    ensures IsTreeBelowRoot(dirs, visible)
  {
    forall d | d != [] ensures DirAgrees(dirs, visible, d) {
      assert HiddenDir(dirs, visible, d);
      WantedIff(visible, d);
    }
    assert HiddenDir(dirs, visible, []);
  }

  /** Hiding twice is hiding the union once. */
  lemma HidingInSteps(leaves: seq<Leaf>, first: set<string>, second: set<string>, twice: Dirs, once: Dirs, d: Path)
    requires IsHiddenTreeOf(twice, Visible(Visible(leaves, first), second)) && AllSorted(twice)
    requires IsHiddenTreeOf(once, Visible(leaves, first + second)) && AllSorted(once)
    ensures SameListing(twice, once, d)
  {
    VisibleTwice(leaves, first, second);
    var visible := Visible(leaves, first + second);
    assert HiddenDir(twice, visible, d) && HiddenDir(once, visible, d);
    forall e: DirEntry ensures Count(twice, d, e) == Count(once, d, e) {
      assert Count(twice, d, e) == Wanted(visible, d, e);
    }
    SortedListing(twice, once, d);
  }
}
