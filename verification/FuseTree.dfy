/** The FUSE inode tree as it is changed in place. Every method is proved against
    the function on its value in InodeTree, CatalogSync or FailedInserts. The keys in
    `failing` are those the database fails to number. */
module FuseTree {
  import opened CatalogTree
  import opened Hiding
  import opened InodeTree
  import opened CatalogSync
  import opened FailedInserts
  import opened StateDB
  import opened Totals

  class Inode {
    const file: Option<File>
    var children: map<string, Inode>
    /** This inode and all below it. */
    ghost var Repr: set<Inode>
    /** The tree below this inode, as a value. */
    ghost var node: Node

    ghost predicate Valid()
      reads this, Repr
      decreases Repr
    {
      && this in Repr && node.file == file && node.children.Keys == children.Keys
      && (forall name | name in children ::
            children[name] in Repr && children[name].Repr <= Repr && this !in children[name].Repr &&
              children[name].Valid())
      && (forall name | name in children :: node.children[name] == children[name].node)
      && (forall a, b | a in children && b in children && a != b :: children[a].Repr !! children[b].Repr)
    }

    constructor (file: Option<File>)
      ensures Valid() && Repr == {this} && node == Node(file, map[])
    {
      this.file := file;
      children := map[];
      Repr := {this};
      node := Node(file, map[]);
    }

    method CountChildren() returns (count: nat)
      requires Valid()
      ensures count == 0 <==> node.children == map[]
    {
      assert |children| == 0 <==> children.Keys == {};
      count := |children|;
    }

    method RmChild(name: string)
      requires Valid()
      modifies this
      ensures Valid() && Repr == old(Repr) && node == Node(file, old(node).children - {name})
    {
      children := children - {name};
      node := Node(file, node.children - {name});
    }

    /** Does not overwrite: a taken name leaves everything as it is. */
    method AddChild(name: string, ch: Inode) returns (added: bool)
      requires Valid() && ch.Valid() && ch.Repr !! Repr
      modifies this
      ensures Valid() && node == Node(file, WithChild(old(node).children, name, ch.node))
      ensures Repr == if name in old(node).children then old(Repr) else old(Repr) + ch.Repr
      ensures added == (name !in old(node).children) && (added ==> name in children && children[name] == ch)
    {
      added := name !in children;
      if added {
        children := children[name := ch];
        Repr := Repr + ch.Repr;
        node := Node(file, node.children[name := ch.node]);
      }
    }

    /** All is well but for the bookkeeping about one child that has changed. */
    ghost predicate Stale(name: string)
      reads this, children.Values, (set n, o | n in children && o in children[n].Repr :: o)
    {
      && name in children && this in Repr && node.file == file && node.children.Keys == children.Keys
      && (forall n | n in children :: this !in children[n].Repr && children[n].Valid())
      && (forall n | n in children && n != name ::
            children[n] in Repr && children[n].Repr <= Repr && node.children[n] == children[n].node)
      && (forall a, b | a in children && b in children && a != b :: children[a].Repr !! children[b].Repr)
    }

    ghost method Update(name: string)
      requires Stale(name)
      modifies this`Repr, this`node
      ensures Valid() && Repr == old(Repr) + children[name].Repr
      ensures node == Node(file, old(node).children[name := children[name].node])
    {
      Repr := Repr + children[name].Repr;
      Record(name);
    }

    ghost method Record(name: string)
      requires Stale(name) && children[name] in Repr && children[name].Repr <= Repr
      modifies this`node
      ensures Valid() && node == Node(file, old(node).children[name := children[name].node])
    {
      node := Node(file, node.children[name := children[name].node]);
    }
  }

  function WithChild<T>(children: map<string, T>, name: string, ch: T): map<string, T> {
    if name in children then children else children[name := ch]
  }

  // ---------------------------------------------------------------------
  // Removing content keys
  // ---------------------------------------------------------------------

  /** Between two children: those in `todo` are as they were. */
  ghost function RemovedExcept(n: Node, keys: set<string>, todo: set<string>): Node {
    n.(children := map name | name in n.children && (name in todo || !Matched(n.children[name], keys)) ::
         if name in todo then n.children[name] else Stripped(n.children[name], keys))
  }

  /** What one round does to the children. */
  ghost function OneRemoved(n: Node, keys: set<string>, name: string): Node
    requires name in n.children
  {
    if Matched(n.children[name], keys) then Node(n.file, n.children - {name})
    else Node(n.file, n.children[name := Stripped(n.children[name], keys)])
  }

  lemma RemoveEnds(n: Node, keys: set<string>)
    ensures RemovedExcept(n, keys, n.children.Keys) == n && RemovedExcept(n, keys, {}) == RemoveKeys(n, keys)
  {
    assert RemovedExcept(n, keys, n.children.Keys).children == n.children;
    assert RemovedExcept(n, keys, {}).children == RemoveKeys(n, keys).children;
  }

  lemma RemoveOneMore(n: Node, keys: set<string>, todo: set<string>, name: string)
    requires name in todo && name in n.children
    ensures name in RemovedExcept(n, keys, todo).children
    ensures RemovedExcept(n, keys, todo - {name}) == OneRemoved(RemovedExcept(n, keys, todo), keys, name)
  {
  }

  method RemoveKeysFromDir(dir: Inode, keys: set<string>)
    requires dir.Valid()
    modifies dir.Repr
    ensures dir.Valid() && dir.Repr == old(dir.Repr)
    ensures dir.node == RemoveKeys(old(dir.node), keys)
    decreases dir.Repr
  {
    ghost var before := dir.node;
    var todo := dir.children.Keys;
    RemoveEnds(before, keys);
    while todo != {}
      invariant dir.Valid() && dir.Repr == old(dir.Repr) && todo <= before.children.Keys
      invariant dir.node == RemovedExcept(before, keys, todo)
    {
      var name :| name in todo;
      RemoveOneMore(before, keys, todo, name);
      assert name in dir.node.children;
      RemoveFromChild(dir, name, keys);
      todo := todo - {name};
    }
  }

  /** One round of the loop. */
  method RemoveFromChild(dir: Inode, name: string, keys: set<string>)
    requires dir.Valid() && name in dir.children
    modifies dir.Repr
    ensures dir.Valid() && dir.Repr == old(dir.Repr)
    ensures dir.node == OneRemoved(old(dir.node), keys, name)
    decreases dir.Repr, 1
  {
    var ch := dir.children[name];
    assert dir.node.children[name] == ch.node;
    if ch.file.Some? {
      if ch.file.value.key in keys { dir.RmChild(name); }
    } else {
      RemoveBelow(dir, name, keys);
    }
  }

  method RemoveBelow(dir: Inode, name: string, keys: set<string>)
    requires dir.Valid() && name in dir.children
    modifies dir.Repr
    ensures dir.Valid() && dir.Repr == old(dir.Repr)
    ensures dir.node == Node(dir.file, old(dir.node).children[name := RemoveKeys(old(dir.node).children[name], keys)])
    decreases dir.Repr, 0
  {
    RemoveKeysFromDir(dir.children[name], keys);
    dir.Update(name);
  }

  // ---------------------------------------------------------------------
  // Pruning
  // ---------------------------------------------------------------------

  ghost function PrunedExcept(n: Node, todo: set<string>): Node {
    n.(children := map name | name in n.children && (name in todo || !IsEmptyDir(Pruned(n.children[name]))) ::
         if name in todo then n.children[name] else Pruned(n.children[name]))
  }

  ghost function OnePruned(n: Node, name: string): Node
    requires name in n.children
  {
    var c := Pruned(n.children[name]);
    if IsEmptyDir(c) then Node(n.file, n.children - {name}) else Node(n.file, n.children[name := c])
  }

  lemma PruneEnds(n: Node)
    ensures PrunedExcept(n, n.children.Keys) == n && PrunedExcept(n, {}) == Prune(n)
  {
    assert PrunedExcept(n, n.children.Keys).children == n.children;
    assert PrunedExcept(n, {}).children == Prune(n).children;
  }

  lemma PruneOneMore(n: Node, todo: set<string>, name: string)
    requires name in todo && name in n.children
    ensures name in PrunedExcept(n, todo).children
    ensures PrunedExcept(n, todo - {name}) == OnePruned(PrunedExcept(n, todo), name)
  {
  }

  method PruneEmptyDirs(dir: Inode)
    requires dir.Valid()
    modifies dir.Repr
    ensures dir.Valid() && dir.Repr == old(dir.Repr)
    ensures dir.node == Prune(old(dir.node))
    decreases dir.Repr
  {
    ghost var before := dir.node;
    var todo := dir.children.Keys;
    PruneEnds(before);
    while todo != {}
      invariant dir.Valid() && dir.Repr == old(dir.Repr) && todo <= before.children.Keys
      invariant dir.node == PrunedExcept(before, todo)
    {
      var name :| name in todo;
      PruneOneMore(before, todo, name);
      assert name in dir.node.children;
      PruneChild(dir, name);
      todo := todo - {name};
    }
  }

  lemma PruneStep(n: Node, name: string)
    requires name in n.children && n.children[name].file.None?
    ensures var pruned := n.children[name := Prune(n.children[name])];
      OnePruned(n, name) ==
        Node(n.file, if IsEmptyDir(Prune(n.children[name])) then pruned - {name} else pruned)
  {
    assert n.children[name := Prune(n.children[name])] - {name} == n.children - {name};
  }

  lemma PruneSkip(n: Node, name: string)
    requires name in n.children && n.children[name].file.Some?
    ensures OnePruned(n, name) == n
  {
  }

  /** One round of the loop: the child first, then the child itself if it is empty. */
  method PruneChild(dir: Inode, name: string)
    requires dir.Valid() && name in dir.children
    modifies dir.Repr
    ensures dir.Valid() && dir.Repr == old(dir.Repr)
    ensures dir.node == OnePruned(old(dir.node), name)
    decreases dir.Repr, 1
  {
    ghost var n := dir.node;
    if dir.children[name].file.None? {
      PruneStep(n, name);
      PruneBelow(dir, name);
      var count := dir.children[name].CountChildren();
      if count == 0 { dir.RmChild(name); }
    } else {
      PruneSkip(n, name);
    }
  }

  method PruneBelow(dir: Inode, name: string)
    requires dir.Valid() && name in dir.children
    modifies dir.Repr
    ensures dir.Valid() && dir.Repr == old(dir.Repr)
    ensures dir.node == Node(dir.file, old(dir.node).children[name := Prune(old(dir.node).children[name])])
    decreases dir.Repr, 0
  {
    var ch := dir.children[name];
    PruneEmptyDirs(ch);
    dir.Update(name);
  }

  // ---------------------------------------------------------------------
  // Populating
  // ---------------------------------------------------------------------

  method PopulateDir(dir: Inode, dirs: Dirs, failing: set<InodeKey>, path: Path)
    requires dir.Valid() && dir.node == Node(None, map[])
    modifies dir.Repr
    ensures dir.Valid() && fresh(dir.Repr - old(dir.Repr))
    ensures dir.node == Populate(Creatable(dirs, failing), path)
    decreases Height(dirs, path), 2
  {
    var entries := Entries(dirs, path);
    ghost var made := Creatable(dirs, failing);
    SameHeight(dirs, failing, path);
    CreatedPrefix(entries, path, failing, 0);
    for i := 0 to |entries|
      invariant dir.Valid() && fresh(dir.Repr - old(dir.Repr))
      invariant |Created(entries[..i], path, failing)| <= |Entries(made, path)|
      invariant dir.node == Node(None, PopulateUpTo(made, path, |Created(entries[..i], path, failing)|))
    {
      OneMoreCreated(dirs, failing, path, i);
      AddNode(dir, dirs, failing, path, entries[i]);
    }
    assert entries[..|entries|] == entries;
  }

  /** The next round of populating, if the entry gets a number. */
  lemma OneMoreCreated(dirs: Dirs, failing: set<InodeKey>, path: Path, i: nat)
    requires i < |Entries(dirs, path)|
    ensures var entries, made := Entries(dirs, path), Creatable(dirs, failing);
      var k := |Created(entries[..i], path, failing)|;
      && |Created(entries[..i + 1], path, failing)| == (if Fails(failing, path, entries[i]) then k else k + 1)
      && (!Fails(failing, path, entries[i]) ==> k + 1 <= |Entries(made, path)| && Entries(made, path)[k] == entries[i])
  {
    var entries := Entries(dirs, path);
    SameHeight(dirs, failing, path);
    CreatedOneMore(entries, path, failing, i);
    CreatedPrefix(entries, path, failing, i + 1);
  }

  /** What becomes of the children when a new entry is met. */
  ghost function AfterAdding(children: map<string, Node>, dirs: Dirs, failing: set<InodeKey>, path: Path,
                             e: DirEntry): map<string, Node>
    requires path in dirs
  {
    if Fails(failing, path, e) then children
    else WithChild(children, e.name, NewNode(Creatable(dirs, failing), path, e))
  }

  method AddNode(dir: Inode, dirs: Dirs, failing: set<InodeKey>, path: Path, e: DirEntry)
    requires dir.Valid() && path in dirs
    modifies dir.Repr
    ensures dir.Valid() && fresh(dir.Repr - old(dir.Repr))
    ensures dir.node == Node(dir.file, AfterAdding(old(dir.node).children, dirs, failing, path, e))
    decreases Height(dirs, path), 1
  {
    if e.file.Some? {
      AddFileNode(dir, e.name, e.file.value, failing);
    } else {
      HeightDrops(dirs, path, e.name);
      AddSubDirNode(dir, e.name, dirs, failing, path + [e.name]);
    }
  }

  method AddFileNode(dir: Inode, name: string, file: File, failing: set<InodeKey>)
    requires dir.Valid()
    modifies dir.Repr
    ensures dir.Valid() && fresh(dir.Repr - old(dir.Repr))
    ensures FileKey(file.key) in failing ==> dir.node == old(dir.node) && dir.Repr == old(dir.Repr)
    ensures FileKey(file.key) !in failing ==>
      dir.node == Node(dir.file, WithChild(old(dir.node).children, name, Node(Some(file), map[])))
  {
    if FileKey(file.key) in failing { return; }
    var child := new Inode(Some(file));
    var _ := dir.AddChild(name, child);
  }

  /** The new directory is linked first and filled afterwards; if the name was taken,
      the directory that is filled is nobody's child. */
  method AddSubDirNode(dir: Inode, name: string, dirs: Dirs, failing: set<InodeKey>, path: Path)
    requires dir.Valid()
    modifies dir.Repr
    ensures dir.Valid() && fresh(dir.Repr - old(dir.Repr))
    ensures DirKey(path) in failing ==> dir.node == old(dir.node) && dir.Repr == old(dir.Repr)
    ensures DirKey(path) !in failing ==>
      dir.node == Node(dir.file, WithChild(old(dir.node).children, name, Populate(Creatable(dirs, failing), path)))
    decreases Height(dirs, path), 4
  {
    if DirKey(path) in failing { return; }
    ghost var n := dir.node;
    var child, added := LinkDir(dir, name);
    if added {
      FillChild(dir, name, dirs, failing, path);
      FilledChild(n, name, Populate(Creatable(dirs, failing), path));
    } else {
      FillOrphan(dir, child, dirs, failing, path);
    }
  }

  lemma FilledChild(n: Node, name: string, filled: Node)
    ensures name !in n.children ==>
      n.children[name := Node(None, map[])][name := filled] == WithChild(n.children, name, filled)
  {
  }

  method LinkDir(dir: Inode, name: string) returns (child: Inode, added: bool)
    requires dir.Valid()
    modifies dir
    ensures dir.Valid() && added == (name !in old(dir.node).children)
    ensures dir.node == Node(dir.file, WithChild(old(dir.node).children, name, Node(None, map[])))
    ensures fresh(child) && dir.Repr == if added then old(dir.Repr) + {child} else old(dir.Repr)
    ensures added ==> name in dir.children && dir.children[name] == child
    ensures !added ==> child.Valid() && child.Repr == {child} && child.node == Node(None, map[])
  {
    child := new Inode(None);
    added := dir.AddChild(name, child);
  }

  method FillOrphan(dir: Inode, child: Inode, dirs: Dirs, failing: set<InodeKey>, path: Path)
    requires dir.Valid() && child.Valid() && child.Repr !! dir.Repr && child.node == Node(None, map[])
    modifies child.Repr
    ensures dir.Valid() && dir.node == old(dir.node) && dir.Repr == old(dir.Repr)
    decreases Height(dirs, path), 3
  {
    PopulateDir(child, dirs, failing, path);
  }

  method FillChild(dir: Inode, name: string, dirs: Dirs, failing: set<InodeKey>, path: Path)
    requires dir.Valid() && name in dir.children && dir.children[name].node == Node(None, map[])
    modifies dir.Repr
    ensures dir.Valid() && fresh(dir.Repr - old(dir.Repr))
    ensures dir.node == Node(dir.file, old(dir.node).children[name := Populate(Creatable(dirs, failing), path)])
    decreases Height(dirs, path), 3
  {
    PopulateDir(dir.children[name], dirs, failing, path);
    dir.Update(name);
  }

  // ---------------------------------------------------------------------
  // Merging a new catalog
  // ---------------------------------------------------------------------

  ghost function SurvivingExcept(n: Node, names: seq<string>, todo: set<string>): Node {
    n.(children := map name | name in n.children && (name in todo || name in names) :: n.children[name])
  }

  lemma SurvivingEnds(n: Node, names: seq<string>)
    ensures SurvivingExcept(n, names, n.children.Keys) == n
    ensures SurvivingExcept(n, names, {}).children == Surviving(n, names)
  {
    assert SurvivingExcept(n, names, n.children.Keys).children == n.children;
  }

  lemma SurvivingOneMore(n: Node, names: seq<string>, todo: set<string>, name: string)
    requires name in todo && name in n.children
    ensures var m := SurvivingExcept(n, names, todo);
      SurvivingExcept(n, names, todo - {name}) == if name in names then m else Node(m.file, m.children - {name})
  {
  }

  /** Drops everything below an inode. */
  method RmAllChildren(at: Inode)
    requires at.Valid()
    modifies at.Repr
    ensures at.Valid() && at.Repr == old(at.Repr) && at.node == Node(at.file, map[])
    decreases at.Repr
  {
    var todo := at.children.Keys;
    assert at.node.children.Keys == todo;
    while todo != {}
      invariant at.Valid() && at.Repr == old(at.Repr) && at.node.children.Keys == todo
    {
      var name :| name in todo;
      assert name in at.children;
      RmTree(at, name);
      todo := todo - {name};
    }
    assert at.node.children == map[];
  }

  /** Drops a child after everything below it. */
  method RmTree(dir: Inode, name: string)
    requires dir.Valid() && name in dir.children
    modifies dir.Repr
    ensures dir.Valid() && dir.Repr == old(dir.Repr)
    ensures dir.node == Node(dir.file, old(dir.node).children - {name})
    decreases dir.Repr, 1
  {
    EmptiedThenRemoved(dir.node, name);
    EmptyBelow(dir, name);
    dir.RmChild(name);
  }

  lemma EmptiedThenRemoved(n: Node, name: string)
    requires name in n.children
    ensures n.children[name := Node(n.children[name].file, map[])] - {name} == n.children - {name}
  {
  }

  method EmptyBelow(dir: Inode, name: string)
    requires dir.Valid() && name in dir.children
    modifies dir.Repr
    ensures dir.Valid() && dir.Repr == old(dir.Repr)
    ensures dir.node == Node(dir.file, old(dir.node).children[name := Node(old(dir.node).children[name].file, map[])])
    decreases dir.Repr, 0
  {
    RmAllChildren(dir.children[name]);
    dir.Update(name);
  }

  method RemoveGone(dir: Inode, names: seq<string>)
    requires dir.Valid()
    modifies dir.Repr
    ensures dir.Valid() && dir.Repr == old(dir.Repr)
    ensures dir.node == Node(dir.file, Surviving(old(dir.node), names))
  {
    ghost var before := dir.node;
    var todo := dir.children.Keys;
    SurvivingEnds(before, names);
    while todo != {}
      invariant dir.Valid() && dir.Repr == old(dir.Repr) && todo <= before.children.Keys
      invariant dir.node == SurvivingExcept(before, names, todo)
    {
      var name :| name in todo;
      SurvivingOneMore(before, names, todo, name);
      if name !in names { RmTree(dir, name); }
      todo := todo - {name};
    }
  }

  method SyncDir(dir: Inode, dirs: Dirs, failing: set<InodeKey>, path: Path)
    requires dir.Valid()
    modifies dir.Repr
    ensures dir.Valid() && fresh(dir.Repr - old(dir.Repr))
    ensures dir.node == TrySync(old(dir.node), dirs, failing, path)
    decreases Height(dirs, path), 6
  {
    ghost var before := dir.node;
    var entries := Entries(dirs, path);
    RemoveGone(dir, Names(entries));
    for i := 0 to |entries|
      invariant dir.Valid() && fresh(dir.Repr - old(dir.Repr))
      invariant dir.node == Node(before.file, TrySyncUpTo(before, dirs, failing, path, i))
    {
      MergeEntry(dir, dirs, failing, path, entries[i]);
    }
  }

  method MergeEntry(dir: Inode, dirs: Dirs, failing: set<InodeKey>, path: Path, e: DirEntry)
    requires dir.Valid() && path in dirs
    modifies dir.Repr
    ensures dir.Valid() && fresh(dir.Repr - old(dir.Repr))
    ensures dir.node == Node(dir.file, TryEntry(old(dir.node).children, dirs, failing, path, e))
    decreases Height(dirs, path), 5
  {
    HeightDrops(dirs, path, e.name);
    if e.name !in dir.children {
      AddNode(dir, dirs, failing, path, e);
    } else if e.file.None? {
      SyncBelow(dir, e.name, dirs, failing, path + [e.name]);
    }
  }

  method SyncBelow(dir: Inode, name: string, dirs: Dirs, failing: set<InodeKey>, path: Path)
    requires dir.Valid() && name in dir.children
    modifies dir.Repr
    ensures dir.Valid() && fresh(dir.Repr - old(dir.Repr))
    ensures dir.node ==
      Node(dir.file, old(dir.node).children[name := TrySync(old(dir.node).children[name], dirs, failing, path)])
    decreases Height(dirs, path), 7
  {
    SyncDir(dir.children[name], dirs, failing, path);
    dir.Update(name);
  }

  // ---------------------------------------------------------------------
  // The root
  // ---------------------------------------------------------------------

  function Categories(allDir: bool): (cats: seq<string>)
    ensures NoDuplicates(cats)
    ensures forall cat :: cat in cats <==> IsCategory(cat, allDir)
  {
    ["movies", "series"] + (if allDir then ["all"] else [])
  }

  predicate IsCategory(cat: string, allDir: bool) { cat == "movies" || cat == "series" || (allDir && cat == "all") }

  /** In every category exactly the files with these keys are gone, at any depth, and
      nothing outside the categories has changed. */
  ghost predicate GoneEverywhere(before: Node, after: Node, allDir: bool, keys: set<string>) {
    && after.children.Keys == before.children.Keys
    && (forall name | name in before.children && !IsCategory(name, allDir) ::
          after.children[name] == before.children[name])
    && (forall cat, rel: Path, f | cat in before.children && IsCategory(cat, allDir) && rel != [] ::
          Holds(after.children[cat], rel, f) <==> Holds(before.children[cat], rel, f) && f.key !in keys)
  }

  lemma HideInIsEverywhere(n: Node, allDir: bool, keys: set<string>)
    ensures GoneEverywhere(n, HideIn(n, Categories(allDir), keys), allDir, keys)
  {
    var after := HideIn(n, Categories(allDir), keys);
    forall cat, rel: Path, f | cat in n.children && IsCategory(cat, allDir) && rel != []
      ensures Holds(after.children[cat], rel, f) <==> Holds(n.children[cat], rel, f) && f.key !in keys
    {
      if n.children[cat].file.None? { HideHolds(n.children[cat], keys, rel, f); }
    }
  }

  /** The categories show the placed files if and only if, for each of them, the
      inodes agreed with the catalog on what they shared, no two files compete for a
      path and no needed insert failed. */
  ghost predicate MergedEverywhere(before: Node, after: Node, dirs: Dirs, failing: set<InodeKey>, allDir: bool) {
    forall leaves: seq<Leaf>, cat: string
      | IsTreeBelowRoot(dirs, leaves) && IsCategory(cat, allDir) &&
        (cat in before.children ==> before.children[cat].file.None?) ::
      CategoryShows(after.children, leaves, cat) <==>
        && UniqueBelow(leaves, [cat]) && CategoryAttained(before, dirs, failing, cat)
        && (cat in before.children ==> Compatible(before.children[cat], dirs, [cat], true))
  }

  lemma TryIsEverywhere(n: Node, dirs: Dirs, failing: set<InodeKey>, allDir: bool)
    ensures var merged := TryCategories(n.children, dirs, failing, Categories(allDir));
      MergedEverywhere(n, Node(n.file, merged), dirs, failing, allDir)
  {
    forall leaves: seq<Leaf>, cat: string
      | IsTreeBelowRoot(dirs, leaves) && IsCategory(cat, allDir) &&
        (cat in n.children ==> n.children[cat].file.None?)
      ensures CategoryShows(TryCategories(n.children, dirs, failing, Categories(allDir)), leaves, cat) <==>
        && UniqueBelow(leaves, [cat]) && CategoryAttained(n, dirs, failing, cat)
        && (cat in n.children ==> Compatible(n.children[cat], dirs, [cat], true))
    {
      TriedCategoryShows(n, dirs, failing, leaves, Categories(allDir), cat);
    }
  }

  /** What the two loops of `RemoveContentKeys` do to one category. */
  ghost function StrippedIn(n: Node, cats: seq<string>, keys: set<string>): Node {
    n.(children := map name | name in n.children ::
      if name in cats then RemoveKeys(n.children[name], keys) else n.children[name])
  }

  ghost function PrunedIn(n: Node, cats: seq<string>): Node {
    n.(children := map name | name in n.children :: if name in cats then Prune(n.children[name]) else n.children[name])
  }

  lemma StripThenPrune(n: Node, cats: seq<string>, keys: set<string>)
    ensures PrunedIn(StrippedIn(n, cats, keys), cats) == HideIn(n, cats, keys)
    ensures StrippedIn(n, [], keys) == n && PrunedIn(n, []) == n
  {
    assert PrunedIn(StrippedIn(n, cats, keys), cats).children == HideIn(n, cats, keys).children;
    assert StrippedIn(n, [], keys).children == n.children && PrunedIn(n, []).children == n.children;
  }

  /** One more category; nothing happens to one that has no directory. */
  lemma OneMoreCategory(n: Node, cats: seq<string>, keys: set<string>, cat: string)
    requires cat !in cats
    ensures var s := StrippedIn(n, cats, keys);
      StrippedIn(n, cats + [cat], keys) ==
        if cat in n.children then Node(s.file, s.children[cat := RemoveKeys(s.children[cat], keys)]) else s
    ensures var s := PrunedIn(n, cats);
      PrunedIn(n, cats + [cat]) ==
        if cat in n.children then Node(s.file, s.children[cat := Prune(s.children[cat])]) else s
  {
  }

  method RemoveFromCategories(root: Inode, cats: seq<string>, keys: set<string>)
    requires root.Valid() && NoDuplicates(cats)
    modifies root.Repr
    ensures root.Valid() && root.Repr == old(root.Repr)
    ensures root.node == StrippedIn(old(root.node), cats, keys)
  {
    ghost var before := root.node;
    StripThenPrune(before, cats, keys);
    for i := 0 to |cats|
      invariant root.Valid() && root.Repr == old(root.Repr)
      invariant root.node == StrippedIn(before, cats[..i], keys)
    {
      assert cats[..i + 1] == cats[..i] + [cats[i]];
      OneMoreCategory(before, cats[..i], keys, cats[i]);
      if cats[i] in root.children { RemoveBelow(root, cats[i], keys); }
    }
    assert cats[..|cats|] == cats;
  }

  method PruneCategories(root: Inode, cats: seq<string>)
    requires root.Valid() && NoDuplicates(cats)
    modifies root.Repr
    ensures root.Valid() && root.Repr == old(root.Repr)
    ensures root.node == PrunedIn(old(root.node), cats)
  {
    ghost var before := root.node;
    StripThenPrune(before, cats, {});
    for i := 0 to |cats|
      invariant root.Valid() && root.Repr == old(root.Repr)
      invariant root.node == PrunedIn(before, cats[..i])
    {
      assert cats[..i + 1] == cats[..i] + [cats[i]];
      OneMoreCategory(before, cats[..i], {}, cats[i]);
      if cats[i] in root.children { PruneBelow(root, cats[i]); }
    }
    assert cats[..|cats|] == cats;
  }

  /** Removes the files from every category, then prunes every category. */
  method RemoveContentKeys(root: Inode, allDir: bool, keys: set<string>)
    requires root.Valid()
    modifies root.Repr
    ensures root.Valid() && root.Repr == old(root.Repr)
    ensures root.node == HideIn(old(root.node), Categories(allDir), keys)
    ensures GoneEverywhere(old(root.node), root.node, allDir, keys)
  {
    var cats := Categories(allDir);
    StripThenPrune(root.node, cats, keys);
    HideInIsEverywhere(root.node, allDir, keys);
    RemoveFromCategories(root, cats, keys);
    PruneCategories(root, cats);
  }

  // ---------------------------------------------------------------------
  // Unlink and Rmdir
  // ---------------------------------------------------------------------

  ghost function KeysExcept(n: Node, todo: set<string>): set<string> {
    set name, k | name in n.children && name !in todo && k in KeysAt(n.children[name]) :: k
  }

  lemma KeysEnds(n: Node)
    ensures KeysExcept(n, n.children.Keys) == {} && KeysExcept(n, {}) == FileKeys(n)
  {
    forall k ensures k in KeysExcept(n, {}) <==> k in FileKeys(n) {
      assert k in FileKeys(n) <==> exists name :: name in n.children && k in KeysAt(n.children[name]);
      assert k in KeysExcept(n, {}) <==> exists name :: name in n.children && k in KeysAt(n.children[name]);
    }
  }

  lemma KeysOneMore(n: Node, todo: set<string>, name: string)
    requires name in todo && name in n.children
    ensures KeysExcept(n, todo - {name}) == KeysExcept(n, todo) + KeysAt(n.children[name])
  {
    forall k ensures k in KeysExcept(n, todo - {name}) <==> k in KeysExcept(n, todo) || k in KeysAt(n.children[name]) {
      if m :| m in n.children && m !in todo - {name} && k in KeysAt(n.children[m]) {
        assert m == name || m !in todo;
      }
    }
  }

  method CollectFileKeys(dir: Inode) returns (keys: set<string>)
    requires dir.Valid()
    ensures keys == FileKeys(dir.node)
    decreases dir.Repr
  {
    keys := {};
    var todo := dir.children.Keys;
    KeysEnds(dir.node);
    while todo != {}
      invariant todo <= dir.children.Keys
      invariant keys == KeysExcept(dir.node, todo)
    {
      var name :| name in todo;
      KeysOneMore(dir.node, todo, name);
      var ch := dir.children[name];
      var more: set<string>;
      if ch.file.Some? { more := {ch.file.value.key}; } else { more := CollectFileKeys(ch); }
      assert more == KeysAt(dir.node.children[name]);
      keys := keys + more;
      todo := todo - {name};
    }
  }

  /** How a call ends; `Crash` is a failed type assertion. */
  datatype Errno = Ok | EROFS | ENOENT | EISDIR | EIO | Crash

  /** The error of an Unlink; `failed` are the keys the database fails to hide. */
  ghost function UnlinkErrno(writable: bool, dir: Node, name: string, failed: set<string>): Errno {
    if !writable then EROFS
    else if name !in dir.children then ENOENT
    else if dir.children[name].file.None? then EISDIR
    else if dir.children[name].file.value.key in failed then EIO
    else Ok
  }

  ghost function RmdirErrno(writable: bool, dir: Node, name: string): Errno {
    if !writable then EROFS
    else if name !in dir.children then ENOENT
    else if dir.children[name].file.Some? then Crash
    else Ok
  }

  /** A path of directories from `n`. */
  ghost predicate Resolves(n: Node, rel: Path)
    decreases |rel|
  {
    rel == [] || (rel[0] in n.children && Resolves(n.children[rel[0]], rel[1..]))
  }

  ghost function NodeAt(n: Node, rel: Path): Node
    requires Resolves(n, rel)
    decreases |rel|
  {
    if rel == [] then n else NodeAt(n.children[rel[0]], rel[1..])
  }

  /** The tree without the entry `name` of the directory at `rel`. */
  ghost function RemovedAt(n: Node, rel: Path, name: string): Node
    requires Resolves(n, rel)
    decreases |rel|
  {
    if rel == [] then Node(n.file, n.children - {name})
    else Node(n.file, n.children[rel[0] := RemovedAt(n.children[rel[0]], rel[1..], name)])
  }

  /** The directory a request is about, as the kernel has looked it up. */
  method Walk(root: Inode, rel: Path) returns (dir: Inode)
    requires root.Valid() && Resolves(root.node, rel)
    ensures dir.Valid() && dir.node == NodeAt(root.node, rel)
    decreases |rel|
  {
    if rel == [] { return root; }
    dir := Walk(root.children[rel[0]], rel[1..]);
  }

  /** Takes one child from the directory at `rel`; the inodes on the way record it. */
  method RmChildAt(at: Inode, rel: Path, name: string)
    requires at.Valid() && Resolves(at.node, rel)
    modifies at.Repr
    ensures at.Valid() && at.Repr == old(at.Repr)
    ensures at.node == RemovedAt(old(at.node), rel, name)
    decreases |rel|, 1
  {
    if rel == [] { at.RmChild(name); } else { RmBelowAt(at, rel[0], rel[1..], name); }
  }

  method RmBelowAt(at: Inode, first: string, rest: Path, name: string)
    requires at.Valid() && first in at.children && Resolves(at.node.children[first], rest)
    modifies at.Repr
    ensures at.Valid() && at.Repr == old(at.Repr)
    ensures at.node ==
      Node(at.file, old(at.node).children[first := RemovedAt(old(at.node).children[first], rest, name)])
    decreases |rest| + 1, 0
  {
    RmChildAt(at.children[first], rest, name);
    at.Update(first);
  }

  /** Hides the file in the database and removes it from every category. */
  method Unlink(root: Inode, rel: Path, name: string, db: DB, writable: bool, allDir: bool, failed: set<string>)
    returns (errno: Errno)
    requires root.Valid() && Resolves(root.node, rel)
    modifies root.Repr, db`hidden
    ensures root.Valid() && errno == UnlinkErrno(writable, NodeAt(old(root.node), rel), name, failed)
    ensures errno != Ok ==> root.node == old(root.node) && db.hidden == old(db.hidden)
    ensures errno == Ok ==>
      var key := NodeAt(old(root.node), rel).children[name].file.value.key;
      && db.hidden == old(db.hidden) + {key} && root.node == HideIn(old(root.node), Categories(allDir), {key})
      && GoneEverywhere(old(root.node), root.node, allDir, {key})
  {
    var key;
    errno, key := UnlinkKey(root, rel, name, writable, failed);
    if errno == Ok { HideEverywhere(root, db, allDir, {key}, failed); }
  }

  /** The checks of an Unlink, and the key it is to hide. */
  method UnlinkKey(root: Inode, rel: Path, name: string, writable: bool, failed: set<string>)
    returns (errno: Errno, key: string)
    requires root.Valid() && Resolves(root.node, rel)
    ensures errno == UnlinkErrno(writable, NodeAt(root.node, rel), name, failed)
    ensures errno == Ok ==> key == NodeAt(root.node, rel).children[name].file.value.key && key !in failed
  {
    key := "";
    if !writable { return EROFS, key; }
    var dir := Walk(root, rel);
    assert dir.node.children.Keys == dir.children.Keys;
    if name !in dir.children { return ENOENT, key; }
    var child := dir.children[name];
    assert dir.node.children[name] == child.node;
    if child.file.None? { return EISDIR, key; }
    if child.file.value.key in failed { return EIO, key; }
    return Ok, child.file.value.key;
  }

  /** Hides every file below the directory and removes them from every category, also
      those the database failed to hide; an empty directory is just removed. */
  method Rmdir(root: Inode, rel: Path, name: string, db: DB, writable: bool, allDir: bool, failed: set<string>)
    returns (errno: Errno)
    requires root.Valid() && Resolves(root.node, rel)
    modifies root.Repr, db`hidden
    ensures root.Valid() && errno == RmdirErrno(writable, NodeAt(old(root.node), rel), name)
    ensures errno != Ok ==> root.node == old(root.node) && db.hidden == old(db.hidden)
    ensures errno == Ok ==>
      var keys := FileKeys(NodeAt(old(root.node), rel).children[name]);
      && db.hidden == old(db.hidden) + (keys - failed)
      && (keys == {} ==> root.node == RemovedAt(old(root.node), rel, name))
      && (keys != {} ==> root.node == HideIn(old(root.node), Categories(allDir), keys))
      && (keys != {} ==> GoneEverywhere(old(root.node), root.node, allDir, keys))
  {
    var keys;
    errno, keys := RmdirKeys(root, rel, name, writable);
    if errno != Ok { return; }
    if |keys| == 0 {
      RmChildAt(root, rel, name);
    } else {
      HideEverywhere(root, db, allDir, keys, failed);
    }
  }

  /** The checks of an Rmdir, and the keys it is to hide. */
  method RmdirKeys(root: Inode, rel: Path, name: string, writable: bool) returns (errno: Errno, keys: set<string>)
    requires root.Valid() && Resolves(root.node, rel)
    ensures errno == RmdirErrno(writable, NodeAt(root.node, rel), name)
    ensures errno == Ok ==> keys == FileKeys(NodeAt(root.node, rel).children[name])
  {
    keys := {};
    if !writable { return EROFS, keys; }
    var dir := Walk(root, rel);
    assert dir.node.children.Keys == dir.children.Keys;
    if name !in dir.children { return ENOENT, keys; }
    var child := dir.children[name];
    assert dir.node.children[name] == child.node;
    if child.file.Some? { return Crash, keys; }
    keys := CollectFileKeys(child);
    return Ok, keys;
  }

  method HideEverywhere(root: Inode, db: DB, allDir: bool, keys: set<string>, failed: set<string>)
    requires root.Valid()
    modifies root.Repr, db`hidden
    ensures root.Valid() && db.hidden == old(db.hidden) + (keys - failed)
    ensures root.node == HideIn(old(root.node), Categories(allDir), keys)
    ensures GoneEverywhere(old(root.node), root.node, allDir, keys)
  {
    HideFiles(db, keys, failed);
    RemoveContentKeys(root, allDir, keys);
  }

  method HideFiles(db: DB, keys: set<string>, failed: set<string>)
    modifies db`hidden
    ensures db.hidden == old(db.hidden) + (keys - failed)
  {
    var todo := keys;
    while todo != {}
      invariant todo <= keys && db.hidden == old(db.hidden) + (keys - todo - failed)
    {
      var key :| key in todo;
      if key !in failed { db.HideFile(key); }
      todo := todo - {key};
    }
  }

  // ---------------------------------------------------------------------
  // SyncTree
  // ---------------------------------------------------------------------

  method SyncTree(root: Inode, dirs: Dirs, failing: set<InodeKey>, allDir: bool)
    requires root.Valid()
    modifies root.Repr
    ensures root.Valid() && fresh(root.Repr - old(root.Repr))
    ensures root.node == Node(root.file, TryCategories(old(root.node).children, dirs, failing, Categories(allDir)))
    ensures MergedEverywhere(old(root.node), root.node, dirs, failing, allDir)
  {
    var cats := Categories(allDir);
    TryIsEverywhere(root.node, dirs, failing, allDir);
    ghost var before := root.node.children;
    for i := 0 to |cats|
      invariant root.Valid() && fresh(root.Repr - old(root.Repr))
      invariant root.node == Node(root.file, TryCategories(before, dirs, failing, cats[..i]))
    {
      assert cats[..i + 1][..i] == cats[..i];
      if cats[i] !in root.children {
        AddCategoryDir(root, dirs, failing, cats[i]);
      } else {
        SyncBelow(root, cats[i], dirs, failing, [cats[i]]);
      }
    }
    assert cats[..|cats|] == cats;
  }

  /** The mount starts out with the categories that list something. */
  method OnAdd(root: Inode, dirs: Dirs, failing: set<InodeKey>, allDir: bool)
    requires root.Valid() && root.node.children == map[]
    modifies root.Repr
    ensures root.Valid() && fresh(root.Repr - old(root.Repr))
    ensures root.node == Node(root.file, TryCategories(map[], dirs, failing, Categories(allDir)))
    ensures MergedEverywhere(old(root.node), root.node, dirs, failing, allDir)
  {
    var cats := Categories(allDir);
    TryIsEverywhere(root.node, dirs, failing, allDir);
    for i := 0 to |cats|
      invariant root.Valid() && fresh(root.Repr - old(root.Repr))
      invariant root.node == Node(root.file, TryCategories(map[], dirs, failing, cats[..i]))
    {
      assert cats[..i + 1][..i] == cats[..i];
      CategoryIsTried(map[], dirs, failing, cats[..i], cats[i]);
      assert cats[i] !in cats[..i];
      AddCategoryDir(root, dirs, failing, cats[i]);
    }
    assert cats[..|cats|] == cats;
  }

  method AddCategoryDir(root: Inode, dirs: Dirs, failing: set<InodeKey>, cat: string)
    requires root.Valid() && cat !in root.children
    modifies root.Repr
    ensures root.Valid() && fresh(root.Repr - old(root.Repr))
    ensures root.node == Node(root.file, TryCategory(old(root.node).children, dirs, failing, cat))
  {
    if |Entries(dirs, [cat])| == 0 { return; }
    AddSubDirNode(root, cat, dirs, failing, [cat]);
  }
}
