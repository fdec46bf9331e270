/** The tree of FUSE inodes as a value: hiding content keys in place, filling a
    directory from the catalog and merging a new catalog into it. The in-place
    methods are in FuseTree. */
module InodeTree {
  import opened CatalogTree
  import opened Hiding
  import opened Totals

  /** A file inode if `file` is set, else a directory inode. */
  datatype Node = Node(file: Option<File>, children: map<string, Node>)

  predicate IsEmptyDir(n: Node) { n.file.None? && n.children == map[] }

  // ---------------------------------------------------------------------
  // Removing keys and pruning
  // ---------------------------------------------------------------------

  predicate Matched(n: Node, keys: set<string>) { n.file.Some? && n.file.value.key in keys }

  /** Files whose key is in `keys` disappear, at any depth. */
  function RemoveKeys(n: Node, keys: set<string>): Node
    decreases n, 0
  {
    n.(children := map name | name in n.children && !Matched(n.children[name], keys) ::
      Stripped(n.children[name], keys))
  }

  function Stripped(n: Node, keys: set<string>): Node
    decreases n, 1
  {
    if n.file.Some? then n else RemoveKeys(n, keys)
  }

  /** Empty directories disappear bottom-up; `n` itself stays. */
  function Prune(n: Node): Node
    decreases n, 0
  {
    n.(children := map name | name in n.children && !IsEmptyDir(Pruned(n.children[name])) :: Pruned(n.children[name]))
  }

  function Pruned(n: Node): Node
    decreases n, 1
  {
    if n.file.Some? then n else Prune(n)
  }

  function Hide(n: Node, keys: set<string>): Node { Prune(RemoveKeys(n, keys)) }

  /** The content keys of all files below `n`. */
  ghost function FileKeys(n: Node): set<string>
    decreases n, 0
  {
    set name, k | name in n.children && k in KeysAt(n.children[name]) :: k
  }

  ghost function KeysAt(n: Node): set<string>
    decreases n, 1
  {
    if n.file.Some? then {n.file.value.key} else FileKeys(n)
  }

  // ---------------------------------------------------------------------
  // What a tree holds
  // ---------------------------------------------------------------------

  /** The file at a path relative to `n` is `f`. */
  ghost predicate Holds(n: Node, rel: Path, f: File)
    decreases |rel|
  {
    if rel == [] then n.file == Some(f)
    else n.file.None? && rel[0] in n.children && Holds(n.children[rel[0]], rel[1..], f)
  }

  /** Files have no children and no directory below `n` is empty. */
  ghost predicate Tidy(n: Node) {
    && (n.file.Some? ==> n.children == map[])
    && (forall name | name in n.children :: Tidy(n.children[name]) && !IsEmptyDir(n.children[name]))
  }

  ghost predicate Plain(n: Node) {
    && (n.file.Some? ==> n.children == map[])
    && (forall name | name in n.children :: Plain(n.children[name]))
  }

  lemma {:induction false} RemoveKeysHolds(n: Node, keys: set<string>, rel: Path, f: File)
    requires n.file.None?
    ensures Holds(RemoveKeys(n, keys), rel, f) <==> Holds(n, rel, f) && f.key !in keys
    decreases |rel|
  {
    if rel != [] && rel[0] in n.children {
      var c := n.children[rel[0]];
      if c.file.None? { RemoveKeysHolds(c, keys, rel[1..], f); }
    }
  }

  lemma {:induction false} EmptyHoldsNothing(n: Node, rel: Path, f: File)
    requires IsEmptyDir(n)
    ensures !Holds(n, rel, f)
  {
  }

  lemma {:induction false} PruneHolds(n: Node, rel: Path, f: File)
    requires n.file.None?
    ensures Holds(Prune(n), rel, f) <==> Holds(n, rel, f)
    decreases |rel|
  {
    if rel != [] && rel[0] in n.children {
      var c := n.children[rel[0]];
      if c.file.None? {
        PruneHolds(c, rel[1..], f);
        if IsEmptyDir(Prune(c)) { EmptyHoldsNothing(Prune(c), rel[1..], f); }
      }
    }
  }

  lemma {:induction false} PruneIsTidy(n: Node)
    requires Plain(n)
    ensures Tidy(Prune(n))
    decreases n
  {
    forall name | name in n.children ensures Tidy(Pruned(n.children[name])) {
      if n.children[name].file.None? { PruneIsTidy(n.children[name]); }
    }
  }

  lemma {:induction false} RemoveKeysIsPlain(n: Node, keys: set<string>)
    requires Plain(n)
    ensures Plain(RemoveKeys(n, keys))
    decreases n
  {
    forall name | name in n.children ensures Plain(Stripped(n.children[name], keys)) {
      if n.children[name].file.None? { RemoveKeysIsPlain(n.children[name], keys); }
    }
  }

  lemma {:induction false} TidyIsPlain(n: Node)
    requires Tidy(n)
    ensures Plain(n)
    decreases n
  {
    forall name | name in n.children ensures Plain(n.children[name]) { TidyIsPlain(n.children[name]); }
  }

  /** Nothing can be pruned twice and no directory is left empty. */
  lemma HideIsTidy(n: Node, keys: set<string>)
    requires Plain(n)
    ensures Tidy(Hide(n, keys))
  {
    RemoveKeysIsPlain(n, keys);
    PruneIsTidy(RemoveKeys(n, keys));
  }

  lemma HideHolds(n: Node, keys: set<string>, rel: Path, f: File)
    requires n.file.None?
    ensures Holds(Hide(n, keys), rel, f) <==> Holds(n, rel, f) && f.key !in keys
  {
    RemoveKeysHolds(n, keys, rel, f);
    PruneHolds(RemoveKeys(n, keys), rel, f);
  }

  lemma {:induction false} SomeFile(n: Node) returns (rel: Path, f: File)
    requires Tidy(n) && !IsEmptyDir(n)
    ensures Holds(n, rel, f)
    decreases n
  {
    if n.file.Some? {
      rel, f := [], n.file.value;
    } else {
      var name :| name in n.children;
      rel, f := SomeFile(n.children[name]);
      assert ([name] + rel)[1..] == rel;
      rel := [name] + rel;
    }
  }

  /** A tidy tree is determined by the files it holds. */
  ghost predicate SameFiles(a: Node, b: Node) {
    forall rel, f :: Holds(a, rel, f) <==> Holds(b, rel, f)
  }

  lemma SameFilesChild(a: Node, b: Node, name: string)
    requires a.file.None? && b.file.None? && SameFiles(a, b) && Tidy(a) && Tidy(b)
    requires name in a.children
    ensures name in b.children && SameFiles(a.children[name], b.children[name])
  {
    var rel, f := SomeFile(a.children[name]);
    assert ([name] + rel)[1..] == rel && Holds(a, [name] + rel, f);
    assert Holds(b, [name] + rel, f);
    forall r, g ensures Holds(a.children[name], r, g) <==> Holds(b.children[name], r, g) {
      assert ([name] + r)[1..] == r && (Holds(a, [name] + r, g) <==> Holds(b, [name] + r, g));
    }
  }

  lemma {:induction false} TidyUnique(a: Node, b: Node)
    requires Tidy(a) && Tidy(b) && SameFiles(a, b) && a.file.Some? == b.file.Some?
    ensures a == b
    decreases a
  {
    if a.file.Some? {
      assert Holds(a, [], a.file.value);
      assert Holds(b, [], a.file.value);
    } else {
      forall name | name in a.children ensures name in b.children && a.children[name] == b.children[name] {
        SameFilesChild(a, b, name);
        var ca, cb := a.children[name], b.children[name];
        SameKind(ca, cb);
        TidyUnique(ca, cb);
      }
      forall name | name in b.children ensures name in a.children { SameFilesChild(b, a, name); }
      assert a.children == b.children;
    }
  }

  lemma SameKind(a: Node, b: Node)
    requires SameFiles(a, b)
    ensures a.file == b.file
  {
    if a.file.Some? { assert Holds(a, [], a.file.value); assert Holds(b, [], a.file.value); }
    if b.file.Some? { assert Holds(b, [], b.file.value); assert Holds(a, [], b.file.value); }
  }

  // ---------------------------------------------------------------------
  // Hiding in place agrees with the catalog
  // ---------------------------------------------------------------------

  /** `n` shows exactly the placed files below `path`, without empty directories. */
  ghost predicate Mirrors(n: Node, leaves: seq<Leaf>, path: Path) {
    && n.file.None? && Tidy(n)
    && (forall rel: Path, f: File | rel != [] :: Holds(n, rel, f) <==> Leaf(path + Parent(rel), Base(rel), f) in leaves)
  }

  /** Hiding in the inodes is hiding in the catalog. */
  lemma HideMirrors(n: Node, leaves: seq<Leaf>, path: Path, keys: set<string>)
    requires Mirrors(n, leaves, path)
    ensures Mirrors(Hide(n, keys), Visible(leaves, keys), path)
  {
    TidyIsPlain(n);
    HideIsTidy(n, keys);
    forall rel: Path, f: File | rel != []
      ensures Holds(Hide(n, keys), rel, f) <==> Leaf(path + Parent(rel), Base(rel), f) in Visible(leaves, keys)
    {
      HideHolds(n, keys, rel, f);
      VisibleMember(leaves, keys, Leaf(path + Parent(rel), Base(rel), f));
    }
  }

  function Hidden(n: Node, keys: set<string>): Node { if n.file.Some? then n else Hide(n, keys) }

  /** What hiding does to one child. */
  lemma HideChild(n: Node, keys: set<string>, name: string)
    requires name in n.children
    ensures var c := n.children[name];
      && (name in Hide(n, keys).children <==> !Matched(c, keys) && !IsEmptyDir(Hidden(c, keys)))
      && (name in Hide(n, keys).children ==> Hide(n, keys).children[name] == Hidden(c, keys))
  {
    var c := n.children[name];
    var r := RemoveKeys(n, keys);
    if name in r.children {
      assert r.children[name] == Stripped(c, keys);
      assert Pruned(Stripped(c, keys)) == Hidden(c, keys);
      assert name in Prune(r).children <==> !IsEmptyDir(Pruned(r.children[name]));
    }
  }

  lemma HideAddsNothing(n: Node, keys: set<string>)
    ensures Hide(n, keys).file == n.file && Hide(n, keys).children.Keys <= n.children.Keys
  {
  }

  /** Hiding in steps is hiding the union, whatever the tree. */
  lemma {:induction false} HideInSteps(n: Node, first: set<string>, second: set<string>)
    ensures Hide(Hide(n, first), second) == Hide(n, first + second)
    decreases n
  {
    var then1 := Hide(n, first);
    var steps, once := Hide(then1, second), Hide(n, first + second);
    HideAddsNothing(n, first);
    HideAddsNothing(then1, second);
    HideAddsNothing(n, first + second);
    forall name | name in n.children
      ensures name in steps.children <==> name in once.children
      ensures name in once.children ==> steps.children[name] == once.children[name]
    {
      HideInSteps(n.children[name], first, second);
      HideChild(n, first, name);
      HideChild(n, first + second, name);
      HideAddsNothing(n.children[name], first);
      HideAddsNothing(Hide(n.children[name], first), second);
      if name in then1.children { HideChild(then1, second, name); }
    }
    assert steps.children == once.children;
  }

  // ---------------------------------------------------------------------
  // Removing a whole directory
  // ---------------------------------------------------------------------

  /** `c` is the inode at a path relative to `n`. */
  ghost predicate Reached(n: Node, rel: Path, c: Node)
    decreases |rel|
  {
    if rel == [] then n == c else n.file.None? && rel[0] in n.children && Reached(n.children[rel[0]], rel[1..], c)
  }

  lemma {:induction false} KeyCollected(n: Node, rel: Path, f: File)
    requires Holds(n, rel, f)
    ensures f.key in KeysAt(n)
    decreases |rel|
  {
    if rel != [] { KeyCollected(n.children[rel[0]], rel[1..], f); }
  }

  lemma {:induction false} CollectedKey(n: Node, k: string) returns (rel: Path, f: File)
    requires k in KeysAt(n)
    ensures Holds(n, rel, f) && f.key == k
    decreases n
  {
    if n.file.Some? {
      rel, f := [], n.file.value;
    } else {
      var name :| name in n.children && k in KeysAt(n.children[name]);
      rel, f := CollectedKey(n.children[name], k);
      assert ([name] + rel)[1..] == rel;
      rel := [name] + rel;
    }
  }

  /** Collecting finds exactly the keys of the files below. */
  ghost predicate HoldsKey(n: Node, k: string) {
    exists rel, f :: Holds(n, rel, f) && f.key == k
  }

  lemma CollectsExactly(n: Node, k: string)
    requires n.file.None?
    ensures k in FileKeys(n) <==> HoldsKey(n, k)
  {
    assert k in KeysAt(n) <==> k in FileKeys(n);
    if k in KeysAt(n) {
      var rel, f := CollectedKey(n, k);
      assert Holds(n, rel, f) && HoldsKey(n, k);
    } else {
      forall rel, f | Holds(n, rel, f) ensures f.key != k { KeyCollected(n, rel, f); }
    }
  }

  lemma {:induction false} HoldsThrough(n: Node, rel: Path, c: Node, below: Path, f: File)
    requires Reached(n, rel, c)
    ensures Holds(n, rel + below, f) <==> Holds(c, below, f)
    decreases |rel|
  {
    if rel == [] {
      assert rel + below == below;
    } else {
      assert (rel + below)[1..] == rel[1..] + below;
      HoldsThrough(n.children[rel[0]], rel[1..], c, below, f);
    }
  }

  lemma {:induction false} ReachedInTidy(n: Node, rel: Path, c: Node)
    requires Tidy(n) && Reached(n, rel, c)
    ensures Tidy(c) && (rel != [] ==> !IsEmptyDir(c))
    decreases |rel|
  {
    if |rel| > 0 {
      ReachedInTidy(n.children[rel[0]], rel[1..], c);
    }
  }

  /** Hiding all files of a directory makes the directory itself disappear. */
  lemma RmdirRemoves(n: Node, rel: Path, c: Node, left: Node)
    requires Plain(n) && n.file.None? && rel != [] && Reached(n, rel, c) && c.file.None?
    ensures !Reached(Hide(n, FileKeys(c)), rel, left)
  {
    var keys := FileKeys(c);
    HideIsTidy(n, keys);
    if Reached(Hide(n, keys), rel, left) {
      ReachedInTidy(Hide(n, keys), rel, left);
      var below, f := SomeFile(left);
      HoldsThrough(Hide(n, keys), rel, left, below, f);
      HideHolds(n, keys, rel + below, f);
      HoldsThrough(n, rel, c, below, f);
      KeyCollected(c, below, f);
    }
  }

  /** In a tree without empty directories every directory has keys to collect. */
  lemma TidyHasKeys(n: Node)
    requires Tidy(n) && n.file.None?
    ensures FileKeys(n) == {} <==> n.children == map[]
  {
    if n.children != map[] {
      var rel, f := SomeFile(n);
      CollectsExactly(n, f.key);
    }
  }

  // ---------------------------------------------------------------------
  // The categories below the root
  // ---------------------------------------------------------------------

  ghost function HideIn(n: Node, cats: seq<string>, keys: set<string>): Node {
    n.(children := map name | name in n.children ::
      if name in cats then Hide(n.children[name], keys) else n.children[name])
  }

  /** Every category directory shows the placed files below it; a category without
      a directory has none. */
  ghost predicate Shows(n: Node, leaves: seq<Leaf>, cats: seq<string>) {
    forall cat | cat in cats ::
      if cat in n.children then Mirrors(n.children[cat], leaves, [cat]) else !HasDir(leaves, [cat])
  }

  lemma HideShows(n: Node, leaves: seq<Leaf>, cats: seq<string>, keys: set<string>)
    requires Shows(n, leaves, cats)
    ensures Shows(HideIn(n, cats, keys), Visible(leaves, keys), cats)
  {
    forall cat | cat in cats
      ensures if cat in n.children then Mirrors(Hide(n.children[cat], keys), Visible(leaves, keys), [cat])
              else !HasDir(Visible(leaves, keys), [cat])
    {
      if cat in n.children {
        HideMirrors(n.children[cat], leaves, [cat], keys);
      } else {
        forall l | l in Visible(leaves, keys) ensures !([cat] <= l.dir) { VisibleMember(leaves, keys, l); }
      }
    }
  }
}
