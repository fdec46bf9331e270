/** The mount over time: hides and refreshes, failures included, compared with what a
    restart would show. */
module Mount {
  import opened CatalogTree
  import opened Hiding
  import opened InodeTree
  import opened CatalogSync
  import opened FailedInserts
  import opened Totals

  // ---------------------------------------------------------------------
  // Every run of hides and refreshes
  // ---------------------------------------------------------------------

  /** The inode tree, the placed files of the last refresh and the hidden keys. */
  datatype Live = Live(root: Node, leaves: seq<Leaf>, hidden: set<string>)

  /** An Unlink or Rmdir hides keys; those in `failed` the database does not store. A
      refresh brings a new catalog, and some inserts of inodes may fail. */
  datatype Event =
    | Hides(keys: set<string>, failed: set<string>)
    | Refreshed(leaves: seq<Leaf>, hidden: set<string>, dirs: Dirs, failing: set<InodeKey>)

  ghost predicate Happens(s: Live, event: Event, s': Live, cats: seq<string>) {
    match event
    case Hides(keys, failed) => s' == Live(HideIn(s.root, cats, keys), s.leaves, s.hidden + (keys - failed))
    case Refreshed(leaves, hidden, dirs, failing) =>
      && IsTreeBelowRoot(dirs, Visible(leaves, hidden))
      && s' == Live(Node(s.root.file, TryCategories(s.root.children, dirs, failing, cats)), leaves, hidden)
  }

  function VisibleFiles(s: Live): seq<Leaf> { Visible(s.leaves, s.hidden) }

  /** The mount shows what a restart would show. */
  ghost predicate UpToDate(s: Live, cats: seq<string>) { Shows(s.root, VisibleFiles(s), cats) }

  ghost predicate InCategory(l: Leaf, cats: seq<string>) { exists cat | cat in cats :: [cat] <= l.dir }

  /** A hide stores the key of every visible file it takes away; a refresh agrees with
      the mount on what they share and gets the numbers it needs. */
  ghost predicate Agreeable(s: Live, event: Event, cats: seq<string>) {
    match event
    case Hides(keys, failed) =>
      forall l | l in VisibleFiles(s) && InCategory(l, cats) :: l.file.key !in keys * failed
    case Refreshed(leaves, hidden, dirs, failing) =>
      AllAgree(s.root, dirs, Visible(leaves, hidden), cats) && AllAttained(s.root, dirs, failing, cats)
  }

  /** Only the files in the categories matter. */
  lemma ShowsSame(n: Node, a: seq<Leaf>, b: seq<Leaf>, cats: seq<string>)
    requires Shows(n, a, cats) && forall l | InCategory(l, cats) :: l in a <==> l in b
    ensures Shows(n, b, cats)
  {
    forall cat | cat in cats
      ensures if cat in n.children then Mirrors(n.children[cat], b, [cat]) else !HasDir(b, [cat])
    {
      if cat in n.children {
        forall rel: Path, f: File | rel != []
          ensures Holds(n.children[cat], rel, f) <==> Leaf([cat] + Parent(rel), Base(rel), f) in b
        {
          var l := Leaf([cat] + Parent(rel), Base(rel), f);
          assert [cat] <= l.dir && InCategory(l, cats);
          assert Holds(n.children[cat], rel, f) <==> l in a;
        }
      } else {
        forall l: Leaf | [cat] <= l.dir ensures l in b ==> l in a { assert InCategory(l, cats); }
      }
    }
  }

  /** And they are determined by what is shown. */
  lemma ShownOnce(n: Node, a: seq<Leaf>, b: seq<Leaf>, cats: seq<string>, l: Leaf)
    requires Shows(n, a, cats) && Shows(n, b, cats) && InCategory(l, cats) && l in b
    ensures l in a
  {
    var cat :| cat in cats && [cat] <= l.dir;
    assert HasDir(b, [cat]);
    LeafHeld(n.children[cat], b, [cat], l);
    var rel := l.dir[1..] + [l.name];
    assert Parent(rel) == l.dir[1..] && Base(rel) == l.name && [cat] + l.dir[1..] == l.dir;
    assert Holds(n.children[cat], rel, l.file) <==> Leaf([cat] + Parent(rel), Base(rel), l.file) in a;
  }

  lemma HideKeepsUpToDate(s: Live, keys: set<string>, failed: set<string>, s': Live, cats: seq<string>)
    requires NoDuplicates(cats) && UpToDate(s, cats) && Happens(s, Hides(keys, failed), s', cats)
    ensures UpToDate(s', cats) <==> Agreeable(s, Hides(keys, failed), cats)
  {
    var before, after := VisibleFiles(s), VisibleFiles(s');
    var gone := Visible(before, keys);
    HideShows(s.root, before, cats, keys);
    VisibleTwice(s.leaves, s.hidden, keys - failed);
    forall l ensures l in gone <==> l in before && l.file.key !in keys { VisibleMember(before, keys, l); }
    forall l ensures l in after <==> l in before && l.file.key !in keys - failed {
      VisibleMember(before, keys - failed, l);
    }
    if Agreeable(s, Hides(keys, failed), cats) { ShowsSame(s'.root, gone, after, cats); }
    if UpToDate(s', cats) {
      forall l | l in before && InCategory(l, cats) ensures l.file.key !in keys * failed {
        if l.file.key in keys * failed { ShownOnce(s'.root, gone, after, cats, l); }
      }
    }
  }

  /** Exactly when one event keeps the mount up to date. */
  lemma EventKeepsUpToDate(s: Live, event: Event, s': Live, cats: seq<string>)
    requires NoDuplicates(cats) && UpToDate(s, cats) && Happens(s, event, s', cats)
    ensures UpToDate(s', cats) <==> Agreeable(s, event, cats)
  {
    match event
    case Hides(keys, failed) => HideKeepsUpToDate(s, keys, failed, s', cats);
    case Refreshed(leaves, hidden, dirs, failing) => TryShows(s.root, dirs, failing, Visible(leaves, hidden), cats);
  }

  /** A run of events. */
  ghost predicate Lives(states: seq<Live>, events: seq<Event>, cats: seq<string>) {
    && NoDuplicates(cats) && |states| == |events| + 1
    && forall j, k | 0 <= j < |events| && k == j + 1 :: Happens(states[j], events[j], states[k], cats)
  }

  lemma {:induction false} UpToDateSoFar(states: seq<Live>, events: seq<Event>, cats: seq<string>, i: nat)
    requires Lives(states, events, cats) && UpToDate(states[0], cats) && i < |states|
    requires forall j | 0 <= j < i :: Agreeable(states[j], events[j], cats)
    ensures UpToDate(states[i], cats)
    decreases i
  {
    if i > 0 {
      UpToDateSoFar(states, events, cats, i - 1);
      EventKeepsUpToDate(states[i - 1], events[i - 1], states[i], cats);
    }
  }

  /** Over every run from a state in which the mount is up to date: it is so in all
      states exactly if every hide was stored and every refresh found the shared paths
      in agreement and got the numbers it needed. */
  lemma MountStaysUpToDate(states: seq<Live>, events: seq<Event>, cats: seq<string>)
    requires Lives(states, events, cats) && UpToDate(states[0], cats)
    ensures (forall i | 0 <= i < |states| :: UpToDate(states[i], cats)) <==>
      (forall i | 0 <= i < |events| :: Agreeable(states[i], events[i], cats))
  {
    if forall i | 0 <= i < |events| :: Agreeable(states[i], events[i], cats) {
      forall i | 0 <= i < |states| ensures UpToDate(states[i], cats) { UpToDateSoFar(states, events, cats, i); }
    }
    if forall i | 0 <= i < |states| :: UpToDate(states[i], cats) {
      forall i | 0 <= i < |events| ensures Agreeable(states[i], events[i], cats) {
        EventKeepsUpToDate(states[i], events[i], states[i + 1], cats);
      }
    }
  }

  // ---------------------------------------------------------------------
  // The category directories
  // ---------------------------------------------------------------------

  /** The children of a root that has just been mounted. */
  ghost function Mounted(dirs: Dirs, cats: seq<string>): map<string, Node> { SyncCategories(map[], dirs, cats) }

  lemma MountedShows(dirs: Dirs, leaves: seq<Leaf>, cats: seq<string>)
    requires IsTreeBelowRoot(dirs, leaves) && NoDuplicates(cats)
    requires forall cat | cat in cats :: UniqueBelow(leaves, [cat])
    ensures Shows(Node(None, Mounted(dirs, cats)), leaves, cats)
    ensures forall cat :: cat in Mounted(dirs, cats) <==> cat in cats && HasDir(leaves, [cat])
  {
    SyncShows(EmptyDir(), dirs, leaves, cats);
    forall cat ensures cat in Mounted(dirs, cats) <==> cat in cats && HasDir(leaves, [cat]) {
      CategoryIsSynced(map[], dirs, cats, cat);
      NoCategory(dirs, leaves, cat);
    }
  }

  lemma MirrorsSame(a: Node, b: Node, leaves: seq<Leaf>, d: Path)
    requires Mirrors(a, leaves, d) && Mirrors(b, leaves, d)
    ensures a == b
  {
    forall rel: Path, f: File ensures Holds(a, rel, f) <==> Holds(b, rel, f) {
      if rel != [] {
        assert Holds(a, rel, f) <==> Leaf(d + Parent(rel), Base(rel), f) in leaves;
      }
    }
    TidyUnique(a, b);
  }

  /** A category directory that mirrors the files is empty exactly if there are none. */
  lemma EmptyCategory(n: Node, leaves: seq<Leaf>, cat: string)
    requires Mirrors(n, leaves, [cat])
    ensures n.children == map[] <==> !HasDir(leaves, [cat])
  {
    if l :| l in leaves && [cat] <= l.dir {
      LeafHeld(n, leaves, [cat], l);
    }
    if n.children != map[] {
      var rel, f := SomeFile(n);
      assert rel != [];
      assert Leaf([cat] + Parent(rel), Base(rel), f) in leaves;
    }
  }

  /** The directory of one category, running and after a restart. */
  lemma CategoryIsEqual(s: Live, dirs: Dirs, cats: seq<string>, cat: string)
    requires UpToDate(s, cats) && Shows(Node(None, Mounted(dirs, cats)), VisibleFiles(s), cats)
    requires cat in cats && cat in s.root.children
    ensures s.root.children[cat].children == map[] <==> !HasDir(VisibleFiles(s), [cat])
    ensures cat in Mounted(dirs, cats) ==> Mounted(dirs, cats)[cat] == s.root.children[cat]
  {
    EmptyCategory(s.root.children[cat], VisibleFiles(s), cat);
    if cat in Mounted(dirs, cats) {
      MirrorsSame(s.root.children[cat], Mounted(dirs, cats)[cat], VisibleFiles(s), [cat]);
    }
  }

  /** A mount that is up to date is the very tree a restart builds, if and only if no
      category directory has become empty: a restart makes none for an empty one, and
      a running mount keeps it. */
  lemma RestartIsEqual(s: Live, dirs: Dirs, cats: seq<string>)
    requires NoDuplicates(cats) && UpToDate(s, cats) && IsTreeBelowRoot(dirs, VisibleFiles(s))
    requires forall name | name in s.root.children :: name in cats
    ensures s.root.children == Mounted(dirs, cats) <==>
      forall cat | cat in s.root.children :: s.root.children[cat].children != map[]
  {
    var leaves := VisibleFiles(s);
    forall cat | cat in cats ensures UniqueBelow(leaves, [cat]) { ShownIsUnique(s.root.children, leaves, cat); }
    MountedShows(dirs, leaves, cats);
    var running, mounted := s.root.children, Mounted(dirs, cats);
    forall cat | cat in running
      ensures cat in mounted <==> running[cat].children != map[]
      ensures cat in mounted ==> mounted[cat] == running[cat]
    {
      CategoryIsEqual(s, dirs, cats, cat);
    }
    forall cat | cat in mounted ensures cat in running { assert HasDir(leaves, [cat]); }
    EqualUnlessEmpty(running, mounted);
  }

  lemma EqualUnlessEmpty(running: map<string, Node>, mounted: map<string, Node>)
    requires forall cat | cat in mounted :: cat in running && mounted[cat] == running[cat]
    requires forall cat | cat in running :: cat in mounted <==> running[cat].children != map[]
    ensures running == mounted <==> forall cat | cat in running :: running[cat].children != map[]
  {
    if forall cat | cat in running :: running[cat].children != map[] { assert running.Keys == mounted.Keys; }
  }

  /** One event makes a category directory only when files turn up, and removes none. */
  lemma CategoryStays(s: Live, event: Event, s': Live, cats: seq<string>, cat: string)
    requires NoDuplicates(cats) && Happens(s, event, s', cats) && Agreeable(s, event, cats) && cat in cats
    requires UpToDate(s, cats)
    ensures cat in s'.root.children <==> cat in s.root.children || HasDir(VisibleFiles(s'), [cat])
  {
    match event
    case Hides(keys, failed) =>
      EventKeepsUpToDate(s, event, s', cats);
    case Refreshed(leaves, hidden, dirs, failing) =>
      CategoryIsTried(s.root.children, dirs, failing, cats, cat);
      NoCategory(dirs, Visible(leaves, hidden), cat);
      assert CategoryAttained(s.root, dirs, failing, cat);
  }

  /** Some state up to the i-th has a visible file in the category. */
  ghost predicate HadFiles(states: seq<Live>, cat: string, i: nat)
    requires i < |states|
  {
    HasDir(VisibleFiles(states[i]), [cat]) || (i > 0 && HadFiles(states, cat, i - 1))
  }

  /** Along every run that stays up to date, a category has a directory exactly if it
      has had a visible file since the run began, or had a directory then. */
  lemma {:induction false} CategoriesLinger(states: seq<Live>, events: seq<Event>, cats: seq<string>, cat: string,
                                            i: nat)
    requires Lives(states, events, cats) && UpToDate(states[0], cats) && i < |states| && cat in cats
    requires forall j | 0 <= j < i :: Agreeable(states[j], events[j], cats)
    ensures cat in states[i].root.children <==> cat in states[0].root.children || HadFiles(states, cat, i)
    decreases i
  {
    if i > 0 {
      CategoriesLinger(states, events, cats, cat, i - 1);
      UpToDateSoFar(states, events, cats, i - 1);
      CategoryStays(states[i - 1], events[i - 1], states[i], cats, cat);
    } else {
      assert HasDir(VisibleFiles(states[0]), [cat]) ==> cat in states[0].root.children;
    }
  }
}
