/** Populating and merging when the database fails to number an inode: the source
    then adds nothing for that entry and goes on with the next one. */
module FailedInserts {
  import opened CatalogTree
  import opened Hiding
  import opened InodeTree
  import opened CatalogSync
  import opened Totals

  /** What an inode number is stored under: a directory's path or a content key. */
  datatype InodeKey = DirKey(path: Path) | FileKey(key: string)

  predicate Fails(failing: set<InodeKey>, d: Path, e: DirEntry) {
    (if e.file.Some? then FileKey(e.file.value.key) else DirKey(d + [e.name])) in failing
  }

  /** The entries of `d` that get a number. */
  function Created(entries: seq<DirEntry>, d: Path, failing: set<InodeKey>): seq<DirEntry> {
    if entries == [] then []
    else
      var init, e := Created(entries[..|entries| - 1], d, failing), entries[|entries| - 1];
      if Fails(failing, d, e) then init else init + [e]
  }

  /** The catalog as far as its inodes can be made. */
  function Creatable(dirs: Dirs, failing: set<InodeKey>): Dirs {
    map d | d in dirs :: Created(dirs[d], d, failing)
  }

  lemma {:induction false} CreatedMember(entries: seq<DirEntry>, d: Path, failing: set<InodeKey>, e: DirEntry)
    ensures e in Created(entries, d, failing) <==> e in entries && !Fails(failing, d, e)
    decreases |entries|
  {
    if entries != [] {
      var init, last := entries[..|entries| - 1], entries[|entries| - 1];
      CreatedMember(init, d, failing, e);
      assert entries == init + [last];
    }
  }

  lemma CreatedOneMore(entries: seq<DirEntry>, d: Path, failing: set<InodeKey>, i: nat)
    requires i < |entries|
    ensures Created(entries[..i + 1], d, failing) ==
      Created(entries[..i], d, failing) + if Fails(failing, d, entries[i]) then [] else [entries[i]]
  {
    assert entries[..i + 1][..i] == entries[..i];
  }

  lemma {:induction false} CreatedPrefix(entries: seq<DirEntry>, d: Path, failing: set<InodeKey>, i: nat)
    requires i <= |entries|
    ensures Created(entries[..i], d, failing) <= Created(entries, d, failing)
    decreases |entries| - i
  {
    if i < |entries| {
      CreatedOneMore(entries, d, failing, i);
      CreatedPrefix(entries, d, failing, i + 1);
    } else {
      assert entries[..i] == entries;
    }
  }

  lemma SameHeight(dirs: Dirs, failing: set<InodeKey>, d: Path)
    ensures Height(Creatable(dirs, failing), d) == Height(dirs, d)
    ensures Entries(Creatable(dirs, failing), d) == Created(Entries(dirs, d), d, failing)
  {
    assert Creatable(dirs, failing).Keys == dirs.Keys;
  }

  // ---------------------------------------------------------------------
  // Merging
  // ---------------------------------------------------------------------

  /** The merge with failing inserts: a new entry appears only if it gets a number. */
  function TrySync(n: Node, dirs: Dirs, failing: set<InodeKey>, d: Path): Node
    decreases Height(dirs, d), 2, 0
  {
    n.(children := TrySyncUpTo(n, dirs, failing, d, |Entries(dirs, d)|))
  }

  function TrySyncUpTo(n: Node, dirs: Dirs, failing: set<InodeKey>, d: Path, k: nat): map<string, Node>
    requires k <= |Entries(dirs, d)|
    decreases Height(dirs, d), 1, k
  {
    if k == 0 then Surviving(n, Names(Entries(dirs, d)))
    else TryEntry(TrySyncUpTo(n, dirs, failing, d, k - 1), dirs, failing, d, Entries(dirs, d)[k - 1])
  }

  function TryEntry(children: map<string, Node>, dirs: Dirs, failing: set<InodeKey>, d: Path,
                    e: DirEntry): map<string, Node>
    requires d in dirs
    decreases Height(dirs, d), 0, 0
  {
    HeightDrops(dirs, d, e.name);
    if e.name !in children then
      if Fails(failing, d, e) then children else children[e.name := NewNode(Creatable(dirs, failing), d, e)]
    else if e.file.None? then children[e.name := TrySync(children[e.name], dirs, failing, d + [e.name])]
    else children
  }

  lemma {:induction false} AllCreated(entries: seq<DirEntry>, d: Path)
    ensures Created(entries, d, {}) == entries
    decreases |entries|
  {
    if entries != [] { AllCreated(entries[..|entries| - 1], d); }
  }

  lemma AllCreatable(dirs: Dirs)
    ensures Creatable(dirs, {}) == dirs
  {
    forall p | p in dirs ensures Creatable(dirs, {})[p] == dirs[p] { AllCreated(dirs[p], p); }
  }

  /** With nothing failing this is the merge of CatalogSync. */
  lemma {:induction false} NothingFails(n: Node, dirs: Dirs, d: Path)
    ensures TrySync(n, dirs, {}, d) == Sync(n, dirs, d)
    decreases Height(dirs, d), 2, 0
  {
    NothingFailsUpTo(n, dirs, d, |Entries(dirs, d)|);
  }

  lemma {:induction false} NothingFailsUpTo(n: Node, dirs: Dirs, d: Path, k: nat)
    requires k <= |Entries(dirs, d)|
    ensures TrySyncUpTo(n, dirs, {}, d, k) == SyncUpTo(n, dirs, d, k)
    decreases Height(dirs, d), 1, k
  {
    if k > 0 {
      NothingFailsUpTo(n, dirs, d, k - 1);
      NoEntryFails(SyncUpTo(n, dirs, d, k - 1), dirs, d, Entries(dirs, d)[k - 1]);
    }
  }

  lemma {:induction false} NoEntryFails(children: map<string, Node>, dirs: Dirs, d: Path, e: DirEntry)
    requires d in dirs
    ensures TryEntry(children, dirs, {}, d, e) == SyncEntry(children, dirs, d, e)
    decreases Height(dirs, d), 0, 0
  {
    AllCreatable(dirs);
    HeightDrops(dirs, d, e.name);
    if e.name in children && e.file.None? { NothingFails(children[e.name], dirs, d + [e.name]); }
  }

  // ---------------------------------------------------------------------
  // What it makes of every name
  // ---------------------------------------------------------------------

  /** No two different entries of one name, in `d` and below. */
  ghost predicate OneEach(dirs: Dirs, d: Path) {
    forall p, e, e' | d <= p && e in Entries(dirs, p) && e' in Entries(dirs, p) && e.name == e'.name :: e == e'
  }

  ghost predicate WellListed(dirs: Dirs, d: Path) { Tame(dirs) && OneEach(dirs, d) && d != [] }

  lemma OneEachBelow(dirs: Dirs, d: Path, name: string)
    requires WellListed(dirs, d)
    ensures WellListed(dirs, d + [name])
  {
    forall p, e, e' | d + [name] <= p && e in Entries(dirs, p) && e' in Entries(dirs, p) && e.name == e'.name
      ensures e == e'
    {
      assert d <= p;
    }
  }

  /** The child of a listed name; `None` if its insert failed. */
  function Tried(n: Node, dirs: Dirs, failing: set<InodeKey>, d: Path, e: DirEntry): Option<Node>
    requires d in dirs
  {
    if e.name !in n.children then
      if Fails(failing, d, e) then None else Some(NewNode(Creatable(dirs, failing), d, e))
    else if e.file.None? then Some(TrySync(n.children[e.name], dirs, failing, d + [e.name]))
    else Some(n.children[e.name])
  }

  predicate Shown(children: map<string, Node>, name: string, c: Option<Node>) {
    if c.Some? then name in children && children[name] == c.value else name !in children
  }

  /** The state of one name after `k` entries. */
  ghost predicate TriedUpTo(n: Node, dirs: Dirs, failing: set<InodeKey>, d: Path, k: nat, name: string)
    requires k <= |Entries(dirs, d)|
  {
    var children, first := TrySyncUpTo(n, dirs, failing, d, k), FirstNamed(Entries(dirs, d)[..k], name);
    if first.Some? then Shown(children, name, Tried(n, dirs, failing, d, first.value))
    else Shown(children, name,
           if name in n.children && name in Names(Entries(dirs, d)) then Some(n.children[name]) else None)
  }

  lemma TryOtherName(n: Node, dirs: Dirs, failing: set<InodeKey>, d: Path, k: nat, name: string)
    requires k < |Entries(dirs, d)| && Entries(dirs, d)[k].name != name && TriedUpTo(n, dirs, failing, d, k, name)
    ensures TriedUpTo(n, dirs, failing, d, k + 1, name)
  {
    var entries := Entries(dirs, d);
    assert entries[..k + 1] == entries[..k] + [entries[k]];
    FirstNamedAppend(entries[..k], entries[k], name);
  }

  lemma TryNewName(n: Node, dirs: Dirs, failing: set<InodeKey>, d: Path, k: nat)
    requires k < |Entries(dirs, d)| && FirstNamed(Entries(dirs, d)[..k], Entries(dirs, d)[k].name).None?
    requires TriedUpTo(n, dirs, failing, d, k, Entries(dirs, d)[k].name)
    ensures TriedUpTo(n, dirs, failing, d, k + 1, Entries(dirs, d)[k].name)
  {
    var entries, e := Entries(dirs, d), Entries(dirs, d)[k];
    assert entries[..k + 1] == entries[..k] + [e] && Names(entries)[k] == e.name;
    FirstNamedAppend(entries[..k], e, e.name);
  }

  /** A name met before: only a file can be listed again, and again in vain. */
  lemma TryAgain(n: Node, dirs: Dirs, failing: set<InodeKey>, d: Path, k: nat)
    requires WellListed(dirs, d) && k < |Entries(dirs, d)|
    requires var name := Entries(dirs, d)[k].name;
      FirstNamed(Entries(dirs, d)[..k], name).Some? && TriedUpTo(n, dirs, failing, d, k, name)
    ensures FirstNamed(Entries(dirs, d)[..k], Entries(dirs, d)[k].name) == Some(Entries(dirs, d)[k])
    ensures TriedUpTo(n, dirs, failing, d, k + 1, Entries(dirs, d)[k].name)
  {
    var entries, e := Entries(dirs, d), Entries(dirs, d)[k];
    var first := FirstNamed(entries[..k], e.name).value;
    assert first in entries && e in entries && d <= d;
    if e.file.None? {
      assert e == SubDir(e.name);
      OnceInPrefix(entries, k, e);
    } else {
      assert entries[..k + 1] == entries[..k] + [e];
      FirstNamedAppend(entries[..k], e, e.name);
    }
  }

  lemma {:induction false} TriedAll(n: Node, dirs: Dirs, failing: set<InodeKey>, d: Path, k: nat, name: string)
    requires WellListed(dirs, d) && k <= |Entries(dirs, d)|
    ensures TriedUpTo(n, dirs, failing, d, k, name)
    decreases k
  {
    if k > 0 {
      TriedAll(n, dirs, failing, d, k - 1, name);
      if Entries(dirs, d)[k - 1].name != name { TryOtherName(n, dirs, failing, d, k - 1, name); }
      else if FirstNamed(Entries(dirs, d)[..k - 1], name).None? { TryNewName(n, dirs, failing, d, k - 1); }
      else { TryAgain(n, dirs, failing, d, k - 1); }
    }
  }

  /** Names that were there stay and are merged as ever; new ones are there if and
      only if they got a number; whatever is not listed goes. */
  lemma TriedChild(n: Node, dirs: Dirs, failing: set<InodeKey>, d: Path, name: string)
    requires WellListed(dirs, d)
    ensures var first := FirstNamed(Entries(dirs, d), name);
      Shown(TrySync(n, dirs, failing, d).children, name,
            if first.Some? then Tried(n, dirs, failing, d, first.value) else None)
    ensures FirstNamed(Entries(dirs, d), name).Some? <==> name in Names(Entries(dirs, d))
  {
    TriedAll(n, dirs, failing, d, |Entries(dirs, d)|, name);
    assert Entries(dirs, d)[..|Entries(dirs, d)|] == Entries(dirs, d);
    NamedIff(Entries(dirs, d), name);
  }

  // ---------------------------------------------------------------------
  // Populating is merging into an empty directory
  // ---------------------------------------------------------------------

  function EmptyDir(): Node { Node(None, map[]) }

  lemma FirstCreated(dirs: Dirs, failing: set<InodeKey>, d: Path, name: string)
    requires OneEach(dirs, d)
    ensures var first := FirstNamed(Entries(dirs, d), name);
      FirstNamed(Entries(Creatable(dirs, failing), d), name) ==
        if first.Some? && !Fails(failing, d, first.value) then first else None
  {
    var first, made := FirstNamed(Entries(dirs, d), name), FirstNamed(Entries(Creatable(dirs, failing), d), name);
    SameHeight(dirs, failing, d);
    assert d <= d;
    if made.Some? { CreatedMember(Entries(dirs, d), d, failing, made.value); }
    if first.Some? { CreatedMember(Entries(dirs, d), d, failing, first.value); }
  }

  lemma PopulateIsTry(dirs: Dirs, failing: set<InodeKey>, d: Path)
    requires WellListed(dirs, d)
    ensures Populate(Creatable(dirs, failing), d) == TrySync(EmptyDir(), dirs, failing, d)
  {
    var made := Creatable(dirs, failing);
    var a, b := Populate(made, d).children, TrySync(EmptyDir(), dirs, failing, d).children;
    forall name ensures (name in a <==> name in b) && (name in a ==> a[name] == b[name]) {
      assert Entries(made, d)[..|Entries(made, d)|] == Entries(made, d);
      PopulatedChild(made, d, |Entries(made, d)|, name);
      FirstCreated(dirs, failing, d, name);
      TriedChild(EmptyDir(), dirs, failing, d, name);
    }
    assert a == b;
  }

  // ---------------------------------------------------------------------
  // Exactly when everything is shown
  // ---------------------------------------------------------------------

  /** No insert fails that the merge needs. */
  ghost predicate Attained(n: Node, dirs: Dirs, failing: set<InodeKey>, d: Path)
    decreases Height(dirs, d), 1
  {
    forall e | e in Entries(dirs, d) :: EntryAttained(n, dirs, failing, d, e)
  }

  ghost predicate EntryAttained(n: Node, dirs: Dirs, failing: set<InodeKey>, d: Path, e: DirEntry)
    requires d in dirs
    decreases Height(dirs, d), 0
  {
    HeightDrops(dirs, d, e.name);
    if e.name in n.children then e.file.None? ==> Attained(n.children[e.name], dirs, failing, d + [e.name])
    else !Fails(failing, d, e) && (e.file.None? ==> Attained(EmptyDir(), dirs, failing, d + [e.name]))
  }

  /** Whatever the tree was and whichever inserts fail: the merge shows the catalog if
      and only if the two agreed on what they shared and no needed insert fails. */
  lemma {:induction false} TryConverges(n: Node, dirs: Dirs, failing: set<InodeKey>, d: Path, exact: bool)
    requires WellListed(dirs, d)
    ensures Matches(TrySync(n, dirs, failing, d), dirs, d, exact) <==>
      Compatible(n, dirs, d, exact) && Attained(n, dirs, failing, d)
    decreases Height(dirs, d), 1
  {
    var s := TrySync(n, dirs, failing, d);
    CompatibleByName(n, dirs, d, exact);
    forall name | name in Names(Entries(dirs, d))
      ensures name in s.children && ChildMatches(s.children[name], name, dirs, d, exact) <==>
        (name in n.children ==> ChildCompatible(n.children[name], name, dirs, d, exact)) &&
        EntryAttained(n, dirs, failing, d, FirstNamed(Entries(dirs, d), name).value)
    {
      TryChildConverges(n, dirs, failing, d, name, exact);
    }
    forall name | name in s.children ensures name in Names(Entries(dirs, d)) {
      TriedChild(n, dirs, failing, d, name);
    }
    MatchesByName(s, dirs, d, exact);
    AttainedByName(n, dirs, failing, d);
  }

  lemma MatchesByName(s: Node, dirs: Dirs, d: Path, exact: bool)
    requires forall name | name in s.children :: name in Names(Entries(dirs, d))
    ensures Matches(s, dirs, d, exact) <==>
      forall name | name in Names(Entries(dirs, d)) ::
        name in s.children && ChildMatches(s.children[name], name, dirs, d, exact)
  {
  }

  lemma CompatibleByName(n: Node, dirs: Dirs, d: Path, exact: bool)
    requires OneEach(dirs, d)
    ensures Compatible(n, dirs, d, exact) <==>
      forall name | name in n.children && name in Names(Entries(dirs, d)) ::
        ChildCompatible(n.children[name], name, dirs, d, exact)
  {
    forall name ensures !Clash(dirs, d, name) { NoClash(dirs, d, name); }
  }

  lemma NoClash(dirs: Dirs, d: Path, name: string)
    requires OneEach(dirs, d)
    ensures !Clash(dirs, d, name)
  {
    assert d <= d;
  }

  lemma AttainedByName(n: Node, dirs: Dirs, failing: set<InodeKey>, d: Path)
    requires OneEach(dirs, d)
    ensures Attained(n, dirs, failing, d) <==>
      forall name | name in Names(Entries(dirs, d)) ::
        FirstNamed(Entries(dirs, d), name).Some? &&
        EntryAttained(n, dirs, failing, d, FirstNamed(Entries(dirs, d), name).value)
  {
    assert d <= d;
    forall name ensures name in Names(Entries(dirs, d)) <==> FirstNamed(Entries(dirs, d), name).Some? {
      NamedIff(Entries(dirs, d), name);
    }
    forall e | e in Entries(dirs, d) ensures e.name in Names(Entries(dirs, d)) { NamedEntry(dirs, d, e.name); }
  }

  lemma {:induction false} TryChildConverges(n: Node, dirs: Dirs, failing: set<InodeKey>, d: Path, name: string,
                                             exact: bool)
    requires WellListed(dirs, d) && name in Names(Entries(dirs, d))
    ensures FirstNamed(Entries(dirs, d), name).Some?
    ensures var s := TrySync(n, dirs, failing, d);
      name in s.children && ChildMatches(s.children[name], name, dirs, d, exact) <==>
        (name in n.children ==> ChildCompatible(n.children[name], name, dirs, d, exact)) &&
        EntryAttained(n, dirs, failing, d, FirstNamed(Entries(dirs, d), name).value)
    decreases Height(dirs, d), 0
  {
    TriedChild(n, dirs, failing, d, name);
    var e := FirstNamed(Entries(dirs, d), name).value;
    HeightDrops(dirs, d, name);
    OneEachBelow(dirs, d, name);
    if e.file.None? {
      if name in n.children {
        TryConverges(n.children[name], dirs, failing, d + [name], exact);
      } else {
        PopulateIsTry(dirs, failing, d + [name]);
        TryConverges(EmptyDir(), dirs, failing, d + [name], exact);
        EmptyIsCompatible(dirs, d + [name], exact);
      }
    }
  }

  lemma EmptyIsCompatible(dirs: Dirs, d: Path, exact: bool)
    requires OneEach(dirs, d)
    ensures Compatible(EmptyDir(), dirs, d, exact)
  {
    forall name ensures !Clash(dirs, d, name) { NoClash(dirs, d, name); }
  }

  /** A later merge makes up for what failed: the attempt leaves nothing behind that
      the catalog does not agree with. */
  lemma RetryRepairs(n: Node, dirs: Dirs, failing: set<InodeKey>, d: Path, exact: bool)
    requires WellListed(dirs, d) && Compatible(n, dirs, d, exact)
    ensures Matches(Sync(TrySync(n, dirs, failing, d), dirs, d), dirs, d, exact)
  {
    StaysCompatible(n, dirs, failing, d, exact);
    SyncConverges(TrySync(n, dirs, failing, d), dirs, d, exact);
  }

  lemma {:induction false} StaysCompatible(n: Node, dirs: Dirs, failing: set<InodeKey>, d: Path, exact: bool)
    requires WellListed(dirs, d) && Compatible(n, dirs, d, exact)
    ensures Compatible(TrySync(n, dirs, failing, d), dirs, d, exact)
    decreases Height(dirs, d), 1
  {
    var s := TrySync(n, dirs, failing, d);
    forall name | name in s.children && name in Names(Entries(dirs, d))
      ensures ChildCompatible(s.children[name], name, dirs, d, exact)
    {
      TriedChild(n, dirs, failing, d, name);
      var e := FirstNamed(Entries(dirs, d), name).value;
      HeightDrops(dirs, d, name);
      OneEachBelow(dirs, d, name);
      if name in n.children {
        assert ChildCompatible(n.children[name], name, dirs, d, exact);
        if e.file.None? { StaysCompatible(n.children[name], dirs, failing, d + [name], exact); }
      } else if e.file.None? {
        PopulateIsTry(dirs, failing, d + [name]);
        EmptyIsCompatible(dirs, d + [name], exact);
        StaysCompatible(EmptyDir(), dirs, failing, d + [name], exact);
      }
    }
  }

  // ---------------------------------------------------------------------
  // All categories
  // ---------------------------------------------------------------------

  /** What a merge makes of one category of the root. */
  ghost function TryCategory(children: map<string, Node>, dirs: Dirs, failing: set<InodeKey>,
                             cat: string): map<string, Node> {
    if cat in children then children[cat := TrySync(children[cat], dirs, failing, [cat])]
    else if Entries(dirs, [cat]) == [] || DirKey([cat]) in failing then children
    else children[cat := Populate(Creatable(dirs, failing), [cat])]
  }

  ghost function TryCategories(children: map<string, Node>, dirs: Dirs, failing: set<InodeKey>,
                               cats: seq<string>): map<string, Node> {
    if cats == [] then children
    else TryCategory(TryCategories(children, dirs, failing, cats[..|cats| - 1]), dirs, failing, cats[|cats| - 1])
  }

  /** Trying one category depends on, and changes, that one only. */
  lemma OneCategoryTried(a: map<string, Node>, b: map<string, Node>, dirs: Dirs, failing: set<InodeKey>, cat: string,
                         name: string)
    requires name in a <==> name in b
    requires name in a ==> a[name] == b[name]
    ensures var x, y := TryCategory(a, dirs, failing, cat), TryCategory(b, dirs, failing, cat);
      (name in x <==> name in y) && (name in x ==> x[name] == y[name])
    ensures var y := TryCategory(b, dirs, failing, cat);
      name != cat ==> (name in y <==> name in b) && (name in y ==> y[name] == b[name])
  {
  }

  lemma {:induction false} CategoryIsTried(children: map<string, Node>, dirs: Dirs, failing: set<InodeKey>,
                                           cats: seq<string>, name: string)
    requires NoDuplicates(cats)
    ensures var tried, one := TryCategories(children, dirs, failing, cats), TryCategory(children, dirs, failing, name);
      if name in cats then (name in tried <==> name in one) && (name in tried ==> tried[name] == one[name])
      else (name in tried <==> name in children) && (name in tried ==> tried[name] == children[name])
    decreases |cats|
  {
    if cats != [] {
      var init, last := cats[..|cats| - 1], cats[|cats| - 1];
      assert cats == init + [last] && last !in init;
      CategoryIsTried(children, dirs, failing, init, name);
      if name == last {
        OneCategoryTried(children, TryCategories(children, dirs, failing, init), dirs, failing, last, name);
      } else {
        var tried := TryCategories(children, dirs, failing, init);
        OneCategoryTried(tried, tried, dirs, failing, last, name);
      }
    }
  }

  lemma {:induction false} NoCategoryFails(children: map<string, Node>, dirs: Dirs, cats: seq<string>)
    ensures TryCategories(children, dirs, {}, cats) == SyncCategories(children, dirs, cats)
    decreases |cats|
  {
    if cats != [] {
      var before, cat := SyncCategories(children, dirs, cats[..|cats| - 1]), cats[|cats| - 1];
      NoCategoryFails(children, dirs, cats[..|cats| - 1]);
      AllCreatable(dirs);
      if cat in before { NothingFails(before[cat], dirs, [cat]); }
    }
  }

  /** No insert fails that a category needs; one that lists nothing needs none. */
  ghost predicate CategoryAttained(n: Node, dirs: Dirs, failing: set<InodeKey>, cat: string) {
    if cat in n.children then Attained(n.children[cat], dirs, failing, [cat])
    else Entries(dirs, [cat]) != [] ==> DirKey([cat]) !in failing && Attained(EmptyDir(), dirs, failing, [cat])
  }

  ghost predicate AllAttained(n: Node, dirs: Dirs, failing: set<InodeKey>, cats: seq<string>) {
    forall cat | cat in cats :: CategoryAttained(n, dirs, failing, cat)
  }

  /** Where files have their paths to themselves, names stand for one entry. */
  lemma UniqueIsWellListed(dirs: Dirs, leaves: seq<Leaf>, d: Path)
    requires IsTreeBelowRoot(dirs, leaves) && d != [] && UniqueBelow(leaves, d)
    ensures WellListed(dirs, d)
  {
    TreeIsTame(dirs, leaves);
    forall p, e, e' | d <= p && e in Entries(dirs, p) && e' in Entries(dirs, p) && e.name == e'.name ensures e == e' {
      UniqueFurtherDown(leaves, d, p);
      UniqueFirst(dirs, leaves, p, e);
      UniqueFirst(dirs, leaves, p, e');
    }
  }

  lemma UniqueFurtherDown(leaves: seq<Leaf>, d: Path, p: Path)
    requires UniqueBelow(leaves, d) && d <= p
    ensures UniqueBelow(leaves, p)
  {
    assert forall l | l in leaves && p <= l.dir :: d <= l.dir;
  }

  ghost predicate CategoryShows(children: map<string, Node>, leaves: seq<Leaf>, cat: string) {
    if cat in children then Mirrors(children[cat], leaves, [cat]) else !HasDir(leaves, [cat])
  }

  lemma CategoryTried(n: Node, dirs: Dirs, failing: set<InodeKey>, leaves: seq<Leaf>, cat: string)
    requires IsTreeBelowRoot(dirs, leaves) && UniqueBelow(leaves, [cat])
    requires cat in n.children ==> n.children[cat].file.None?
    ensures CategoryShows(TryCategory(n.children, dirs, failing, cat), leaves, cat) <==>
      (cat in n.children ==> Compatible(n.children[cat], dirs, [cat], true)) && CategoryAttained(n, dirs, failing, cat)
  {
    NoCategory(dirs, leaves, cat);
    UniqueIsWellListed(dirs, leaves, [cat]);
    var base := if cat in n.children then n.children[cat] else EmptyDir();
    if cat in n.children || (Entries(dirs, [cat]) != [] && DirKey([cat]) !in failing) {
      PopulateIsTry(dirs, failing, [cat]);
      EmptyIsCompatible(dirs, [cat], true);
      TryConverges(base, dirs, failing, [cat], true);
      MirrorsIffMatches(TrySync(base, dirs, failing, [cat]), dirs, leaves, [cat]);
    }
  }

  lemma ShownIsUnique(children: map<string, Node>, leaves: seq<Leaf>, cat: string)
    requires CategoryShows(children, leaves, cat)
    ensures UniqueBelow(leaves, [cat])
  {
    if cat in children {
      MirrorsUnique(children[cat], leaves, [cat]);
    } else {
      assert forall l | l in leaves :: !([cat] <= l.dir);
    }
  }

  lemma TriedCategoryShows(n: Node, dirs: Dirs, failing: set<InodeKey>, leaves: seq<Leaf>, cats: seq<string>,
                           cat: string)
    requires IsTreeBelowRoot(dirs, leaves) && NoDuplicates(cats) && cat in cats
    requires cat in n.children ==> n.children[cat].file.None?
    ensures CategoryShows(TryCategories(n.children, dirs, failing, cats), leaves, cat) <==>
      UniqueBelow(leaves, [cat]) && (cat in n.children ==> Compatible(n.children[cat], dirs, [cat], true)) &&
      CategoryAttained(n, dirs, failing, cat)
  {
    var tried := TryCategories(n.children, dirs, failing, cats);
    CategoryIsTried(n.children, dirs, failing, cats, cat);
    if UniqueBelow(leaves, [cat]) { CategoryTried(n, dirs, failing, leaves, cat); }
    if CategoryShows(tried, leaves, cat) { ShownIsUnique(tried, leaves, cat); }
  }

  /** After a merge of the catalog of `leaves`, with any inserts failing, the inodes
      show exactly those files if and only if they agreed with the catalog on what
      they shared, no two of the files compete for a path and no needed insert fails. */
  lemma TryShows(n: Node, dirs: Dirs, failing: set<InodeKey>, leaves: seq<Leaf>, cats: seq<string>)
    requires IsTreeBelowRoot(dirs, leaves) && NoDuplicates(cats) && DirsOnly(n, cats)
    ensures Shows(Node(n.file, TryCategories(n.children, dirs, failing, cats)), leaves, cats) <==>
      AllAgree(n, dirs, leaves, cats) && AllAttained(n, dirs, failing, cats)
  {
    var tried := TryCategories(n.children, dirs, failing, cats);
    forall cat | cat in cats
      ensures CategoryShows(tried, leaves, cat) <==>
        UniqueBelow(leaves, [cat]) && (cat in n.children ==> Compatible(n.children[cat], dirs, [cat], true)) &&
        CategoryAttained(n, dirs, failing, cat)
    {
      TriedCategoryShows(n, dirs, failing, leaves, cats, cat);
    }
    assert Shows(Node(n.file, tried), leaves, cats) <==> forall cat | cat in cats :: CategoryShows(tried, leaves, cat);
  }
}
