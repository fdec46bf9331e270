/** Building the catalog tree from database records, reading records out of a tree,
    and why a restart shows what was shown before. */
module RoundTrip {
  import opened CatalogTree
  import opened Hiding
  import opened NameOrder
  import opened StateDB
  import opened Totals

  // ---------------------------------------------------------------------
  // Building from records
  // ---------------------------------------------------------------------

  function FileOf(r: FileRecord): File {
    File(KeyOf(r.kind, r.downloadId, r.fileId), r.kind, r.downloadId, r.fileId, r.size)
  }

  function LeafOf(r: FileRecord): Leaf { Leaf(DirOf(r.path), NameOf(r.path), FileOf(r)) }

  /** The path has the prefix "/all/". */
  predicate UnderAll(p: Path) { |p| >= 2 && p[0] == "all" }

  function RecordKeys(records: seq<FileRecord>): set<string> { set r | r in records :: r.key }

  /** What the first loop places: the first record of every key, unless it is stored
      under /all. */
  function MainLeaves(records: seq<FileRecord>): seq<Leaf> {
    if records == [] then []
    else
      var init, r := records[..|records| - 1], records[|records| - 1];
      if r.key in RecordKeys(init) || UnderAll(r.path) then MainLeaves(init) else MainLeaves(init) + [LeafOf(r)]
  }

  /** The first of the records with its key, and not stored under /all. */
  ghost predicate PlacedByFirstLoop(records: seq<FileRecord>, i: nat)
    requires i < |records|
  {
    && (forall j | 0 <= j < i :: records[j].key != records[i].key)
    && !(|records[i].path| >= 2 && records[i].path[0] == "all")
  }

  lemma LastIsNew(records: seq<FileRecord>)
    requires records != []
    ensures var n := |records| - 1;
      records[n].key in RecordKeys(records[..n]) <==> !forall j | 0 <= j < n :: records[j].key != records[n].key
  {
    var n := |records| - 1;
    var init, r := records[..n], records[n];
    if r.key in RecordKeys(init) {
      var q :| q in init && q.key == r.key;
      var j :| 0 <= j < n && init[j] == q;
      assert records[j].key == r.key;
    }
    if j :| 0 <= j < n && records[j].key == r.key { assert init[j] in init; }
  }

  /** Whatever the records are, the first loop places exactly these. */
  lemma {:induction false} FirstLoopPlaces(records: seq<FileRecord>, l: Leaf)
    ensures l in MainLeaves(records) <==>
      exists i :: 0 <= i < |records| && PlacedByFirstLoop(records, i) && l == LeafOf(records[i])
    decreases |records|
  {
    if records != [] {
      var n := |records| - 1;
      var init, r := records[..n], records[n];
      FirstLoopPlaces(init, l);
      LastIsNew(records);
      forall i | 0 <= i < n ensures PlacedByFirstLoop(init, i) <==> PlacedByFirstLoop(records, i) {
        assert forall j | 0 <= j <= i :: init[j] == records[j];
      }
    }
  }

  /** The files placed in `d`, in order. */
  function FilesIn(leaves: seq<Leaf>, d: Path): seq<DirEntry> {
    if leaves == [] then []
    else
      var init, l := leaves[..|leaves| - 1], leaves[|leaves| - 1];
      if l.dir == d then FilesIn(init, d) + [FileAt(l.name, l.file)] else FilesIn(init, d)
  }

  function AllMark(key: string): string { "all:" + key }

  /** The marks the second loop has left: records with a title. */
  function Marks(records: seq<FileRecord>): set<string> {
    set r | r in records && |DirOf(r.path)| >= 2 :: AllMark(r.key)
  }

  /** What the second loop adds for one record, given the files placed so far. */
  function AllAddition(leaves: seq<Leaf>, r: FileRecord): seq<Leaf>
    requires |DirOf(r.path)| >= 2
  {
    match FindFile(FilesIn(leaves, DirOf(r.path)), NameOf(r.path))
    case Some(f) => [Leaf(["all", DirOf(r.path)[1]], NameOf(r.path), f)]
    case None => []
  }

  /** The second loop skips a record without a title and one that is marked. */
  predicate Skipped(seen: set<string>, r: FileRecord) { |DirOf(r.path)| < 2 || AllMark(r.key) in seen }

  function AllStep(leaves: seq<Leaf>, seen: set<string>, r: FileRecord): seq<Leaf> {
    if Skipped(seen, r) then leaves else leaves + AllAddition(leaves, r)
  }

  /** The files placed after the second loop has seen `records`; `seen` is what the
      first loop left in the shared map. */
  function WithAll(leaves: seq<Leaf>, seen: set<string>, records: seq<FileRecord>): seq<Leaf> {
    if records == [] then leaves
    else
      var init, r := records[..|records| - 1], records[|records| - 1];
      AllStep(WithAll(leaves, seen, init), seen + Marks(init), r)
  }

  function DbLeaves(records: seq<FileRecord>, allDir: bool): seq<Leaf> {
    if allDir && records != [] then WithAll(MainLeaves(records), RecordKeys(records), records) else MainLeaves(records)
  }

  /** What the second loop adds is under /all, one title deep, and is a file placed
      before in the record's own directory under the record's own name. */
  ghost predicate Copies(leaves: seq<Leaf>, records: seq<FileRecord>, l: Leaf) {
    exists i :: 0 <= i < |records| && CopiesOne(leaves, records[i], l)
  }

  predicate CopiesOne(leaves: seq<Leaf>, r: FileRecord, l: Leaf) {
    |r.path| >= 3 && l.dir == ["all", r.path[1]] && l.name == r.path[|r.path| - 1] &&
    Leaf(r.path[..|r.path| - 1], l.name, l.file) in leaves
  }

  lemma StepCopies(leaves: seq<Leaf>, seen: set<string>, r: FileRecord, l: Leaf)
    requires l in AllStep(leaves, seen, r)
    ensures l in leaves || CopiesOne(leaves, r, l)
  {
    if !Skipped(seen, r) && l !in leaves {
      var entries := FilesIn(leaves, DirOf(r.path));
      FindFileIn(entries, NameOf(r.path));
      FilesInMember(leaves, DirOf(r.path), NameOf(r.path), l.file);
    }
  }

  /** Whatever the records are: everything placed was placed by the first loop or is
      such a copy, and nothing placed is lost. */
  lemma {:induction false} SecondLoopCopies(leaves: seq<Leaf>, seen: set<string>, records: seq<FileRecord>, l: Leaf)
    ensures l in leaves ==> l in WithAll(leaves, seen, records)
    ensures l in WithAll(leaves, seen, records) ==>
      l in leaves || Copies(WithAll(leaves, seen, records), records, l)
    decreases |records|
  {
    if records != [] {
      var n := |records| - 1;
      var init, r := records[..n], records[n];
      var before := WithAll(leaves, seen, init);
      SecondLoopCopies(leaves, seen, init, l);
      if l in WithAll(leaves, seen, records) && l !in leaves {
        StepCopies(before, seen + Marks(init), r, l);
        if l in before {
          var i :| 0 <= i < n && CopiesOne(before, init[i], l);
          assert CopiesOne(WithAll(leaves, seen, records), records[i], l);
        } else {
          assert CopiesOne(WithAll(leaves, seen, records), records[n], l);
        }
      }
    }
  }

  /** Outside /all a tree built from records holds exactly what the first loop places:
      for every record that is the first of its key and not stored under /all, its
      file at its path. */
  lemma OutsideAll(records: seq<FileRecord>, allDir: bool, l: Leaf)
    requires l.dir == [] || l.dir[0] != "all"
    ensures l in DbLeaves(records, allDir) <==>
      exists i :: 0 <= i < |records| && PlacedByFirstLoop(records, i) && l == LeafOf(records[i])
  {
    FirstLoopPlaces(records, l);
    SecondLoopCopies(MainLeaves(records), RecordKeys(records), records, l);
  }

  /** The entries of every directory, in the order in which they were appended. */
  ghost predicate Appending(dirs: Dirs, leaves: seq<Leaf>) {
    forall d :: Entries(dirs, d) == FilesIn(leaves, d) && (d in dirs <==> FilesIn(leaves, d) != [])
  }

  lemma AppendLeaf(dirs: Dirs, leaves: seq<Leaf>, l: Leaf)
    requires Appending(dirs, leaves)
    ensures Appending(dirs[l.dir := Entries(dirs, l.dir) + [FileAt(l.name, l.file)]], leaves + [l])
  {
    assert (leaves + [l])[..|leaves + [l]| - 1] == leaves;
  }

  lemma {:induction false} FilesInCount(leaves: seq<Leaf>, d: Path, e: DirEntry)
    ensures multiset(FilesIn(leaves, d))[e] == FilesPlaced(leaves, d, e)
    decreases |leaves|
  {
    if leaves != [] {
      var init, l := leaves[..|leaves| - 1], leaves[|leaves| - 1];
      FilesInCount(init, d, e);
      assert leaves == init + [l];
      if e.file.Some? { assert l == Leaf(d, e.name, e.file.value) <==> l.dir == d && e == FileAt(l.name, l.file); }
    }
  }

  lemma AppendingIsForest(dirs: Dirs, leaves: seq<Leaf>)
    requires Appending(dirs, leaves)
    ensures IsForest(dirs, leaves)
  {
    forall d: Path, e: DirEntry ensures Count(dirs, d, e) == FilesPlaced(leaves, d, e) { FilesInCount(leaves, d, e); }
    forall d ensures d in dirs <==> exists l :: l in leaves && l.dir == d {
      if d in dirs {
        var e := dirs[d][0];
        assert e in multiset(dirs[d]) && Count(dirs, d, e) > 0;
        var l := Leaf(d, e.name, e.file.value);
        assert l in multiset(leaves);
      }
      if l :| l in leaves && l.dir == d {
        assert l in multiset(leaves) && FilesPlaced(leaves, d, FileAt(l.name, l.file)) > 0;
      }
    }
  }

  method BuildTreeFromDB(records: seq<FileRecord>, allDir: bool) returns (t: Tree)
    ensures fresh(t) && IsTreeOf(t.dirs, DbLeaves(records, allDir)) && AllSorted(t.dirs)
  {
    t := new Tree();
    var seen: set<string> := {};
    for i := 0 to |records|
      invariant fresh(t) && Appending(t.dirs, MainLeaves(records[..i])) && seen == RecordKeys(records[..i])
    {
      var r := records[i];
      assert records[..i + 1][..i] == records[..i] && records[..i + 1] == records[..i] + [r];
      if r.key !in seen {
        seen := seen + {r.key};
        if !UnderAll(r.path) {
          AppendLeaf(t.dirs, MainLeaves(records[..i]), LeafOf(r));
          t.Add(DirOf(r.path), FileAt(NameOf(r.path), FileOf(r)));
        }
      }
    }
    assert records[..|records|] == records;
    if allDir && |records| > 0 { BuildAllDirFromDB(t, records, seen, MainLeaves(records)); }
    ghost var forest := t.dirs;
    AppendingIsForest(forest, DbLeaves(records, allDir));
    t.BuildParentDirs();
    ForestBecomesTree(forest, DbLeaves(records, allDir), t.dirs);
    ghost var unsorted := t.dirs;
    t.dirs := SortDirs(t.dirs);
    TreeSameEntries(unsorted, t.dirs, DbLeaves(records, allDir));
  }

  method AddToAll(t: Tree, r: FileRecord, ghost sofar: seq<Leaf>)
    requires Appending(t.dirs, sofar) && |DirOf(r.path)| >= 2
    modifies t
    ensures Appending(t.dirs, sofar + AllAddition(sofar, r))
  {
    var d := DirOf(r.path);
    var found := Search(Entries(t.dirs, d), NameOf(r.path));
    if found.Some? {
      AppendLeaf(t.dirs, sofar, Leaf(["all", d[1]], NameOf(r.path), found.value));
      t.Add(["all", d[1]], FileAt(NameOf(r.path), found.value));
    } else {
      assert sofar + [] == sofar;
    }
  }

  function MarkStep(seen: set<string>, r: FileRecord): set<string> {
    if Skipped(seen, r) then seen else seen + {AllMark(r.key)}
  }

  lemma AllOneMore(leaves: seq<Leaf>, seen: set<string>, records: seq<FileRecord>, r: FileRecord)
    ensures seen + Marks(records + [r]) == MarkStep(seen + Marks(records), r)
    ensures WithAll(leaves, seen, records + [r]) == AllStep(WithAll(leaves, seen, records), seen + Marks(records), r)
  {
    assert (records + [r])[..|records + [r]| - 1] == records;
    assert Marks(records + [r]) == Marks(records) + (if |DirOf(r.path)| >= 2 then {AllMark(r.key)} else {});
  }

  /** Where the second loop is after the records `met`. */
  ghost predicate AllProgress(met: seq<FileRecord>, leaves: seq<Leaf>, seen0: set<string>, seen: set<string>,
                              sofar: seq<Leaf>) {
    seen == seen0 + Marks(met) && sofar == WithAll(leaves, seen0, met)
  }

  lemma AllProgressStep(met: seq<FileRecord>, r: FileRecord, leaves: seq<Leaf>, seen0: set<string>, seen: set<string>,
                        sofar: seq<Leaf>)
    requires AllProgress(met, leaves, seen0, seen, sofar)
    ensures AllProgress(met + [r], leaves, seen0, MarkStep(seen, r), AllStep(sofar, seen, r))
  {
    AllOneMore(leaves, seen0, met, r);
  }

  lemma OneMoreRecord(records: seq<FileRecord>, i: nat)
    requires i < |records|
    ensures records[..i + 1] == records[..i] + [records[i]]
  {
  }

  method AddIfNew(t: Tree, r: FileRecord, seen: set<string>, ghost sofar: seq<Leaf>) returns (seen': set<string>)
    requires Appending(t.dirs, sofar)
    modifies t
    ensures Appending(t.dirs, AllStep(sofar, seen, r))
    ensures seen' == MarkStep(seen, r)
  {
    seen' := seen;
    if |DirOf(r.path)| >= 2 && "all:" + r.key !in seen {
      seen' := seen + {"all:" + r.key};
      AddToAll(t, r, sofar);
    }
  }

  method BuildAllDirFromDB(t: Tree, records: seq<FileRecord>, seen0: set<string>, ghost leaves: seq<Leaf>)
    requires Appending(t.dirs, leaves)
    modifies t
    ensures Appending(t.dirs, WithAll(leaves, seen0, records))
  {
    var seen := seen0;
    ghost var sofar := leaves;
    for i := 0 to |records|
      invariant AllProgress(records[..i], leaves, seen0, seen, sofar) && Appending(t.dirs, sofar)
    {
      OneMoreRecord(records, i);
      AllProgressStep(records[..i], records[i], leaves, seen0, seen, sofar);
      ghost var added := AllStep(sofar, seen, records[i]);
      seen := AddIfNew(t, records[i], seen, sofar);
      sofar := added;
    }
    assert records[..|records|] == records;
  }

  // ---------------------------------------------------------------------
  // Reading records out of a tree
  // ---------------------------------------------------------------------

  /** The record a refresh writes for a file at its place. */
  function RecordOf(l: Leaf): FileRecord {
    FileRecord(l.file.key, l.file.kind, l.file.downloadId, l.file.fileId, l.dir + [l.name], l.file.size)
  }

  lemma RecordOfInjective(a: Leaf, b: Leaf)
    requires RecordOf(a) == RecordOf(b)
    ensures a == b
  {
    assert Parent(a.dir + [a.name]) == a.dir && Base(a.dir + [a.name]) == a.name;
    assert Parent(b.dir + [b.name]) == b.dir && Base(b.dir + [b.name]) == b.name;
  }

  ghost predicate AreRecords(records: seq<FileRecord>) {
    forall r | r in records :: exists l :: r == RecordOf(l)
  }

  /** One record for every file entry outside /all. */
  ghost predicate Extracted(dirs: Dirs, records: seq<FileRecord>) {
    && AreRecords(records)
    && (forall l: Leaf ::
          multiset(records)[RecordOf(l)] ==
            if |l.dir| >= 2 && l.dir[0] == "all" then 0 else Count(dirs, l.dir, FileAt(l.name, l.file)))
  }

  method ExtractDir(d: Path, entries: seq<DirEntry>) returns (records: seq<FileRecord>)
    ensures AreRecords(records)
    ensures forall l: Leaf ::
      multiset(records)[RecordOf(l)] ==
        if l.dir == d && !UnderAll(d) then multiset(entries)[FileAt(l.name, l.file)] else 0
  {
    records := [];
    for i := 0 to |entries|
      invariant AreRecords(records)
      invariant forall l: Leaf ::
        multiset(records)[RecordOf(l)] ==
          if l.dir == d && !UnderAll(d) then multiset(entries[..i])[FileAt(l.name, l.file)] else 0
    {
      var e := entries[i];
      assert entries[..i + 1] == entries[..i] + [e];
      if e.file.Some? && !UnderAll(d) {
        var own := Leaf(d, e.name, e.file.value);
        forall l: Leaf | RecordOf(l) == RecordOf(own) ensures l == own { RecordOfInjective(l, own); }
        records := records + [RecordOf(own)];
      }
    }
    assert entries[..|entries|] == entries;
  }

  method ExtractRecords(dirs: Dirs) returns (records: seq<FileRecord>)
    ensures Extracted(dirs, records)
  {
    records := [];
    var todo := dirs.Keys;
    while todo != {}
      invariant todo <= dirs.Keys && AreRecords(records)
      invariant forall l: Leaf ::
        multiset(records)[RecordOf(l)] ==
          if UnderAll(l.dir) || l.dir in todo then 0 else Count(dirs, l.dir, FileAt(l.name, l.file))
    {
      var d :| d in todo;
      var more := ExtractDir(d, dirs[d]);
      records := records + more;
      todo := todo - {d};
    }
  }

  // ---------------------------------------------------------------------
  // Storing and loading
  // ---------------------------------------------------------------------

  /** The rows of the table in some order. */
  ghost predicate Lists(files: map<string, FileRecord>, records: seq<FileRecord>) {
    && (forall i, j | 0 <= i < j < |records| :: records[i].key != records[j].key)
    && (forall r :: r in records <==> r.key in files && files[r.key] == r)
  }

  /** The records of the other keys. */
  function Without(records: seq<FileRecord>, lost: set<string>): seq<FileRecord> {
    if records == [] then []
    else
      var init, r := records[..|records| - 1], records[|records| - 1];
      if r.key in lost then Without(init, lost) else Without(init, lost) + [r]
  }

  lemma WithoutOneMore(records: seq<FileRecord>, r: FileRecord, lost: set<string>)
    ensures Without(records + [r], lost) ==
      if r.key in lost then Without(records, lost) else Without(records, lost) + [r]
  {
    assert (records + [r])[..|records + [r]| - 1] == records;
  }

  method AssignOne(db: DB, key: string, failing: set<string>, ghost lost: set<string>) returns (ok: bool)
    requires Numbered(db.State()) && db.inodes.Keys !! lost && lost <= failing <= lost + db.inodes.Keys
    modifies db`inodes, db`nextInode
    ensures Numbered(db.State()) && KeepsNumbers(old(db.State()), db.State())
    ensures db.inodes.Keys !! lost && old(db.inodes).Keys <= db.inodes.Keys
    ensures ok == (key in db.inodes) == (key !in lost)
  {
    var ino := db.AssignInode(key, key !in failing);
    StepKeepsNumbers(old(db.State()), Assign(key, key !in failing), db.State());
    return ino.Some?;
  }

  /** Every file that has a number keeps it, and the others get one, except those
      whose insert fails; these are left out of what is stored. */
  method AssignInodes(db: DB, records: seq<FileRecord>, failing: set<string>) returns (stored: seq<FileRecord>)
    requires Numbered(db.State())
    modifies db`inodes, db`nextInode
    ensures Numbered(db.State()) && KeepsNumbers(old(db.State()), db.State())
    ensures stored == Without(records, failing - old(db.inodes).Keys)
    ensures forall r | r in records :: r.key in db.inodes <==> r.key !in failing - old(db.inodes).Keys
  {
    ghost var lost := failing - old(db.inodes).Keys;
    stored := [];
    for i := 0 to |records|
      invariant Numbered(db.State()) && KeepsNumbers(old(db.State()), db.State())
      invariant db.inodes.Keys !! lost && failing <= lost + db.inodes.Keys
      invariant forall j | 0 <= j < i :: records[j].key in db.inodes || records[j].key in lost
      invariant stored == Without(records[..i], lost)
    {
      var ok := AssignOne(db, records[i].key, failing, lost);
      OneMoreRecord(records, i);
      WithoutOneMore(records[..i], records[i], lost);
      if ok { stored := stored + [records[i]]; }
    }
    assert records[..|records|] == records;
  }

  /** A refresh: build, number and store the files, then drop the hidden ones from
      what is shown. `failing` are the keys whose insert fails. */
  method Refresh(db: DB, ps: seq<Placement>, allDir: bool, failing: set<string>)
    returns (t: Tree, ghost built: Dirs, ghost records: seq<FileRecord>)
    requires Numbered(db.State())
    modifies db
    ensures IsTreeOf(built, TreeLeaves(ps, allDir)) && AllSorted(built) && Extracted(built, records)
    ensures db.files == LastRecords(Without(records, failing - old(db.inodes).Keys))
    ensures db.hidden == old(db.hidden) * db.files.Keys
    ensures Numbered(db.State()) && KeepsNumbers(old(db.State()), db.State())
    ensures forall r | r in records :: r.key in db.inodes <==> r.key !in failing - old(db.inodes).Keys
    ensures db.hidden == {} ==> t.dirs == built
    ensures db.hidden != {} ==>
      IsHiddenTreeOf(t.dirs, Visible(TreeLeaves(ps, allDir), db.hidden)) && AllSorted(t.dirs)
  {
    t := BuildTree(ps, allDir);
    built := t.dirs;
    var extracted := ExtractRecords(t.dirs);
    records := extracted;
    var stored := AssignInodes(db, extracted, failing);
    var _ := db.ReplaceFiles(stored);
    if |db.hidden| > 0 {
      TreeIsBelowRoot(t.dirs, TreeLeaves(ps, allDir));
      t := ApplyHides(t, db.hidden, TreeLeaves(ps, allDir));
    }
  }

  method LoadFromDB(db: DB, records: seq<FileRecord>, current: Tree, allDir: bool) returns (t: Tree)
    requires Lists(db.files, records)
    ensures records == [] ==> t == current
    ensures records != [] && db.hidden == {} ==> IsTreeOf(t.dirs, DbLeaves(records, allDir)) && AllSorted(t.dirs)
    ensures records != [] && db.hidden != {} ==>
      IsHiddenTreeOf(t.dirs, Visible(DbLeaves(records, allDir), db.hidden)) && AllSorted(t.dirs)
  {
    if |records| == 0 { return current; }
    t := BuildTreeFromDB(records, allDir);
    if |db.hidden| > 0 {
      TreeIsBelowRoot(t.dirs, DbLeaves(records, allDir));
      t := ApplyHides(t, db.hidden, DbLeaves(records, allDir));
    }
  }

  // ---------------------------------------------------------------------
  // The round trip
  // ---------------------------------------------------------------------

  /** A placement as the catalog makes them: below a category other than /all, with
      the title as the next segment, and keyed by its own three parts. */
  ghost predicate Regular(p: Placement) {
    && |p.dir| >= 2 && p.dir[0] != "all" && p.title == [p.dir[1]]
    && p.file.key == KeyOf(p.file.kind, p.file.downloadId, p.file.fileId)
    && p.file.kind in {"torrent", "usenet", "webdl"}
  }

  ghost predicate Distinct(ps: seq<Placement>) {
    && (forall i, j | 0 <= i < j < |ps| :: ps[i].file.key != ps[j].file.key)
    && (forall i, j | 0 <= i < j < |ps| :: ps[i].dir + [ps[i].name] != ps[j].dir + [ps[j].name])
  }

  function RecordFor(p: Placement): FileRecord { RecordOf(PlacedLeaf(p)) }

  /** `records` are the placements' records, each once, in any order. */
  ghost predicate Persisted(ps: seq<Placement>, records: seq<FileRecord>) {
    && (forall i, j | 0 <= i < j < |records| :: records[i].key != records[j].key)
    && (forall r :: r in records <==> exists p :: p in ps && r == RecordFor(p))
  }

  lemma {:induction false} PlacedAt(ps: seq<Placement>, i: nat)
    requires i < |ps|
    ensures |PlacedLeaves(ps)| == |ps| && PlacedLeaves(ps)[i] == PlacedLeaf(ps[i])
    decreases |ps|
  {
    if i < |ps| - 1 {
      PlacedAt(ps[..|ps| - 1], i);
    } else if |ps| > 1 {
      PlacedAt(ps[..|ps| - 1], 0);
    }
  }

  lemma PlacedMember(ps: seq<Placement>, l: Leaf)
    ensures l in PlacedLeaves(ps) <==> exists p :: p in ps && l == PlacedLeaf(p)
  {
    if l in PlacedLeaves(ps) {
      if ps != [] { PlacedAt(ps, 0); }
      var i :| 0 <= i < |PlacedLeaves(ps)| && PlacedLeaves(ps)[i] == l;
      PlacedAt(ps, i);
      assert ps[i] in ps;
    }
    if p :| p in ps && l == PlacedLeaf(p) {
      var i :| 0 <= i < |ps| && ps[i] == p;
      PlacedAt(ps, i);
    }
  }

  /** What a refresh stores is the placements' records. */
  lemma ExtractedIsPersisted(ps: seq<Placement>, allDir: bool, dirs: Dirs, records: seq<FileRecord>)
    requires Distinct(ps) && forall p | p in ps :: Regular(p)
    requires IsTreeOf(dirs, TreeLeaves(ps, allDir)) && Extracted(dirs, records)
    ensures Persisted(ps, records)
  {
    forall l: Leaf ensures multiset(records)[RecordOf(l)] == multiset(PlacedLeaves(ps))[l] {
      ExtractedCount(ps, allDir, dirs, records, l);
    }
    forall r ensures r in records <==> exists p :: p in ps && r == RecordFor(p) {
      assert r in records <==> r in multiset(records);
      if r in records {
        var l :| r == RecordOf(l);
        assert l in multiset(PlacedLeaves(ps));
        PlacedMember(ps, l);
      }
      if p :| p in ps && r == RecordFor(p) {
        PlacedMember(ps, PlacedLeaf(p));
        assert PlacedLeaf(p) in multiset(PlacedLeaves(ps)) && RecordOf(PlacedLeaf(p)) == r;
      }
    }
    forall i, j | 0 <= i < j < |records| ensures records[i].key != records[j].key {
      if records[i].key == records[j].key { OneRecord(ps, records, i, j); }
    }
  }

  lemma ExtractedCount(ps: seq<Placement>, allDir: bool, dirs: Dirs, records: seq<FileRecord>, l: Leaf)
    requires forall p | p in ps :: Regular(p)
    requires IsTreeOf(dirs, TreeLeaves(ps, allDir)) && Extracted(dirs, records)
    ensures multiset(records)[RecordOf(l)] == multiset(PlacedLeaves(ps))[l]
  {
    assert DirAgrees(dirs, TreeLeaves(ps, allDir), l.dir);
    assert Count(dirs, l.dir, FileAt(l.name, l.file)) ==
      Expected(TreeLeaves(ps, allDir), l.dir, FileAt(l.name, l.file));
    PlacedMember(ps, l);
    assert l in PlacedLeaves(ps) <==> l in multiset(PlacedLeaves(ps));
    if l in AllLeaves(ps) { AllLeavesUnderAll(ps, l); }
    assert l in AllLeaves(ps) <==> l in multiset(AllLeaves(ps));
  }

  lemma {:induction false} AllLeavesUnderAll(ps: seq<Placement>, l: Leaf)
    requires (forall p | p in ps :: Regular(p)) && l in AllLeaves(ps)
    ensures UnderAll(l.dir)
    decreases |ps|
  {
    if ps != [] {
      var init, p := ps[..|ps| - 1], ps[|ps| - 1];
      assert p in ps;
      if l in AllLeaves(init) { AllLeavesUnderAll(init, l); }
    }
  }

  lemma {:induction false} NoDuplicateCount<T>(s: seq<T>, x: T)
    requires NoDuplicates(s)
    ensures multiset(s)[x] == if x in s then 1 else 0
    decreases |s|
  {
    if s != [] {
      var init, last := s[..|s| - 1], s[|s| - 1];
      assert s == init + [last];
      NoDuplicateCount(init, x);
    }
  }

  lemma {:induction false} CountNoDuplicate<T>(s: seq<T>, i: nat, j: nat)
    requires i < j < |s| && s[i] == s[j]
    ensures multiset(s)[s[i]] >= 2
  {
    assert s == s[..j] + s[j..] && s[i] == s[..j][i] && s[j] == s[j..][0];
    assert s[i] in multiset(s[..j]) && s[j] in multiset(s[j..]);
  }

  /** Distinct keys make the placed leaves distinct. */
  lemma PlacedDistinct(ps: seq<Placement>)
    requires Distinct(ps)
    ensures NoDuplicates(PlacedLeaves(ps))
  {
    if ps != [] { PlacedAt(ps, 0); }
    forall i, j | 0 <= i < j < |PlacedLeaves(ps)| ensures PlacedLeaves(ps)[i] != PlacedLeaves(ps)[j] {
      PlacedAt(ps, i);
      PlacedAt(ps, j);
      assert ps[i].file.key != ps[j].file.key;
    }
  }

  lemma OneRecord(ps: seq<Placement>, records: seq<FileRecord>, i: nat, j: nat)
    requires Distinct(ps) && forall l: Leaf :: multiset(records)[RecordOf(l)] == multiset(PlacedLeaves(ps))[l]
    requires forall r :: r in records <==> exists p :: p in ps && r == RecordFor(p)
    requires i < j < |records|
    ensures records[i].key != records[j].key
  {
    assert records[i] in records && records[j] in records;
    var p :| p in ps && records[i] == RecordFor(p);
    var q :| q in ps && records[j] == RecordFor(q);
    PlacedDistinct(ps);
    NoDuplicateCount(PlacedLeaves(ps), PlacedLeaf(p));
    assert multiset(records)[RecordOf(PlacedLeaf(p))] <= 1;
    if p.file.key == q.file.key {
      SamePlacement(ps, p, q);
      CountNoDuplicate(records, i, j);
    }
  }

  lemma SamePlacement(ps: seq<Placement>, p: Placement, q: Placement)
    requires Distinct(ps) && p in ps && q in ps
    requires p.file.key == q.file.key || p.dir + [p.name] == q.dir + [q.name]
    ensures p == q
  {
    var i :| 0 <= i < |ps| && ps[i] == p;
    var j :| 0 <= j < |ps| && ps[j] == q;
    assert i == j;
  }

  // ---------------------------------------------------------------------
  // Rebuilding from the stored records
  // ---------------------------------------------------------------------

  function AllLeafOf(r: FileRecord): Leaf
    requires |DirOf(r.path)| >= 2
  {
    Leaf(["all", DirOf(r.path)[1]], NameOf(r.path), FileOf(r))
  }

  lemma RecordLeaves(p: Placement)
    requires Regular(p)
    ensures var r := RecordFor(p);
      && LeafOf(r) == PlacedLeaf(p) && DirOf(r.path) == p.dir && AllLeafOf(r) == AllLeaf(p)
      && r.key == p.file.key && !UnderAll(r.path)
      && forall k :: AllMark(k) != r.key
  {
    var r := RecordFor(p);
    assert Parent(p.dir + [p.name]) == p.dir && Base(p.dir + [p.name]) == p.name;
    assert ["all"] + p.title == ["all", p.dir[1]];
    assert r.key[0] == p.file.kind[0] && forall k :: AllMark(k)[0] == 'a';
  }

  lemma PersistedRecord(ps: seq<Placement>, records: seq<FileRecord>, i: nat) returns (p: Placement)
    requires Persisted(ps, records) && i < |records|
    ensures p in ps && records[i] == RecordFor(p)
  {
    assert records[i] in records;
    p :| p in ps && records[i] == RecordFor(p);
  }

  /** The first loop skips nothing. */
  lemma {:induction false} MainAt(ps: seq<Placement>, records: seq<FileRecord>, n: nat)
    requires Persisted(ps, records) && (forall p | p in ps :: Regular(p)) && n <= |records|
    ensures |MainLeaves(records[..n])| == n && forall i | 0 <= i < n ::
      MainLeaves(records[..n])[i] == LeafOf(records[i])
    decreases n
  {
    if n > 0 {
      MainAt(ps, records, n - 1);
      assert records[..n][..n - 1] == records[..n - 1];
      var p := PersistedRecord(ps, records, n - 1);
      RecordLeaves(p);
    }
  }

  lemma {:induction false} FilesInMember(leaves: seq<Leaf>, d: Path, name: string, f: File)
    ensures FileAt(name, f) in FilesIn(leaves, d) <==> Leaf(d, name, f) in leaves
  {
    FilesInCount(leaves, d, FileAt(name, f));
    assert FileAt(name, f) in FilesIn(leaves, d) <==> FileAt(name, f) in multiset(FilesIn(leaves, d));
    assert Leaf(d, name, f) in leaves <==> Leaf(d, name, f) in multiset(leaves);
  }

  /** Outside /all there is nothing but what was placed. */
  ghost predicate OutsideIsPlaced(ps: seq<Placement>, leaves: seq<Leaf>) {
    forall l | l in leaves && !UnderAll(l.dir) :: exists p :: p in ps && l == PlacedLeaf(p)
  }

  /** The second loop finds every record's own file again. */
  lemma AdditionIs(ps: seq<Placement>, records: seq<FileRecord>, leaves: seq<Leaf>, i: nat)
    requires Persisted(ps, records) && Distinct(ps) && (forall p | p in ps :: Regular(p)) && i < |records|
    requires LeafOf(records[i]) in leaves
    requires OutsideIsPlaced(ps, leaves)
    ensures |DirOf(records[i].path)| >= 2 && AllAddition(leaves, records[i]) == [AllLeafOf(records[i])]
  {
    var r := records[i];
    var p := PersistedRecord(ps, records, i);
    RecordLeaves(p);
    var entries := FilesIn(leaves, p.dir);
    FindFileIn(entries, p.name);
    FilesInMember(leaves, p.dir, p.name, FileOf(r));
    var f := FindFile(entries, p.name).value;
    FilesInMember(leaves, p.dir, p.name, f);
    var q :| q in ps && Leaf(p.dir, p.name, f) == PlacedLeaf(q);
    SamePlacement(ps, p, q);
  }

  /** The first `n` records' places under /all. */
  ghost predicate AddedAll(main: seq<Leaf>, records: seq<FileRecord>, n: nat, leaves: seq<Leaf>)
    requires n <= |records| && forall r | r in records :: |DirOf(r.path)| >= 2
  {
    && |leaves| == |main| + n && leaves[..|main|] == main
    && forall i | 0 <= i < n :: leaves[|main| + i] == AllLeafOf(records[i])
  }

  lemma PersistedDeep(ps: seq<Placement>, records: seq<FileRecord>)
    requires Persisted(ps, records) && forall p | p in ps :: Regular(p)
    ensures forall r | r in records :: |DirOf(r.path)| >= 2
  {
    forall r | r in records ensures |DirOf(r.path)| >= 2 {
      var p :| p in ps && r == RecordFor(p);
      RecordLeaves(p);
    }
  }

  /** No record is taken for one that was already added. */
  lemma NotMarked(ps: seq<Placement>, records: seq<FileRecord>, i: nat)
    requires Persisted(ps, records) && (forall p | p in ps :: Regular(p)) && i < |records|
    ensures AllMark(records[i].key) !in RecordKeys(records) + Marks(records[..i])
  {
    var mark := AllMark(records[i].key);
    forall j | 0 <= j < |records| ensures records[j].key != mark {
      var p := PersistedRecord(ps, records, j);
      RecordLeaves(p);
    }
    forall j | 0 <= j < i ensures AllMark(records[j].key) != mark {
      assert AllMark(records[j].key)[4..] == records[j].key && mark[4..] == records[i].key;
    }
  }

  lemma {:induction false} AllAt(ps: seq<Placement>, records: seq<FileRecord>, main: seq<Leaf>, n: nat)
    returns (seen: set<string>, sofar: seq<Leaf>)
    requires Persisted(ps, records) && Distinct(ps) && (forall p | p in ps :: Regular(p)) && n <= |records|
    requires main == MainLeaves(records) && forall r | r in records :: |DirOf(r.path)| >= 2
    ensures AllProgress(records[..n], main, RecordKeys(records), seen, sofar) && AddedAll(main, records, n, sofar)
    decreases n
  {
    if n == 0 {
      seen, sofar := RecordKeys(records), main;
    } else {
      seen, sofar := AllAt(ps, records, main, n - 1);
      OneMoreRecord(records, n - 1);
      AllProgressStep(records[..n - 1], records[n - 1], main, RecordKeys(records), seen, sofar);
      NotMarked(ps, records, n - 1);
      AdditionAt(ps, records, main, n - 1, sofar);
      AllAtStep(records, main, n - 1, seen, sofar);
      seen, sofar := MarkStep(seen, records[n - 1]), AllStep(sofar, seen, records[n - 1]);
    }
  }

  lemma AdditionAt(ps: seq<Placement>, records: seq<FileRecord>, main: seq<Leaf>, n: nat, sofar: seq<Leaf>)
    requires Persisted(ps, records) && Distinct(ps) && (forall p | p in ps :: Regular(p)) && n < |records|
    requires main == MainLeaves(records) && forall r | r in records :: |DirOf(r.path)| >= 2
    requires AddedAll(main, records, n, sofar)
    ensures AllAddition(sofar, records[n]) == [AllLeafOf(records[n])]
  {
    MainIsPlaced(ps, records, main, sofar, n);
    AdditionIs(ps, records, sofar, n);
  }

  lemma AllAtStep(records: seq<FileRecord>, main: seq<Leaf>, n: nat, seen: set<string>, sofar: seq<Leaf>)
    requires n < |records| && forall r | r in records :: |DirOf(r.path)| >= 2
    requires AllAddition(sofar, records[n]) == [AllLeafOf(records[n])]
    requires AllMark(records[n].key) !in seen && AddedAll(main, records, n, sofar)
    ensures AddedAll(main, records, n + 1, AllStep(sofar, seen, records[n]))
  {
    AddedOneMore(main, records, n, sofar);
  }

  lemma AddedOneMore(main: seq<Leaf>, records: seq<FileRecord>, n: nat, leaves: seq<Leaf>)
    requires n < |records| && (forall r | r in records :: |DirOf(r.path)| >= 2) && AddedAll(main, records, n, leaves)
    ensures AddedAll(main, records, n + 1, leaves + [AllLeafOf(records[n])])
  {
  }

  lemma AddedUnderAll(main: seq<Leaf>, records: seq<FileRecord>, n: nat, leaves: seq<Leaf>, i: nat)
    requires n <= |records| && (forall r | r in records :: |DirOf(r.path)| >= 2) && AddedAll(main, records, n, leaves)
    requires i < |leaves|
    ensures if i < |main| then leaves[i] == main[i] else leaves[i] == AllLeafOf(records[i - |main|])
    ensures i >= |main| ==> UnderAll(leaves[i].dir)
  {
    if i < |main| {
      assert leaves[..|main|][i] == main[i];
    } else {
      assert leaves[|main| + (i - |main|)] == AllLeafOf(records[i - |main|]);
    }
  }

  lemma MainIsPlaced(ps: seq<Placement>, records: seq<FileRecord>, main: seq<Leaf>, leaves: seq<Leaf>, n: nat)
    requires Persisted(ps, records) && (forall p | p in ps :: Regular(p)) && n < |records|
    requires main == MainLeaves(records) && forall r | r in records :: |DirOf(r.path)| >= 2
    requires AddedAll(main, records, n, leaves)
    ensures LeafOf(records[n]) in leaves
    ensures OutsideIsPlaced(ps, leaves)
  {
    MainAt(ps, records, |records|);
    assert records[..|records|] == records;
    AddedUnderAll(main, records, n, leaves, n);
    assert leaves[n] == LeafOf(records[n]);
    forall l | l in leaves && !UnderAll(l.dir) ensures exists p :: p in ps && l == PlacedLeaf(p) {
      var i :| 0 <= i < |leaves| && leaves[i] == l;
      AddedUnderAll(main, records, n, leaves, i);
      assert leaves[i] == LeafOf(records[i]);
      var p := PersistedRecord(ps, records, i);
      RecordLeaves(p);
    }
  }

  lemma LastKeyIsNew(ps: seq<Placement>)
    requires Distinct(ps) && ps != []
    ensures ps[|ps| - 1].file.key !in Keys(ps[..|ps| - 1])
  {
    var init, p := ps[..|ps| - 1], ps[|ps| - 1];
    forall q | q in init ensures q.file.key != p.file.key {
      var j :| 0 <= j < |init| && init[j] == q;
      assert ps[j].file.key != ps[|ps| - 1].file.key;
    }
  }

  lemma {:induction false} AllPlacedAt(ps: seq<Placement>, i: nat)
    requires Distinct(ps) && i < |ps|
    ensures |AllLeaves(ps)| == |ps| && AllLeaves(ps)[i] == AllLeaf(ps[i])
    decreases |ps|
  {
    LastKeyIsNew(ps);
    var init := ps[..|ps| - 1];
    if |ps| > 1 { AllPlacedAt(init, if i < |init| then i else 0); }
  }

  /** The leaves of a built tree, one by one. */
  lemma TreeLeafAt(ps: seq<Placement>, allDir: bool, i: nat)
    requires Distinct(ps) && i < |TreeLeaves(ps, allDir)|
    ensures |TreeLeaves(ps, allDir)| == if allDir then 2 * |ps| else |ps|
    ensures TreeLeaves(ps, allDir)[i] == if i < |ps| then PlacedLeaf(ps[i]) else AllLeaf(ps[i - |ps|])
  {
    if ps != [] {
      PlacedAt(ps, if i < |ps| then i else 0);
      AllPlacedAt(ps, 0);
      if i >= |ps| { AllPlacedAt(ps, i - |ps|); }
    }
  }

  /** The leaves of the rebuilt tree, one by one. */
  lemma DbLeafAt(ps: seq<Placement>, records: seq<FileRecord>, allDir: bool, i: nat) returns (p: Placement)
    requires Persisted(ps, records) && Distinct(ps) && (forall p | p in ps :: Regular(p))
    requires i < |DbLeaves(records, allDir)|
    ensures |DbLeaves(records, allDir)| == if allDir then 2 * |records| else |records|
    ensures p in ps
    ensures records[if i < |records| then i else i - |records|] == RecordFor(p)
    ensures DbLeaves(records, allDir)[i] == if i < |records| then PlacedLeaf(p) else AllLeaf(p)
  {
    var main := MainLeaves(records);
    assert records[..|records|] == records;
    MainAt(ps, records, |records|);
    PersistedDeep(ps, records);
    if allDir && records != [] {
      var _, sofar := AllAt(ps, records, main, |records|);
      assert sofar == DbLeaves(records, allDir);
      AddedUnderAll(main, records, |records|, DbLeaves(records, allDir), i);
    }
    p := PersistedRecord(ps, records, if i < |records| then i else i - |records|);
    RecordLeaves(p);
  }

  ghost predicate Shown(ps: seq<Placement>, allDir: bool, l: Leaf) {
    exists p :: p in ps && (l == PlacedLeaf(p) || (allDir && l == AllLeaf(p)))
  }

  lemma TreeHas(ps: seq<Placement>, allDir: bool, p: Placement)
    requires Distinct(ps) && p in ps
    ensures PlacedLeaf(p) in TreeLeaves(ps, allDir)
    ensures allDir ==> AllLeaf(p) in TreeLeaves(ps, allDir)
  {
    var leaves := TreeLeaves(ps, allDir);
    var i :| 0 <= i < |ps| && ps[i] == p;
    PlacedAt(ps, i);
    assert PlacedLeaf(p) == leaves[i];
    if allDir {
      AllPlacedAt(ps, i);
      assert AllLeaf(p) == leaves[|ps| + i];
    }
  }

  lemma TreeMember(ps: seq<Placement>, allDir: bool, l: Leaf)
    requires Distinct(ps)
    ensures l in TreeLeaves(ps, allDir) <==> Shown(ps, allDir, l)
  {
    var leaves := TreeLeaves(ps, allDir);
    if l in leaves {
      var i :| 0 <= i < |leaves| && leaves[i] == l;
      TreeLeafAt(ps, allDir, i);
      assert ps[if i < |ps| then i else i - |ps|] in ps;
    }
    if p :| p in ps && (l == PlacedLeaf(p) || (allDir && l == AllLeaf(p))) { TreeHas(ps, allDir, p); }
  }

  lemma DbMember(ps: seq<Placement>, records: seq<FileRecord>, allDir: bool, l: Leaf)
    requires Persisted(ps, records) && Distinct(ps) && forall p | p in ps :: Regular(p)
    ensures l in DbLeaves(records, allDir) <==> Shown(ps, allDir, l)
  {
    var leaves := DbLeaves(records, allDir);
    if l in leaves {
      var i :| 0 <= i < |leaves| && leaves[i] == l;
      var p := DbLeafAt(ps, records, allDir, i);
    }
    if p :| p in ps && (l == PlacedLeaf(p) || (allDir && l == AllLeaf(p))) {
      assert RecordFor(p) in records;
      var i :| 0 <= i < |records| && records[i] == RecordFor(p);
      DbHas(ps, records, allDir, p, i);
    }
  }

  lemma DbHas(ps: seq<Placement>, records: seq<FileRecord>, allDir: bool, p: Placement, i: nat)
    requires Persisted(ps, records) && Distinct(ps) && forall p | p in ps :: Regular(p)
    requires p in ps && i < |records| && records[i] == RecordFor(p)
    ensures PlacedLeaf(p) in DbLeaves(records, allDir)
    ensures allDir ==> AllLeaf(p) in DbLeaves(records, allDir)
  {
    var leaves := DbLeaves(records, allDir);
    DbLength(ps, records, allDir);
    var q := DbLeafAt(ps, records, allDir, i);
    RecordOfInjective(PlacedLeaf(p), PlacedLeaf(q));
    SamePlacement(ps, p, q);
    if allDir {
      var r := DbLeafAt(ps, records, allDir, |records| + i);
      RecordOfInjective(PlacedLeaf(p), PlacedLeaf(r));
      SamePlacement(ps, p, r);
    }
  }

  lemma DbLength(ps: seq<Placement>, records: seq<FileRecord>, allDir: bool)
    requires Persisted(ps, records) && Distinct(ps) && forall p | p in ps :: Regular(p)
    ensures |DbLeaves(records, allDir)| == if allDir then 2 * |records| else |records|
  {
    assert records[..|records|] == records;
    MainAt(ps, records, |records|);
    PersistedDeep(ps, records);
    if allDir && records != [] {
      var _, sofar := AllAt(ps, records, MainLeaves(records), |records|);
      assert sofar == DbLeaves(records, allDir);
    }
  }

  lemma TreeDistinct(ps: seq<Placement>, allDir: bool)
    requires Distinct(ps) && forall p | p in ps :: Regular(p)
    ensures NoDuplicates(TreeLeaves(ps, allDir))
  {
    var leaves, n := TreeLeaves(ps, allDir), |ps|;
    forall i, j | 0 <= i < j < |leaves| ensures leaves[i] != leaves[j] {
      TreeLeafAt(ps, allDir, i);
      TreeLeafAt(ps, allDir, j);
      var a, b := ps[if i < n then i else i - n], ps[if j < n then j else j - n];
      assert Regular(a);
      assert (i < n) == (j < n) ==> a.file.key != b.file.key;
    }
  }

  lemma DbDistinct(ps: seq<Placement>, records: seq<FileRecord>, allDir: bool)
    requires Persisted(ps, records) && Distinct(ps) && forall p | p in ps :: Regular(p)
    ensures NoDuplicates(DbLeaves(records, allDir))
  {
    var leaves, n := DbLeaves(records, allDir), |records|;
    forall i, j | 0 <= i < j < |leaves| ensures leaves[i] != leaves[j] {
      var p := DbLeafAt(ps, records, allDir, i);
      var q := DbLeafAt(ps, records, allDir, j);
      assert Regular(p);
      assert (i < n) == (j < n) ==> p.file.key != q.file.key;
    }
  }

  /** Rebuilding from the stored records places the same files. */
  lemma SameLeaves(ps: seq<Placement>, records: seq<FileRecord>, allDir: bool)
    requires Persisted(ps, records) && Distinct(ps) && forall p | p in ps :: Regular(p)
    ensures multiset(DbLeaves(records, allDir)) == multiset(TreeLeaves(ps, allDir))
  {
    TreeDistinct(ps, allDir);
    DbDistinct(ps, records, allDir);
    forall l: Leaf ensures multiset(DbLeaves(records, allDir))[l] == multiset(TreeLeaves(ps, allDir))[l] {
      NoDuplicateCount(DbLeaves(records, allDir), l);
      NoDuplicateCount(TreeLeaves(ps, allDir), l);
      TreeMember(ps, allDir, l);
      DbMember(ps, records, allDir, l);
    }
  }

  /** Listing the table gives the stored records back. */
  lemma ListedIsPersisted(ps: seq<Placement>, stored: seq<FileRecord>, loaded: seq<FileRecord>)
    requires Persisted(ps, stored) && Lists(LastRecords(stored), loaded)
    ensures Persisted(ps, loaded)
  {
    forall r ensures r in loaded <==> r in stored {
      LastRecordsKeys(stored, r.key);
      if r in stored {
        var s := LastRecords(stored)[r.key];
        var i :| 0 <= i < |stored| && stored[i] == r;
        var j :| 0 <= j < |stored| && stored[j] == s;
        assert i == j;
      }
    }
  }

  lemma SameMembers(a: seq<Leaf>, b: seq<Leaf>, l: Leaf)
    requires multiset(a) == multiset(b)
    ensures l in a <==> l in b
  {
    assert l in multiset(a) <==> l in a;
    assert l in multiset(b) <==> l in b;
  }

  /** Trees of the same files list the same. */
  lemma SameTree(a: Dirs, b: Dirs, leavesA: seq<Leaf>, leavesB: seq<Leaf>, d: Path)
    requires IsTreeOf(a, leavesA) && IsTreeOf(b, leavesB) && AllSorted(a) && AllSorted(b)
    requires multiset(leavesA) == multiset(leavesB)
    ensures SameListing(a, b, d)
  {
    forall l ensures l in leavesA <==> l in leavesB { SameMembers(leavesA, leavesB, l); }
    assert DirAgrees(a, leavesA, d) && DirAgrees(b, leavesB, d);
    assert HasDir(leavesA, d) <==> HasDir(leavesB, d);
    forall e: DirEntry ensures Count(a, d, e) == Count(b, d, e) {
      assert Count(a, d, e) == Expected(leavesA, d, e) && Count(b, d, e) == Expected(leavesB, d, e);
      assert HasDir(leavesA, d + [e.name]) <==> HasDir(leavesB, d + [e.name]);
    }
    SortedListing(a, b, d);
  }

  lemma SameHiddenTree(a: Dirs, b: Dirs, leavesA: seq<Leaf>, leavesB: seq<Leaf>, d: Path)
    requires IsHiddenTreeOf(a, leavesA) && IsHiddenTreeOf(b, leavesB) && AllSorted(a) && AllSorted(b)
    requires multiset(leavesA) == multiset(leavesB)
    ensures SameListing(a, b, d)
  {
    forall l ensures l in leavesA <==> l in leavesB { SameMembers(leavesA, leavesB, l); }
    forall e: DirEntry ensures Wanted(leavesA, d, e) == Wanted(leavesB, d, e) {
      assert HasDir(leavesA, d + [e.name]) <==> HasDir(leavesB, d + [e.name]);
    }
    assert HiddenDir(a, leavesA, d) && HiddenDir(b, leavesB, d);
    forall e: DirEntry ensures Count(a, d, e) == Count(b, d, e) {
      assert Count(a, d, e) == Wanted(leavesA, d, e) && Count(b, d, e) == Wanted(leavesB, d, e);
    }
    SortedListing(a, b, d);
  }

  lemma {:induction false} VisibleFileMember(ps: seq<Placement>, hidden: set<string>, p: Placement)
    ensures p in VisibleFiles(ps, hidden) <==> p in ps && p.file.key !in hidden
    decreases |ps|
  {
    if ps != [] {
      var init, last := ps[..|ps| - 1], ps[|ps| - 1];
      assert ps == init + [last];
      VisibleFileMember(init, hidden, p);
    }
  }

  lemma {:induction false} VisibleFilesDistinct(ps: seq<Placement>, hidden: set<string>)
    requires Distinct(ps)
    ensures Distinct(VisibleFiles(ps, hidden))
    decreases |ps|
  {
    if ps != [] {
      var init, last := ps[..|ps| - 1], ps[|ps| - 1];
      VisibleFilesDistinct(init, hidden);
      var rest := VisibleFiles(init, hidden);
      forall i | 0 <= i < |rest|
        ensures rest[i].file.key != last.file.key && rest[i].dir + [rest[i].name] != last.dir + [last.name]
      {
        VisibleFileMember(init, hidden, rest[i]);
        var j :| 0 <= j < |init| && init[j] == rest[i];
        assert ps[j].file.key != ps[|ps| - 1].file.key &&
          ps[j].dir + [ps[j].name] != ps[|ps| - 1].dir + [ps[|ps| - 1].name];
      }
    }
  }

  lemma {:induction false} WithoutMember(records: seq<FileRecord>, lost: set<string>, r: FileRecord)
    ensures r in Without(records, lost) <==> r in records && r.key !in lost
    decreases |records|
  {
    if records != [] {
      var init, last := records[..|records| - 1], records[|records| - 1];
      assert records == init + [last];
      WithoutMember(init, lost, r);
    }
  }

  lemma {:induction false} WithoutDistinct(records: seq<FileRecord>, lost: set<string>)
    requires forall i, j | 0 <= i < j < |records| :: records[i].key != records[j].key
    ensures var rest := Without(records, lost); forall i, j | 0 <= i < j < |rest| :: rest[i].key != rest[j].key
    decreases |records|
  {
    if records != [] {
      var init, last := records[..|records| - 1], records[|records| - 1];
      WithoutDistinct(init, lost);
      var rest := Without(init, lost);
      forall i | 0 <= i < |rest| ensures rest[i].key != last.key {
        WithoutMember(init, lost, rest[i]);
        var j :| 0 <= j < |init| && init[j] == rest[i];
        assert records[j].key != records[|records| - 1].key;
      }
    }
  }

  /** What is stored is what belongs to the files with a number. */
  lemma StoredIsPersisted(ps: seq<Placement>, records: seq<FileRecord>, lost: set<string>)
    requires Persisted(ps, records)
    ensures Persisted(VisibleFiles(ps, lost), Without(records, lost))
  {
    WithoutDistinct(records, lost);
    forall r ensures r in Without(records, lost) <==> exists p :: p in VisibleFiles(ps, lost) && r == RecordFor(p) {
      WithoutMember(records, lost, r);
      if r in records {
        var p :| p in ps && r == RecordFor(p);
        VisibleFileMember(ps, lost, p);
      }
      if p :| p in VisibleFiles(ps, lost) && r == RecordFor(p) { VisibleFileMember(ps, lost, p); }
    }
  }

  /** Rebuilding places the files that have a number, and no others. */
  lemma StoredLeaves(ps: seq<Placement>, allDir: bool, built: Dirs, extracted: seq<FileRecord>, lost: set<string>,
                     loaded: seq<FileRecord>)
    requires Distinct(ps) && forall p | p in ps :: Regular(p)
    requires IsTreeOf(built, TreeLeaves(ps, allDir)) && Extracted(built, extracted)
    requires Lists(LastRecords(Without(extracted, lost)), loaded)
    ensures multiset(DbLeaves(loaded, allDir)) == multiset(Visible(TreeLeaves(ps, allDir), lost))
  {
    var numbered := VisibleFiles(ps, lost);
    ExtractedIsPersisted(ps, allDir, built, extracted);
    StoredIsPersisted(ps, extracted, lost);
    ListedIsPersisted(numbered, Without(extracted, lost), loaded);
    VisibleFilesDistinct(ps, lost);
    forall p | p in numbered ensures Regular(p) { VisibleFileMember(ps, lost, p); }
    SameLeaves(numbered, loaded, allDir);
    VisibleTree(ps, allDir, lost);
  }

  lemma {:induction false} NothingHidden(leaves: seq<Leaf>)
    ensures Visible(leaves, {}) == leaves
    decreases |leaves|
  {
    if leaves != [] { NothingHidden(leaves[..|leaves| - 1]); }
  }

  /** The round trip: read the records out of a built tree, store them, list them in
      any order and rebuild; every directory lists the same names with the same files,
      /all and the root included. */
  lemma RebuildShowsTheSame(ps: seq<Placement>, allDir: bool, built: Dirs, extracted: seq<FileRecord>,
                            loaded: seq<FileRecord>, rebuilt: Dirs, d: Path)
    requires Distinct(ps) && forall p | p in ps :: Regular(p)
    requires IsTreeOf(built, TreeLeaves(ps, allDir)) && AllSorted(built) && Extracted(built, extracted)
    requires Lists(LastRecords(Without(extracted, {})), loaded)
    requires IsTreeOf(rebuilt, DbLeaves(loaded, allDir)) && AllSorted(rebuilt)
    ensures SameListing(built, rebuilt, d)
  {
    StoredLeaves(ps, allDir, built, extracted, {}, loaded);
    NothingHidden(TreeLeaves(ps, allDir));
    SameTree(built, rebuilt, TreeLeaves(ps, allDir), DbLeaves(loaded, allDir), d);
  }

  /** In general, with hidden files and failed inserts: a restart shows exactly what
      the refresh showed, less the files that got no number. */
  lemma RestartShowsTheSame(ps: seq<Placement>, allDir: bool, built: Dirs, extracted: seq<FileRecord>,
                            lost: set<string>,
                            loaded: seq<FileRecord>, hidden: set<string>, before: Dirs, after: Dirs, d: Path)
    requires Distinct(ps) && forall p | p in ps :: Regular(p)
    requires IsTreeOf(built, TreeLeaves(ps, allDir)) && Extracted(built, extracted)
    requires Lists(LastRecords(Without(extracted, lost)), loaded)
    requires IsHiddenTreeOf(before, Visible(TreeLeaves(ps, allDir), lost + hidden)) && AllSorted(before)
    requires IsHiddenTreeOf(after, Visible(DbLeaves(loaded, allDir), hidden)) && AllSorted(after)
    ensures SameListing(before, after, d)
  {
    StoredLeaves(ps, allDir, built, extracted, lost, loaded);
    VisibleTwice(TreeLeaves(ps, allDir), lost, hidden);
    var numbered := Visible(TreeLeaves(ps, allDir), lost);
    var a, b := Visible(numbered, hidden), Visible(DbLeaves(loaded, allDir), hidden);
    forall l ensures multiset(a)[l] == multiset(b)[l] {
      VisibleCount(numbered, hidden, l);
      VisibleCount(DbLeaves(loaded, allDir), hidden, l);
    }
    assert multiset(a) == multiset(b);
    SameHiddenTree(before, after, a, b, d);
  }
}
