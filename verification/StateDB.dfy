/** The state database: stable inode numbers, file records and hidden files. The
    three tables are maps; SQL text, transactions and time stamps are not modelled. */
module StateDB {
  import opened Totals

  datatype FileRecord =
    FileRecord(key: string, kind: string, downloadId: string, fileId: string, path: seq<string>, size: int)

  /** The content key, kind:download:file. */
  function KeyOf(kind: string, downloadId: string, fileId: string): string { kind + ":" + downloadId + ":" + fileId }

  /** The tables and the counter of the open connection. */
  datatype Tables = Tables(inodes: map<string, int>, files: map<string, FileRecord>, hidden: set<string>, next: int)

  /** One call. An insert may fail after its number has been taken; a failed
      transaction is no step at all. */
  datatype Op =
    | Assign(key: string, inserted: bool)
    | Replace(records: seq<FileRecord>)
    | HideOne(key: string)
    | UnhideOne(key: string)
    | UnhideAll(kind: string, downloadId: string)
    | Reopen

  /** The record stored last for every key. */
  function LastRecords(records: seq<FileRecord>): map<string, FileRecord> {
    if records == [] then map[]
    else
      var last := records[|records| - 1];
      LastRecords(records[..|records| - 1])[last.key := last]
  }

  function DownloadPrefix(kind: string, downloadId: string): string { kind + ":" + downloadId + ":" }

  function WithPrefix(keys: set<string>, prefix: string): set<string> { set k | k in keys && prefix <= k }

  function FilesOf(files: map<string, FileRecord>, kind: string, downloadId: string): set<string> {
    set k | k in files && files[k].kind == kind && files[k].downloadId == downloadId
  }

  // ---------------------------------------------------------------------
  // Content keys
  // ---------------------------------------------------------------------

  /** The pieces between colons. */
  function Split(s: string): (parts: seq<string>)
    ensures parts != [] && forall p | p in parts :: ':' !in p
  {
    if s == [] then [""]
    else if s[0] == ':' then [""] + Split(s[1..])
    else
      var rest := Split(s[1..]);
      assert rest[0] in rest;
      [[s[0]] + rest[0]] + rest[1..]
  }

  lemma {:induction false} SplitAt(a: string, b: string)
    requires ':' !in a
    ensures Split(a + ":" + b) == [a] + Split(b)
    decreases |a|
  {
    if a == [] {
      assert (a + ":" + b)[1..] == b;
    } else {
      assert (a + ":" + b)[1..] == a[1..] + ":" + b;
      SplitAt(a[1..], b);
      assert [a[0]] + a[1..] == a;
    }
  }

  lemma {:induction false} SplitWhole(a: string)
    requires ':' !in a
    ensures Split(a) == [a]
    decreases |a|
  {
    if a != [] {
      SplitWhole(a[1..]);
      assert [a[0]] + a[1..] == a;
    }
  }

  /** Every colon begins a new piece. */
  function Colons(s: string): nat {
    if s == [] then 0 else (if s[0] == ':' then 1 else 0) + Colons(s[1..])
  }

  lemma {:induction false} ColonsAppend(a: string, b: string)
    ensures Colons(a + b) == Colons(a) + Colons(b)
    decreases |a|
  {
    if a == [] {
      assert a + b == b;
    } else {
      assert (a + b)[1..] == a[1..] + b;
      ColonsAppend(a[1..], b);
    }
  }

  lemma {:induction false} PiecesAndColons(s: string)
    ensures |Split(s)| == Colons(s) + 1
    decreases |s|
  {
    if s != [] { PiecesAndColons(s[1..]); }
  }

  lemma PieceEnds(key: string, start: nat, i: nat)
    requires start <= i < |key| && key[i] == ':' && ':' !in key[start..i]
    ensures Split(key[start..]) == [key[start..i]] + Split(key[i + 1..])
  {
    assert key[start..] == key[start..i] + ":" + key[i + 1..];
    SplitAt(key[start..i], key[i + 1..]);
  }

  /** `parts` are the pieces that end before `start`, and none ends between there and `i`. */
  ghost predicate Splitting(key: string, parts: seq<string>, start: nat, i: nat) {
    start <= i <= |key| && ':' !in key[start..i] && Split(key) == parts + Split(key[start..])
  }

  lemma SplitStep(key: string, parts: seq<string>, start: nat, i: nat)
    requires Splitting(key, parts, start, i) && i < |key|
    ensures if key[i] == ':' then Splitting(key, parts + [key[start..i]], i + 1, i + 1)
      else Splitting(key, parts, start, i + 1)
  {
    if key[i] == ':' {
      PieceEnds(key, start, i);
      Regroup(parts, key[start..i], Split(key[i + 1..]));
    } else {
      assert key[start..i + 1] == key[start..i] + [key[i]];
    }
  }

  lemma Regroup(parts: seq<string>, piece: string, rest: seq<string>)
    ensures parts + ([piece] + rest) == parts + [piece] + rest
  {
  }

  method SplitOnColons(key: string) returns (parts: seq<string>)
    ensures parts == Split(key)
  {
    var start := 0;
    parts := [];
    assert key[0..] == key;
    for i := 0 to |key|
      invariant start <= i && Splitting(key, parts, start, i)
    {
      SplitStep(key, parts, start, i);
      if key[i] == ':' {
        parts := parts + [key[start..i]];
        start := i + 1;
      }
    }
    assert key[start..|key|] == key[start..];
    SplitWhole(key[start..]);
    parts := parts + [key[start..]];
  }

  method ParseContentKey(key: string) returns (kind: string, downloadId: string, fileId: string)
    ensures var parts := Split(key);
      (kind, downloadId, fileId) == if |parts| >= 3 then (parts[0], parts[1], parts[2]) else ("", "", "")
  {
    var parts := SplitOnColons(key);
    kind, downloadId, fileId := "", "", "";
    if |parts| >= 3 { kind, downloadId, fileId := parts[0], parts[1], parts[2]; }
  }

  /** A content key is read back exactly when no part of it contains a colon. */
  lemma KeyRoundTrip(kind: string, downloadId: string, fileId: string)
    ensures var parts := Split(KeyOf(kind, downloadId, fileId));
      |parts| >= 3 &&
      ((parts[0], parts[1], parts[2]) == (kind, downloadId, fileId) <==>
        ':' !in kind && ':' !in downloadId && ':' !in fileId)
  {
    var key := KeyOf(kind, downloadId, fileId);
    var parts := Split(key);
    PiecesAndColons(key);
    ColonsAppend(kind + ":" + downloadId + ":", fileId);
    ColonsAppend(kind + ":" + downloadId, ":");
    ColonsAppend(kind + ":", downloadId);
    ColonsAppend(kind, ":");
    assert parts[0] in parts && parts[1] in parts && parts[2] in parts;
    if ':' !in kind && ':' !in downloadId && ':' !in fileId {
      assert key == kind + ":" + (downloadId + ":" + fileId);
      SplitAt(kind, downloadId + ":" + fileId);
      SplitAt(downloadId, fileId);
      SplitWhole(fileId);
    }
  }

  // ---------------------------------------------------------------------
  // The database
  // ---------------------------------------------------------------------

  /** MAX(inode) + 1, or 1 for an empty table. */
  ghost predicate IsReopened(inodes: map<string, int>, next: int) {
    if inodes == map[] then next == 1
    else (exists k | k in inodes :: next == inodes[k] + 1) && forall k | k in inodes :: inodes[k] < next
  }

  /** The effect of one call on the tables. */
  ghost predicate Next(t: Tables, op: Op, t': Tables) {
    match op
    case Assign(key, inserted) =>
      if key in t.inodes then t' == t
      else t' == t.(inodes := if inserted then t.inodes[key := t.next] else t.inodes, next := t.next + 1)
    case Replace(records) =>
      var files := LastRecords(records);
      t' == t.(files := files, hidden := t.hidden * files.Keys)
    case HideOne(key) => t' == t.(hidden := t.hidden + {key})
    case UnhideOne(key) => t' == t.(hidden := t.hidden - {key})
    case UnhideAll(kind, downloadId) =>
      t' == t.(hidden := t.hidden - WithPrefix(t.hidden, DownloadPrefix(kind, downloadId)))
    case Reopen => t' == t.(next := t'.next) && IsReopened(t.inodes, t'.next)
  }

  lemma {:induction false} LastRecordsKeys(records: seq<FileRecord>, k: string)
    ensures k in LastRecords(records) <==> exists r :: r in records && r.key == k
    ensures k in LastRecords(records) ==> LastRecords(records)[k] in records && LastRecords(records)[k].key == k
    ensures k in LastRecords(records) ==> exists i :: 0 <= i < |records| && IsLast(records, i, k)
    decreases |records|
  {
    if records != [] {
      var n := |records| - 1;
      var init, last := records[..n], records[n];
      assert records == init + [last];
      LastRecordsKeys(init, k);
      if r :| r in records && r.key == k { assert r in init || r == last; }
      if last.key == k {
        assert IsLast(records, n, k);
      } else if k in LastRecords(init) {
        var i :| 0 <= i < n && IsLast(init, i, k);
        assert IsLast(records, i, k);
      }
    }
  }

  /** The record stored for the key is this one, and no later one has the key. */
  ghost predicate IsLast(records: seq<FileRecord>, i: nat, k: string)
    requires i < |records|
  {
    k in LastRecords(records) && LastRecords(records)[k] == records[i] && records[i].key == k &&
    forall j | i < j < |records| :: records[j].key != k
  }

  method CurrentKeys(records: seq<FileRecord>) returns (current: set<string>)
    ensures current == LastRecords(records).Keys
  {
    current := {};
    for i := 0 to |records|
      invariant current == LastRecords(records[..i]).Keys
    {
      assert records[..i + 1][..i] == records[..i];
      current := current + {records[i].key};
    }
    assert records[..|records|] == records;
  }

  method Upsert(files: map<string, FileRecord>, records: seq<FileRecord>) returns (upserted: map<string, FileRecord>)
    ensures upserted == files + LastRecords(records)
  {
    upserted := files;
    for i := 0 to |records|
      invariant upserted == files + LastRecords(records[..i])
    {
      assert records[..i + 1][..i] == records[..i];
      upserted := upserted[records[i].key := records[i]];
    }
    assert records[..|records|] == records;
  }

  /** Upserting and then deleting what is not current leaves the current records. */
  lemma OnlyCurrent<K, V>(before: map<K, V>, current: map<K, V>)
    ensures var gone := (before + current).Keys - current.Keys;
      gone == before.Keys - current.Keys && (before + current) - gone == current
  {
    var gone := (before + current).Keys - current.Keys;
    assert ((before + current) - gone).Keys == current.Keys;
  }

  function WithFile(hidden: set<string>, keys: set<string>): (r: set<string>)
    ensures r == hidden * keys
  {
    hidden - set k | k in hidden && k !in keys
  }

  class DB {
    var inodes: map<string, int>
    var files: map<string, FileRecord>
    var hidden: set<string>
    var nextInode: int

    function State(): Tables
      reads this
    {
      Tables(inodes, files, hidden, nextInode)
    }

    /** An empty database. */
    constructor ()
      ensures State() == Tables(map[], map[], {}, 1)
    {
      inodes, files, hidden, nextInode := map[], map[], {}, 1;
    }

    /** Closing and opening again: the counter is read from the table. */
    method Reopen()
      modifies this`nextInode
      ensures Next(old(State()), Op.Reopen, State())
    {
      nextInode := 1;
      if inodes.Keys != {} {
        var first :| first in inodes;
        var max, todo := inodes[first], inodes.Keys;
        while todo != {}
          invariant todo <= inodes.Keys
          invariant exists k | k in inodes :: max == inodes[k]
          invariant forall k | k in inodes && k !in todo :: inodes[k] <= max
        {
          var k :| k in todo;
          if inodes[k] > max { max := inodes[k]; }
          todo := todo - {k};
        }
        nextInode := max + 1;
      }
    }

    method AssignInode(key: string, inserted: bool) returns (ino: Option<int>)
      modifies this`inodes, this`nextInode
      ensures Next(old(State()), Assign(key, inserted), State())
      ensures ino == if key in inodes then Some(inodes[key]) else None
      ensures key in old(inodes) || inserted ==> ino.Some?
    {
      if key in inodes { return Some(inodes[key]); }
      var next := nextInode;
      nextInode := nextInode + 1;
      if !inserted { return None; }
      inodes := inodes[key := next];
      return Some(next);
    }

    /** The file set becomes the given one; hidden keys without a file are dropped. */
    method ReplaceFiles(records: seq<FileRecord>) returns (stale: nat)
      modifies this`files, this`hidden
      ensures Next(old(State()), Replace(records), State())
      ensures stale == |old(files).Keys - files.Keys|
    {
      var current := CurrentKeys(records);
      var upserted := Upsert(files, records);
      var gone := upserted.Keys - current;
      stale := |gone|;
      OnlyCurrent(files, LastRecords(records));
      files := upserted - gone;
      hidden := WithFile(hidden, files.Keys);
    }

    method HideFile(key: string)
      modifies this`hidden
      ensures Next(old(State()), HideOne(key), State())
    {
      hidden := hidden + {key};
    }

    method UnhideFile(key: string)
      modifies this`hidden
      ensures Next(old(State()), UnhideOne(key), State())
    {
      hidden := hidden - {key};
    }

    method UnhideDownload(kind: string, downloadId: string)
      modifies this`hidden
      ensures Next(old(State()), UnhideAll(kind, downloadId), State())
    {
      var prefix := kind + ":" + downloadId + ":";
      hidden := hidden - (set k | k in hidden && prefix <= k);
    }

    /** Compares a count of hidden keys by prefix with a count of files by column. */
    method IsDownloadFullyHidden(kind: string, downloadId: string) returns (r: bool)
      ensures r == ClaimsFullyHidden(State(), kind, downloadId)
      ensures WellKeyed(files) && ':' !in kind && ':' !in downloadId ==>
        (r <==> FilesOf(files, kind, downloadId) != {} &&
                |Stale(State(), kind, downloadId)| >= |VisibleOf(State(), kind, downloadId)|)
      ensures WellKeyed(files) && ':' !in kind && ':' !in downloadId && hidden <= files.Keys ==>
        (r <==> FilesOf(files, kind, downloadId) != {} && FilesOf(files, kind, downloadId) <= hidden)
    {
      if WellKeyed(files) && ':' !in kind && ':' !in downloadId {
        ClaimExactly(State(), kind, downloadId);
        if hidden <= files.Keys { FullyHidden(State(), kind, downloadId); }
      }
      var prefix := kind + ":" + downloadId + ":";
      var hiddenCount := |set k | k in hidden && prefix <= k|;
      var totalCount := |set k | k in files && files[k].kind == kind && files[k].downloadId == downloadId|;
      return totalCount > 0 && hiddenCount >= totalCount;
    }
  }

  function ClaimsFullyHidden(t: Tables, kind: string, downloadId: string): bool {
    var total := |FilesOf(t.files, kind, downloadId)|;
    total > 0 && |WithPrefix(t.hidden, DownloadPrefix(kind, downloadId))| >= total
  }

  // ---------------------------------------------------------------------
  // Inode numbers over every run
  // ---------------------------------------------------------------------

  ghost predicate Numbered(t: Tables) {
    && t.next >= 1
    && (forall k | k in t.inodes :: 1 <= t.inodes[k] < t.next)
    && (forall j, k | j in t.inodes && k in t.inodes && t.inodes[j] == t.inodes[k] :: j == k)
  }

  /** `later` keeps every number that `t` has given out. */
  ghost predicate KeepsNumbers(t: Tables, later: Tables) {
    forall k | k in t.inodes :: k in later.inodes && later.inodes[k] == t.inodes[k]
  }

  lemma StepKeepsNumbers(t: Tables, op: Op, t': Tables)
    requires Numbered(t) && Next(t, op, t')
    ensures Numbered(t') && KeepsNumbers(t, t')
  {
  }

  ghost predicate Run(states: seq<Tables>, ops: seq<Op>) {
    |states| == |ops| + 1 && forall i, j | 0 <= i < |ops| && j == i + 1 :: Next(states[i], ops[i], states[j])
  }

  /** A key's number never changes and two keys never share one, at any two moments of
      a run through restarts and failed inserts. */
  lemma {:induction false} NumbersAreStable(states: seq<Tables>, ops: seq<Op>, i: nat, j: nat)
    requires Run(states, ops) && i <= j < |states| && Numbered(states[0])
    ensures Numbered(states[i]) && Numbered(states[j]) && KeepsNumbers(states[i], states[j])
    decreases j
  {
    if i < j {
      NumbersAreStable(states, ops, i, j - 1);
      StepKeepsNumbers(states[j - 1], ops[j - 1], states[j]);
    } else if i > 0 {
      NumbersAreStable(states, ops, i - 1, i - 1);
      StepKeepsNumbers(states[i - 1], ops[i - 1], states[i]);
    }
  }

  lemma NumbersAreUnique(states: seq<Tables>, ops: seq<Op>, i: nat, j: nat, a: string, b: string)
    requires Run(states, ops) && i <= j < |states| && Numbered(states[0])
    requires a in states[i].inodes && b in states[j].inodes
    ensures states[i].inodes[a] == states[j].inodes[b] <==> a == b
  {
    NumbersAreStable(states, ops, i, j);
  }

  // ---------------------------------------------------------------------
  // Hidden files and fully hidden downloads
  // ---------------------------------------------------------------------

  ghost predicate WellKeyed(files: map<string, FileRecord>) {
    forall k | k in files ::
      var r := files[k];
      k == r.key && k == KeyOf(r.kind, r.downloadId, r.fileId) && ':' !in r.kind && ':' !in r.downloadId
  }

  lemma KeyPieces(kind: string, downloadId: string, rest: string)
    requires ':' !in kind && ':' !in downloadId
    ensures Split(DownloadPrefix(kind, downloadId) + rest) == [kind] + ([downloadId] + Split(rest))
  {
    assert DownloadPrefix(kind, downloadId) + rest == kind + ":" + (downloadId + ":" + rest);
    SplitAt(kind, downloadId + ":" + rest);
    SplitAt(downloadId, rest);
  }

  /** The first two pieces of a key are its kind and download. */
  lemma FirstPieces(kind: string, downloadId: string, rest: string)
    requires ':' !in kind && ':' !in downloadId
    ensures var parts := Split(DownloadPrefix(kind, downloadId) + rest);
      |parts| >= 2 && parts[0] == kind && parts[1] == downloadId
  {
    KeyPieces(kind, downloadId, rest);
  }

  /** The prefix test finds exactly the keys of the download. */
  lemma PrefixIff(kind: string, downloadId: string, kind': string, downloadId': string, fileId: string)
    requires ':' !in kind && ':' !in downloadId && ':' !in kind' && ':' !in downloadId'
    ensures DownloadPrefix(kind, downloadId) <= KeyOf(kind', downloadId', fileId) <==>
      kind == kind' && downloadId == downloadId'
  {
    var prefix, key := DownloadPrefix(kind, downloadId), KeyOf(kind', downloadId', fileId);
    assert key == DownloadPrefix(kind', downloadId') + fileId;
    FirstPieces(kind', downloadId', fileId);
    if prefix <= key {
      assert key == prefix + key[|prefix|..];
      FirstPieces(kind, downloadId, key[|prefix|..]);
    }
  }

  lemma PrefixFiles(t: Tables, kind: string, downloadId: string)
    requires WellKeyed(t.files) && ':' !in kind && ':' !in downloadId
    ensures WithPrefix(t.files.Keys, DownloadPrefix(kind, downloadId)) == FilesOf(t.files, kind, downloadId)
  {
    forall k | k in t.files
      ensures DownloadPrefix(kind, downloadId) <= k <==> k in FilesOf(t.files, kind, downloadId)
    {
      var r := t.files[k];
      PrefixIff(kind, downloadId, r.kind, r.downloadId, r.fileId);
    }
  }

  lemma Covered<T>(a: set<T>, b: set<T>)
    ensures a <= b <==> a - b == {}
  {
    assert a - b == {} ==> forall x | x in a :: x !in a - b;
  }

  lemma SubsetSize<T>(a: set<T>, b: set<T>)
    requires a <= b
    ensures |a| <= |b| && (|a| == |b| ==> a == b)
  {
    assert b == a + (b - a) && |b| == |a| + |b - a|;
  }

  /** Hidden keys of the download that have no file any more. */
  function Stale(t: Tables, kind: string, downloadId: string): set<string> {
    WithPrefix(t.hidden, DownloadPrefix(kind, downloadId)) - t.files.Keys
  }

  function VisibleOf(t: Tables, kind: string, downloadId: string): set<string> {
    FilesOf(t.files, kind, downloadId) - t.hidden
  }

  /** What the two counts really compare. */
  lemma ClaimExactly(t: Tables, kind: string, downloadId: string)
    requires WellKeyed(t.files) && ':' !in kind && ':' !in downloadId
    ensures ClaimsFullyHidden(t, kind, downloadId) <==>
      FilesOf(t.files, kind, downloadId) != {} && |Stale(t, kind, downloadId)| >= |VisibleOf(t, kind, downloadId)|
  {
    PrefixFiles(t, kind, downloadId);
    var prefixed, of := WithPrefix(t.hidden, DownloadPrefix(kind, downloadId)), FilesOf(t.files, kind, downloadId);
    var both := of * t.hidden;
    assert prefixed == Stale(t, kind, downloadId) + both && Stale(t, kind, downloadId) !! both;
    assert of == VisibleOf(t, kind, downloadId) + both && VisibleOf(t, kind, downloadId) !! both;
  }

  /** The claim is right exactly when every file is hidden, or fewer stale hidden keys
      than visible files are left, or there is no file at all. */
  lemma ClaimIsRightIff(t: Tables, kind: string, downloadId: string)
    requires WellKeyed(t.files) && ':' !in kind && ':' !in downloadId
    ensures var files := FilesOf(t.files, kind, downloadId);
      (ClaimsFullyHidden(t, kind, downloadId) == (files != {} && files <= t.hidden)) <==>
        (files == {} || files <= t.hidden || |Stale(t, kind, downloadId)| < |VisibleOf(t, kind, downloadId)|)
  {
    ClaimExactly(t, kind, downloadId);
    Covered(FilesOf(t.files, kind, downloadId), t.hidden);
  }

  /** While every hidden key has a file, the claim is right. */
  lemma FullyHidden(t: Tables, kind: string, downloadId: string)
    requires WellKeyed(t.files) && ':' !in kind && ':' !in downloadId && t.hidden <= t.files.Keys
    ensures ClaimsFullyHidden(t, kind, downloadId) <==>
      FilesOf(t.files, kind, downloadId) != {} && FilesOf(t.files, kind, downloadId) <= t.hidden
  {
    ClaimExactly(t, kind, downloadId);
    assert Stale(t, kind, downloadId) == {};
    Covered(FilesOf(t.files, kind, downloadId), t.hidden);
  }

  /** It is then also what the listing of hidden downloads counts by joining the two
      tables. */
  lemma FullyHiddenIsListed(t: Tables, kind: string, downloadId: string)
    requires WellKeyed(t.files) && ':' !in kind && ':' !in downloadId && t.hidden <= t.files.Keys
    ensures ClaimsFullyHidden(t, kind, downloadId) <==> ListedAsFull(t, (kind, downloadId))
  {
    FullyHidden(t, kind, downloadId);
    var files, joined := FilesOf(t.files, kind, downloadId), JoinedOf(t, kind, downloadId);
    assert joined == files * t.hidden;
    SubsetSize(joined, files);
    assert joined == files <==> files <= t.hidden;
    if files != {} {
      var k :| k in files;
      ListedIff(t, k);
    }
    if (kind, downloadId) in HiddenDownloads(t) {
      var k :| k in t.files && (t.files[k].kind, t.files[k].downloadId) == (kind, downloadId);
      assert k in files;
    }
  }

  lemma ListedIff(t: Tables, k: string)
    requires k in t.files
    ensures var d := (t.files[k].kind, t.files[k].downloadId);
      var joined := JoinedOf(t, t.files[k].kind, t.files[k].downloadId);
      && (d in HiddenDownloads(t) <==> joined != {})
      && (d in HiddenDownloads(t) ==>
            HiddenDownloads(t)[d] ==
              HiddenDownload(|joined|, |FilesOf(t.files, t.files[k].kind, t.files[k].downloadId)|))
  {
    assert JoinedOf(t, t.files[k].kind, t.files[k].downloadId) != {} <==>
        |JoinedOf(t, t.files[k].kind, t.files[k].downloadId)| > 0;
  }

  predicate ListedAsFull(t: Tables, d: (string, string)) {
    d in HiddenDownloads(t) && HiddenDownloads(t)[d].hiddenCount == HiddenDownloads(t)[d].totalCount
  }

  datatype HiddenDownload = HiddenDownload(hiddenCount: nat, totalCount: nat)

  function JoinedOf(t: Tables, kind: string, downloadId: string): set<string> {
    set k | k in t.files && t.files[k].kind == kind && t.files[k].downloadId == downloadId && k in t.hidden
  }

  /** Grouped by download, those with a hidden file only. */
  function HiddenDownloads(t: Tables): map<(string, string), HiddenDownload> {
    map k | k in t.files && |JoinedOf(t, t.files[k].kind, t.files[k].downloadId)| > 0 ::
      (t.files[k].kind, t.files[k].downloadId) :=
      HiddenDownload(|JoinedOf(t, t.files[k].kind, t.files[k].downloadId)|,
        |FilesOf(t.files, t.files[k].kind, t.files[k].downloadId)|)
  }

  /** A stale hidden key makes the claim wrong: a download with a visible file is
      reported as fully hidden. From the empty database, for every file and every
      other file of its download: both are stored, a refresh drops the other, and the
      mount, not merged yet, hides it. */
  lemma StaleKeyMisleads(r: FileRecord, other: FileRecord) returns (states: seq<Tables>, ops: seq<Op>)
    requires r.key == KeyOf(r.kind, r.downloadId, r.fileId) && ':' !in r.kind && ':' !in r.downloadId
    requires other.key == KeyOf(r.kind, r.downloadId, other.fileId) && other.fileId != r.fileId
    ensures Run(states, ops) && states[0] == Tables(map[], map[], {}, 1)
    ensures ops == [Replace([r, other]), Replace([r]), HideOne(other.key)]
    ensures var t := states[3];
      && WellKeyed(t.files) && r.key in t.files && r.key !in t.hidden
      && ClaimsFullyHidden(t, r.kind, r.downloadId)
  {
    ops := [Replace([r, other]), Replace([r]), HideOne(other.key)];
    var empty := Tables(map[], map[], {}, 1);
    var two, one := empty.(files := LastRecords([r, other])), empty.(files := LastRecords([r]));
    states := [empty, two, one, one.(hidden := {other.key})];
    StaleKeyClaims(r, other, states[3]);
  }

  lemma StaleKeyClaims(r: FileRecord, other: FileRecord, t: Tables)
    requires r.key == KeyOf(r.kind, r.downloadId, r.fileId) && ':' !in r.kind && ':' !in r.downloadId
    requires other.key == KeyOf(r.kind, r.downloadId, other.fileId) && other.fileId != r.fileId
    requires t.files == LastRecords([r]) && t.hidden == {other.key}
    ensures WellKeyed(t.files) && r.key in t.files && r.key !in t.hidden
    ensures ClaimsFullyHidden(t, r.kind, r.downloadId)
  {
    var prefix := DownloadPrefix(r.kind, r.downloadId);
    assert [r][..0] == [] && t.files == map[r.key := r];
    assert r.key == prefix + r.fileId && other.key == prefix + other.fileId;
    assert r.key[|prefix|..] == r.fileId && other.key[|prefix|..] == other.fileId;
    assert FilesOf(t.files, r.kind, r.downloadId) == {r.key};
    assert WithPrefix(t.hidden, prefix) == {other.key};
  }

  /** Every hide of a run concerns a key that has a file at that moment. */
  ghost predicate HidesFilesOnly(states: seq<Tables>, ops: seq<Op>)
    requires Run(states, ops)
  {
    forall i | 0 <= i < |ops| && ops[i].HideOne? :: ops[i].key in states[i].files
  }

  /** Then no hidden key is ever without a file, however often the file set is replaced. */
  lemma {:induction false} HiddenKeysHaveFiles(states: seq<Tables>, ops: seq<Op>, i: nat)
    requires Run(states, ops) && HidesFilesOnly(states, ops) && i < |states| && states[0].hidden <= states[0].files.Keys
    ensures states[i].hidden <= states[i].files.Keys
    decreases i
  {
    if i > 0 {
      HiddenKeysHaveFiles(states, ops, i - 1);
      assert Next(states[i - 1], ops[i - 1], states[i]);
    }
  }

  /** Replacing the files repairs the invariant whatever came before, and hidden files
      that are still there stay hidden. */
  lemma ReplaceKeepsHidden(t: Tables, records: seq<FileRecord>, t': Tables, k: string)
    requires Next(t, Replace(records), t')
    ensures t'.hidden <= t'.files.Keys
    ensures k in t'.hidden <==> k in t.hidden && exists r :: r in records && r.key == k
  {
    LastRecordsKeys(records, k);
  }

  /** Restoring a download unhides exactly its own files. */
  lemma UnhideRestores(t: Tables, kind: string, downloadId: string, t': Tables)
    requires Next(t, UnhideAll(kind, downloadId), t')
    requires WellKeyed(t.files) && ':' !in kind && ':' !in downloadId
    ensures t'.hidden * t.files.Keys == t.hidden * t.files.Keys - FilesOf(t.files, kind, downloadId)
    ensures !ClaimsFullyHidden(t', kind, downloadId)
  {
    PrefixFiles(t, kind, downloadId);
    assert WithPrefix(t'.hidden, DownloadPrefix(kind, downloadId)) == {};
    forall k | k in t.files ensures k in t'.hidden <==> k in t.hidden && k !in FilesOf(t.files, kind, downloadId) {
      assert k in WithPrefix(t.files.Keys, DownloadPrefix(kind, downloadId)) <==> DownloadPrefix(kind, downloadId) <= k;
    }
  }
}
