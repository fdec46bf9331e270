/** The sharded range cache: 32 shards of blocks, a byte counter checked against
    a budget, eviction by priority class and then by age.

    The class `RangeCache` is the code; the ghost field `contents` is the one plain
    map it stands for. Every method states what it does to that map. */
module RangeCaching {
  import opened Totals

  datatype Key = Key(file: string, start: int)

  datatype Block = Block(
    start: int,
    end: int,
    data: seq<byte>,
    session: int,
    priority: nat,
    lastAccess: int
  )

  const NUM_SHARDS := 32

  /** The hash of the source, of which only the range matters. */
  type ShardIndex = f: Key -> nat | forall k :: f(k) < NUM_SHARDS witness k => 0

  type Shards = seq<map<Key, Block>>

  type Plain = map<Key, Block>

  // ---------------------------------------------------------------------
  // Shards as one map
  // ---------------------------------------------------------------------

  ghost predicate WellFormed(k: Key, b: Block) {
    b.start == k.start && b.data != [] && b.end == b.start + |b.data|
  }

  ghost predicate Formed(c: Plain) {
    forall k | k in c :: WellFormed(k, c[k])
  }

  /** The blocks that belong to shard `i`. */
  ghost function Part(c: Plain, index: ShardIndex, i: nat): Plain {
    map k | k in c && index(k) == i :: c[k]
  }

  /** The map cut into shards: every key in its own shard and nowhere else. */
  ghost function Split(c: Plain, index: ShardIndex): (shards: Shards)
    ensures |shards| == NUM_SHARDS
    ensures forall i, k | 0 <= i < NUM_SHARDS :: k in shards[i] <==> k in c && index(k) == i
    ensures forall i, k | 0 <= i < NUM_SHARDS && k in shards[i] :: shards[i][k] == c[k]
  {
    seq(NUM_SHARDS, i requires i >= 0 => Part(c, index, i))
  }

  lemma StoreInShard(c: Plain, index: ShardIndex, k: Key, b: Block)
    ensures Split(c[k := b], index) == Split(c, index)[index(k) := Split(c, index)[index(k)][k := b]]
  {
    forall i | 0 <= i < NUM_SHARDS
      ensures Part(c[k := b], index, i) == if i == index(k) then Part(c, index, i)[k := b] else Part(c, index, i)
    {
    }
  }

  lemma DeleteFromShard(c: Plain, index: ShardIndex, k: Key)
    ensures Split(c - {k}, index) == Split(c, index)[index(k) := Split(c, index)[index(k)] - {k}]
  {
    forall i | 0 <= i < NUM_SHARDS
      ensures Part(c - {k}, index, i) == if i == index(k) then Part(c, index, i) - {k} else Part(c, index, i)
    {
    }
  }

  // ---------------------------------------------------------------------
  // Bytes
  // ---------------------------------------------------------------------

  ghost function Sizes(c: Plain): map<Key, int> {
    map k | k in c :: |c[k].data|
  }

  /** The bytes really held. */
  ghost function Bytes(c: Plain): int { Total(Sizes(c)) }

  lemma BytesRemove(c: Plain, k: Key)
    requires k in c
    ensures Bytes(c - {k}) == Bytes(c) - |c[k].data|
  {
    TotalRemove(Sizes(c), k);
    assert Sizes(c - {k}) == Sizes(c) - {k};
  }

  lemma BytesStore(c: Plain, k: Key, b: Block)
    ensures Bytes(c[k := b]) == Bytes(c) + |b.data| - (if k in c then |c[k].data| else 0)
  {
    TotalUpdate(Sizes(c), k, |b.data|);
    assert Sizes(c[k := b]) == Sizes(c)[k := |b.data|];
  }

  lemma BytesBound(c: Plain)
    ensures Bytes(c) >= 0
    ensures forall k | k in c :: |c[k].data| <= Bytes(c)
    ensures Bytes(c) > 0 ==> c != map[]
  {
    TotalNonNegative(Sizes(c));
    assert forall k | k in c :: Sizes(c)[k] == |c[k].data|;
  }

  // ---------------------------------------------------------------------
  // Eviction order
  // ---------------------------------------------------------------------

  function Class(b: Block): nat { if b.priority == 0 then 0 else 1 }

  predicate AtMost(a: Block, b: Block) {
    Class(a) < Class(b) || (Class(a) == Class(b) && a.lastAccess <= b.lastAccess)
  }

  ghost predicate IsVictim(c: Plain, k: Key) {
    k in c && forall j | j in c :: AtMost(c[k], c[j])
  }

  /** A whole run of the eviction loop: one victim after another while the bytes
      exceed the budget, and not one further. */
  ghost predicate EvictRun(c: Plain, budget: int, victims: seq<Key>, c': Plain)
    decreases |victims|
  {
    if victims == [] then
      c' == c && Bytes(c) <= budget
    else
      && Bytes(c) > budget
      && IsVictim(c, victims[0])
      && EvictRun(c - {victims[0]}, budget, victims[1..], c')
  }

  ghost function KeySet(ks: seq<Key>): set<Key> { set k | k in ks }

  /** Everything evicted is at most everything kept, in the order (class, age), so
      no high-priority block goes while a low-priority one stays. */
  lemma {:induction false} EvictionOrder(c: Plain, budget: int, victims: seq<Key>, c': Plain)
    requires EvictRun(c, budget, victims, c')
    ensures c' == c - KeySet(victims) && KeySet(victims) <= c.Keys
    ensures Bytes(c') <= budget
    ensures forall v, s | v in victims && s in c' :: AtMost(c[v], c[s])
    ensures forall v, s | v in victims && s in c' && c[v].priority != 0 :: c[s].priority != 0
    ensures forall v, s | v in victims && s in c' && (c[v].priority == 0 <==> c[s].priority == 0) ::
      c[v].lastAccess <= c[s].lastAccess
    decreases |victims|
  {
    if victims != [] {
      EvictionOrder(c - {victims[0]}, budget, victims[1..], c');
      SplitHead(victims);
    }
  }

  lemma SplitHead(ks: seq<Key>)
    requires ks != []
    ensures KeySet(ks) == {ks[0]} + KeySet(ks[1..])
  {
    assert ks == [ks[0]] + ks[1..];
  }

  /** The run removes just enough: before each removal the budget was still
      exceeded by what had not been removed yet. */
  lemma {:induction false} EvictsNoMoreThanNeeded(c: Plain, budget: int, victims: seq<Key>, c': Plain, i: nat)
    requires EvictRun(c, budget, victims, c') && i < |victims|
    ensures Bytes(c - KeySet(victims[..i])) > budget
    decreases |victims|
  {
    if i == 0 {
      assert c - KeySet(victims[..0]) == c;
    } else {
      EvictsNoMoreThanNeeded(c - {victims[0]}, budget, victims[1..], c', i - 1);
      SplitHead(victims[..i]);
      assert victims[..i][1..] == victims[1..][..i - 1];
      assert c - {victims[0]} - KeySet(victims[1..][..i - 1]) == c - KeySet(victims[..i]);
    }
  }

  lemma VictimExists(c: Plain) returns (k: Key)
    requires c != map[]
    ensures IsVictim(c, k)
    decreases |c|
  {
    k :| k in c;
    var rest := c - {k};
    if rest != map[] {
      var j := VictimExists(rest);
      assert forall i | i in c :: i == k || i in rest;
      if !AtMost(c[k], c[j]) { k := j; }
    } else {
      forall i | i in c ensures i == k { assert i == k || i in rest; }
    }
  }

  /** The eviction loop can come to an end exactly when the budget is not negative:
      with a negative budget it never does, not even on an empty cache. */
  lemma EvictionTerminatesIff(c: Plain, budget: int)
    ensures CanEnd(c, budget) <==> budget >= 0
  {
    if budget >= 0 {
      var victims, c' := EvictionCompletes(c, budget);
    }
    if CanEnd(c, budget) {
      var victims, c' :| EvictRun(c, budget, victims, c');
      EvictionOrder(c, budget, victims, c');
      BytesBound(c');
    }
  }

  ghost predicate CanEnd(c: Plain, budget: int) {
    exists victims: seq<Key>, c': Plain :: EvictRun(c, budget, victims, c')
  }

  lemma {:induction false} EvictionCompletes(c: Plain, budget: int) returns (victims: seq<Key>, c': Plain)
    requires budget >= 0
    ensures EvictRun(c, budget, victims, c')
    decreases |c|
  {
    if Bytes(c) <= budget {
      victims, c' := [], c;
    } else {
      BytesBound(c);
      var v := VictimExists(c);
      var rest;
      rest, c' := EvictionCompletes(c - {v}, budget);
      victims := [v] + rest;
      assert victims[1..] == rest;
    }
  }

  // ---------------------------------------------------------------------
  // True bytes
  // ---------------------------------------------------------------------

  /** Every block is a true slice of its file. */
  ghost predicate Honest(c: Plain, files: string -> seq<byte>) {
    forall k | k in c ::
      && WellFormed(k, c[k])
      && 0 <= k.start && c[k].end <= |files(k.file)|
      && c[k].data == files(k.file)[k.start..c[k].end]
  }

  ghost predicate Covers(c: Plain, k: Key, file: string, off: int) {
    k in c && k.file == file && c[k].start <= off < c[k].end
  }

  function Min(a: int, b: int): int { if a <= b then a else b }

  /** Whichever covering block answers, possibly one of several that overlap, the
      bytes it supplies are the file's bytes at that offset. */
  lemma HitIsTrue(c: Plain, files: string -> seq<byte>, k: Key, off: int, n: nat)
    requires Honest(c, files) && Covers(c, k, k.file, off) && n <= c[k].end - off
    ensures 0 <= off && off + n <= |files(k.file)|
    ensures c[k].data[off - k.start..][..n] == files(k.file)[off..off + n]
  {
    var d := off - k.start;
    var whole := files(k.file)[k.start..c[k].end];
    assert whole[d..][..n] == files(k.file)[off..off + n];
  }

  /** Storing true bytes and evicting anything leaves only true bytes. */
  lemma HonestAfterPut(c: Plain, files: string -> seq<byte>, k: Key, b: Block, budget: int, victims: seq<Key>,
                       c': Plain)
    requires Honest(c, files) && WellFormed(k, b)
    requires 0 <= k.start && b.end <= |files(k.file)| && b.data == files(k.file)[k.start..b.end]
    requires EvictRun(c[k := b], budget, victims, c')
    ensures Honest(c', files)
  {
    EvictionOrder(c[k := b], budget, victims, c');
  }

  /** What each operation of the cache does to the plain map. */
  datatype Op =
    | Put(key: Key, block: Block, budget: int, victims: seq<Key>)
    | Hit(key: Key, now: int)
    | DropStale(file: string, currentSession: int)

  ghost predicate Performs(c: Plain, op: Op, c': Plain) {
    match op
    case Put(k, b, budget, victims) => WellFormed(k, b) && EvictRun(c[k := b], budget, victims, c')
    case Hit(k, now) => k in c && c' == c[k := c[k].(lastAccess := now)]
    case DropStale(file, session) => c' == Fresh(c, file, session)
  }

  ghost predicate StoresTruth(op: Op, files: string -> seq<byte>) {
    op.Put? ==>
      && 0 <= op.key.start <= op.block.end && op.block.end <= |files(op.key.file)|
      && op.block.data == files(op.key.file)[op.key.start..op.block.end]
  }

  /** Along every run of operations that store only true bytes, every covering
      block ever found supplies true bytes. */
  lemma {:induction false} HitsAreAlwaysTrue(files: string -> seq<byte>, ops: seq<Op>, trace: seq<Plain>, k: Key,
                                             off: int, n: nat)
    requires |trace| == |ops| + 1 && trace[0] == map[]
    requires forall i | 0 <= i < |ops| :: Performs(trace[i], ops[i], trace[i + 1]) && StoresTruth(ops[i], files)
    requires Covers(trace[|ops|], k, k.file, off) && n <= trace[|ops|][k].end - off
    ensures 0 <= off && off + n <= |files(k.file)|
    ensures 0 <= off - k.start <= off - k.start + n <= |trace[|ops|][k].data|
    ensures trace[|ops|][k].data[off - k.start..][..n] == files(k.file)[off..off + n]
  {
    RunIsHonest(files, ops, trace);
    HitIsTrue(trace[|ops|], files, k, off, n);
  }

  lemma {:induction false} RunIsHonest(files: string -> seq<byte>, ops: seq<Op>, trace: seq<Plain>)
    requires |trace| == |ops| + 1 && trace[0] == map[]
    requires forall i | 0 <= i < |ops| :: Performs(trace[i], ops[i], trace[i + 1]) && StoresTruth(ops[i], files)
    ensures Honest(trace[|ops|], files)
    decreases |ops|
  {
    if ops != [] {
      var m := |ops| - 1;
      RunIsHonest(files, ops[..m], trace[..m + 1]);
      match ops[m] {
        case Put(j, b, budget, victims) => HonestAfterPut(trace[m], files, j, b, budget, victims, trace[m + 1]);
        case Hit(_, _) =>
        case DropStale(_, _) =>
      }
    }
  }

  // ---------------------------------------------------------------------
  // The code
  // ---------------------------------------------------------------------

  class RangeCache {
    const budget: int
    const index: ShardIndex
    var shards: Shards
    var used: int
    var bytesTotal: int
    var bytesActive: int
    var bytesStale: int
    var entries: int
    ghost var contents: Plain

    /** Sequential accounting: the counter is the sum of the block lengths and the
        gauges agree with it. */
    ghost predicate Valid()
      reads this
    {
      && shards == Split(contents, index) && Formed(contents)
      && used == Bytes(contents)
      && bytesActive == used
      && entries == |contents|
      && bytesTotal == bytesActive + bytesStale
    }

    constructor (budget: int, index: ShardIndex)
      ensures Valid() && contents == map[] && this.budget == budget && this.index == index
    {
      this.budget := budget;
      this.index := index;
      shards, contents := seq(NUM_SHARDS, _ => map[]), map[];
      used, bytesTotal, bytesActive, bytesStale, entries := 0, 0, 0, 0, 0;
    }

    method CopyTo(file: string, off: int, dst: array<byte>, now: int) returns (n: nat, ok: bool, ghost hit: Key)
      requires Valid()
      modifies this`shards, this`contents, dst
      ensures Valid()
      ensures ok <==> dst.Length > 0 && exists k :: Covers(old(contents), k, file, off)
      ensures !ok ==> n == 0 && contents == old(contents) && dst[..] == old(dst[..])
      ensures ok ==> Covers(old(contents), hit, file, off)
      ensures ok ==> var b := old(contents)[hit];
        && 0 < n == Min(dst.Length, b.end - off)
        && dst[..n] == b.data[off - b.start..][..n]
        && dst[n..] == old(dst[n..])
        && contents == old(contents)[hit := b.(lastAccess := now)]
    {
      n, ok, hit := 0, false, Key(file, off);
      if dst.Length == 0 { return; }
      var found := Find(file, off);
      if found.Some? {
        var blk := shards[index(found.value)][found.value];
        n := Min(dst.Length, blk.end - off);
        var avail := blk.data[off - blk.start..];
        forall j | 0 <= j < n { dst[j] := avail[j]; }
        assert dst[n..] == old(dst[..])[n..] == old(dst[n..]);
        Touch(found.value, now);
        return n, true, found.value;
      }
    }

    /** The search over all shards, in whatever order a map yields its keys. */
    method Find(file: string, off: int) returns (found: Option<Key>)
      requires Valid()
      ensures found.Some? ==> Covers(contents, found.value, file, off)
      ensures found.None? ==> forall k :: !Covers(contents, k, file, off)
    {
      for i := 0 to NUM_SHARDS
        invariant forall k | k in contents && index(k) < i :: !Covers(contents, k, file, off)
      {
        found := FindInShard(shards[i], file, off);
        if found.Some? { return; }
        forall k | k in contents && index(k) == i ensures !Covers(contents, k, file, off) {
          assert !Covers(shards[i], k, file, off);
        }
      }
      return None;
    }

    method Touch(key: Key, now: int)
      requires Valid() && key in contents
      modifies this`shards, this`contents
      ensures Valid() && contents == old(contents)[key := old(contents)[key].(lastAccess := now)]
    {
      var si := index(key);
      var blk := shards[si][key].(lastAccess := now);
      TouchKeepsBytes(contents, key, now);
      StoreInShard(contents, index, key, blk);
      shards, contents := shards[si := shards[si][key := blk]], contents[key := blk];
    }

    method CachedPrefixLen(file: string, off: int) returns (n: nat, ok: bool)
      requires Valid()
      ensures ok <==> Key(file, off) in contents
      ensures ok ==> n == |contents[Key(file, off)].data| > 0
      ensures !ok ==> n == 0
    {
      var sh := shards[index(Key(file, off))];
      if Key(file, off) in sh { return |sh[Key(file, off)].data|, true; }
      return 0, false;
    }

    method PutBlock(file: string, start: int, data: seq<byte>, session: int, priority: nat, now: int)
      returns (ghost victims: seq<Key>)
      requires Valid() && budget >= 0
      modifies this
      ensures Valid() && bytesStale == old(bytesStale)
      ensures data == [] ==> contents == old(contents) && used == old(used)
      ensures data != [] ==>
        EvictRun(old(contents)[Key(file, start) := Block(start, start + |data|, data, session, priority, now)],
          budget, victims, contents)
    {
      victims := [];
      if |data| == 0 { return; }
      Store(Key(file, start), Block(start, start + |data|, data, session, priority, now));
      victims := Evict();
    }

    /** The first half of putBlock: insert or replace, and count. */
    method Store(key: Key, blk: Block)
      requires Valid() && WellFormed(key, blk)
      modifies this
      ensures Valid() && bytesStale == old(bytesStale) && contents == old(contents)[key := blk]
    {
      var si := index(key);
      StoreEffects(contents, index, key, blk);
      if key in shards[si] {
        var oldSize := |shards[si][key].data|;
        used := used - oldSize;
        bytesTotal := bytesTotal - oldSize;
        bytesActive := bytesActive - oldSize;
        entries := entries - 1;
      }
      shards, contents := shards[si := shards[si][key := blk]], contents[key := blk];
      used := used + |blk.data|;
      bytesTotal := bytesTotal + |blk.data|;
      bytesActive := bytesActive + |blk.data|;
      entries := entries + 1;
    }

    method Evict() returns (ghost victims: seq<Key>)
      requires Valid() && budget >= 0
      modifies this
      ensures Valid() && bytesStale == old(bytesStale)
      ensures EvictRun(old(contents), budget, victims, contents)
    {
      victims := [];
      while used > budget
        invariant Valid() && bytesStale == old(bytesStale)
        invariant Evicting(old(contents), budget, victims, contents)
        decreases |contents|
      {
        BytesBound(contents);
        ghost var c := contents;
        ghost var v := EvictOne();
        EvictingOneMore(old(contents), budget, victims, c, v);
        victims := victims + [v];
      }
      EvictingEnds(old(contents), budget, victims, contents);
    }

    /** Removes the oldest low-priority block, or the oldest one if there is none. */
    method EvictOne() returns (ghost v: Key)
      requires Valid()
      modifies this
      ensures Valid() && bytesStale == old(bytesStale)
      ensures old(contents) == map[] ==> contents == map[] && used == old(used)
      ensures old(contents) != map[] ==>
        && IsVictim(old(contents), v)
        && contents == old(contents) - {v}
        && used == old(used) - |old(contents)[v].data|
    {
      var lowCand, highCand := FindCandidates();
      var cand := if lowCand.Some? then lowCand else highCand;
      if cand.None? {
        assert contents.Keys == {};
        return Key("", 0);
      }
      v := cand.value.key;
      BytesBound(contents);
      var size := Remove(cand.value.key);
      bytesTotal := bytesTotal - size;
    }

    /** The scan over all shards for the oldest block of either class. */
    method FindCandidates() returns (low: Option<Candidate>, high: Option<Candidate>)
      requires Valid()
      ensures Best(contents, contents.Keys, 0, low) && Best(contents, contents.Keys, 1, high)
    {
      low, high := None, None;
      ghost var done: set<Key> := {};
      for i := 0 to NUM_SHARDS
        invariant done == set k | k in contents && index(k) < i
        invariant Best(contents, done, 0, low) && Best(contents, done, 1, high)
      {
        low, high := ScanShard(shards[i], low, high, contents, done);
        done := done + shards[i].Keys;
      }
      assert done == contents.Keys;
    }

    /** The common part of the two removals: delete under the shard's lock, then
        subtract from the counter, never below zero. */
    method Remove(key: Key) returns (size: nat)
      requires shards == Split(contents, index) && key in contents
      modifies this`shards, this`contents, this`used, this`bytesActive, this`entries
      ensures shards == Split(contents, index) && contents == old(contents) - {key}
      ensures size == |old(contents)[key].data|
      ensures used == if old(used) >= size then old(used) - size else 0
      ensures bytesActive == old(bytesActive) - size && entries == old(entries) - 1
      ensures Bytes(contents) == Bytes(old(contents)) - size && |contents| == |old(contents)| - 1
    {
      var si := index(key);
      size := |shards[si][key].data|;
      BytesRemove(contents, key);
      DeleteFromShard(contents, index, key);
      shards, contents := shards[si := shards[si] - {key}], contents - {key};
      if used >= size {
        used := used - size;
      } else {
        used := 0;
      }
      bytesActive := bytesActive - size;
      entries := entries - 1;
      assert contents.Keys == old(contents).Keys - {key};
    }

    /** Drops the blocks of one file that belong to an earlier session. */
    method EvictStale(file: string, currentSession: int)
      requires Valid()
      modifies this
      ensures Valid() && bytesTotal == old(bytesTotal)
      ensures contents == Fresh(old(contents), file, currentSession)
      ensures forall k | k in contents :: k in old(contents) && contents[k] == old(contents)[k]
      ensures forall k | k in old(contents) ::
        k !in contents <==> k.file == file && 0 < old(contents)[k].session < currentSession
      ensures bytesStale - old(bytesStale) == old(used) - used
    {
      ghost var c := contents;
      for i := 0 to NUM_SHARDS
        invariant Valid() && bytesTotal == old(bytesTotal) && bytesStale - old(bytesStale) == old(used) - used
        invariant Fresh(contents, file, currentSession) == Fresh(c, file, currentSession)
        invariant forall k | k in contents && index(k) < i :: !Stale(contents[k], k, file, currentSession)
      {
        EvictStaleInShard(i, file, currentSession);
      }
      assert Fresh(contents, file, currentSession) == contents;
    }

    method EvictStaleInShard(i: nat, file: string, currentSession: int)
      requires Valid() && i < NUM_SHARDS
      modifies this
      ensures Valid() && bytesTotal == old(bytesTotal) && bytesStale - old(bytesStale) == old(used) - used
      ensures Fresh(contents, file, currentSession) == Fresh(old(contents), file, currentSession)
      ensures forall k | k in contents :: k in old(contents) && contents[k] == old(contents)[k]
      ensures forall k | k in contents && index(k) == i :: !Stale(contents[k], k, file, currentSession)
    {
      var todo := shards[i].Keys;
      while todo != {}
        invariant Valid() && bytesTotal == old(bytesTotal) && bytesStale - old(bytesStale) == old(used) - used
        invariant todo <= shards[i].Keys
        invariant Fresh(contents, file, currentSession) == Fresh(old(contents), file, currentSession)
        invariant forall k | k in contents :: k in old(contents) && contents[k] == old(contents)[k]
        invariant forall k | k in contents && index(k) == i && k !in todo ::
          !Stale(contents[k], k, file, currentSession)
      {
        var key :| key in todo;
        var blk := shards[i][key];
        todo := todo - {key};
        if Stale(blk, key, file, currentSession) {
          RemoveStale(key, file, currentSession);
        }
      }
    }

    method RemoveStale(key: Key, file: string, currentSession: int)
      requires Valid() && key in contents && Stale(contents[key], key, file, currentSession)
      modifies this
      ensures Valid() && bytesTotal == old(bytesTotal) && bytesStale - old(bytesStale) == old(used) - used
      ensures contents == old(contents) - {key}
      ensures Fresh(contents, file, currentSession) == Fresh(old(contents), file, currentSession)
    {
      BytesBound(contents);
      var size := Remove(key);
      bytesStale := bytesStale + size;
    }
  }

  predicate Stale(b: Block, k: Key, file: string, currentSession: int) {
    k.file == file && b.session > 0 && b.session < currentSession
  }

  ghost function Fresh(c: Plain, file: string, currentSession: int): Plain {
    map k | k in c && !Stale(c[k], k, file, currentSession) :: c[k]
  }

  datatype Candidate = Candidate(key: Key, lastAccess: int)

  /** The scan of one shard for a covering block. */
  method FindInShard(shard: map<Key, Block>, file: string, off: int) returns (found: Option<Key>)
    ensures found.Some? ==> Covers(shard, found.value, file, off)
    ensures found.None? ==> forall k :: !Covers(shard, k, file, off)
  {
    var todo := shard.Keys;
    while todo != {}
      invariant todo <= shard.Keys
      invariant forall k | k in shard && k !in todo :: !Covers(shard, k, file, off)
    {
      var key :| key in todo;
      var blk := shard[key];
      if key.file == file && off >= blk.start && off < blk.end {
        return Some(key);
      }
      todo := todo - {key};
    }
    return None;
  }

  /** The scan of one shard for the two eviction candidates. */
  method ScanShard(shard: map<Key, Block>, low: Option<Candidate>, high: Option<Candidate>, ghost c: Plain,
                   ghost done: set<Key>)
    returns (low': Option<Candidate>, high': Option<Candidate>)
    requires forall k | k in shard :: k in c && c[k] == shard[k]
    requires Best(c, done, 0, low) && Best(c, done, 1, high)
    ensures Best(c, done + shard.Keys, 0, low') && Best(c, done + shard.Keys, 1, high')
  {
    low', high' := low, high;
    var todo := shard.Keys;
    ghost var scanned := done;
    while todo != {}
      invariant todo <= shard.Keys && scanned + todo == done + shard.Keys
      invariant Best(c, scanned, 0, low') && Best(c, scanned, 1, high')
    {
      var key :| key in todo;
      var blk := shard[key];
      var cand := Candidate(key, blk.lastAccess);
      if blk.priority == 0 {
        if low'.None? || blk.lastAccess < low'.value.lastAccess { low' := Some(cand); }
      } else {
        if high'.None? || blk.lastAccess < high'.value.lastAccess { high' := Some(cand); }
      }
      todo, scanned := todo - {key}, scanned + {key};
    }
    assert scanned == done + shard.Keys;
  }

  lemma StoreEffects(c: Plain, index: ShardIndex, k: Key, b: Block)
    requires Formed(c) && WellFormed(k, b)
    ensures Split(c[k := b], index) == Split(c, index)[index(k) := Split(c, index)[index(k)][k := b]]
    ensures Formed(c[k := b])
    ensures Bytes(c[k := b]) == Bytes(c) + |b.data| - (if k in c then |c[k].data| else 0)
    ensures |c[k := b]| == |c| + (if k in c then 0 else 1)
  {
    StoreInShard(c, index, k, b);
    BytesStore(c, k, b);
    assert c[k := b].Keys == c.Keys + {k};
  }

  lemma TouchKeepsBytes(c: Plain, k: Key, now: int)
    requires k in c
    ensures Bytes(c[k := c[k].(lastAccess := now)]) == Bytes(c)
    ensures |c[k := c[k].(lastAccess := now)]| == |c|
  {
    assert Sizes(c[k := c[k].(lastAccess := now)]) == Sizes(c);
    assert c[k := c[k].(lastAccess := now)].Keys == c.Keys;
  }

  /** The oldest block of one class among `done`. */
  ghost predicate Best(c: Plain, done: set<Key>, cls: nat, cand: Option<Candidate>) {
    match cand
    case None => forall k | k in c && k in done :: Class(c[k]) != cls
    case Some(b) =>
      && b.key in c && b.key in done && Class(c[b.key]) == cls && b.lastAccess == c[b.key].lastAccess
      && forall k | k in c && k in done && Class(c[k]) == cls :: b.lastAccess <= c[k].lastAccess
  }

  /** A run of the loop that may still go on. */
  ghost predicate Evicting(c: Plain, budget: int, victims: seq<Key>, c': Plain)
    decreases |victims|
  {
    if victims == [] then c' == c
    else Bytes(c) > budget && IsVictim(c, victims[0]) && Evicting(c - {victims[0]}, budget, victims[1..], c')
  }

  lemma {:induction false} EvictingOneMore(c: Plain, budget: int, victims: seq<Key>, c': Plain, v: Key)
    requires Evicting(c, budget, victims, c') && Bytes(c') > budget && IsVictim(c', v)
    ensures Evicting(c, budget, victims + [v], c' - {v})
    decreases |victims|
  {
    if victims == [] {
      assert (victims + [v])[1..] == [];
    } else {
      EvictingOneMore(c - {victims[0]}, budget, victims[1..], c', v);
      assert (victims + [v])[1..] == victims[1..] + [v];
    }
  }

  lemma {:induction false} EvictingEnds(c: Plain, budget: int, victims: seq<Key>, c': Plain)
    requires Evicting(c, budget, victims, c') && Bytes(c') <= budget
    ensures EvictRun(c, budget, victims, c')
    decreases |victims|
  {
    if victims != [] { EvictingEnds(c - {victims[0]}, budget, victims[1..], c'); }
  }
}
