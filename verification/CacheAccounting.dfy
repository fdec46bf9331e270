/** The byte counter of the range cache under concurrency.

    Each step is one access to shared memory that the source performs without
    interruption: the section under a shard's lock that inserts or deletes a block,
    or one atomic load, add or store of `used`. In particular a removal loads
    `used` and stores the result later, and an insertion is counted only after its
    lock has been given back. Any number of goroutines may be at any point. */
module CacheAccounting {
  import opened Totals

  /** Where a goroutine is between two steps. */
  datatype Actor =
    | Adding(size: nat)               // putBlock: block inserted, not counted yet
    | Checking                        // evict: about to compare used with the budget
    | Evicting                        // evict: saw used > budget, removes one block
    | Deleting(size: nat, seen: int)  // evict: block deleted, `used` loaded
    | Sweeping                        // EvictStale: between two blocks
    | Swept(size: nat, seen: int)     // EvictStale: block deleted, `used` loaded

  type Key = nat

  datatype State = State(budget: int, blocks: map<Key, nat>, used: int, actors: map<nat, Actor>)

  datatype Step =
    | Insert(id: nat, key: Key, size: nat)
    | Add(id: nat)
    | Check(id: nat)
    | Delete(id: nat, key: Key)
    | Subtract(id: nat)
    | BeginSweep(id: nat)
    | EndSweep(id: nat)

  predicate Enabled(s: State, step: Step) {
    match step
    case Insert(id, _, size) => id !in s.actors && size > 0
    case Add(id) => id in s.actors && s.actors[id].Adding?
    case Check(id) => id in s.actors && s.actors[id].Checking?
    case Delete(id, key) => id in s.actors && (s.actors[id].Evicting? || (s.actors[id].Sweeping? && key in s.blocks))
    case Subtract(id) => id in s.actors && (s.actors[id].Deleting? || s.actors[id].Swept?)
    case BeginSweep(id) => id !in s.actors
    case EndSweep(id) => id in s.actors && s.actors[id].Sweeping?
  }

  function SizeAt(blocks: map<Key, nat>, key: Key): nat { if key in blocks then blocks[key] else 0 }

  function Apply(s: State, step: Step): State
    requires Enabled(s, step)
  {
    match step
    case Insert(id, key, size) =>
      s.(used := s.used - SizeAt(s.blocks, key), blocks := s.blocks[key := size],
         actors := s.actors[id := Adding(size)])
    case Add(id) =>
      s.(used := s.used + s.actors[id].size, actors := s.actors[id := Checking])
    case Check(id) =>
      if s.used > s.budget then s.(actors := s.actors[id := Evicting]) else s.(actors := s.actors - {id})
    case Delete(id, key) =>
      // The candidate may have vanished since it was chosen; then nothing happens.
      if key !in s.blocks then s.(actors := s.actors[id := Checking])
      else
        var size := s.blocks[key];
        var next := if s.actors[id].Evicting? then Deleting(size, s.used) else Swept(size, s.used);
        s.(blocks := s.blocks - {key}, actors := s.actors[id := next])
    case Subtract(id) =>
      var a := s.actors[id];
      s.(used := if a.seen >= a.size then s.used - a.size else 0,
         actors := s.actors[id := if a.Deleting? then Checking else Sweeping])
    case BeginSweep(id) => s.(actors := s.actors[id := Sweeping])
    case EndSweep(id) => s.(actors := s.actors - {id})
  }

  predicate CanRun(s: State, steps: seq<Step>)
    decreases |steps|
  {
    steps == [] || (Enabled(s, steps[0]) && CanRun(Apply(s, steps[0]), steps[1..]))
  }

  function Final(s: State, steps: seq<Step>): State
    requires CanRun(s, steps)
    decreases |steps|
  {
    if steps == [] then s else Final(Apply(s, steps[0]), steps[1..])
  }

  function New(budget: int): State { State(budget, map[], 0, map[]) }

  // ---------------------------------------------------------------------
  // Conservation
  // ---------------------------------------------------------------------

  /** What this goroutine will still add to `used`. */
  function Owed(a: Actor): int {
    if a.Adding? then a.size else if a.Deleting? || a.Swept? then 0 - a.size else 0
  }

  ghost function Owing(actors: map<nat, Actor>): map<nat, int> {
    map id | id in actors :: Owed(actors[id])
  }

  /** Counter plus what is still to be counted, less the bytes really held. */
  ghost function Slack(s: State): int {
    s.used + Total(Owing(s.actors)) - Total(s.blocks)
  }

  /** The clamped branch stores 0 where it should subtract `size` from whatever
      `used` is by then. */
  function ClampGain(s: State, step: Step): int
    requires Enabled(s, step)
  {
    if step.Subtract? && s.actors[step.id].seen < s.actors[step.id].size then s.actors[step.id].size - s.used else 0
  }

  function ClampGains(s: State, steps: seq<Step>): int
    requires CanRun(s, steps)
    decreases |steps|
  {
    if steps == [] then 0 else ClampGain(s, steps[0]) + ClampGains(Apply(s, steps[0]), steps[1..])
  }

  lemma SetActor(actors: map<nat, Actor>, id: nat, a: Actor)
    ensures Total(Owing(actors[id := a])) ==
      Total(Owing(actors)) + Owed(a) - (if id in actors then Owed(actors[id]) else 0)
  {
    TotalUpdate(Owing(actors), id, Owed(a));
    assert Owing(actors[id := a]) == Owing(actors)[id := Owed(a)];
  }

  lemma DropActor(actors: map<nat, Actor>, id: nat)
    requires id in actors
    ensures Total(Owing(actors - {id})) == Total(Owing(actors)) - Owed(actors[id])
  {
    TotalRemove(Owing(actors), id);
    assert Owing(actors - {id}) == Owing(actors) - {id};
  }

  lemma StepConserves(s: State, step: Step)
    requires Enabled(s, step)
    ensures Slack(Apply(s, step)) == Slack(s) + ClampGain(s, step)
  {
    var id, s' := step.id, Apply(s, step);
    if id in s'.actors {
      SetActor(s.actors, id, s'.actors[id]);
      assert s'.actors == s.actors[id := s'.actors[id]];
    } else {
      DropActor(s.actors, id);
    }
    match step {
      case Insert(_, key, size) => TotalUpdate(s.blocks, key, size);
      case Delete(_, key) => if key in s.blocks { TotalRemove(s.blocks, key); }
      case _ =>
    }
  }

  /** Over every interleaving the books balance up to the clamped stores: nothing
      else ever makes the counter drift from the bytes held. */
  lemma {:induction false} Conservation(s: State, steps: seq<Step>)
    requires CanRun(s, steps)
    ensures Slack(Final(s, steps)) == Slack(s) + ClampGains(s, steps)
    decreases |steps|
  {
    if steps != [] {
      StepConserves(s, steps[0]);
      Conservation(Apply(s, steps[0]), steps[1..]);
    }
  }

  // ---------------------------------------------------------------------
  // When clamped stores lose nothing
  // ---------------------------------------------------------------------

  /** A removal that has loaded less than its block's size and will store 0. */
  predicate WillClamp(a: Actor) { (a.Deleting? || a.Swept?) && a.seen < a.size }

  /** No bytes are counted while somebody is about to store 0. */
  predicate Quiet(s: State, step: Step) {
    step.Add? ==> forall id | id in s.actors :: !WillClamp(s.actors[id])
  }

  predicate QuietRun(s: State, steps: seq<Step>)
    requires CanRun(s, steps)
    decreases |steps|
  {
    steps == [] || (Quiet(s, steps[0]) && QuietRun(Apply(s, steps[0]), steps[1..]))
  }

  predicate Sized(a: Actor) { a.Adding? || a.Deleting? || a.Swept? ==> a.size > 0 }

  /** Whoever is about to store 0 still finds `used` below its block's size. */
  ghost predicate ClampsFit(s: State) {
    && (forall k | k in s.blocks :: s.blocks[k] > 0)
    && (forall id | id in s.actors :: Sized(s.actors[id]))
    && (forall id | id in s.actors && WillClamp(s.actors[id]) :: s.used < s.actors[id].size)
  }

  lemma StepFits(s: State, step: Step)
    requires ClampsFit(s) && Enabled(s, step) && Quiet(s, step)
    ensures ClampsFit(Apply(s, step)) && ClampGain(s, step) >= 0
  {
  }

  /** No step of the run loses counted bytes to a clamped store. */
  predicate LosesNothing(s: State, steps: seq<Step>)
    requires CanRun(s, steps)
    decreases |steps|
  {
    steps == [] || (ClampGain(s, steps[0]) >= 0 && LosesNothing(Apply(s, steps[0]), steps[1..]))
  }

  /** While nothing is counted between a load and the store of 0 that follows from
      it, no clamped store loses bytes, and so the run as a whole loses none. */
  lemma {:induction false} QuietGains(s: State, steps: seq<Step>)
    requires ClampsFit(s) && CanRun(s, steps) && QuietRun(s, steps)
    ensures LosesNothing(s, steps)
    ensures ClampsFit(Final(s, steps)) && ClampGains(s, steps) >= 0
    decreases |steps|
  {
    if steps != [] {
      StepFits(s, steps[0]);
      QuietGains(Apply(s, steps[0]), steps[1..]);
    }
  }

  /** A removal as one atomic step: whoever deletes a block stores the counter next. */
  predicate AtomicRun(s: State, steps: seq<Step>)
    requires CanRun(s, steps)
    decreases |steps|
  {
    steps == [] ||
    (Atomic(s, steps) && AtomicRun(Apply(s, steps[0]), steps[1..]))
  }

  predicate Atomic(s: State, steps: seq<Step>)
    requires steps != []
  {
    steps[0].Delete? && steps[0].key in s.blocks ==> |steps| > 1 && steps[1] == Subtract(steps[0].id)
  }

  /** Nobody is between load and store, but for whoever stores next. */
  predicate OnlyNext(s: State, steps: seq<Step>) {
    forall id | id in s.actors && (s.actors[id].Deleting? || s.actors[id].Swept?) ::
      steps != [] && steps[0] == Subtract(id)
  }

  lemma {:induction false} AtomicIsQuiet(s: State, steps: seq<Step>)
    requires CanRun(s, steps) && AtomicRun(s, steps) && OnlyNext(s, steps)
    ensures QuietRun(s, steps)
    decreases |steps|
  {
    if steps != [] {
      assert OnlyNext(Apply(s, steps[0]), steps[1..]);
      AtomicIsQuiet(Apply(s, steps[0]), steps[1..]);
    }
  }

  // ---------------------------------------------------------------------
  // Somebody is still evicting
  // ---------------------------------------------------------------------

  predicate InEvictLoop(a: Actor) { a.Checking? || a.Evicting? || a.Deleting? }

  ghost predicate Overseen(s: State) {
    s.used > s.budget ==> exists id :: id in s.actors && InEvictLoop(s.actors[id])
  }

  lemma StepOverseen(s: State, step: Step)
    requires s.budget >= 0 && Overseen(s) && Enabled(s, step)
    ensures Overseen(Apply(s, step)) && Apply(s, step).budget == s.budget
  {
    var s' := Apply(s, step);
    if s'.used > s'.budget {
      if step.Add? {
        assert step.id in s'.actors && InEvictLoop(s'.actors[step.id]);
      } else {
        assert s.used >= s'.used;
        var id :| id in s.actors && InEvictLoop(s.actors[id]);
        assert id in s'.actors && InEvictLoop(s'.actors[id]);
      }
    }
  }

  lemma {:induction false} AlwaysOverseen(s: State, steps: seq<Step>)
    requires s.budget >= 0 && Overseen(s) && CanRun(s, steps)
    ensures Overseen(Final(s, steps)) && Final(s, steps).budget == s.budget
    decreases |steps|
  {
    if steps != [] {
      StepOverseen(s, steps[0]);
      AlwaysOverseen(Apply(s, steps[0]), steps[1..]);
    }
  }

  // ---------------------------------------------------------------------
  // The budget
  // ---------------------------------------------------------------------

  lemma SlackOfNew(budget: int)
    ensures Slack(New(budget)) == 0
  {
    assert Owing(map[]) == map[];
  }

  lemma NewFits(budget: int)
    ensures ClampsFit(New(budget))
  {
  }

  /** At every moment of a quiet run the counter plus the pending adds covers the
      bytes held, and above the budget somebody is still evicting. */
  lemma CounterCoversBytes(budget: nat, steps: seq<Step>)
    requires CanRun(New(budget), steps) && QuietRun(New(budget), steps)
    ensures var s := Final(New(budget), steps);
      && s.used + Total(Owing(s.actors)) >= Total(s.blocks)
      && (s.used > budget ==> exists id :: id in s.actors && InEvictLoop(s.actors[id]))
  {
    SlackOfNew(budget);
    NewFits(budget);
    Conservation(New(budget), steps);
    QuietGains(New(budget), steps);
    AlwaysOverseen(New(budget), steps);
  }

  /** Once every call of a quiet run has returned, the bytes held are covered by the
      counter and the counter is within the budget. */
  lemma QuiescentCache(budget: nat, steps: seq<Step>)
    requires CanRun(New(budget), steps) && QuietRun(New(budget), steps)
    requires Final(New(budget), steps).actors == map[]
    ensures var s := Final(New(budget), steps); Total(s.blocks) <= s.used <= budget
  {
    CounterCoversBytes(budget, steps);
    assert Owing(Final(New(budget), steps).actors) == map[];
  }

  /** The same where every removal is atomic, for any number of puts, evictions and
      sweeps interleaved in any way. */
  lemma AtomicRemovalsKeepBudget(budget: nat, steps: seq<Step>)
    requires CanRun(New(budget), steps) && AtomicRun(New(budget), steps)
    ensures var s := Final(New(budget), steps);
      && s.used + Total(Owing(s.actors)) >= Total(s.blocks)
      && (s.used > budget ==> exists id :: id in s.actors && InEvictLoop(s.actors[id]))
      && (s.actors == map[] ==> Total(s.blocks) <= s.used <= budget)
  {
    AtomicIsQuiet(New(budget), steps);
    CounterCoversBytes(budget, steps);
    if Final(New(budget), steps).actors == map[] { QuiescentCache(budget, steps); }
  }

  /** What is left of it on any run whatever: the counter is within the budget, and
      it is off by exactly what the clamped stores gained or lost. */
  lemma QuiescentBalance(budget: nat, steps: seq<Step>)
    requires CanRun(New(budget), steps) && Final(New(budget), steps).actors == map[]
    ensures var s := Final(New(budget), steps);
      s.used <= budget && s.used - Total(s.blocks) == ClampGains(New(budget), steps)
  {
    SlackOfNew(budget);
    Conservation(New(budget), steps);
    AlwaysOverseen(New(budget), steps);
    assert Owing(Final(New(budget), steps).actors) == map[];
  }

  /** Three puts: a clamped store wipes out two adds that happened after the load.
      `h` is the size of the third block. */
  function LostAdd(budget: nat, h: nat): seq<Step> {
    [ Insert(1, 0, budget + 1), Add(1), Check(1),  // goroutine 1 is over the budget
      Insert(2, 0, 1),                             // replaces that block, counted later
      Insert(3, 5, h),
      Delete(1, 0),                                // loads used == 0, below the size
      Add(2), Add(3),
      Subtract(1),                                 // stores 0
      Check(1), Check(2), Check(3) ]
  }

  /** The states along `LostAdd`. */
  function LostAddState(b: nat, h: nat, i: nat): State {
    var (blocks, used, actors) :=
      match i
      case 0 => (map[], 0, map[])
      case 1 => (map[0 := b + 1], 0, map[1 := Adding(b + 1)])
      case 2 => (map[0 := b + 1], b + 1, map[1 := Checking])
      case 3 => (map[0 := b + 1], b + 1, map[1 := Evicting])
      case 4 => (map[0 := 1], 0, map[1 := Evicting, 2 := Adding(1)])
      case 5 => (map[0 := 1, 5 := h], 0, map[1 := Evicting, 2 := Adding(1), 3 := Adding(h)])
      case 6 => (map[5 := h], 0, map[1 := Deleting(1, 0), 2 := Adding(1), 3 := Adding(h)])
      case 7 => (map[5 := h], 1, map[1 := Deleting(1, 0), 2 := Checking, 3 := Adding(h)])
      case 8 => (map[5 := h], h + 1, map[1 := Deleting(1, 0), 2 := Checking, 3 := Checking])
      case 9 => (map[5 := h], 0, map[1 := Checking, 2 := Checking, 3 := Checking])
      case 10 => (map[5 := h], 0, map[2 := Checking, 3 := Checking])
      case 11 => (map[5 := h], 0, map[3 := Checking])
      case _ => (map[5 := h], 0, map[]);
    State(b, blocks, used, actors)
  }

  lemma LostAddStep(b: nat, h: nat, i: nat)
    requires h > 0 && i < 12
    ensures Enabled(LostAddState(b, h, i), LostAdd(b, h)[i])
    ensures Apply(LostAddState(b, h, i), LostAdd(b, h)[i]) == LostAddState(b, h, i + 1)
  {
    if i < 6 { LostAddFirstHalf(b, h, i); } else { LostAddSecondHalf(b, h, i); }
  }

  lemma LostAddFirstHalf(b: nat, h: nat, i: nat)
    requires h > 0 && i < 6
    ensures Enabled(LostAddState(b, h, i), LostAdd(b, h)[i])
    ensures Apply(LostAddState(b, h, i), LostAdd(b, h)[i]) == LostAddState(b, h, i + 1)
  {
    assert Apply(LostAddState(b, h, i), LostAdd(b, h)[i]).actors == LostAddState(b, h, i + 1).actors;
  }

  lemma LostAddSecondHalf(b: nat, h: nat, i: nat)
    requires h > 0 && 6 <= i < 12
    ensures Enabled(LostAddState(b, h, i), LostAdd(b, h)[i])
    ensures Apply(LostAddState(b, h, i), LostAdd(b, h)[i]) == LostAddState(b, h, i + 1)
  {
    assert Apply(LostAddState(b, h, i), LostAdd(b, h)[i]).actors == LostAddState(b, h, i + 1).actors;
  }

  lemma {:induction false} LostAddFrom(b: nat, h: nat, i: nat)
    requires h > 0 && i <= 12
    ensures CanRun(LostAddState(b, h, i), LostAdd(b, h)[i..])
    ensures Final(LostAddState(b, h, i), LostAdd(b, h)[i..]) == LostAddState(b, h, 12)
    decreases 12 - i
  {
    if i < 12 {
      LostAddStep(b, h, i);
      LostAddFrom(b, h, i + 1);
      assert LostAdd(b, h)[i..][1..] == LostAdd(b, h)[i + 1..];
    }
  }

  /** Without quietness the claim is false, whatever the budget and by however much:
      every call has returned, the counter is 0, and `excess` bytes above the budget
      are held. */
  lemma BudgetCanBeExceeded(budget: nat, excess: nat)
    requires excess > 0
    ensures var steps := LostAdd(budget, budget + excess);
      && CanRun(New(budget), steps)
      && var s := Final(New(budget), steps);
         s.actors == map[] && s.used == 0 && Total(s.blocks) == budget + excess
  {
    LostAddFrom(budget, budget + excess, 0);
    assert LostAdd(budget, budget + excess)[0..] == LostAdd(budget, budget + excess);
    assert New(budget) == LostAddState(budget, budget + excess, 0);
    HeldAtTheEnd(budget, budget + excess);
  }

  lemma HeldAtTheEnd(b: nat, h: nat)
    ensures Total(LostAddState(b, h, 12).blocks) == h
  {
    var held := LostAddState(b, h, 12).blocks;
    TotalRemove(held, 5);
    assert held - {5} == map[];
  }
}
