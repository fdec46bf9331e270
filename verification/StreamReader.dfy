/** The stream reader's own code: ReadAt and what it calls, and the body of a
    fetching goroutine. Between any two sections every other goroutine may take any
    number of steps (`Interfere`), so each method is proved for every interleaving.

    `trace` is the history of the shared state as a run of the window protocol:
    whatever the protocol guarantees for all runs holds at every point of this
    code. */
module StreamReading {
  import opened Totals
  import opened WindowProtocol

  const SMALL_READ_THRESHOLD := 256 * 1024

  datatype ReadError = EndOfFile | Failed

  /** What other goroutines, the server and the cache may do. `trusted`: only what
      meets the assumptions of the protocol; otherwise anything at all. */
  predicate Allowed(trusted: bool, file: seq<byte>, windowSize: nat, w: World, steps: seq<Step>) {
    CanRun(|file|, windowSize, w, steps) && (trusted ==> AllGood(file, windowSize, w, steps))
  }

  predicate AllowedStep(trusted: bool, file: seq<byte>, windowSize: nat, w: World, step: Step) {
    Enabled(|file|, windowSize, w, step) && (trusted ==> Good(file, windowSize, w, step))
  }

  lemma OneStep(trusted: bool, file: seq<byte>, windowSize: nat, w: World, step: Step)
    requires AllowedStep(trusted, file, windowSize, w, step)
    ensures Allowed(trusted, file, windowSize, w, [step])
    ensures Final(|file|, windowSize, w, [step]) == Apply(|file|, windowSize, w, step)
  {
    var w' := Apply(|file|, windowSize, w, step);
    assert [step][1..] == [];
    assert CanRun(|file|, windowSize, w', []) && AllGood(file, windowSize, w', []);
  }

  lemma {:induction false} RunAppend(trusted: bool, file: seq<byte>, windowSize: nat, w: World, a: seq<Step>,
                                     b: seq<Step>)
    requires Allowed(trusted, file, windowSize, w, a)
    requires Allowed(trusted, file, windowSize, Final(|file|, windowSize, w, a), b)
    ensures Allowed(trusted, file, windowSize, w, a + b)
    ensures Final(|file|, windowSize, w, a + b) == Final(|file|, windowSize, Final(|file|, windowSize, w, a), b)
    decreases |a|
  {
    if a == [] {
      assert a + b == b;
    } else {
      RunAppend(trusted, file, windowSize, Apply(|file|, windowSize, w, a[0]), a[1..], b);
      assert (a + b)[0] == a[0] && (a + b)[1..] == a[1..] + b;
    }
  }

  /** No window disappears and none moves; cancelled and done are for good. */
  ghost predicate Grown(w: World, w': World) {
    forall id | id in w.fetches ::
      && id in w'.fetches && w'.fetches[id].start == w.fetches[id].start
      && (w.fetches[id].ctxDone ==> w'.fetches[id].ctxDone)
      && (w.fetches[id].win.done ==> w'.fetches[id].win.done)
  }

  lemma StepGrows(size: nat, windowSize: nat, w: World, step: Step)
    requires Enabled(size, windowSize, w, step)
    ensures Grown(w, Apply(size, windowSize, w, step))
  {
    if step.Run? { SectionKeepsStart(size, windowSize, w.cache, w.fetches[step.id], step.fs); }
  }

  lemma {:induction false} RunGrows(size: nat, windowSize: nat, w: World, steps: seq<Step>)
    requires CanRun(size, windowSize, w, steps)
    ensures Grown(w, Final(size, windowSize, w, steps))
    decreases |steps|
  {
    if steps != [] {
      StepGrows(size, windowSize, w, steps[0]);
      RunGrows(size, windowSize, Apply(size, windowSize, w, steps[0]), steps[1..]);
    }
  }

  /** What other goroutines can do to a fetcher: cancel it and mark it done. */
  ghost predicate OnlyMarked(f: Fetch, f': Fetch) {
    && f' == f.(ctxDone := f'.ctxDone, win := f.win.(done := f'.win.done))
    && (f.ctxDone ==> f'.ctxDone) && (f.win.done ==> f'.win.done)
  }

  predicate NotBy(id: nat, steps: seq<Step>) {
    forall i | 0 <= i < |steps| :: !(steps[i].Run? && steps[i].id == id)
  }

  lemma StepOnlyMarks(size: nat, windowSize: nat, w: World, step: Step, id: nat)
    requires Enabled(size, windowSize, w, step) && id in w.fetches && !(step.Run? && step.id == id)
    ensures id in Apply(size, windowSize, w, step).fetches
    ensures OnlyMarked(w.fetches[id], Apply(size, windowSize, w, step).fetches[id])
  {
  }

  lemma {:induction false} OthersOnlyMark(size: nat, windowSize: nat, w: World, steps: seq<Step>, id: nat)
    requires CanRun(size, windowSize, w, steps) && NotBy(id, steps) && id in w.fetches
    ensures var w' := Final(size, windowSize, w, steps); id in w'.fetches && OnlyMarked(w.fetches[id], w'.fetches[id])
    decreases |steps|
  {
    if steps != [] {
      var w1 := Apply(size, windowSize, w, steps[0]);
      StepOnlyMarks(size, windowSize, w, steps[0], id);
      assert NotBy(id, steps[1..]) by {
        assert forall i | 0 <= i < |steps[1..]| :: steps[1..][i] == steps[i + 1];
      }
      OthersOnlyMark(size, windowSize, w1, steps[1..], id);
    }
  }

  predicate InBody(pc: Pc, attempt: nat, cachedLen: nat) {
    pc.Body? && pc.attempt == attempt && pc.cachedLen == cachedLen
  }

  /** The fetcher's last chunk: a failed read is no success; the end of the body, or
      a chunk after which it found itself cancelled, is. */
  predicate EndsReading(step: Step, id: nat, success: bool) {
    && step.Run? && step.id == id && step.fs.Read?
    && (success <==> step.fs.end == Eof || (step.fs.end == More && step.fs.cancelled))
    && (!success <==> step.fs.end == Broken)
  }

  /** A reply was refused: after an unlucky one that was not the fourth the fetcher tries
      again, after any other it gives up with an error. */
  predicate RefusedNow(f: Fetch, f': Fetch, attempt: nat) {
    && |f'.outcomes| == |f.outcomes| + 1 && f'.outcomes[|f.outcomes|].Refused?
    && if attempt < 3 && Unlucky(f'.outcomes[|f.outcomes|]) then f'.pc == Top(attempt + 1)
       else f'.pc == ReleaseSlot && f'.win.err.Some?
  }

  /** After a failed attempt: on to the next one, or out. */
  predicate GaveUp(pc: Pc, attempt: nat) {
    pc == ReleaseSlot || (attempt < MAX_RETRIES && pc == Top(attempt + 1))
  }

  lemma HitExists(cache: Blocks, off: int) returns (hit: Option<int>)
    ensures MayFind(cache, off, hit)
  {
    if b :| Contains(cache, b, off) { hit := Some(b); } else { hit := None; }
  }

  lemma {:induction false} FreshId(ids: set<nat>) returns (id: nat)
    ensures forall i | i in ids :: i < id
    decreases |ids|
  {
    if ids == {} { return 0; }
    var i :| i in ids;
    var j := FreshId(ids - {i});
    id := if i < j then j else i + 1;
    forall k | k in ids ensures k < id { assert k == i || k in ids - {i}; }
  }

  /** The buffer before and after a read: `n` bytes of the file from `off` were put
      at `lo`, and everything else is as before. */
  ghost predicate Wrote(file: seq<byte>, before: seq<byte>, after: seq<byte>, lo: nat, n: nat, off: nat) {
    && lo + n <= |before| == |after|
    && (n > 0 ==> SliceAt(file, off, after[lo..lo + n]))
    && after[..lo] == before[..lo] && after[lo + n..] == before[lo + n..]
  }

  /** Two reads one after the other, the second continuing the first. */
  lemma WroteTwice(file: seq<byte>, p0: seq<byte>, p1: seq<byte>, p2: seq<byte>, n: nat, k: nat, off: nat)
    requires Wrote(file, p0, p1, 0, n, off) && Wrote(file, p1, p2, n, k, off + n)
    ensures Wrote(file, p0, p2, 0, n + k, off)
  {
    assert p2[..n] == p1[..n] == p1[0..n];
    assert p2[0..n + k] == p2[..n] + p2[n..n + k];
    if n > 0 && k > 0 {
      SliceAppend(file, off, p1[0..n], p2[n..n + k]);
    }
    assert p2[n + k..] == p1[n + k..] == p1[n..][k..] == p0[n..][k..] == p0[n + k..];
  }

  // ---------------------------------------------------------------------
  // What the history of the shared state tells
  // ---------------------------------------------------------------------

  /** A run from the start, for a file of that size. */
  datatype History = History(size: nat, windowSize: nat, steps: seq<Step>)

  /** The state after the first `k` steps. */
  ghost predicate Was(h: History, k: nat, w: World) {
    k <= |h.steps| && CanRun(h.size, h.windowSize, Start(), h.steps[..k]) &&
    w == Final(h.size, h.windowSize, Start(), h.steps[..k])
  }

  /** No cached block contained the offset then. */
  ghost predicate MissedAt(h: History, k: nat, w: World, off: nat) {
    Was(h, k, w) && forall b | b in w.cache :: !(b <= off < b + |w.cache[b]|)
  }

  /** At some moment since the history had `since` steps. */
  ghost predicate Missed(h: History, since: nat, off: nat) {
    exists k, w | since <= k :: MissedAt(h, k, w, off)
  }

  /** These are the bytes a block cached then had from the offset on, as many as were
      asked for if it had them. */
  ghost predicate ServedAt(h: History, k: nat, w: World, b: int, off: nat, length: nat, bytes: seq<byte>) {
    && Was(h, k, w) && b in w.cache && b <= off < b + |w.cache[b]| && bytes <= w.cache[b][off - b..]
    && |bytes| == if length < |w.cache[b]| - (off - b) then length else |w.cache[b]| - (off - b)
  }

  ghost predicate Served(h: History, since: nat, off: nat, length: nat, bytes: seq<byte>) {
    exists k, w, b | since <= k :: ServedAt(h, k, w, b, off, length, bytes)
  }

  /** A window for the offset was in flight then, or was not. */
  ghost predicate InFlightAt(h: History, k: nat, w: World, off: nat, yes: bool) {
    h.windowSize > 0 && Was(h, k, w) && (yes <==> WindowStart(off, h.windowSize) in w.inflight)
  }

  ghost predicate WasInFlight(h: History, since: nat, off: nat, yes: bool) {
    exists k, w | since <= k :: InFlightAt(h, k, w, off, yes)
  }

  /** The window was in flight then, and was not done with an error. */
  ghost predicate SoundAt(h: History, k: nat, w: World, id: nat, off: nat) {
    h.windowSize > 0 && Was(h, k, w) &&
    var start := WindowStart(off, h.windowSize);
    && start in w.inflight && w.inflight[start] == id && id in w.fetches
    && !(w.fetches[id].win.done && w.fetches[id].win.err.Some?)
  }

  ghost predicate WasSound(h: History, since: nat, id: nat, off: nat) {
    exists k, w | since <= k :: SoundAt(h, k, w, id, off)
  }

  /** The window was not done then, and had not come that far. */
  ghost predicate StarvedAt(h: History, k: nat, w: World, id: nat, needed: int) {
    Was(h, k, w) && id in w.fetches && w.fetches[id].win.readyTo < needed && !w.fetches[id].win.done
  }

  ghost predicate WasStarved(h: History, since: nat, id: nat, needed: int) {
    exists k, w | since <= k :: StarvedAt(h, k, w, id, needed)
  }

  lemma StillStarved(h: History, h': History, since: nat, id: nat, needed: int)
    requires Extends(h, h') && WasStarved(h, since, id, needed)
    ensures WasStarved(h', since, id, needed)
  {
    var k, w :| since <= k && StarvedAt(h, k, w, id, needed);
    StillWas(h, h', k, w);
    assert StarvedAt(h', k, w, id, needed);
  }

  predicate Extends(h: History, h': History) {
    h'.size == h.size && h'.windowSize == h.windowSize && h.steps <= h'.steps
  }

  lemma StillWas(h: History, h': History, k: nat, w: World)
    requires Extends(h, h') && Was(h, k, w)
    ensures Was(h', k, w)
  {
    assert h'.steps[..k] == h.steps[..k];
  }

  lemma StillMissed(h: History, h': History, since: nat, off: nat)
    requires Extends(h, h')
    ensures Missed(h, since, off) ==> Missed(h', since, off)
  {
    if Missed(h, since, off) {
      var k, w :| since <= k && MissedAt(h, k, w, off);
      StillWas(h, h', k, w);
      assert MissedAt(h', k, w, off);
    }
  }

  lemma StillServed(h: History, h': History, since: nat, off: nat, length: nat, bytes: seq<byte>)
    requires Extends(h, h')
    ensures Served(h, since, off, length, bytes) ==> Served(h', since, off, length, bytes)
  {
    if Served(h, since, off, length, bytes) {
      var k, w, b :| since <= k && ServedAt(h, k, w, b, off, length, bytes);
      StillWas(h, h', k, w);
      assert ServedAt(h', k, w, b, off, length, bytes);
    }
  }

  lemma StillInFlight(h: History, h': History, since: nat, off: nat, yes: bool)
    requires Extends(h, h')
    ensures WasInFlight(h, since, off, yes) ==> WasInFlight(h', since, off, yes)
  {
    if WasInFlight(h, since, off, yes) {
      var k, w :| since <= k && InFlightAt(h, k, w, off, yes);
      StillWas(h, h', k, w);
      assert InFlightAt(h', k, w, off, yes);
    }
  }

  lemma StillSound(h: History, h': History, since: nat, id: nat, off: nat)
    requires Extends(h, h')
    ensures WasSound(h, since, id, off) ==> WasSound(h', since, id, off)
  {
    if WasSound(h, since, id, off) {
      var k, w :| since <= k && SoundAt(h, k, w, id, off);
      StillWas(h, h', k, w);
      assert SoundAt(h', k, w, id, off);
    }
  }

  /** If a window was in flight at the place then, it was cancelled at once. */
  ghost predicate ClearedAt(h: History, k: nat, w: World, start: nat) {
    Was(h, k, w) && (start in w.inflight ==> k < |h.steps| && h.steps[k] == CancelOne(start))
  }

  ghost predicate Cleared(h: History, since: nat, start: nat) {
    exists k, w | since <= k :: ClearedAt(h, k, w, start)
  }

  lemma StillCleared(h: History, h': History, since: nat, start: nat)
    requires Extends(h, h') && Cleared(h, since, start)
    ensures Cleared(h', since, start)
  {
    var k, w :| since <= k && ClearedAt(h, k, w, start);
    StillWas(h, h', k, w);
    assert ClearedAt(h', k, w, start);
  }

  /** A cancelled window leaves its place at once, and stays cancelled and done. */
  lemma CancelledForGood(size: nat, windowSize: nat, w: World, start: nat, steps: seq<Step>)
    requires Enabled(size, windowSize, w, CancelOne(start))
    requires CanRun(size, windowSize, Apply(size, windowSize, w, CancelOne(start)), steps)
    ensures start !in Apply(size, windowSize, w, CancelOne(start)).inflight
    ensures var w' := Final(size, windowSize, Apply(size, windowSize, w, CancelOne(start)), steps);
      w.inflight[start] in w'.fetches && w'.fetches[w.inflight[start]].ctxDone && w'.fetches[w.inflight[start]].win.done
  {
    RunGrows(size, windowSize, Apply(size, windowSize, w, CancelOne(start)), steps);
  }

  /** A direct request: the range asked for, the reply, and whether its body broke off
      before enough was read. */
  datatype Answer = Answer(asked: Range, reply: Reply, broke: bool)

  /** The reply was a part, or the whole from offset 0, and could be read. */
  predicate Answers(a: Answer, off: nat) {
    a.reply.Http? && (a.reply.status == 206 || (a.reply.status == 200 && off == 0)) && !a.broke
  }

  /** What the bypass for small reads did. Without a request of its own it found the
      bytes cached, or found a window in flight and left; with one it had found
      neither, and succeeded if and only if the reply was a part, or the whole from
      offset 0, and its body did not break off. */
  ghost predicate Bypass(h: History, since: nat, before: seq<Answer>, after: seq<Answer>, off: nat, length: nat,
                         bytes: seq<byte>, ok: bool) {
    if after == before then
      if ok then Served(h, since, off, length, bytes)
      else Missed(h, since, off) && WasInFlight(h, since, off, true)
    else
      && |after| == |before| + 1 && before <= after
      && Missed(h, since, off) && WasInFlight(h, since, off, false)
      && after[|before|].asked == Range(off, (if off + length < h.size then off + length else h.size) - 1)
      && (ok <==> Answers(after[|before|], off))
      && (ok ==>
            var body := after[|before|].reply.body;
            bytes <= body && |bytes| == if length < |body| then length else |body|)
  }

  lemma StillBypass(h: History, h': History, since: nat, before: seq<Answer>, after: seq<Answer>, off: nat, length: nat,
                    bytes: seq<byte>, ok: bool)
    requires Extends(h, h') && Bypass(h, since, before, after, off, length, bytes, ok)
    ensures Bypass(h', since, before, after, off, length, bytes, ok)
  {
    StillMissed(h, h', since, off);
    StillServed(h, h', since, off, length, bytes);
    StillInFlight(h, h', since, off, true);
    StillInFlight(h, h', since, off, false);
  }

  class StreamReader {
    const file: seq<byte>
    const windowSize: nat
    /** Whether the assumptions on the server and the cache are made. */
    const trusted: bool
    var world: World
    ghost var trace: seq<Step>
    /** How often the reader has slept until something happened. */
    ghost var waits: nat
    /** The windows it has asked for bytes. */
    ghost var joined: seq<nat>
    /** The answers to its own requests, past the windows. */
    ghost var direct: seq<Answer>

    ghost predicate Valid()
      reads this
    {
      && windowSize > 0 && Allowed(trusted, file, windowSize, Start(), trace)
      && world == Final(|file|, windowSize, Start(), trace)
    }

    constructor (file: seq<byte>, windowSize: nat, trusted: bool)
      requires windowSize > 0
      ensures Valid() && this.file == file && this.windowSize == windowSize && this.trusted == trusted &&
        world == Start()
    {
      this.file, this.windowSize, this.trusted := file, windowSize, trusted;
      world, trace, waits, joined, direct := Start(), [], 0, [], [];
    }

    /** Every reachable world satisfies the invariant. */
    lemma Reachable()
      requires Valid()
      ensures Controlled(|file|, windowSize, world)
      ensures trusted ==> Inv(file, windowSize, world)
    {
      RunKeepsControl(|file|, windowSize, Start(), trace);
      if trusted { RunKeepsInv(file, windowSize, Start(), trace); }
    }

    method Perform(step: Step)
      requires Valid() && AllowedStep(trusted, file, windowSize, world, step)
      modifies this`world, this`trace
      ensures Valid() && trace == old(trace) + [step]
      ensures world == Apply(|file|, windowSize, old(world), step)
      ensures Grown(old(world), world)
    {
      OneStep(trusted, file, windowSize, world, step);
      RunAppend(trusted, file, windowSize, Start(), trace, [step]);
      RunGrows(|file|, windowSize, world, [step]);
      world := Apply(|file|, windowSize, world, step);
      trace := trace + [step];
    }

    /** Any number of steps of any goroutines. */
    method Interfere()
      requires Valid()
      modifies this`world, this`trace
      ensures Valid() && Grown(old(world), world) && old(trace) <= trace
    {
      assert Allowed(trusted, file, windowSize, world, []);
      var steps: seq<Step> :|
        CanRun(|file|, windowSize, world, steps) && Allowed(trusted, file, windowSize, world, steps);
      RunAppend(trusted, file, windowSize, Start(), trace, steps);
      RunGrows(|file|, windowSize, world, steps);
      world := Final(|file|, windowSize, world, steps);
      trace := trace + steps;
    }

    /** A wait on the condition variable, only while the window is not done and has
        not come as far as needed. */
    method Wait(ghost id: nat, ghost needed: nat)
      requires Valid() && id in world.fetches
      requires world.fetches[id].win.readyTo < needed && !world.fetches[id].win.done
      modifies this`world, this`trace, this`waits
      ensures Valid() && Grown(old(world), world) && old(trace) <= trace && waits == old(waits) + 1
    {
      Interfere();
      waits := waits + 1;
    }

    // -------------------------------------------------------------------
    // Reading
    // -------------------------------------------------------------------

    /** A window that contains `off` has nothing for it: it carries an error, or is
        done without having come that far. */
    ghost predicate Refused(id: nat, off: nat)
      reads this
    {
      windowSize > 0 && id in world.fetches && world.fetches[id].start == WindowStart(off, windowSize) &&
      var win := world.fetches[id].win;
      win.err.Some? || (win.done && win.readyTo <= off - world.fetches[id].start)
    }

    ghost function Hist(): History
      reads this
    {
      History(|file|, windowSize, trace)
    }

    lemma Now()
      requires Valid()
      ensures Was(Hist(), |trace|, world)
    {
      assert trace[..|trace|] == trace;
    }

    /** The wait was given up, or a window refused that was in flight, and had not
        failed, at some moment since the history had `since` steps. */
    ghost predicate Justified(off: nat, since: nat, waited: int, patience: nat)
      reads this
    {
      waited >= patience || exists id :: Refused(id, off) && WasSound(Hist(), since, id, off)
    }

    method CopyOut(bytes: seq<byte>, p: array<byte>, lo: nat, ghost off: nat)
      requires lo + |bytes| <= p.Length && SliceAt(file, off, bytes)
      modifies p
      ensures p[lo..lo + |bytes|] == bytes
      ensures Wrote(file, old(p[..]), p[..], lo, |bytes|, off)
    {
      forall j | 0 <= j < |bytes| { p[lo + j] := bytes[j]; }
      assert p[lo..lo + |bytes|] == bytes;
      assert p[..lo] == old(p[..])[..lo];
      assert p[lo + |bytes|..] == old(p[..])[lo + |bytes|..];
    }

    /** The whole-file view: for a nonempty `p` the first `n` bytes are the file's
        bytes at `off`; the end of the file is reported exactly when `off + n`
        reaches it; and without an error, unless the small-read bypass answered,
        `p` is full. Any other error means that the next byte was in no cached block,
        and that the caller gave up waiting or that the window of that byte, in flight
        and sound when this call joined it, refused. Unless some byte was in no cached
        block, no window is joined and nothing is waited for. Small reads of a random
        pattern, and no others, try the bypass first. `randomPattern` is the
        heuristic's verdict, `patience` bounds how often a wait is woken before the
        caller's context ends. */
    method ReadAt(off: nat, p: array<byte>, randomPattern: bool, patience: nat)
      returns (n: nat, err: Option<ReadError>, bypassed: bool)
      requires Valid() && trusted
      modifies this, p
      ensures Valid() && old(trace) <= trace && Wrote(file, old(p[..]), p[..], 0, n, off)
      ensures p.Length == 0 ==> n == 0 && err == None && joined == old(joined)
      ensures bypassed ==> err == None && joined == old(joined)
      ensures if 0 < p.Length <= 262144 && randomPattern
        then Bypass(Hist(), |old(trace)|, old(direct), direct, off, p.Length, p[..n], bypassed)
          || (!bypassed && Bypass(Hist(), |old(trace)|, old(direct), direct, off, p.Length, [], false))
        else !bypassed && direct == old(direct)
      ensures !bypassed && p.Length > 0 && err == None ==> n == p.Length && off + n < |file|
      ensures !bypassed && p.Length > 0 ==> (err == Some(EndOfFile) <==> off + n >= |file|)
      ensures err == Some(Failed) ==>
        Missed(Hist(), |old(trace)|, off + n) && Justified(off + n, |old(trace)|, waits - old(waits), patience)
      ensures joined == old(joined) ==> waits == old(waits) && err != Some(Failed)
      ensures joined != old(joined) ==> SomeMissed(off, p.Length, |old(trace)|)
    {
      n, err, bypassed := 0, None, false;
      if p.Length == 0 { return; }
      if p.Length <= SMALL_READ_THRESHOLD && randomPattern {
        n, bypassed := SmallRead(off, p);
        if bypassed { return; }
        assert p[..] == old(p[..]);
      }
      ghost var h, logged := Hist(), direct;
      n, err := ReadThroughWindows(off, p, patience);
      if p.Length <= SMALL_READ_THRESHOLD && randomPattern {
        StillBypass(h, Hist(), |old(trace)|, old(direct), logged, off, p.Length, [], false);
      }
    }

    ghost predicate SomeMissed(off: nat, length: nat, since: nat)
      reads this
    {
      exists o | off <= o < off + length && o < |file| :: Missed(Hist(), since, o)
    }

    /** The loop over windows. */
    method ReadThroughWindows(off: nat, p: array<byte>, patience: nat) returns (n: nat, err: Option<ReadError>)
      requires Valid() && trusted && p.Length > 0
      modifies this`world, this`trace, this`waits, this`joined, p
      ensures Valid() && old(trace) <= trace && Wrote(file, old(p[..]), p[..], 0, n, off)
      ensures err == None ==> n == p.Length && off + n < |file|
      ensures err == Some(EndOfFile) <==> off + n >= |file|
      ensures err == Some(Failed) ==>
        Missed(Hist(), |old(trace)|, off + n) && Justified(off + n, |old(trace)|, waits - old(waits), patience)
      ensures joined == old(joined) ==> waits == old(waits) && err != Some(Failed)
      ensures joined != old(joined) ==> SomeMissed(off, p.Length, |old(trace)|)
    {
      n := 0;
      ghost var p0 := p[..];
      var curOff, end := off, p.Length;
      while n < end
        invariant Valid() && curOff == off + n && n <= end <= p.Length
        invariant Wrote(file, p0, p[..], 0, n, off)
        invariant end < p.Length ==> off + end == |file|
        invariant curOff >= |file| ==> n == end || n == 0
        invariant waits >= old(waits) && old(trace) <= trace && old(joined) <= joined
        invariant joined == old(joined) ==> waits == old(waits)
        invariant joined != old(joined) ==> SomeMissed(off, p.Length, |old(trace)|)
        decreases end - n
      {
        if curOff >= |file| { return n, Some(EndOfFile); }
        var maxRead := |file| - curOff;
        if end - n > maxRead { end := n + maxRead; }
        var k, e := ReadPart(off, curOff, p, n, end, patience, |old(trace)|, p0);
        n := n + k;
        if e.Some? { return n, e; }
        if k == 0 { break; }
        curOff := curOff + k;
      }
      if curOff >= |file| { return n, Some(EndOfFile); }
      return n, None;
    }

    /** One turn, in terms of the whole read. */
    method ReadPart(ghost first: nat, off: nat, p: array<byte>, lo: nat, hi: nat, patience: nat, ghost since: nat,
                    ghost p0: seq<byte>)
      returns (n: nat, err: Option<ReadError>)
      requires Valid() && trusted && off < |file| && lo < hi <= p.Length && off == first + lo && since <= |trace|
      requires Wrote(file, p0, p[..], 0, lo, first)
      modifies this`world, this`trace, this`waits, this`joined, p
      ensures Valid() && n <= hi - lo && Wrote(file, p0, p[..], 0, lo + n, first)
      ensures err == None ==> n > 0
      ensures err.Some? ==> n == 0 && err == Some(Failed)
      ensures err.Some? ==> Missed(Hist(), since, off) && Justified(off, since, waits - old(waits), patience)
      ensures waits >= old(waits) && old(trace) <= trace && old(joined) <= joined
      ensures joined == old(joined) ==> waits == old(waits) && err == None
      ensures joined != old(joined) || (old(SomeMissed(first, p.Length, since))) ==> SomeMissed(first, p.Length, since)
    {
      ghost var h := Hist();
      ghost var o := MissedOne(first, p.Length, since);
      ghost var p1, hit := p[..], false;
      n, err, hit := ReadWindow(off, p, lo, hi, patience);
      WroteTwice(file, p0, p1, p[..], lo, n, first);
      StillMissed(h, Hist(), since, o);
      if !hit {
        Since(since, |h.steps|, off);
      }
    }

    lemma MissedOne(off: nat, length: nat, since: nat) returns (o: nat)
      ensures SomeMissed(off, length, since) ==> off <= o < off + length && o < |file| && Missed(Hist(), since, o)
    {
      if SomeMissed(off, length, since) {
        o :| off <= o < off + length && o < |file| && Missed(Hist(), since, o);
      } else {
        o := 0;
      }
    }

    /** Later moments count as well. */
    lemma Since(since: nat, later: nat, off: nat)
      requires since <= later
      ensures Missed(Hist(), later, off) ==> Missed(Hist(), since, off)
      ensures forall id :: WasSound(Hist(), later, id, off) ==> WasSound(Hist(), since, id, off)
    {
    }

    /** One window's worth of the read, from the cache (`hit`) or from a window in
        flight. A hit joins no window and waits for nothing; a window is joined only if
        no cached block had the offset. */
    method ReadWindow(off: nat, p: array<byte>, lo: nat, hi: nat, patience: nat)
      returns (n: nat, err: Option<ReadError>, ghost hit: bool)
      requires Valid() && trusted && off < |file| && lo < hi <= p.Length
      modifies this`world, this`trace, this`waits, this`joined, p
      ensures Valid() && n <= hi - lo && Wrote(file, old(p[..]), p[..], lo, n, off)
      ensures waits >= old(waits) && old(trace) <= trace
      ensures err == None ==> n > 0
      ensures hit ==> err == None && waits == old(waits) && joined == old(joined)
      ensures hit ==> Served(Hist(), |old(trace)|, off, hi - lo, p[lo..lo + n])
      ensures !hit ==> Missed(Hist(), |old(trace)|, off) && |joined| == |old(joined)| + 1 && old(joined) <= joined
      ensures !hit ==> WasSound(Hist(), |old(trace)|, joined[|old(joined)|], off)
      ensures !hit && n < hi - lo && err == None ==>
        joined[|old(joined)|] in world.fetches && world.fetches[joined[|old(joined)|]].win.done
      ensures err.Some? ==> n == 0 && err == Some(Failed) && !hit
      ensures err.Some? ==> waits - old(waits) >= patience || Refused(joined[|old(joined)|], off)
    {
      var ws := WindowStart(off, windowSize);
      n := TakeCached(off, p, lo, hi);
      if n > 0 { return n, None, true; }
      ghost var h := Hist();
      var id := JoinWindow(ws, off);
      ghost var h1 := Hist();
      n, err := WaitForBytes(id, off, p, lo, hi, patience);
      hit := false;
      StillMissed(h, Hist(), |old(trace)|, off);
      StillSound(h1, Hist(), |old(trace)|, id, off);
    }

    /** Later than the search of the cache. */
    method JoinWindow(ws: nat, ghost off: nat) returns (id: nat)
      requires Valid() && off < |file| && ws == WindowStart(off, windowSize)
      modifies this`world, this`trace, this`joined
      ensures Valid() && old(trace) <= trace && joined == old(joined) + [id]
      ensures id in world.fetches && world.fetches[id].start == ws && WasSound(Hist(), |old(trace)|, id, off)
    {
      Interfere();
      id := GetOrCreateWindow(ws);
      Now();
      assert SoundAt(Hist(), |trace|, world, id, off);
    }

    /** The bytes of a cached block, if some block has the offset. */
    method TakeCached(off: nat, p: array<byte>, lo: nat, hi: nat) returns (n: nat)
      requires Valid() && trusted && lo < hi <= p.Length
      modifies this`world, this`trace, p
      ensures Valid() && old(trace) <= trace && n <= hi - lo && Wrote(file, old(p[..]), p[..], lo, n, off)
      ensures if n > 0 then Served(Hist(), |old(trace)|, off, hi - lo, p[lo..lo + n])
              else Missed(Hist(), |old(trace)|, off)
    {
      Interfere();
      var bytes := SearchCache(off, hi - lo);
      Now();
      if bytes != [] {
        CopyOut(bytes, p, lo, off);
      } else {
        assert MissedAt(Hist(), |trace|, world, off);
      }
      return |bytes|;
    }

    /** CopyTo, as far as the bytes go: some covering block's bytes, or nothing. */
    method SearchCache(off: nat, length: nat) returns (bytes: seq<byte>)
      requires Valid() && trusted && length > 0
      ensures |bytes| <= length && (bytes != [] ==> SliceAt(file, off, bytes))
      ensures bytes == [] <==> forall b | b in world.cache :: !(b <= off < b + |world.cache[b]|)
      ensures bytes != [] ==> Served(Hist(), |trace|, off, length, bytes)
    {
      Reachable();
      Now();
      ghost var h := HitExists(world.cache, off);
      var hit: Option<int> :| MayFind(world.cache, off, hit);
      assert MayFind(world.cache, off, hit);
      bytes := Copied(world.cache, off, length, hit);
      CachedBytesAreTrue(world.cache, off, length, hit);
      if bytes != [] {
        assert ServedAt(Hist(), |trace|, world, hit.value, off, length, bytes);
      } else {
        assert forall b | b in world.cache :: !Contains(world.cache, b, off);
      }
    }

    lemma CachedBytesAreTrue(cache: Blocks, off: nat, length: nat, hit: Option<int>)
      requires TrueBlocks(file, cache) && MayFind(cache, off, hit) && length > 0
      ensures hit.Some? ==> SliceAt(file, off, Copied(cache, off, length, hit)) && Copied(cache, off, length, hit) != []
    {
      if hit.Some? {
        assert SliceAt(file, hit.value, cache[hit.value]);
        CopiedIsTrue(file, cache, off, length, hit);
      }
    }

    /** A window that is in flight, and not done with an error, is joined; otherwise a
        fresh one takes its place. */
    method GetOrCreateWindow(start: nat) returns (id: nat)
      requires Valid() && start < |file|
      modifies this`world, this`trace, this`joined
      ensures Valid() && old(trace) <= trace && joined == old(joined) + [id]
      ensures start in world.inflight && world.inflight[start] == id && id in world.fetches
      ensures world.fetches[id].start == start && !(world.fetches[id].win.done && world.fetches[id].win.err.Some?)
      ensures var w := old(world);
        if start in w.inflight && w.inflight[start] in w.fetches &&
           !(w.fetches[w.inflight[start]].win.done && w.fetches[w.inflight[start]].win.err.Some?)
        then id == w.inflight[start] && world == w && trace == old(trace)
        else
          && id !in w.fetches && trace == old(trace) + [Open(id, start)]
          && world == w.(fetches := w.fetches[id := world.fetches[id]], inflight := w.inflight[start := id])
          && world.fetches[id].pc == AwaitSlot && world.fetches[id].win == Window([], 0, 0, None, false)
          && !world.fetches[id].ctxDone
    {
      Reachable();
      if Joins(world, start) {
        id := world.inflight[start];
      } else {
        ghost var f := FreshId(world.fetches.Keys);
        assert f !in world.fetches;
        id :| id !in world.fetches;
        Perform(Open(id, start));
      }
      joined := joined + [id];
    }

    /** Bytes as soon as all that were asked for are there, or as many as a window that
        is done has. */
    method WaitForBytes(id: nat, off: nat, p: array<byte>, lo: nat, hi: nat, patience: nat)
      returns (n: nat, err: Option<ReadError>)
      requires Valid() && trusted && id in world.fetches && world.fetches[id].start == WindowStart(off, windowSize)
      requires lo < hi <= p.Length
      modifies this`world, this`trace, this`waits, p
      ensures Valid() && n <= hi - lo && Wrote(file, old(p[..]), p[..], lo, n, off)
      ensures id in world.fetches && old(waits) <= waits <= old(waits) + patience && old(trace) <= trace
      ensures err == None ==> n == Min(world.fetches[id].win.readyTo - (off - world.fetches[id].start), hi - lo) > 0
      ensures err == None && n < hi - lo ==> world.fetches[id].win.done
      ensures waits > old(waits) ==>
        WasStarved(Hist(), |old(trace)|, id, off - WindowStart(off, windowSize) + hi - lo)
      ensures err.Some? ==> n == 0 && err == Some(Failed) && (waits - old(waits) >= patience || Refused(id, off))
    {
      var start := world.fetches[id].start;
      var offInWin := off - start;
      var ready := AwaitBytes(id, offInWin + (hi - lo), patience);
      if !ready { return 0, Some(Failed); }
      var win := world.fetches[id].win;
      Reachable();
      TakeIsTrue(file, start, win, off, hi - lo);
      var taken := Take(win, offInWin, hi - lo);
      if taken.None? { return 0, Some(Failed); }
      CopyOut(taken.value, p, lo, off);
      return |taken.value|, None;
    }

    /** Waits until the window has come that far or is done, and not longer; false when
        the caller's context ended first. */
    method AwaitBytes(id: nat, needed: nat, patience: nat) returns (ready: bool)
      requires Valid() && id in world.fetches
      modifies this`world, this`trace, this`waits
      ensures Valid() && id in world.fetches && world.fetches[id].start == old(world).fetches[id].start
      ensures old(waits) <= waits <= old(waits) + patience && old(trace) <= trace
      ensures waits > old(waits) ==> WasStarved(Hist(), |old(trace)|, id, needed)
      ensures if ready then world.fetches[id].win.readyTo >= needed || world.fetches[id].win.done
              else waits == old(waits) + patience
    {
      var start := world.fetches[id].start;
      var wakeups := patience;
      while true
        invariant Valid() && id in world.fetches && world.fetches[id].start == start
        invariant waits + wakeups == old(waits) + patience && old(trace) <= trace
        invariant waits > old(waits) ==> WasStarved(Hist(), |old(trace)|, id, needed)
        decreases wakeups
      {
        if wakeups == 0 { return false; }  // the caller's context is done
        var w := world.fetches[id].win;
        if w.readyTo >= needed || w.done { return true; }
        wakeups := wakeups - 1;
        Now();
        assert StarvedAt(Hist(), |trace|, world, id, needed);
        ghost var h := Hist();
        Wait(id, needed);
        StillStarved(h, Hist(), |old(trace)|, id, needed);
      }
    }

    /** The bypass for small random reads: `ok` means its answer is returned. */
    method SmallRead(off: nat, p: array<byte>) returns (n: nat, ok: bool)
      requires Valid() && trusted && p.Length > 0
      modifies this`world, this`trace, this`direct, p
      ensures Valid() && old(trace) <= trace && Wrote(file, old(p[..]), p[..], 0, n, off)
      ensures Bypass(Hist(), |old(trace)|, old(direct), direct, off, p.Length, p[..n], ok)
      ensures !ok ==> n == 0
      ensures direct != old(direct) && n > 0 ==> off in world.cache && world.cache[off] == p[..n]
    {
      n := TakeCached(off, p, 0, p.Length);
      if n > 0 { return n, true; }
      ghost var h := Hist();
      Interfere();
      Now();
      var inFlight := WindowStart(off, windowSize) in world.inflight;
      assert InFlightAt(Hist(), |trace|, world, off, inFlight);
      ghost var h1 := Hist();
      if inFlight {
        ok := false;
      } else {
        n, ok := ReadDirectly(off, p);
      }
      StillMissed(h, Hist(), |old(trace)|, off);
      StillInFlight(h1, Hist(), |old(trace)|, off, inFlight);
    }

    /** One request for exactly these bytes; what arrives is cached. */
    method ReadDirectly(off: nat, p: array<byte>) returns (n: nat, ok: bool)
      requires Valid() && trusted && p.Length > 0
      modifies this`world, this`trace, this`direct, p
      ensures Valid() && old(trace) <= trace && Wrote(file, old(p[..]), p[..], 0, n, off)
      ensures |direct| == |old(direct)| + 1 && old(direct) <= direct
      ensures direct[|old(direct)|].asked ==
        Range(off, (if off + p.Length < |file| then off + p.Length else |file|) - 1)
      ensures ok <==> Answers(direct[|old(direct)|], off)
      ensures ok ==>
        var body := direct[|old(direct)|].reply.body;
        p[..n] <= body && n == if p.Length < |body| then p.Length else |body|
      ensures !ok ==> n == 0
      ensures n > 0 ==> off in world.cache && world.cache[off] == p[..n]
    {
      var last := off + p.Length - 1;
      if last >= |file| { last := |file| - 1; }
      assert HonestReply(file, Range(off, last), Failure(false));
      var reply :| HonestReply(file, Range(off, last), reply);
      var broke: bool := *;
      direct := direct + [Answer(Range(off, last), reply, broke)];
      if !Accepted(reply, off) || broke { return 0, false; }
      n := Min(p.Length, |reply.body|);
      HeadIsTrue(off, last, reply, n);
      if n > 0 { CacheAndCopy(off, p, reply.body[..n]); }
      return n, true;
    }

    lemma HeadIsTrue(off: nat, last: int, reply: Reply, n: nat)
      requires HonestReply(file, Range(off, last), reply) && Accepted(reply, off) && n <= |reply.body|
      ensures SliceAt(file, off, reply.body[..n]) && reply.body[..n] <= reply.body
    {
      BodyIsTrue(file, Range(off, last), reply);
      SlicePrefix(file, off, reply.body, n);
    }

    method CacheAndCopy(off: nat, p: array<byte>, data: seq<byte>)
      requires Valid() && trusted && 0 < |data| <= p.Length && SliceAt(file, off, data)
      modifies this`world, this`trace, p
      ensures Valid() && old(trace) <= trace && Wrote(file, old(p[..]), p[..], 0, |data|, off)
      ensures p[..|data|] == data && off in world.cache && world.cache[off] == data
    {
      Interfere();
      Perform(PutDirect(off, data));
      CopyOut(data, p, 0, off);
    }

    /** Every place that was taken is found free or cleared by a cancellation; see
        `CancelledForGood` for what becomes of a cancelled window. */
    method CancelFile()
      requires Valid()
      modifies this`world, this`trace
      ensures Valid() && old(trace) <= trace
      ensures forall start | start in old(world).inflight :: Cleared(Hist(), |old(trace)|, start)
    {
      var todo := world.inflight.Keys;
      while todo != {}
        invariant Valid() && old(trace) <= trace
        invariant forall start | start in old(world).inflight && start !in todo ::
          Cleared(Hist(), |old(trace)|, start)
      {
        var start :| start in todo;
        ghost var h := Hist();
        CancelAt(start);
        forall s | Cleared(h, |old(trace)|, s) ensures Cleared(Hist(), |old(trace)|, s) {
          StillCleared(h, Hist(), |old(trace)|, s);
        }
        todo := todo - {start};
      }
    }

    /** Cancels the window in flight at one place, if there still is one. */
    method CancelAt(start: nat)
      requires Valid()
      modifies this`world, this`trace
      ensures Valid() && old(trace) <= trace
      ensures Cleared(Hist(), |old(trace)|, start)
    {
      Interfere();
      Reachable();
      Now();
      ghost var h, k, w := Hist(), |trace|, world;
      if start in world.inflight { Perform(CancelOne(start)); }
      StillWas(h, Hist(), k, w);
      assert ClearedAt(Hist(), k, w, start);
    }

    // -------------------------------------------------------------------
    // Fetching
    // -------------------------------------------------------------------

    /** Any number of steps of anybody but this fetcher. */
    method Others(id: nat)
      requires Valid() && id in world.fetches
      modifies this
      ensures Valid() && id in world.fetches
      ensures OnlyMarked(old(world).fetches[id], world.fetches[id])
    {
      assert Allowed(trusted, file, windowSize, world, []) && NotBy(id, []);
      var steps: seq<Step> :|
        CanRun(|file|, windowSize, world, steps) && Allowed(trusted, file, windowSize, world, steps) &&
          NotBy(id, steps);
      RunAppend(trusted, file, windowSize, Start(), trace, steps);
      OthersOnlyMark(|file|, windowSize, world, steps, id);
      world := Final(|file|, windowSize, world, steps);
      trace := trace + steps;
    }

    /** One section of this fetcher that needs nothing from outside, after anything
        the others did. */
    method Do(id: nat, fs: FetchStep) returns (ghost f: Fetch, ghost cache: Blocks)
      requires Valid() && id in world.fetches
      requires !fs.CopyAll? && !fs.CopyPrefix? && !fs.Respond?
      requires forall g: Fetch | OnlyMarked(world.fetches[id], g) :: FetchEnabled(|file|, windowSize, map[], g, fs)
      modifies this
      ensures Valid() && id in world.fetches
      ensures OnlyMarked(old(world).fetches[id], f) && FetchEnabled(|file|, windowSize, cache, f, fs)
      ensures world.fetches[id] == Section(|file|, windowSize, cache, f, fs).1
    {
      Others(id);
      f, cache := world.fetches[id], world.cache;
      assert FetchEnabled(|file|, windowSize, map[], f, fs);
      Perform(Run(id, fs));
    }

    /** The body of a fetching goroutine. It ends, whatever the server, the cache and
        the other goroutines do; its history is a run of the protocol, so the window
        is then done, with an error or some bytes, and the slot was returned. */
    method FetchWindow(id: nat)
      requires Valid() && id in world.fetches && world.fetches[id].pc == AwaitSlot
      modifies this
      ensures Valid() && id in world.fetches && world.fetches[id].pc == Ended
      ensures world.fetches[id].win.done && (world.fetches[id].win.err.Some? || world.fetches[id].win.buf != [])
      ensures world.fetches[id].released == world.fetches[id].acquired <= 1 &&
        |world.fetches[id].requests| <= 4
      ensures WellFounded(world.fetches[id]) && RightlyRefused(world.fetches[id]) && RightlyStopped(world.fetches[id])
    {
      Others(id);
      var granted :| granted || world.fetches[id].ctxDone;
      Perform(Run(id, SlotResult(granted)));
      if granted {
        Retry(id);
        var _, _ := Do(id, Release);
        var _, _ := Do(id, Finish);
      }
      HowItEnds(id);
    }

    lemma HowItEnds(id: nat)
      requires Valid() && id in world.fetches && world.fetches[id].pc == Ended
      ensures world.fetches[id].win.done && (world.fetches[id].win.err.Some? || world.fetches[id].win.buf != [])
      ensures world.fetches[id].released == world.fetches[id].acquired <= 1 &&
        |world.fetches[id].requests| <= 4
      ensures WellFounded(world.fetches[id]) && RightlyRefused(world.fetches[id]) && RightlyStopped(world.fetches[id])
    {
      Reachable();
      RunReports(|file|, windowSize, Start(), trace);
      assert ControlInv(|file|, windowSize, world.fetches[id]) && Reported(world.fetches[id]);
    }

    method Retry(id: nat)
      requires Valid() && id in world.fetches && world.fetches[id].pc == Top(0)
      modifies this
      ensures Valid() && id in world.fetches && world.fetches[id].pc == ReleaseSlot
    {
      var attempt, again := 0, true;
      while again
        invariant Valid() && id in world.fetches && attempt <= MAX_RETRIES
        invariant world.fetches[id].pc == if again then Top(attempt) else ReleaseSlot
        decreases again, MAX_RETRIES - attempt
      {
        again := Attempt(id, attempt);
        if again { attempt := attempt + 1; }
      }
    }

    /** One turn of the retry loop: true to try again, false when the deferred
        release is next. */
    method Attempt(id: nat, attempt: nat) returns (again: bool)
      requires Valid() && id in world.fetches && attempt <= MAX_RETRIES && world.fetches[id].pc == Top(attempt)
      modifies this
      ensures Valid() && id in world.fetches && GaveUp(world.fetches[id].pc, attempt)
      ensures again <==> world.fetches[id].pc.Top?
    {
      var cancelled := BackOff(id, attempt);
      if cancelled { return false; }
      Others(id);
      Reachable();
      var start := world.fetches[id].start;
      var cachedLen := PrefixLen(world.cache, start);
      Perform(Run(id, Lookup));
      if cachedLen >= WindowLen(|file|, windowSize, start) {
        TakeWholeFromCache(id, attempt);
        return false;
      }
      CopyPrefix(id, attempt, cachedLen);
      var accepted := RequestRest(id, attempt, cachedLen);
      if accepted {
        var success := StreamInto(id, attempt, cachedLen);
        Conclude(id, attempt, success);
      }
      again := world.fetches[id].pc.Top?;
    }

    /** Before a retry: drop the partial data and sleep, unless cancelled. */
    method BackOff(id: nat, attempt: nat) returns (cancelled: bool)
      requires Valid() && id in world.fetches && attempt <= MAX_RETRIES && world.fetches[id].pc == Top(attempt)
      modifies this
      ensures Valid() && id in world.fetches
      ensures world.fetches[id].pc == if cancelled then ReleaseSlot else Look(attempt)
    {
      var _, _ := Do(id, BeginAttempt);
      if attempt == 0 { return false; }
      Others(id);
      cancelled :| cancelled ==> world.fetches[id].ctxDone;
      Perform(Run(id, EndBackoff(cancelled)));
    }

    /** After the body: cache what arrived, then finish or fail the attempt. */
    method Conclude(id: nat, attempt: nat, success: bool)
      requires Valid() && id in world.fetches && attempt <= MAX_RETRIES &&
        world.fetches[id].pc == Pc.Store(attempt, success)
      modifies this
      ensures Valid() && id in world.fetches && GaveUp(world.fetches[id].pc, attempt)
    {
      var _, _ := Do(id, FetchStep.Put);
      var _, _ := Do(id, Judge);
      if world.fetches[id].pc == MarkDone {
        var _, _ := Do(id, SetDone);
      }
    }

    /** Others may act between CachedPrefixLen and CopyTo. What CopyTo then finds is
        any covering block; if trusted, one that delivers the promised `length`. */
    method FindPromised(id: nat, length: nat) returns (hit: Option<int>)
      requires Valid() && id in world.fetches && length <= PrefixLen(world.cache, world.fetches[id].start)
      modifies this`world, this`trace
      ensures Valid() && id in world.fetches && OnlyMarked(old(world).fetches[id], world.fetches[id])
      ensures MayFind(world.cache, world.fetches[id].start, hit)
      ensures trusted && length > 0 ==> |Copied(world.cache, world.fetches[id].start, length, hit)| == length
    {
      var start := world.fetches[id].start;
      ghost var h := HitExists(world.cache, start);
      if length > 0 { h := Some(start); assert Contains(world.cache, start, start); }
      assert Allowed(trusted, file, windowSize, world, []) && NotBy(id, []) && MayFind(world.cache, start, h);
      var steps: seq<Step>, found: Option<int> :|
        && CanRun(|file|, windowSize, world, steps) && Allowed(trusted, file, windowSize, world, steps) &&
          NotBy(id, steps)
        && var w := Final(|file|, windowSize, world, steps);
           MayFind(w.cache, start, found) &&
             (trusted && length > 0 ==> |Copied(w.cache, start, length, found)| == length);
      RunAppend(trusted, file, windowSize, Start(), trace, steps);
      OthersOnlyMark(|file|, windowSize, world, steps, id);
      world := Final(|file|, windowSize, world, steps);
      trace := trace + steps;
      return found;
    }

    method TakeWholeFromCache(id: nat, attempt: nat)
      requires Valid() && id in world.fetches && world.fetches[id].pc == Pc.CopyWhole(attempt)
      requires WindowLen(|file|, windowSize, world.fetches[id].start) <= PrefixLen(world.cache, world.fetches[id].start)
      modifies this
      ensures Valid() && id in world.fetches && world.fetches[id].pc == ReleaseSlot
    {
      Reachable();
      var hit := FindPromised(id, WindowLen(|file|, windowSize, world.fetches[id].start));
      Perform(Run(id, FetchStep.CopyAll(hit)));
      var _, _ := Do(id, PutAll);
      var _, _ := Do(id, SetDone);
    }

    method CopyPrefix(id: nat, attempt: nat, cachedLen: nat)
      requires Valid() && id in world.fetches && world.fetches[id].pc == Prefill(attempt, cachedLen)
      requires cachedLen == PrefixLen(world.cache, world.fetches[id].start)
      modifies this
      ensures Valid() && id in world.fetches && world.fetches[id].pc == Request(attempt, cachedLen)
    {
      var hit := FindPromised(id, cachedLen);
      Perform(Run(id, FetchStep.CopyPrefix(hit)));
    }

    /** Asks the server for the part that is not cached. */
    method RequestRest(id: nat, attempt: nat, cachedLen: nat) returns (accepted: bool)
      requires Valid() && id in world.fetches && attempt <= MAX_RETRIES
      requires world.fetches[id].pc == Request(attempt, cachedLen)
      modifies this
      ensures Valid() && id in world.fetches
      ensures accepted ==> InBody(world.fetches[id].pc, attempt, cachedLen)
      ensures !accepted ==> GaveUp(world.fetches[id].pc, attempt)
      ensures !accepted ==> RefusedNow(old(world).fetches[id], world.fetches[id], attempt)
    {
      Others(id);
      var start := world.fetches[id].start;
      var range := Range(start + cachedLen, WindowEnd(|file|, windowSize, start) - 1);
      assert HonestReply(file, range, Failure(false));
      var reply :| trusted ==> HonestReply(file, range, reply);
      Perform(Run(id, Respond(reply)));
      return Accepted(reply, start + cachedLen);
    }

    /** Reads the body chunk by chunk until it ends, breaks or is cancelled. */
    method StreamInto(id: nat, attempt: nat, cachedLen: nat) returns (success: bool)
      requires Valid() && id in world.fetches && InBody(world.fetches[id].pc, attempt, cachedLen)
      modifies this
      ensures Valid() && id in world.fetches && world.fetches[id].pc == Pc.Store(attempt, success)
      ensures |trace| > 0 && EndsReading(trace[|trace| - 1], id, success)
    {
      while true
        invariant Valid() && id in world.fetches && InBody(world.fetches[id].pc, attempt, cachedLen)
        decreases |world.fetches[id].pc.rest|
      {
        ghost var rest := world.fetches[id].pc.rest;
        Others(id);
        var f := world.fetches[id];
        assert f.pc.rest == rest;
        // A reader that returns neither bytes nor an error makes no progress; it is
        // not modelled.
        assert FetchEnabled(|file|, windowSize, world.cache, f, Read(0, Broken, false));
        var n: nat, end: ReadEnd, cancelled: bool :|
          FetchEnabled(|file|, windowSize, world.cache, f, Read(n, end, cancelled)) && (end == More ==> n > 0);
        assert FetchEnabled(|file|, windowSize, world.cache, f, Read(n, end, cancelled));
        Perform(Run(id, Read(n, end, cancelled)));
        if end != More { return end == ReadEnd.Eof; }
        if cancelled { return true; }
        assert world.fetches[id].pc.rest == rest[n..] && |rest[n..]| < |rest|;
      }
    }
  }
}
