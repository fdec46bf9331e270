/** The window protocol of the stream reader, for one file.

    A window is filled by one fetching goroutine while any number of readers wait
    for it, and a cancellation may arrive at any moment. `World` is the shared
    state: the cached blocks of the file, every window ever opened, and the table
    of windows in flight. Each step is one section the source executes without
    interruption. A fetcher's program counter `Pc` names the section it runs next;
    its arguments are the local variables alive at that point. */
module WindowProtocol {
  import opened Totals

  const MAX_RETRIES := 3
  const READ_CHUNK := 32 * 1024

  datatype Error = Cancelled | FetchFailed | StreamFailed | NoData

  datatype Window = Window(buf: seq<byte>, readyTo: int, total: int, err: Option<Error>, done: bool)

  /** An inclusive byte range, as in section 14.1.2 of RFC 9110. */
  datatype Range = Range(first: nat, last: int)

  datatype Pc =
    | AwaitSlot
    | Top(attempt: nat)
    | Backoff(attempt: nat)
    | Look(attempt: nat)
    | CopyWhole(attempt: nat)
    | StoreWhole(attempt: nat)
    | Prefill(attempt: nat, cachedLen: nat)
    | Request(attempt: nat, cachedLen: nat)
    | Body(attempt: nat, cachedLen: nat, totalRead: nat, rest: seq<byte>)
    | Store(attempt: nat, success: bool)
    | Decide(attempt: nat, success: bool)
    | MarkDone
    | ReleaseSlot
    | MarkEnd
    | Ended

  /** How an attempt went: the reply was not accepted; or a body was read, which left
      `held` bytes in the buffer and ended so (`More`: cancelled); or the whole window
      came from the cache. */
  datatype Outcome = Refused(reply: Reply) | Streamed(held: nat, end: ReadEnd) | FromCache(held: nat)

  datatype Fetch = Fetch(
    start: nat,
    win: Window,
    pc: Pc,
    ctxDone: bool,
    requests: seq<Range>,  // log of the range requests sent
    received: seq<nat>,    // log of the bytes received for each finished request
    outcomes: seq<Outcome>,  // log of how each finished attempt went
    acquired: nat,         // budget slots obtained
    released: nat          // and returned
  )

  /** The blocks of this file in the cache, by their start. */
  type Blocks = map<nat, seq<byte>>

  datatype World = World(cache: Blocks, fetches: map<nat, Fetch>, inflight: map<nat, nat>)

  /** What a range request yields. `Failure` is any error that is not a status. */
  datatype Reply = Http(status: nat, body: seq<byte>) | Failure(cancelled: bool)

  datatype ReadEnd = More | Eof | Broken

  /** A step of a fetcher, with the choices it does not make itself. */
  datatype FetchStep =
    | SlotResult(granted: bool)
    | BeginAttempt
    | EndBackoff(cancelled: bool)
    | Lookup
    | CopyAll(hit: Option<int>)
    | PutAll
    | CopyPrefix(hit: Option<int>)
    | Respond(reply: Reply)
    | Read(n: nat, end: ReadEnd, cancelled: bool)
    | Put
    | Judge
    | SetDone
    | Release
    | Finish

  datatype Step =
    | Run(id: nat, fs: FetchStep)
    | Open(id: nat, start: nat)
    | CancelOne(start: nat)        // CancelFile, one window at a time
    | CancelContext(id: nat)       // cancel on a far seek: the context only
    | Forget(start: nat)           // the clean-up of a window whose fetcher is through
    | Evict(start: nat)
    | PutDirect(start: nat, data: seq<byte>)  // a small read caches its bytes

  function Min(a: int, b: int): int { if a <= b then a else b }

  /** The start of the window that contains `off`. */
  function WindowStart(off: nat, windowSize: nat): (ws: nat)
    requires windowSize > 0
    ensures ws <= off < ws + windowSize
    ensures ws % windowSize == 0
  {
    assert off == (off / windowSize) * windowSize + off % windowSize;
    MultipleLeavesNothing(off / windowSize, windowSize);
    (off / windowSize) * windowSize
  }

  lemma MultipleLeavesNothing(k: nat, n: nat)
    requires n > 0
    ensures (k * n) % n == 0
  {
    var q, r := (k * n) / n, (k * n) % n;
    assert k * n == q * n + r;
    assert (k - q) * n == r;
    if k != q { FarMultiple(k - q, n); }
  }

  lemma FarMultiple(d: int, n: nat)
    requires d != 0 && n > 0
    ensures d * n < 0 || d * n >= n
  {
    if d > 0 {
      AtLeastOnce(d, n);
    } else {
      AtLeastOnce(-d, n);
      assert d * n == -((-d) * n);
    }
  }

  lemma {:induction false} AtLeastOnce(d: nat, n: nat)
    requires d > 0
    ensures d * n >= n
    decreases d
  {
    if d > 1 {
      AtLeastOnce(d - 1, n);
      assert d * n == (d - 1) * n + n;
    }
  }

  // ---------------------------------------------------------------------
  // The cache as the protocol sees it
  // ---------------------------------------------------------------------

  /** The block `b` contains offset `off`. */
  predicate Contains(cache: Blocks, b: int, off: int) {
    b in cache && b <= off < b + |cache[b]|
  }

  /** A possible answer of the search for a block containing `off`. */
  predicate MayFind(cache: Blocks, off: int, hit: Option<int>) {
    match hit
    case Some(b) => Contains(cache, b, off)
    case None => forall b | b in cache :: !Contains(cache, b, off)
  }

  /** What CopyTo copies into a buffer of length `limit`. */
  function Copied(cache: Blocks, off: int, limit: nat, hit: Option<int>): (r: seq<byte>)
    requires hit.Some? ==> Contains(cache, hit.value, off)
    ensures |r| <= limit
  {
    if hit.None? then []
    else
      var avail := cache[hit.value][off - hit.value..];
      avail[..Min(limit, |avail|)]
  }

  function PrefixLen(cache: Blocks, start: int): nat {
    if start in cache then |cache[start]| else 0
  }

  // ---------------------------------------------------------------------
  // The sections of fetchWindow
  // ---------------------------------------------------------------------

  function WindowEnd(size: nat, windowSize: nat, start: nat): int { Min(start + windowSize, size) }

  function WindowLen(size: nat, windowSize: nat, start: nat): int { WindowEnd(size, windowSize, start) - start }

  /** 206 is accepted, and 200 only for a request from offset 0. */
  predicate Accepted(reply: Reply, start: nat) {
    reply.Http? && (reply.status == 206 || (reply.status == 200 && start == 0))
  }

  /** Rate limiting, server errors and unclassified failures may be retried; a
      rejected 200 is an unclassified failure. */
  predicate Retryable(reply: Reply) {
    match reply
    case Http(status, _) => status == 200 || status == 429 || 500 <= status < 600
    case Failure(cancelled) => !cancelled
  }

  function NewWindow(): Window { Window([], 0, 0, None, false) }

  function Reset(w: Window): Window { w.(buf := [], total := 0, readyTo := 0) }

  function Filled(w: Window, prefix: seq<byte>): Window {
    w.(buf := prefix, total := |prefix|, readyTo := |prefix|)
  }

  /** The whole-window copy allocates the full length before it copies. */
  function WhollyFilled(w: Window, length: nat, copied: seq<byte>): Window
    requires |copied| <= length
  {
    w.(buf := copied + seq(length - |copied|, _ => 0), total := |copied|, readyTo := |copied|)
  }

  /** One chunk arrives; `readyTo` is computed from the promised prefix length. */
  function Appended(w: Window, chunk: seq<byte>, cachedLen: nat, totalRead: nat): Window {
    w.(buf := w.buf + chunk, total := |w.buf| + |chunk|, readyTo := cachedLen + totalRead + |chunk|)
  }

  function New(start: nat): Fetch {
    Fetch(start, NewWindow(), AwaitSlot, false, [], [], [], 0, 0)
  }

  predicate FetchEnabled(size: nat, windowSize: nat, cache: Blocks, f: Fetch, fs: FetchStep) {
    match fs
    case SlotResult(granted) => f.pc.AwaitSlot? && (!granted ==> f.ctxDone)
    case BeginAttempt => f.pc.Top?
    case EndBackoff(cancelled) => f.pc.Backoff? && (cancelled ==> f.ctxDone)
    case Lookup => f.pc.Look?
    case CopyAll(hit) => f.pc.CopyWhole? && MayFind(cache, f.start, hit) && WindowLen(size, windowSize, f.start) >= 0
    case PutAll => f.pc.StoreWhole?
    case CopyPrefix(hit) => f.pc.Prefill? && MayFind(cache, f.start, hit)
    case Respond(reply) => f.pc.Request?
    case Read(n, end, cancelled) =>
      && f.pc.Body? && n <= |f.pc.rest| && n <= READ_CHUNK
      && (end == Eof ==> n == |f.pc.rest|)
      && (cancelled ==> f.ctxDone)
    case Put => f.pc.Store?
    case Judge => f.pc.Decide?
    case SetDone => f.pc.MarkDone?
    case Release => f.pc.ReleaseSlot?
    case Finish => f.pc.MarkEnd?
  }

  /** The next attempt after a failure, or the end with the error recorded. */
  function Fail(f: Fetch, attempt: nat, err: Error, retry: bool): Fetch {
    if retry && attempt < MAX_RETRIES then f.(pc := Top(attempt + 1))
    else f.(win := f.win.(err := Some(err)), pc := ReleaseSlot)
  }

  /** The new cache and fetch after one section. */
  function Section(size: nat, windowSize: nat, cache: Blocks, f: Fetch, fs: FetchStep): (Blocks, Fetch)
    requires FetchEnabled(size, windowSize, cache, f, fs)
  {
    match fs
    case SlotResult(granted) =>
      if granted then (cache, f.(acquired := 1, pc := Top(0)))
      else (cache, f.(win := f.win.(err := Some(Cancelled), done := true), pc := Ended))
    case BeginAttempt =>
      if f.pc.attempt > 0 then (cache, f.(win := Reset(f.win), pc := Backoff(f.pc.attempt)))
      else (cache, f.(pc := Look(0)))
    case EndBackoff(cancelled) =>
      if cancelled then (cache, f.(win := f.win.(err := Some(Cancelled)), pc := ReleaseSlot))
      else (cache, f.(pc := Look(f.pc.attempt)))
    case Lookup =>
      var cachedLen := PrefixLen(cache, f.start);
      if cachedLen >= WindowLen(size, windowSize, f.start) then (cache, f.(pc := CopyWhole(f.pc.attempt)))
      else (cache, f.(pc := Prefill(f.pc.attempt, cachedLen)))
    case CopyAll(hit) =>
      var length := WindowLen(size, windowSize, f.start);
      var win := WhollyFilled(f.win, length, Copied(cache, f.start, length, hit));
      (cache, f.(win := win, outcomes := f.outcomes + [FromCache(|win.buf|)], pc := StoreWhole(f.pc.attempt)))
    case PutAll =>
      (if f.win.buf == [] then cache else cache[f.start := f.win.buf], f.(pc := MarkDone))
    case CopyPrefix(hit) =>
      var n := f.pc.cachedLen;
      var win := if n > 0 then Filled(f.win, Copied(cache, f.start, n, hit)) else f.win.(buf := []);
      (cache, f.(win := win, pc := Request(f.pc.attempt, n)))
    case Respond(reply) =>
      var first := f.start + f.pc.cachedLen;
      var f' := f.(requests := f.requests + [Range(first, WindowEnd(size, windowSize, f.start) - 1)]);
      if Accepted(reply, first) then
        (cache, f'.(pc := Body(f.pc.attempt, f.pc.cachedLen, 0, reply.body)))
      else
        var f'' := f'.(received := f.received + [0], outcomes := f.outcomes + [Refused(reply)]);
        (cache, Fail(f'', f.pc.attempt, FetchFailed, Retryable(reply)))
    case Read(n, end, cancelled) =>
      var Body(attempt, cachedLen, totalRead, rest) := f.pc;
      var win := if n > 0 then Appended(f.win, rest[..n], cachedLen, totalRead) else f.win;
      if end == More && !cancelled then
        (cache, f.(win := win, pc := Body(attempt, cachedLen, totalRead + n, rest[n..])))
      else
        var f' := f.(received := f.received + [totalRead + n], outcomes := f.outcomes + [Streamed(|win.buf|, end)]);
        (cache, f'.(win := win, pc := Pc.Store(attempt, end != Broken)))
    case Put =>
      (if f.win.buf == [] then cache else cache[f.start := f.win.buf], f.(pc := Decide(f.pc.attempt, f.pc.success)))
    case Judge =>
      if f.pc.success && f.win.buf != [] then (cache, f.(pc := MarkDone))
      else (cache, Fail(f, f.pc.attempt, if f.pc.success then NoData else StreamFailed, true))
    case SetDone => (cache, f.(win := f.win.(done := true), pc := ReleaseSlot))
    case Release => (cache, f.(released := f.released + 1, pc := MarkEnd))
    case Finish => (cache, f.(win := f.win.(done := true), pc := Ended))
  }

  // ---------------------------------------------------------------------
  // The world
  // ---------------------------------------------------------------------

  predicate Enabled(size: nat, windowSize: nat, w: World, step: Step) {
    match step
    case Run(id, fs) => id in w.fetches && FetchEnabled(size, windowSize, w.cache, w.fetches[id], fs)
    case Open(id, start) => id !in w.fetches && start < size
    case CancelOne(start) => start in w.inflight && w.inflight[start] in w.fetches
    case CancelContext(id) => id in w.fetches && w.fetches[id].win.done
    case Forget(start) => start in w.inflight && w.inflight[start] in w.fetches && Through(w.fetches[w.inflight[start]])
    case Evict(start) => true
    case PutDirect(start, data) => data != []
  }

  /** The fetcher has nothing left to do but to give its slot back. */
  predicate Through(f: Fetch) { f.pc.ReleaseSlot? || f.pc.MarkEnd? || f.pc.Ended? }

  /** getOrCreateWindow joins a window in flight unless it has finished with an
      error. */
  predicate Joins(w: World, start: nat) {
    start in w.inflight && w.inflight[start] in w.fetches
    && !(w.fetches[w.inflight[start]].win.done && w.fetches[w.inflight[start]].win.err.Some?)
  }

  function Apply(size: nat, windowSize: nat, w: World, step: Step): World
    requires Enabled(size, windowSize, w, step)
  {
    match step
    case Run(id, fs) =>
      var (cache, f) := Section(size, windowSize, w.cache, w.fetches[id], fs);
      w.(cache := cache, fetches := w.fetches[id := f])
    case Open(id, start) =>
      if Joins(w, start) then w
      else w.(fetches := w.fetches[id := New(start)], inflight := w.inflight[start := id])
    case CancelOne(start) =>
      var f := w.fetches[w.inflight[start]];
      w.(fetches := w.fetches[w.inflight[start] := f.(ctxDone := true, win := f.win.(done := true))],
         inflight := w.inflight - {start})
    case CancelContext(id) => w.(fetches := w.fetches[id := w.fetches[id].(ctxDone := true)])
    case Forget(start) => w.(inflight := w.inflight - {start})
    case Evict(start) => w.(cache := w.cache - {start})
    case PutDirect(start, data) => w.(cache := w.cache[start := data])
  }

  /** An accepted body starts with the requested byte and stays within the request;
      a full response starts with the file's first byte. */
  predicate HonestReply(file: seq<byte>, range: Range, reply: Reply) {
    reply.Http? ==>
      && (reply.status == 206 ==>
            range.first <= range.last + 1 <= |file| && reply.body <= file[range.first..range.last + 1])
      && (reply.status == 200 ==> reply.body <= file)
  }

  /** What is assumed of the server and of the data other readers cache. */
  predicate Honest(file: seq<byte>, windowSize: nat, w: World, step: Step) {
    match step
    case Run(id, Respond(reply)) =>
      id in w.fetches && w.fetches[id].pc.Request? ==>
        HonestReply(file,
          Range(w.fetches[id].start + w.fetches[id].pc.cachedLen,
                WindowEnd(|file|, windowSize, w.fetches[id].start) - 1),
          reply)
    case PutDirect(start, data) => start + |data| <= |file| && data == file[start..start + |data|]
    case _ => true
  }

  /** CopyTo delivers the length that CachedPrefixLen promised a moment before. */
  predicate KeepsPromise(size: nat, windowSize: nat, w: World, step: Step)
    requires Enabled(size, windowSize, w, step)
  {
    match step
    case Run(id, CopyPrefix(hit)) =>
      var f := w.fetches[id];
      f.pc.cachedLen > 0 ==> |Copied(w.cache, f.start, f.pc.cachedLen, hit)| == f.pc.cachedLen
    case Run(id, CopyAll(hit)) =>
      var f := w.fetches[id];
      var length := WindowLen(size, windowSize, f.start);
      |Copied(w.cache, f.start, length, hit)| == length
    case _ => true
  }

  /** The steps can be taken one after the other, whatever the server sends and
      whatever CopyTo delivers. */
  predicate CanRun(size: nat, windowSize: nat, w: World, steps: seq<Step>)
    decreases |steps|
  {
    steps == [] ||
    (Enabled(size, windowSize, w, steps[0]) &&
      CanRun(size, windowSize, Apply(size, windowSize, w, steps[0]), steps[1..]))
  }

  function Final(size: nat, windowSize: nat, w: World, steps: seq<Step>): World
    requires CanRun(size, windowSize, w, steps)
    decreases |steps|
  {
    if steps == [] then w else Final(size, windowSize, Apply(size, windowSize, w, steps[0]), steps[1..])
  }

  /** A step that meets the assumptions. */
  predicate Good(file: seq<byte>, windowSize: nat, w: World, step: Step) {
    && Enabled(|file|, windowSize, w, step)
    && Honest(file, windowSize, w, step)
    && KeepsPromise(|file|, windowSize, w, step)
  }

  predicate AllGood(file: seq<byte>, windowSize: nat, w: World, steps: seq<Step>)
    requires CanRun(|file|, windowSize, w, steps)
    decreases |steps|
  {
    steps == [] ||
    (Good(file, windowSize, w, steps[0]) &&
      AllGood(file, windowSize, Apply(|file|, windowSize, w, steps[0]), steps[1..]))
  }

  predicate GoodRun(file: seq<byte>, windowSize: nat, w: World, steps: seq<Step>) {
    CanRun(|file|, windowSize, w, steps) && AllGood(file, windowSize, w, steps)
  }

  function Start(): World { World(map[], map[], map[]) }

  // ---------------------------------------------------------------------
  // The invariant
  // ---------------------------------------------------------------------

  /** The bytes are the file's bytes at that offset. */
  predicate SliceAt(file: seq<byte>, off: int, bytes: seq<byte>) {
    0 <= off && off + |bytes| <= |file| && bytes == file[off..off + |bytes|]
  }

  ghost predicate TrueBlocks(file: seq<byte>, cache: Blocks) {
    forall b | b in cache :: cache[b] != [] && SliceAt(file, b, cache[b])
  }

  /** What readers rely on. */
  predicate Aligned(file: seq<byte>, start: nat, win: Window) {
    win.readyTo == |win.buf| && win.total == |win.buf| && SliceAt(file, start, win.buf)
  }

  /** What holds at each point of fetchWindow whatever the bytes are. */
  predicate OnCourse(size: nat, windowSize: nat, f: Fetch) {
    match f.pc
    case AwaitSlot => f.requests == []
    case Top(a) => a <= MAX_RETRIES && |f.requests| <= a
    case Backoff(a) => a <= MAX_RETRIES && |f.requests| <= a
    case Look(a) => a <= MAX_RETRIES && |f.requests| <= a
    case CopyWhole(a) => a <= MAX_RETRIES && |f.requests| <= a
    case StoreWhole(a) => a <= MAX_RETRIES && |f.requests| <= a && f.win.buf != []
    case Prefill(a, c) => a <= MAX_RETRIES && |f.requests| <= a && c < WindowLen(size, windowSize, f.start)
    case Request(a, c) => a <= MAX_RETRIES && |f.requests| <= a && c < WindowLen(size, windowSize, f.start)
    case Body(a, _, _, _) => a <= MAX_RETRIES && |f.requests| <= a + 1
    case Store(a, _) => a <= MAX_RETRIES && |f.requests| <= a + 1
    case Decide(a, _) => a <= MAX_RETRIES && |f.requests| <= a + 1
    case MarkDone => f.win.buf != []
    case ReleaseSlot => f.win.err.Some? || f.win.buf != []
    case MarkEnd => f.win.err.Some? || f.win.buf != []
    case Ended => f.win.done && (f.win.err.Some? || f.win.buf != [])
  }

  /** What the buffer holds at each point. */
  ghost predicate HasBytes(file: seq<byte>, f: Fetch) {
    match f.pc
    case AwaitSlot => f.win.buf == []
    case Top(a) => a == 0 ==> f.win.buf == []
    case Backoff(_) => f.win.buf == []
    case Look(_) => f.win.buf == []
    case Prefill(_, _) => f.win.buf == []
    case Request(_, c) => |f.win.buf| == c
    case Body(_, c, read, rest) => |f.win.buf| == c + read && SliceAt(file, f.start + c + read, rest)
    case _ => true
  }

  /** The slot is held from the grant to the release. */
  predicate SlotHeld(pc: Pc) { !(pc.AwaitSlot? || pc.MarkEnd? || pc.Ended?) }

  ghost predicate SlotUse(f: Fetch) {
    && f.acquired <= 1 && f.released <= f.acquired
    && (f.pc.AwaitSlot? ==> f.acquired == 0)
    && (SlotHeld(f.pc) ==> f.acquired == 1 && f.released == 0)
    && (f.pc.MarkEnd? || f.pc.Ended? ==> f.released == f.acquired)
  }

  /** Every request asks for a nonempty range inside the window, up to its end or the
      file's. */
  ghost predicate RequestsInside(size: nat, windowSize: nat, f: Fetch) {
    && |f.requests| <= 1 + MAX_RETRIES
    && forall i | 0 <= i < |f.requests| ::
      && f.start <= f.requests[i].first <= f.requests[i].last
      && f.requests[i].last == (if f.start + windowSize < size then f.start + windowSize else size) - 1
  }

  /** The course of one fetcher: attempts, requests and slot. */
  ghost predicate ControlInv(size: nat, windowSize: nat, f: Fetch) {
    && f.start < size
    && OnCourse(size, windowSize, f)
    && SlotUse(f)
    && RequestsInside(size, windowSize, f)
  }

  /** And its bytes. */
  ghost predicate FetchInv(file: seq<byte>, windowSize: nat, f: Fetch) {
    ControlInv(|file|, windowSize, f) && Aligned(file, f.start, f.win) && HasBytes(file, f)
  }

  ghost predicate Controlled(size: nat, windowSize: nat, w: World) {
    && (forall id | id in w.fetches :: ControlInv(size, windowSize, w.fetches[id]))
    && (forall s | s in w.inflight :: w.inflight[s] in w.fetches && w.fetches[w.inflight[s]].start == s)
  }

  ghost predicate Inv(file: seq<byte>, windowSize: nat, w: World) {
    && Controlled(|file|, windowSize, w)
    && TrueBlocks(file, w.cache)
    && (forall id | id in w.fetches :: FetchInv(file, windowSize, w.fetches[id]))
  }

  // ---------------------------------------------------------------------
  // The course of a fetcher
  // ---------------------------------------------------------------------

  lemma SlotStepKeepsControl(size: nat, windowSize: nat, cache: Blocks, f: Fetch, fs: FetchStep)
    requires windowSize > 0 && ControlInv(size, windowSize, f) && FetchEnabled(size, windowSize, cache, f, fs)
    requires fs.SlotResult? || fs.SetDone? || fs.Release? || fs.Finish? || fs.PutAll? || fs.Put?
    ensures ControlInv(size, windowSize, Section(size, windowSize, cache, f, fs).1)
  {
  }

  lemma AttemptStepKeepsControl(size: nat, windowSize: nat, cache: Blocks, f: Fetch, fs: FetchStep)
    requires windowSize > 0 && ControlInv(size, windowSize, f) && FetchEnabled(size, windowSize, cache, f, fs)
    requires fs.BeginAttempt? || fs.EndBackoff? || fs.Lookup? || fs.Judge?
    ensures ControlInv(size, windowSize, Section(size, windowSize, cache, f, fs).1)
  {
  }

  lemma CopyStepKeepsControl(size: nat, windowSize: nat, cache: Blocks, f: Fetch, fs: FetchStep)
    requires windowSize > 0 && ControlInv(size, windowSize, f) && FetchEnabled(size, windowSize, cache, f, fs)
    requires fs.CopyAll? || fs.CopyPrefix? || fs.Read?
    ensures ControlInv(size, windowSize, Section(size, windowSize, cache, f, fs).1)
  {
  }

  lemma RespondKeepsControl(size: nat, windowSize: nat, cache: Blocks, f: Fetch, reply: Reply)
    requires windowSize > 0 && ControlInv(size, windowSize, f) &&
      FetchEnabled(size, windowSize, cache, f, Respond(reply))
    ensures ControlInv(size, windowSize, Section(size, windowSize, cache, f, Respond(reply)).1)
  {
    var range := Range(f.start + f.pc.cachedLen, WindowEnd(size, windowSize, f.start) - 1);
    var f' := Section(size, windowSize, cache, f, Respond(reply)).1;
    assert f'.requests == f.requests + [range];
    assert RequestsInside(size, windowSize, f');
  }

  lemma SectionKeepsControl(size: nat, windowSize: nat, cache: Blocks, f: Fetch, fs: FetchStep)
    requires windowSize > 0 && ControlInv(size, windowSize, f) && FetchEnabled(size, windowSize, cache, f, fs)
    ensures ControlInv(size, windowSize, Section(size, windowSize, cache, f, fs).1)
  {
    match fs {
      case Respond(reply) => RespondKeepsControl(size, windowSize, cache, f, reply);
      case Read(_, _, _) => CopyStepKeepsControl(size, windowSize, cache, f, fs);
      case CopyAll(_) => CopyStepKeepsControl(size, windowSize, cache, f, fs);
      case CopyPrefix(_) => CopyStepKeepsControl(size, windowSize, cache, f, fs);
      case BeginAttempt => AttemptStepKeepsControl(size, windowSize, cache, f, fs);
      case EndBackoff(_) => AttemptStepKeepsControl(size, windowSize, cache, f, fs);
      case Lookup => AttemptStepKeepsControl(size, windowSize, cache, f, fs);
      case Judge => AttemptStepKeepsControl(size, windowSize, cache, f, fs);
      case _ => SlotStepKeepsControl(size, windowSize, cache, f, fs);
    }
  }

  lemma SectionKeepsStart(size: nat, windowSize: nat, cache: Blocks, f: Fetch, fs: FetchStep)
    requires FetchEnabled(size, windowSize, cache, f, fs)
    ensures Section(size, windowSize, cache, f, fs).1.start == f.start
  {
  }

  lemma MarksKeepControl(size: nat, windowSize: nat, f: Fetch)
    requires ControlInv(size, windowSize, f)
    ensures ControlInv(size, windowSize, f.(ctxDone := true))
    ensures ControlInv(size, windowSize, f.(ctxDone := true, win := f.win.(done := true)))
  {
  }

  lemma UpdateKeepsControl(size: nat, windowSize: nat, w: World, cache: Blocks, id: nat, f: Fetch)
    requires Controlled(size, windowSize, w) && id in w.fetches
    requires ControlInv(size, windowSize, f) && f.start == w.fetches[id].start
    ensures Controlled(size, windowSize, w.(cache := cache, fetches := w.fetches[id := f]))
  {
  }

  lemma StepKeepsControl(size: nat, windowSize: nat, w: World, step: Step)
    requires windowSize > 0 && Controlled(size, windowSize, w) && Enabled(size, windowSize, w, step)
    ensures Controlled(size, windowSize, Apply(size, windowSize, w, step))
  {
    match step {
      case Run(id, fs) =>
        var f := w.fetches[id];
        SectionKeepsControl(size, windowSize, w.cache, f, fs);
        SectionKeepsStart(size, windowSize, w.cache, f, fs);
        var (cache, f') := Section(size, windowSize, w.cache, f, fs);
        UpdateKeepsControl(size, windowSize, w, cache, id, f');
      case Open(id, start) => assert ControlInv(size, windowSize, New(start));
      case CancelOne(start) => MarksKeepControl(size, windowSize, w.fetches[w.inflight[start]]);
      case CancelContext(id) => MarksKeepControl(size, windowSize, w.fetches[id]);
      case _ =>
    }
  }

  /** Every reachable fetcher is on course, with any server and any cache. */
  lemma {:induction false} RunKeepsControl(size: nat, windowSize: nat, w: World, steps: seq<Step>)
    requires windowSize > 0 && Controlled(size, windowSize, w) && CanRun(size, windowSize, w, steps)
    ensures Controlled(size, windowSize, Final(size, windowSize, w, steps))
    decreases |steps|
  {
    if steps != [] {
      StepKeepsControl(size, windowSize, w, steps[0]);
      RunKeepsControl(size, windowSize, Apply(size, windowSize, w, steps[0]), steps[1..]);
    }
  }

  // ---------------------------------------------------------------------
  // Preservation
  // ---------------------------------------------------------------------

  lemma SliceAppend(file: seq<byte>, off: int, a: seq<byte>, b: seq<byte>)
    requires SliceAt(file, off, a) && SliceAt(file, off + |a|, b)
    ensures SliceAt(file, off, a + b)
  {
  }

  lemma SlicePrefix(file: seq<byte>, off: int, a: seq<byte>, n: nat)
    requires SliceAt(file, off, a) && n <= |a|
    ensures SliceAt(file, off, a[..n]) && SliceAt(file, off + n, a[n..])
  {
  }

  lemma CopiedIsTrue(file: seq<byte>, cache: Blocks, off: nat, limit: nat, hit: Option<int>)
    requires TrueBlocks(file, cache) && off <= |file| && MayFind(cache, off, hit)
    ensures SliceAt(file, off, Copied(cache, off, limit, hit))
    ensures hit.Some? && limit > 0 ==> Copied(cache, off, limit, hit) != []
  {
    if hit.Some? {
      var b := hit.value;
      SlicePrefix(file, b, cache[b], off - b);
      SlicePrefix(file, off, cache[b][off - b..], Min(limit, |cache[b]| - (off - b)));
    }
  }

  lemma BodyIsTrue(file: seq<byte>, range: Range, reply: Reply)
    requires HonestReply(file, range, reply) && Accepted(reply, range.first)
    ensures SliceAt(file, range.first, reply.body)
  {
    if reply.status == 206 {
      assert reply.body == file[range.first..range.last + 1][..|reply.body|];
    }
  }

  /** A chunk of the requested bytes keeps the buffer aligned. */
  lemma ChunkKeepsAligned(file: seq<byte>, windowSize: nat, f: Fetch, n: nat)
    requires FetchInv(file, windowSize, f) && f.pc.Body? && n <= |f.pc.rest|
    ensures var win := if n > 0 then Appended(f.win, f.pc.rest[..n], f.pc.cachedLen, f.pc.totalRead) else f.win;
      Aligned(file, f.start, win) && |win.buf| == |f.win.buf| + n
    ensures SliceAt(file, f.start + |f.win.buf| + n, f.pc.rest[n..])
  {
    SlicePrefix(file, f.start + |f.win.buf|, f.pc.rest, n);
    SliceAppend(file, f.start, f.win.buf, f.pc.rest[..n]);
  }

  lemma ReadKeepsBytes(file: seq<byte>, windowSize: nat, cache: Blocks, f: Fetch, n: nat, end: ReadEnd, cancelled: bool)
    requires FetchInv(file, windowSize, f) && FetchEnabled(|file|, windowSize, cache, f, Read(n, end, cancelled))
    ensures var f' := Section(|file|, windowSize, cache, f, Read(n, end, cancelled)).1;
      Aligned(file, f'.start, f'.win) && HasBytes(file, f')
  {
    ChunkKeepsAligned(file, windowSize, f, n);
  }

  lemma RespondKeepsBytes(file: seq<byte>, windowSize: nat, cache: Blocks, f: Fetch, reply: Reply)
    requires FetchInv(file, windowSize, f) && FetchEnabled(|file|, windowSize, cache, f, Respond(reply))
    requires HonestReply(file, Range(f.start + f.pc.cachedLen, WindowEnd(|file|, windowSize, f.start) - 1), reply)
    ensures var f' := Section(|file|, windowSize, cache, f, Respond(reply)).1;
      Aligned(file, f'.start, f'.win) && HasBytes(file, f')
  {
    var range := Range(f.start + f.pc.cachedLen, WindowEnd(|file|, windowSize, f.start) - 1);
    if Accepted(reply, range.first) { BodyIsTrue(file, range, reply); }
  }

  lemma CopyKeepsBytes(file: seq<byte>, windowSize: nat, cache: Blocks, f: Fetch, fs: FetchStep)
    requires FetchInv(file, windowSize, f) && TrueBlocks(file, cache) && windowSize > 0
    requires FetchEnabled(|file|, windowSize, cache, f, fs) && (fs.CopyAll? || fs.CopyPrefix?)
    requires fs.CopyAll? ==>
      |Copied(cache, f.start, WindowLen(|file|, windowSize, f.start), fs.hit)| == WindowLen(|file|, windowSize, f.start)
    requires fs.CopyPrefix? && f.pc.cachedLen > 0 ==> |Copied(cache, f.start, f.pc.cachedLen, fs.hit)| == f.pc.cachedLen
    ensures var f' := Section(|file|, windowSize, cache, f, fs).1;
      Aligned(file, f'.start, f'.win) && HasBytes(file, f')
  {
    if fs.CopyAll? {
      var length := WindowLen(|file|, windowSize, f.start);
      CopiedIsTrue(file, cache, f.start, length, fs.hit);
      var win := WhollyFilled(f.win, length, Copied(cache, f.start, length, fs.hit));
      assert win.buf == Copied(cache, f.start, length, fs.hit);
    } else if f.pc.cachedLen > 0 {
      CopiedIsTrue(file, cache, f.start, f.pc.cachedLen, fs.hit);
    }
  }

  /** The sections that neither copy nor receive bytes. */
  lemma OtherSectionsKeepBytes(file: seq<byte>, windowSize: nat, cache: Blocks, f: Fetch, fs: FetchStep)
    requires FetchInv(file, windowSize, f) && FetchEnabled(|file|, windowSize, cache, f, fs) && windowSize > 0
    requires !fs.CopyAll? && !fs.CopyPrefix? && !fs.Respond? && !fs.Read?
    ensures var f' := Section(|file|, windowSize, cache, f, fs).1;
      Aligned(file, f'.start, f'.win) && HasBytes(file, f')
  {
    var f' := Section(|file|, windowSize, cache, f, fs).1;
    assert f'.win.buf == f.win.buf || f'.win.buf == [];
  }

  lemma SectionKeepsBytes(file: seq<byte>, windowSize: nat, cache: Blocks, f: Fetch, fs: FetchStep)
    requires windowSize > 0 && TrueBlocks(file, cache) && FetchInv(file, windowSize, f)
    requires FetchEnabled(|file|, windowSize, cache, f, fs)
    requires fs.Respond? ==>
      HonestReply(file, Range(f.start + f.pc.cachedLen, WindowEnd(|file|, windowSize, f.start) - 1), fs.reply)
    requires fs.CopyAll? ==>
      |Copied(cache, f.start, WindowLen(|file|, windowSize, f.start), fs.hit)| == WindowLen(|file|, windowSize, f.start)
    requires fs.CopyPrefix? && f.pc.cachedLen > 0 ==> |Copied(cache, f.start, f.pc.cachedLen, fs.hit)| == f.pc.cachedLen
    ensures var f' := Section(|file|, windowSize, cache, f, fs).1;
      Aligned(file, f'.start, f'.win) && HasBytes(file, f')
  {
    match fs {
      case Read(n, end, cancelled) => ReadKeepsBytes(file, windowSize, cache, f, n, end, cancelled);
      case Respond(reply) => RespondKeepsBytes(file, windowSize, cache, f, reply);
      case CopyAll(hit) => CopyKeepsBytes(file, windowSize, cache, f, fs);
      case CopyPrefix(hit) => CopyKeepsBytes(file, windowSize, cache, f, fs);
      case _ => OtherSectionsKeepBytes(file, windowSize, cache, f, fs);
    }
  }

  lemma FetchStepKeepsInv(file: seq<byte>, windowSize: nat, w: World, id: nat, fs: FetchStep)
    requires windowSize > 0 && Inv(file, windowSize, w) && Good(file, windowSize, w, Run(id, fs))
    ensures FetchInv(file, windowSize, Section(|file|, windowSize, w.cache, w.fetches[id], fs).1)
  {
    SectionKeepsControl(|file|, windowSize, w.cache, w.fetches[id], fs);
    SectionKeepsBytes(file, windowSize, w.cache, w.fetches[id], fs);
  }

  /** A fetcher caches only what its aligned buffer holds, at its own start. */
  lemma CacheStaysTrue(file: seq<byte>, windowSize: nat, cache: Blocks, f: Fetch, fs: FetchStep)
    requires TrueBlocks(file, cache) && Aligned(file, f.start, f.win)
    requires FetchEnabled(|file|, windowSize, cache, f, fs)
    ensures TrueBlocks(file, Section(|file|, windowSize, cache, f, fs).0)
    ensures Section(|file|, windowSize, cache, f, fs).1.start == f.start
  {
  }

  lemma StepKeepsInv(file: seq<byte>, windowSize: nat, w: World, step: Step)
    requires windowSize > 0 && Inv(file, windowSize, w) && Good(file, windowSize, w, step)
    ensures Inv(file, windowSize, Apply(|file|, windowSize, w, step))
  {
    StepKeepsControl(|file|, windowSize, w, step);
    match step {
      case Run(id, fs) =>
        FetchStepKeepsInv(file, windowSize, w, id, fs);
        CacheStaysTrue(file, windowSize, w.cache, w.fetches[id], fs);
      case Open(id, start) => OpenKeepsInv(file, windowSize, w, step);
      case CancelOne(start) => MarksKeepInv(file, windowSize, w.fetches[w.inflight[start]]);
      case CancelContext(id) => MarksKeepInv(file, windowSize, w.fetches[id]);
      case PutDirect(start, data) => PutKeepsTrueBlocks(file, w.cache, start, data);
      case _ =>
    }
  }

  lemma OpenKeepsInv(file: seq<byte>, windowSize: nat, w: World, step: Step)
    requires windowSize > 0 && Inv(file, windowSize, w) && step.Open? && Enabled(|file|, windowSize, w, step)
    requires Controlled(|file|, windowSize, Apply(|file|, windowSize, w, step))
    ensures Inv(file, windowSize, Apply(|file|, windowSize, w, step))
  {
    assert SliceAt(file, step.start, []);
    assert FetchInv(file, windowSize, New(step.start));
  }

  lemma PutKeepsTrueBlocks(file: seq<byte>, cache: Blocks, start: nat, data: seq<byte>)
    requires TrueBlocks(file, cache) && data != [] && SliceAt(file, start, data)
    ensures TrueBlocks(file, cache[start := data])
  {
  }

  lemma MarksKeepInv(file: seq<byte>, windowSize: nat, f: Fetch)
    requires FetchInv(file, windowSize, f)
    ensures FetchInv(file, windowSize, f.(ctxDone := true))
    ensures FetchInv(file, windowSize, f.(ctxDone := true, win := f.win.(done := true)))
  {
  }

  lemma {:induction false} RunKeepsInv(file: seq<byte>, windowSize: nat, w: World, steps: seq<Step>)
    requires windowSize > 0 && Inv(file, windowSize, w) && GoodRun(file, windowSize, w, steps)
    ensures Inv(file, windowSize, Final(|file|, windowSize, w, steps))
    decreases |steps|
  {
    if steps != [] {
      StepKeepsInv(file, windowSize, w, steps[0]);
      RunKeepsInv(file, windowSize, Apply(|file|, windowSize, w, steps[0]), steps[1..]);
    }
  }

  // ---------------------------------------------------------------------
  // What readers get
  // ---------------------------------------------------------------------

  /** The last section of waitForBytes, for an offset within the window: the bytes
      copied, or nothing when it reports an error. */
  function Take(win: Window, offInWin: nat, length: nat): (r: Option<seq<byte>>)
    requires win.readyTo <= |win.buf|
  {
    var avail := win.readyTo - offInWin;
    if win.err.Some? || avail <= 0 then None
    else Some(win.buf[offInWin..offInWin + Min(avail, length)])
  }

  lemma TakeIsTrue(file: seq<byte>, start: nat, win: Window, off: nat, length: nat)
    requires Aligned(file, start, win) && start <= off && length > 0
    ensures Take(win, off - start, length).Some? ==>
      var bytes := Take(win, off - start, length).value;
      0 < |bytes| <= length && SliceAt(file, off, bytes)
  {
    var n := Min(win.readyTo - (off - start), length);
    if Take(win, off - start, length).Some? {
      SlicePrefix(file, start, win.buf, off - start);
      SlicePrefix(file, off, win.buf[off - start..], n);
      assert win.buf[off - start..][..n] == win.buf[off - start..off - start + n];
    }
  }

  /** In every reachable world, whatever the fetchers, the retries and the
      cancellations did, no reader copies past the buffer or copies a wrong byte. */
  lemma ReadersGetFileBytes(file: seq<byte>, windowSize: nat, steps: seq<Step>, id: nat, off: nat, length: nat)
    requires windowSize > 0 && GoodRun(file, windowSize, Start(), steps)
    requires id in Final(|file|, windowSize, Start(), steps).fetches
    requires Final(|file|, windowSize, Start(), steps).fetches[id].start <= off && length > 0
    ensures var f := Final(|file|, windowSize, Start(), steps).fetches[id];
      && f.win.readyTo == |f.win.buf|
      && (Take(f.win, off - f.start, length).Some? ==>
            var bytes := Take(f.win, off - f.start, length).value;
            0 < |bytes| <= length && SliceAt(file, off, bytes))
  {
    RunKeepsInv(file, windowSize, Start(), steps);
    var f := Final(|file|, windowSize, Start(), steps).fetches[id];
    TakeIsTrue(file, f.start, f.win, off, length);
  }

  /** Every fetcher makes at most four requests, each for a nonempty range inside
      its window and the file; it returns its slot exactly once if it got one; and
      it ends with the window done and an error or some bytes. This needs no
      assumption on the server or the cache. */
  lemma FetchersAreBounded(size: nat, windowSize: nat, steps: seq<Step>, id: nat)
    requires windowSize > 0 && CanRun(size, windowSize, Start(), steps)
    requires id in Final(size, windowSize, Start(), steps).fetches
    ensures var f := Final(size, windowSize, Start(), steps).fetches[id];
      && |f.requests| <= 4
      && (forall r | r in f.requests ::
            && f.start <= r.first <= r.last
            && r.last == (if f.start + windowSize < size then f.start + windowSize else size) - 1)
      && f.released <= f.acquired <= 1
      && (f.pc.Ended? ==> f.released == f.acquired && f.win.done && (f.win.err.Some? || f.win.buf != []))
  {
    RunKeepsControl(size, windowSize, Start(), steps);
  }

  // ---------------------------------------------------------------------
  // Why a fetcher tries again, and why it ends
  // ---------------------------------------------------------------------

  /** An attempt after which another one makes sense: a reply of status 429 or 5xx, a
      full response where a part was asked for, an error other than a cancellation, a
      body that broke off or that left nothing in the buffer. */
  predicate Unlucky(o: Outcome) {
    match o
    case Refused(Http(status, _)) => status == 200 || status == 429 || 500 <= status <= 599
    case Refused(Failure(cancelled)) => !cancelled
    case Streamed(held, end) => held == 0 || end == Broken
    case FromCache(_) => false
  }

  /** An attempt that has filled the window, or the part of it read before a
      cancellation. */
  predicate Delivered(o: Outcome) {
    match o
    case Refused(_) => false
    case Streamed(held, end) => held > 0 && end != Broken
    case FromCache(held) => held > 0
  }

  /** A part, and the whole from offset 0, are never refused. */
  predicate RightlyRefused(f: Fetch) {
    && |f.outcomes| <= |f.requests| + 1
    && forall i | 0 <= i < |f.outcomes| && f.outcomes[i].Refused? && f.outcomes[i].reply.Http? ::
         i < |f.requests| && f.outcomes[i].reply.status != 206 &&
         (f.outcomes[i].reply.status == 200 ==> f.requests[i].first > 0)
  }

  /** Reading stops before the body's end only if it breaks or the fetch was cancelled. */
  predicate RightlyStopped(f: Fetch) {
    forall i | 0 <= i < |f.outcomes| && f.outcomes[i].Streamed? && f.outcomes[i].end == More :: f.ctxDone
  }

  /** `n` attempts are over, and none of the first `k` was the last one by rights. */
  predicate Tried(f: Fetch, n: nat, k: nat) {
    |f.outcomes| == n && k <= n && forall i | 0 <= i < k :: Unlucky(f.outcomes[i])
  }

  /** The error says how the last attempt went. */
  predicate RightError(f: Fetch) {
    var n := |f.outcomes|;
    match f.win.err
    case None => true
    case Some(Cancelled) => f.ctxDone
    case Some(FetchFailed) => n > 0 && f.outcomes[n - 1].Refused?
    case Some(StreamFailed) => n > 0 && f.outcomes[n - 1].Streamed? && f.outcomes[n - 1].end == Broken
    case Some(NoData) => n > 0 && f.outcomes[n - 1].Streamed? && f.outcomes[n - 1].end != Broken
  }

  /** What a fetcher that is through has to show for itself. */
  predicate WellFounded(f: Fetch) {
    var n := |f.outcomes|;
    && n <= 4
    && (forall i | 0 <= i < n - 1 :: Unlucky(f.outcomes[i]))
    && (f.win.err.None? ==> n > 0 && Delivered(f.outcomes[n - 1]))
    && (f.win.err.Some? ==>
          || f.ctxDone
          || (n == 4 && Unlucky(f.outcomes[3]))
          || (n > 0 && f.outcomes[n - 1].Refused? && !Unlucky(f.outcomes[n - 1])))
    && RightError(f)
  }

  /** A window is done only if its fetcher is through, or was cancelled; and nobody
      cancels a window that is not done or does not become so at once. */
  predicate RightlyDone(f: Fetch) {
    && (f.win.done ==> f.ctxDone || f.pc.ReleaseSlot? || f.pc.MarkEnd? || f.pc.Ended?)
    && (f.ctxDone ==> f.win.done)
  }

  ghost predicate Reported(f: Fetch) {
    && RightlyRefused(f) && RightlyStopped(f) && RightlyDone(f)
    && (f.pc.Body? || f.pc.ReleaseSlot? || f.pc.MarkEnd? || f.pc.Ended? || f.win.err.None?)
    && match f.pc
       case AwaitSlot => Tried(f, 0, 0) && f.requests == []
       case Top(a) => Tried(f, a, a) && |f.requests| == a
       case Backoff(a) => Tried(f, a, a) && |f.requests| == a
       case Look(a) => Tried(f, a, a) && |f.requests| == a
       case CopyWhole(a) => Tried(f, a, a) && |f.requests| == a
       case StoreWhole(a) => Tried(f, a + 1, a) && f.outcomes[a] == FromCache(|f.win.buf|)
       case Prefill(a, _) => Tried(f, a, a) && |f.requests| == a
       case Request(a, _) => Tried(f, a, a) && |f.requests| == a
       case Body(a, _, _, _) => Tried(f, a, a) && |f.requests| == a + 1 && f.win.err.None?
       case Store(a, success) => StreamedNow(f, a, success)
       case Decide(a, success) => StreamedNow(f, a, success)
       case MarkDone => |f.outcomes| <= 4 && f.outcomes != [] && Tried(f, |f.outcomes|, |f.outcomes| - 1) &&
         Delivered(f.outcomes[|f.outcomes| - 1])
       case _ => WellFounded(f)
  }

  ghost predicate StreamedNow(f: Fetch, a: nat, success: bool) {
    && Tried(f, a + 1, a) && |f.requests| == a + 1 && f.outcomes[a].Streamed?
    && f.outcomes[a].held == |f.win.buf| && (success <==> f.outcomes[a].end != Broken)
  }

  lemma AcceptReports(size: nat, windowSize: nat, cache: Blocks, f: Fetch, reply: Reply)
    requires Reported(f) && OnCourse(size, windowSize, f) && FetchEnabled(size, windowSize, cache, f, Respond(reply))
    requires Accepted(reply, f.start + f.pc.cachedLen)
    ensures Reported(Section(size, windowSize, cache, f, Respond(reply)).1)
  {
    var f' := Section(size, windowSize, cache, f, Respond(reply)).1;
    assert forall i | 0 <= i < |f.requests| :: f'.requests[i] == f.requests[i];
  }

  /** An attempt that failed: another one follows if it was unlucky and not the fourth. */
  lemma FailReports(f: Fetch, a: nat, err: Error, retry: bool)
    requires a <= MAX_RETRIES && RightlyRefused(f) && RightlyStopped(f) && f.win.err.None?
    requires f.win.done <==> f.ctxDone
    requires Tried(f, a + 1, a) && |f.requests| == a + 1 && (retry <==> Unlucky(f.outcomes[a]))
    requires match f.outcomes[a]
             case Refused(_) => err == FetchFailed
             case Streamed(_, end) => retry && err == if end == Broken then StreamFailed else NoData
             case FromCache(_) => false
    ensures Reported(Fail(f, a, err, retry))
  {
  }

  lemma RefuseReports(size: nat, windowSize: nat, cache: Blocks, f: Fetch, reply: Reply)
    requires Reported(f) && OnCourse(size, windowSize, f) && FetchEnabled(size, windowSize, cache, f, Respond(reply))
    requires !Accepted(reply, f.start + f.pc.cachedLen)
    ensures Reported(Section(size, windowSize, cache, f, Respond(reply)).1)
  {
    var range := Range(f.start + f.pc.cachedLen, WindowEnd(size, windowSize, f.start) - 1);
    NoteRefusal(f, range, reply);
    FailReports(Noted(f, range, reply), f.pc.attempt, FetchFailed, Retryable(reply));
    assert Section(size, windowSize, cache, f, Respond(reply)).1 ==
      Fail(Noted(f, range, reply), f.pc.attempt, FetchFailed, Retryable(reply));
  }

  function Noted(f: Fetch, range: Range, reply: Reply): Fetch {
    f.(requests := f.requests + [range], received := f.received + [0], outcomes := f.outcomes + [Refused(reply)])
  }

  lemma NoteRefusal(f: Fetch, range: Range, reply: Reply)
    requires Reported(f) && f.pc.Request? && !Accepted(reply, range.first)
    ensures var g, a := Noted(f, range, reply), f.pc.attempt;
      && RightlyRefused(g) && RightlyStopped(g) && g.win.err.None? && (g.win.done <==> g.ctxDone)
      && Tried(g, a + 1, a) && |g.requests| == a + 1 && g.outcomes[a] == Refused(reply)
  {
    var g := Noted(f, range, reply);
    assert forall i | 0 <= i < |f.requests| :: g.requests[i] == f.requests[i];
    assert forall i | 0 <= i < |f.outcomes| :: g.outcomes[i] == f.outcomes[i];
  }

  lemma ReadReports(size: nat, windowSize: nat, cache: Blocks, f: Fetch, fs: FetchStep)
    requires Reported(f) && OnCourse(size, windowSize, f) && FetchEnabled(size, windowSize, cache, f, fs)
    requires fs.Read?
    ensures Reported(Section(size, windowSize, cache, f, fs).1)
  {
    var f' := Section(size, windowSize, cache, f, fs).1;
    assert forall i | 0 <= i < |f.outcomes| :: f'.outcomes[i] == f.outcomes[i];
  }

  lemma CopyReports(size: nat, windowSize: nat, cache: Blocks, f: Fetch, fs: FetchStep)
    requires Reported(f) && OnCourse(size, windowSize, f) && FetchEnabled(size, windowSize, cache, f, fs)
    requires fs.CopyAll?
    ensures Reported(Section(size, windowSize, cache, f, fs).1)
  {
    var f' := Section(size, windowSize, cache, f, fs).1;
    assert forall i | 0 <= i < |f.outcomes| :: f'.outcomes[i] == f.outcomes[i];
  }

  lemma SlotReports(size: nat, windowSize: nat, cache: Blocks, f: Fetch, fs: FetchStep)
    requires Reported(f) && OnCourse(size, windowSize, f) && FetchEnabled(size, windowSize, cache, f, fs)
    requires fs.SlotResult? || fs.Release? || fs.Finish?
    ensures Reported(Section(size, windowSize, cache, f, fs).1)
  {
  }

  lemma DoneReports(size: nat, windowSize: nat, cache: Blocks, f: Fetch, fs: FetchStep)
    requires Reported(f) && OnCourse(size, windowSize, f) && FetchEnabled(size, windowSize, cache, f, fs)
    requires fs.SetDone?
    ensures Reported(Section(size, windowSize, cache, f, fs).1)
  {
  }

  lemma AttemptReports(size: nat, windowSize: nat, cache: Blocks, f: Fetch, fs: FetchStep)
    requires Reported(f) && OnCourse(size, windowSize, f) && FetchEnabled(size, windowSize, cache, f, fs)
    requires fs.BeginAttempt? || fs.EndBackoff? || fs.Lookup? || fs.CopyPrefix?
    ensures Reported(Section(size, windowSize, cache, f, fs).1)
  {
  }

  lemma JudgeReports(size: nat, windowSize: nat, cache: Blocks, f: Fetch, fs: FetchStep)
    requires Reported(f) && OnCourse(size, windowSize, f) && FetchEnabled(size, windowSize, cache, f, fs)
    requires fs.Judge?
    ensures Reported(Section(size, windowSize, cache, f, fs).1)
  {
    if !(f.pc.success && f.win.buf != []) {
      FailReports(f, f.pc.attempt, if f.pc.success then NoData else StreamFailed, true);
    }
  }

  lemma PutReports(size: nat, windowSize: nat, cache: Blocks, f: Fetch, fs: FetchStep)
    requires Reported(f) && OnCourse(size, windowSize, f) && FetchEnabled(size, windowSize, cache, f, fs)
    requires fs.Put? || fs.PutAll?
    ensures Reported(Section(size, windowSize, cache, f, fs).1)
  {
  }

  lemma SectionReports(size: nat, windowSize: nat, cache: Blocks, f: Fetch, fs: FetchStep)
    requires Reported(f) && OnCourse(size, windowSize, f) && FetchEnabled(size, windowSize, cache, f, fs)
    ensures Reported(Section(size, windowSize, cache, f, fs).1)
  {
    match fs {
      case Respond(reply) =>
        if Accepted(reply, f.start + f.pc.cachedLen) { AcceptReports(size, windowSize, cache, f, reply); }
        else { RefuseReports(size, windowSize, cache, f, reply); }
      case Read(_, _, _) => ReadReports(size, windowSize, cache, f, fs);
      case CopyAll(_) => CopyReports(size, windowSize, cache, f, fs);
      case Put => PutReports(size, windowSize, cache, f, fs);
      case PutAll => PutReports(size, windowSize, cache, f, fs);
      case Judge => JudgeReports(size, windowSize, cache, f, fs);
      case BeginAttempt => AttemptReports(size, windowSize, cache, f, fs);
      case EndBackoff(_) => AttemptReports(size, windowSize, cache, f, fs);
      case SetDone => DoneReports(size, windowSize, cache, f, fs);
      case Lookup => AttemptReports(size, windowSize, cache, f, fs);
      case CopyPrefix(_) => AttemptReports(size, windowSize, cache, f, fs);
      case _ => SlotReports(size, windowSize, cache, f, fs);
    }
  }

  lemma MarksReport(f: Fetch)
    requires Reported(f)
    ensures f.win.done ==> Reported(f.(ctxDone := true))
    ensures Reported(f.(ctxDone := true, win := f.win.(done := true)))
  {
  }

  ghost predicate AllReported(w: World) { forall id | id in w.fetches :: Reported(w.fetches[id]) }

  lemma UpdateReports(w: World, cache: Blocks, id: nat, f: Fetch)
    requires AllReported(w) && Reported(f)
    ensures AllReported(w.(cache := cache, fetches := w.fetches[id := f]))
  {
  }

  lemma StepReports(size: nat, windowSize: nat, w: World, step: Step)
    requires windowSize > 0 && Controlled(size, windowSize, w) && AllReported(w) && Enabled(size, windowSize, w, step)
    ensures AllReported(Apply(size, windowSize, w, step))
  {
    match step {
      case Run(id, fs) =>
        assert ControlInv(size, windowSize, w.fetches[id]);
        SectionReports(size, windowSize, w.cache, w.fetches[id], fs);
        var (cache, f) := Section(size, windowSize, w.cache, w.fetches[id], fs);
        UpdateReports(w, cache, id, f);
      case Open(id, start) => assert Reported(New(start));
      case CancelOne(start) => MarksReport(w.fetches[w.inflight[start]]);
      case CancelContext(id) => MarksReport(w.fetches[id]);
      case _ =>
    }
  }

  lemma {:induction false} RunReports(size: nat, windowSize: nat, w: World, steps: seq<Step>)
    requires windowSize > 0 && Controlled(size, windowSize, w) && AllReported(w) && CanRun(size, windowSize, w, steps)
    ensures AllReported(Final(size, windowSize, w, steps))
    decreases |steps|
  {
    if steps != [] {
      StepKeepsControl(size, windowSize, w, steps[0]);
      StepReports(size, windowSize, w, steps[0]);
      RunReports(size, windowSize, Apply(size, windowSize, w, steps[0]), steps[1..]);
    }
  }

  /** With any server and any cache: no attempt follows one that was not unlucky, so a
      final status or a full window is the end of it; a window is done only at the end
      or after a cancellation; and a fetcher that has ended
      has a filled window as its last outcome if it carries no error, and otherwise was
      cancelled, or made exactly four unlucky attempts, or got a final reply. A part,
      and the whole from offset 0, are never refused. */
  lemma FetchersEndForAReason(size: nat, windowSize: nat, steps: seq<Step>, id: nat)
    requires windowSize > 0 && CanRun(size, windowSize, Start(), steps)
    requires id in Final(size, windowSize, Start(), steps).fetches
    ensures var f := Final(size, windowSize, Start(), steps).fetches[id];
      && RightlyRefused(f) && RightlyStopped(f) && RightlyDone(f) && |f.outcomes| <= 4
      && (forall i | 0 <= i < |f.outcomes| - 1 :: Unlucky(f.outcomes[i]))
      && (f.pc.Ended? ==> WellFounded(f))
  {
    RunKeepsControl(size, windowSize, Start(), steps);
    RunReports(size, windowSize, Start(), steps);
    var f := Final(size, windowSize, Start(), steps).fetches[id];
    assert ControlInv(size, windowSize, f) && Reported(f);
  }

  // ---------------------------------------------------------------------
  // One fetcher for a window
  // ---------------------------------------------------------------------

  /** The fetcher is still at work: it is not through and nobody has cancelled it. */
  predicate AtWork(f: Fetch) { !Through(f) && !f.ctxDone }

  /** Whoever is at work is the one registered for its window. */
  ghost predicate Registered(w: World) {
    forall id | id in w.fetches && AtWork(w.fetches[id]) ::
      w.fetches[id].start in w.inflight && w.inflight[w.fetches[id].start] == id
  }

  lemma SectionKeepsThrough(size: nat, windowSize: nat, cache: Blocks, f: Fetch, fs: FetchStep)
    requires FetchEnabled(size, windowSize, cache, f, fs)
    ensures Through(f) ==> Through(Section(size, windowSize, cache, f, fs).1)
    ensures Section(size, windowSize, cache, f, fs).1.ctxDone == f.ctxDone
  {
  }

  lemma StepKeepsRegistered(size: nat, windowSize: nat, w: World, step: Step)
    requires Controlled(size, windowSize, w) && AllReported(w) && Registered(w) && Enabled(size, windowSize, w, step)
    ensures Registered(Apply(size, windowSize, w, step))
  {
    match step {
      case Run(id, fs) =>
        SectionKeepsThrough(size, windowSize, w.cache, w.fetches[id], fs);
        SectionKeepsStart(size, windowSize, w.cache, w.fetches[id], fs);
      case Open(id, start) =>
        if start in w.inflight { assert Reported(w.fetches[w.inflight[start]]); }
      case _ =>
    }
  }

  lemma {:induction false} RunKeepsRegistered(size: nat, windowSize: nat, w: World, steps: seq<Step>)
    requires windowSize > 0 && Controlled(size, windowSize, w) && AllReported(w) && Registered(w)
    requires CanRun(size, windowSize, w, steps)
    ensures Registered(Final(size, windowSize, w, steps))
    decreases |steps|
  {
    if steps != [] {
      StepKeepsControl(size, windowSize, w, steps[0]);
      StepReports(size, windowSize, w, steps[0]);
      StepKeepsRegistered(size, windowSize, w, steps[0]);
      RunKeepsRegistered(size, windowSize, Apply(size, windowSize, w, steps[0]), steps[1..]);
    }
  }

  /** In every reachable state at most one fetcher is at work on a window: everybody
      else who wants it joins that one. */
  lemma OneFetcherPerWindow(size: nat, windowSize: nat, steps: seq<Step>, a: nat, b: nat)
    requires windowSize > 0 && CanRun(size, windowSize, Start(), steps)
    requires a in Final(size, windowSize, Start(), steps).fetches
    requires b in Final(size, windowSize, Start(), steps).fetches
    ensures var fa := Final(size, windowSize, Start(), steps).fetches[a];
      var fb := Final(size, windowSize, Start(), steps).fetches[b];
      fa.start == fb.start && AtWork(fa) && AtWork(fb) ==> a == b
  {
    RunKeepsRegistered(size, windowSize, Start(), steps);
  }

  // ---------------------------------------------------------------------
  // The promised prefix length is needed
  // ---------------------------------------------------------------------

  /** The fetch after a prefix copy, an accepted 206 reply and its first chunk. */
  function AfterFirstChunk(size: nat, windowSize: nat, cache: Blocks, f: Fetch, hit: Option<int>, reply: Reply, n: nat,
                           end: ReadEnd): Fetch
    requires f.pc.Prefill? && MayFind(cache, f.start, hit)
    requires reply.Http? && reply.status == 206 && n <= |reply.body| && n <= READ_CHUNK &&
      (end == Eof ==> n == |reply.body|)
  {
    var f1 := Section(size, windowSize, cache, f, CopyPrefix(hit)).1;
    var f2 := Section(size, windowSize, cache, f1, Respond(reply)).1;
    Section(size, windowSize, cache, f2, Read(n, end, false)).1
  }

  lemma FirstChunkWindow(size: nat, windowSize: nat, cache: Blocks, f: Fetch, hit: Option<int>, reply: Reply, n: nat,
                         end: ReadEnd)
    requires f.pc.Prefill? && f.pc.cachedLen > 0 && MayFind(cache, f.start, hit)
    requires reply.Http? && reply.status == 206 && 0 < n <= |reply.body| && n <= READ_CHUNK &&
      (end == Eof ==> n == |reply.body|)
    ensures var f3 := AfterFirstChunk(size, windowSize, cache, f, hit, reply, n, end);
      && f3.start == f.start && f3.win.buf == Copied(cache, f.start, f.pc.cachedLen, hit) + reply.body[..n]
      && f3.win.total == |f3.win.buf| && f3.win.readyTo == f.pc.cachedLen + n
  {
  }

  /** After a prefix copy and the first chunk, the window is aligned with the file
      exactly when the copy delivered the promised length. */
  lemma AlignedIffPromiseKept(file: seq<byte>, windowSize: nat, cache: Blocks, f: Fetch, hit: Option<int>,
                              reply: Reply, n: nat, end: ReadEnd)
    requires windowSize > 0 && TrueBlocks(file, cache) && FetchInv(file, windowSize, f)
    requires f.pc.Prefill? && f.pc.cachedLen > 0 && MayFind(cache, f.start, hit)
    requires reply.Http? && reply.status == 206 && 0 < n <= |reply.body| && n <= READ_CHUNK
    requires end == Eof ==> n == |reply.body|
    requires HonestReply(file, Range(f.start + f.pc.cachedLen, WindowEnd(|file|, windowSize, f.start) - 1), reply)
    ensures
      var f3 := AfterFirstChunk(|file|, windowSize, cache, f, hit, reply, n, end);
      Aligned(file, f3.start, f3.win) <==> |Copied(cache, f.start, f.pc.cachedLen, hit)| == f.pc.cachedLen
  {
    var range := Range(f.start + f.pc.cachedLen, WindowEnd(|file|, windowSize, f.start) - 1);
    var prefix := Copied(cache, f.start, f.pc.cachedLen, hit);
    FirstChunkWindow(|file|, windowSize, cache, f, hit, reply, n, end);
    BodyIsTrue(file, range, reply);
    CopiedIsTrue(file, cache, f.start, f.pc.cachedLen, hit);
    SlicePrefix(file, range.first, reply.body, n);
    if |prefix| == f.pc.cachedLen { SliceAppend(file, f.start, prefix, reply.body[..n]); }
  }

  /** The same for a window found wholly cached. */
  lemma WholeAlignedIffPromiseKept(file: seq<byte>, windowSize: nat, cache: Blocks, f: Fetch, hit: Option<int>)
    requires windowSize > 0 && TrueBlocks(file, cache) && FetchInv(file, windowSize, f)
    requires f.pc.CopyWhole? && MayFind(cache, f.start, hit)
    ensures
      var length := WindowLen(|file|, windowSize, f.start);
      var f' := Section(|file|, windowSize, cache, f, CopyAll(hit)).1;
      Aligned(file, f'.start, f'.win) <==> |Copied(cache, f.start, length, hit)| == length
  {
    var length := WindowLen(|file|, windowSize, f.start);
    var copied := Copied(cache, f.start, length, hit);
    CopiedIsTrue(file, cache, f.start, length, hit);
    if |copied| == length { assert WhollyFilled(f.win, length, copied).buf == copied; }
  }

  /** The promise is kept when the promised block is still there and no other block
      reaches across the window's start. */
  lemma UndisturbedBlockKeepsPromise(cache: Blocks, start: nat, n: nat, hit: Option<int>)
    requires start in cache && 0 < n <= |cache[start]| && MayFind(cache, start, hit)
    requires forall b | b in cache && b != start :: !Contains(cache, b, start)
    ensures |Copied(cache, start, n, hit)| == n
  {
    assert Contains(cache, start, start);
  }

  /** It is broken whenever the promised block is evicted before the copy and
      nothing else covers the start: the first chunk then leaves `readyTo` beyond
      the end of the buffer, with the chunk at the wrong place. */
  lemma EvictionBreaksAlignment(file: seq<byte>, windowSize: nat, cache: Blocks, f: Fetch, chunk: seq<byte>)
    requires windowSize > 0 && FetchInv(file, windowSize, f) && f.pc.Prefill? && f.pc.cachedLen > 0
    requires MayFind(cache, f.start, None)
    requires 0 < |chunk| <= READ_CHUNK
    ensures
      var f3 := AfterFirstChunk(|file|, windowSize, cache, f, None, Http(206, chunk), |chunk|, Eof);
      f3.win.buf == chunk && f3.win.readyTo == f.pc.cachedLen + |chunk| > |f3.win.buf|
  {
    FirstChunkWindow(|file|, windowSize, cache, f, None, Http(206, chunk), |chunk|, Eof);
    assert chunk[..|chunk|] == chunk;
    assert [] + chunk == chunk;
  }

  lemma GoodCons(file: seq<byte>, windowSize: nat, w: World, step: Step, rest: seq<Step>)
    requires Good(file, windowSize, w, step) && GoodRun(file, windowSize, Apply(|file|, windowSize, w, step), rest)
    ensures GoodRun(file, windowSize, w, [step] + rest)
    ensures Final(|file|, windowSize, w, [step] + rest) ==
      Final(|file|, windowSize, Apply(|file|, windowSize, w, step), rest)
  {
    assert ([step] + rest)[1..] == rest;
  }

  /** A run that meets every assumption and leaves a fetcher with a promise about a
      block that is gone. */
  function BrokenPromise(file: seq<byte>): seq<Step>
    requires file != []
  {
    [PutDirect(0, file[..1])] + ([Open(0, 0)] + ([Run(0, SlotResult(true))] +
      ([Run(0, BeginAttempt)] + ([Run(0, Lookup)] + ([Evict(0)] + [])))))
  }

  lemma PromiseBreaks(file: seq<byte>, windowSize: nat)
    requires windowSize > 1 && |file| > 1
    ensures GoodRun(file, windowSize, Start(), BrokenPromise(file))
    ensures Final(|file|, windowSize, Start(), BrokenPromise(file)) ==
      World(map[], map[0 := New(0).(acquired := 1, pc := Prefill(0, 1))], map[0 := 0])
  {
    var f := New(0);
    var w1 := World(map[0 := file[..1]], map[], map[]);
    var w2 := w1.(fetches := map[0 := f], inflight := map[0 := 0]);
    var w3 := w2.(fetches := map[0 := f.(acquired := 1, pc := Top(0))]);
    var w4 := w2.(fetches := map[0 := f.(acquired := 1, pc := Look(0))]);
    var w5 := w2.(fetches := map[0 := f.(acquired := 1, pc := Prefill(0, 1))]);
    assert Apply(|file|, windowSize, w4, Run(0, Lookup)).fetches == w5.fetches;
    assert Apply(|file|, windowSize, w5, Evict(0)).cache == map[];
    GoodCons(file, windowSize, w5, Evict(0), []);
    GoodCons(file, windowSize, w4, Run(0, Lookup), [Evict(0)] + []);
    assert Apply(|file|, windowSize, w3, Run(0, BeginAttempt)).fetches == w4.fetches;
    GoodCons(file, windowSize, w3, Run(0, BeginAttempt), [Run(0, Lookup)] + ([Evict(0)] + []));
    assert Apply(|file|, windowSize, w2, Run(0, SlotResult(true))).fetches == w3.fetches;
    GoodCons(file, windowSize, w2, Run(0, SlotResult(true)),
      [Run(0, BeginAttempt)] + ([Run(0, Lookup)] + ([Evict(0)] + [])));
    GoodCons(file, windowSize, w1, Open(0, 0),
      [Run(0, SlotResult(true))] + ([Run(0, BeginAttempt)] + ([Run(0, Lookup)] + ([Evict(0)] + []))));
    GoodCons(file, windowSize, Start(), PutDirect(0, file[..1]),
      [Open(0, 0)] + ([Run(0, SlotResult(true))] + ([Run(0, BeginAttempt)] + ([Run(0, Lookup)] + ([Evict(0)] + [])))));
  }

  /** From there an honest reply leaves the window with the file's second byte in the
      place of its first, and two bytes announced where the buffer has one. Such a
      run exists for every file and window of more than one byte. */
  lemma AlignmentCanBreak(file: seq<byte>, windowSize: nat)
    requires windowSize > 1 && |file| > 1
    ensures GoodRun(file, windowSize, Start(), BrokenPromise(file))
    ensures HonestReply(file, Range(1, WindowEnd(|file|, windowSize, 0) - 1), Http(206, file[1..2]))
    ensures var w := Final(|file|, windowSize, Start(), BrokenPromise(file));
      && 0 in w.fetches && w.fetches[0].start == 0 && w.fetches[0].pc == Prefill(0, 1) && MayFind(w.cache, 0, None)
      && AfterFirstChunk(|file|, windowSize, w.cache, w.fetches[0], None, Http(206, file[1..2]), 1, Eof).win ==
           Window([file[1]], 2, 1, None, false)
  {
    PromiseBreaks(file, windowSize);
    SecondBytePlacedFirst(file, windowSize);
    assert file[1..2] <= file[1..WindowEnd(|file|, windowSize, 0)];
  }

  lemma SecondBytePlacedFirst(file: seq<byte>, windowSize: nat)
    requires |file| > 1
    ensures var f := New(0).(acquired := 1, pc := Prefill(0, 1));
      AfterFirstChunk(|file|, windowSize, map[], f, None, Http(206, file[1..2]), 1, Eof).win ==
        Window([file[1]], 2, 1, None, false)
  {
    var f := New(0).(acquired := 1, pc := Prefill(0, 1));
    FirstChunkWindow(|file|, windowSize, map[], f, None, Http(206, file[1..2]), 1, Eof);
    assert file[1..2] == [file[1]];
  }

  // ---------------------------------------------------------------------
  // Zeros in the cache
  // ---------------------------------------------------------------------

  function Zeros(n: nat): (r: seq<byte>)
    ensures |r| == n
  {
    seq(n, _ => 0)
  }

  /** The cache after the whole-window copy has been stored. */
  function AfterWholeStore(size: nat, windowSize: nat, cache: Blocks, f: Fetch, hit: Option<int>): Blocks
    requires f.pc.CopyWhole? && MayFind(cache, f.start, hit) && WindowLen(size, windowSize, f.start) >= 0
  {
    Section(size, windowSize, cache, Section(size, windowSize, cache, f, CopyAll(hit)).1, PutAll).0
  }

  lemma WholeStoreIs(size: nat, windowSize: nat, cache: Blocks, f: Fetch, hit: Option<int>)
    requires f.pc.CopyWhole? && MayFind(cache, f.start, hit) && WindowLen(size, windowSize, f.start) > 0
    ensures var length := WindowLen(size, windowSize, f.start);
      var copied := Copied(cache, f.start, length, hit);
      AfterWholeStore(size, windowSize, cache, f, hit) == cache[f.start := copied + Zeros(length - |copied|)]
  {
  }

  /** The buffer goes back into the cache as long as it was allocated, however little
      was copied into it: the cache stays true exactly if the file itself has zeros
      where nothing was copied. */
  lemma WholeStoreIsTrueIff(file: seq<byte>, windowSize: nat, cache: Blocks, f: Fetch, hit: Option<int>)
    requires windowSize > 0 && TrueBlocks(file, cache) && FetchInv(file, windowSize, f)
    requires f.pc.CopyWhole? && MayFind(cache, f.start, hit)
    ensures
      var length := WindowLen(|file|, windowSize, f.start);
      var n := |Copied(cache, f.start, length, hit)|;
      TrueBlocks(file, AfterWholeStore(|file|, windowSize, cache, f, hit)) <==>
        file[f.start + n..f.start + length] == Zeros(length - n)
  {
    WholeStoreIs(|file|, windowSize, cache, f, hit);
    CopyIsTrueIff(file, cache, f.start, WindowLen(|file|, windowSize, f.start), hit);
  }

  lemma CopyIsTrueIff(file: seq<byte>, cache: Blocks, start: nat, length: nat, hit: Option<int>)
    requires TrueBlocks(file, cache) && MayFind(cache, start, hit) && 0 < length && start + length <= |file|
    ensures var copied := Copied(cache, start, length, hit);
      TrueBlocks(file, cache[start := copied + Zeros(length - |copied|)]) <==>
        file[start + |copied|..start + length] == Zeros(length - |copied|)
  {
    var copied := Copied(cache, start, length, hit);
    CopiedIsTrue(file, cache, start, length, hit);
    PaddedIsTrueIff(file, cache, start, copied, Zeros(length - |copied|));
  }

  lemma PaddedIsTrueIff(file: seq<byte>, cache: Blocks, start: nat, head: seq<byte>, rest: seq<byte>)
    requires TrueBlocks(file, cache) && head + rest != []
    requires SliceAt(file, start, head) && start + |head| + |rest| <= |file|
    ensures TrueBlocks(file, cache[start := head + rest]) <==>
      file[start + |head|..start + |head| + |rest|] == rest
  {
    StoreIsTrueIff(file, cache, start, head + rest);
    ThereIff(file, start, head, rest);
  }

  lemma ThereIff(file: seq<byte>, start: nat, head: seq<byte>, rest: seq<byte>)
    requires SliceAt(file, start, head) && start + |head| + |rest| <= |file|
    ensures head + rest == file[start..start + |head| + |rest|] <==>
      file[start + |head|..start + |head| + |rest|] == rest
  {
    var there := file[start..start + |head| + |rest|];
    assert there == file[start..start + |head|] + file[start + |head|..start + |head| + |rest|];
    assert there[|head|..] == file[start + |head|..start + |head| + |rest|] && (head + rest)[|head|..] == rest;
  }

  lemma StoreIsTrueIff(file: seq<byte>, cache: Blocks, start: nat, bytes: seq<byte>)
    requires TrueBlocks(file, cache) && bytes != [] && start + |bytes| <= |file|
    ensures TrueBlocks(file, cache[start := bytes]) <==> bytes == file[start..start + |bytes|]
  {
    var cache' := cache[start := bytes];
    assert start in cache' && cache'[start] == bytes;
    if bytes == file[start..start + |bytes|] { PutKeepsTrueBlocks(file, cache, start, bytes); }
  }

  /** The run of `BrokenPromise` with the file's first window wholly cached. */
  function VanishedWindow(file: seq<byte>, windowSize: nat): seq<Step>
    requires file != []
  {
    [PutDirect(0, file[..WindowLen(|file|, windowSize, 0)])] + ([Open(0, 0)] + ([Run(0, SlotResult(true))] +
      ([Run(0, BeginAttempt)] + ([Run(0, Lookup)] + ([Evict(0)] + [])))))
  }

  lemma WindowVanishes(file: seq<byte>, windowSize: nat)
    requires windowSize > 0 && file != []
    ensures GoodRun(file, windowSize, Start(), VanishedWindow(file, windowSize))
    ensures Final(|file|, windowSize, Start(), VanishedWindow(file, windowSize)) ==
      World(map[], map[0 := New(0).(acquired := 1, pc := CopyWhole(0))], map[0 := 0])
  {
    var f, data := New(0), file[..WindowLen(|file|, windowSize, 0)];
    var w1 := World(map[0 := data], map[], map[]);
    var w2 := w1.(fetches := map[0 := f], inflight := map[0 := 0]);
    var w3 := w2.(fetches := map[0 := f.(acquired := 1, pc := Top(0))]);
    var w4 := w2.(fetches := map[0 := f.(acquired := 1, pc := Look(0))]);
    var w5 := w2.(fetches := map[0 := f.(acquired := 1, pc := CopyWhole(0))]);
    var r5 := [Evict(0)] + [];
    var r4 := [Run(0, Lookup)] + r5;
    var r3 := [Run(0, BeginAttempt)] + r4;
    var r2 := [Run(0, SlotResult(true))] + r3;
    assert Apply(|file|, windowSize, w5, Evict(0)).cache == map[];
    GoodCons(file, windowSize, w5, Evict(0), []);
    assert Apply(|file|, windowSize, w4, Run(0, Lookup)).fetches == w5.fetches;
    GoodCons(file, windowSize, w4, Run(0, Lookup), r5);
    assert Apply(|file|, windowSize, w3, Run(0, BeginAttempt)).fetches == w4.fetches;
    GoodCons(file, windowSize, w3, Run(0, BeginAttempt), r4);
    assert Apply(|file|, windowSize, w2, Run(0, SlotResult(true))).fetches == w3.fetches;
    GoodCons(file, windowSize, w2, Run(0, SlotResult(true)), r3);
    GoodCons(file, windowSize, w1, Open(0, 0), r2);
    assert data == file[0..0 + |data|];
    GoodCons(file, windowSize, Start(), PutDirect(0, data), [Open(0, 0)] + r2);
  }

  /** For every nonempty file and every window size there is a run that meets every
      assumption up to the copy, after which nothing is left to copy: zeros are then
      cached for the whole window, and every later hit in it delivers zeros. */
  lemma ZerosCanBeCached(file: seq<byte>, windowSize: nat, off: nat, limit: nat)
    requires windowSize > 0 && file != [] && off < WindowLen(|file|, windowSize, 0)
    ensures GoodRun(file, windowSize, Start(), VanishedWindow(file, windowSize))
    ensures var w := Final(|file|, windowSize, Start(), VanishedWindow(file, windowSize));
      0 in w.fetches && w.fetches[0].start == 0 && w.fetches[0].pc.CopyWhole? && MayFind(w.cache, 0, None) &&
      var cache := AfterWholeStore(|file|, windowSize, w.cache, w.fetches[0], None);
      && cache == map[0 := Zeros(WindowLen(|file|, windowSize, 0))]
      && (forall hit :: MayFind(cache, off, hit) ==>
            && hit == Some(0)
            && Copied(cache, off, limit, hit) == Zeros(Min(limit, WindowLen(|file|, windowSize, 0) - off)))
  {
    WindowVanishes(file, windowSize);
    var w, length := Final(|file|, windowSize, Start(), VanishedWindow(file, windowSize)),
      WindowLen(|file|, windowSize, 0);
    WholeStoreIs(|file|, windowSize, w.cache, w.fetches[0], None);
    var cache: Blocks := map[0 := Zeros(length)];
    assert [] + Zeros(length) == Zeros(length) && w.cache[0 := Zeros(length)] == cache;
    ZerosAreServed(length, off, limit);
  }

  lemma ZerosAreServed(length: nat, off: nat, limit: nat)
    requires off < length
    ensures var cache: Blocks := map[0 := Zeros(length)];
      forall hit :: MayFind(cache, off, hit) ==>
        hit == Some(0) && Copied(cache, off, limit, hit) == Zeros(Min(limit, length - off))
  {
    assert Contains(map[0 := Zeros(length)], 0, off);
  }

  // ---------------------------------------------------------------------
  // Retries resume
  // ---------------------------------------------------------------------

  predicate Related(exact: bool, a: int, b: int) { if exact then a == b else a >= b }

  /** Each request starts at (or, if not `exact`, not before) the end of what the
      one before it brought. */
  ghost predicate Chained(exact: bool, requests: seq<Range>, received: seq<nat>) {
    && |received| <= |requests| <= |received| + 1
    && forall i, j | 0 <= i && i + 1 == j < |requests| ::
         Related(exact, requests[j].first, requests[i].first + received[i])
  }

  /** The offset just after the bytes the latest finished request brought. */
  function ReceivedTo(f: Fetch): int
    requires |f.requests| == |f.received| > 0
  {
    f.requests[|f.requests| - 1].first + f.received[|f.requests| - 1]
  }

  /** A next request that starts at `next` continues the chain. */
  ghost predicate Continues(exact: bool, f: Fetch, next: int) {
    |f.received| == |f.requests| && (f.requests != [] ==> Related(exact, next, ReceivedTo(f)))
  }

  ghost predicate ResumesAt(exact: bool, cached: nat, f: Fetch) {
    match f.pc
    case AwaitSlot => f.requests == [] && f.received == []
    case Top(_) => Continues(exact, f, f.start + cached)
    case Backoff(_) => Continues(exact, f, f.start + cached)
    case Look(_) => Continues(exact, f, f.start + cached)
    case Prefill(_, c) => Related(exact, cached, c) && Continues(exact, f, f.start + c)
    case Request(_, c) => Related(exact, cached, c) && Continues(exact, f, f.start + c)
    case Body(_, c, _, _) =>
      && Related(exact, cached, c) && |f.requests| == |f.received| + 1
      && f.requests[|f.received|].first == f.start + c
    case Store(_, _) =>
      && |f.requests| == |f.received| > 0 && ReceivedTo(f) == f.start + |f.win.buf|
      && (f.win.buf == [] ==> Related(exact, cached, 0))
    case Decide(_, _) => |f.requests| == |f.received| > 0 && Related(exact, f.start + cached, ReceivedTo(f))
    case _ => |f.requests| == |f.received|
  }

  ghost predicate Resuming(exact: bool, cache: Blocks, f: Fetch) {
    Chained(exact, f.requests, f.received) && ResumesAt(exact, PrefixLen(cache, f.start), f)
  }

  lemma ChainedRequest(exact: bool, f: Fetch, range: Range)
    requires Chained(exact, f.requests, f.received) && Continues(exact, f, range.first)
    ensures Chained(exact, f.requests + [range], f.received)
    ensures forall n: nat :: Chained(exact, f.requests + [range], f.received + [n])
  {
  }

  /** Steps of anybody but this fetcher leave the block at its window's start alone
      (`exact`), or at least do not shorten it. */
  ghost predicate KeepsBlock(exact: bool, file: seq<byte>, windowSize: nat, w: World, step: Step, id: nat)
    requires Enabled(|file|, windowSize, w, step) && id in w.fetches
  {
    (step.Run? && step.id == id) ||
    var start := w.fetches[id].start;
    Related(exact, PrefixLen(Apply(|file|, windowSize, w, step).cache, start), PrefixLen(w.cache, start))
  }

  ghost predicate KeepsBlockThroughout(exact: bool, file: seq<byte>, windowSize: nat, w: World, steps: seq<Step>,
                                       id: nat)
    requires GoodRun(file, windowSize, w, steps) && id in w.fetches
    decreases |steps|
  {
    steps == [] ||
    (KeepsBlock(exact, file, windowSize, w, steps[0], id) &&
     KeepsBlockThroughout(exact, file, windowSize, Apply(|file|, windowSize, w, steps[0]), steps[1..], id))
  }

  lemma RespondResumes(exact: bool, file: seq<byte>, windowSize: nat, cache: Blocks, f: Fetch, fs: FetchStep)
    requires Resuming(exact, cache, f) && fs.Respond? && FetchEnabled(|file|, windowSize, cache, f, fs)
    ensures var (cache', f') := Section(|file|, windowSize, cache, f, fs); Resuming(exact, cache', f')
  {
    var first := f.start + f.pc.cachedLen;
    var f' := Section(|file|, windowSize, cache, f, fs).1;
    var range := Range(first, WindowEnd(|file|, windowSize, f.start) - 1);
    assert f'.requests == f.requests + [range];
    assert f'.received == f.received || f'.received == f.received + [0];
    ChainedRequest(exact, f, Range(first, WindowEnd(|file|, windowSize, f.start) - 1));
    assert Chained(exact, f'.requests, f'.received);
  }

  lemma ReadResumes(exact: bool, file: seq<byte>, windowSize: nat, cache: Blocks, f: Fetch, fs: FetchStep)
    requires Resuming(exact, cache, f) && FetchEnabled(|file|, windowSize, cache, f, fs)
    requires fs.Read? && |f.win.buf| == f.pc.cachedLen + f.pc.totalRead
    ensures var (cache', f') := Section(|file|, windowSize, cache, f, fs); Resuming(exact, cache', f')
  {
    var f' := Section(|file|, windowSize, cache, f, fs).1;
    assert f'.requests == f.requests;
    assert f'.received == f.received || f'.received == f.received + [f.pc.totalRead + fs.n];
    assert Chained(exact, f'.requests, f'.received);
  }

  lemma PutResumes(exact: bool, file: seq<byte>, windowSize: nat, cache: Blocks, f: Fetch, fs: FetchStep)
    requires Resuming(exact, cache, f) && FetchEnabled(|file|, windowSize, cache, f, fs)
    requires fs.Put?
    ensures var (cache', f') := Section(|file|, windowSize, cache, f, fs); Resuming(exact, cache', f')
  {
  }

  lemma FailureResumes(exact: bool, file: seq<byte>, windowSize: nat, cache: Blocks, f: Fetch, fs: FetchStep)
    requires Resuming(exact, cache, f) && FetchEnabled(|file|, windowSize, cache, f, fs)
    requires fs.Judge? || fs.Lookup? || fs.CopyPrefix?
    ensures var (cache', f') := Section(|file|, windowSize, cache, f, fs); Resuming(exact, cache', f')
  {
    var f' := Section(|file|, windowSize, cache, f, fs).1;
    assert f'.requests == f.requests && f'.received == f.received;
  }

  lemma ControlResumes(exact: bool, file: seq<byte>, windowSize: nat, cache: Blocks, f: Fetch, fs: FetchStep)
    requires Resuming(exact, cache, f) && FetchEnabled(|file|, windowSize, cache, f, fs)
    requires !fs.Read? && !fs.Respond? && !fs.Put? && !fs.Judge? && !fs.Lookup? && !fs.CopyPrefix?
    ensures var (cache', f') := Section(|file|, windowSize, cache, f, fs); Resuming(exact, cache', f')
  {
    var f' := Section(|file|, windowSize, cache, f, fs).1;
    assert f'.requests == f.requests && f'.received == f.received;
  }

  lemma OwnStepResumes(exact: bool, file: seq<byte>, windowSize: nat, cache: Blocks, f: Fetch, fs: FetchStep)
    requires Resuming(exact, cache, f) && FetchEnabled(|file|, windowSize, cache, f, fs)
    requires FetchInv(file, windowSize, f)
    ensures var (cache', f') := Section(|file|, windowSize, cache, f, fs); Resuming(exact, cache', f')
  {
    match fs {
      case Read(_, _, _) => ReadResumes(exact, file, windowSize, cache, f, fs);
      case Respond(_) => RespondResumes(exact, file, windowSize, cache, f, fs);
      case Put => PutResumes(exact, file, windowSize, cache, f, fs);
      case Judge => FailureResumes(exact, file, windowSize, cache, f, fs);
      case Lookup => FailureResumes(exact, file, windowSize, cache, f, fs);
      case CopyPrefix(_) => FailureResumes(exact, file, windowSize, cache, f, fs);
      case _ => ControlResumes(exact, file, windowSize, cache, f, fs);
    }
  }

  /** What others can do to a fetcher, and to the block it relies on. */
  lemma StillResuming(exact: bool, cache: Blocks, cache': Blocks, f: Fetch, f': Fetch)
    requires Resuming(exact, cache, f) && f' == f.(ctxDone := f'.ctxDone, win := f.win.(done := f'.win.done))
    requires Related(exact, PrefixLen(cache', f.start), PrefixLen(cache, f.start))
    ensures Resuming(exact, cache', f')
  {
  }

  lemma OtherStepResumes(exact: bool, file: seq<byte>, windowSize: nat, w: World, step: Step, id: nat)
    requires Inv(file, windowSize, w) && Good(file, windowSize, w, step) && id in w.fetches
    requires !(step.Run? && step.id == id) && KeepsBlock(exact, file, windowSize, w, step, id)
    requires Resuming(exact, w.cache, w.fetches[id])
    ensures var w' := Apply(|file|, windowSize, w, step);
      id in w'.fetches && Resuming(exact, w'.cache, w'.fetches[id])
  {
    var w' := Apply(|file|, windowSize, w, step);
    var f, f' := w.fetches[id], w'.fetches[id];
    assert f' == f.(ctxDone := f'.ctxDone, win := f.win.(done := f'.win.done));
    StillResuming(exact, w.cache, w'.cache, f, f');
  }

  lemma {:induction false} RunResumes(exact: bool, file: seq<byte>, windowSize: nat, w: World, steps: seq<Step>,
                                      id: nat)
    requires windowSize > 0 && Inv(file, windowSize, w) && GoodRun(file, windowSize, w, steps) && id in w.fetches
    requires KeepsBlockThroughout(exact, file, windowSize, w, steps, id) && Resuming(exact, w.cache, w.fetches[id])
    ensures var w' := Final(|file|, windowSize, w, steps);
      id in w'.fetches && Resuming(exact, w'.cache, w'.fetches[id])
    decreases |steps|
  {
    if steps != [] {
      var step := steps[0];
      StepKeepsInv(file, windowSize, w, step);
      if step.Run? && step.id == id {
        FetchStepKeepsInv(file, windowSize, w, id, step.fs);
        OwnStepResumes(exact, file, windowSize, w.cache, w.fetches[id], step.fs);
      } else {
        OtherStepResumes(exact, file, windowSize, w, step, id);
      }
      RunResumes(exact, file, windowSize, Apply(|file|, windowSize, w, step), steps[1..], id);
    }
  }

  /** If the cache keeps a window's block between attempts, every further request
      of its fetcher starts exactly where the received bytes ended; if the block is
      only never shortened, nothing received is ever requested again. */
  lemma RetriesResume(exact: bool, file: seq<byte>, windowSize: nat, w: World, start: nat, id: nat, steps: seq<Step>,
                      i: nat)
    requires windowSize > 0 && Inv(file, windowSize, w) && id in w.fetches && w.fetches[id] == New(start)
    requires GoodRun(file, windowSize, w, steps) && KeepsBlockThroughout(exact, file, windowSize, w, steps, id)
    requires id in Final(|file|, windowSize, w, steps).fetches
    requires i + 1 < |Final(|file|, windowSize, w, steps).fetches[id].requests|
    ensures var f := Final(|file|, windowSize, w, steps).fetches[id];
      i < |f.received| && Related(exact, f.requests[i + 1].first, f.requests[i].first + f.received[i])
  {
    RunResumes(exact, file, windowSize, w, steps, id);
  }
}
