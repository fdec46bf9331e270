/** The window protocol of all files and the slot semaphore they share: how many
    fetchers run at once, and how much memory their buffers take.

    A fetcher's wait for its slot and its release are steps of the semaphore; all
    its other sections leave the semaphore alone. */
module SlotBudget {
  import S = Semaphore
  import W = WindowProtocol
  import opened Totals

  /** The fetcher `id` of the file with that index. */
  datatype Fetcher = Fetcher(file: nat, id: nat)

  /** `worlds[i]` is the protocol's state for the i-th file; `tickets` names the
      semaphore call of every fetcher that has entered acquire. */
  datatype Joint = Joint(worlds: seq<W.World>, s: S.Sem, tickets: map<Fetcher, S.Ticket>)

  datatype Event =
    | Other(file: nat, step: W.Step)
    | Enter(x: Fetcher, priority: nat)     // acquire: the first locked section
    | Wake(x: Fetcher, cancelled: bool)    // acquire: a turn of the wait loop
    | GiveBack(x: Fetcher)                 // the deferred release

  function FileOf(event: Event): nat { if event.Other? then event.file else event.x.file }

  predicate TouchesSlot(step: W.Step) { step.Run? && (step.fs.SlotResult? || step.fs.Release?) }

  predicate Waiting(s: S.Sem, t: S.Ticket) { t in s.queue || t in s.granted }

  predicate Present(j: Joint, x: Fetcher) { x.file < |j.worlds| && x.id in j.worlds[x.file].fetches }

  function At(j: Joint, x: Fetcher): W.Fetch
    requires Present(j, x)
  {
    j.worlds[x.file].fetches[x.id]
  }

  predicate Enabled(files: seq<seq<byte>>, windowSize: nat, j: Joint, event: Event) {
    && |j.worlds| == |files|
    && match event
       case Other(file, step) =>
         file < |files| && W.Enabled(|files[file]|, windowSize, j.worlds[file], step) && !TouchesSlot(step)
       case Enter(x, _) => Present(j, x) && x !in j.tickets && At(j, x).pc.AwaitSlot?
       case Wake(x, cancelled) =>
         && Present(j, x) && x in j.tickets && At(j, x).pc.AwaitSlot?
         && Waiting(j.s, j.tickets[x]) && (cancelled ==> At(j, x).ctxDone)
       case GiveBack(x) =>
         Present(j, x) && x in j.tickets && At(j, x).pc.ReleaseSlot? && j.tickets[x] in j.s.holders
  }

  /** The semaphore's step. */
  function SlotStep(j: Joint, event: Event): Option<S.Step>
    requires event.Wake? || event.GiveBack? ==> event.x in j.tickets
  {
    match event
    case Other(_, _) => None
    case Enter(_, priority) => Some(S.Acquire(priority))
    case Wake(x, cancelled) => Some(S.Recheck(j.tickets[x], cancelled))
    case GiveBack(x) => Some(S.Release(j.tickets[x]))
  }

  /** The protocol's step: the slot is granted exactly when the semaphore says so. */
  function FetchStep(j: Joint, event: Event): Option<W.Step>
    requires event.Wake? ==> event.x in j.tickets
  {
    match event
    case Other(_, step) => Some(step)
    case Enter(x, _) =>
      if j.s.held < j.s.limit && j.s.queue == [] then Some(W.Run(x.id, W.SlotResult(true))) else None
    case Wake(x, cancelled) =>
      if j.tickets[x] in j.s.granted then Some(W.Run(x.id, W.SlotResult(true)))
      else if cancelled then Some(W.Run(x.id, W.SlotResult(false)))
      else None
    case GiveBack(x) => Some(W.Run(x.id, W.FetchStep.Release))
  }

  function Apply(files: seq<seq<byte>>, windowSize: nat, j: Joint, event: Event): Joint
    requires Enabled(files, windowSize, j, event)
  {
    var i := FileOf(event);
    var worlds := match FetchStep(j, event)
      case Some(step) => j.worlds[i := W.Apply(|files[i]|, windowSize, j.worlds[i], step)]
      case None => j.worlds;
    var s := match SlotStep(j, event) case Some(step) => S.Apply(j.s, step) case None => j.s;
    var tickets := if event.Enter? then j.tickets[event.x := S.Ticket(j.s.next, event.priority)] else j.tickets;
    Joint(worlds, s, tickets)
  }

  predicate CanRun(files: seq<seq<byte>>, windowSize: nat, j: Joint, events: seq<Event>)
    decreases |events|
  {
    events == [] ||
    (Enabled(files, windowSize, j, events[0]) &&
     CanRun(files, windowSize, Apply(files, windowSize, j, events[0]), events[1..]))
  }

  function Final(files: seq<seq<byte>>, windowSize: nat, j: Joint, events: seq<Event>): Joint
    requires CanRun(files, windowSize, j, events)
    decreases |events|
  {
    if events == [] then j else Final(files, windowSize, Apply(files, windowSize, j, events[0]), events[1..])
  }

  /** `n` files of which nothing is being read. */
  function Start(n: nat, limit: int): Joint { Joint(seq(n, _ => W.Start()), S.New(limit), map[]) }

  // ---------------------------------------------------------------------
  // The semaphore moves one ticket at a time
  // ---------------------------------------------------------------------

  predicate Subject(s: S.Sem, step: S.Step, t: S.Ticket) {
    match step
    case Acquire(priority) => t == S.Ticket(s.next, priority)
    case Recheck(u, _) => t == u
    case Release(u) => t == u
  }

  /** Whoever is not the step's subject keeps its slot, or keeps waiting. */
  lemma OthersStay(s: S.Sem, step: S.Step, t: S.Ticket)
    requires S.Inv(s) && S.Enabled(s, step) && !Subject(s, step, t)
    ensures var s' := S.Apply(s, step);
      (t in s'.holders <==> t in s.holders) && (Waiting(s', t) <==> Waiting(s, t))
  {
    match step
    case Acquire(priority) => S.InsertMembers(s.queue, S.Ticket(s.next, priority));
    case Recheck(u, cancelled) => S.RemoveOne(s.queue, u);
    case Release(u) => if s.queue != [] { S.HeadLeaves(s.queue); }
  }

  lemma SubjectMoves(s: S.Sem, step: S.Step, t: S.Ticket)
    requires S.Inv(s) && S.Enabled(s, step) && Subject(s, step, t)
    ensures var s' := S.Apply(s, step);
      match step
      case Acquire(_) => if s.held < s.limit && s.queue == [] then t in s'.holders && !Waiting(s', t)
                         else Waiting(s', t) && t !in s'.holders
      case Recheck(_, cancelled) =>
        if t in s.granted then t in s'.holders && !Waiting(s', t)
        else t !in s'.holders && (Waiting(s', t) <==> !cancelled)
      case Release(_) => t !in s'.holders && !Waiting(s', t)
  {
    match step
    case Acquire(priority) => S.InsertMembers(s.queue, t);
    case Recheck(u, cancelled) => S.RemoveOne(s.queue, u);
    case Release(u) => if s.queue != [] { S.HeadLeaves(s.queue); }
  }

  // ---------------------------------------------------------------------
  // Fetchers and slots
  // ---------------------------------------------------------------------

  /** The fetcher runs exactly while its ticket owns a slot, and waits exactly while
      its ticket does. */
  predicate LinkedAt(j: Joint, x: Fetcher) {
    && (x in j.tickets ==> Present(j, x) && j.tickets[x].id < j.s.next)
    && (Present(j, x) ==>
          && (W.SlotHeld(At(j, x).pc) <==> x in j.tickets && j.tickets[x] in j.s.holders)
          && (x in j.tickets ==> (At(j, x).pc.AwaitSlot? <==> Waiting(j.s, j.tickets[x]))))
  }

  ghost predicate Linked(j: Joint) {
    && (forall x :: LinkedAt(j, x))
    && (forall a, b | a in j.tickets && b in j.tickets && j.tickets[a] == j.tickets[b] :: a == b)
    && (forall t :: Listed(j.s, t) ==> t in j.tickets.Values)
  }

  /** The ticket counts for the semaphore. */
  predicate Listed(s: S.Sem, t: S.Ticket) { Waiting(s, t) || t in s.holders }

  predicate About(event: Event, x: Fetcher) { !event.Other? && event.x == x }

  /** A section that does not touch the slot keeps the fetcher on its side of it. */
  lemma SectionKeepsSide(size: nat, windowSize: nat, cache: W.Blocks, f: W.Fetch, fs: W.FetchStep)
    requires W.FetchEnabled(size, windowSize, cache, f, fs) && !fs.SlotResult? && !fs.Release?
    ensures var f' := W.Section(size, windowSize, cache, f, fs).1;
      W.SlotHeld(f'.pc) == W.SlotHeld(f.pc) && f'.pc.AwaitSlot? == f.pc.AwaitSlot?
  {
  }

  lemma OtherKeepsSide(size: nat, windowSize: nat, w: W.World, step: W.Step, id: nat)
    requires W.Enabled(size, windowSize, w, step) && !TouchesSlot(step) && id in w.fetches
    ensures var w' := W.Apply(size, windowSize, w, step);
      id in w'.fetches && W.SlotHeld(w'.fetches[id].pc) == W.SlotHeld(w.fetches[id].pc) &&
      w'.fetches[id].pc.AwaitSlot? == w.fetches[id].pc.AwaitSlot?
  {
    if step.Run? && step.id == id { SectionKeepsSide(size, windowSize, w.cache, w.fetches[id], step.fs); }
  }

  lemma SlotStepEnabled(files: seq<seq<byte>>, windowSize: nat, j: Joint, event: Event)
    requires Enabled(files, windowSize, j, event)
    ensures SlotStep(j, event).Some? ==> S.Enabled(j.s, SlotStep(j, event).value)
    ensures FileOf(event) < |files|
    ensures FetchStep(j, event).Some? ==>
      W.Enabled(|files[FileOf(event)]|, windowSize, j.worlds[FileOf(event)], FetchStep(j, event).value)
    ensures |Apply(files, windowSize, j, event).worlds| == |files|
  {
  }

  lemma TicketIsNotSubject(j: Joint, event: Event, x: Fetcher)
    requires Linked(j) && x in j.tickets && !About(event, x)
    requires event.Wake? || event.GiveBack? ==> event.x in j.tickets
    ensures SlotStep(j, event).Some? ==> !Subject(j.s, SlotStep(j, event).value, j.tickets[x])
  {
    assert LinkedAt(j, x);
  }

  /** Another fetcher's side does not change; a new fetcher starts out waiting. */
  lemma BystanderFetch(files: seq<seq<byte>>, windowSize: nat, j: Joint, event: Event, x: Fetcher)
    requires Enabled(files, windowSize, j, event) && !About(event, x)
    ensures var j' := Apply(files, windowSize, j, event);
      if Present(j, x) then
        Present(j', x) && W.SlotHeld(At(j', x).pc) == W.SlotHeld(At(j, x).pc) &&
        At(j', x).pc.AwaitSlot? == At(j, x).pc.AwaitSlot?
      else Present(j', x) ==> At(j', x).pc.AwaitSlot?
  {
    SlotStepEnabled(files, windowSize, j, event);
    if event.Other? && event.file == x.file && Present(j, x) {
      OtherKeepsSide(|files[x.file]|, windowSize, j.worlds[x.file], event.step, x.id);
    }
  }

  lemma BystanderTicket(files: seq<seq<byte>>, windowSize: nat, j: Joint, event: Event, x: Fetcher)
    requires Linked(j) && S.Inv(j.s) && Enabled(files, windowSize, j, event)
    requires x in j.tickets && !About(event, x)
    ensures var s, s', t := j.s, Apply(files, windowSize, j, event).s, j.tickets[x];
      (t in s'.holders <==> t in s.holders) && (Waiting(s', t) <==> Waiting(s, t)) && s.next <= s'.next
  {
    SlotStepEnabled(files, windowSize, j, event);
    TicketIsNotSubject(j, event, x);
    if SlotStep(j, event).Some? {
      S.StepKeepsInv(j.s, SlotStep(j, event).value);
      OthersStay(j.s, SlotStep(j, event).value, j.tickets[x]);
    }
  }

  /** For every fetcher the event is not about. */
  lemma BystanderStaysLinked(files: seq<seq<byte>>, windowSize: nat, j: Joint, event: Event, x: Fetcher)
    requires Linked(j) && S.Inv(j.s) && Enabled(files, windowSize, j, event) && !About(event, x)
    ensures LinkedAt(Apply(files, windowSize, j, event), x)
  {
    assert LinkedAt(j, x);
    BystanderFetch(files, windowSize, j, event, x);
    if x in j.tickets { BystanderTicket(files, windowSize, j, event, x); }
  }

  lemma EnterLinks(files: seq<seq<byte>>, windowSize: nat, j: Joint, event: Event)
    requires Linked(j) && S.Inv(j.s) && Enabled(files, windowSize, j, event) && event.Enter?
    ensures LinkedAt(Apply(files, windowSize, j, event), event.x)
  {
    S.StepKeepsInv(j.s, S.Acquire(event.priority));
    SubjectMoves(j.s, S.Acquire(event.priority), S.Ticket(j.s.next, event.priority));
  }

  lemma WakeKeepsLink(files: seq<seq<byte>>, windowSize: nat, j: Joint, event: Event)
    requires Linked(j) && S.Inv(j.s) && Enabled(files, windowSize, j, event) && event.Wake?
    ensures LinkedAt(Apply(files, windowSize, j, event), event.x)
  {
    assert LinkedAt(j, event.x);
    S.StepKeepsInv(j.s, S.Recheck(j.tickets[event.x], event.cancelled));
    SubjectMoves(j.s, S.Recheck(j.tickets[event.x], event.cancelled), j.tickets[event.x]);
  }

  lemma GiveBackKeepsLink(files: seq<seq<byte>>, windowSize: nat, j: Joint, event: Event)
    requires Linked(j) && S.Inv(j.s) && Enabled(files, windowSize, j, event) && event.GiveBack?
    ensures LinkedAt(Apply(files, windowSize, j, event), event.x)
  {
    assert LinkedAt(j, event.x);
    S.StepKeepsInv(j.s, S.Release(j.tickets[event.x]));
    SubjectMoves(j.s, S.Release(j.tickets[event.x]), j.tickets[event.x]);
  }

  lemma EventKeepsLinked(files: seq<seq<byte>>, windowSize: nat, j: Joint, event: Event)
    requires Linked(j) && S.Inv(j.s) && Enabled(files, windowSize, j, event)
    ensures Linked(Apply(files, windowSize, j, event)) && S.Inv(Apply(files, windowSize, j, event).s)
    ensures Apply(files, windowSize, j, event).s.limit == j.s.limit
  {
    var j' := Apply(files, windowSize, j, event);
    SlotStepEnabled(files, windowSize, j, event);
    if SlotStep(j, event).Some? { S.StepKeepsInv(j.s, SlotStep(j, event).value); }
    forall x ensures LinkedAt(j', x) {
      if !About(event, x) { BystanderStaysLinked(files, windowSize, j, event, x); }
      else if event.Enter? { EnterLinks(files, windowSize, j, event); }
      else if event.Wake? { WakeKeepsLink(files, windowSize, j, event); }
      else { GiveBackKeepsLink(files, windowSize, j, event); }
    }
    if event.Enter? {
      forall x | x in j.tickets ensures j.tickets[x] != j'.tickets[event.x] { assert LinkedAt(j, x); }
    }
    forall t ensures Listed(j'.s, t) ==> t in j'.tickets.Values { NoOrphan(files, windowSize, j, event, t); }
  }

  /** No ticket is left without a fetcher. */
  lemma NoOrphan(files: seq<seq<byte>>, windowSize: nat, j: Joint, event: Event, t: S.Ticket)
    requires Linked(j) && S.Inv(j.s) && Enabled(files, windowSize, j, event)
    ensures var j' := Apply(files, windowSize, j, event); Listed(j'.s, t) ==> t in j'.tickets.Values
  {
    var j', step := Apply(files, windowSize, j, event), SlotStep(j, event);
    SlotStepEnabled(files, windowSize, j, event);
    if step.Some? && !Subject(j.s, step.value, t) { OthersStay(j.s, step.value, t); }
    if t in j.tickets.Values {
      var x :| x in j.tickets && j.tickets[x] == t;
      assert x in j'.tickets && j'.tickets[x] == t;
    }
    if event.Enter? { assert j'.tickets[event.x] in j'.tickets.Values; }
  }

  lemma {:induction false} RunKeepsLinked(files: seq<seq<byte>>, windowSize: nat, j: Joint, events: seq<Event>)
    requires Linked(j) && S.Inv(j.s) && CanRun(files, windowSize, j, events)
    ensures var j' := Final(files, windowSize, j, events); Linked(j') && S.Inv(j'.s) && j'.s.limit == j.s.limit
    decreases |events|
  {
    if events != [] {
      EventKeepsLinked(files, windowSize, j, events[0]);
      RunKeepsLinked(files, windowSize, Apply(files, windowSize, j, events[0]), events[1..]);
    }
  }

  // ---------------------------------------------------------------------
  // At most `limit` fetchers at once
  // ---------------------------------------------------------------------

  /** The fetchers of all files that own a slot. */
  ghost function Running(j: Joint): set<Fetcher> {
    set i: nat, id: nat | i < |j.worlds| && id in j.worlds[i].fetches && W.SlotHeld(j.worlds[i].fetches[id].pc) ::
      Fetcher(i, id)
  }

  lemma {:induction false} InjectiveSize(xs: set<Fetcher>, tickets: map<Fetcher, S.Ticket>, holders: set<S.Ticket>)
    requires forall x | x in xs :: x in tickets && tickets[x] in holders
    requires forall a, b | a in xs && b in xs && tickets[a] == tickets[b] :: a == b
    ensures |xs| <= |holders|
    decreases |xs|
  {
    if xs != {} {
      var x :| x in xs;
      InjectiveSize(xs - {x}, tickets, holders - {tickets[x]});
    }
  }

  /** In every reachable state, whatever the files, fetchers, waiters and
      cancellations, at most `limit` fetchers are between grant and release, and the
      call of a fetcher that has ended owns nothing and waits for nothing. */
  lemma AtMostLimitRun(files: seq<seq<byte>>, windowSize: nat, limit: int, events: seq<Event>)
    requires CanRun(files, windowSize, Start(|files|, limit), events)
    ensures var j := Final(files, windowSize, Start(|files|, limit), events);
      && |Running(j)| <= |j.s.holders| <= S.Capacity(limit)
      && (forall x | Present(j, x) && At(j, x).pc.Ended? && x in j.tickets ::
            j.tickets[x] !in j.s.holders && !Waiting(j.s, j.tickets[x]))
  {
    RunKeepsLinked(files, windowSize, Start(|files|, limit), events);
    var j := Final(files, windowSize, Start(|files|, limit), events);
    forall x | x in Running(j) ensures x in j.tickets && j.tickets[x] in j.s.holders {
      assert Present(j, x) && LinkedAt(j, x);
    }
    InjectiveSize(Running(j), j.tickets, j.s.holders);
    forall x | Present(j, x) && At(j, x).pc.Ended? && x in j.tickets
      ensures j.tickets[x] !in j.s.holders && !Waiting(j.s, j.tickets[x])
    {
      assert LinkedAt(j, x);
    }
  }

  /** No slot is ever lost: in every reachable state the counted slots are those of
      fetchers between grant and release and of fetchers about to notice their grant;
      once every fetcher that entered has ended, all slots are free and nobody waits. */
  lemma SlotsComeBack(files: seq<seq<byte>>, windowSize: nat, limit: int, events: seq<Event>)
    requires CanRun(files, windowSize, Start(|files|, limit), events)
    ensures var j := Final(files, windowSize, Start(|files|, limit), events);
      && (forall t | t in j.s.holders ::
            exists x :: x in j.tickets && j.tickets[x] == t && Present(j, x) && W.SlotHeld(At(j, x).pc))
      && (forall t | Waiting(j.s, t) ::
            exists x :: x in j.tickets && j.tickets[x] == t && Present(j, x) && At(j, x).pc.AwaitSlot?)
      && ((forall x | x in j.tickets :: Present(j, x) && At(j, x).pc.Ended?) ==> j.s.held == 0 && j.s.queue == [])
  {
    RunKeepsLinked(files, windowSize, Start(|files|, limit), events);
    var j := Final(files, windowSize, Start(|files|, limit), events);
    forall t | Listed(j.s, t)
      ensures exists x ::
        && x in j.tickets && j.tickets[x] == t && Present(j, x)
        && (t in j.s.holders ==> W.SlotHeld(At(j, x).pc)) && (Waiting(j.s, t) ==> At(j, x).pc.AwaitSlot?)
    {
      var x :| x in j.tickets && j.tickets[x] == t;
      assert LinkedAt(j, x);
    }
    if forall x | x in j.tickets :: Present(j, x) && At(j, x).pc.Ended? { AllFree(j); }
  }

  lemma AllFree(j: Joint)
    requires Linked(j) && S.Inv(j.s) && forall x | x in j.tickets :: Present(j, x) && At(j, x).pc.Ended?
    ensures j.s.held == 0 && j.s.queue == []
  {
    forall x | x in j.tickets ensures !Listed(j.s, j.tickets[x]) { assert LinkedAt(j, x); }
    forall t ensures !Listed(j.s, t) { assert t in j.tickets.Values ==> !Listed(j.s, t); }
    assert j.s.holders == {} by { forall t ensures t !in j.s.holders { assert !Listed(j.s, t); } }
    assert j.s.granted == {} by { forall t ensures t !in j.s.granted { assert !Listed(j.s, t); } }
    assert forall t :: t in j.s.queue ==> Listed(j.s, t);
    EmptyIff(j.s.queue);
  }

  lemma EmptyIff<T>(q: seq<T>)
    ensures q == [] <==> forall t :: t !in q
  {
    if q != [] { assert q[0] in q; }
  }

  // ---------------------------------------------------------------------
  // One buffer
  // ---------------------------------------------------------------------

  /** The server sends no more than it was asked for. */
  predicate ReplyFits(size: nat, windowSize: nat, f: W.Fetch, fs: W.FetchStep) {
    fs.Respond? && f.pc.Request? && W.Accepted(fs.reply, f.start + f.pc.cachedLen) ==>
      |fs.reply.body| <= W.WindowLen(size, windowSize, f.start) - f.pc.cachedLen
  }

  predicate StepFits(size: nat, windowSize: nat, w: W.World, step: W.Step) {
    step.Run? && step.id in w.fetches ==> ReplyFits(size, windowSize, w.fetches[step.id], step.fs)
  }

  /** An honest 206 reply always fits, so only a full response can be too long. */
  lemma PartialReplyFits(file: seq<byte>, windowSize: nat, f: W.Fetch, reply: W.Reply)
    requires f.pc.Request? && reply.Http? && reply.status == 206
    requires W.HonestReply(file, W.Range(f.start + f.pc.cachedLen, W.WindowEnd(|file|, windowSize, f.start) - 1), reply)
    ensures ReplyFits(|file|, windowSize, f, W.Respond(reply))
  {
    var first, end := f.start + f.pc.cachedLen, W.WindowEnd(|file|, windowSize, f.start);
    assert |reply.body| <= |file[first..end]|;
  }

  /** Of a file that fits into one window even a full response does. */
  lemma SmallFileFits(file: seq<byte>, windowSize: nat, w: W.World, step: W.Step)
    requires |file| <= windowSize && W.Enabled(|file|, windowSize, w, step) && W.Honest(file, windowSize, w, step)
    ensures StepFits(|file|, windowSize, w, step)
  {
    if step.Run? && step.fs.Respond? && step.fs.reply.Http? && step.fs.reply.status == 206 {
      PartialReplyFits(file, windowSize, w.fetches[step.id], step.fs.reply);
    }
  }

  /** The buffer, with what is still to come of the body, is no longer than the window. */
  predicate BufferFits(size: nat, windowSize: nat, f: W.Fetch) {
    && |f.win.buf| + (if f.pc.Body? then |f.pc.rest| else 0) <= W.WindowLen(size, windowSize, f.start)
    && (f.pc.Request? ==> |f.win.buf| <= f.pc.cachedLen)
  }

  ghost predicate AllFit(size: nat, windowSize: nat, w: W.World) {
    forall id | id in w.fetches :: BufferFits(size, windowSize, w.fetches[id])
  }

  lemma SectionKeepsFit(size: nat, windowSize: nat, cache: W.Blocks, f: W.Fetch, fs: W.FetchStep)
    requires W.ControlInv(size, windowSize, f) && BufferFits(size, windowSize, f) && windowSize > 0
    requires W.FetchEnabled(size, windowSize, cache, f, fs) && ReplyFits(size, windowSize, f, fs)
    ensures BufferFits(size, windowSize, W.Section(size, windowSize, cache, f, fs).1)
  {
  }

  /** Whatever the cache and the other readers do. */
  lemma StepKeepsFit(size: nat, windowSize: nat, w: W.World, step: W.Step)
    requires W.Controlled(size, windowSize, w) && AllFit(size, windowSize, w) && windowSize > 0
    requires W.Enabled(size, windowSize, w, step) && StepFits(size, windowSize, w, step)
    ensures AllFit(size, windowSize, W.Apply(size, windowSize, w, step))
  {
    if step.Run? { SectionKeepsFit(size, windowSize, w.cache, w.fetches[step.id], step.fs); }
  }

  ghost predicate AllRepliesFit(size: nat, windowSize: nat, w: W.World, steps: seq<W.Step>)
    requires W.CanRun(size, windowSize, w, steps)
    decreases |steps|
  {
    steps == [] ||
    (StepFits(size, windowSize, w, steps[0]) &&
     AllRepliesFit(size, windowSize, W.Apply(size, windowSize, w, steps[0]), steps[1..]))
  }

  lemma {:induction false} RunKeepsFit(size: nat, windowSize: nat, w: W.World, steps: seq<W.Step>)
    requires windowSize > 0 && W.Controlled(size, windowSize, w) && AllFit(size, windowSize, w)
    requires W.CanRun(size, windowSize, w, steps) && AllRepliesFit(size, windowSize, w, steps)
    ensures AllFit(size, windowSize, W.Final(size, windowSize, w, steps))
    decreases |steps|
  {
    if steps != [] {
      W.StepKeepsControl(size, windowSize, w, steps[0]);
      StepKeepsFit(size, windowSize, w, steps[0]);
      RunKeepsFit(size, windowSize, W.Apply(size, windowSize, w, steps[0]), steps[1..]);
    }
  }

  // ---------------------------------------------------------------------
  // The memory of all running fetchers
  // ---------------------------------------------------------------------

  /** The bytes in the buffers of the fetchers that own a slot, over all files. */
  ghost function RunningBytes(j: Joint): int {
    Total(map x | x in Running(j) :: |j.worlds[x.file].fetches[x.id].win.buf|)
  }

  /** The cap: so many bytes, and no more, are held by running fetchers. */
  ghost predicate WithinCap(windowSize: nat, j: Joint) {
    RunningBytes(j) <= S.Capacity(j.s.limit) * windowSize
  }

  predicate EventFits(files: seq<seq<byte>>, windowSize: nat, j: Joint, event: Event)
    requires Enabled(files, windowSize, j, event)
  {
    var i, step := FileOf(event), FetchStep(j, event);
    step.Some? ==> StepFits(|files[i]|, windowSize, j.worlds[i], step.value)
  }

  predicate AllEventsFit(files: seq<seq<byte>>, windowSize: nat, j: Joint, events: seq<Event>)
    requires CanRun(files, windowSize, j, events)
    decreases |events|
  {
    events == [] ||
    (EventFits(files, windowSize, j, events[0]) &&
     AllEventsFit(files, windowSize, Apply(files, windowSize, j, events[0]), events[1..]))
  }

  ghost predicate Fitting(files: seq<seq<byte>>, windowSize: nat, j: Joint) {
    && |j.worlds| == |files|
    && forall i | 0 <= i < |files| ::
         W.Controlled(|files[i]|, windowSize, j.worlds[i]) && AllFit(|files[i]|, windowSize, j.worlds[i])
  }

  lemma EventKeepsFit(files: seq<seq<byte>>, windowSize: nat, j: Joint, event: Event)
    requires windowSize > 0 && Fitting(files, windowSize, j)
    requires Enabled(files, windowSize, j, event) && EventFits(files, windowSize, j, event)
    ensures Fitting(files, windowSize, Apply(files, windowSize, j, event))
  {
    var i, step := FileOf(event), FetchStep(j, event);
    SlotStepEnabled(files, windowSize, j, event);
    if step.Some? {
      W.StepKeepsControl(|files[i]|, windowSize, j.worlds[i], step.value);
      StepKeepsFit(|files[i]|, windowSize, j.worlds[i], step.value);
    }
  }

  lemma {:induction false} JointKeepsFit(files: seq<seq<byte>>, windowSize: nat, j: Joint, events: seq<Event>)
    requires windowSize > 0 && Fitting(files, windowSize, j)
    requires CanRun(files, windowSize, j, events) && AllEventsFit(files, windowSize, j, events)
    ensures Fitting(files, windowSize, Final(files, windowSize, j, events))
    decreases |events|
  {
    if events != [] {
      EventKeepsFit(files, windowSize, j, events[0]);
      JointKeepsFit(files, windowSize, Apply(files, windowSize, j, events[0]), events[1..]);
    }
  }

  lemma {:induction false} TotalAtMost<K>(m: map<K, int>, bound: nat)
    requires forall k | k in m :: m[k] <= bound
    ensures Total(m) <= |m| * bound
    decreases |m|
  {
    if m != map[] {
      var k :| k in m;
      TotalRemove(m, k);
      assert (m - {k}).Keys == m.Keys - {k} && |m| == |m.Keys| && |m - {k}| == |(m - {k}).Keys|;
      TotalAtMost(m - {k}, bound);
      assert |m| * bound == |m - {k}| * bound + bound;
    }
  }

  lemma MultiplyAtMost(a: nat, b: nat, c: nat)
    requires a <= b
    ensures a * c <= b * c
  {
  }

  lemma RunningBytesAtMost(files: seq<seq<byte>>, windowSize: nat, j: Joint)
    requires Fitting(files, windowSize, j)
    ensures RunningBytes(j) <= |Running(j)| * windowSize
  {
    var sizes := map x | x in Running(j) :: |j.worlds[x.file].fetches[x.id].win.buf|;
    forall x | x in sizes ensures sizes[x] <= windowSize {
      assert BufferFits(|files[x.file]|, windowSize, j.worlds[x.file].fetches[x.id]);
    }
    TotalAtMost(sizes, windowSize);
    assert sizes.Keys == Running(j) && |sizes| == |sizes.Keys|;
  }

  /** With servers that send no more than they were asked for, running fetchers never
      hold more than `limit` windows' worth of bytes between them: for any files, any
      state of the cache and any interleaving. */
  lemma MemoryIsBounded(files: seq<seq<byte>>, windowSize: nat, limit: int, events: seq<Event>)
    requires windowSize > 0 && CanRun(files, windowSize, Start(|files|, limit), events)
    requires AllEventsFit(files, windowSize, Start(|files|, limit), events)
    ensures WithinCap(windowSize, Final(files, windowSize, Start(|files|, limit), events))
  {
    var j := Final(files, windowSize, Start(|files|, limit), events);
    JointKeepsFit(files, windowSize, Start(|files|, limit), events);
    AtMostLimitRun(files, windowSize, limit, events);
    RunKeepsLinked(files, windowSize, Start(|files|, limit), events);
    RunningBytesAtMost(files, windowSize, j);
    MultiplyAtMost(|Running(j)|, S.Capacity(limit), windowSize);
  }

  // ---------------------------------------------------------------------
  // Exactly when the cap holds
  // ---------------------------------------------------------------------

  /** Servers send true bytes, and readers cache none but true ones. */
  predicate HonestEvent(files: seq<seq<byte>>, windowSize: nat, j: Joint, event: Event)
    requires Enabled(files, windowSize, j, event)
  {
    var i, step := FileOf(event), FetchStep(j, event);
    step.Some? ==> W.Honest(files[i], windowSize, j.worlds[i], step.value)
  }

  predicate AllHonest(files: seq<seq<byte>>, windowSize: nat, j: Joint, events: seq<Event>)
    requires CanRun(files, windowSize, j, events)
    decreases |events|
  {
    events == [] ||
    (HonestEvent(files, windowSize, j, events[0]) &&
     AllHonest(files, windowSize, Apply(files, windowSize, j, events[0]), events[1..]))
  }

  predicate HonestRun(files: seq<seq<byte>>, windowSize: nat, j: Joint, events: seq<Event>) {
    CanRun(files, windowSize, j, events) && AllHonest(files, windowSize, j, events)
  }

  lemma {:induction false} SmallFilesFit(files: seq<seq<byte>>, windowSize: nat, j: Joint, events: seq<Event>)
    requires (forall file | file in files :: |file| <= windowSize) && HonestRun(files, windowSize, j, events)
    ensures AllEventsFit(files, windowSize, j, events)
    decreases |events|
  {
    if events != [] {
      var i, step := FileOf(events[0]), FetchStep(j, events[0]);
      SlotStepEnabled(files, windowSize, j, events[0]);
      assert files[i] in files;
      if step.Some? { SmallFileFits(files[i], windowSize, j.worlds[i], step.value); }
      SmallFilesFit(files, windowSize, Apply(files, windowSize, j, events[0]), events[1..]);
    }
  }

  /** The honest events lead from `j` to `j'`. */
  predicate Leads(files: seq<seq<byte>>, windowSize: nat, j: Joint, events: seq<Event>, j': Joint)
    decreases |events|
  {
    if events == [] then j == j'
    else
      && Enabled(files, windowSize, j, events[0]) && HonestEvent(files, windowSize, j, events[0])
      && Leads(files, windowSize, Apply(files, windowSize, j, events[0]), events[1..], j')
  }

  lemma {:induction false} LeadsIsRun(files: seq<seq<byte>>, windowSize: nat, j: Joint, events: seq<Event>, j': Joint)
    requires Leads(files, windowSize, j, events, j')
    ensures HonestRun(files, windowSize, j, events) && Final(files, windowSize, j, events) == j'
    decreases |events|
  {
    if events != [] { LeadsIsRun(files, windowSize, Apply(files, windowSize, j, events[0]), events[1..], j'); }
  }

  lemma LeadsCons(files: seq<seq<byte>>, windowSize: nat, j: Joint, event: Event, rest: seq<Event>, j': Joint)
    requires Enabled(files, windowSize, j, event) && HonestEvent(files, windowSize, j, event)
    requires Leads(files, windowSize, Apply(files, windowSize, j, event), rest, j')
    ensures Leads(files, windowSize, j, [event] + rest, j')
  {
    assert ([event] + rest)[1..] == rest;
  }

  function WithWorld(j: Joint, i: nat, w: W.World): Joint
    requires i < |j.worlds|
  {
    j.(worlds := j.worlds[i := w])
  }

  lemma LiftStep(files: seq<seq<byte>>, windowSize: nat, j: Joint, i: nat, step: W.Step, rest: seq<Event>, j': Joint)
    requires |j.worlds| == |files| && i < |files| && W.Good(files[i], windowSize, j.worlds[i], step)
    requires !TouchesSlot(step)
    requires Leads(files, windowSize, WithWorld(j, i, W.Apply(|files[i]|, windowSize, j.worlds[i], step)), rest, j')
    ensures Leads(files, windowSize, j, [Other(i, step)] + rest, j')
  {
    assert Apply(files, windowSize, j, Other(i, step)) ==
      WithWorld(j, i, W.Apply(|files[i]|, windowSize, j.worlds[i], step));
    LeadsCons(files, windowSize, j, Other(i, step), rest, j');
  }

  lemma WithWorldTwice(j: Joint, i: nat, w: W.World, w': W.World)
    requires i < |j.worlds|
    ensures WithWorld(WithWorld(j, i, w), i, w') == WithWorld(j, i, w')
    ensures WithWorld(j, i, j.worlds[i]) == j
  {
    assert j.worlds[i := w][i := w'] == j.worlds[i := w'] && j.worlds[i := j.worlds[i]] == j.worlds;
  }

  lemma GoodUncons(file: seq<byte>, windowSize: nat, w: W.World, steps: seq<W.Step>)
    requires steps != [] && W.GoodRun(file, windowSize, w, steps)
    ensures W.Good(file, windowSize, w, steps[0])
    ensures var w' := W.Apply(|file|, windowSize, w, steps[0]);
      W.GoodRun(file, windowSize, w', steps[1..]) &&
      W.Final(|file|, windowSize, w, steps) == W.Final(|file|, windowSize, w', steps[1..])
  {
  }

  ghost predicate RunsTo(file: seq<byte>, windowSize: nat, w: W.World, steps: seq<W.Step>, w': W.World) {
    W.GoodRun(file, windowSize, w, steps) && W.Final(|file|, windowSize, w, steps) == w'
  }

  /** A run of one file's protocol that leaves the slots alone, as events, before
      what comes after it. */
  lemma {:induction false} LiftLeads(files: seq<seq<byte>>, windowSize: nat, j: Joint, i: nat, steps: seq<W.Step>,
                                     w: W.World, rest: seq<Event>, j': Joint) returns (events: seq<Event>)
    requires |j.worlds| == |files| && i < |files| && RunsTo(files[i], windowSize, j.worlds[i], steps, w)
    requires forall step | step in steps :: !TouchesSlot(step)
    requires Leads(files, windowSize, WithWorld(j, i, w), rest, j')
    ensures Leads(files, windowSize, j, events, j')
    decreases |steps|
  {
    if steps == [] {
      WithWorldTwice(j, i, w, w);
      events := rest;
    } else {
      GoodUncons(files[i], windowSize, j.worlds[i], steps);
      var w1 := W.Apply(|files[i]|, windowSize, j.worlds[i], steps[0]);
      assert steps[0] in steps && forall step | step in steps[1..] :: step in steps;
      WithWorldTwice(j, i, w1, w);
      var tail := LiftLeads(files, windowSize, WithWorld(j, i, w1), i, steps[1..], w, rest, j');
      LiftStep(files, windowSize, j, i, steps[0], tail, j');
      events := [Other(i, steps[0])] + tail;
    }
  }

  // ---------------------------------------------------------------------
  // A full response
  // ---------------------------------------------------------------------

  /** The fetch while a full response is streamed from the file's start. */
  function Streaming(file: seq<byte>, windowSize: nat, read: nat): W.Fetch
    requires read <= |file|
  {
    W.Fetch(0, W.Window(file[..read], read, read, None, false), W.Body(0, 0, read, file[read..]), false,
      [W.Range(0, W.WindowEnd(|file|, windowSize, 0) - 1)], [], [], 1, 0)
  }

  /** A fetcher at the file's start, holding its slot. */
  function Holding(pc: W.Pc): W.Fetch { W.New(0).(acquired := 1, pc := pc) }

  /** Fetcher `id` in flight beside the others. */
  function Among(others: map<nat, W.Fetch>, id: nat, f: W.Fetch): W.World {
    W.World(map[], others[id := f], map[0 := id])
  }

  /** `n` chunks of one byte each. */
  function Chunks(id: nat, n: nat): seq<W.Step> {
    if n == 0 then [] else [W.Run(id, W.Read(1, W.More, false))] + Chunks(id, n - 1)
  }

  lemma {:induction false} StreamOn(file: seq<byte>, windowSize: nat, others: map<nat, W.Fetch>, id: nat, read: nat,
                                    n: nat)
    requires read + n <= |file|
    ensures W.GoodRun(file, windowSize, Among(others, id, Streaming(file, windowSize, read)), Chunks(id, n))
    ensures W.Final(|file|, windowSize, Among(others, id, Streaming(file, windowSize, read)), Chunks(id, n)) ==
      Among(others, id, Streaming(file, windowSize, read + n))
    decreases n
  {
    if n > 0 {
      var w, step := Among(others, id, Streaming(file, windowSize, read)), W.Run(id, W.Read(1, W.More, false));
      assert file[..read] + file[read..][..1] == file[..read + 1] && file[read..][1..] == file[read + 1..];
      assert W.Apply(|file|, windowSize, w, step).fetches == others[id := Streaming(file, windowSize, read + 1)];
      StreamOn(file, windowSize, others, id, read + 1, n - 1);
      W.GoodCons(file, windowSize, w, step, Chunks(id, n - 1));
    }
  }

  /** A server that ignores the range of a request from offset 0. */
  function FullResponse(file: seq<byte>, id: nat, n: nat): seq<W.Step> {
    [W.Run(id, W.BeginAttempt)] + ([W.Run(id, W.Lookup)] + ([W.Run(id, W.CopyPrefix(None))] +
      ([W.Run(id, W.Respond(W.Http(200, file)))] + Chunks(id, n))))
  }

  lemma ReplyStarts(file: seq<byte>, windowSize: nat, others: map<nat, W.Fetch>, id: nat, n: nat)
    requires windowSize > 0 && file != [] && n <= |file|
    ensures var w := Among(others, id, Holding(W.Request(0, 0)));
      var steps := [W.Run(id, W.Respond(W.Http(200, file)))] + Chunks(id, n);
      W.GoodRun(file, windowSize, w, steps) &&
      W.Final(|file|, windowSize, w, steps) == Among(others, id, Streaming(file, windowSize, n))
  {
    var f, step := Holding(W.Request(0, 0)), W.Run(id, W.Respond(W.Http(200, file)));
    var w, w' := Among(others, id, f), Among(others, id, Streaming(file, windowSize, 0));
    assert file[..0] == [] && file[0..] == file && W.Accepted(W.Http(200, file), 0);
    assert W.Section(|file|, windowSize, map[], f, step.fs).1 == Streaming(file, windowSize, 0);
    assert W.Apply(|file|, windowSize, w, step).fetches == w'.fetches;
    StreamOn(file, windowSize, others, id, 0, n);
    W.GoodCons(file, windowSize, w, step, Chunks(id, n));
  }

  lemma CopyStarts(file: seq<byte>, windowSize: nat, others: map<nat, W.Fetch>, id: nat, n: nat)
    requires windowSize > 0 && file != [] && n <= |file|
    ensures var w := Among(others, id, Holding(W.Prefill(0, 0)));
      var steps := [W.Run(id, W.CopyPrefix(None))] + ([W.Run(id, W.Respond(W.Http(200, file)))] + Chunks(id, n));
      W.GoodRun(file, windowSize, w, steps) &&
      W.Final(|file|, windowSize, w, steps) == Among(others, id, Streaming(file, windowSize, n))
  {
    var w, w' := Among(others, id, Holding(W.Prefill(0, 0))), Among(others, id, Holding(W.Request(0, 0)));
    ReplyStarts(file, windowSize, others, id, n);
    assert W.Apply(|file|, windowSize, w, W.Run(id, W.CopyPrefix(None))).fetches == w'.fetches;
    W.GoodCons(file, windowSize, w, W.Run(id, W.CopyPrefix(None)),
      [W.Run(id, W.Respond(W.Http(200, file)))] + Chunks(id, n));
  }

  lemma LookupStarts(file: seq<byte>, windowSize: nat, others: map<nat, W.Fetch>, id: nat, n: nat)
    requires windowSize > 0 && file != [] && n <= |file|
    ensures var w := Among(others, id, Holding(W.Look(0)));
      var steps := [W.Run(id, W.Lookup)] + ([W.Run(id, W.CopyPrefix(None))] +
        ([W.Run(id, W.Respond(W.Http(200, file)))] + Chunks(id, n)));
      W.GoodRun(file, windowSize, w, steps) &&
      W.Final(|file|, windowSize, w, steps) == Among(others, id, Streaming(file, windowSize, n))
  {
    var w, w' := Among(others, id, Holding(W.Look(0))), Among(others, id, Holding(W.Prefill(0, 0)));
    CopyStarts(file, windowSize, others, id, n);
    assert W.Apply(|file|, windowSize, w, W.Run(id, W.Lookup)).fetches == w'.fetches;
    W.GoodCons(file, windowSize, w, W.Run(id, W.Lookup),
      [W.Run(id, W.CopyPrefix(None))] + ([W.Run(id, W.Respond(W.Http(200, file)))] + Chunks(id, n)));
  }

  lemma FullResponseStreams(file: seq<byte>, windowSize: nat, others: map<nat, W.Fetch>, id: nat, n: nat)
    requires windowSize > 0 && file != [] && n <= |file|
    ensures var w := Among(others, id, Holding(W.Top(0)));
      W.GoodRun(file, windowSize, w, FullResponse(file, id, n)) &&
      W.Final(|file|, windowSize, w, FullResponse(file, id, n)) == Among(others, id, Streaming(file, windowSize, n))
  {
    var w1, w2 := Among(others, id, Holding(W.Top(0))), Among(others, id, Holding(W.Look(0)));
    var r2 := [W.Run(id, W.Lookup)] + ([W.Run(id, W.CopyPrefix(None))] +
      ([W.Run(id, W.Respond(W.Http(200, file)))] + Chunks(id, n)));
    LookupStarts(file, windowSize, others, id, n);
    assert W.Apply(|file|, windowSize, w1, W.Run(id, W.BeginAttempt)).fetches == w2.fetches;
    W.GoodCons(file, windowSize, w1, W.Run(id, W.BeginAttempt), r2);
  }

  // ---------------------------------------------------------------------
  // Filling every slot
  // ---------------------------------------------------------------------

  /** A fetcher that has been cancelled while it streams a full response. */
  function Lingering(file: seq<byte>, windowSize: nat): W.Fetch
    requires windowSize < |file|
  {
    var f := Streaming(file, windowSize, windowSize + 1);
    f.(ctxDone := true, win := f.win.(done := true))
  }

  function Ids(n: nat): (ids: set<nat>)
    ensures forall id: nat :: id in ids <==> id < n
  {
    if n == 0 then {} else Ids(n - 1) + {n - 1}
  }

  function Crowding(i: nat, n: nat): set<Fetcher> { set id | id in Ids(n) :: Fetcher(i, id) }

  function Lingerers(file: seq<byte>, windowSize: nat, n: nat): map<nat, W.Fetch>
    requires windowSize < |file|
  {
    map id | id in Ids(n) :: Lingering(file, windowSize)
  }

  /** `n` such fetchers of the i-th file, and nothing else going on. */
  function Crowd(files: seq<seq<byte>>, windowSize: nat, limit: int, i: nat, n: nat): Joint
    requires i < |files| && windowSize < |files[i]|
  {
    Joint(seq(|files|, k => W.Start())[i := W.World(map[], Lingerers(files[i], windowSize, n), map[])],
          S.Sem(limit, n, [], {}, set id | id in Ids(n) :: S.Ticket(id, 0), n),
          map x | x in Crowding(i, n) :: S.Ticket(x.id, 0))
  }

  /** While the next fetcher gets to the point where it streams and is cancelled. */
  function Entering(files: seq<seq<byte>>, windowSize: nat, limit: int, i: nat, n: nat, f: W.Fetch): Joint
    requires i < |files| && windowSize < |files[i]|
  {
    WithWorld(Crowd(files, windowSize, limit, i, n + 1), i, Among(Lingerers(files[i], windowSize, n), n, f))
  }

  lemma OneMoreOpens(files: seq<seq<byte>>, windowSize: nat, limit: int, i: nat, n: nat)
    requires i < |files| && windowSize < |files[i]| && n < limit
    ensures var j, open := Crowd(files, windowSize, limit, i, n), Other(i, W.Open(n, 0));
      var w := Among(Lingerers(files[i], windowSize, n), n, W.New(0));
      Enabled(files, windowSize, j, open) && HonestEvent(files, windowSize, j, open) &&
      Apply(files, windowSize, j, open) == WithWorld(j, i, w)
  {
  }

  /** With a slot free and nobody waiting, who enters is granted the slot at once. */
  lemma EnterGrants(files: seq<seq<byte>>, windowSize: nat, j: Joint, x: Fetcher)
    requires Enabled(files, windowSize, j, Enter(x, 0)) && j.s.held < j.s.limit && j.s.queue == []
    ensures HonestEvent(files, windowSize, j, Enter(x, 0))
    ensures var w, t := j.worlds[x.file], S.Ticket(j.s.next, 0);
      Apply(files, windowSize, j, Enter(x, 0)) ==
        Joint(j.worlds[x.file := w.(fetches := w.fetches[x.id := At(j, x).(acquired := 1, pc := W.Top(0))])],
              j.s.(held := j.s.held + 1, holders := j.s.holders + {t}, next := j.s.next + 1),
              j.tickets[x := t])
  {
  }

  lemma OneMoreIsGranted(files: seq<seq<byte>>, windowSize: nat, limit: int, i: nat, n: nat)
    requires i < |files| && windowSize < |files[i]| && n < limit
    ensures var w, enter := Among(Lingerers(files[i], windowSize, n), n, W.New(0)), Enter(Fetcher(i, n), 0);
      var j := WithWorld(Crowd(files, windowSize, limit, i, n), i, w);
      Enabled(files, windowSize, j, enter) && HonestEvent(files, windowSize, j, enter) &&
      Apply(files, windowSize, j, enter) == Entering(files, windowSize, limit, i, n, Holding(W.Top(0)))
  {
    var others := Lingerers(files[i], windowSize, n);
    var w, w' := Among(others, n, W.New(0)), Among(others, n, Holding(W.Top(0)));
    var j := WithWorld(Crowd(files, windowSize, limit, i, n), i, w);
    var j', entered := Apply(files, windowSize, j, Enter(Fetcher(i, n), 0)),
      Entering(files, windowSize, limit, i, n, Holding(W.Top(0)));
    EnterGrants(files, windowSize, j, Fetcher(i, n));
    assert w.fetches[n := Holding(W.Top(0))] == w'.fetches;
    assert j'.worlds == entered.worlds;
    assert j'.s.holders == entered.s.holders;
    assert j'.tickets == entered.tickets;
  }

  /** Cancelled, it keeps its buffer and its slot; the window's place is free again. */
  lemma OneMoreLingers(files: seq<seq<byte>>, windowSize: nat, limit: int, i: nat, n: nat)
    requires i < |files| && 0 < windowSize < |files[i]| && n < limit
    ensures var j := Entering(files, windowSize, limit, i, n, Streaming(files[i], windowSize, windowSize + 1));
      var cancel := Other(i, W.CancelOne(0));
      Enabled(files, windowSize, j, cancel) && HonestEvent(files, windowSize, j, cancel) &&
      Apply(files, windowSize, j, cancel) == Crowd(files, windowSize, limit, i, n + 1)
  {
    var file, others := files[i], Lingerers(files[i], windowSize, n);
    var w := Among(others, n, Streaming(file, windowSize, windowSize + 1));
    var j := Entering(files, windowSize, limit, i, n, Streaming(file, windowSize, windowSize + 1));
    assert w.fetches[n := Lingering(file, windowSize)] == Lingerers(file, windowSize, n + 1);
    assert w.inflight - {0} == map[];
    assert Apply(files, windowSize, j, Other(i, W.CancelOne(0))).worlds ==
      Crowd(files, windowSize, limit, i, n + 1).worlds;
  }

  lemma {:induction false} SlotsUntouched(file: seq<byte>, id: nat, n: nat)
    ensures forall step | step in Chunks(id, n) :: !TouchesSlot(step)
    ensures forall step | step in FullResponse(file, id, n) :: !TouchesSlot(step)
    decreases n
  {
    if n > 0 { SlotsUntouched(file, id, n - 1); }
  }

  lemma OneMoreStreams(files: seq<seq<byte>>, windowSize: nat, limit: int, i: nat, n: nat, rest: seq<Event>, j': Joint)
    returns (events: seq<Event>)
    requires i < |files| && 0 < windowSize < |files[i]| && n < limit
    requires Leads(files, windowSize, Crowd(files, windowSize, limit, i, n + 1), rest, j')
    ensures Leads(files, windowSize, Entering(files, windowSize, limit, i, n, Holding(W.Top(0))), events, j')
  {
    var steps, full := FullResponse(files[i], n, windowSize + 1), Streaming(files[i], windowSize, windowSize + 1);
    var j, streamed := Entering(files, windowSize, limit, i, n, Holding(W.Top(0))),
      Entering(files, windowSize, limit, i, n, full);
    var w := Among(Lingerers(files[i], windowSize, n), n, full);
    OneMoreLingers(files, windowSize, limit, i, n);
    LeadsCons(files, windowSize, streamed, Other(i, W.CancelOne(0)), rest, j');
    FullResponseStreams(files[i], windowSize, Lingerers(files[i], windowSize, n), n, windowSize + 1);
    SlotsUntouched(files[i], n, windowSize + 1);
    assert WithWorld(j, i, w).worlds == streamed.worlds;
    events := LiftLeads(files, windowSize, j, i, steps, w, [Other(i, W.CancelOne(0))] + rest, j');
  }

  lemma CrowdGrows(files: seq<seq<byte>>, windowSize: nat, limit: int, i: nat, n: nat, rest: seq<Event>, j': Joint)
    returns (events: seq<Event>)
    requires i < |files| && 0 < windowSize < |files[i]| && n < limit
    requires Leads(files, windowSize, Crowd(files, windowSize, limit, i, n + 1), rest, j')
    ensures Leads(files, windowSize, Crowd(files, windowSize, limit, i, n), events, j')
  {
    var j, w := Crowd(files, windowSize, limit, i, n), Among(Lingerers(files[i], windowSize, n), n, W.New(0));
    var after := OneMoreStreams(files, windowSize, limit, i, n, rest, j');
    OneMoreIsGranted(files, windowSize, limit, i, n);
    LeadsCons(files, windowSize, WithWorld(j, i, w), Enter(Fetcher(i, n), 0), after, j');
    OneMoreOpens(files, windowSize, limit, i, n);
    LeadsCons(files, windowSize, j, Other(i, W.Open(n, 0)), [Enter(Fetcher(i, n), 0)] + after, j');
    events := [Other(i, W.Open(n, 0))] + ([Enter(Fetcher(i, n), 0)] + after);
  }

  /** Honest events that fill all slots this way, one after the other. */
  lemma {:induction false} CrowdGathers(files: seq<seq<byte>>, windowSize: nat, limit: nat, i: nat, n: nat)
    returns (events: seq<Event>)
    requires i < |files| && 0 < windowSize < |files[i]| && n <= limit
    ensures Leads(files, windowSize, Crowd(files, windowSize, limit, i, n), events,
                  Crowd(files, windowSize, limit, i, limit))
    decreases limit - n
  {
    if n == limit {
      events := [];
    } else {
      var rest := CrowdGathers(files, windowSize, limit, i, n + 1);
      events := CrowdGrows(files, windowSize, limit, i, n, rest, Crowd(files, windowSize, limit, i, limit));
    }
  }

  lemma NoCrowd(files: seq<seq<byte>>, windowSize: nat, limit: int, i: nat)
    requires i < |files| && windowSize < |files[i]|
    ensures Crowd(files, windowSize, limit, i, 0) == Start(|files|, limit)
  {
    var crowd, start := Crowd(files, windowSize, limit, i, 0), Start(|files|, limit);
    assert Lingerers(files[i], windowSize, 0) == map[];
    assert crowd.worlds == start.worlds && crowd.tickets == map[] && crowd.s == start.s;
  }

  lemma {:induction false} TotalOfEqual<K>(m: map<K, int>, v: int)
    requires forall k | k in m :: m[k] == v
    ensures Total(m) == |m| * v
    decreases |m|
  {
    if m != map[] {
      var k :| k in m;
      TotalRemove(m, k);
      assert (m - {k}).Keys == m.Keys - {k} && |m| == |m.Keys| && |m - {k}| == |(m - {k}).Keys|;
      TotalOfEqual(m - {k}, v);
      assert |m| * v == |m - {k}| * v + v;
    }
  }

  lemma {:induction false} CrowdSize(i: nat, n: nat)
    ensures |Crowding(i, n)| == n
    decreases n
  {
    if n > 0 {
      CrowdSize(i, n - 1);
      assert Crowding(i, n) == Crowding(i, n - 1) + {Fetcher(i, n - 1)};
    } else {
      assert Crowding(i, 0) == {};
    }
  }

  lemma CrowdRuns(files: seq<seq<byte>>, windowSize: nat, limit: int, i: nat, n: nat)
    requires i < |files| && windowSize < |files[i]|
    ensures Running(Crowd(files, windowSize, limit, i, n)) == Crowding(i, n)
    ensures forall x | x in Crowding(i, n) ::
      Present(Crowd(files, windowSize, limit, i, n), x) &&
      |At(Crowd(files, windowSize, limit, i, n), x).win.buf| == windowSize + 1
  {
  }

  /** Its buffers hold one byte more than a window each. */
  lemma CrowdBytes(files: seq<seq<byte>>, windowSize: nat, limit: int, i: nat, n: nat)
    requires i < |files| && windowSize < |files[i]|
    ensures RunningBytes(Crowd(files, windowSize, limit, i, n)) == n * (windowSize + 1)
  {
    var j := Crowd(files, windowSize, limit, i, n);
    CrowdRuns(files, windowSize, limit, i, n);
    var sizes := map x | x in Running(j) :: |j.worlds[x.file].fetches[x.id].win.buf|;
    assert sizes.Keys == Running(j) && |sizes| == |sizes.Keys|;
    CrowdSize(i, n);
    TotalOfEqual(sizes, windowSize + 1);
  }

  /** For every limit that lets anybody in, a file longer than a window is enough to
      exceed the cap: each slot is taken by a fetcher of the file's start that is
      sent the whole file and cancelled one byte past the window. */
  lemma CapCanBeExceeded(files: seq<seq<byte>>, windowSize: nat, limit: int, i: nat) returns (events: seq<Event>)
    requires i < |files| && 0 < windowSize < |files[i]| && limit > 0
    ensures HonestRun(files, windowSize, Start(|files|, limit), events)
    ensures var j := Final(files, windowSize, Start(|files|, limit), events);
      j.s.limit == limit && RunningBytes(j) == limit * (windowSize + 1) > S.Capacity(limit) * windowSize
  {
    events := CrowdGathers(files, windowSize, limit, i, 0);
    NoCrowd(files, windowSize, limit, i);
    LeadsIsRun(files, windowSize, Start(|files|, limit), events, Crowd(files, windowSize, limit, i, limit));
    CrowdExceeds(files, windowSize, limit, i);
  }

  lemma CrowdExceeds(files: seq<seq<byte>>, windowSize: nat, limit: int, i: nat)
    requires i < |files| && windowSize < |files[i]| && limit > 0
    ensures RunningBytes(Crowd(files, windowSize, limit, i, limit)) == limit * (windowSize + 1)
    ensures limit * (windowSize + 1) > S.Capacity(limit) * windowSize
  {
    CrowdBytes(files, windowSize, limit, i, limit);
    OneMoreEach(limit, windowSize);
  }

  lemma OneMoreEach(n: nat, k: nat)
    requires n > 0
    ensures n * (k + 1) > n * k
  {
    assert n * (k + 1) == n * k + n;
  }

  /** The running fetchers of all files stay within the cap, with honest servers,
      whatever the cache and the readers do. */
  ghost predicate CapHolds(files: seq<seq<byte>>, windowSize: nat, limit: int) {
    forall events | HonestRun(files, windowSize, Start(|files|, limit), events) ::
      WithinCap(windowSize, Final(files, windowSize, Start(|files|, limit), events))
  }

  /** Exactly when that is so. */
  lemma CapHoldsIff(files: seq<seq<byte>>, windowSize: nat, limit: int)
    requires windowSize > 0
    ensures CapHolds(files, windowSize, limit) <==> limit <= 0 || forall file | file in files :: |file| <= windowSize
  {
    if limit <= 0 || forall file | file in files :: |file| <= windowSize {
      forall events | HonestRun(files, windowSize, Start(|files|, limit), events)
        ensures WithinCap(windowSize, Final(files, windowSize, Start(|files|, limit), events))
      {
        if limit <= 0 {
          NoSlotsNoBytes(files, windowSize, limit, events);
        } else {
          SmallFilesFit(files, windowSize, Start(|files|, limit), events);
          MemoryIsBounded(files, windowSize, limit, events);
        }
      }
    } else {
      var file :| file in files && |file| > windowSize;
      var i :| 0 <= i < |files| && files[i] == file;
      var events := CapCanBeExceeded(files, windowSize, limit, i);
      assert !WithinCap(windowSize, Final(files, windowSize, Start(|files|, limit), events));
    }
  }

  lemma NoSlotsNoBytes(files: seq<seq<byte>>, windowSize: nat, limit: int, events: seq<Event>)
    requires limit <= 0 && CanRun(files, windowSize, Start(|files|, limit), events)
    ensures WithinCap(windowSize, Final(files, windowSize, Start(|files|, limit), events))
  {
    var j := Final(files, windowSize, Start(|files|, limit), events);
    AtMostLimitRun(files, windowSize, limit, events);
    RunKeepsLinked(files, windowSize, Start(|files|, limit), events);
    NobodyRunning(j);
  }

  lemma NobodyRunning(j: Joint)
    ensures Running(j) == {} ==> RunningBytes(j) == 0
  {
    var sizes := map x | x in Running(j) :: |j.worlds[x.file].fetches[x.id].win.buf|;
    assert sizes.Keys == Running(j);
    assert sizes.Keys == {} ==> sizes == map[];
  }

  // ---------------------------------------------------------------------
  // A single buffer
  // ---------------------------------------------------------------------

  /** No buffer of the file ever outgrows a window. */
  ghost predicate BuffersFit(file: seq<byte>, windowSize: nat) {
    forall steps: seq<W.Step>, id: nat ::
      W.GoodRun(file, windowSize, W.Start(), steps) && id in W.Final(|file|, windowSize, W.Start(), steps).fetches ==>
        |W.Final(|file|, windowSize, W.Start(), steps).fetches[id].win.buf| <= windowSize
  }

  lemma {:induction false} GoodRepliesFit(file: seq<byte>, windowSize: nat, w: W.World, steps: seq<W.Step>)
    requires |file| <= windowSize && W.GoodRun(file, windowSize, w, steps)
    ensures AllRepliesFit(|file|, windowSize, w, steps)
    decreases |steps|
  {
    if steps != [] {
      SmallFileFits(file, windowSize, w, steps[0]);
      GoodRepliesFit(file, windowSize, W.Apply(|file|, windowSize, w, steps[0]), steps[1..]);
    }
  }

  lemma FirstWindowStreams(file: seq<byte>, windowSize: nat, n: nat) returns (steps: seq<W.Step>)
    requires windowSize > 0 && file != [] && n <= |file|
    ensures W.GoodRun(file, windowSize, W.Start(), steps)
    ensures W.Final(|file|, windowSize, W.Start(), steps) == Among(map[], 0, Streaming(file, windowSize, n))
  {
    var rest, grant := FullResponse(file, 0, n), W.Run(0, W.SlotResult(true));
    FullResponseStreams(file, windowSize, map[], 0, n);
    assert W.Apply(|file|, windowSize, Among(map[], 0, W.New(0)), grant).fetches == map[0 := Holding(W.Top(0))];
    W.GoodCons(file, windowSize, Among(map[], 0, W.New(0)), grant, rest);
    W.GoodCons(file, windowSize, W.Start(), W.Open(0, 0), [grant] + rest);
    steps := [W.Open(0, 0)] + ([grant] + rest);
  }

  /** Exactly when that is so: a 200 reply is accepted at offset 0 and never cut off. */
  lemma BuffersFitIff(file: seq<byte>, windowSize: nat)
    requires windowSize > 0
    ensures BuffersFit(file, windowSize) <==> |file| <= windowSize
  {
    if |file| <= windowSize {
      forall steps: seq<W.Step>, id: nat
        | W.GoodRun(file, windowSize, W.Start(), steps) && id in W.Final(|file|, windowSize, W.Start(), steps).fetches
        ensures |W.Final(|file|, windowSize, W.Start(), steps).fetches[id].win.buf| <= windowSize
      {
        GoodRepliesFit(file, windowSize, W.Start(), steps);
        RunKeepsFit(|file|, windowSize, W.Start(), steps);
        assert BufferFits(|file|, windowSize, W.Final(|file|, windowSize, W.Start(), steps).fetches[id]);
      }
    } else {
      var steps := FirstWindowStreams(file, windowSize, windowSize + 1);
      assert 0 in W.Final(|file|, windowSize, W.Start(), steps).fetches;
    }
  }
}
