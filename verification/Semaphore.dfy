/** The priority-ordered slot semaphore that limits concurrent window fetches
    (`budgetSem`) and, with the same algorithm, concurrent requests to one CDN
    host (`hostSem`).

    `Sem` is the shared state whenever the mutex is free. Each `Step` is one
    section executed under the mutex, by any goroutine; a call to acquire is named
    by its ticket: its arrival number and its priority. The class `BudgetSem` is the code
    of those sections, proved to perform exactly these steps. */
module Semaphore {

  datatype Ticket = Ticket(id: nat, priority: nat)

  /** `held` is the counter of the source. `granted` (slot handed over, waiter
      not yet awake) and `holders` say who the counted slots belong to. */
  datatype Sem = Sem(
    limit: int,
    held: int,
    queue: seq<Ticket>,
    granted: set<Ticket>,
    holders: set<Ticket>,
    next: nat
  )

  datatype Step =
    | Acquire(priority: nat)               // enter acquire: take a slot or enqueue
    | Recheck(t: Ticket, cancelled: bool)  // an enqueued caller re-examines its waiter
    | Release(t: Ticket)                   // a holder returns its slot

  // ---------------------------------------------------------------------
  // The queue order
  // ---------------------------------------------------------------------

  predicate Before(a: Ticket, b: Ticket) {
    a.priority > b.priority || (a.priority == b.priority && a.id < b.id)
  }

  /** Descending priority, arrival order within one priority. */
  ghost predicate Ordered(q: seq<Ticket>) {
    forall i, j {:trigger Before(q[i], q[j])} | 0 <= i < j < |q| :: Before(q[i], q[j])
  }

  /** The first position whose ticket has a strictly lower priority. */
  function InsertPos(q: seq<Ticket>, priority: nat): (k: nat)
    ensures k <= |q|
    ensures forall i | 0 <= i < k :: q[i].priority >= priority
    ensures k < |q| ==> q[k].priority < priority
  {
    if q == [] || q[0].priority < priority then 0 else 1 + InsertPos(q[1..], priority)
  }

  function InsertAt<T>(q: seq<T>, k: nat, x: T): (r: seq<T>)
    requires k <= |q|
    ensures |r| == |q| + 1
    ensures forall i | 0 <= i < |r| :: r[i] == if i < k then q[i] else if i == k then x else q[i - 1]
  {
    q[..k] + [x] + q[k..]
  }

  lemma InsertAtMembers<T>(q: seq<T>, k: nat, x: T)
    requires k <= |q|
    ensures multiset(InsertAt(q, k, x)) == multiset(q) + multiset{x}
  {
    assert q == q[..k] + q[k..];
  }

  function Insert(q: seq<Ticket>, t: Ticket): seq<Ticket> {
    InsertAt(q, InsertPos(q, t.priority), t)
  }

  /** Inserting the newest ticket keeps the order and adds exactly that ticket. */
  lemma InsertIsOrdered(q: seq<Ticket>, t: Ticket)
    requires Ordered(q) && forall x | x in q :: x.id < t.id
    ensures Ordered(Insert(q, t))
    ensures multiset(Insert(q, t)) == multiset(q) + multiset{t}
  {
    var k, r := InsertPos(q, t.priority), Insert(q, t);
    InsertAtMembers(q, k, t);
    forall i, j | 0 <= i < j < |r| ensures Before(r[i], r[j]) {
      if i == k {
        NewBeforeTail(q, t, j - 1);
      } else if j == k {
        assert q[i] in q;
      } else if i < k {
        assert Before(q[i], q[if j < k then j else j - 1]);
      } else {
        assert Before(q[i - 1], q[j - 1]);
      }
    }
  }

  lemma NewBeforeTail(q: seq<Ticket>, t: Ticket, j: nat)
    requires Ordered(q) && InsertPos(q, t.priority) <= j < |q|
    ensures Before(t, q[j])
  {
    var k := InsertPos(q, t.priority);
    assert k < j ==> Before(q[k], q[j]);
  }

  lemma HeadOf<T>(a: seq<T>)
    requires a != []
    ensures multiset(a) == multiset{a[0]} + multiset(a[1..])
  {
    assert a == [a[0]] + a[1..];
  }

  lemma OrderedHead(a: seq<Ticket>, b: seq<Ticket>)
    requires Ordered(a) && Ordered(b) && a != [] && b != []
    requires a[0] in b && b[0] in a
    ensures a[0] == b[0]
  {
    var i :| 0 <= i < |b| && b[i] == a[0];
    var j :| 0 <= j < |a| && a[j] == b[0];
    assert 0 < i ==> Before(b[0], b[i]);
    assert 0 < j ==> Before(a[0], a[j]);
  }

  /** There is only one ordered arrangement of a set of tickets, so the in-place
      insertion is stable ordered insertion and not merely one that sorts. */
  lemma {:induction false} OrderedIsUnique(a: seq<Ticket>, b: seq<Ticket>)
    requires Ordered(a) && Ordered(b) && multiset(a) == multiset(b)
    ensures a == b
    decreases |a|
  {
    assert |multiset(a)| == |a| && |multiset(b)| == |b|;
    if a != [] {
      HeadOf(a);
      HeadOf(b);
      assert a[0] in multiset(b) && b[0] in multiset(a);
      OrderedHead(a, b);
      OrderedTail(a);
      OrderedTail(b);
      assert multiset(a[1..]) == multiset(a) - multiset{a[0]};
      assert multiset(b[1..]) == multiset(b) - multiset{b[0]};
      OrderedIsUnique(a[1..], b[1..]);
      assert a == [a[0]] + a[1..] && b == [b[0]] + b[1..];
    }
  }

  lemma OrderedTail(q: seq<Ticket>)
    requires Ordered(q) && q != []
    ensures Ordered(q[1..])
  {
    forall i, j | 0 <= i < j < |q[1..]| ensures Before(q[1..][i], q[1..][j]) {
      assert Before(q[i + 1], q[j + 1]);
    }
  }

  /** The number of tickets ahead of `t`. */
  function Pos(q: seq<Ticket>, t: Ticket): (k: nat)
    ensures k <= |q|
    ensures k < |q| <==> t in q
    ensures k < |q| ==> q[k] == t
    ensures forall i | 0 <= i < k :: q[i] != t
  {
    if q == [] || q[0] == t then 0 else 1 + Pos(q[1..], t)
  }

  function Remove(q: seq<Ticket>, t: Ticket): (r: seq<Ticket>)
  {
    var k := Pos(q, t);
    if k < |q| then q[..k] + q[k + 1..] else q
  }

  // ---------------------------------------------------------------------
  // The transition system
  // ---------------------------------------------------------------------

  predicate Enabled(s: Sem, step: Step) {
    match step
    case Acquire(_) => true
    case Recheck(t, _) => t in s.queue || t in s.granted
    case Release(t) => t in s.holders
  }

  function Apply(s: Sem, step: Step): Sem {
    match step
    case Acquire(priority) =>
      var t := Ticket(s.next, priority);
      if s.held < s.limit && s.queue == [] then
        s.(held := s.held + 1, holders := s.holders + {t}, next := s.next + 1)
      else
        s.(queue := Insert(s.queue, t), next := s.next + 1)
    case Recheck(t, cancelled) =>
      // A waiter that was granted before it noticed the cancellation keeps its slot.
      if t in s.granted then s.(granted := s.granted - {t}, holders := s.holders + {t})
      else if cancelled then s.(queue := Remove(s.queue, t))
      else s
    case Release(t) =>
      var s' := s.(held := s.held - 1, holders := s.holders - {t});
      if s.queue == [] then s'
      else s'.(held := s.held, queue := s.queue[1..], granted := s.granted + {s.queue[0]})
  }

  predicate CanRun(s: Sem, steps: seq<Step>)
    decreases |steps|
  {
    steps == [] || (Enabled(s, steps[0]) && CanRun(Apply(s, steps[0]), steps[1..]))
  }

  function Final(s: Sem, steps: seq<Step>): Sem
    decreases |steps|
  {
    if steps == [] then s else Final(Apply(s, steps[0]), steps[1..])
  }

  function New(limit: int): Sem { Sem(limit, 0, [], {}, {}, 0) }

  function Capacity(limit: int): nat { if limit < 0 then 0 else limit }

  ghost predicate Inv(s: Sem) {
    && SlotsOwned(s)
    && QueueWellFormed(s)
  }

  /** Every counted slot has exactly one owner, the limit is respected, and a slot
      is never free while somebody queues. */
  ghost predicate SlotsOwned(s: Sem) {
    && s.held == |s.granted| + |s.holders|
    && s.granted !! s.holders
    && s.held <= Capacity(s.limit)
    && (s.queue != [] ==> s.held == Capacity(s.limit))
  }

  /** The queue is in its order and tickets are not reused. */
  ghost predicate QueueWellFormed(s: Sem) {
    && Ordered(s.queue)
    && (forall t | t in s.queue :: t !in s.granted && t !in s.holders)
    && (forall t | t in s.queue :: t.id < s.next)
    && (forall t | t in s.granted :: t.id < s.next)
    && (forall t | t in s.holders :: t.id < s.next)
  }

  lemma RemoveOne(q: seq<Ticket>, t: Ticket)
    requires Ordered(q)
    ensures Ordered(Remove(q, t))
    ensures forall u :: u in Remove(q, t) <==> u in q && u != t
  {
    var k, r := Pos(q, t), Remove(q, t);
    if k < |q| {
      forall i, j | 0 <= i < j < |r| ensures Before(r[i], r[j]) {
        assert Before(q[if i < k then i else i + 1], q[if j < k then j else j + 1]);
      }
      forall u | u in q && u != t ensures u in r {
        var i :| 0 <= i < |q| && q[i] == u;
        assert r[if i < k then i else i - 1] == u;
      }
      forall u | u in r ensures u in q && u != t {
        var i :| 0 <= i < |r| && r[i] == u;
        assert u == q[if i < k then i else i + 1];
        assert k <= i ==> Before(q[k], q[i + 1]);
      }
    }
  }

  lemma HeadLeaves(q: seq<Ticket>)
    requires Ordered(q) && q != []
    ensures Ordered(q[1..])
    ensures forall u :: u in q[1..] <==> u in q && u != q[0]
  {
    OrderedTail(q);
    forall u | u in q[1..] ensures u != q[0] {
      var i :| 0 <= i < |q[1..]| && q[1..][i] == u;
      assert Before(q[0], q[i + 1]);
    }
  }

  lemma InsertMembers(q: seq<Ticket>, t: Ticket)
    ensures forall u :: u in Insert(q, t) <==> u in q || u == t
  {
    InsertAtMembers(q, InsertPos(q, t.priority), t);
    forall u ensures u in Insert(q, t) <==> u in multiset(q) || u == t {
      assert u in Insert(q, t) <==> u in multiset(Insert(q, t));
    }
  }

  lemma StepKeepsInv(s: Sem, step: Step)
    requires Inv(s) && Enabled(s, step)
    ensures Inv(Apply(s, step))
    ensures Apply(s, step).limit == s.limit && s.next <= Apply(s, step).next
  {
    match step
    case Acquire(priority) =>
      InsertIsOrdered(s.queue, Ticket(s.next, priority));
      InsertMembers(s.queue, Ticket(s.next, priority));
    case Recheck(t, cancelled) =>
      RemoveOne(s.queue, t);
    case Release(t) =>
      if s.queue != [] { HeadLeaves(s.queue); }
  }

  lemma {:induction false} RunKeepsInv(s: Sem, steps: seq<Step>)
    requires Inv(s) && CanRun(s, steps)
    ensures Inv(Final(s, steps)) && Final(s, steps).limit == s.limit
    decreases |steps|
  {
    if steps != [] {
      StepKeepsInv(s, steps[0]);
      RunKeepsInv(Apply(s, steps[0]), steps[1..]);
    }
  }

  /** Safety over every interleaving of any number of callers. */
  lemma SlotsAreSafe(limit: int, steps: seq<Step>)
    requires CanRun(New(limit), steps)
    ensures var s := Final(New(limit), steps);
      && s.held == |s.granted| + |s.holders| && s.granted !! s.holders
      && s.held <= Capacity(limit)
      && (s.queue != [] ==> s.held == Capacity(limit))
      && Ordered(s.queue)
  {
    RunKeepsInv(New(limit), steps);
  }

  // ---------------------------------------------------------------------
  // Cancellation
  // ---------------------------------------------------------------------

  /** The call has ended: it neither waits nor owns a slot. */
  predicate Settled(s: Sem, t: Ticket) {
    t.id < s.next && t !in s.queue && t !in s.granted && t !in s.holders
  }

  /** A cancelled caller either keeps the slot it had been granted or leaves
      without one; the slots counted and owned by everybody else do not change. */
  lemma CancelNeitherLeaksNorDuplicates(s: Sem, t: Ticket)
    requires Inv(s) && Enabled(s, Recheck(t, true))
    ensures var s' := Apply(s, Recheck(t, true));
      && s'.held == s.held && |s'.granted| + |s'.holders| == |s.granted| + |s.holders|
      && s'.granted - {t} == s.granted - {t} && s'.holders - {t} == s.holders - {t}
      && (t in s.granted ==> t in s'.holders && s'.queue == s.queue)
      && (t !in s.granted ==> Settled(s', t))
      && (forall u :: u in s'.queue <==> u in s.queue && u != t)
  {
    StepKeepsInv(s, Recheck(t, true));
    RemoveOne(s.queue, t);
  }

  /** Once settled, always settled: no slot is ever handed to a call that gave up
      or has already released. */
  lemma {:induction false} SettledForever(s: Sem, steps: seq<Step>, t: Ticket)
    requires Inv(s) && CanRun(s, steps) && Settled(s, t)
    ensures Settled(Final(s, steps), t)
    decreases |steps|
  {
    if steps != [] {
      StepKeepsInv(s, steps[0]);
      StepQueues(s, steps[0], t);
      SettledForever(Apply(s, steps[0]), steps[1..], t);
    }
  }

  /** Only a call that has not begun yet can become queued. */
  lemma StepQueues(s: Sem, step: Step, t: Ticket)
    requires Inv(s) && Enabled(s, step) && t.id < s.next && t !in s.queue
    ensures t !in Apply(s, step).queue
  {
    match step
    case Acquire(priority) => InsertMembers(s.queue, Ticket(s.next, priority));
    case Recheck(u, cancelled) => RemoveOne(s.queue, u);
    case Release(u) => if s.queue != [] { HeadLeaves(s.queue); }
  }

  lemma {:induction false} NeverRequeued(s: Sem, steps: seq<Step>, t: Ticket)
    requires Inv(s) && CanRun(s, steps) && t.id < s.next && t !in s.queue
    ensures t !in Final(s, steps).queue
    decreases |steps|
  {
    if steps != [] {
      StepKeepsInv(s, steps[0]);
      StepQueues(s, steps[0], t);
      NeverRequeued(Apply(s, steps[0]), steps[1..], t);
    }
  }

  // ---------------------------------------------------------------------
  // Bounded bypass
  // ---------------------------------------------------------------------

  function Grant(s: Sem, step: Step): nat {
    if step.Release? && s.queue != [] then 1 else 0
  }

  function HigherArrival(step: Step, priority: nat): nat {
    if step.Acquire? && step.priority > priority then 1 else 0
  }

  function Departure(s: Sem, step: Step, t: Ticket): nat {
    if step.Recheck? && step.cancelled && step.t !in s.granted && Pos(s.queue, step.t) < Pos(s.queue, t) then 1 else 0
  }

  /** Grants handed out along a run. */
  function Grants(s: Sem, steps: seq<Step>): nat
    decreases |steps|
  {
    if steps == [] then 0 else Grant(s, steps[0]) + Grants(Apply(s, steps[0]), steps[1..])
  }

  /** Calls to acquire along a run with a strictly higher priority. */
  function HigherArrivals(steps: seq<Step>, priority: nat): nat {
    if steps == [] then 0 else HigherArrival(steps[0], priority) + HigherArrivals(steps[1..], priority)
  }

  /** Waiters ahead of `t` that give up along a run. */
  function Departures(s: Sem, steps: seq<Step>, t: Ticket): nat
    decreases |steps|
  {
    if steps == [] then 0 else Departure(s, steps[0], t) + Departures(Apply(s, steps[0]), steps[1..], t)
  }

  lemma PosAt(q: seq<Ticket>, k: nat)
    requires Ordered(q) && k < |q|
    ensures Pos(q, q[k]) == k
  {
    var p := Pos(q, q[k]);
    assert p < k ==> Before(q[p], q[k]);
  }

  lemma ArrivalMovesTicket(q: seq<Ticket>, arriving: Ticket, t: Ticket)
    requires Ordered(q) && t in q && forall x | x in q :: x.id < arriving.id
    ensures Pos(Insert(q, arriving), t) == Pos(q, t) + (if arriving.priority > t.priority then 1 else 0)
  {
    var i, k := Pos(q, t), InsertPos(q, arriving.priority);
    InsertIsOrdered(q, arriving);
    if k <= i {
      NewBeforeTail(q, arriving, i);
      PosAt(Insert(q, arriving), i + 1);
    } else {
      PosAt(Insert(q, arriving), i);
    }
  }

  lemma DepartureMovesTicket(s: Sem, u: Ticket, t: Ticket)
    requires Inv(s) && t in s.queue && u in s.queue && u != t
    ensures t in Remove(s.queue, u)
    ensures Pos(Remove(s.queue, u), t) == Pos(s.queue, t) - (if Pos(s.queue, u) < Pos(s.queue, t) then 1 else 0)
  {
    var i, k, q := Pos(s.queue, t), Pos(s.queue, u), Remove(s.queue, u);
    RemoveOne(s.queue, u);
    assert i != k;
    assert q[if i < k then i else i - 1] == t;
    PosAt(q, if i < k then i else i - 1);
  }

  /** How one step moves a ticket that is still queued afterwards. */
  lemma StepMovesTicket(s: Sem, step: Step, t: Ticket)
    requires Inv(s) && Enabled(s, step) && t in s.queue && t in Apply(s, step).queue
    ensures Pos(Apply(s, step).queue, t) + Grant(s, step) + Departure(s, step, t)
         == Pos(s.queue, t) + HigherArrival(step, t.priority)
  {
    match step {
      case Acquire(p) =>
        ArrivalMovesTicket(s.queue, Ticket(s.next, p), t);
      case Recheck(u, cancelled) =>
        if u !in s.granted && cancelled {
          RemoveOne(s.queue, u);
          DepartureMovesTicket(s, u, t);
        }
      case Release(u) =>
        HeadLeaves(s.queue);
        var i := Pos(s.queue, t);
        assert s.queue[1..][i - 1] == t;
        PosAt(s.queue[1..], i - 1);
    }
  }

  /** Exact account of a waiter's progress, for every run in which it stays queued:
      only strictly higher priorities that arrive later can get in front of it. */
  lemma {:induction false} WaiterProgress(s: Sem, steps: seq<Step>, t: Ticket)
    requires Inv(s) && CanRun(s, steps) && t in s.queue && t in Final(s, steps).queue
    ensures Grants(s, steps) + Departures(s, steps, t) + Pos(Final(s, steps).queue, t)
         == Pos(s.queue, t) + HigherArrivals(steps, t.priority)
    decreases |steps|
  {
    if steps != [] {
      var step, s' := steps[0], Apply(s, steps[0]);
      StepKeepsInv(s, step);
      if t in s'.queue {
        StepMovesTicket(s, step, t);
        WaiterProgress(s', steps[1..], t);
      } else {
        NeverRequeued(s', steps[1..], t);
      }
    }
  }

  /** From the moment it enqueues, a waiter sees at most as many grants to others
      as there were tickets ahead of it plus later strictly-higher arrivals. */
  lemma BoundedBypass(s: Sem, priority: nat, steps: seq<Step>)
    requires Inv(s) && !(s.held < s.limit && s.queue == [])
    requires CanRun(Apply(s, Acquire(priority)), steps)
    requires Ticket(s.next, priority) in Final(Apply(s, Acquire(priority)), steps).queue
    ensures Grants(Apply(s, Acquire(priority)), steps)
         <= InsertPos(s.queue, priority) + HigherArrivals(steps, priority)
  {
    var t, s' := Ticket(s.next, priority), Apply(s, Acquire(priority));
    StepKeepsInv(s, Acquire(priority));
    assert s'.queue[InsertPos(s.queue, priority)] == t;
    PosAt(s'.queue, InsertPos(s.queue, priority));
    WaiterProgress(s', steps, t);
  }

  // ---------------------------------------------------------------------
  // The code of the locked sections
  // ---------------------------------------------------------------------

  class BudgetWaiter {
    const priority: nat
    ghost const id: nat
    var ready: bool

    constructor (priority: nat, ghost id: nat)
      ensures this.priority == priority && this.id == id && !ready
    {
      this.priority := priority;
      this.id := id;
      ready := false;
    }

    ghost function Name(): Ticket { Ticket(id, priority) }
  }

  ghost function Tickets(ws: seq<BudgetWaiter>): (q: seq<Ticket>)
    ensures |q| == |ws| && forall i | 0 <= i < |ws| :: q[i] == ws[i].Name()
  {
    seq(|ws|, i requires 0 <= i < |ws| => ws[i].Name())
  }

  lemma NamesOf(ws: seq<BudgetWaiter>)
    ensures forall w | w in ws :: w.Name() in Tickets(ws)
  {
    forall w | w in ws ensures w.Name() in Tickets(ws) {
      var i :| 0 <= i < |ws| && ws[i] == w;
      assert Tickets(ws)[i] == w.Name();
    }
  }

  datatype Outcome = Acquired | Cancelled | KeepWaiting

  class BudgetSem {
    const limit: int
    var held: int
    var waiters: seq<BudgetWaiter>
    ghost var granted: map<Ticket, BudgetWaiter>
    ghost var holders: set<Ticket>
    ghost var next: nat

    ghost function View(): Sem
      reads this
    {
      Sem(limit, held, Tickets(waiters), granted.Keys, holders, next)
    }

    /** The `ready` flags agree with the abstract state. */
    ghost predicate Flags()
      reads this, waiters, granted.Values
    {
      && (forall i | 0 <= i < |waiters| :: !waiters[i].ready)
      && (forall t | t in granted :: granted[t].ready && granted[t].Name() == t)
    }

    /** The waiter of a call that has not returned from acquire yet. */
    ghost predicate Pending(w: BudgetWaiter)
      reads this
    {
      w in waiters || (w.Name() in granted && granted[w.Name()] == w)
    }

    constructor (limit: int)
      ensures Flags() && View() == New(limit)
    {
      this.limit := limit;
      held, waiters, granted, holders, next := 0, [], map[], {}, 0;
    }

    /** The first locked section of acquire; the result is null on the fast path. */
    method Enter(priority: nat) returns (w: BudgetWaiter?)
      requires Flags() && Inv(View())
      modifies this
      ensures Flags() && View() == Apply(old(View()), Acquire(priority))
      ensures w == null <==> old(held < limit && waiters == [])
      ensures w == null ==> Ticket(old(next), priority) in holders
      ensures w != null ==> fresh(w) && Pending(w) && w.Name() == Ticket(old(next), priority)
    {
      if held < limit && |waiters| == 0 {
        TakeSlot(priority);
        return null;
      }
      w := new BudgetWaiter(priority, next);
      InsertWaiter(w);
      ghost var k := InsertPos(old(Tickets(waiters)), priority);
      assert waiters[k] == w;
      next := next + 1;
    }

    /** The fast path. */
    method TakeSlot(priority: nat)
      requires Flags() && held < limit && waiters == []
      modifies this`held, this`holders, this`next
      ensures Flags() && View() == Apply(old(View()), Acquire(priority))
      ensures Ticket(old(next), priority) in holders
    {
      held := held + 1;
      holders := holders + {Ticket(next, priority)};
      next := next + 1;
    }

    /** The insertion into the slice of waiters. */
    method InsertWaiter(w: BudgetWaiter)
      modifies this`waiters
      ensures Tickets(waiters) == Insert(old(Tickets(waiters)), w.Name())
      ensures waiters == InsertAt(old(waiters), InsertPos(old(Tickets(waiters)), w.priority), w)
    {
      var insertPos := |waiters|;
      for i := 0 to |waiters|
        invariant insertPos == |waiters|
        invariant forall j | 0 <= j < i :: waiters[j].priority >= w.priority
      {
        if waiters[i].priority < w.priority {
          insertPos := i;
          break;
        }
      }
      ghost var before := waiters;
      if insertPos == |waiters| {
        waiters := waiters + [w];
      } else {
        // The tail moves right by one and the freed position is overwritten.
        waiters := waiters[..insertPos + 1] + waiters[insertPos..];
        waiters := waiters[insertPos := w];
      }
      assert waiters == InsertAt(before, insertPos, w);
      InsertPosIs(Tickets(before), w.priority, insertPos);
      assert Tickets(waiters) == InsertAt(Tickets(before), insertPos, w.Name());
    }

    /** What an enqueued caller does each time it holds the mutex again. */
    method Recheck(w: BudgetWaiter, cancelled: bool) returns (r: Outcome)
      requires Flags() && Inv(View()) && Pending(w)
      modifies this
      ensures Flags() && View() == Apply(old(View()), Step.Recheck(w.Name(), cancelled))
      ensures r == if old(w.ready) then Acquired else if cancelled then Cancelled else KeepWaiting
      ensures r == Acquired ==> w.Name() in holders
      ensures r == Cancelled ==> Settled(View(), w.Name())
      ensures r == KeepWaiting ==> Pending(w)
    {
      NamesOf(waiters);
      if w.ready {
        granted := granted - {w.Name()};
        holders := holders + {w.Name()};
        return Acquired;
      }
      if cancelled {
        CancelNeitherLeaksNorDuplicates(View(), w.Name());
        RemoveWaiter(w);
        return Cancelled;
      }
      return KeepWaiting;
    }

    /** The search loop that takes a waiter out of the slice. */
    method RemoveWaiter(w: BudgetWaiter)
      requires w in waiters && Ordered(Tickets(waiters))
      modifies this`waiters
      ensures Tickets(waiters) == Remove(old(Tickets(waiters)), w.Name())
      ensures forall i | 0 <= i < |waiters| :: exists j | 0 <= j < |old(waiters)| :: waiters[i] == old(waiters)[j]
    {
      for i := 0 to |waiters|
        invariant waiters == old(waiters)
        invariant forall j | 0 <= j < i :: waiters[j] != w
      {
        if waiters[i] == w {
          PosAt(Tickets(waiters), i);
          waiters := waiters[..i] + waiters[i + 1..];
          assert forall j | 0 <= j < |waiters| :: waiters[j] == old(waiters)[if j < i then j else j + 1];
          return;
        }
      }
    }

    method Release(ghost t: Ticket)
      requires Flags() && Inv(View()) && t in holders
      modifies this, waiters
      ensures Flags() && View() == Apply(old(View()), Step.Release(t))
    {
      held := held - 1;
      holders := holders - {t};
      if |waiters| > 0 {
        GrantFirst();
      }
    }

    /** Hands the slot just returned to the front of the queue. */
    method GrantFirst()
      requires Flags() && waiters != [] && Ordered(Tickets(waiters))
      modifies this`held, this`waiters, this`granted, waiters[0]
      ensures Flags() && held == old(held) + 1
      ensures Tickets(waiters) == old(Tickets(waiters))[1..]
      ensures granted.Keys == old(granted.Keys) + {old(waiters)[0].Name()}
    {
      var w := waiters[0];
      forall i | 1 <= i < |waiters| ensures waiters[i] != w {
        assert Before(Tickets(waiters)[0], Tickets(waiters)[i]);
      }
      waiters := waiters[1..];
      w.ready := true;
      granted := granted[w.Name() := w];
      held := held + 1;
    }
  }

  lemma InsertPosIs(q: seq<Ticket>, priority: nat, k: nat)
    requires k <= |q| && forall i | 0 <= i < k :: q[i].priority >= priority
    requires k < |q| ==> q[k].priority < priority
    ensures InsertPos(q, priority) == k
  {
  }
}
