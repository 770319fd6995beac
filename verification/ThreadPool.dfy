/** src/utils/thread_pool.h as a state machine. The mutex makes each critical section one step; the
    steps of the workers, of the callers of `enqueue` and of the destructor interleave freely, and a
    wait on the condition variable may end without a notification. */
module ThreadPool {
  import opened Outcomes

  /** A worker thread: about to lock the mutex, waiting on the condition variable, running a task
      outside the lock, or returned. */
  datatype Worker = AtLock | Waiting | Running(task: nat) | Exited

  /** The pool. `pending` counts the calls of notify_one that are due and `broadcast` says that
      notify_all is due, both after their critical section. The last three record what happened:
      the tasks accepted by `enqueue`, those taken from the queue, and those finished. */
  datatype Pool = Pool(workers: seq<Worker>, queue: seq<nat>, stop: bool, pending: nat, broadcast: bool,
                       accepted: seq<nat>, taken: seq<nat>, finished: seq<nat>)

  datatype Event =
    | Enqueue(task: nat)         // the critical section of `enqueue`
    | NotifyOne(woken: nat)      // its notification; it wakes a waiting worker if there is one
    | Turn(worker: nat)          // a worker locks, tests the condition, and waits, returns or takes a task
    | Finish(worker: nat)        // the task returns
    | Wake(worker: nat)          // the wait ends by itself
    | Stop                       // the critical section of the destructor
    | NotifyAll                  // its notification

  function Start(threads: nat): Pool {
    Pool(seq(threads, _ => AtLock), [], false, 0, false, [], [], [])
  }

  predicate Waits(p: Pool, w: nat) { w < |p.workers| && p.workers[w] == Waiting }

  ghost predicate SomeWaits(p: Pool) { exists w: nat :: Waits(p, w) }

  ghost predicate Enabled(p: Pool, e: Event) {
    match e
    case Enqueue(_) => true
    case NotifyOne(w) => p.pending > 0 && (SomeWaits(p) ==> Waits(p, w))
    case Turn(w) => w < |p.workers| && p.workers[w] == AtLock
    case Finish(w) => w < |p.workers| && p.workers[w].Running?
    case Wake(w) => Waits(p, w)
    case Stop => !p.stop
    case NotifyAll => p.broadcast
  }

  function WakeAll(ws: seq<Worker>): (r: seq<Worker>)
    ensures |r| == |ws|
  {
    seq(|ws|, i requires 0 <= i < |ws| => if ws[i] == Waiting then AtLock else ws[i])
  }

  ghost function Next(p: Pool, e: Event): (r: Pool)
    requires Enabled(p, e)
    ensures |r.workers| == |p.workers|
  {
    match e
    case Enqueue(t) =>
      if p.stop then p // throws
      else p.(queue := p.queue + [t], accepted := p.accepted + [t], pending := p.pending + 1)
    case NotifyOne(w) =>
      p.(pending := p.pending - 1, workers := if SomeWaits(p) then p.workers[w := AtLock] else p.workers)
    case Turn(w) =>
      if p.queue != [] then
        p.(workers := p.workers[w := Running(p.queue[0])], queue := p.queue[1..], taken := p.taken + [p.queue[0]])
      else p.(workers := p.workers[w := if p.stop then Exited else Waiting])
    case Finish(w) => p.(workers := p.workers[w := AtLock], finished := p.finished + [p.workers[w].task])
    case Wake(w) => p.(workers := p.workers[w := AtLock])
    case Stop => p.(stop := true, broadcast := true)
    case NotifyAll => p.(workers := WakeAll(p.workers), broadcast := false)
  }

  // ---------------------------------------------------------------- counting workers

  ghost function Weight(ws: seq<Worker>, f: Worker -> nat): nat {
    if ws == [] then 0 else Weight(ws[..|ws| - 1], f) + f(ws[|ws| - 1])
  }

  lemma {:induction false} WeightOfUpdate(ws: seq<Worker>, f: Worker -> nat, w: nat, x: Worker)
    requires w < |ws|
    ensures Weight(ws[w := x], f) + f(ws[w]) == Weight(ws, f) + f(x)
  {
    var n := |ws| - 1;
    if w == n {
      assert ws[w := x][..n] == ws[..n];
    } else {
      WeightOfUpdate(ws[..n], f, w, x);
      assert ws[w := x][..n] == ws[..n][w := x];
    }
  }

  lemma {:induction false} PositiveWeight(ws: seq<Worker>, f: Worker -> nat) returns (w: nat)
    requires Weight(ws, f) > 0
    ensures w < |ws| && f(ws[w]) > 0
  {
    w := |ws| - 1;
    if f(ws[w]) == 0 { w := PositiveWeight(ws[..|ws| - 1], f); }
  }

  lemma {:induction false} WeightOfWakeAll(ws: seq<Worker>, f: Worker -> nat)
    requires f(AtLock) <= f(Waiting)
    ensures Weight(WakeAll(ws), f) <= Weight(ws, f)
    ensures f(AtLock) == f(Waiting) ==> Weight(WakeAll(ws), f) == Weight(ws, f)
  {
    if ws != [] {
      var n := |ws| - 1;
      WeightOfWakeAll(ws[..n], f);
      assert WakeAll(ws)[..n] == WakeAll(ws[..n]);
    }
  }

  ghost function Runs(t: nat): Worker -> nat { x => if x == Running(t) then 1 else 0 }

  ghost const LOCKING: Worker -> nat := x => if x == AtLock then 1 else 0

  ghost const RANK: Worker -> nat :=
    x => if x == Exited then 0 else if x == AtLock then 1 else 2

  // ---------------------------------------------------------------- the invariant

  /** The accepted tasks are those taken, in order, and those still queued. */
  ghost predicate Fifo(p: Pool) { p.accepted == p.taken + p.queue }

  /** Every task taken is running or has finished, as often as it was taken. */
  ghost predicate Accounted(p: Pool) {
    forall t: nat :: multiset(p.taken)[t] == multiset(p.finished)[t] + Weight(p.workers, Runs(t))
  }

  /** No wakeup is lost: while a worker waits, every queued task has a worker on its way to the lock
      or a notification that is due. */
  ghost predicate Served(p: Pool) {
    SomeWaits(p) ==> |p.queue| <= Weight(p.workers, LOCKING) + p.pending
  }

  ghost predicate Stopping(p: Pool) {
    && (p.broadcast ==> p.stop)
    && (p.stop && SomeWaits(p) ==> p.broadcast)
    && (forall w | 0 <= w < |p.workers| && p.workers[w] == Exited :: p.stop && p.queue == [])
  }

  ghost predicate Inv(p: Pool) { Fifo(p) && Accounted(p) && Served(p) && Stopping(p) }

  lemma {:induction false} NoWeightAtStart(threads: nat, f: Worker -> nat)
    requires f(AtLock) == 0
    ensures Weight(Start(threads).workers, f) == 0
  {
    if threads > 0 {
      NoWeightAtStart(threads - 1, f);
      assert Start(threads).workers[..threads - 1] == Start(threads - 1).workers;
    }
  }

  lemma StartHolds(threads: nat)
    ensures Inv(Start(threads))
  {
    forall t: nat ensures Weight(Start(threads).workers, Runs(t)) == 0 { NoWeightAtStart(threads, Runs(t)); }
  }

  lemma StepKeepsInv(p: Pool, e: Event)
    requires Inv(p) && Enabled(p, e)
    ensures Inv(Next(p, e))
  {
    StepKeepsAccount(p, e);
    StepKeepsServed(p, e);
    StepKeepsOrder(p, e);
    hide Next, Fifo, Accounted, Served, Stopping;
  }

  lemma StepKeepsOrder(p: Pool, e: Event)
    requires Fifo(p) && Stopping(p) && Enabled(p, e)
    ensures Fifo(Next(p, e)) && Stopping(Next(p, e))
  {
    var r := Next(p, e);
    if SomeWaits(r) && !SomeWaits(p) {
      var w: nat :| Waits(r, w);
      assert !Waits(p, w);
    }
  }

  lemma StepKeepsAccount(p: Pool, e: Event)
    requires Accounted(p) && Enabled(p, e)
    ensures Accounted(Next(p, e))
  {
    var r := Next(p, e);
    forall t: nat ensures multiset(r.taken)[t] == multiset(r.finished)[t] + Weight(r.workers, Runs(t)) {
      StepKeepsAccountOf(p, e, t);
    }
  }

  lemma StepKeepsAccountOf(p: Pool, e: Event, t: nat)
    requires Enabled(p, e) && multiset(p.taken)[t] == multiset(p.finished)[t] + Weight(p.workers, Runs(t))
    ensures var r := Next(p, e); multiset(r.taken)[t] == multiset(r.finished)[t] + Weight(r.workers, Runs(t))
  {
    match e {
      case NotifyOne(w) => if SomeWaits(p) { WeightOfUpdate(p.workers, Runs(t), w, AtLock); }
      case Turn(w) => WeightOfUpdate(p.workers, Runs(t), w, Next(p, e).workers[w]);
      case Finish(w) => WeightOfUpdate(p.workers, Runs(t), w, AtLock);
      case Wake(w) => WeightOfUpdate(p.workers, Runs(t), w, AtLock);
      case NotifyAll => WeightOfWakeAll(p.workers, Runs(t));
      case _ =>
    }
  }

  lemma StepKeepsServed(p: Pool, e: Event)
    requires Served(p) && Enabled(p, e)
    ensures Served(Next(p, e))
  {
    var r := Next(p, e);
    if SomeWaits(r) {
      var v: nat :| Waits(r, v);
      match e {
        case NotifyOne(w) =>
          assert Waits(p, v) || Waits(p, w);
          WeightOfUpdate(p.workers, LOCKING, w, AtLock);
        case Turn(w) =>
          WeightOfUpdate(p.workers, LOCKING, w, r.workers[w]);
          if p.queue != [] { assert Waits(p, v); }
        case Finish(w) =>
          assert Waits(p, v);
          WeightOfUpdate(p.workers, LOCKING, w, AtLock);
        case Wake(w) =>
          assert Waits(p, w);
          WeightOfUpdate(p.workers, LOCKING, w, AtLock);
        case NotifyAll =>
        case _ => assert Waits(p, v);
      }
    }
  }

  // ---------------------------------------------------------------- runs

  /** The events happen one after the other, from p to q. */
  ghost predicate Run(p: Pool, events: seq<Event>, q: Pool)
    decreases |events|
  {
    if events == [] then p == q
    else Enabled(p, events[0]) && Run(Next(p, events[0]), events[1..], q)
  }

  lemma {:induction false} RunKeepsInv(p: Pool, events: seq<Event>, q: Pool)
    requires Inv(p) && Run(p, events, q)
    ensures Inv(q) && |q.workers| == |p.workers|
    decreases |events|
  {
    if events != [] {
      StepKeepsInv(p, events[0]);
      RunKeepsInv(Next(p, events[0]), events[1..], q);
    }
  }

  /** The tasks handed in before the pool is stopped, in their order. */
  function HandedIn(events: seq<Event>): seq<nat> {
    if events == [] then []
    else match events[0]
         case Enqueue(t) => [t] + HandedIn(events[1..])
         case Stop => []
         case _ => HandedIn(events[1..])
  }

  /** Exactly those are accepted. */
  lemma {:induction false} AcceptedAreHandedIn(p: Pool, events: seq<Event>, q: Pool)
    requires Run(p, events, q)
    ensures q.accepted == p.accepted + (if p.stop then [] else HandedIn(events))
    decreases |events|
  {
    if events != [] { AcceptedAreHandedIn(Next(p, events[0]), events[1..], q); }
  }

  /** Safety over all runs: queued, running and finished tasks together are the tasks handed in, each
      as often as it was handed in, and the tasks have been taken in the order they were handed in. */
  lemma TasksAreConserved(threads: nat, events: seq<Event>, q: Pool, t: nat)
    requires Run(Start(threads), events, q)
    ensures q.taken <= HandedIn(events)
    ensures multiset(HandedIn(events))[t]
         == multiset(q.queue)[t] + Weight(q.workers, Runs(t)) + multiset(q.finished)[t]
  {
    AcceptedAreHandedIn(Start(threads), events, q);
    assert q.accepted == HandedIn(events);
    StartHolds(threads);
    RunKeepsInv(Start(threads), events, q);
    assert multiset(q.accepted) == multiset(q.taken) + multiset(q.queue);
  }

  /** While tasks are queued, a worker runs or is on its way to the lock, or a notification is due. */
  lemma QueueIsServed(threads: nat, events: seq<Event>, q: Pool)
    requires threads > 0 && Run(Start(threads), events, q) && q.queue != []
    ensures q.pending > 0 || exists w: nat :: w < |q.workers| && (q.workers[w] == AtLock || q.workers[w].Running?)
  {
    StartHolds(threads);
    RunKeepsInv(Start(threads), events, q);
    assert q.workers[0] != Exited;
    if q.workers[0] == Waiting {
      assert Waits(q, 0);
      if q.pending == 0 { var w := PositiveWeight(q.workers, LOCKING); }
    }
  }

  /** Once every worker has returned, the pool had been stopped and every task handed in has finished,
      exactly as often as it was handed in. */
  lemma AllDoneAfterShutdown(threads: nat, events: seq<Event>, q: Pool)
    requires threads > 0 && Run(Start(threads), events, q)
    requires forall w | 0 <= w < |q.workers| :: q.workers[w] == Exited
    ensures q.stop && multiset(q.finished) == multiset(HandedIn(events))
  {
    AcceptedAreHandedIn(Start(threads), events, q);
    assert q.accepted == HandedIn(events);
    StartHolds(threads);
    RunKeepsInv(Start(threads), events, q);
    assert q.workers[0] == Exited;
    assert q.accepted == q.taken;
    forall t: nat ensures multiset(q.finished)[t] == multiset(q.accepted)[t] {
      if Weight(q.workers, Runs(t)) > 0 { var w := PositiveWeight(q.workers, Runs(t)); }
    }
  }

  // ---------------------------------------------------------------- shutdown ends

  ghost function Measure(p: Pool): nat {
    2 * |p.queue| + Weight(p.workers, RANK) + p.pending + (if p.broadcast then 1 else 0)
  }

  /** After the stop every step brings the end closer; only a rejected `enqueue` changes nothing. */
  lemma StepsAfterStop(p: Pool, e: Event)
    requires p.stop && Enabled(p, e)
    ensures Next(p, e).stop
    ensures if e.Enqueue? then Next(p, e) == p else Measure(Next(p, e)) < Measure(p)
  {
    var r := Next(p, e);
    match e {
      case NotifyOne(w) => if SomeWaits(p) { WeightOfUpdate(p.workers, RANK, w, AtLock); }
      case Turn(w) => WeightOfUpdate(p.workers, RANK, w, r.workers[w]);
      case Finish(w) => WeightOfUpdate(p.workers, RANK, w, AtLock);
      case Wake(w) => WeightOfUpdate(p.workers, RANK, w, AtLock);
      case NotifyAll => WeightOfWakeAll(p.workers, RANK);
      case _ =>
    }
  }

  /** A stopped pool is never stuck: unless every worker has returned, a worker can go on or the
      workers are about to be woken, without help from a spurious wakeup. */
  lemma StoppedPoolGoesOn(p: Pool) returns (e: Event)
    requires Inv(p) && p.stop && exists w: nat :: w < |p.workers| && p.workers[w] != Exited
    ensures Enabled(p, e) && (e.Turn? || e.Finish? || e.NotifyAll?)
  {
    var w: nat :| w < |p.workers| && p.workers[w] != Exited;
    match p.workers[w] {
      case AtLock => e := Turn(w);
      case Running(_) => e := Finish(w);
      case Waiting =>
        assert Waits(p, w);
        e := NotifyAll;
    }
  }

  /** The destructor's join returns: from any state reached after the stop there is a run to the end,
      and no run, whatever it does, is longer than the measure, not counting rejected tasks. */
  lemma ShutdownEnds(p: Pool) returns (events: seq<Event>, q: Pool)
    requires Inv(p) && p.stop
    ensures Run(p, events, q) && forall w | 0 <= w < |q.workers| :: q.workers[w] == Exited
    decreases Measure(p)
  {
    if exists w: nat :: w < |p.workers| && p.workers[w] != Exited {
      var e := StoppedPoolGoesOn(p);
      StepKeepsInv(p, e);
      StepsAfterStop(p, e);
      var rest;
      rest, q := ShutdownEnds(Next(p, e));
      events := [e] + rest;
    } else {
      events, q := [], p;
    }
  }

  lemma {:induction false} ShutdownIsBounded(p: Pool, events: seq<Event>, q: Pool)
    requires p.stop && Run(p, events, q) && forall e | e in events :: !e.Enqueue?
    ensures |events| + Measure(q) <= Measure(p)
    decreases |events|
  {
    if events != [] {
      StepsAfterStop(p, events[0]);
      ShutdownIsBounded(Next(p, events[0]), events[1..], q);
    }
  }

  // ---------------------------------------------------------------- tasks finish

  /** The steps that carry on the work the pool has, with no new task, stop or spurious wakeup. */
  predicate CarriesOn(e: Event) { e.NotifyOne? || e.Turn? || e.Finish? || e.NotifyAll? }

  ghost const LOAD: Worker -> nat :=
    x => if x == AtLock then 1 else if x.Running? then 2 else 0

  ghost function Work(p: Pool): nat {
    2 * |p.queue| + Weight(p.workers, LOAD) + 2 * p.pending + (if p.broadcast then |p.workers| + 1 else 0)
  }

  lemma {:induction false} LoadOfWakeAll(ws: seq<Worker>)
    ensures Weight(WakeAll(ws), LOAD) <= Weight(ws, LOAD) + |ws|
  {
    if ws != [] {
      var n := |ws| - 1;
      LoadOfWakeAll(ws[..n]);
      assert WakeAll(ws)[..n] == WakeAll(ws[..n]);
    }
  }

  lemma CarryingOnLessens(p: Pool, e: Event)
    requires Enabled(p, e) && CarriesOn(e)
    ensures Work(Next(p, e)) < Work(p) && Next(p, e).accepted == p.accepted
  {
    var r := Next(p, e);
    match e {
      case NotifyOne(w) => if SomeWaits(p) { WeightOfUpdate(p.workers, LOAD, w, AtLock); }
      case Turn(w) => WeightOfUpdate(p.workers, LOAD, w, r.workers[w]);
      case Finish(w) => WeightOfUpdate(p.workers, LOAD, w, AtLock);
      case NotifyAll => LoadOfWakeAll(p.workers);
    }
  }

  /** No run goes on with the work it has for longer than there is work. */
  lemma {:induction false} WorkIsBounded(p: Pool, events: seq<Event>, q: Pool)
    requires Run(p, events, q) && forall e | e in events :: CarriesOn(e)
    ensures |events| + Work(q) <= Work(p) && q.accepted == p.accepted
    decreases |events|
  {
    if events != [] {
      CarryingOnLessens(p, events[0]);
      WorkIsBounded(Next(p, events[0]), events[1..], q);
    }
  }

  /** A pool that cannot carry on has finished every task it accepted, stopped or not. */
  lemma QuietPoolIsDone(p: Pool)
    requires Inv(p) && p.workers != [] && forall e | CarriesOn(e) :: !Enabled(p, e)
    ensures p.queue == [] && multiset(p.finished) == multiset(p.accepted)
  {
    forall w: nat | w < |p.workers| ensures p.workers[w] == Waiting || p.workers[w] == Exited {
      assert !Enabled(p, Turn(w)) && !Enabled(p, Finish(w));
    }
    var v: nat := if SomeWaits(p) then var w: nat :| Waits(p, w); w else 0;
    assert !Enabled(p, NotifyOne(v));
    if SomeWaits(p) {
      if p.queue != [] { var w := PositiveWeight(p.workers, LOCKING); }
    } else {
      assert !Waits(p, 0);
    }
    assert p.accepted == p.taken;
    forall t: nat ensures multiset(p.finished)[t] == multiset(p.accepted)[t] {
      if Weight(p.workers, Runs(t)) > 0 { var w := PositiveWeight(p.workers, Runs(t)); }
    }
  }

  /** From every reachable state, stopped or not, carrying on leads to a state in which every task
      accepted so far has finished. */
  lemma EveryTaskFinishes(p: Pool) returns (events: seq<Event>, q: Pool)
    requires Inv(p) && p.workers != []
    ensures Run(p, events, q) && (forall e | e in events :: CarriesOn(e))
    ensures multiset(q.finished) == multiset(p.accepted)
    decreases Work(p)
  {
    if e :| CarriesOn(e) && Enabled(p, e) {
      StepKeepsInv(p, e);
      CarryingOnLessens(p, e);
      var rest;
      rest, q := EveryTaskFinishes(Next(p, e));
      events := [e] + rest;
    } else {
      QuietPoolIsDone(p);
      events, q := [], p;
    }
  }

  // ---------------------------------------------------------------- the critical sections

  datatype Decision = Take(task: nat) | Return | Wait

  /** The fields the mutex protects, with the state of the protocol beside them. */
  class ThreadPool {
    var tasks: seq<nat>
    var stop: bool
    ghost var pool: Pool

    ghost predicate Valid()
      reads this
    {
      Inv(pool) && pool.queue == tasks && pool.stop == stop
    }

    constructor (ghost threads: nat)
      ensures Valid() && pool == Start(threads)
    {
      tasks, stop, pool := [], false, Start(threads);
      new;
      StartHolds(threads);
    }

    /** An accepted task goes to the end of the queue, with a notification due; a stopped pool stays as
        it is. */
    method EnqueueTask(task: nat) returns (r: Status)
      requires Valid()
      modifies this
      ensures Valid() && pool == Next(old(pool), Enqueue(task))
      ensures r == (if old(stop) then Failed(InvalidState) else Done) && stop == old(stop)
      ensures r == Done ==>
                && tasks == old(tasks) + [task]
                && pool == old(pool).(queue := tasks, accepted := old(pool.accepted) + [task],
                                      pending := old(pool.pending) + 1)
      ensures r != Done ==> tasks == old(tasks) && pool == old(pool)
    {
      StepKeepsInv(pool, Enqueue(task));
      pool := Next(pool, Enqueue(task));
      if stop { return Failed(InvalidState); }
      tasks := tasks + [task];
      return Done;
    }

    /** What worker w does between locking and unlocking the mutex: it takes the first task, and only
        without one returns from a stopped pool and waits in any other. */
    method NextTask(w: nat) returns (d: Decision)
      requires Valid() && Enabled(pool, Turn(w))
      modifies this
      ensures Valid() && pool == Next(old(pool), Turn(w)) && stop == old(stop)
      ensures d == if old(tasks) != [] then Take(old(tasks)[0]) else if old(stop) then Return else Wait
      ensures d.Take? ==>
                && tasks == old(tasks)[1..]
                && pool == old(pool).(queue := tasks, taken := old(pool.taken) + [d.task],
                                      workers := old(pool.workers)[w := Running(d.task)])
      ensures !d.Take? ==>
                && tasks == old(tasks)
                && pool == old(pool).(workers := old(pool.workers)[w := if d == Return then Exited else Waiting])
    {
      StepKeepsInv(pool, Turn(w));
      pool := Next(pool, Turn(w));
      if !(stop || tasks != []) { return Wait; }
      if stop && tasks == [] { return Return; }
      d := Take(tasks[0]);
      tasks := tasks[1..];
    }

    /** The tasks stay, and the workers are about to be woken. */
    method StopPool()
      requires Valid() && !stop
      modifies this
      ensures Valid() && pool == Next(old(pool), Stop)
      ensures stop && tasks == old(tasks) && pool == old(pool).(stop := true, broadcast := true)
    {
      StepKeepsInv(pool, Stop);
      pool := Next(pool, Stop);
      stop := true;
    }
  }
}
