/**
 * The worker pool in every interleaving of its threads. The mutex makes each stretch of code between
 * taking it and giving it up, or going to sleep on a condition, one step.
 */
module TaskPooling {
  type Task = nat

  /** A worker outside the pool's lock, asleep, woken but not yet past the lock, at work, or gone. */
  datatype Worker = Free | Asleep | Woken | Working(task: Task) | Gone

  /** A caller of wait_until_empty. */
  datatype Waiter = Outside | Sleeping | Roused | Returned

  datatype Pool = Pool(
    queue: seq<Task>,
    cancelled: bool,
    workers: seq<Worker>,
    waiters: seq<Waiter>,
    scheduled: seq<Task>,
    taken: seq<Task>,
    finished: seq<Task>)

  /** What a broadcast does to those who sleep on the condition. */
  function Wake(ws: seq<Worker>): seq<Worker> {
    seq(|ws|, i requires 0 <= i < |ws| => if ws[i].Asleep? then Woken else ws[i])
  }

  function Rouse(cs: seq<Waiter>): seq<Waiter> {
    seq(|cs|, i requires 0 <= i < |cs| => if cs[i].Sleeping? then Roused else cs[i])
  }

  datatype Event =
    | Schedule(task: Task)
    | Cancel
    | Fetch(w: nat)
    | Finish(w: nat)
    | Fail(w: nat)
    | Stir(w: nat)
    | Await(c: nat)
    | StirWaiter(c: nat)

  predicate OfWorker(e: Event) {
    e.Fetch? || e.Finish? || e.Fail? || e.Stir?
  }

  /** A thread sleeping on a condition may also wake up for no reason. */
  predicate Enabled(s: Pool, e: Event) {
    match e
    case Schedule(_) => true
    case Cancel => true
    case Fetch(w) => w < |s.workers| && (s.workers[w].Free? || s.workers[w].Woken?)
    case Finish(w) => w < |s.workers| && s.workers[w].Working?
    case Fail(w) => w < |s.workers| && s.workers[w].Working?
    case Stir(w) => w < |s.workers| && s.workers[w].Asleep?
    case Await(c) => c < |s.waiters| && (s.waiters[c].Outside? || s.waiters[c].Roused?)
    case StirWaiter(c) => c < |s.waiters| && s.waiters[c].Sleeping?
  }

  /** One pass of a worker through the lock: to sleep, out, or off with the first task. */
  function FetchStep(s: Pool, w: nat): Pool
    requires w < |s.workers|
  {
    if s.cancelled then s.(workers := s.workers[w := Gone])
    else if s.queue == [] then s.(workers := s.workers[w := Asleep])
    else
      s.(queue := s.queue[1..],
         taken := s.taken + [s.queue[0]],
         workers := s.workers[w := Working(s.queue[0])],
         waiters := Rouse(s.waiters))
  }

  function Next(s: Pool, e: Event): Pool
    requires Enabled(s, e)
  {
    match e
    case Schedule(task) =>
      s.(queue := s.queue + [task], scheduled := s.scheduled + [task], workers := Wake(s.workers))
    case Cancel => s.(cancelled := true, workers := Wake(s.workers))
    case Fetch(w) => FetchStep(s, w)
    case Finish(w) => s.(workers := s.workers[w := Free], finished := s.finished + [s.workers[w].task])
    case Fail(w) => s.(workers := s.workers[w := Gone], finished := s.finished + [s.workers[w].task])
    case Stir(w) => s.(workers := s.workers[w := Woken])
    case Await(c) => s.(waiters := s.waiters[c := if s.queue == [] then Returned else Sleeping])
    case StirWaiter(c) => s.(waiters := s.waiters[c := Roused])
  }

  predicate Legal(s: Pool, es: seq<Event>)
    decreases |es|
  {
    es == [] || (Enabled(s, es[0]) && Legal(Next(s, es[0]), es[1..]))
  }

  function Run(s: Pool, es: seq<Event>): Pool
    requires Legal(s, es)
    decreases |es|
  {
    if es == [] then s else Run(Next(s, es[0]), es[1..])
  }

  lemma {:induction false} RunSplits(s: Pool, a: seq<Event>, b: seq<Event>)
    requires Legal(s, a) && Legal(Run(s, a), b)
    ensures Legal(s, a + b) && Run(s, a + b) == Run(Run(s, a), b)
    decreases |a|
  {
    if a == [] {
      assert a + b == b;
    } else {
      assert (a + b)[1..] == a[1..] + b && (a + b)[0] == a[0];
      RunSplits(Next(s, a[0]), a[1..], b);
    }
  }

  // ----- safety -----

  /** How many workers are at work on a task; one may be scheduled more than once. */
  function AtWork(ws: seq<Worker>, task: Task): nat {
    if ws == [] then 0 else One(ws[0], task) + AtWork(ws[1..], task)
  }

  function One(w: Worker, task: Task): nat {
    if w == Working(task) then 1 else 0
  }

  lemma {:induction false} AtWorkUpdated(ws: seq<Worker>, i: nat, w: Worker, task: Task)
    requires i < |ws|
    ensures AtWork(ws[i := w], task) + One(ws[i], task) == AtWork(ws, task) + One(w, task)
    decreases |ws|
  {
    if i == 0 {
      assert ws[i := w][1..] == ws[1..];
    } else {
      assert ws[i := w][1..] == ws[1..][i - 1 := w];
      AtWorkUpdated(ws[1..], i - 1, w, task);
    }
  }

  lemma {:induction false} AtWorkWoken(ws: seq<Worker>, task: Task)
    ensures AtWork(Wake(ws), task) == AtWork(ws, task)
    decreases |ws|
  {
    if ws != [] {
      assert Wake(ws)[1..] == Wake(ws[1..]);
      AtWorkWoken(ws[1..], task);
    }
  }

  /**
   * Tasks are taken once each and in the order they were scheduled, and every task taken is in one
   * worker's hands until it is finished. A worker sleeps only while there is nothing to take and
   * the pool is not cancelled, a waiter only while there is.
   */
  ghost predicate Inv(s: Pool) {
    && s.scheduled == s.taken + s.queue
    && (forall task :: InHand(s, task))
    && Quiet(s)
  }

  ghost predicate InHand(s: Pool, task: Task) {
    multiset(s.taken)[task] == multiset(s.finished)[task] + AtWork(s.workers, task)
  }

  ghost predicate Quiet(s: Pool) {
    && (forall w :: 0 <= w < |s.workers| && s.workers[w].Asleep? ==> s.queue == [] && !s.cancelled)
    && (forall c :: 0 <= c < |s.waiters| && s.waiters[c].Sleeping? ==> s.queue != [])
  }

  lemma NextQuiet(s: Pool, e: Event)
    requires Quiet(s) && Enabled(s, e)
    ensures Quiet(Next(s, e))
  {
  }

  lemma NextConserves(s: Pool, e: Event)
    requires s.scheduled == s.taken + s.queue && Enabled(s, e)
    ensures Next(s, e).scheduled == Next(s, e).taken + Next(s, e).queue
  {
  }

  lemma NextInHand(s: Pool, e: Event, task: Task)
    requires InHand(s, task) && Enabled(s, e)
    ensures InHand(Next(s, e), task)
  {
    AtWorkWoken(s.workers, task);
    if OfWorker(e) { AtWorkUpdated(s.workers, e.w, Next(s, e).workers[e.w], task); }
  }

  lemma NextIsSafe(s: Pool, e: Event)
    requires Inv(s) && Enabled(s, e)
    ensures Inv(Next(s, e))
  {
    NextQuiet(s, e);
    NextConserves(s, e);
    forall task ensures InHand(Next(s, e), task) { NextInHand(s, e, task); }
  }

  lemma {:induction false} RunIsSafe(s: Pool, es: seq<Event>)
    requires Inv(s) && Legal(s, es)
    ensures Inv(Run(s, es))
    decreases |es|
  {
    if es != [] {
      NextIsSafe(s, es[0]);
      RunIsSafe(Next(s, es[0]), es[1..]);
    }
  }

  function Fresh(workers: nat, waiters: nat): Pool {
    Pool([], false, seq(workers, _ => Free), seq(waiters, _ => Outside), [], [], [])
  }

  lemma {:induction false} NoneAtWork(n: nat, task: Task)
    ensures AtWork(seq(n, _ => Free), task) == 0
    decreases n
  {
    if n > 0 {
      assert seq(n, _ => Free)[1..] == seq(n - 1, _ => Free);
      NoneAtWork(n - 1, task);
    }
  }

  /** Every state of every run of a pool. */
  lemma PoolIsSafe(workers: nat, waiters: nat, es: seq<Event>)
    requires Legal(Fresh(workers, waiters), es)
    ensures Inv(Run(Fresh(workers, waiters), es))
  {
    forall task ensures InHand(Fresh(workers, waiters), task) { NoneAtWork(workers, task); }
    RunIsSafe(Fresh(workers, waiters), es);
  }

  // ----- failure -----

  lemma {:induction false} GoneStays(s: Pool, es: seq<Event>, w: nat)
    requires Legal(s, es) && w < |s.workers| && s.workers[w].Gone?
    ensures w < |Run(s, es).workers| && Run(s, es).workers[w].Gone?
    decreases |es|
  {
    if es != [] { GoneStays(Next(s, es[0]), es[1..], w); }
  }

  /** A task that throws takes its worker with it: it is gone in every run from then on. */
  lemma FailedIsGone(s: Pool, w: nat, es: seq<Event>)
    requires Enabled(s, Fail(w)) && Legal(Next(s, Fail(w)), es)
    ensures var n := Run(Next(s, Fail(w)), es);
      w < |n.workers| && n.workers[w].Gone? && !Enabled(n, Fetch(w))
  {
    GoneStays(Next(s, Fail(w)), es, w);
  }

  // ----- sleeping and waking -----

  /** Nothing that would wake the worker happens. */
  predicate LetsSleep(es: seq<Event>, w: nat) {
    forall i :: 0 <= i < |es| ==> !es[i].Schedule? && !es[i].Cancel? && es[i] != Stir(w)
  }

  lemma {:induction false} AsleepStays(s: Pool, es: seq<Event>, w: nat)
    requires Legal(s, es) && LetsSleep(es, w) && w < |s.workers| && s.workers[w].Asleep?
    ensures w < |Run(s, es).workers| && Run(s, es).workers[w].Asleep?
    decreases |es|
  {
    if es != [] {
      assert LetsSleep(es[1..], w) by { assert forall i :: 0 <= i < |es[1..]| ==> es[1..][i] == es[i + 1]; }
      AsleepStays(Next(s, es[0]), es[1..], w);
    }
  }

  /** A worker that finds nothing to do does not poll: it sleeps until a task, a cancel or a spurious wakeup. */
  lemma IdleWorkerSleeps(s: Pool, w: nat, es: seq<Event>)
    requires Enabled(s, Fetch(w)) && !s.cancelled && s.queue == []
    requires Legal(Next(s, Fetch(w)), es) && LetsSleep(es, w)
    ensures var n := Run(Next(s, Fetch(w)), es); w < |n.workers| && n.workers[w].Asleep? && !Enabled(n, Fetch(w))
  {
    AsleepStays(Next(s, Fetch(w)), es, w);
  }

  /** Who has returned from wait_until_empty stays so, in every run. */
  lemma {:induction false} ReturnedIsFinal(s: Pool, es: seq<Event>, c: nat)
    requires Legal(s, es) && c < |s.waiters| && s.waiters[c].Returned?
    ensures c < |Run(s, es).waiters| && Run(s, es).waiters[c].Returned?
    decreases |es|
  {
    if es != [] { ReturnedIsFinal(Next(s, es[0]), es[1..], c); }
  }

  predicate Awaits(es: seq<Event>, c: nat) {
    exists i :: 0 <= i < |es| && es[i] == Await(c)
  }

  /** Nobody is in wait_until_empty who has not called it. */
  lemma {:induction false} OutsideUntilAwait(s: Pool, es: seq<Event>, c: nat)
    requires Legal(s, es) && c < |s.waiters| && s.waiters[c].Outside? && !Awaits(es, c)
    ensures c < |Run(s, es).waiters| && Run(s, es).waiters[c].Outside?
    decreases |es|
  {
    if es != [] {
      assert !Awaits(es[1..], c) by { assert forall i :: 0 <= i < |es[1..]| ==> es[1..][i] == es[i + 1]; }
      OutsideUntilAwait(Next(s, es[0]), es[1..], c);
    }
  }

  /** A spurious wakeup lets a waiter look again, and out only if the queue is empty. */
  lemma StirredLooksAgain(s: Pool, c: nat)
    requires Enabled(s, StirWaiter(c))
    ensures var n := Next(s, StirWaiter(c));
      && Enabled(n, Await(c)) && n.queue == s.queue
      && (Next(n, Await(c)).waiters[c].Returned? <==> s.queue == [])
      && (s.queue != [] ==> Next(n, Await(c)) == s)
  {
    assert s.waiters[c := Roused][c := Sleeping] == s.waiters;
  }

  // ----- after cancel -----

  /** Once the pool is cancelled nothing more is taken, and what is queued stays queued. */
  lemma {:induction false} NothingTakenAfterCancel(s: Pool, es: seq<Event>)
    requires s.cancelled && Legal(s, es)
    ensures Run(s, es).cancelled && Run(s, es).taken == s.taken && s.queue <= Run(s, es).queue
    decreases |es|
  {
    if es != [] { NothingTakenAfterCancel(Next(s, es[0]), es[1..]); }
  }

  /** How many steps a worker has before it is gone, in a cancelled pool. */
  function StepsLeft(w: Worker): nat {
    match w case Gone => 0 case Working(_) => 2 case _ => 1
  }

  function AllStepsLeft(ws: seq<Worker>): nat {
    if ws == [] then 0 else StepsLeft(ws[0]) + AllStepsLeft(ws[1..])
  }

  lemma {:induction false} StepsUpdated(ws: seq<Worker>, i: nat, w: Worker)
    requires i < |ws|
    ensures AllStepsLeft(ws[i := w]) + StepsLeft(ws[i]) == AllStepsLeft(ws) + StepsLeft(w)
    decreases |ws|
  {
    if i == 0 {
      assert ws[i := w][1..] == ws[1..];
    } else {
      assert ws[i := w][1..] == ws[1..][i - 1 := w];
      StepsUpdated(ws[1..], i - 1, w);
    }
  }

  lemma {:induction false} StepsWoken(ws: seq<Worker>)
    ensures AllStepsLeft(Wake(ws)) == AllStepsLeft(ws)
    decreases |ws|
  {
    if ws != [] {
      assert Wake(ws)[1..] == Wake(ws[1..]);
      StepsWoken(ws[1..]);
    }
  }

  function WorkerSteps(es: seq<Event>): nat {
    if es == [] then 0 else (if OfWorker(es[0]) then 1 else 0) + WorkerSteps(es[1..])
  }

  /**
   * Joining the workers of a cancelled pool comes to an end: in any run they take a bounded number
   * of steps, and one that is not gone can always take its next.
   */
  lemma {:induction false} WorkersLeave(s: Pool, es: seq<Event>)
    requires Inv(s) && s.cancelled && Legal(s, es)
    ensures WorkerSteps(es) + AllStepsLeft(Run(s, es).workers) <= AllStepsLeft(s.workers)
    ensures forall w :: 0 <= w < |Run(s, es).workers| && !Run(s, es).workers[w].Gone? ==>
      Enabled(Run(s, es), Fetch(w)) || Enabled(Run(s, es), Finish(w))
    decreases |es|
  {
    if es != [] {
      var e, n := es[0], Next(s, es[0]);
      StepsWoken(s.workers);
      if OfWorker(e) { StepsUpdated(s.workers, e.w, n.workers[e.w]); }
      NextIsSafe(s, e);
      WorkersLeave(n, es[1..]);
    }
  }

  // ----- can a waiter ever return? -----

  /** No task will ever be taken again. */
  predicate Stuck(s: Pool) {
    s.cancelled || forall w :: 0 <= w < |s.workers| ==> s.workers[w].Gone?
  }

  lemma {:induction false} StuckStays(s: Pool, es: seq<Event>)
    requires Stuck(s) && Legal(s, es)
    ensures Stuck(Run(s, es)) && s.queue <= Run(s, es).queue
    decreases |es|
  {
    if es != [] { StuckStays(Next(s, es[0]), es[1..]); }
  }

  lemma {:induction false} StrandedStays(s: Pool, es: seq<Event>, c: nat)
    requires Stuck(s) && s.queue != [] && Legal(s, es) && c < |s.waiters| && !s.waiters[c].Returned?
    ensures c < |Run(s, es).waiters| && !Run(s, es).waiters[c].Returned?
    decreases |es|
  {
    if es != [] {
      OneEvent(s, es[0]);
      StuckStays(s, [es[0]]);
      StrandedStays(Next(s, es[0]), es[1..], c);
    }
  }

  ghost predicate CanReturn(s: Pool, c: nat) {
    exists es :: Legal(s, es) && c < |Run(s, es).waiters| && Run(s, es).waiters[c].Returned?
  }

  /** One worker that is left can take the first task of a pool that is not cancelled. */
  lemma TakeOne(s: Pool, w: nat) returns (es: seq<Event>)
    requires !s.cancelled && s.queue != [] && w < |s.workers| && !s.workers[w].Gone?
    ensures Legal(s, es)
    ensures var n := Run(s, es);
      && !n.cancelled && n.queue == s.queue[1..] && |n.workers| == |s.workers| && !n.workers[w].Gone?
      && n.waiters == Rouse(s.waiters)
  {
    if s.workers[w].Asleep? {
      es := TwoEvents(s, Stir(w), Fetch(w));
    } else if s.workers[w].Working? {
      es := TwoEvents(s, Finish(w), Fetch(w));
    } else {
      es := [Fetch(w)];
      OneEvent(s, Fetch(w));
    }
  }

  lemma OneEvent(s: Pool, e: Event)
    requires Enabled(s, e)
    ensures Legal(s, [e]) && Run(s, [e]) == Next(s, e)
  {
  }

  lemma TwoEvents(s: Pool, e: Event, f: Event) returns (es: seq<Event>)
    requires Enabled(s, e) && Enabled(Next(s, e), f)
    ensures Legal(s, es) && Run(s, es) == Next(Next(s, e), f)
  {
    OneEvent(s, e);
    OneEvent(Next(s, e), f);
    RunSplits(s, [e], [f]);
    es := [e] + [f];
  }

  lemma {:induction false} Drain(s: Pool, w: nat) returns (es: seq<Event>)
    requires !s.cancelled && w < |s.workers| && !s.workers[w].Gone?
    ensures Legal(s, es)
    ensures var n := Run(s, es);
      && n.queue == [] && |n.waiters| == |s.waiters|
      && (if s.queue == [] then n == s else n.waiters == Rouse(s.waiters))
    decreases |s.queue|
  {
    if s.queue == [] {
      es := [];
    } else {
      var one := TakeOne(s, w);
      var n := Run(s, one);
      var more := Drain(n, w);
      RunSplits(s, one, more);
      es := one + more;
      assert Rouse(Rouse(s.waiters)) == Rouse(s.waiters);
    }
  }

  /**
   * A caller of wait_until_empty that has not returned can still do so exactly if the queue is
   * empty, or the pool has not been cancelled and has a worker left.
   */
  lemma WaiterReturnsIff(s: Pool, c: nat)
    requires Inv(s) && c < |s.waiters| && !s.waiters[c].Returned?
    ensures CanReturn(s, c) <==> s.queue == [] || !Stuck(s)
  {
    if s.queue == [] {
      if s.waiters[c].Sleeping? { assert false; }
      OneEvent(s, Await(c));
      assert Run(s, [Await(c)]).waiters[c].Returned?;
    } else if Stuck(s) {
      forall es | Legal(s, es) ensures !(c < |Run(s, es).waiters| && Run(s, es).waiters[c].Returned?) {
        StrandedStays(s, es, c);
      }
    } else {
      var w :| 0 <= w < |s.workers| && !s.workers[w].Gone?;
      var es := Drain(s, w);
      OneEvent(Run(s, es), Await(c));
      RunSplits(s, es, [Await(c)]);
      assert Run(s, es + [Await(c)]).waiters[c].Returned?;
    }
  }

  /** No wakeup is lost: with a task to take, a worker that is left can go on without being woken. */
  lemma NoLostWakeup(s: Pool) returns (w: nat)
    requires Inv(s) && s.queue != [] && !Stuck(s)
    ensures Enabled(s, Fetch(w)) || Enabled(s, Finish(w))
  {
    w :| 0 <= w < |s.workers| && !s.workers[w].Gone?;
  }

  /** Who sleeps in wait_until_empty when the pool is cancelled is never let go, in any run. */
  lemma CancelStrandsWaiter(s: Pool, c: nat)
    requires Inv(s) && c < |s.waiters| && s.waiters[c].Sleeping?
    ensures !CanReturn(Next(s, Cancel), c)
  {
    NextIsSafe(s, Cancel);
    WaiterReturnsIff(Next(s, Cancel), c);
  }

  /** It happens: one task is scheduled, awaited, and the pool cancelled before its worker came to it. */
  lemma StrandedRun()
    ensures var s := Fresh(1, 1);
      && Enabled(Next(s, Schedule(7)), Await(0))
      && !CanReturn(Next(Next(Next(s, Schedule(7)), Await(0)), Cancel), 0)
  {
    var s := Fresh(1, 1);
    PoolIsSafe(1, 1, []);
    NextIsSafe(s, Schedule(7));
    var s1 := Next(s, Schedule(7));
    NextIsSafe(s1, Await(0));
    CancelStrandsWaiter(Next(s1, Await(0)), 0);
  }

  // ----- the pool's own code -----

  /** Each method is what one thread does from taking the lock to letting it go or sleeping. */
  class TaskPool {
    var queue: seq<Task>
    var cancelled: bool
    var workers: seq<Worker>
    var waiters: seq<Waiter>
    ghost var scheduled: seq<Task>
    ghost var taken: seq<Task>
    ghost var finished: seq<Task>

    constructor (nThreads: nat, callers: nat)
      ensures Value() == Fresh(nThreads, callers) && Inv(Value())
    {
      queue, cancelled := [], false;
      workers, waiters := seq(nThreads, _ => Free), seq(callers, _ => Outside);
      scheduled, taken, finished := [], [], [];
      new;
      PoolIsSafe(nThreads, callers, []);
    }

    ghost function Value(): Pool
      reads this
    {
      Pool(queue, cancelled, workers, waiters, scheduled, taken, finished)
    }

    method Schedule(task: Task)
      requires Inv(Value())
      modifies this
      ensures Value() == Next(old(Value()), Event.Schedule(task)) && Inv(Value())
    {
      NextIsSafe(Value(), Event.Schedule(task));
      queue := queue + [task];
      scheduled := scheduled + [task];
      workers := Wake(workers);
    }

    method Cancel()
      requires Inv(Value())
      modifies this
      ensures Value() == Next(old(Value()), Event.Cancel) && Inv(Value())
    {
      NextIsSafe(Value(), Event.Cancel);
      cancelled := true;
      workers := Wake(workers);
    }

    /** The result is none if the worker sleeps or leaves. */
    method GetTask(w: nat) returns (task: Task, got: bool)
      requires Inv(Value()) && Enabled(Value(), Fetch(w))
      modifies this
      ensures Value() == Next(old(Value()), Fetch(w)) && Inv(Value())
      ensures got <==> !old(cancelled) && old(queue) != []
      ensures got ==> task == old(queue)[0]
    {
      NextIsSafe(Value(), Fetch(w));
      task, got := 0, false;
      if !cancelled && queue == [] {
        workers := workers[w := Asleep];
      } else if cancelled {
        workers := workers[w := Gone];
      } else {
        task, got := queue[0], true;
        queue := queue[1..];
        taken := taken + [task];
        workers := workers[w := Working(task)];
        waiters := Rouse(waiters);
      }
    }

    /** A task that throws takes its worker with it. */
    method Executed(w: nat, threw: bool)
      requires Inv(Value()) && Enabled(Value(), Finish(w))
      modifies this
      ensures Value() == Next(old(Value()), if threw then Fail(w) else Finish(w)) && Inv(Value())
    {
      NextIsSafe(Value(), if threw then Fail(w) else Finish(w));
      finished := finished + [workers[w].task];
      workers := workers[w := if threw then Gone else Free];
    }

    method WaitUntilEmpty(c: nat) returns (done: bool)
      requires Inv(Value()) && Enabled(Value(), Await(c))
      modifies this
      ensures Value() == Next(old(Value()), Await(c)) && Inv(Value())
      ensures done <==> old(queue) == []
    {
      NextIsSafe(Value(), Await(c));
      done := queue == [];
      waiters := waiters[c := if done then Returned else Sleeping];
    }
  }
}
