/**
 The pre-forked worker pool of the shim: one refill thread, any number of callers. Every
 access to the deque is inside a critical section of one mutex, so a critical section is
 one step; the condition variable may also wake up for no reason.
 */
module WorkerPool {
  /** Where the refill thread is. */
  datatype Refill =
    | Checking                    // about to take the lock and test the predicate
    | Waiting(woken: bool)        // blocked on the condition variable
    | Spawning                    // outside the lock, forking
    | Holding(worker: nat)        // a worker forked, not yet pushed

  /** A caller's dispatch: it has a worker, and has or has not delivered the job. */
  datatype Dispatch = Dispatch(worker: nat, delivered: bool)

  datatype State = State(
    target: nat,
    pool: seq<nat>,
    refill: Refill,
    spawned: nat,                    // workers are numbered as they are forked
    inFlight: map<nat, Dispatch>,    // by caller
    reaped: set<nat>,
    given: seq<nat>,                 // workers handed to callers, in order
    jobs: multiset<nat>)             // jobs run, by worker

  datatype Step =
    | Check
    | Wake
    | WakeForNoReason
    | Spawn
    | SpawnFails
    | Push
    | Acquire(caller: nat)
    | Deliver(caller: nat)
    | Reap(caller: nat)

  /** `start_worker_pool`; a target of 0 starts no refill thread. */
  function Initial(target: nat): State
    requires target > 0
  {
    State(target, [], Checking, 0, map[], {}, [], multiset{})
  }

  predicate Enabled(s: State, step: Step) {
    match step
    case Check => s.refill == Checking
    case Wake => s.refill == Waiting(true)
    case WakeForNoReason => s.refill == Waiting(false)
    case Spawn => s.refill == Spawning
    case SpawnFails => s.refill == Spawning
    case Push => s.refill.Holding?
    case Acquire(c) => c !in s.inFlight
    case Deliver(c) => c in s.inFlight && !s.inFlight[c].delivered
    case Reap(c) => c in s.inFlight
  }

  /** `notify_one` while the refill thread is the only waiter. */
  function Notified(r: Refill): Refill {
    if r.Waiting? then Waiting(true) else r
  }

  function Next(s: State, step: Step): State
    requires Enabled(s, step)
  {
    match step
    case Check => s.(refill := if |s.pool| < s.target then Spawning else Waiting(false))
    case Wake => s.(refill := Checking)
    case WakeForNoReason => s.(refill := Checking)
    case Spawn => s.(refill := Holding(s.spawned), spawned := s.spawned + 1)
    case SpawnFails => s.(refill := Checking)
    case Push => s.(refill := Checking, pool := s.pool + [s.refill.worker])
    case Acquire(c) =>
      if s.pool == [] then s    // the caller forks inline instead
      else
        s.(pool := s.pool[1..], refill := Notified(s.refill), given := s.given + [s.pool[0]],
           inFlight := s.inFlight[c := Dispatch(s.pool[0], false)])
    case Deliver(c) =>
      var w := s.inFlight[c].worker;
      s.(inFlight := s.inFlight[c := Dispatch(w, true)], jobs := s.jobs + multiset{w})
    case Reap(c) =>
      s.(inFlight := s.inFlight - {c}, reaped := s.reaped + {s.inFlight[c].worker})
  }

  ghost predicate Run(s: State, steps: seq<Step>, t: State)
    decreases |steps|
  {
    if |steps| == 0 then s == t
    else Enabled(s, steps[0]) && Run(Next(s, steps[0]), steps[1..], t)
  }

  // -------------------------------------------------------------------------- invariants

  /** Workers pushed so far. */
  function Pushed(s: State): int {
    if s.refill.Holding? then s.spawned - 1 else s.spawned
  }

  /** First in, first out: the workers given away and the pool are all pushed ones, in order. */
  ghost predicate InOrder(s: State) {
    && |s.given| + |s.pool| == Pushed(s)
    && (forall i :: 0 <= i < |s.given| ==> s.given[i] == i)
    && (forall i :: 0 <= i < |s.pool| ==> s.pool[i] == |s.given| + i)
    && (s.refill.Holding? ==> s.refill.worker == s.spawned - 1)
  }

  /** A worker is in flight or reaped exactly when it was given away, and not both, and to one caller. */
  ghost predicate Accounted(s: State) {
    && (forall w: nat :: w < |s.given| <==> w in s.reaped || Busy(s, w))
    && (forall c :: c in s.inFlight ==> s.inFlight[c].worker !in s.reaped)
    && (forall c, d, w :: Has(s, c, w) && Has(s, d, w) ==> c == d)
  }

  ghost predicate Has(s: State, c: nat, w: nat) {
    c in s.inFlight && s.inFlight[c].worker == w
  }

  ghost predicate Busy(s: State, w: nat) {
    exists c :: Has(s, c, w)
  }

  /** No worker runs a second job, and one that was not given away runs none. */
  ghost predicate OneJob(s: State) {
    && (forall w :: s.jobs[w] <= 1)
    && (forall w: nat :: w >= |s.given| ==> s.jobs[w] == 0)
    && (forall c :: c in s.inFlight && !s.inFlight[c].delivered ==> s.jobs[s.inFlight[c].worker] == 0)
  }

  /** The pool does not grow past its target, and the thread does not block below it unwoken. */
  ghost predicate Bounded(s: State) {
    && |s.pool| <= s.target
    && (s.refill == Waiting(false) ==> |s.pool| == s.target)
    && (s.refill.Spawning? || s.refill.Holding? ==> |s.pool| < s.target)
  }

  ghost predicate Inv(s: State) {
    InOrder(s) && Accounted(s) && OneJob(s) && Bounded(s)
  }

  lemma OrderStep(s: State, step: Step)
    requires InOrder(s) && Bounded(s) && Enabled(s, step)
    ensures InOrder(Next(s, step)) && Bounded(Next(s, step))
  {}

  lemma SameBusy(s: State, t: State)
    requires s.inFlight.Keys == t.inFlight.Keys
    requires forall c :: c in s.inFlight ==> s.inFlight[c].worker == t.inFlight[c].worker
    ensures forall c, w :: Has(s, c, w) == Has(t, c, w)
    ensures forall w :: Busy(s, w) == Busy(t, w)
  {
    forall w: nat
      ensures Busy(s, w) == Busy(t, w)
    {
      if Busy(s, w) {
        var c :| Has(s, c, w);
        assert Has(t, c, w);
      }
      if Busy(t, w) {
        var c :| Has(t, c, w);
        assert Has(s, c, w);
      }
    }
  }

  lemma AccountedStep(s: State, step: Step)
    requires InOrder(s) && Accounted(s) && Enabled(s, step)
    ensures Accounted(Next(s, step))
  {
    var t := Next(s, step);
    match step
    case Acquire(c) =>
      if s.pool != [] {
        var w := s.pool[0];
        assert w == |s.given|;
        assert Has(t, c, w);
        forall d, u | d != c
          ensures Has(t, d, u) == Has(s, d, u)
        {}
        assert forall d :: !Has(s, d, w);
        forall u: nat
          ensures Busy(t, u) <==> u == w || Busy(s, u)
        {
          if Busy(s, u) {
            var d :| Has(s, d, u);
            assert Has(t, d, u);
          }
        }
      }
    case Deliver(c) =>
      SameBusy(s, t);
    case Reap(c) =>
      var w := s.inFlight[c].worker;
      assert Has(s, c, w);
      assert forall d, u :: Has(t, d, u) <==> d != c && Has(s, d, u);
      forall u: nat
        ensures Busy(s, u) <==> u == w || Busy(t, u)
      {
        if u != w && Busy(s, u) {
          var d :| Has(s, d, u);
          assert Has(t, d, u);
        }
      }
      forall d | d in t.inFlight
        ensures t.inFlight[d].worker != w
      {
        assert Has(s, d, t.inFlight[d].worker);
      }
    case _ =>
      SameBusy(s, t);
  }

  lemma OneJobStep(s: State, step: Step)
    requires InOrder(s) && Accounted(s) && OneJob(s) && Enabled(s, step)
    ensures OneJob(Next(s, step))
  {
    match step
    case Acquire(c) =>
    case Deliver(c) =>
      var w := s.inFlight[c].worker;
      assert Has(s, c, w);
      forall d | d in s.inFlight && d != c
        ensures s.inFlight[d].worker != w
      {
        assert Has(s, d, s.inFlight[d].worker);
      }
    case _ =>
  }

  /** Safety over every run, for any number of callers and any schedule. */
  lemma {:induction false} RunInv(s: State, steps: seq<Step>, t: State)
    requires Inv(s) && Run(s, steps, t)
    ensures Inv(t)
    decreases |steps|
  {
    hide Enabled, Next, InOrder, Accounted, OneJob, Bounded;
    if |steps| > 0 {
      OrderStep(s, steps[0]);
      AccountedStep(s, steps[0]);
      OneJobStep(s, steps[0]);
      RunInv(Next(s, steps[0]), steps[1..], t);
    }
  }

  lemma InitialInv(target: nat)
    requires target > 0
    ensures Inv(Initial(target))
  {
    assert forall c, w :: !Has(Initial(target), c, w);
    assert forall w :: !Busy(Initial(target), w);
  }

  ghost predicate Reachable(s: State) {
    exists steps :: s.target > 0 && Run(Initial(s.target), steps, s)
  }

  lemma ReachableInv(s: State)
    requires Reachable(s)
    ensures Inv(s)
  {
    var steps :| Run(Initial(s.target), steps, s);
    InitialInv(s.target);
    RunInv(Initial(s.target), steps, s);
  }

  // ------------------------------------------------------------------------ what it means

  datatype Place = Held | Pooled | InFlight | Reaped | Nowhere

  /** Where worker `w` is, and that it is there alone. */
  ghost predicate At(s: State, w: nat, p: Place) {
    match p
    case Held => s.refill == Holding(w)
    case Pooled => w in s.pool
    case InFlight => Busy(s, w)
    case Reaped => w in s.reaped
    case Nowhere => w >= s.spawned
  }

  /** In every reachable state a worker is in exactly one place, and in the pool or in flight only once. */
  lemma OnePlace(s: State, w: nat)
    requires Reachable(s)
    ensures exists p :: At(s, w, p) && forall q :: At(s, w, q) ==> q == p
    ensures forall i, j :: 0 <= i < j < |s.pool| ==> s.pool[i] != s.pool[j]
    ensures forall c, d :: Has(s, c, w) && Has(s, d, w) ==> c == d
  {
    ReachableInv(s);
    var p := if w >= s.spawned then Nowhere
             else if s.refill == Holding(w) then Held
             else if w >= |s.given| then Pooled
             else if w in s.reaped then Reaped
             else InFlight;
    assert w in s.pool <==> |s.given| <= w < |s.given| + |s.pool| by {
      if |s.given| <= w < |s.given| + |s.pool| {
        assert s.pool[w - |s.given|] == w;
      }
    }
    assert At(s, w, p);
    forall q | At(s, w, q)
      ensures q == p
    {}
  }

  /** In every reachable state: the bound, at most one job a worker, and no wait below target without a wake-up. */
  lemma Safe(s: State, w: nat)
    requires Reachable(s)
    ensures |s.pool| <= s.target
    ensures s.jobs[w] <= 1
    ensures s.refill.Waiting? && |s.pool| < s.target ==> s.refill.woken
  {
    ReachableInv(s);
  }

  /** Callers get the workers in the order in which they were forked. */
  lemma FirstInFirstOut(s: State, i: nat)
    requires Reachable(s) && i < |s.given|
    ensures s.given[i] == i
  {
    ReachableInv(s);
  }

  // ----------------------------------------------------------------------------- progress

  /** The refill thread's own step, when forks succeed and nothing wakes it without reason. */
  function RefillStep(r: Refill): Step {
    match r
    case Checking => Check
    case Waiting(_) => Wake
    case Spawning => Spawn
    case Holding(_) => Push
  }

  function Distance(s: State): int {
    4 * (s.target - |s.pool|) +
    match s.refill
    case Waiting(_) => 3
    case Checking => 2
    case Spawning => 1
    case Holding(_) => 0
  }

  /** Below target the thread can always step, and a step brings it nearer. */
  lemma RefillProgress(s: State)
    requires Inv(s) && |s.pool| < s.target
    ensures Enabled(s, RefillStep(s.refill))
    ensures Distance(Next(s, RefillStep(s.refill))) < Distance(s)
  {}

  /** Left alone, the thread fills the pool: the steps it takes. */
  ghost function FillSteps(s: State): seq<Step>
    requires Inv(s)
    decreases Distance(s)
  {
    if |s.pool| >= s.target then []
    else
      RefillProgress(s);
      var step := RefillStep(s.refill);
      OrderStep(s, step);
      AccountedStep(s, step);
      OneJobStep(s, step);
      assert Bounded(s) && Bounded(Next(s, step));
      [step] + FillSteps(Next(s, step))
  }

  lemma {:induction false} PoolFills(s: State) returns (t: State)
    requires Inv(s)
    ensures Run(s, FillSteps(s), t) && |t.pool| == t.target == s.target
    ensures |FillSteps(s)| <= Distance(s) && t.inFlight == s.inFlight && t.pool[..|s.pool|] == s.pool
    decreases Distance(s)
  {
    if |s.pool| >= s.target {
      t := s;
    } else {
      RefillProgress(s);
      var step := RefillStep(s.refill);
      OrderStep(s, step);
      AccountedStep(s, step);
      OneJobStep(s, step);
      t := PoolFills(Next(s, step));
    }
  }

  // ------------------------------------------------------------------ critical sections

  /** The shared variables, with the refill thread's place and the callers' dispatches as ghost state. */
  class Pool {
    const target: nat
    var workers: seq<nat>
    ghost var others: State

    ghost function Now(): State
      reads this
    {
      others.(target := target, pool := workers)
    }

    constructor (target: nat)
      requires target > 0
      ensures Now() == Initial(target)
    {
      this.target, workers, others := target, [], Initial(target);
    }

    /** `try_acquire_worker`. */
    method TryAcquire(ghost caller: nat) returns (ok: bool, worker: nat)
      requires Enabled(Now(), Acquire(caller))
      modifies this
      ensures Now() == Next(old(Now()), Acquire(caller))
      ensures ok <==> old(Now()).pool != []
      ensures ok ==> Has(Now(), caller, worker)
    {
      if workers == [] {
        return false, 0;
      }
      others := Next(Now(), Acquire(caller));
      ok, worker, workers := true, workers[0], workers[1..];
    }

    /** The predicate test of the refill thread, under the lock: does it go on to fork? */
    method TestBelowTarget() returns (below: bool)
      requires Enabled(Now(), Check)
      modifies this
      ensures Now() == Next(old(Now()), Check)
      ensures below <==> Now().refill == Spawning
    {
      others := Next(Now(), Check);
      below := |workers| < target;
    }

    /** The second critical section of the refill thread. */
    method PushBack(worker: nat)
      requires Now().refill == Holding(worker)
      modifies this
      ensures Now() == Next(old(Now()), Push)
    {
      others := Next(Now(), Push);
      workers := workers + [worker];
    }
  }
}
