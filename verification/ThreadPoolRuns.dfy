/**
  Every interleaving of adders, workers and destroyers of threadpool(C Implement)/threadpool.c.
  A step is one critical section, one of the actions outside the mutex, or a spurious wake-up.
 */
module ThreadPoolRuns {
  import opened Common
  import opened ThreadPool

  // One call of threadpool_add_job
  datatype Adder = Adding | AdderAsleep | Added(result: int)

  // A worker thread; `Running(k)` carries out the k-th job that was accepted
  datatype Worker = Looking | WorkerAsleep | Running(k: nat) | Exited

  // One call of threadpool_destroy
  datatype Destroyer =
    | Entering | Draining | DestroyerAsleep | WakingWorkers | WakingAdders | Joining | Destroyed(result: int)

  datatype System = System(
    m: Monitor,
    adders: map<nat, Adder>,
    workers: seq<Worker>,
    destroyers: map<nat, Destroyer>,
    accepted: seq<nat>,  // the calls that returned 0, in order
    taken: seq<nat>,     // the calls whose jobs were dequeued, in order
    runs: seq<nat>       // indices of the jobs that have been carried out
  )

  datatype Action =
    | CallAdd(a: nat) | Add(a: nat) | WakeAdder(a: nat)
    | Take(w: nat, signalled: nat) | WakeWorker(w: nat) | Finish(w: nat)
    | CallDestroy(d: nat) | Destroy(d: nat) | Drain(d: nat) | WakeDestroyer(d: nat)
    | BroadcastWorkers(d: nat) | BroadcastAdders(d: nat) | Join(d: nat)

  // ---------- Waking ----------

  ghost function WokenAdders(calls: map<nat, Adder>): map<nat, Adder> {
    map a | a in calls :: if calls[a].AdderAsleep? then Adding else calls[a]
  }

  ghost function WokenWorkers(ws: seq<Worker>): (r: seq<Worker>)
    ensures |r| == |ws| && forall w :: 0 <= w < |ws| ==> r[w] == if ws[w].WorkerAsleep? then Looking else ws[w]
  {
    seq(|ws|, w requires 0 <= w < |ws| => if ws[w].WorkerAsleep? then Looking else ws[w])
  }

  // pthread_cond_signal wakes one of the sleepers, if there are any
  ghost predicate CanSignal(ds: map<nat, Destroyer>, d: nat) {
    (exists e :: e in ds && ds[e].DestroyerAsleep?) ==> d in ds && ds[d].DestroyerAsleep?
  }
  ghost function Signalled(ds: map<nat, Destroyer>, d: nat): map<nat, Destroyer> {
    if d in ds && ds[d].DestroyerAsleep? then ds[d := Draining] else ds
  }

  // ---------- Steps ----------

  ghost predicate Enabled(s: System, action: Action) {
    match action
    case CallAdd(a) => a !in s.adders
    case Add(a) => a in s.adders && s.adders[a].Adding?
    case WakeAdder(a) => a in s.adders && s.adders[a].AdderAsleep?
    case Take(w, d) => w < |s.workers| && s.workers[w].Looking? && CanSignal(s.destroyers, d)
    case WakeWorker(w) => w < |s.workers| && s.workers[w].WorkerAsleep?
    case Finish(w) => w < |s.workers| && s.workers[w].Running?
    case CallDestroy(d) => d !in s.destroyers
    case Destroy(d) => d in s.destroyers && s.destroyers[d].Entering?
    case Drain(d) => d in s.destroyers && s.destroyers[d].Draining?
    case WakeDestroyer(d) => d in s.destroyers && s.destroyers[d].DestroyerAsleep?
    case BroadcastWorkers(d) => d in s.destroyers && s.destroyers[d].WakingWorkers?
    case BroadcastAdders(d) => d in s.destroyers && s.destroyers[d].WakingAdders?
    case Join(d) => d in s.destroyers && s.destroyers[d].Joining? && forall w :: 0 <= w < |s.workers| ==>
      s.workers[w].Exited?
  }

  ghost function AddStep(s: System, a: nat): System {
    var s' := s.(m := AfterAdd(s.m, a));
    match AddResult(s.m)
    case AddSleeps => s'.(adders := s.adders[a := AdderAsleep])
    case AddRefused => s'.(adders := s.adders[a := Added(-1)])
    case AddAccepted(wake) =>
      s'.(adders := s.adders[a := Added(0)], accepted := s.accepted + [a],
          workers := if wake then WokenWorkers(s.workers) else s.workers)
  }

  ghost function TakeStep(s: System, w: nat, d: nat): System
    requires w < |s.workers|
  {
    var s' := s.(m := AfterTake(s.m));
    match TakeResult(s.m)
    case TakeSleeps => s'.(workers := s.workers[w := WorkerAsleep])
    case TakeExits => s'.(workers := s.workers[w := Exited])
    case TakeJob(job, signalEmpty, wakeAdders) =>
      s'.(workers := s.workers[w := Running(|s.taken|)], taken := s.taken + [job],
          destroyers := if signalEmpty then Signalled(s.destroyers, d) else s.destroyers,
          adders := if wakeAdders then WokenAdders(s.adders) else s.adders)
  }

  ghost function DestroyStep(s: System, d: nat, m: Monitor, r: DestroyOutcome): System {
    s.(m := m, destroyers := s.destroyers[d :=
      match r
      case DestroyRefused => Destroyed(-1)
      case DestroySleeps => DestroyerAsleep
      case DestroyCloses => WakingWorkers])
  }

  ghost function Next(s: System, action: Action): System
    requires Enabled(s, action)
  {
    match action
    case CallAdd(a) => s.(adders := s.adders[a := Adding])
    case Add(a) => AddStep(s, a)
    case WakeAdder(a) => s.(adders := s.adders[a := Adding])
    case Take(w, d) => TakeStep(s, w, d)
    case WakeWorker(w) => s.(workers := s.workers[w := Looking])
    case Finish(w) => s.(workers := s.workers[w := Looking], runs := s.runs + [s.workers[w].k])
    case CallDestroy(d) => s.(destroyers := s.destroyers[d := Entering])
    case Destroy(d) => DestroyStep(s, d, AfterDestroy(s.m), DestroyResult(s.m))
    case Drain(d) => DestroyStep(s, d, AfterDrain(s.m), DrainResult(s.m))
    case WakeDestroyer(d) => s.(destroyers := s.destroyers[d := Draining])
    case BroadcastWorkers(d) => s.(workers := WokenWorkers(s.workers), destroyers := s.destroyers[d := WakingAdders])
    case BroadcastAdders(d) => s.(adders := WokenAdders(s.adders), destroyers := s.destroyers[d := Joining])
    case Join(d) => s.(destroyers := s.destroyers[d := Destroyed(0)])
  }

  // threadpool_init with `threads` workers
  ghost function Start(threads: nat, capacity: int): System {
    System(Monitor([], capacity, false, false), map[], seq(threads, _ => Looking), map[], [], [], [])
  }

  ghost predicate Step(s: System, s': System) {
    exists action :: Enabled(s, action) && s' == Next(s, action)
  }

  ghost predicate IsRun(run: seq<System>, threads: nat, capacity: int) {
    && run != [] && run[0] == Start(threads, capacity)
    && forall i, j :: 0 <= i && j == i + 1 < |run| ==> Step(run[i], run[j])
  }

  // ---------- Invariants ----------

  // Jobs leave in the order in which they were accepted, and each call is accepted at most once
  ghost predicate Fifo(s: System) {
    && s.accepted == s.taken + s.m.queue && NoDup(s.accepted)
    && (forall a :: a in s.accepted ==> a in s.adders && s.adders[a] == Added(0))
    && forall a :: a in s.adders && s.adders[a] == Added(0) ==> a in s.accepted
  }

  ghost predicate Bounded(s: System) { s.m.capacity >= 0 ==> |s.m.queue| <= s.m.capacity }

  ghost predicate Held(workers: seq<Worker>, k: nat) { exists w :: 0 <= w < |workers| && workers[w] == Running(k) }

  // A dequeued job is with one worker, or has been carried out once
  ghost predicate OnceEach(s: System) {
    && NoDup(s.runs)
    && (forall w :: 0 <= w < |s.workers| && s.workers[w].Running? ==>
      s.workers[w].k < |s.taken| && s.workers[w].k !in s.runs)
    && (forall v, w :: 0 <= v < w < |s.workers| && s.workers[v].Running? && s.workers[w].Running? ==>
      s.workers[v].k != s.workers[w].k)
    && (forall k :: k in s.runs ==> k < |s.taken|)
    && forall k :: 0 <= k < |s.taken| ==> k in s.runs || Held(s.workers, k)
  }

  ghost predicate Closing(d: Destroyer) { d.WakingWorkers? || d.WakingAdders? || d.Joining? || d == Destroyed(0) }

  // The flags say how far a destroyer has got
  ghost predicate Flags(s: System) {
    && (s.m.poolClosed ==> s.m.queueClosed && s.m.queue == [])
    && (forall d :: d in s.destroyers && (s.destroyers[d].Draining? || s.destroyers[d].DestroyerAsleep?) ==>
      s.m.queueClosed && !s.m.poolClosed)
    && (forall d :: d in s.destroyers && Closing(s.destroyers[d]) ==> s.m.poolClosed)
    && (forall w :: 0 <= w < |s.workers| && s.workers[w].Exited? ==> s.m.poolClosed)
    && (forall d :: d in s.destroyers && s.destroyers[d] == Destroyed(0) ==>
      forall w :: 0 <= w < |s.workers| ==> s.workers[w].Exited?)
  }

  // At most one destroyer has got past the first test
  ghost predicate Past(d: Destroyer) { d.Draining? || d.DestroyerAsleep? || Closing(d) }
  ghost predicate OneDestroyer(s: System) {
    && (forall d :: d in s.destroyers && Past(s.destroyers[d]) ==> s.m.queueClosed)
    && forall d, e :: d in s.destroyers && e in s.destroyers && Past(s.destroyers[d]) && Past(s.destroyers[e]) ==>
      d == e
  }

  // Nobody sleeps through what they wait for
  ghost predicate NoLostWakeup(s: System) {
    && (s.m.queue != [] ==> forall w :: 0 <= w < |s.workers| ==> !s.workers[w].WorkerAsleep?)
    && (|s.m.queue| != s.m.capacity ==> forall a :: a in s.adders ==> !s.adders[a].AdderAsleep?)
    && (s.m.queue == [] ==> forall d :: d in s.destroyers ==> !s.destroyers[d].DestroyerAsleep?)
    && (forall d :: d in s.destroyers && Closing(s.destroyers[d]) && !s.destroyers[d].WakingWorkers? ==>
          forall w :: 0 <= w < |s.workers| ==> !s.workers[w].WorkerAsleep?)
  }

  // All but the wake-ups
  ghost predicate Safe(s: System) { Fifo(s) && Bounded(s) && OnceEach(s) && Flags(s) && OneDestroyer(s) }

  // ---------- Each step keeps them ----------

  ghost predicate AcceptedCall(adders: map<nat, Adder>, a: nat) { a in adders && adders[a] == Added(0) }

  lemma AcceptedOne(s: System, a: nat, s': System)
    requires Fifo(s) && a in s.adders && s.adders[a].Adding? && s'.adders == s.adders[a := Added(0)]
    requires s'.m.queue == s.m.queue + [a] && s'.taken == s.taken && s'.accepted == s.accepted + [a]
    ensures Fifo(s')
  {
    forall b | b in s'.adders && s'.adders[b] == Added(0) ensures b in s'.accepted {
      if b == a {
        assert s'.accepted[|s.accepted|] == b;
      }
    }
  }

  // Nothing accepted; one job taken from the queue, or none
  lemma AcceptedNone(s: System, s': System)
    requires Fifo(s) && s'.accepted == s.accepted && s'.taken + s'.m.queue == s.taken + s.m.queue
    requires forall a :: AcceptedCall(s'.adders, a) <==> AcceptedCall(s.adders, a)
    ensures Fifo(s')
  {
    forall a | a in s'.accepted ensures a in s'.adders && s'.adders[a] == Added(0) {
      assert AcceptedCall(s.adders, a);
    }
    forall a | a in s'.adders && s'.adders[a] == Added(0) ensures a in s'.accepted {
      assert AcceptedCall(s'.adders, a);
    }
  }

  lemma FifoKept(s: System, action: Action)
    requires Fifo(s) && Enabled(s, action)
    ensures Fifo(Next(s, action))
  {
    hide Fifo, CanSignal, WokenWorkers;
    var s' := Next(s, action);
    if action.Add? && AddResult(s.m).AddAccepted? {
      AcceptedOne(s, action.a, s');
    } else {
      if action.Take? && TakeResult(s.m).TakeJob? {
        assert s.m.queue == [s.m.queue[0]] + s.m.queue[1..];
      }
      AcceptedNone(s, s');
    }
  }

  lemma BoundedKept(s: System, action: Action)
    requires Bounded(s) && Enabled(s, action)
    ensures Bounded(Next(s, action))
  {
  }

  lemma TakenOnce(s: System, w: nat, job: nat, s': System)
    requires OnceEach(s) && w < |s.workers| && s.workers[w].Looking?
    requires s'.workers == s.workers[w := Running(|s.taken|)] && s'.taken == s.taken + [job] && s'.runs == s.runs
    ensures OnceEach(s')
  {
    forall k | 0 <= k < |s'.taken| ensures k in s'.runs || Held(s'.workers, k) {
      if k == |s.taken| {
        assert s'.workers[w] == Running(k);
      } else if k !in s.runs {
        var v :| 0 <= v < |s.workers| && s.workers[v] == Running(k);
        assert s'.workers[v] == Running(k);
      }
    }
  }

  lemma FinishedOnce(s: System, w: nat, s': System)
    requires OnceEach(s) && w < |s.workers| && s.workers[w].Running?
    requires s'.workers == s.workers[w := Looking] && s'.taken == s.taken && s'.runs == s.runs + [s.workers[w].k]
    ensures OnceEach(s')
  {
    var done := s.workers[w].k;
    assert s'.runs[|s.runs|] == done;
    forall k | 0 <= k < |s'.taken| ensures k in s'.runs || Held(s'.workers, k) {
      if k !in s.runs && k != done {
        var v :| 0 <= v < |s.workers| && s.workers[v] == Running(k);
        assert s'.workers[v] == Running(k);
      }
    }
  }

  // Waking, sleeping and leaving touch no running worker
  lemma OthersOnce(s: System, s': System)
    requires OnceEach(s) && |s'.workers| == |s.workers| && s'.taken == s.taken && s'.runs == s.runs
    requires forall w :: 0 <= w < |s.workers| ==>
      if s.workers[w].Running? then s'.workers[w] == s.workers[w] else !s'.workers[w].Running?
    ensures OnceEach(s')
  {
    forall k | 0 <= k < |s'.taken| ensures k in s'.runs || Held(s'.workers, k) {
      if k !in s.runs {
        var v :| 0 <= v < |s.workers| && s.workers[v] == Running(k);
        assert s'.workers[v] == Running(k);
      }
    }
  }

  lemma OnceEachKept(s: System, action: Action)
    requires OnceEach(s) && Enabled(s, action)
    ensures OnceEach(Next(s, action))
  {
    hide OnceEach;
    var s' := Next(s, action);
    if action.Take? && TakeResult(s.m).TakeJob? {
      TakenOnce(s, action.w, s.m.queue[0], s');
    } else if action.Finish? {
      FinishedOnce(s, action.w, s');
    } else {
      OthersOnce(s, s');
    }
  }

  lemma FlagsKept(s: System, action: Action)
    requires Flags(s) && OneDestroyer(s) && Enabled(s, action)
    ensures Flags(Next(s, action))
  {
    hide CanSignal, WokenAdders;
  }

  lemma OneDestroyerKept(s: System, action: Action)
    requires Flags(s) && OneDestroyer(s) && Enabled(s, action)
    ensures OneDestroyer(Next(s, action))
  {
    hide CanSignal, WokenAdders, WokenWorkers;
  }

  lemma NoLostWakeupKept(s: System, action: Action)
    requires Safe(s) && NoLostWakeup(s) && Enabled(s, action)
    ensures NoLostWakeup(Next(s, action))
  {
    hide Fifo, Bounded, OnceEach;
  }

  lemma SafeKept(s: System, action: Action)
    requires Safe(s) && Enabled(s, action)
    ensures Safe(Next(s, action)) && Next(s, action).m.capacity == s.m.capacity
  {
    hide Fifo, Bounded, OnceEach, Flags, OneDestroyer;
    FifoKept(s, action);
    BoundedKept(s, action);
    OnceEachKept(s, action);
    FlagsKept(s, action);
    OneDestroyerKept(s, action);
  }

  // Every state of every run
  lemma {:induction false} RunsAreSafe(run: seq<System>, threads: nat, capacity: int)
    requires IsRun(run, threads, capacity)
    ensures forall i :: 0 <= i < |run| ==> Safe(run[i]) && run[i].m.capacity == capacity && |run[i].workers| == threads
    ensures forall i :: 0 <= i < |run| ==> NoLostWakeup(run[i])
    decreases |run|
  {
    hide Safe, NoLostWakeup;
    if |run| == 1 {
      StartIsSafe(threads, capacity);
    } else {
      var before := run[..|run| - 1];
      forall i, j | 0 <= i && j == i + 1 < |before| ensures Step(before[i], before[j]) {
        assert Step(run[i], run[j]);
      }
      RunsAreSafe(before, threads, capacity);
      var s, s' := run[|run| - 2], run[|run| - 1];
      assert before[|run| - 2] == s && Step(s, s');
      var action :| Enabled(s, action) && s' == Next(s, action);
      SafeKept(s, action);
      SameThreads(s, action);
      NoLostWakeupKept(s, action);
      forall i | 0 <= i < |run| ensures Safe(run[i]) && run[i].m.capacity == capacity && |run[i].workers| == threads &&
        NoLostWakeup(run[i]) {
        if i < |before| {
          assert run[i] == before[i];
        }
      }
    }
  }

  lemma StartIsSafe(threads: nat, capacity: int)
    ensures Safe(Start(threads, capacity)) && NoLostWakeup(Start(threads, capacity))
  {
  }

  lemma SameThreads(s: System, action: Action)
    requires Enabled(s, action)
    ensures |Next(s, action).workers| == |s.workers|
  {
  }

  // ---------- What follows ----------

  // threadpool_destroy returns 0 only when every accepted job has been dequeued, in order, and carried out exactly once
  lemma DestroyedMeansDone(s: System, d: nat)
    requires Safe(s) && d in s.destroyers && s.destroyers[d] == Destroyed(0)
    ensures s.taken == s.accepted && s.m.queue == []
    ensures NoDup(s.runs) && forall k :: k in s.runs <==> 0 <= k < |s.accepted|
  {
    assert Closing(s.destroyers[d]);
    assert s.taken + s.m.queue == s.taken;
    forall k | 0 <= k < |s.accepted| ensures k in s.runs {
      assert !Held(s.workers, k);
    }
  }

  // Only one call of threadpool_destroy can return 0
  lemma DestroyedOnce(s: System, d: nat, e: nat)
    requires Safe(s) && d in s.destroyers && e in s.destroyers && s.destroyers[d] == s.destroyers[e] == Destroyed(0)
    ensures d == e
  {
    assert Past(s.destroyers[d]) && Past(s.destroyers[e]);
  }

  // With no room in the queue no job is ever accepted
  lemma {:induction false} NoRoomNoJobs(run: seq<System>, threads: nat)
    requires IsRun(run, threads, 0)
    ensures run[|run| - 1].accepted == []
    decreases |run|
  {
    if |run| > 1 {
      var before := run[..|run| - 1];
      forall i, j | 0 <= i && j == i + 1 < |before| ensures Step(before[i], before[j]) {
        assert Step(run[i], run[j]);
      }
      NoRoomNoJobs(before, threads);
      RunsAreSafe(before, threads, 0);
      var s, s' := run[|run| - 2], run[|run| - 1];
      assert before[|before| - 1] == s && Step(s, s');
    }
  }

  // A call that has not come back, or a worker that has a job
  ghost predicate Unfinished(s: System) {
    || (exists a :: a in s.adders && !s.adders[a].Added?)
    || (exists d :: d in s.destroyers && !s.destroyers[d].Destroyed?)
    || exists w :: 0 <= w < |s.workers| && s.workers[w].Running?
  }

  // The steps a thread takes of itself
  ghost predicate Progress(action: Action) {
    !action.CallAdd? && !action.CallDestroy? && !action.WakeAdder? && !action.WakeWorker? && !action.WakeDestroyer?
  }

  ghost predicate CanMove(s: System) { exists action :: Progress(action) && Enabled(s, action) }

  lemma SomeSignal(s: System) returns (d: nat)
    ensures CanSignal(s.destroyers, d)
  {
    d := 0;
    if e :| e in s.destroyers && s.destroyers[e].DestroyerAsleep? {
      d := e;
    }
  }

  lemma AwakeMoves(s: System, w: nat)
    requires w < |s.workers| && (s.workers[w].Looking? || s.workers[w].Running?)
    ensures CanMove(s)
  {
    if s.workers[w].Looking? {
      var d := SomeSignal(s);
      assert Enabled(s, Take(w, d));
    } else {
      assert Enabled(s, Finish(w));
    }
  }

  // With a job in the queue the first worker is awake
  lemma QueueMoves(s: System)
    requires Safe(s) && NoLostWakeup(s) && s.m.queue != [] && s.workers != []
    ensures CanMove(s)
  {
    AwakeMoves(s, 0);
  }

  lemma AdderMoves(s: System, a: nat)
    requires Safe(s) && NoLostWakeup(s) && s.m.capacity != 0 && s.workers != [] && a in s.adders && !s.adders[a].Added?
    ensures CanMove(s)
  {
    if s.adders[a].Adding? {
      assert Enabled(s, Add(a));
    } else {
      QueueMoves(s);
    }
  }

  lemma DestroyerMoves(s: System, d: nat)
    requires Safe(s) && NoLostWakeup(s) && s.workers != [] && d in s.destroyers && !s.destroyers[d].Destroyed?
    ensures CanMove(s)
  {
    match s.destroyers[d] {
      case Entering => assert Enabled(s, Destroy(d));
      case Draining => assert Enabled(s, Drain(d));
      case DestroyerAsleep => QueueMoves(s);
      case WakingWorkers => assert Enabled(s, BroadcastWorkers(d));
      case WakingAdders => assert Enabled(s, BroadcastAdders(d));
      case Joining =>
        assert Closing(s.destroyers[d]);
        if w :| 0 <= w < |s.workers| && !s.workers[w].Exited? {
          AwakeMoves(s, w);
        } else {
          assert Enabled(s, Join(d));
        }
      case _ =>
    }
  }

  // While any call or job is unfinished, some thread can take a step of its own
  ghost predicate NeverStuck(threads: nat, capacity: int) {
    forall run, i :: IsRun(run, threads, capacity) && 0 <= i < |run| && Unfinished(run[i]) ==> CanMove(run[i])
  }

  lemma UnfinishedMoves(run: seq<System>, threads: nat, capacity: int, i: nat)
    requires IsRun(run, threads, capacity) && threads >= 1 && capacity != 0 && i < |run| && Unfinished(run[i])
    ensures CanMove(run[i])
  {
    RunsAreSafe(run, threads, capacity);
    var s := run[i];
    if a :| a in s.adders && !s.adders[a].Added? {
      AdderMoves(s, a);
    } else if d :| d in s.destroyers && !s.destroyers[d].Destroyed? {
      DestroyerMoves(s, d);
    } else {
      var w :| 0 <= w < |s.workers| && s.workers[w].Running?;
      AwakeMoves(s, w);
    }
  }

  lemma OneMore(run: seq<System>, threads: nat, capacity: int, action: Action) returns (longer: seq<System>)
    requires IsRun(run, threads, capacity) && Enabled(run[|run| - 1], action)
    ensures longer == run + [Next(run[|run| - 1], action)] && IsRun(longer, threads, capacity)
  {
    longer := run + [Next(run[|run| - 1], action)];
    forall i, j | 0 <= i && j == i + 1 < |longer| ensures Step(longer[i], longer[j]) {
      if j < |run| {
        assert Step(run[i], run[j]);
      }
    }
  }

  lemma StartRun(threads: nat, capacity: int) returns (run: seq<System>)
    ensures IsRun(run, threads, capacity) && run == [Start(threads, capacity)]
  {
    run := [Start(threads, capacity)];
  }

  // The first `w` workers sleep, and so does an adder for which there never is room
  ghost function Blocked(threads: nat, w: nat): System {
    Start(threads, 0).(adders := map[0 := AdderAsleep],
      workers := seq(threads, i => if i < w then WorkerAsleep else Looking))
  }

  lemma {:induction false} BlockedRun(threads: nat, w: nat) returns (run: seq<System>)
    requires w <= threads
    ensures IsRun(run, threads, 0) && run[|run| - 1] == Blocked(threads, w)
  {
    if w == 0 {
      run := StartRun(threads, 0);
      run := OneMore(run, threads, 0, CallAdd(0));
      run := OneMore(run, threads, 0, Add(0));
    } else {
      run := BlockedRun(threads, w - 1);
      run := OneMore(run, threads, 0, Take(w - 1, 0));
    }
  }

  // With no room, an adder sleeps on the empty queue together with all workers
  lemma StuckWithoutRoom(threads: nat) returns (run: seq<System>)
    ensures IsRun(run, threads, 0) && Unfinished(run[|run| - 1]) && !CanMove(run[|run| - 1])
    ensures run[|run| - 1].m.queue == []
  {
    run := BlockedRun(threads, threads);
    var s := run[|run| - 1];
    assert !s.adders[0].Added?;
  }

  // With no workers, a destroyer sleeps on a job that nobody takes
  lemma StuckWithoutWorkers(capacity: int) returns (run: seq<System>)
    requires capacity != 0
    ensures IsRun(run, 0, capacity) && Unfinished(run[|run| - 1]) && !CanMove(run[|run| - 1])
  {
    hide Step, IsRun, TakeStep;
    run := StartRun(0, capacity);
    run := OneMore(run, 0, capacity, CallAdd(0));
    run := OneMore(run, 0, capacity, Add(0));
    run := OneMore(run, 0, capacity, CallDestroy(0));
    run := OneMore(run, 0, capacity, Destroy(0));
    var s := run[|run| - 1];
    assert !s.destroyers[0].Destroyed?;
  }

  // The pool never gets stuck exactly when it has a worker and its bound is not 0; a negative bound is none
  lemma NeverStuckExactly(threads: nat, capacity: int)
    ensures NeverStuck(threads, capacity) <==> threads >= 1 && capacity != 0
  {
    if threads >= 1 && capacity != 0 {
      forall run, i | IsRun(run, threads, capacity) && 0 <= i < |run| && Unfinished(run[i]) ensures CanMove(run[i]) {
        UnfinishedMoves(run, threads, capacity, i);
      }
    } else if capacity == 0 {
      var run := StuckWithoutRoom(threads);
      assert Unfinished(run[|run| - 1]);
    } else {
      var run := StuckWithoutWorkers(capacity);
      assert Unfinished(run[|run| - 1]);
    }
  }
}
