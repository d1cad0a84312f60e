/**
  How runs of threadpool(C Implement)/threadpool.c end: left to themselves the threads come to rest
  with every call returned, and threadpool_destroy may free the pool under a call that is still in it.
 */
module ThreadPoolEnds {
  import opened Common
  import opened ThreadPool
  import opened ThreadPoolRuns

  // ---------- A measure that falls with every step ----------

  ghost function Where<T>(m: map<nat, T>, p: T -> bool): set<nat> { set k | k in m && p(m[k]) }

  ghost function Many<T>(m: map<nat, T>, p: T -> bool): nat { |Where(m, p)| }

  lemma ManyUpdate<T>(m: map<nat, T>, k: nat, v: T, p: T -> bool)
    requires k in m
    ensures Many(m[k := v], p) == Many(m, p) - (if p(m[k]) then 1 else 0) + if p(v) then 1 else 0
  {
    var before := Where(m, p);
    assert Where(m[k := v], p) == if p(v) then before + {k} else before - {k};
  }

  ghost function Numbered<T>(s: seq<T>): map<nat, T> { map i: nat | i < |s| :: s[i] }

  lemma NumberedUpdate<T>(s: seq<T>, i: nat, x: T)
    requires i < |s|
    ensures Numbered(s[i := x]) == Numbered(s)[i := x]
  {
  }

  // How far a call of threadpool_destroy is from its end
  ghost function Stage(d: Destroyer): nat {
    match d
    case Entering => 5
    case Draining => 4
    case DestroyerAsleep => 4
    case WakingWorkers => 3
    case WakingAdders => 2
    case Joining => 1
    case Destroyed(_) => 0
  }

  ghost predicate Open(a: Adder) { !a.Added? }
  ghost predicate Adds(a: Adder) { a.Adding? }
  ghost predicate Runs(w: Worker) { w.Running? }
  ghost predicate Looks(w: Worker) { w.Looking? }
  ghost predicate Drains(d: Destroyer) { d.Draining? }

  ghost function CallsLeft(s: System): nat { Many(s.adders, Open) }
  ghost function RunsLeft(s: System): nat { Many(Numbered(s.workers), Runs) }
  ghost function Awake(s: System): nat {
    Many(s.adders, Adds) + Many(Numbered(s.workers), Looks) + Many(s.destroyers, Drains)
  }

  ghost function AtLeast(k: nat): Destroyer -> bool { (d: Destroyer) => Stage(d) >= k }

  ghost function StagesLeft(ds: map<nat, Destroyer>): nat {
    Many(ds, AtLeast(1)) + Many(ds, AtLeast(2)) + Many(ds, AtLeast(3)) + Many(ds, AtLeast(4)) + Many(ds, AtLeast(5))
  }

  lemma StagesUpdate(ds: map<nat, Destroyer>, d: nat, v: Destroyer)
    requires d in ds
    ensures StagesLeft(ds[d := v]) == StagesLeft(ds) - Stage(ds[d]) + Stage(v)
  {
    ManyUpdate(ds, d, v, AtLeast(1));
    ManyUpdate(ds, d, v, AtLeast(2));
    ManyUpdate(ds, d, v, AtLeast(3));
    ManyUpdate(ds, d, v, AtLeast(4));
    ManyUpdate(ds, d, v, AtLeast(5));
  }

  // Fewer calls to come back, or else a shorter queue, fewer jobs under way, fewer stages, fewer threads awake
  ghost predicate Nearer(s: System, t: System) {
    || CallsLeft(t) < CallsLeft(s)
    || (CallsLeft(t) == CallsLeft(s) &&
        (|| |t.m.queue| < |s.m.queue|
         || (|t.m.queue| == |s.m.queue| &&
             (|| RunsLeft(t) < RunsLeft(s)
              || (RunsLeft(t) == RunsLeft(s) &&
                  (|| StagesLeft(t.destroyers) < StagesLeft(s.destroyers)
                   || (StagesLeft(t.destroyers) == StagesLeft(s.destroyers) && Awake(t) < Awake(s))))))))
  }

  lemma WakingKeeps(s: System)
    ensures Many(WokenAdders(s.adders), Open) == CallsLeft(s)
    ensures Many(Numbered(WokenWorkers(s.workers)), Runs) == RunsLeft(s)
  {
    assert Where(WokenAdders(s.adders), Open) == Where(s.adders, Open);
    assert Where(Numbered(WokenWorkers(s.workers)), Runs) == Where(Numbered(s.workers), Runs);
  }

  lemma AddNearer(s: System, a: nat)
    requires Enabled(s, Add(a))
    ensures Nearer(s, Next(s, Add(a)))
  {
    var v := AddStep(s, a).adders[a];
    ManyUpdate(s.adders, a, v, Open);
    ManyUpdate(s.adders, a, v, Adds);
  }

  lemma WorkerNearer(s: System, w: nat, v: Worker, t: System)
    requires w < |s.workers| && (s.workers[w].Looking? ==> !v.Running? && !v.Looking?)
    requires s.workers[w].Looking? || (s.workers[w].Running? && !v.Running?)
    requires t.workers == s.workers[w := v] && t.m == s.m && t.adders == s.adders && t.destroyers == s.destroyers
    ensures Nearer(s, t)
  {
    NumberedUpdate(s.workers, w, v);
    ManyUpdate(Numbered(s.workers), w, v, Runs);
    ManyUpdate(Numbered(s.workers), w, v, Looks);
  }

  lemma TakeNearer(s: System, w: nat, d: nat)
    requires Enabled(s, Take(w, d))
    ensures Nearer(s, Next(s, Take(w, d)))
  {
    hide Nearer;
    var t := TakeStep(s, w, d);
    if TakeResult(s.m).TakeJob? {
      WakingKeeps(s);
      ShorterIsNearer(s, t);
    } else {
      WorkerNearer(s, w, t.workers[w], t);
    }
  }

  lemma ShorterIsNearer(s: System, t: System)
    requires CallsLeft(t) == CallsLeft(s) && |t.m.queue| < |s.m.queue|
    ensures Nearer(s, t)
  {
  }

  lemma DestroyerNearer(s: System, d: nat, v: Destroyer, t: System)
    requires d in s.destroyers && t.destroyers == s.destroyers[d := v] && t.m.queue == s.m.queue
    requires CallsLeft(t) == CallsLeft(s) && RunsLeft(t) == RunsLeft(s)
    requires Stage(v) < Stage(s.destroyers[d]) ||
      (v.DestroyerAsleep? && s.destroyers[d].Draining? && t.adders == s.adders && t.workers == s.workers)
    ensures Nearer(s, t)
  {
    StagesUpdate(s.destroyers, d, v);
    ManyUpdate(s.destroyers, d, v, Drains);
  }

  // Every step that a thread takes of itself, and that begins no call, brings the end nearer
  lemma ProgressNearer(s: System, action: Action)
    requires Progress(action) && Enabled(s, action)
    ensures Nearer(s, Next(s, action))
  {
    hide Nearer, CallsLeft, RunsLeft;
    var t := Next(s, action);
    match action {
      case Add(a) => AddNearer(s, a);
      case Take(w, d) => TakeNearer(s, w, d);
      case Finish(w) => WorkerNearer(s, w, Looking, t);
      case Destroy(d) =>
        SameLeft(s, t);
        DestroyerNearer(s, d, t.destroyers[d], t);
      case Drain(d) =>
        SameLeft(s, t);
        DestroyerNearer(s, d, t.destroyers[d], t);
      case BroadcastWorkers(d) =>
        WokenLeft(s, t);
        DestroyerNearer(s, d, WakingAdders, t);
      case BroadcastAdders(d) =>
        WokenLeft(s, t);
        DestroyerNearer(s, d, Joining, t);
      case Join(d) =>
        SameLeft(s, t);
        DestroyerNearer(s, d, Destroyed(0), t);
      case _ =>
    }
  }

  lemma SameLeft(s: System, t: System)
    requires t.adders == s.adders && t.workers == s.workers
    ensures CallsLeft(t) == CallsLeft(s) && RunsLeft(t) == RunsLeft(s)
  {
  }

  lemma WokenLeft(s: System, t: System)
    requires t.adders == s.adders || t.adders == WokenAdders(s.adders)
    requires t.workers == s.workers || t.workers == WokenWorkers(s.workers)
    ensures CallsLeft(t) == CallsLeft(s) && RunsLeft(t) == RunsLeft(s)
  {
    WakingKeeps(s);
  }

  // ---------- Runs come to rest ----------

  ghost predicate Moves(s: System, t: System) {
    exists action :: Progress(action) && Enabled(s, action) && t == Next(s, action)
  }

  // Without new calls and spurious wake-ups nothing goes on forever
  lemma ComesToRest(f: nat -> System, i: nat)
    ensures exists j :: i <= j && !Moves(f(j), f(j + 1))
    decreases CallsLeft(f(i)), |f(i).m.queue|, RunsLeft(f(i)), StagesLeft(f(i).destroyers), Awake(f(i))
  {
    hide CallsLeft, RunsLeft, StagesLeft, Awake, Enabled, Next;
    if Moves(f(i), f(i + 1)) {
      var action :| Progress(action) && Enabled(f(i), action) && f(i + 1) == Next(f(i), action);
      ProgressNearer(f(i), action);
      ComesToRest(f, i + 1);
    }
  }

  // Where no thread can move, every call has come back, and every accepted job has been carried out exactly once
  lemma AtRest(run: seq<System>, threads: nat, capacity: int)
    requires IsRun(run, threads, capacity) && threads >= 1 && capacity != 0 && !CanMove(run[|run| - 1])
    ensures var s := run[|run| - 1];
      && !Unfinished(s) && s.m.queue == [] && s.taken == s.accepted
      && NoDup(s.runs) && forall k :: k in s.runs <==> 0 <= k < |s.accepted|
  {
    hide CanMove, NoLostWakeup, Fifo, OnceEach, Bounded, Flags, OneDestroyer;
    var s := run[|run| - 1];
    RunsAreSafe(run, threads, capacity);
    if Unfinished(s) {
      UnfinishedMoves(run, threads, capacity, |run| - 1);
    }
    if s.m.queue != [] {
      QueueMoves(s);
    }
    AllDone(s);
  }

  lemma AllDone(s: System)
    requires Fifo(s) && OnceEach(s) && !Unfinished(s) && s.m.queue == []
    ensures s.taken == s.accepted && NoDup(s.runs) && forall k :: k in s.runs <==> 0 <= k < |s.accepted|
  {
    assert s.taken + s.m.queue == s.taken;
    forall k | 0 <= k < |s.taken| ensures k in s.runs {
      assert !Held(s.workers, k);
    }
  }

  // Any run can be carried on to such a rest, without new calls
  lemma CarriedOn(run: seq<System>, threads: nat, capacity: int) returns (longer: seq<System>)
    requires IsRun(run, threads, capacity)
    ensures IsRun(longer, threads, capacity) && run <= longer && !CanMove(longer[|longer| - 1])
    ensures forall i, j :: |run| - 1 <= i && j == i + 1 < |longer| ==> Moves(longer[i], longer[j])
    decreases CallsLeft(run[|run| - 1]), |run[|run| - 1].m.queue|, RunsLeft(run[|run| - 1]),
      StagesLeft(run[|run| - 1].destroyers), Awake(run[|run| - 1])
  {
    hide CallsLeft, RunsLeft, StagesLeft, Awake, Enabled, Next;
    var s := run[|run| - 1];
    if CanMove(s) {
      var action :| Progress(action) && Enabled(s, action);
      ProgressNearer(s, action);
      var next := OneMore(run, threads, capacity, action);
      longer := CarriedOn(next, threads, capacity);
      assert longer[|run| - 1] == next[|run| - 1] == s && longer[|run|] == next[|run|];
      assert Moves(s, next[|run|]);
    } else {
      longer := run;
    }
  }

  // ---------- Freeing the pool ----------

  // A call other than `d` that has begun and not come back: it is asleep in the pool, or waits for its mutex
  ghost predicate Inside(s: System, d: nat) {
    || (exists a :: a in s.adders && !s.adders[a].Added?)
    || exists e :: e in s.destroyers && e != d && !s.destroyers[e].Destroyed?
  }

  // A step that begins no call
  ghost predicate Quiet(s: System, t: System) {
    exists action: Action :: !action.CallAdd? && !action.CallDestroy? && Enabled(s, action) && t == Next(s, action)
  }

  ghost predicate Continues(s: System, t: seq<System>) {
    t != [] && t[0] == s && forall i, j :: 0 <= i && j == i + 1 < |t| ==> Quiet(t[i], t[j])
  }

  // threadpool_destroy has returned 0, having freed the pool
  ghost predicate Freed(s: System, d: nat) { d in s.destroyers && s.destroyers[d] == Destroyed(0) }

  lemma StaysOutside(s: System, t: System, d: nat)
    requires !Inside(s, d) && Quiet(s, t)
    ensures !Inside(t, d)
  {
    hide CanSignal, WokenWorkers, AfterAdd, AfterTake, AfterDrain, AfterDestroy, AddResult, TakeResult;
    var action: Action :| !action.CallAdd? && !action.CallDestroy? && Enabled(s, action) && t == Next(s, action);
  }

  lemma {:induction false} OutsideToTheEnd(s: System, t: seq<System>, d: nat)
    requires !Inside(s, d) && Continues(s, t)
    ensures !Inside(t[|t| - 1], d)
    decreases |t|
  {
    hide Inside, Quiet;
    if |t| > 1 {
      assert Quiet(t[0], t[1]);
      StaysOutside(s, t[1], d);
      forall i, j | 0 <= i && j == i + 1 < |t[1..]| ensures Quiet(t[1..][i], t[1..][j]) {
        assert Quiet(t[i + 1], t[j + 1]);
      }
      OutsideToTheEnd(t[1], t[1..], d);
    }
  }

  // Once it has closed the queue, the destroyer or a worker can take a step
  lemma DestroyerGoesOn(s: System, d: nat) returns (action: Action)
    requires Safe(s) && NoLostWakeup(s) && s.workers != []
    requires d in s.destroyers && Past(s.destroyers[d]) && !s.destroyers[d].Destroyed?
    ensures Enabled(s, action)
    ensures action.Take? || action.Finish? || action in {Drain(d), BroadcastWorkers(d), BroadcastAdders(d), Join(d)}
  {
    match s.destroyers[d] {
      case Draining => action := Drain(d);
      case DestroyerAsleep => action := WorkerGoesOn(s, 0);
      case WakingWorkers => action := BroadcastWorkers(d);
      case WakingAdders => action := BroadcastAdders(d);
      case Joining =>
        assert Closing(s.destroyers[d]);
        if w :| 0 <= w < |s.workers| && !s.workers[w].Exited? {
          action := WorkerGoesOn(s, w);
        } else {
          action := Join(d);
        }
    }
  }

  lemma WorkerGoesOn(s: System, w: nat) returns (action: Action)
    requires w < |s.workers| && (s.workers[w].Looking? || s.workers[w].Running?)
    ensures Enabled(s, action) && (action.Take? || action.Finish?)
  {
    if s.workers[w].Looking? {
      var d := SomeSignal(s);
      action := Take(w, d);
    } else {
      action := Finish(w);
    }
  }

  // Such a step leaves the other calls where they are
  lemma StaysInside(s: System, d: nat, action: Action)
    requires d in s.destroyers && Past(s.destroyers[d]) && Inside(s, d) && Enabled(s, action)
    requires action.Take? || action.Finish? || action in {Drain(d), BroadcastWorkers(d), BroadcastAdders(d), Join(d)}
    ensures var t := Next(s, action); d in t.destroyers && Past(t.destroyers[d]) && Inside(t, d)
  {
    var t := Next(s, action);
    if a :| a in s.adders && !s.adders[a].Added? {
      assert a in t.adders && !t.adders[a].Added?;
    } else {
      var e :| e in s.destroyers && e != d && !s.destroyers[e].Destroyed?;
      assert e in t.destroyers && !t.destroyers[e].Destroyed?;
    }
  }

  lemma FreesUnderCall(run: seq<System>, threads: nat, capacity: int, d: nat) returns (t: seq<System>)
    requires IsRun(run, threads, capacity) && threads >= 1
    requires var s := run[|run| - 1]; d in s.destroyers && Past(s.destroyers[d]) && Inside(s, d)
    ensures Continues(run[|run| - 1], t) && Freed(t[|t| - 1], d) && Inside(t[|t| - 1], d)
    decreases CallsLeft(run[|run| - 1]), |run[|run| - 1].m.queue|, RunsLeft(run[|run| - 1]),
      StagesLeft(run[|run| - 1].destroyers), Awake(run[|run| - 1])
  {
    hide Inside, CallsLeft, RunsLeft, StagesLeft, Awake, Enabled, Next, Safe, NoLostWakeup;
    var s := run[|run| - 1];
    if s.destroyers[d].Destroyed? {
      t := [s];
    } else {
      RunsAreSafe(run, threads, capacity);
      var action := DestroyerGoesOn(s, d);
      StaysInside(s, d, action);
      ProgressNearer(s, action);
      var longer := OneMore(run, threads, capacity, action);
      var rest := FreesUnderCall(longer, threads, capacity, d);
      t := [s] + rest;
      assert Quiet(s, rest[0]);
      forall i, j | 0 <= i && j == i + 1 < |t| ensures Quiet(t[i], t[j]) {
        if i > 0 {
          assert Quiet(rest[i - 1], rest[j - 1]);
        }
      }
    }
  }

  // From where threadpool_destroy has closed the queue: without another call beginning, it can come to free the pool
  // under a call exactly when one is under way then
  lemma FreedUnderCall(run: seq<System>, threads: nat, capacity: int, d: nat)
    requires IsRun(run, threads, capacity) && threads >= 1
    requires var s := run[|run| - 1]; d in s.destroyers && Past(s.destroyers[d])
    ensures var s := run[|run| - 1];
      (exists t :: Continues(s, t) && Freed(t[|t| - 1], d) && Inside(t[|t| - 1], d)) <==> Inside(s, d)
  {
    hide Inside, Past, Freed;
    var s := run[|run| - 1];
    if Inside(s, d) {
      var t := FreesUnderCall(run, threads, capacity, d);
    } else {
      forall t | Continues(s, t) ensures !Inside(t[|t| - 1], d) {
        OutsideToTheEnd(s, t, d);
      }
    }
  }

  // With room for one job, an adder goes to sleep before the pool is closed
  lemma SleeperRun(threads: nat) returns (run: seq<System>)
    ensures IsRun(run, threads, 1)
    ensures run[|run| - 1].adders == map[0 := Added(0), 1 := AdderAsleep]
    ensures run[|run| - 1].destroyers == map[0 := DestroyerAsleep]
  {
    hide Step, IsRun, TakeStep;
    run := StartRun(threads, 1);
    run := OneMore(run, threads, 1, CallAdd(0));
    run := OneMore(run, threads, 1, Add(0));
    run := OneMore(run, threads, 1, CallAdd(1));
    run := OneMore(run, threads, 1, Add(1));
    run := OneMore(run, threads, 1, CallDestroy(0));
    run := OneMore(run, threads, 1, Destroy(0));
  }

  // ... and the pool can be freed with that adder still in it
  lemma FreedUnderSleeper(threads: nat) returns (run: seq<System>, t: seq<System>)
    requires threads >= 1
    ensures IsRun(run, threads, 1) && run[|run| - 1].adders == map[0 := Added(0), 1 := AdderAsleep]
    ensures Continues(run[|run| - 1], t) && Freed(t[|t| - 1], 0) && Inside(t[|t| - 1], 0)
  {
    run := SleeperRun(threads);
    var s := run[|run| - 1];
    assert 1 in s.adders && !s.adders[1].Added?;
    t := FreesUnderCall(run, threads, 1, 0);
  }
}
