/**
  What the calls of threadpool(C Implement)/threadpool.c come back with: which adds are accepted,
  which call of threadpool_destroy closes the pool.
 */
module ThreadPoolCalls {
  import opened Common
  import opened ThreadPool
  import opened ThreadPoolRuns
  import opened ThreadPoolEnds

  // ---------- One critical section ----------

  // A job is refused exactly when the queue is closed, and waits exactly while an open queue is full
  lemma AddComesTo(s: System, a: nat)
    requires Safe(s) && Enabled(s, Add(a))
    ensures var t := Next(s, Add(a));
      && (t.adders[a] == Added(-1) <==> s.m.queueClosed)
      && (t.adders[a] == AdderAsleep <==> !s.m.queueClosed && |s.m.queue| == s.m.capacity)
      && (t.adders[a] == Added(0) <==> !s.m.queueClosed && |s.m.queue| != s.m.capacity)
      && t.m.queue == (if t.adders[a] == Added(0) then s.m.queue + [a] else s.m.queue)
  {
  }

  // A worker leaves exactly when the pool is closed, and otherwise takes the first job if there is one
  lemma TakeComesTo(s: System, w: nat, d: nat)
    requires Enabled(s, Take(w, d))
    ensures var t := Next(s, Take(w, d));
      && (t.workers[w] == Exited <==> s.m.poolClosed)
      && (t.workers[w] == WorkerAsleep <==> !s.m.poolClosed && s.m.queue == [])
      && (t.workers[w] == Running(|s.taken|) <==> !s.m.poolClosed && s.m.queue != [])
      && (t.workers[w].Running? ==> s.m.queue == [t.taken[|s.taken|]] + t.m.queue)
      && (!t.workers[w].Running? ==> t.m.queue == s.m.queue)
  {
  }

  // A call of destroy is refused exactly when the queue is closed already; it closes the pool once the queue is empty
  lemma DestroyComesTo(s: System, d: nat)
    requires Safe(s) && Enabled(s, Destroy(d))
    ensures var t := Next(s, Destroy(d));
      && t.m.queueClosed && t.m.queue == s.m.queue
      && (t.destroyers[d] == Destroyed(-1) <==> s.m.queueClosed)
      && (t.destroyers[d] == DestroyerAsleep <==> !s.m.queueClosed && s.m.queue != [])
      && (t.destroyers[d] == WakingWorkers <==> !s.m.queueClosed && s.m.queue == [])
      && (t.m.poolClosed <==> s.m.poolClosed || t.destroyers[d] == WakingWorkers)
  {
  }

  // ---------- Any run ----------

  // The answers given so far, and who has closed the queue
  ghost predicate Answers(s: System) {
    && (forall a :: a in s.adders && s.adders[a].Added? ==>
         s.adders[a].result == 0 || (s.adders[a].result == -1 && s.m.queueClosed))
    && (forall d :: d in s.destroyers && s.destroyers[d].Destroyed? ==>
         s.destroyers[d].result == 0 || (s.destroyers[d].result == -1 && s.m.queueClosed))
    && (s.m.queueClosed ==> exists d :: d in s.destroyers && Past(s.destroyers[d]))
  }

  // What is closed stays closed, and accepts nothing
  ghost predicate ClosedKept(s: System, t: System) {
    s.m.queueClosed ==> t.m.queueClosed && t.accepted == s.accepted
  }

  lemma AnswersKept(s: System, action: Action)
    requires Safe(s) && Answers(s) && Enabled(s, action)
    ensures Answers(Next(s, action)) && ClosedKept(s, Next(s, action))
  {
    hide CanSignal, WokenWorkers, Fifo, Bounded, OnceEach, OneDestroyer;
    var t := Next(s, action);
    if s.m.queueClosed {
      var d :| d in s.destroyers && Past(s.destroyers[d]);
      assert d in t.destroyers && Past(t.destroyers[d]);
    } else if t.m.queueClosed {
      assert action.Destroy? && Past(t.destroyers[action.d]);
    }
  }

  lemma KeptTwice(s: System, t: System, u: System)
    ensures ClosedKept(s, s) && (ClosedKept(s, t) && ClosedKept(t, u) ==> ClosedKept(s, u))
  {
  }

  lemma {:induction false} RunsAnswer(run: seq<System>, threads: nat, capacity: int)
    requires IsRun(run, threads, capacity)
    ensures forall i :: 0 <= i < |run| ==> Answers(run[i])
    ensures forall i, j :: 0 <= i <= j < |run| ==> ClosedKept(run[i], run[j])
    decreases |run|
  {
    hide Answers, Safe, ClosedKept, Enabled, Next;
    RunsAreSafe(run, threads, capacity);
    if |run| == 1 {
      NoAnswers(threads, capacity);
      KeptTwice(run[0], run[0], run[0]);
    } else {
      var n := |run| - 1;
      var before := run[..n];
      forall i, j | 0 <= i && j == i + 1 < n ensures Step(before[i], before[j]) {
        assert Step(run[i], run[j]);
      }
      RunsAnswer(before, threads, capacity);
      assert before[n - 1] == run[n - 1] && Step(run[n - 1], run[n]);
      var action :| Enabled(run[n - 1], action) && run[n] == Next(run[n - 1], action);
      AnswersKept(run[n - 1], action);
      forall i | 0 <= i < |run| ensures Answers(run[i]) {
        if i < n {
          assert run[i] == before[i];
        }
      }
      forall i, j | 0 <= i <= j < |run| ensures ClosedKept(run[i], run[j]) {
        if j < n {
          assert run[i] == before[i] && run[j] == before[j];
        } else if i < n {
          assert run[i] == before[i] && ClosedKept(before[i], before[n - 1]);
          KeptTwice(run[i], run[n - 1], run[n]);
        } else {
          KeptTwice(run[n], run[n], run[n]);
        }
      }
    }
  }

  lemma NoAnswers(threads: nat, capacity: int)
    ensures Answers(Start(threads, capacity))
  {
  }

  // Once the queue is closed, the jobs accepted are those accepted until then
  lemma ClosedForGood(run: seq<System>, threads: nat, capacity: int, i: nat, j: nat)
    requires IsRun(run, threads, capacity) && i <= j < |run| && run[i].m.queueClosed
    ensures run[j].m.queueClosed && run[j].accepted == run[i].accepted
  {
    RunsAnswer(run, threads, capacity);
    assert ClosedKept(run[i], run[j]);
  }

  // Where no thread can move: without a call of destroy every job has been accepted; otherwise one of
  // these calls, and only one, has returned 0, and all workers have left
  lemma AnswersAtRest(run: seq<System>, threads: nat, capacity: int)
    requires IsRun(run, threads, capacity) && threads >= 1 && capacity != 0 && !CanMove(run[|run| - 1])
    ensures var s := run[|run| - 1];
      && (s.destroyers == map[] ==> forall a :: a in s.adders ==> s.adders[a] == Added(0))
      && (s.destroyers != map[] ==>
           (exists d :: JustOne(s, d)) && forall w :: 0 <= w < |s.workers| ==> s.workers[w].Exited?)
  {
    var s := run[|run| - 1];
    AtRest(run, threads, capacity);
    RunsAreSafe(run, threads, capacity);
    RunsAnswer(run, threads, capacity);
    assert Answers(s) && Safe(s);
    if s.destroyers != map[] {
      var d := SomeDestroyed(s);
      forall e | e in s.destroyers && s.destroyers[e] == Destroyed(0) ensures e == d {
        DestroyedOnce(s, d, e);
      }
      assert JustOne(s, d);
    }
  }

  // The call that has returned 0
  ghost predicate JustOne(s: System, d: nat) {
    d in s.destroyers && s.destroyers[d] == Destroyed(0) &&
    forall e :: e in s.destroyers && s.destroyers[e] == Destroyed(0) ==> e == d
  }

  lemma SomeDestroyed(s: System) returns (d: nat)
    requires Answers(s) && !Unfinished(s) && s.destroyers != map[]
    ensures d in s.destroyers && s.destroyers[d] == Destroyed(0)
  {
    d :| d in s.destroyers;
    assert s.destroyers[d].Destroyed?;
    if s.destroyers[d] != Destroyed(0) {
      d :| d in s.destroyers && Past(s.destroyers[d]);
      assert s.destroyers[d].Destroyed?;
    }
  }
}
