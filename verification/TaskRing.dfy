/**
  The task ring of threadpool(C Implement+plus)/threadpool.c, between lock and unlock.  Its
  indices start at 0 and wrap to 1, so place 0 is used only once.
 */
module TaskRing {
  datatype Task<A> = Task(fun: nat, arg: A)

  // One place on, and from the last place to place 1
  function Step(p: nat, max: nat): nat { if p + 1 > max then 1 else p + 1 }

  // The place `i` steps on from `p`, for less than a full lap
  ghost function Place(p: nat, i: nat, max: nat): nat { if p + i <= max then p + i else p + i - max }

  lemma PlaceSteps(p: nat, i: nat, max: nat)
    requires p <= max && i < max
    ensures Place(p, 0, max) == p && Place(Step(p, max), i, max) == Place(p, i + 1, max) == Step(Place(p, i, max), max)
    ensures Place(p, i, max) <= max
  {
  }

  // Less than a lap, no place comes twice
  lemma PlacesDiffer(p: nat, i: nat, j: nat, max: nat)
    requires p <= max && i < j < max
    ensures Place(p, i, max) != Place(p, j, max)
  {
  }

  class Ring<A(0)> {
    const maxTaskNum: nat
    const taskQueue: array<A>
    const taskFun: array<nat>
    var start: nat
    var end: nat
    var currTaskNum: nat
    ghost var pending: seq<Task<A>>

    /** The pending tasks stand one step after the other from `start` to before `end`,
      and are fewer than the places of a lap. */
    ghost predicate Valid()
      reads this, taskQueue, taskFun
    {
      && taskQueue.Length == taskFun.Length == maxTaskNum + 1 && taskQueue as object != taskFun as object
      && start <= maxTaskNum && end <= maxTaskNum
      && currTaskNum == |pending| && (pending != [] ==> |pending| < maxTaskNum)
      && end == Place(start, |pending|, maxTaskNum)
      && forall i :: 0 <= i < |pending| ==>
           var k := Place(start, i, maxTaskNum);
           k <= maxTaskNum && Task(taskFun[k], taskQueue[k]) == pending[i]
    }

    // threadpool_create
    constructor (maxTaskNum: nat)
      ensures Valid() && pending == [] && this.maxTaskNum == maxTaskNum && fresh(taskQueue) && fresh(taskFun)
    {
      this.maxTaskNum := maxTaskNum;
      taskQueue := new A[maxTaskNum + 1];
      taskFun := new nat[maxTaskNum + 1];
      start, end, currTaskNum, pending := 0, 0, 0, [];
    }

    /** threadpool_add_task: a queue of capacity `maxTaskNum - 1` */
    method AddTask(fun: nat, arg: A) returns (r: int)
      requires Valid()
      modifies this`end, this`currTaskNum, this`pending, taskQueue, taskFun
      ensures Valid() && (r == 0 || r == -1) && (r == 0 <==> |old(pending)| < maxTaskNum - 1)
      ensures pending == if r == 0 then old(pending) + [Task(fun, arg)] else old(pending)
    {
      var taskNum: int := currTaskNum;
      if taskNum > maxTaskNum - 2 {
        return -1;
      }
      PlaceSteps(start, currTaskNum, maxTaskNum);
      forall i | 0 <= i < currTaskNum ensures Place(start, i, maxTaskNum) != end {
        PlacesDiffer(start, i, currTaskNum, maxTaskNum);
      }
      currTaskNum := taskNum + 1;
      taskQueue[end] := arg;
      taskFun[end] := fun;
      end := Step(end, maxTaskNum);
      pending := pending + [Task(fun, arg)];
      r := 0;
    }

    /** The dequeue of threadpool_excute_task: tasks leave in the order in which they were accepted */
    method Take() returns (found: bool, fun: nat, arg: A)
      requires Valid()
      modifies this`start, this`currTaskNum, this`pending
      ensures Valid() && (found <==> old(pending) != [])
      ensures found ==> old(pending) == [Task(fun, arg)] + pending
      ensures !found ==> pending == []
    {
      fun, arg := taskFun[start], taskQueue[start];
      found := currTaskNum > 0;
      if found {
        PlaceSteps(start, 0, maxTaskNum);
        ghost var s, n := start, |pending|;
        start := Step(start, maxTaskNum);
        currTaskNum := currTaskNum - 1;
        forall i | 0 <= i < n - 1 ensures Place(start, i, maxTaskNum) == Place(s, i + 1, maxTaskNum) {
          PlaceSteps(s, i, maxTaskNum);
        }
        PlaceSteps(s, n - 1, maxTaskNum);
        pending := pending[1..];
      }
    }

    /** Any run of additions and takes: what is given out and what is left are, in order,
      what was there and what was accepted. */
    method Play(es: seq<Event<A>>) returns (accepted: seq<Task<A>>, given: seq<Task<A>>)
      requires Valid()
      modifies this, taskQueue, taskFun
      ensures Valid()
      ensures Queue(pending, old(pending) + accepted, given)
        == Run(Queue(old(pending), old(pending), []), maxTaskNum - 1, es)
      ensures old(pending) + accepted == given + pending
    {
      accepted, given := [], [];
      var i := 0;
      assert old(pending) + [] == old(pending) && es[0..] == es;
      while i < |es|
        invariant i <= |es| && Valid()
        invariant Run(Queue(pending, old(pending) + accepted, given), maxTaskNum - 1, es[i..])
               == Run(Queue(old(pending), old(pending), []), maxTaskNum - 1, es)
      {
        assert es[i..][0] == es[i] && es[i..][1..] == es[i + 1..];
        match es[i] {
          case Added(task) =>
            var r := AddTask(task.fun, task.arg);
            if r == 0 {
              assert old(pending) + (accepted + [task]) == (old(pending) + accepted) + [task];
              accepted := accepted + [task];
            }
          case Taken =>
            var found, fun, arg := Take();
            if found {
              given := given + [Task(fun, arg)];
            }
        }
        i := i + 1;
      }
      FirstInFirstOut(Queue(old(pending), old(pending), []), maxTaskNum - 1, es);
    }
  }

  // ---------- Any run of additions and takes ----------

  datatype Event<A> = Added(task: Task<A>) | Taken

  // A queue of the given capacity, what it accepts and what it gives out
  datatype Queue<A> = Queue(pending: seq<Task<A>>, accepted: seq<Task<A>>, given: seq<Task<A>>)

  function After<A>(q: Queue<A>, capacity: int, e: Event<A>): Queue<A> {
    match e
    case Added(task) =>
      if |q.pending| < capacity then Queue(q.pending + [task], q.accepted + [task], q.given) else q
    case Taken =>
      if q.pending == [] then q else Queue(q.pending[1..], q.accepted, q.given + [q.pending[0]])
  }

  function Run<A>(q: Queue<A>, capacity: int, es: seq<Event<A>>): Queue<A>
    decreases |es|
  {
    if es == [] then q else Run(After(q, capacity, es[0]), capacity, es[1..])
  }

  // What was accepted has been given out in that order or is still pending
  lemma {:induction false} FirstInFirstOut<A>(q: Queue<A>, capacity: int, es: seq<Event<A>>)
    requires q.accepted == q.given + q.pending
    ensures var r := Run(q, capacity, es); r.accepted == r.given + r.pending
    ensures |q.pending| <= capacity ==> |Run(q, capacity, es).pending| <= capacity
    decreases |es|
  {
    if es != [] {
      var q' := After(q, capacity, es[0]);
      if es[0].Taken? && q.pending != [] {
        assert q.pending == [q.pending[0]] + q.pending[1..];
      }
      assert q'.accepted == q'.given + q'.pending;
      FirstInFirstOut(q', capacity, es[1..]);
    }
  }
}
