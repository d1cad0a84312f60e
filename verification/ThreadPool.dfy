/**
  The critical sections of threadpool(C Implement)/threadpool.c: what one thread does between
  taking the mutex and giving it up, by unlocking or by waiting on a condition variable.
 */
module ThreadPool {
  // What the mutex protects: the calls whose jobs are queued, and the two flags
  datatype Monitor = Monitor(queue: seq<nat>, capacity: int, queueClosed: bool, poolClosed: bool)

  datatype AddOutcome = AddSleeps | AddRefused | AddAccepted(wakeWorkers: bool)
  datatype TakeOutcome = TakeSleeps | TakeExits | TakeJob(job: nat, signalEmpty: bool, wakeAdders: bool)
  datatype DestroyOutcome = DestroyRefused | DestroySleeps | DestroyCloses

  // ---------- Specification ----------

  function AddResult(m: Monitor): AddOutcome {
    if m.queueClosed || m.poolClosed then AddRefused
    else if |m.queue| == m.capacity then AddSleeps
    else AddAccepted(m.queue == [])
  }
  function AfterAdd(m: Monitor, job: nat): Monitor {
    if AddResult(m).AddAccepted? then m.(queue := m.queue + [job]) else m
  }

  function TakeResult(m: Monitor): TakeOutcome {
    if m.poolClosed then TakeExits
    else if m.queue == [] then TakeSleeps
    else TakeJob(m.queue[0], |m.queue| == 1, |m.queue| == m.capacity)
  }
  function AfterTake(m: Monitor): Monitor {
    if TakeResult(m).TakeJob? then m.(queue := m.queue[1..]) else m
  }

  // The rest of threadpool_destroy once it has closed the queue, up to its unlock
  function DrainResult(m: Monitor): DestroyOutcome { if m.queue != [] then DestroySleeps else DestroyCloses }
  function AfterDrain(m: Monitor): Monitor { if m.queue != [] then m else m.(poolClosed := true) }

  function DestroyResult(m: Monitor): DestroyOutcome {
    if m.queueClosed || m.poolClosed then DestroyRefused else DrainResult(m)
  }
  function AfterDestroy(m: Monitor): Monitor {
    if m.queueClosed || m.poolClosed then m else AfterDrain(m.(queueClosed := true))
  }

  // ---------- struct threadpool ----------

  class Job {
    const call: nat  // stands for the callback and its argument
    var next: Job?

    constructor (call: nat)
      ensures this.call == call && next == null
    {
      this.call, next := call, null;
    }
  }

  ghost function Calls(jobs: seq<Job>): (r: seq<nat>)
    ensures |r| == |jobs| && forall i :: 0 <= i < |jobs| ==> r[i] == jobs[i].call
  {
    seq(|jobs|, i requires 0 <= i < |jobs| => jobs[i].call)
  }

  class Pool {
    const queueMaxNum: int
    var queueCurNum: int
    var head: Job?
    var tail: Job?
    var queueClose: bool
    var poolClose: bool
    ghost var jobs: seq<Job>  // the linked list

    /** The list runs from head to tail without repeating a job, and queue_cur_num is its length. */
    ghost predicate Valid()
      reads this, jobs
    {
      && queueCurNum == |jobs|
      && (forall i, j :: 0 <= i < j < |jobs| ==> jobs[i] != jobs[j])
      && (forall i :: 0 <= i < |jobs| - 1 ==> jobs[i].next == jobs[i + 1])
      && if jobs == [] then head == null && tail == null
         else head == jobs[0] && tail == jobs[|jobs| - 1] && tail.next == null
    }

    ghost function Seen(): Monitor
      reads this
    {
      Monitor(Calls(jobs), queueMaxNum, queueClose, poolClose)
    }

    // threadpool_init
    constructor (queueMaxNum: int)
      ensures Valid() && Seen() == Monitor([], queueMaxNum, false, false) && this.queueMaxNum == queueMaxNum
    {
      this.queueMaxNum := queueMaxNum;
      queueCurNum, head, tail, queueClose, poolClose, jobs := 0, null, null, false, false, [];
    }

    /** threadpool_add_job, from the lock to the unlock or the wait */
    method TryAdd(call: nat) returns (r: AddOutcome)
      requires Valid()
      modifies this, jobs
      ensures Valid() && r == AddResult(old(Seen())) && Seen() == AfterAdd(old(Seen()), call)
      ensures jobs == old(jobs) || fresh(jobs[|jobs| - 1])
    {
      if queueCurNum == queueMaxNum && !(queueClose || poolClose) {
        return AddSleeps;
      }
      if queueClose || poolClose {
        return AddRefused;
      }
      var pjob := new Job(call);
      var wake := head == null;
      if head == null {
        head, tail := pjob, pjob;
      } else {
        tail.next := pjob;
        tail := pjob;
      }
      jobs := jobs + [pjob];
      queueCurNum := queueCurNum + 1;
      assert Calls(jobs) == old(Calls(jobs)) + [call];
      r := AddAccepted(wake);
    }

    /** threadpool_function, from the lock to the unlock or the wait */
    method TryTake() returns (r: TakeOutcome)
      requires Valid()
      modifies this
      ensures Valid() && r == TakeResult(old(Seen())) && Seen() == AfterTake(old(Seen()))
    {
      if queueCurNum == 0 && !poolClose {
        return TakeSleeps;
      }
      if poolClose {
        return TakeExits;
      }
      queueCurNum := queueCurNum - 1;
      var pjob := head;
      if queueCurNum == 0 {
        head, tail := null, null;
      } else {
        head := pjob.next;
      }
      jobs := jobs[1..];
      assert Calls(jobs) == old(Calls(jobs))[1..];
      r := TakeJob(pjob.call, queueCurNum == 0, queueCurNum == queueMaxNum - 1);
    }

    // The loop test of threadpool_destroy, first or after a wake-up
    method TryDrain() returns (r: DestroyOutcome)
      requires Valid()
      modifies this
      ensures Valid() && r == DrainResult(old(Seen())) && Seen() == AfterDrain(old(Seen()))
    {
      if queueCurNum != 0 {
        return DestroySleeps;
      }
      poolClose := true;
      r := DestroyCloses;
    }

    /** threadpool_destroy, from the lock to the unlock or the wait */
    method TryDestroy() returns (r: DestroyOutcome)
      requires Valid()
      modifies this
      ensures Valid() && r == DestroyResult(old(Seen())) && Seen() == AfterDestroy(old(Seen()))
    {
      if queueClose || poolClose {
        return DestroyRefused;
      }
      queueClose := true;
      r := TryDrain();
    }
  }
}
