/**
  The array heap of timer/时间堆/time_heap.h, least expiry first, with lazy cancelling.
 */
module TimeHeap {
  // heap_timer; a callback is there or has been taken away
  class Timer {
    const expire: int
    var hasCallback: bool

    constructor (expire: int)
      ensures this.expire == expire && hasCallback
    {
      this.expire, hasCallback := expire, true;
    }
  }

  // ---------- Heaps as sequences ----------

  function Parent(i: int): int { (i - 1) / 2 }

  // Every timer is at least as late as the one above it, from place `lo` on
  ghost predicate HeapFrom(s: seq<Timer>, lo: int) {
    forall i :: 1 <= i < |s| && Parent(i) >= lo ==> s[Parent(i)].expire <= s[i].expire
  }

  ghost predicate IsHeap(s: seq<Timer>) { HeapFrom(s, 0) }

  ghost function Swapped(s: seq<Timer>, i: int, j: int): (r: seq<Timer>)
    requires 0 <= i < |s| && 0 <= j < |s|
    ensures |r| == |s| && multiset(r) == multiset(s)
  {
    s[i := s[j]][j := s[i]]
  }

  // The first timer of a heap is the earliest
  lemma {:induction false} RootLeast(s: seq<Timer>, i: nat)
    requires IsHeap(s) && i < |s|
    ensures s[0].expire <= s[i].expire
  {
    if i > 0 {
      RootLeast(s, Parent(i));
    }
  }

  lemma RootIsLeast(s: seq<Timer>)
    requires IsHeap(s) && s != []
    ensures forall t :: t in s ==> s[0].expire <= t.expire
  {
    forall t | t in s ensures s[0].expire <= t.expire {
      var i :| 0 <= i < |s| && s[i] == t;
      RootLeast(s, i);
    }
  }

  // ---------- Sifting ----------

  // A heap from `lo` on, but for the timer in the hole and those below it
  ghost predicate HoleDown(s: seq<Timer>, lo: int, hole: int) {
    && 0 <= lo <= hole < |s|
    && (forall i :: 1 <= i < |s| && Parent(i) >= lo && Parent(i) != hole ==> s[Parent(i)].expire <= s[i].expire)
    && (hole > 0 && Parent(hole) >= lo ==>
      forall i :: 1 <= i < |s| && Parent(i) == hole ==> s[Parent(hole)].expire <= s[i].expire)
  }

  // ... or but for the timer in the hole and the one above it
  ghost predicate HoleUp(s: seq<Timer>, hole: int) {
    && 0 <= hole < |s|
    && (forall i :: 1 <= i < |s| && i != hole ==> s[Parent(i)].expire <= s[i].expire)
    && (hole > 0 ==> forall i :: 1 <= i < |s| && Parent(i) == hole ==> s[Parent(hole)].expire <= s[i].expire)
  }

  lemma DownStep(s: seq<Timer>, lo: int, hole: int, child: int)
    requires HoleDown(s, lo, hole) && 1 <= child < |s| && Parent(child) == hole && s[child].expire < s[hole].expire
    requires forall i :: 1 <= i < |s| && Parent(i) == hole ==> s[child].expire <= s[i].expire
    ensures HoleDown(Swapped(s, hole, child), lo, child)
  {
  }

  lemma DownDone(s: seq<Timer>, lo: int, hole: int)
    requires HoleDown(s, lo, hole) && forall i :: 1 <= i < |s| && Parent(i) == hole ==> s[hole].expire <= s[i].expire
    ensures HeapFrom(s, lo)
  {
  }

  lemma UpStep(s: seq<Timer>, hole: int)
    requires HoleUp(s, hole) && hole > 0 && s[Parent(hole)].expire > s[hole].expire
    ensures HoleUp(Swapped(s, hole, Parent(hole)), Parent(hole))
  {
  }

  lemma UpDone(s: seq<Timer>, hole: int)
    requires HoleUp(s, hole) && (hole == 0 || s[Parent(hole)].expire <= s[hole].expire)
    ensures IsHeap(s)
  {
  }

  // The children of a place are the next two odd and even ones
  lemma Children(i: int, hole: int)
    requires hole >= 0 && i >= 1
    ensures Parent(i) == hole <==> i == 2 * hole + 1 || i == 2 * hole + 2
  {
  }

  // ---------- time_heap ----------

  ghost predicate Sorted(s: seq<Timer>) { forall i, j :: 0 <= i < j < |s| ==> s[i].expire <= s[j].expire }

  // Those whose callbacks are still there
  ghost function Callable(s: seq<Timer>): seq<Timer>
    reads s
  {
    if s == [] then [] else
    var before := Callable(s[..|s| - 1]);
    if s[|s| - 1].hasCallback then before + [s[|s| - 1]] else before
  }

  // One timer after the other, each if its callback is there
  lemma CallableOne(t: Timer)
    ensures Callable([]) == [] && Callable([t]) == if t.hasCallback then [t] else []
  {
    assert [t][..0] == [];
  }

  lemma {:induction false} CallableConcat(s: seq<Timer>, r: seq<Timer>)
    ensures Callable(s + r) == Callable(s) + Callable(r)
    decreases |r|
  {
    if r == [] {
      assert s + r == s;
    } else {
      var n := |r| - 1;
      CallableConcat(s, r[..n]);
      assert (s + r)[..|s + r| - 1] == s + r[..n] && (s + r)[|s + r| - 1] == r[n];
    }
  }

  datatype Made = Made(heap: Heap) | Thrown

  // The constructor from an array, with the exception it throws
  method FromArray(init: seq<Timer>, capacity: nat) returns (r: Made)
    ensures r.Thrown? <==> capacity < |init|
    ensures r.Made? ==> fresh(r.heap) && r.heap.Ordered() && r.heap.slots.Length == capacity
    ensures r.Made? ==> (capacity >= 1 ==> r.heap.Valid()) && multiset(r.heap.items) == multiset(init)
  {
    if capacity < |init| {
      return Thrown;
    }
    var heap := new Heap.Heapify(init, capacity);
    r := Made(heap);
  }

  class Heap {
    var slots: array<Timer?>
    var curSize: nat
    ghost var items: seq<Timer>

    // The first places of the array hold `s`
    ghost predicate Holds(s: seq<Timer>)
      reads this`slots, this`curSize, slots
    {
      curSize == |s| <= slots.Length && forall i :: 0 <= i < |s| ==> slots[i] == s[i]
    }

    ghost predicate Ordered()
      reads this, slots
    {
      Holds(items) && IsHeap(items)
    }

    /** An ordered heap with room for a timer: doubling a capacity of 0 would give none. */
    ghost predicate Valid()
      reads this, slots
    {
      slots.Length >= 1 && Ordered()
    }

    // time_heap( int cap )
    constructor (cap: nat)
      ensures Ordered() && (cap >= 1 ==> Valid()) && items == [] && slots.Length == cap && fresh(slots)
    {
      slots := new Timer?[cap](_ => null);
      curSize, items := 0, [];
    }

    // time_heap( heap_timer** init_array, int size, int capacity ), its size not above its capacity
    constructor Heapify(init: seq<Timer>, capacity: nat)
      requires |init| <= capacity
      ensures Ordered() && (capacity >= 1 ==> Valid()) && multiset(items) == multiset(init)
      ensures slots.Length == capacity && fresh(slots)
    {
      slots := new Timer?[capacity](i requires 0 <= i < capacity => if i < |init| then init[i] else null);
      curSize, items := |init|, init;
      new;
      if |init| != 0 {
        var i: int := (curSize - 1) / 2;
        assert HeapFrom(items, i + 1) by { NothingBelow(items, i + 1); }
        while i >= 0
          invariant -1 <= i < |init| && slots.Length == capacity && fresh(slots)
          invariant Holds(items) && |items| == |init| && multiset(items) == multiset(init) && HeapFrom(items, i + 1)
        {
          items := PercolateDown(i, items);
          i := i - 1;
        }
      }
    }

    // Beyond the parent of the last place there are no children
    lemma NothingBelow(s: seq<Timer>, lo: int)
      requires lo >= (|s| - 1) / 2 + 1
      ensures HeapFrom(s, lo)
    {
    }

    ghost predicate HoldsBut(s: seq<Timer>, hole: int, temp: Timer)
      reads this`slots, this`curSize, slots
    {
      && curSize == |s| <= slots.Length && 0 <= hole < |s| && s[hole] == temp
      && forall i :: 0 <= i < |s| && i != hole ==> slots[i] == s[i]
    }

    /** percolate_down */
    method PercolateDown(start: int, ghost s0: seq<Timer>) returns (ghost s: seq<Timer>)
      requires Holds(s0) && 0 <= start < |s0| && HeapFrom(s0, start + 1)
      modifies slots
      ensures Holds(s) && |s| == |s0| && multiset(s) == multiset(s0) && HeapFrom(s, start)
    {
      hide HeapFrom, HoleDown, Swapped, Parent;
      var hole := start;
      var temp := slots[hole];
      s := s0;
      HoleStart(s, hole);
      while hole * 2 + 1 <= curSize - 1
        invariant HoldsBut(s, hole, temp) && |s| == |s0| && multiset(s) == multiset(s0) && HoleDown(s, start, hole)
        decreases |s0| - hole
      {
        var child := hole * 2 + 1;
        if child < curSize - 1 && slots[child + 1].expire < slots[child].expire {
          child := child + 1;
        }
        LeastChild(s, hole, child);
        if slots[child].expire < temp.expire {
          DownStep(s, start, hole, child);
          s := MoveUp(hole, child, s, temp);
        } else {
          break;
        }
        hole := child;
      }
      NoEarlierChild(s, hole);
      DownDone(s, start, hole);
      slots[hole] := temp;
    }

    // The hole and the other place change places
    method MoveUp(hole: int, child: int, ghost s0: seq<Timer>, ghost temp: Timer) returns (ghost s: seq<Timer>)
      requires HoldsBut(s0, hole, temp) && 0 <= child < |s0| && child != hole
      modifies slots
      ensures HoldsBut(s, child, temp) && s == Swapped(s0, hole, child)
    {
      slots[hole] := slots[child];
      s := Swapped(s0, hole, child);
    }

    lemma HoleStart(s: seq<Timer>, hole: int)
      requires 0 <= hole < |s| && HeapFrom(s, hole + 1)
      ensures HoleDown(s, hole, hole)
    {
    }

    lemma LeastChild(s: seq<Timer>, hole: int, child: int)
      requires 0 <= hole && (child == 2 * hole + 1 || child == 2 * hole + 2) && child < |s|
      requires 2 * hole + 2 < |s| ==> s[child].expire <= s[2 * hole + 2].expire
      requires s[child].expire <= s[2 * hole + 1].expire
      ensures Parent(child) == hole && forall i :: 1 <= i < |s| && Parent(i) == hole ==> s[child].expire <= s[i].expire
    {
      forall i | 1 <= i < |s| && Parent(i) == hole ensures s[child].expire <= s[i].expire {
        Children(i, hole);
      }
    }

    lemma NoEarlierChild(s: seq<Timer>, hole: int)
      requires 0 <= hole < |s|
      requires 2 * hole + 1 < |s| ==> s[hole].expire <= s[2 * hole + 1].expire
      requires 2 * hole + 2 < |s| ==> s[hole].expire <= s[2 * hole + 2].expire
      ensures forall i :: 1 <= i < |s| && Parent(i) == hole ==> s[hole].expire <= s[i].expire
    {
      forall i | 1 <= i < |s| && Parent(i) == hole ensures s[hole].expire <= s[i].expire {
        Children(i, hole);
      }
    }

    // resize: twice the room, the same timers
    method Resize()
      requires Valid()
      modifies this`slots
      ensures Valid() && items == old(items) && slots.Length == 2 * old(slots.Length) && fresh(slots)
    {
      var n := slots.Length;
      var old' := slots;
      var temp := new Timer?[2 * n](_ => null);
      var i := 0;
      while i < curSize
        invariant i <= curSize && forall j :: 0 <= j < i ==> temp[j] == old'[j]
      {
        temp[i] := old'[i];
        i := i + 1;
      }
      slots := temp;
    }

    /** add_timer */
    method AddTimer(timer: Timer?)
      requires Valid()
      modifies this, slots
      ensures Valid() && (fresh(slots) || slots == old(slots))
      ensures timer == null ==> items == old(items)
      ensures timer != null ==> multiset(items) == multiset(old(items)) + multiset{timer}
    {
      if timer == null {
        return;
      }
      if curSize >= slots.Length {
        Resize();
      }
      PercolateUp(timer);
    }

    method PercolateUp(timer: Timer)
      requires Valid() && curSize < slots.Length
      modifies this`curSize, this`items, slots
      ensures Valid() && multiset(items) == multiset(old(items)) + multiset{timer}
    {
      hide HeapFrom, HoleUp, Swapped;
      var hole: int := curSize;
      curSize := curSize + 1;
      ghost var s := items + [timer];
      LastPlace(items, timer);
      while hole > 0
        invariant HoldsBut(s, hole, timer) && multiset(s) == multiset(old(items)) + multiset{timer} && HoleUp(s, hole)
        decreases hole
      {
        var parent := (hole - 1) / 2;
        if slots[parent].expire <= timer.expire {
          break;
        }
        UpStep(s, hole);
        s := MoveUp(hole, parent, s, timer);
        hole := parent;
      }
      UpDone(s, hole);
      slots[hole] := timer;
      items := s;
    }

    lemma LastPlace(s: seq<Timer>, timer: Timer)
      requires IsHeap(s)
      ensures HoleUp(s + [timer], |s|)
    {
    }

    /** del_timer: the timer stays in the heap, its callback does not */
    method DelTimer(timer: Timer?)
      modifies if timer == null then {} else {timer}
      ensures timer != null ==> !timer.hasCallback
    {
      if timer != null {
        timer.hasCallback := false;
      }
    }

    method Top() returns (timer: Timer?)
      requires Valid()
      ensures timer == null <==> items == []
      ensures timer != null ==> timer in items && forall t :: t in items ==> timer.expire <= t.expire
    {
      if curSize == 0 {
        return null;
      }
      RootIsLeast(items);
      timer := slots[0];
    }

    /** pop_timer */
    method PopTimer()
      requires Valid()
      modifies this`curSize, this`items, slots
      ensures Valid()
      ensures old(items) == [] ==> items == []
      ensures old(items) != [] ==>
        multiset(items) + multiset{old(items)[0]} == multiset(old(items)) && |items| == |old(items)| - 1
    {
      hide HeapFrom;
      if curSize == 0 {
        return;
      }
      if slots[0] != null {
        curSize := curSize - 1;
        slots[0] := slots[curSize];
        ghost var s := LastFirst(items);
        items := s;
        if curSize > 0 {  // on an empty heap the percolation changes nothing
          items := PercolateDown(0, s);
        }
      }
    }

    // The last timer moved to the front
    lemma LastFirst(s: seq<Timer>) returns (r: seq<Timer>)
      requires s != [] && IsHeap(s)
      ensures |r| == |s| - 1 && HeapFrom(r, 1) && multiset(r) + multiset{s[0]} == multiset(s)
      ensures forall i :: 0 <= i < |r| ==> r[i] == if i == 0 then s[|s| - 1] else s[i]
      ensures r == [] ==> IsHeap(r)
    {
      var n := |s| - 1;
      assert s == s[..n] + [s[n]];
      r := if n == 0 then [] else s[..n][0 := s[n]];
    }

    /** tick at time `cur`: `popped` lists the timers it removes, `fired` those whose callbacks it calls */
    method Tick(cur: int) returns (ghost popped: seq<Timer>, fired: seq<Timer>)
      requires Valid()
      modifies this`curSize, this`items, slots
      ensures Valid() && multiset(popped) + multiset(items) == multiset(old(items))
      ensures (forall t :: t in popped ==> t.expire <= cur) && (forall t :: t in items ==> t.expire > cur)
      ensures Sorted(popped) && fired == Callable(popped)
    {
      hide IsHeap, HeapFrom, Callable, Sorted;
      popped, fired := [], [];
      Nothing();
      var tmp := slots[0];
      while curSize != 0
        invariant Valid() && slots == old(slots) && (curSize != 0 ==> tmp == slots[0])
        invariant multiset(popped) + multiset(items) == multiset(old(items))
        invariant forall t :: t in popped ==> t.expire <= cur
        invariant forall t, u :: t in popped && u in items ==> t.expire <= u.expire
        invariant Sorted(popped) && fired == Callable(popped)
        decreases curSize
      {
        RootIsLeast(items);
        if tmp == null || tmp.expire > cur {
          break;
        }
        if slots[0].hasCallback {
          fired := fired + [slots[0]];
        }
        Popped(popped, items, tmp);
        popped := popped + [tmp];
        ghost var before := items;
        PopTimer();
        StillThere(before, items, tmp);
        tmp := slots[0];
      }
    }

    lemma Nothing()
      ensures Sorted([]) && Callable([]) == []
    {
    }

    lemma StillThere(s: seq<Timer>, r: seq<Timer>, tmp: Timer)
      requires multiset(r) + multiset{tmp} == multiset(s)
      ensures forall u :: u in r ==> u in s
    {
      forall u | u in r ensures u in s {
        assert u in multiset(r);
        assert u in multiset(s);
      }
    }

    lemma Popped(popped: seq<Timer>, s: seq<Timer>, tmp: Timer)
      requires s != [] && tmp == s[0] && Sorted(popped)
      requires forall t, u :: t in popped && u in s ==> t.expire <= u.expire
      ensures Sorted(popped + [tmp]) && Callable(popped + [tmp]) == Callable(popped) + if tmp.hasCallback then [tmp]
        else []
    {
      assert (popped + [tmp])[..|popped|] == popped;
    }
  }
}
