/**
  The timing wheel of timer/时间轮/time_wheel.h: a ring of slots, each with a doubly linked list.
 */
module TimeWheel {
  import opened Common
  import opened TimerRuns

  const N := 60   // slots
  const SI := 1   // seconds between two ticks

  // tw_timer; the callback and its data are not part of this model
  class Timer {
    var rotation: nat
    const timeSlot: int
    var next: Timer?
    var prev: Timer?

    constructor (rotation: nat, timeSlot: int)
      ensures this.rotation == rotation && this.timeSlot == timeSlot && next == null && prev == null
    {
      this.rotation, this.timeSlot := rotation, timeSlot;
      next, prev := null, null;
    }
  }

  // ---------- Lists ----------

  ghost function At(s: seq<Timer>, i: int): Timer? { if 0 <= i < |s| then s[i] else null }

  function Elems(s: seq<Timer>): set<Timer> { set t | t in s }

  // A well-formed doubly linked list
  ghost predicate Linked(head: Timer?, s: seq<Timer>)
    reads s`next, s`prev
  {
    && head == At(s, 0) && NoDup(s)
    && forall i :: 0 <= i < |s| ==> s[i].next == At(s, i + 1) && s[i].prev == At(s, i - 1)
  }

  // The links of a timer, and that its neighbours are no other timers of the list
  lemma Neighbours(head: Timer?, s: seq<Timer>, k: nat)
    requires Linked(head, s) && k < |s|
    ensures s[k].next == At(s, k + 1) && s[k].prev == At(s, k - 1) && head == At(s, 0)
    ensures forall i :: 0 <= i < |s| && i != k ==> s[i] != s[k]
    ensures forall i :: 0 <= i < |s| && i != k + 1 ==> s[i] != At(s, k + 1)
    ensures forall i :: 0 <= i < |s| && i != k - 1 ==> s[i] != At(s, k - 1)
    ensures forall i :: 0 <= i < |s| ==> s[i].next == At(s, i + 1) && s[i].prev == At(s, i - 1)
  {
  }

  ghost function Cut(s: seq<Timer>, k: nat): (r: seq<Timer>)
    requires k < |s|
    ensures |r| == |s| - 1
  {
    s[..k] + s[k + 1..]
  }

  lemma CutAt(s: seq<Timer>, k: nat, i: int)
    requires k < |s|
    ensures At(Cut(s, k), i) == if i < k then At(s, i) else At(s, i + 1)
  {
  }

  lemma CutNoDup(s: seq<Timer>, k: nat)
    requires k < |s| && NoDup(s)
    ensures NoDup(Cut(s, k)) && s[k] !in Cut(s, k)
    ensures forall t :: t in s <==> t in Cut(s, k) || t == s[k]
  {
    var r := Cut(s, k);
    forall i, j | 0 <= i < j < |r| ensures r[i] != r[j] {
      assert r[i] == s[if i < k then i else i + 1] && r[j] == s[if j < k then j else j + 1];
    }
    forall t | t in s && t != s[k] ensures t in r {
      var i :| 0 <= i < |s| && s[i] == t;
      assert r[if i < k then i else i - 1] == t;
    }
  }

  // The links of every timer in the list but the `k`-th bypass that one
  ghost predicate Bypassed(s: seq<Timer>, k: nat)
    reads s`next, s`prev
  {
    forall i :: 0 <= i < |s| && i != k ==>
      && s[i].next == (if i == k - 1 then At(s, k + 1) else At(s, i + 1))
      && s[i].prev == (if i == k + 1 then At(s, k - 1) else At(s, i - 1))
  }

  lemma UnlinkedAt(s: seq<Timer>, k: nat, i: nat)
    requires k < |s| && i < |s| - 1 && Bypassed(s, k)
    ensures var r := Cut(s, k); r[i].next == At(r, i + 1) && r[i].prev == At(r, i - 1)
  {
    hide Cut;
    CutAt(s, k, i);
    CutAt(s, k, i + 1);
    CutAt(s, k, i - 1);
  }

  // The links of a list with one element bypassed
  lemma Unlinked(head: Timer?, s: seq<Timer>, k: nat)
    requires k < |s| && NoDup(s) && head == At(Cut(s, k), 0) && Bypassed(s, k)
    ensures Linked(head, Cut(s, k))
  {
    hide Cut, At, Bypassed, NoDup;
    CutNoDup(s, k);
    forall i | 0 <= i < |Cut(s, k)|
      ensures Cut(s, k)[i].next == At(Cut(s, k), i + 1) && Cut(s, k)[i].prev == At(Cut(s, k), i - 1)
    {
      UnlinkedAt(s, k, i);
    }
  }

  ghost function AllOf(ls: seq<seq<Timer>>): set<Timer> {
    set i, t | 0 <= i < |ls| && t in ls[i] :: t
  }

  // All timers, when one list gets to be another
  lemma AllOfUpdate(ls: seq<seq<Timer>>, k: nat, s: seq<Timer>)
    requires k < |ls| && forall i, t :: 0 <= i < |ls| && i != k && t in ls[i] ==> t !in ls[k]
    ensures AllOf(ls[k := s]) == AllOf(ls) - Elems(ls[k]) + Elems(s)
  {
    var ls' := ls[k := s];
    forall t | t in AllOf(ls) - Elems(ls[k]) + Elems(s) ensures t in AllOf(ls') {
      if t in s {
        assert ls'[k] == s;
      } else {
        var i :| 0 <= i < |ls| && t in ls[i];
        assert ls'[i] == ls[i];
      }
    }
    forall t | t in AllOf(ls') ensures t in AllOf(ls) - Elems(ls[k]) + Elems(s) {
      var i :| 0 <= i < |ls'| && t in ls'[i];
      if i != k {
        assert ls[i] == ls'[i];
      }
    }
  }

  // What one sweep over a slot keeps, and what it fires, in order
  ghost function Kept(s: seq<Timer>, rot: map<Timer, nat>): seq<Timer> {
    if s == [] then [] else
    var before := Kept(s[..|s| - 1], rot);
    var t := s[|s| - 1];
    if t in rot && rot[t] > 0 then before + [t] else before
  }

  ghost function Fired(s: seq<Timer>, rot: map<Timer, nat>): seq<Timer> {
    if s == [] then [] else
    var before := Fired(s[..|s| - 1], rot);
    var t := s[|s| - 1];
    if t in rot && rot[t] == 0 then before + [t] else before
  }

  lemma SweepOn(s: seq<Timer>, rot: map<Timer, nat>, p: nat)
    requires p < |s| && s[p] in rot
    ensures Kept(s[..p + 1], rot) == (if rot[s[p]] > 0 then Kept(s[..p], rot) + [s[p]] else Kept(s[..p], rot))
    ensures Fired(s[..p + 1], rot) == (if rot[s[p]] == 0 then Fired(s[..p], rot) + [s[p]] else Fired(s[..p], rot))
  {
    assert s[..p + 1][..p] == s[..p];
  }

  lemma {:induction false} SweptIn(s: seq<Timer>, rot: map<Timer, nat>, t: Timer)
    ensures t in Kept(s, rot) <==> t in s && t in rot && rot[t] > 0
    ensures t in Fired(s, rot) <==> t in s && t in rot && rot[t] == 0
  {
    if s != [] {
      SweptIn(s[..|s| - 1], rot, t);
      assert s == s[..|s| - 1] + [s[|s| - 1]];
    }
  }

  lemma {:induction false} FiredNoDup(s: seq<Timer>, rot: map<Timer, nat>)
    requires NoDup(s)
    ensures NoDup(Fired(s, rot))
  {
    if s != [] {
      var u := s[..|s| - 1];
      FiredNoDup(u, rot);
      SweptIn(u, rot, s[|s| - 1]);
    }
  }

  lemma Middle(a: seq<Timer>, s: seq<Timer>, p: nat)
    requires p < |s|
    ensures (a + s[p..])[|a|] == s[p] && At(a + s[p..], |a| + 1) == At(s, p + 1)
    ensures Cut(a + s[p..], |a|) == a + s[p + 1..]
    ensures a + [s[p]] + s[p + 1..] == a + s[p..]
  {
  }

  // The rotations of a slot when the sweep has come to its `p`-th timer
  ghost predicate Aged(s: seq<Timer>, rot: map<Timer, nat>, p: nat)
    reads s
  {
    forall i :: 0 <= i < |s| ==>
      s[i] in rot && s[i].rotation == if i < p && rot[s[i]] > 0 then rot[s[i]] - 1 else rot[s[i]]
  }

  // The timers of slot `i`
  ghost predicate Own(s: seq<Timer>, i: int) { forall t :: t in s ==> t.timeSlot == i }

  ghost predicate AllOwn(ls: seq<seq<Timer>>) { forall i :: 0 <= i < |ls| ==> Own(ls[i], i) }

  lemma OwnApart(ls: seq<seq<Timer>>, k: nat)
    requires AllOwn(ls) && k < |ls|
    ensures forall i, t :: 0 <= i < |ls| && i != k && t in ls[i] ==> t !in ls[k]
  {
    forall i, t | 0 <= i < |ls| && i != k && t in ls[i] ensures t !in ls[k] {
      assert Own(ls[i], i) && Own(ls[k], k);
    }
  }

  // Ticks to wait before the tick in which a timer fires
  ghost function Countdown(rotation: nat, slot: int, cur: int): nat { rotation * N + (slot - cur) % N }

  ghost function BagOf(rot: map<Timer, nat>, cur: int): map<Timer, nat> {
    map t | t in rot :: Countdown(rot[t], t.timeSlot, cur)
  }

  lemma BagLess(rot: map<Timer, nat>, cur: int, t: Timer)
    ensures BagOf(rot - {t}, cur) == BagOf(rot, cur) - {t}
  {
  }

  lemma BagMore(rot: map<Timer, nat>, cur: int, t: Timer, r: nat)
    ensures BagOf(rot[t := r], cur) == BagOf(rot, cur)[t := Countdown(r, t.timeSlot, cur)]
  {
  }

  // The rotations after the slot that held `s` has been swept
  ghost function Swept(rot: map<Timer, nat>, s: seq<Timer>): map<Timer, nat> {
    map t | t in rot && (t in s ==> rot[t] > 0) :: if t in s then rot[t] - 1 else rot[t]
  }

  // ---------- Clients ----------

  // What a client asks for: a timer, the end of the one it asked for at its `k`-th command, or a tick
  datatype Command = Arm(timeout: int) | Cancel(k: nat) | Turn

  // The timer that the `k`-th command added
  predicate Added(es: seq<Event<Timer>>, k: nat) { k < |es| && es[k].Add? }

  // What a command comes to when the timers in `live` are still there
  ghost predicate Obeys(c: Command, es: seq<Event<Timer>>, e: Event<Timer>, live: set<Timer>) {
    match c
    case Arm(timeout) => if timeout < 0 then e == Idle
      else e.Add? && e.ticks == (if timeout < 1 then 1 else timeout) && e.t !in live
    case Cancel(k) => e == if Added(es, k) && es[k].t in live then Del(es[k].t) else Idle
    case Turn => e == Event.Tick
  }

  // ---------- time_wheel ----------

  class Wheel {
    const slots: array<Timer?>
    var curSlot: int
    ghost var lists: seq<seq<Timer>>

    ghost function Live(): set<Timer>
      reads this`lists
    {
      AllOf(lists)
    }

    // Every slot but one has a well-formed list of timers of its own
    ghost predicate Others(ts: int)
      reads this, slots, Live()
    {
      && slots.Length == N == |lists| && 0 <= curSlot < N && AllOwn(lists)
      && (forall i, t :: 0 <= i < |lists| && t in lists[i] ==> t in Live())
      && forall i :: 0 <= i < N && i != ts ==> Linked(slots[i], lists[i])
    }

    ghost predicate Valid()
      reads this, slots, Live()
    {
      Others(-1)
    }

    ghost function Rotations(): map<Timer, nat>
      reads this`lists, Live()`rotation
    {
      map t | t in Live() :: t.rotation
    }

    ghost function Bag(): map<Timer, nat>
      reads this`lists, this`curSlot, Live()`rotation
    {
      BagOf(Rotations(), curSlot)
    }

    constructor ()
      ensures Valid() && Bag() == map[] && fresh(slots)
    {
      slots := new Timer?[N](_ => null);
      curSlot := 0;
      lists := seq(N, _ => []);
    }

    lemma InSlot(t: Timer)
      requires Valid()
      ensures t in Live() <==> 0 <= t.timeSlot < N && t in lists[t.timeSlot]
    {
      if t in Live() {
        var i :| 0 <= i < |lists| && t in lists[i];
        assert Own(lists[i], i);
      }
    }

    // A slot gets a new list
    ghost method PutList(ts: int, s: seq<Timer>)
      requires 0 <= ts < N && Others(ts) && Linked(slots[ts], s) && Own(s, ts)
      modifies this`lists
      ensures Valid() && lists == old(lists)[ts := s]
      ensures Live() == old(Live()) - Elems(old(lists)[ts]) + Elems(s)
    {
      OwnApart(lists, ts);
      AllOfUpdate(lists, ts, s);
      lists := lists[ts := s];
      assert AllOwn(lists);
    }

    ghost method PushList(ts: int, tm: Timer)
      requires 0 <= ts < N && Others(ts) && Linked(slots[ts], [tm] + lists[ts]) && tm.timeSlot == ts
      modifies this`lists
      ensures Valid() && Live() == old(Live()) + {tm}
    {
      assert Own(lists[ts], ts);
      PutList(ts, [tm] + lists[ts]);
      assert Live() == old(Live()) + {tm};
    }

    ghost method DropList(ts: int, k: nat)
      requires 0 <= ts < N && Others(ts) && k < |lists[ts]| && NoDup(lists[ts]) && Linked(slots[ts], Cut(lists[ts], k))
      modifies this`lists
      ensures Valid() && Live() == old(Live()) - {old(lists)[ts][k]} &&
        lists == old(lists)[ts := Cut(old(lists)[ts], k)]
    {
      assert Own(lists[ts], ts);
      CutNoDup(lists[ts], k);
      PutList(ts, Cut(lists[ts], k));
      assert Live() == old(Live()) - {old(lists)[ts][k]};
    }

    // ---------- Adding ----------

    lemma WaitsFor(ticks: nat, cur: int)
      requires 0 <= cur < N
      ensures var ts := (cur + ticks % N) % N; 0 <= ts < N && ticks / N * N + (ts - cur) % N == ticks
    {
    }

    /** add_timer */
    method AddTimer(timeout: int) returns (timer: Timer?)
      requires Valid()
      modifies this, slots, Live()
      ensures Valid() && (timer == null <==> timeout < 0)
      ensures timer == null ==> Bag() == old(Bag())
      ensures timer != null ==> fresh(timer) && Bag() == old(Bag())[timer := if timeout < 1 then 1 else timeout]
    {
      hide Others;
      Shape();
      if timeout < 0 {
        return null;
      }
      var ticks := if timeout < SI then 1 else timeout / SI;
      var rotation := ticks / N;
      var ts := (curSlot + ticks % N) % N;
      WaitsFor(ticks, curSlot);
      var tm := new Timer(rotation, ts);
      timer := tm;
      AddLive(tm, ts);
      assert Countdown(tm.rotation, tm.timeSlot, curSlot) == ticks;
    }

    method AddLive(tm: Timer, ts: int)
      requires Valid() && 0 <= ts < N && tm !in Live() && tm.timeSlot == ts && tm.next == null && tm.prev == null
      modifies this`lists, slots, Live(), tm`next
      ensures Valid() && Bag() == old(Bag())[tm := Countdown(tm.rotation, ts, curSlot)] &&
        tm.rotation == old(tm.rotation)
    {
      hide Others, Linked, NoDup, BagOf;
      Shape();
      BagMore(Rotations(), curSlot, tm, tm.rotation);
      LinkFirst(tm, ts);
      PushList(ts, tm);
      assert Rotations() == old(Rotations())[tm := tm.rotation];
    }

    lemma SlotOk(ts: int)
      requires Valid() && 0 <= ts < N
      ensures Others(ts) && Linked(slots[ts], lists[ts]) && NoDup(lists[ts])
    {
    }

    lemma NextInSlot(k: nat)
      requires Valid() && k < |lists[curSlot]|
      ensures lists[curSlot][k].next == At(lists[curSlot], k + 1)
    {
      SlotOk(curSlot);
    }

    lemma Shape()
      requires Valid()
      ensures slots.Length == N == |lists| && 0 <= curSlot < N
      ensures forall i, t :: 0 <= i < N && t in lists[i] ==> t in Live()
    {
    }

    method LinkFirst(timer: Timer, ts: int)
      requires Valid() && 0 <= ts < N && timer !in Live() && timer.timeSlot == ts && timer.next == null &&
        timer.prev == null
      modifies slots, Elems(lists[ts])`prev, timer`next
      ensures Others(ts) && Linked(slots[ts], [timer] + lists[ts])
    {
      ghost var s := lists[ts];
      OwnApart(lists, ts);
      if slots[ts] == null {
        slots[ts] := timer;
      } else {
        timer.next := slots[ts];
        slots[ts].prev := timer;
        slots[ts] := timer;
      }
      ghost var r := [timer] + s;
      forall i | 0 <= i < |r| ensures r[i].next == At(r, i + 1) && r[i].prev == At(r, i - 1) {
        if i > 0 {
          assert r[i] == s[i - 1] && At(r, i + 1) == At(s, i);
        }
      }
      forall i | 0 <= i < N && i != ts ensures Linked(slots[i], lists[i]) {
        assert old(Linked(slots[i], lists[i]));
        assert forall t :: t in lists[i] ==> t !in lists[ts] && t != timer;
      }
    }

    // ---------- Deleting ----------

    // Bypass the `k`-th timer of a slot
    method Unlink(timer: Timer, ts: int, ghost k: nat)
      requires 0 <= ts < N && Others(ts) && Linked(slots[ts], lists[ts]) && k < |lists[ts]| && lists[ts][k] == timer
      modifies slots, Elems(lists[ts])`next, Elems(lists[ts])`prev
      ensures Others(ts) && Linked(slots[ts], Cut(lists[ts], k))
      ensures timer.next == old(timer.next)
    {
      hide Cut;
      ghost var s := lists[ts];
      OwnApart(lists, ts);
      Bypass(timer, ts, k);
      Unlinked(slots[ts], s, k);
      forall i | 0 <= i < N && i != ts ensures Linked(slots[i], lists[i]) {
        assert old(Linked(slots[i], lists[i]));
        assert forall t :: t in lists[i] ==> t !in lists[ts] && t != timer;
      }
    }

    // The links of its neighbours, or the slot, lead past the timer
    method Bypass(timer: Timer, ts: int, ghost k: nat)
      requires 0 <= ts < slots.Length && ts < |lists| && Linked(slots[ts], lists[ts])
      requires k < |lists[ts]| && lists[ts][k] == timer
      modifies slots, Elems(lists[ts])`next, Elems(lists[ts])`prev
      ensures Bypassed(lists[ts], k) && slots[ts] == At(Cut(lists[ts], k), 0) && timer.next == old(timer.next)
      ensures forall i :: 0 <= i < slots.Length && i != ts ==> slots[i] == old(slots[i])
    {
      hide NoDup, Cut, Linked;
      CutAt(lists[ts], k, 0);
      Neighbours(slots[ts], lists[ts], k);
      if timer == slots[ts] {
        slots[ts] := timer.next;
        if slots[ts] != null {
          slots[ts].prev := null;
        }
      } else {
        timer.prev.next := timer.next;
        if timer.next != null {
          timer.next.prev := timer.prev;
        }
      }
    }

    /** del_timer, of a timer that is in the wheel */
    method DelTimer(timer: Timer?)
      requires Valid() && (timer == null || timer in Live())
      modifies this, slots, Live()
      ensures Valid()
      ensures timer == null ==> Bag() == old(Bag())
      ensures timer != null ==> Bag() == old(Bag()) - {timer}
    {
      if timer != null {
        DelLive(timer);
      }
    }

    method DelLive(timer: Timer)
      requires Valid() && timer in Live()
      modifies this, slots, Live()
      ensures Valid() && Bag() == old(Bag()) - {timer}
    {
      hide Valid, Others, Linked, NoDup, At, AllOwn, Own, Cut, BagOf;
      Shape();
      BagLess(Rotations(), curSlot, timer);
      var ts := timer.timeSlot;
      ghost var k := FindIn(timer);
      Unlink(timer, ts, k);
      DropList(ts, k);
      assert Rotations() == old(Rotations()) - {timer};
    }

    lemma FindIn(timer: Timer) returns (k: nat)
      requires Valid() && timer in Live()
      ensures var ts := timer.timeSlot;
        0 <= ts < N == |lists| && Others(ts) && Linked(slots[ts], lists[ts]) && k < |lists[ts]| &&
          lists[ts][k] == timer && NoDup(lists[ts])
    {
      InSlot(timer);
      k :| 0 <= k < |lists[timer.timeSlot]| && lists[timer.timeSlot][k] == timer;
    }

    // ---------- Ticking ----------

    // The sweep of the current slot, which held `s`, has come to `tmp`
    ghost predicate Sweeping(s: seq<Timer>, rot: map<Timer, nat>, p: nat, tmp: Timer?)
      reads this, slots, Live(), s
    {
      && Valid() && NoDup(s) && p <= |s| && tmp == At(s, p) && Aged(s, rot, p)
      && lists[curSlot] == Kept(s[..p], rot) + s[p..]
      && forall t :: t in Live() && t !in s ==> t in rot && t.rotation == rot[t]
    }

    lemma SweepStart(s: seq<Timer>)
      requires Valid() && s == lists[curSlot]
      ensures Sweeping(s, Rotations(), 0, slots[curSlot])
    {
      assert Linked(slots[curSlot], s);
      assert Kept(s[..0], Rotations()) + s[0..] == s;
    }

    // One rotation less, and on to the next timer
    method Age(timer: Timer, ghost s: seq<Timer>, ghost rot: map<Timer, nat>, ghost p: nat) returns (tmp: Timer?)
      requires Sweeping(s, rot, p, timer) && timer.rotation > 0
      modifies timer`rotation
      ensures Sweeping(s, rot, p + 1, tmp) && lists[curSlot] == Kept(s[..p + 1], rot) + s[p + 1..]
      ensures Fired(s[..p + 1], rot) == Fired(s[..p], rot)
    {
      hide Kept, Fired, Elems, AllOwn, Linked;
      SweepOn(s, rot, p);
      Middle(Kept(s[..p], rot), s, p);
      NextInSlot(|Kept(s[..p], rot)|);
      tmp := timer.next;
      timer.rotation := timer.rotation - 1;
    }

    // The callback has been called: out of the list, and on
    method Expire(timer: Timer, ghost s: seq<Timer>, ghost rot: map<Timer, nat>, ghost p: nat) returns (tmp: Timer?)
      requires Sweeping(s, rot, p, timer) && timer.rotation == 0
      modifies slots, Elems(lists[curSlot])`next, Elems(lists[curSlot])`prev, this`lists
      ensures Sweeping(s, rot, p + 1, tmp) && Live() == old(Live()) - {timer}
      ensures Fired(s[..p + 1], rot) == Fired(s[..p], rot) + [timer]
      ensures lists == old(lists)[curSlot := Kept(s[..p + 1], rot) + s[p + 1..]]
    {
      hide Kept, Fired, Others, Linked, NoDup, Cut;
      SweepOn(s, rot, p);
      Middle(Kept(s[..p], rot), s, p);
      ghost var k := |Kept(s[..p], rot)|;
      Shape();
      SlotOk(curSlot);
      NextInSlot(k);
      Unlink(timer, curSlot, k);
      tmp := timer.next;
      DropList(curSlot, k);
    }

    // The loop of tick
    method Sweep(ghost s: seq<Timer>, ghost rot: map<Timer, nat>) returns (fired: seq<Timer>)
      requires Valid() && s == lists[curSlot] && rot == Rotations()
      modifies slots, Live(), this`lists
      ensures Valid() && NoDup(s) && fired == Fired(s, rot) && lists == old(lists)[curSlot := Kept(s, rot)] &&
        Aged(s, rot, |s|)
      ensures forall t :: t in Live() && t !in s ==> t in rot && t.rotation == rot[t]
    {
      hide Kept, Fired, Valid, Others, Aged, Sweeping, Linked, NoDup;
      SweepStart(s);
      Shape();
      var tmp := slots[curSlot];
      fired := [];
      ghost var p := 0;
      assert fired == Fired(s[..0], rot) by { FiredNothing(s, rot); }
      assert lists == lists[curSlot := Kept(s[..p], rot) + s[p..]];
      while tmp != null
        invariant p <= |s| && Sweeping(s, rot, p, tmp) && fired == Fired(s[..p], rot)
        invariant lists == old(lists)[curSlot := Kept(s[..p], rot) + s[p..]] && Live() <= old(Live())
        decreases |s| - p
      {
        SweptIsLive(s, rot, p, tmp);
        if tmp.rotation > 0 {
          tmp := Age(tmp, s, rot, p);
        } else {
          fired := fired + [tmp];
          tmp := Expire(tmp, s, rot, p);
        }
        p := p + 1;
      }
      SweepEnd(s, rot, p);
    }

    lemma SweepEnd(s: seq<Timer>, rot: map<Timer, nat>, p: nat)
      requires Sweeping(s, rot, p, null)
      ensures p == |s| && s[..p] == s && Kept(s, rot) + s[p..] == Kept(s, rot)
      ensures Valid() && NoDup(s) && Aged(s, rot, |s|)
      ensures forall t :: t in Live() && t !in s ==> t in rot && t.rotation == rot[t]
    {
    }

    lemma FiredNothing(s: seq<Timer>, rot: map<Timer, nat>)
      ensures Fired(s[..0], rot) == []
    {
    }

    lemma SweptIsLive(s: seq<Timer>, rot: map<Timer, nat>, p: nat, tmp: Timer)
      requires Sweeping(s, rot, p, tmp)
      ensures 0 <= curSlot < |lists| && tmp in lists[curSlot] && tmp in Live() && p < |s|
      ensures forall t :: t in lists[curSlot] ==> t in Live()
    {
      Middle(Kept(s[..p], rot), s, p);
    }

    // Every timer that was due has gone, and those left in the slot are one rotation nearer
    method SweepSlot(ghost s: seq<Timer>, ghost rot: map<Timer, nat>) returns (fired: seq<Timer>)
      requires Valid() && s == lists[curSlot] && rot == Rotations()
      modifies slots, Live(), this`lists
      ensures Valid() && fired == Fired(s, rot) && NoDup(fired) && Rotations() == Swept(rot, s)
    {
      hide Valid, Others, Kept, Fired, NoDup, Aged, Linked, AllOwn;
      Shape();
      AllOwned();
      LiveAfter(lists, curSlot, s, rot);
      fired := Sweep(s, rot);
      FiredNoDup(s, rot);
      AgedRotations(s, rot);
      forall t ensures t in Fired(s, rot) <==> t in s && t in rot && rot[t] == 0 {
        SweptIn(s, rot, t);
      }
    }

    /** tick: the timers whose callbacks it calls, in that order */
    method Tick() returns (fired: seq<Timer>)
      requires Valid()
      modifies this, slots, Live()
      ensures Valid() && NoDup(fired)
      ensures Bag() == Ticked(old(Bag())) && Elems(fired) == Due(old(Bag()))
    {
      hide Valid, NoDup, Ticked, Due, BagOf, Swept, Fired, AllOf;
      Shape();
      AllOwned();
      ghost var s, rot := lists[curSlot], Rotations();
      fired := SweepSlot(s, rot);
      TurnOn();
      TickedBag(rot, s, old(curSlot));
    }

    method TurnOn()
      requires Valid()
      modifies this`curSlot
      ensures Valid() && curSlot == (old(curSlot) + 1) % N && Rotations() == old(Rotations())
    {
      curSlot := (curSlot + 1) % N;
    }

    lemma AllOwned()
      requires Valid()
      ensures AllOwn(lists) && forall t :: t in Live() ==>
        0 <= t.timeSlot < N && (t in lists[curSlot] <==> t.timeSlot == curSlot)
    {
      forall t | t in Live() ensures 0 <= t.timeSlot < N && (t in lists[curSlot] <==> t.timeSlot == curSlot) {
        InSlot(t);
      }
    }

    // ---------- Any run of a client ----------

    lemma LiveKeys()
      ensures Bag().Keys == Live()
    {
    }

    method Obey(c: Command, es: seq<Event<Timer>>, mine: set<Timer>) returns (e: Event<Timer>, fired: set<Timer>)
      requires Valid() && mine <= Live() && forall k: nat :: Added(es, k) ==> (es[k].t in mine <==> es[k].t in Live())
      modifies this, slots, Live()
      ensures Valid() && Bag() == After(old(Bag()), e) && fired == (if e.Tick? then Due(old(Bag())) else {})
      ensures Obeys(c, es, e, old(Live())) && (e.Add? ==> fresh(e.t))
      ensures Live() == (if e.Add? then old(Live()) + {e.t} else if e.Del? then old(Live()) - {e.t}
        else old(Live()) - fired)
    {
      hide Valid, Ticked, Due, BagOf;
      LiveKeys();
      e, fired := Idle, {};
      match c {
        case Arm(timeout) =>
          var timer := AddTimer(timeout);
          if timer != null {
            e := Add(timer, if timeout < 1 then 1 else timeout);
          }
        case Cancel(k) =>
          if Added(es, k) && es[k].t in mine {
            e := Del(es[k].t);
            DelTimer(es[k].t);
          }
        case Turn =>
          LiveAfterTick(Bag());
          var due := Tick();
          e, fired := Event.Tick, Elems(due);
      }
      LiveKeys();
    }

    /** Any commands of a client: each timer fires in the tick it was added for and in no other,
      unless it is deleted before. */
    method Play(cs: seq<Command>) returns (es: seq<Event<Timer>>, fired: seq<set<Timer>>)
      requires Valid()
      modifies this, slots, Live()
      ensures Valid() && Bag() == Run(old(Bag()), es) && |es| == |fired| == |cs|
      ensures forall j :: 0 <= j < |cs| ==> Obeys(cs[j], es[..j], es[j], Run(old(Bag()), es[..j]).Keys)
      ensures forall j :: 0 <= j < |cs| ==> fired[j] == FiredAt(old(Bag()), es, j)
      ensures forall j :: 0 <= j < |cs| && es[j].Add? ==> fresh(es[j].t)
      ensures OnTime(es, fired) && Silent(es, fired)
    {
      hide Valid, FiredAt, OnTime, Silent, Obeys, Due, After, BagOf, AllOf;
      es, fired := [], [];
      var mine: set<Timer> := {};
      ghost var bag := Bag();
      assert Run(bag, es) == bag;
      while |es| < |cs|
        invariant |es| == |fired| <= |cs| && Valid() && Bag() == Run(bag, es)
        invariant mine <= Live() && forall k: nat :: Added(es, k) ==> (es[k].t in mine <==> es[k].t in Live())
        invariant forall t :: t in Live() ==> t in old(Live()) || fresh(t)
        invariant forall j :: 0 <= j < |es| ==> Obeys(cs[j], es[..j], es[j], Run(bag, es[..j]).Keys)
        invariant forall j :: 0 <= j < |es| ==> fired[j] == FiredAt(bag, es, j)
        invariant forall j :: 0 <= j < |es| && es[j].Add? ==> fresh(es[j].t)
        decreases |cs| - |es|
      {
        LiveKeys();
        var e, f := Obey(cs[|es|], es, mine);
        RunMore(bag, es, e);
        mine := if e.Add? then mine + {e.t} else if e.Del? then mine - {e.t} else mine - f;
        forall j | 0 <= j < |es| + 1 ensures (es + [e])[..j] == es[..j] {
        }
        assert es[..|es|] == es;
        es, fired := es + [e], fired + [f];
      }
      RunKeepsTime(bag, es, fired);
    }

    lemma AgedRotations(s: seq<Timer>, rot: map<Timer, nat>)
      requires Aged(s, rot, |s|)
      ensures forall t :: t in s ==> t in rot && t.rotation == if rot[t] > 0 then rot[t] - 1 else 0
    {
    }
  }

  lemma LiveAfter(ls: seq<seq<Timer>>, cur: nat, s: seq<Timer>, rot: map<Timer, nat>)
    requires cur < |ls| && s == ls[cur] && AllOwn(ls) && forall t :: t in s ==> t in rot
    ensures AllOf(ls[cur := Kept(s, rot)]) == AllOf(ls) - Elems(Fired(s, rot))
  {
    OwnApart(ls, cur);
    AllOfUpdate(ls, cur, Kept(s, rot));
    var before, after := AllOf(ls), AllOf(ls) - Elems(s) + Elems(Kept(s, rot));
    forall t | t in s ensures t in before && (t in Kept(s, rot) <==> t !in Fired(s, rot)) {
      SweptIn(s, rot, t);
    }
    forall t | t in Kept(s, rot) ensures t in s {
      SweptIn(s, rot, t);
    }
    forall t | t in Fired(s, rot) ensures t in s {
      SweptIn(s, rot, t);
    }
    assert after == before - Elems(Fired(s, rot));
  }

  // One tick nearer, whichever the slot
  lemma Nearer(rotation: nat, slot: int, cur: int)
    requires 0 <= slot < N && 0 <= cur < N
    ensures slot != cur ==> rotation * N + (slot - (cur + 1) % N) % N == rotation * N + (slot - cur) % N - 1
    ensures (slot - cur) % N > 0 <==> slot != cur
    ensures slot == cur && rotation > 0 ==> (rotation - 1) * N + (slot - (cur + 1) % N) % N == rotation * N - 1
  {
    var next := if cur + 1 == N then 0 else cur + 1;
    assert (cur + 1) % N == next;
    assert (slot - cur) % N == if slot >= cur then slot - cur else slot - cur + N;
    assert (slot - next) % N == if slot >= next then slot - next else slot - next + N;
  }

  lemma TickedTimer(rot: map<Timer, nat>, s: seq<Timer>, cur: int, t: Timer)
    requires t in rot && 0 <= cur < N && 0 <= t.timeSlot < N && (t in s <==> t.timeSlot == cur)
    ensures t in Fired(s, rot) <==> Countdown(rot[t], t.timeSlot, cur) == 0
    ensures t in Swept(rot, s) <==> Countdown(rot[t], t.timeSlot, cur) > 0
    ensures t in Swept(rot, s) ==>
      Countdown(Swept(rot, s)[t], t.timeSlot, (cur + 1) % N) == Countdown(rot[t], t.timeSlot, cur) - 1
  {
    hide Fired;
    SweptIn(s, rot, t);
    Nearer(rot[t], t.timeSlot, cur);
  }

  // The countdowns before and after a sweep of slot `cur`, which held `s`
  lemma TickedBag(rot: map<Timer, nat>, s: seq<Timer>, cur: int)
    requires 0 <= cur < N && forall t :: t in s ==> t in rot
    requires forall t :: t in rot ==> 0 <= t.timeSlot < N && (t in s <==> t.timeSlot == cur)
    ensures BagOf(Swept(rot, s), (cur + 1) % N) == Ticked(BagOf(rot, cur))
    ensures Elems(Fired(s, rot)) == Due(BagOf(rot, cur))
  {
    hide Countdown, Fired;
    assert forall t :: t in Swept(rot, s) ==> t in rot;
    forall t | t in rot
      ensures t in Fired(s, rot) <==> Countdown(rot[t], t.timeSlot, cur) == 0
      ensures t in Swept(rot, s) <==> Countdown(rot[t], t.timeSlot, cur) > 0
      ensures t in Swept(rot, s) ==>
        Countdown(Swept(rot, s)[t], t.timeSlot, (cur + 1) % N) == Countdown(rot[t], t.timeSlot, cur) - 1
    {
      TickedTimer(rot, s, cur, t);
    }
    forall t | t in Fired(s, rot) ensures t in rot {
      SweptIn(s, rot, t);
    }
  }
}
