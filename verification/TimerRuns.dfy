/**
  A bag of countdowns, which is what a timing wheel stands for, over any run of additions,
  deletions and ticks.
 */
module TimerRuns {
  datatype Event<T> = Add(t: T, ticks: nat) | Del(t: T) | Tick | Idle

  // What is due at the next tick, and what is left after it
  function Due<T>(bag: map<T, nat>): set<T> { set t | t in bag && bag[t] == 0 }
  function Ticked<T>(bag: map<T, nat>): map<T, nat> { map t | t in bag && bag[t] > 0 :: bag[t] - 1 }

  function After<T>(bag: map<T, nat>, e: Event<T>): map<T, nat> {
    match e
    case Add(t, ticks) => bag[t := ticks]
    case Del(t) => bag - {t}
    case Tick => Ticked(bag)
    case Idle => bag
  }

  function Run<T>(bag: map<T, nat>, es: seq<Event<T>>): map<T, nat>
    decreases |es|
  {
    if es == [] then bag else Run(After(bag, es[0]), es[1..])
  }

  // The set a run fires at its event `i`
  function FiredAt<T>(bag: map<T, nat>, es: seq<Event<T>>, i: nat): set<T>
    requires i < |es|
  {
    if es[i].Tick? then Due(Run(bag, es[..i])) else {}
  }

  function Ticks<T>(es: seq<Event<T>>): nat {
    if es == [] then 0 else (if es[0].Tick? then 1 else 0) + Ticks(es[1..])
  }

  ghost predicate Leaves<T>(es: seq<Event<T>>, t: T) {
    forall i :: 0 <= i < |es| ==> es[i].Tick? || es[i].Idle? || es[i].t != t
  }

  // A live timer that is left alone counts the ticks, and is gone after as many as it had to wait and one more
  lemma {:induction false} CountsDown<T>(bag: map<T, nat>, es: seq<Event<T>>, t: T)
    requires t in bag && Leaves(es, t)
    ensures t in Run(bag, es) <==> Ticks(es) <= bag[t]
    ensures t in Run(bag, es) ==> Run(bag, es)[t] == bag[t] - Ticks(es)
    decreases |es|
  {
    if es != [] {
      assert es[0].Tick? || es[0].Idle? || es[0].t != t;
      var bag' := After(bag, es[0]);
      if t in bag' {
        CountsDown(bag', es[1..], t);
      } else {
        StaysAway(bag', es[1..], t);
      }
    }
  }

  lemma {:induction false} StaysAway<T>(bag: map<T, nat>, es: seq<Event<T>>, t: T)
    requires t !in bag && Leaves(es, t)
    ensures t !in Run(bag, es)
    decreases |es|
  {
    if es != [] {
      assert es[0].Tick? || es[0].Idle? || es[0].t != t;
      StaysAway(After(bag, es[0]), es[1..], t);
    }
  }

  lemma {:induction false} RunSplit<T>(bag: map<T, nat>, es: seq<Event<T>>, i: nat)
    requires i <= |es|
    ensures Run(bag, es) == Run(Run(bag, es[..i]), es[i..])
    ensures Ticks(es) == Ticks(es[..i]) + Ticks(es[i..])
    decreases |es|
  {
    if i == 0 {
      assert es[0..] == es;
    } else {
      RunSplit(After(bag, es[0]), es[1..], i - 1);
      assert es[1..][..i - 1] == es[..i][1..] && es[1..][i - 1..] == es[i..];
    }
  }

  // A timer added with `n` ticks fires exactly in the (n+1)-th tick after that, and in no other
  lemma FiresOnTime<T>(bag: map<T, nat>, t: T, n: nat, es: seq<Event<T>>, i: nat)
    requires i < |es| && Leaves(es, t)
    ensures t in FiredAt(bag[t := n], es, i) <==> es[i].Tick? && Ticks(es[..i]) == n
  {
    CountsDown(bag[t := n], es[..i], t);
  }

  // A deleted timer never fires
  lemma DeletedNeverFires<T>(bag: map<T, nat>, t: T, es: seq<Event<T>>, i: nat)
    requires i < |es| && Leaves(es, t)
    ensures t !in FiredAt(After(bag, Del(t)), es, i)
  {
    StaysAway(bag - {t}, es[..i], t);
  }

  // ---------- Within a run ----------

  lemma LiveAfterTick<T>(bag: map<T, nat>)
    ensures Ticked(bag).Keys == bag.Keys - Due(bag)
  {
  }

  lemma RunMore<T>(bag: map<T, nat>, es: seq<Event<T>>, e: Event<T>)
    ensures Run(bag, es + [e]) == After(Run(bag, es), e)
    ensures forall j :: 0 <= j < |es| ==> FiredAt(bag, es + [e], j) == FiredAt(bag, es, j)
    ensures FiredAt(bag, es + [e], |es|) == if e.Tick? then Due(Run(bag, es)) else {}
  {
    RunSplit(bag, es + [e], |es|);
    assert (es + [e])[..|es|] == es && (es + [e])[|es|..] == [e];
    forall j | 0 <= j < |es| ensures FiredAt(bag, es + [e], j) == FiredAt(bag, es, j) {
      assert (es + [e])[..j] == es[..j];
    }
  }

  // Every timer added and then left alone fires when it should, and only then
  ghost predicate OnTime<T>(es: seq<Event<T>>, fired: seq<set<T>>)
    requires |fired| == |es|
  {
    forall i, j :: 0 <= i < j < |es| && es[i].Add? && Leaves(es[i + 1..j + 1], es[i].t) ==>
      (es[i].t in fired[j] <==> es[j].Tick? && Ticks(es[i + 1..j]) == es[i].ticks)
  }

  // No timer fires after it has been deleted
  ghost predicate Silent<T>(es: seq<Event<T>>, fired: seq<set<T>>)
    requires |fired| == |es|
  {
    forall i, j :: 0 <= i < j < |es| && es[i].Del? && Leaves(es[i + 1..j + 1], es[i].t) ==> es[i].t !in fired[j]
  }

  lemma FiredLater<T>(bag: map<T, nat>, es: seq<Event<T>>, i: nat, j: nat)
    requires i < j < |es|
    ensures FiredAt(bag, es, j) == FiredAt(After(Run(bag, es[..i]), es[i]), es[i + 1..j + 1], j - i - 1)
    ensures es[i + 1..j + 1][..j - i - 1] == es[i + 1..j]
  {
    var later := es[i + 1..j + 1];
    RunSplit(bag, es[..j], i + 1);
    assert es[..j][..i + 1] == es[..i] + [es[i]] && es[..j][i + 1..] == later[..j - i - 1] == es[i + 1..j];
    RunMore(bag, es[..i], es[i]);
  }

  lemma RunKeepsTime<T>(bag: map<T, nat>, es: seq<Event<T>>, fired: seq<set<T>>)
    requires |fired| == |es| && forall j :: 0 <= j < |es| ==> fired[j] == FiredAt(bag, es, j)
    ensures OnTime(es, fired) && Silent(es, fired)
  {
    forall i, j | 0 <= i < j < |es| && es[i].Add? && Leaves(es[i + 1..j + 1], es[i].t)
      ensures es[i].t in fired[j] <==> es[j].Tick? && Ticks(es[i + 1..j]) == es[i].ticks
    {
      FiredLater(bag, es, i, j);
      FiresOnTime(Run(bag, es[..i]), es[i].t, es[i].ticks, es[i + 1..j + 1], j - i - 1);
    }
    forall i, j | 0 <= i < j < |es| && es[i].Del? && Leaves(es[i + 1..j + 1], es[i].t) ensures es[i].t !in fired[j] {
      FiredLater(bag, es, i, j);
      DeletedNeverFires(Run(bag, es[..i]), es[i].t, es[i + 1..j + 1], j - i - 1);
    }
  }
}
