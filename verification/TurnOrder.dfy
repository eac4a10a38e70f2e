/**
 Whose turn it is: each task that waits carries the time at which it last began to wait at its
 level on its CPU. The queues are always in the order of those times, so the head of a level
 is the task that has waited there longest.
 */
module TurnOrder {
  import opened Wrappers
  import opened RunQueues
  import opened Totals
  import opened Placement

  /** Times are known, past, and in the order of the queue. */
  ghost predicate Lined(q: seq<nat>, since: map<nat, nat>, now: nat) {
    && (forall i :: 0 <= i < |q| ==> q[i] in since && since[q[i]] < now)
    && (forall i, j :: 0 <= i < j < |q| ==> since[q[i]] < since[q[j]])
  }

  ghost predicate InTurn(view: seq<Cpu>, since: map<nat, nat>, now: nat) {
    forall c: nat, prio: nat :: c < |view| && view[c].On? && prio < |view[c].queues| ==>
      Lined(view[c].queues[prio], since, now)
  }

  /** No queue holds the task. */
  ghost predicate Absent(view: seq<Cpu>, pid: nat) {
    forall c: nat, prio: nat :: c < |view| && view[c].On? && prio < |view[c].queues| ==> pid !in view[c].queues[prio]
  }

  lemma NotReadyAbsent(view: seq<Cpu>, t: Tasks, pid: nat)
    requires Placed(view, t) && pid !in t.ready
    ensures Absent(view, pid)
  {
    hide Placed;
    forall c: nat, prio: nat | c < |view| && view[c].On? && prio < |view[c].queues|
      ensures pid !in view[c].queues[prio]
    {
      ReadyIffQueued(view, t, pid, c, prio);
    }
  }

  // ---- One queue ----

  lemma {:induction false} WithoutWithin(q: seq<nat>, pid: nat)
    ensures forall x :: x in Without(q, pid) ==> x in q && x != pid
  {
    if q == [] {
    } else {
      var front := q[..|q| - 1];
      assert q == front + [q[|q| - 1]];
      WithoutWithin(front, pid);
    }
  }

  lemma {:induction false} LinedWithout(q: seq<nat>, pid: nat, since: map<nat, nat>, now: nat)
    requires Lined(q, since, now)
    ensures Lined(Without(q, pid), since, now)
  {
    if q == [] {
    } else {
      var front, last := q[..|q| - 1], q[|q| - 1];
      LinedWithout(front, pid, since, now);
      WithoutWithin(front, pid);
      var kept := Without(front, pid);
      forall i | 0 <= i < |kept| ensures since[kept[i]] < since[last] {
        assert kept[i] in front;
        var k :| 0 <= k < |front| && front[k] == kept[i];
        assert q[k] == front[k];
      }
    }
  }

  /** A task that joins at the back has waited least. */
  lemma LinedJoin(q: seq<nat>, pid: nat, since: map<nat, nat>, now: nat)
    requires Lined(q, since, now) && pid !in q
    ensures Lined(q + [pid], since[pid := now], now + 1) && Lined(q, since[pid := now], now + 1)
  {
  }

  // ---- All CPUs ----

  lemma TurnLater(view: seq<Cpu>, since: map<nat, nat>, now: nat)
    requires InTurn(view, since, now)
    ensures InTurn(view, since, now + 1)
  {
  }

  lemma TurnDrop(view: seq<Cpu>, c: nat, prio: nat, pid: nat, m: map<nat, Entity>, since: map<nat, nat>, now: nat)
    requires InTurn(view, since, now) && c < |view| && view[c].On? && prio < |view[c].queues|
    ensures InTurn(view[c := On(Drop(view[c].queues, prio, pid), m)], since, now)
  {
    hide Lined, Without;
    LinedWithout(view[c].queues[prio], pid, since, now);
  }

  lemma TurnPush(view: seq<Cpu>, c: nat, prio: nat, pid: nat, m: map<nat, Entity>, since: map<nat, nat>, now: nat)
    requires InTurn(view, since, now) && c < |view| && view[c].On? && prio < |view[c].queues| && Absent(view, pid)
    ensures InTurn(view[c := On(Push(view[c].queues, prio, pid), m)], since[pid := now], now + 1)
  {
    hide Lined;
    var after := view[c := On(Push(view[c].queues, prio, pid), m)];
    forall d: nat, p: nat | d < |after| && after[d].On? && p < |after[d].queues|
      ensures Lined(after[d].queues[p], since[pid := now], now + 1)
    {
      assert pid !in view[d].queues[p];
      LinedJoin(view[d].queues[p], pid, since, now);
    }
  }

  lemma DropAbsent(view: seq<Cpu>, c: nat, prio: nat, pid: nat, m: map<nat, Entity>)
    requires c < |view| && view[c].On? && prio < |view[c].queues|
    requires forall d: nat, p: nat :: d < |view| && view[d].On? && p < |view[d].queues| && pid in view[d].queues[p] ==>
      d == c && p == prio
    ensures Absent(view[c := On(Drop(view[c].queues, prio, pid), m)], pid)
  {
    hide Without;
    WithoutWithin(view[c].queues[prio], pid);
  }

  /** The head of a level has waited there longest. */
  lemma HeadIsEldest(
      view: seq<Cpu>, t: Tasks, since: map<nat, nat>, now: nat, c: nat, pid: nat, q: nat)
    requires Placed(view, t) && InTurn(view, since, now) && c < |view| && view[c].On?
    requires pid in t.entity && t.entity[pid].prio < |view[c].queues|
    requires var queue := view[c].queues[t.entity[pid].prio]; queue != [] && queue[0] == pid
    requires q in t.ready && q in t.home && t.home[q] == c && q in t.entity && t.entity[q].prio == t.entity[pid].prio
    ensures pid in since && q in since && since[pid] <= since[q]
  {
    hide Placed;
    var prio := t.entity[pid].prio;
    ReadyIffQueued(view, t, q, c, prio);
    assert Lined(view[c].queues[prio], since, now);
  }

  // ---- Each operation keeps the order ----

  /** A task begins to wait now, unless it waits already. */
  ghost function Joined(since: map<nat, nat>, t: Tasks, pid: nat, now: nat): map<nat, nat> {
    if pid in t.ready then since else since[pid := now]
  }

  lemma TurnAdd(view: seq<Cpu>, t: Tasks, c: nat, e: Entity, since: map<nat, nat>, now: nat)
    requires Placed(view, t) && InTurn(view, since, now) && c < |view| && view[c].On? && e.prio < LEVELS
    requires CanAdd(t, e.pid, c, e.prio)
    ensures InTurn(AfterAdd(view, c, e), Joined(since, t, e.pid, now), now + 1)
  {
    hide Placed, InTurn;
    CpuShape(view, t, c);
    ReadyHome(view, t);
    if e.pid in t.ready {
      ReadyIffQueued(view, t, e.pid, c, e.prio);
      TurnLater(view, since, now);
      SameQueues(view, c, view[c].entities[e.pid := e], since, now + 1);
      assert Push(view[c].queues, e.prio, e.pid) == view[c].queues;
    } else {
      NotReadyAbsent(view, t, e.pid);
      TurnPush(view, c, e.prio, e.pid, view[c].entities[e.pid := e], since, now);
    }
  }

  lemma SameQueues(view: seq<Cpu>, c: nat, m: map<nat, Entity>, since: map<nat, nat>, now: nat)
    requires InTurn(view, since, now) && c < |view| && view[c].On?
    ensures InTurn(view[c := On(view[c].queues, m)], since, now)
  {
  }

  lemma TurnReady(view: seq<Cpu>, t: Tasks, c: nat, pid: nat, since: map<nat, nat>, now: nat)
    requires Placed(view, t) && InTurn(view, since, now) && pid in t.home && t.home[pid] == c
    ensures InTurn(AfterReady(view, c, pid), Joined(since, t, pid, now), now + 1)
  {
    hide Placed, InTurn;
    HomeShape(view, t, pid, c);
    var prio := view[c].entities[pid].prio;
    if pid in t.ready {
      ReadyIffQueued(view, t, pid, c, prio);
      TurnLater(view, since, now);
      SameQueues(view, c, view[c].entities, since, now + 1);
      assert Push(view[c].queues, prio, pid) == view[c].queues;
    } else {
      NotReadyAbsent(view, t, pid);
      TurnPush(view, c, prio, pid, view[c].entities, since, now);
    }
  }

  /** Out of its queue, a task is in none. */
  lemma Dropped(view: seq<Cpu>, t: Tasks, c: nat, pid: nat, m: map<nat, Entity>, since: map<nat, nat>, now: nat)
    requires Placed(view, t) && InTurn(view, since, now) && pid in t.home && t.home[pid] == c
    ensures Holds(view, c, pid) && view[c].entities[pid] == t.entity[pid]
    ensures var after := view[c := On(Drop(view[c].queues, t.entity[pid].prio, pid), m)];
      InTurn(after, since, now) && Absent(after, pid) && |after[c].queues| == LEVELS
  {
    hide Placed, InTurn, Absent;
    HomeShape(view, t, pid, c);
    var prio := t.entity[pid].prio;
    TurnDrop(view, c, prio, pid, m, since, now);
    forall d: nat, p: nat | d < |view| && view[d].On? && p < |view[d].queues| && pid in view[d].queues[p]
      ensures d == c && p == prio
    {
      ReadyIffQueued(view, t, pid, d, p);
    }
    DropAbsent(view, c, prio, pid, m);
  }

  lemma TurnSetPriority(view: seq<Cpu>, t: Tasks, c: nat, pid: nat, prio: nat, since: map<nat, nat>, now: nat)
    requires Placed(view, t) && InTurn(view, since, now) && pid in t.home && t.home[pid] == c && prio < LEVELS
    ensures InTurn(AfterSetPriority(view, c, pid, prio), since[pid := now], now + 1)
  {
    hide Placed, InTurn, Absent, Drop, Push;
    HomeShape(view, t, pid, c);
    Dropped(view, t, c, pid, view[c].entities, since, now);
    var e := view[c].entities[pid];
    var m := view[c].entities[pid := e.(prio := prio, timesliceUs := TimesliceFor(prio, e.policy))];
    var dropped := view[c := On(Drop(view[c].queues, e.prio, pid), view[c].entities)];
    TurnPush(dropped, c, prio, pid, m, since, now);
    assert dropped[c := On(Push(dropped[c].queues, prio, pid), m)] == AfterSetPriority(view, c, pid, prio);
  }

  lemma TurnRemove(view: seq<Cpu>, t: Tasks, c: nat, pid: nat, since: map<nat, nat>, now: nat)
    requires Placed(view, t) && InTurn(view, since, now) && pid in t.home && t.home[pid] == c
    ensures InTurn(AfterRemove(view, c, pid), since, now) && Absent(AfterRemove(view, c, pid), pid)
    ensures InTurn(AfterPick(view, c, pid), since, now)
  {
    hide Placed, InTurn, Absent, Drop;
    HomeShape(view, t, pid, c);
    Dropped(view, t, c, pid, view[c].entities - {pid}, since, now);
    Dropped(view, t, c, pid, view[c].entities, since, now);
  }

  lemma TurnMove(view: seq<Cpu>, t: Tasks, v: nat, my: nat, pid: nat, since: map<nat, nat>, now: nat)
    requires Placed(view, t) && InTurn(view, since, now) && pid in t.home && t.home[pid] == v
    requires my < |view| && view[my].On? && pid in t.entity
    ensures InTurn(AfterAdd(AfterRemove(view, v, pid), my, t.entity[pid]), since[pid := now], now + 1)
  {
    hide Placed, InTurn, Absent, Drop, Push;
    HomeShape(view, t, pid, v);
    CpuShape(view, t, my);
    TurnRemove(view, t, v, pid, since, now);
    var gone, e := AfterRemove(view, v, pid), t.entity[pid];
    if my == v { Dropped(view, t, v, pid, view[v].entities - {pid}, since, now); }
    assert |gone[my].queues| == LEVELS;
    TurnPush(gone, my, e.prio, pid, gone[my].entities[pid := e], since, now);
  }

  // ---- Some times fit any machine ----

  /** The place of a task in its queue. */
  ghost function PlaceOf(view: seq<Cpu>, t: Tasks, pid: nat): nat {
    if pid in t.home && Holds(view, t.home[pid], pid) then
      IndexOf(view[t.home[pid]].queues[view[t.home[pid]].entities[pid].prio], pid)
    else 0
  }

  ghost function IndexOf(q: seq<nat>, x: nat): nat {
    if q == [] || q[0] == x then 0 else 1 + IndexOf(q[1..], x)
  }

  lemma {:induction false} IndexOfAt(q: seq<nat>, i: nat)
    requires Distinct(q) && i < |q|
    ensures IndexOf(q, q[i]) == i
  {
    if i == 0 {
    } else {
      assert q[0] != q[i];
      IndexOfAt(q[1..], i - 1);
    }
  }

  lemma TimesExist(view: seq<Cpu>, t: Tasks) returns (since: map<nat, nat>, now: nat)
    requires Placed(view, t)
    ensures InTurn(view, since, now)
  {
    hide Placed, Distinct, PlaceOf;
    since := map pid | pid in t.ready :: PlaceOf(view, t, pid);
    now := |t.ready|;
    forall c: nat, prio: nat | c < |view| && view[c].On? && prio < |view[c].queues|
      ensures Lined(view[c].queues[prio], since, now)
    {
      QueueTimes(view, t, c, prio, since);
    }
  }

  lemma QueueTimes(view: seq<Cpu>, t: Tasks, c: nat, prio: nat, since: map<nat, nat>)
    requires Placed(view, t) && c < |view| && view[c].On? && prio < |view[c].queues|
    requires since.Keys == t.ready && forall pid :: pid in t.ready ==> since[pid] == PlaceOf(view, t, pid)
    ensures Lined(view[c].queues[prio], since, |t.ready|)
  {
    hide Placed, Distinct, TotalLength, IndexOf;
    CpuShape(view, t, c);
    var q := view[c].queues[prio];
    QueuedIsReadyAt(view, t, c);
    TotalLengthUpdate(view[c].queues, prio, q);
    ReadyAtMost(t, c);
    forall i | 0 <= i < |q| ensures q[i] in t.ready && since[q[i]] == i {
      ReadyIffQueued(view, t, q[i], c, prio);
      ReadyHome(view, t);
      HomeShape(view, t, q[i], c);
      IndexOfAt(q, i);
    }
  }

  lemma ReadyAtMost(t: Tasks, c: nat)
    ensures |ReadyAt(t, c)| <= |t.ready|
  {
    Within(ReadyAt(t, c), t.ready);
  }

  lemma {:induction false} Within(a: set<nat>, b: set<nat>)
    requires a <= b
    ensures |a| <= |b|
  {
    if a == {} {
    } else {
      var x :| x in a;
      Within(a - {x}, b - {x});
    }
  }
}
