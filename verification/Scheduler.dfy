/**
 The per-CPU run queues together: placing new tasks, waking, re-prioritising and removing
 them, and stealing from the busiest CPU. `tasks` records which task lives where and which
 wait; `Valid()` ties it to the queues, bitmaps and entity maps.
 */
module Scheduler {
  import opened Wrappers
  import opened RunQueues
  import opened Totals
  import opened Placement

  const MAX_CPUS := 64
  const U32_MAX := 0xFFFF_FFFF

  ghost function ViewOf(r: RunQueue?): Cpu
    reads r
  {
    if r == null then Off else On(r.queues, r.entities)
  }

  class Scheduler {
    const rqs: seq<RunQueue?>
    ghost var tasks: Tasks

    ghost function View(): (view: seq<Cpu>)
      reads rqs
      ensures |view| == |rqs| && forall i :: 0 <= i < |rqs| ==> view[i] == ViewOf(rqs[i])
    {
      seq(|rqs|, i requires 0 <= i < |rqs| reads rqs => ViewOf(rqs[i]))
    }

    ghost predicate Separate()
      reads rqs
    {
      && |rqs| == MAX_CPUS
      && (forall i, j :: 0 <= i < j < |rqs| && rqs[i] != null ==> rqs[i] != rqs[j])
      && (forall i :: 0 <= i < |rqs| && rqs[i] != null ==> rqs[i].Valid())
    }

    ghost predicate Valid()
      reads this, rqs
    {
      Separate() && Balanced(View(), tasks)
    }

    /** The run queues that exist. */
    ghost function Queues(): set<RunQueue> {
      set r: RunQueue | r in rqs
    }

    constructor (online: set<nat>)
      ensures Valid() && tasks == Tasks(map[], map[], {}) && fresh(Queues())
      ensures forall c :: 0 <= c < MAX_CPUS ==> (rqs[c] != null <==> c in online)
    {
      hide Indexed, Balanced, Idle;
      var made: seq<RunQueue?> := [];
      for c := 0 to MAX_CPUS
        invariant |made| == c
        invariant forall i :: 0 <= i < c ==> made[i] == null || fresh(made[i])
        invariant forall i :: 0 <= i < c ==> (made[i] != null <==> i in online)
        invariant forall i, j :: 0 <= i < j < c && made[i] != null ==> made[i] != made[j]
        invariant forall i :: 0 <= i < c && made[i] != null ==> made[i].Valid() && Idle(ViewOf(made[i]))
      {
        if c in online {
          var rq := new RunQueue();
          NewIsIdle(rq);
          made := made + [rq];
        } else {
          made := made + [null];
        }
      }
      rqs := made;
      tasks := Tasks(map[], map[], {});
      new;
      OffIsIdle();
      IdleBalanced(View());
    }

    /** Runnable tasks of a CPU; a CPU that is off counts as full. */
    function Load(c: nat): (load: nat)
      requires c < |rqs|
      reads rqs
      ensures load <= U32_MAX
    {
      if rqs[c] == null then U32_MAX else Min(rqs[c].nrRunning, U32_MAX)
    }

    /** `best` is the first of the least loaded CPUs. */
    ghost predicate LeastLoaded(best: nat, ncpus: nat)
      requires |rqs| == MAX_CPUS
      reads rqs
    {
      && (best == 0 || best < Min(ncpus, MAX_CPUS))
      && (forall c: nat :: c < Min(ncpus, MAX_CPUS) ==> Load(best) <= Load(c))
      && (forall c: nat :: c < best ==> Load(best) < Load(c))
    }

    method SelectCpu(ncpus: nat) returns (best: nat)
      requires Valid()
      ensures LeastLoaded(best, ncpus)
    {
      hide Balanced, Indexed;
      best := 0;
      var minLoad := U32_MAX;
      for c := 0 to Min(ncpus, MAX_CPUS)
        invariant (best == 0 || best < c) && minLoad <= U32_MAX
        invariant (c == 0 ==> minLoad == U32_MAX) && (minLoad == U32_MAX ==> best == 0)
        invariant c > 0 ==> Load(best) == minLoad
        invariant forall k: nat :: k < c ==> minLoad <= Load(k)
        invariant forall k: nat :: k < best ==> minLoad < Load(k)
      {
        var load := Load(c);
        if load < minLoad { minLoad, best := load, c; }
      }
    }

    /**
     Start a task on the least loaded CPU. It is dropped if that CPU is off. A task that has
     an entity already must have it there and not wait at another level, or it ends up with
     two entities or in two queues.
     */
    method AddTask(pid: nat, prio: nat, policy: nat, ncpus: nat) returns (c: nat)
      requires Valid() && prio < LEVELS
      modifies this, Queues()
      ensures c < MAX_CPUS && old(LeastLoaded(c, ncpus))
      ensures rqs[c] == null ==> Valid() && tasks == old(tasks) && View() == old(View())
      ensures rqs[c] != null ==> View() == AfterAdd(old(View()), c, NewEntity(pid, prio, policy))
      ensures rqs[c] != null ==> (Valid() <==> CanAdd(old(tasks), pid, c, prio))
      ensures rqs[c] != null && !CanAdd(old(tasks), pid, c, prio) ==> forall u :: !Placed(View(), u)
      ensures rqs[c] != null && Valid() ==> tasks == Added(old(tasks), pid, c, NewEntity(pid, prio, policy))
    {
      hide Balanced, Indexed, CanAdd;
      c := SelectCpu(ncpus);
      assert old(LeastLoaded(c, ncpus));
      var rq := rqs[c];
      if rq != null {
        var ent := NewEntity(pid, prio, policy);
        StartBooks(View(), tasks, c, pid, ent);
        rq.Add(ent);
        assert View() == old(View())[c := ViewOf(rq)];
        if CanAdd(tasks, pid, c, prio) { tasks := Added(tasks, pid, c, ent); }
      }
    }

    /** The CPU that holds the task's entity. */
    method Find(pid: nat) returns (r: Option<nat>)
      requires Valid()
      ensures r == if pid in tasks.home then Some(tasks.home[pid]) else None
      ensures r.Some? ==> r.value < MAX_CPUS && rqs[r.value] != null && pid in rqs[r.value].entities
    {
      hide Balanced, Indexed;
      for c := 0 to MAX_CPUS
        invariant forall k: nat :: k < c && rqs[k] != null ==> pid !in rqs[k].entities
      {
        if rqs[c] != null && pid in rqs[c].entities {
          HomeIs(View(), tasks, c, pid);
          return Some(c);
        }
      }
      assert forall k: nat :: k < MAX_CPUS && View()[k].On? ==> pid !in View()[k].entities;
      NoHome(View(), tasks, pid);
      r := None;
    }

    /** Forget a task, queued or not. */
    method RemoveTask(pid: nat)
      requires Valid()
      modifies this, Queues()
      ensures Valid() && tasks == Removed(old(tasks), pid)
      ensures match old(tasks).Home(pid)
              case None => View() == old(View())
              case Some(c) => View() == AfterRemove(old(View()), c, pid)
    {
      hide Balanced, Indexed;
      var found := Find(pid);
      if found.Some? {
        var c := found.value;
        HomeBooks(View(), tasks, pid, c);
        RemoveKeeps(View(), tasks, c, pid);
        var rq := rqs[c];
        rq.Remove(pid);
        assert View() == old(View())[c := ViewOf(rq)];
      } else {
        RemovedAbsent(View(), tasks, pid);
      }
      tasks := Removed(tasks, pid);
    }

    /** Make a task ready. */
    method Enqueue(pid: nat)
      requires Valid()
      modifies this, Queues()
      ensures Valid() && tasks == Readied(old(tasks), pid)
      ensures match old(tasks).Home(pid)
              case None => View() == old(View())
              case Some(c) => View() == AfterReady(old(View()), c, pid)
    {
      hide Balanced, Indexed;
      var found := Find(pid);
      if found.Some? {
        var c := found.value;
        HomeBooks(View(), tasks, pid, c);
        ReadyKeeps(View(), tasks, c, pid);
        var rq := rqs[c];
        rq.Enqueue(pid, rq.entities[pid].prio);
        assert View() == old(View())[c := ViewOf(rq)];
      }
      tasks := Readied(tasks, pid);
    }

    /** Move a task to another level. It is queued there even if it was not waiting. */
    method SetPriority(pid: nat, newPrio: nat)
      requires Valid() && newPrio < LEVELS
      modifies this, Queues()
      ensures Valid() && tasks == Reprioritised(old(tasks), pid, newPrio)
      ensures match old(tasks).Home(pid)
              case None => View() == old(View())
              case Some(c) => View() == AfterSetPriority(old(View()), c, pid, newPrio)
    {
      hide Balanced, Indexed;
      var found := Find(pid);
      if found.Some? {
        var c := found.value;
        HomeBooks(View(), tasks, pid, c);
        ReprioritiseKeeps(View(), tasks, c, pid, newPrio);
        var rq := rqs[c];
        rq.Reprioritise(pid, newPrio);
        assert View() == old(View())[c := ViewOf(rq)];
      }
      tasks := Reprioritised(tasks, pid, newPrio);
    }

    /** Take the next task of a CPU: of the most urgent the one that has waited longest. Its entity stays. */
    method PickNext(c: nat) returns (r: Option<nat>)
      requires Valid() && c < MAX_CPUS && rqs[c] != null
      modifies this, Queues()
      ensures Valid()
      ensures r.None? ==> tasks == old(tasks) && View() == old(View())
      ensures r.None? ==> forall q: nat :: q in tasks.ready && q in tasks.home ==> tasks.home[q] != c
      ensures r.Some? ==>
                && MostUrgent(old(tasks), c, r.value) && Waited(old(View()), c, r.value)
                && tasks == Unreadied(old(tasks), r.value) && View() == AfterPick(old(View()), c, r.value)
    {
      hide Balanced, Indexed, Placed;
      var rq := rqs[c];
      PickBooks(View(), tasks, c);
      r := rq.PickNext();
      assert View() == old(View())[c := ViewOf(rq)];
      if r.Some? {
        tasks := Unreadied(tasks, r.value);
      } else {
        assert View() == old(View());
      }
    }

    /** The counts of all CPUs add up to the number of ready tasks. */
    lemma RunningIsReady()
      requires Valid()
      ensures TotalRunning(rqs) == |tasks.ready|
    {
      hide Indexed, Placed;
      TotalRunningIsQueued(rqs, View());
    }

    /** What stealing for `my` looks at. */
    ghost predicate Other(my: nat, ncpus: nat, c: nat) {
      c < |rqs| && c < Min(ncpus, MAX_CPUS) && c != my && rqs[c] != null
    }

    /** `victim` is the first of the busiest other CPUs. */
    ghost predicate IsBusiest(my: nat, ncpus: nat, victim: nat)
      reads rqs
    {
      && Other(my, ncpus, victim)
      && forall c: nat :: Other(my, ncpus, c) ==>
           rqs[c].nrRunning <= rqs[victim].nrRunning && (rqs[c].nrRunning == rqs[victim].nrRunning ==> victim <= c)
    }

    /** No other CPU has two tasks waiting. */
    ghost predicate NothingToSteal(my: nat, ncpus: nat)
      reads rqs
    {
      forall c: nat :: Other(my, ncpus, c) ==> rqs[c].nrRunning < 2
    }

    /** The first of the busiest other CPUs and its load. */
    method Busiest(my: nat, ncpus: nat) returns (busiest: nat, maxLoad: nat)
      requires Valid()
      ensures maxLoad > 0 ==>
        Other(my, ncpus, busiest) && IsBusiest(my, ncpus, busiest) && rqs[busiest].nrRunning == maxLoad
      ensures maxLoad < 2 <==> NothingToSteal(my, ncpus)
    {
      hide Balanced, Indexed;
      busiest, maxLoad := 0, 0;
      for c := 0 to Min(ncpus, MAX_CPUS)
        invariant maxLoad > 0 ==> busiest < c && Other(my, ncpus, busiest) && rqs[busiest].nrRunning == maxLoad
        invariant forall k: nat :: k < c && Other(my, ncpus, k) ==>
          rqs[k].nrRunning <= maxLoad && (rqs[k].nrRunning == maxLoad > 0 ==> busiest <= k)
      {
        if c != my {
          var load := if rqs[c] == null then 0 else rqs[c].nrRunning;
          if load > maxLoad { maxLoad, busiest := load, c; }
        }
      }
    }

    /** Take the next task of a CPU, entity and all. */
    method TakeAway(c: nat) returns (ent: Entity)
      requires Valid() && c < MAX_CPUS && rqs[c] != null && rqs[c].nrRunning > 0
      modifies this, Queues()
      ensures Valid() && MostUrgent(old(tasks), c, ent.pid) && Waited(old(View()), c, ent.pid)
      ensures ent.pid in old(tasks).ready && ent.pid in old(tasks).home && ent.pid in old(tasks).entity
      ensures old(tasks).entity[ent.pid] == ent && ent.prio < LEVELS
      ensures tasks == Removed(old(tasks), ent.pid) && View() == AfterRemove(old(View()), c, ent.pid)
    {
      hide Balanced, Indexed, Placed;
      var rq := rqs[c];
      TakeBooks(View(), tasks, c);
      var picked := rq.PickNext();
      var pid := picked.value;
      assert Balanced(AfterRemove(old(View()), c, pid), Removed(tasks, pid));
      ent := rq.entities[pid];
      rq.entities := rq.entities - {pid};
      assert View() == old(View())[c := ViewOf(rq)];
      tasks := Removed(tasks, pid);
      assert View() == AfterRemove(old(View()), c, pid);
    }

    /**
     Move the next task of the busiest other CPU to `my`. The set of tasks, their entities
     and the ready ones stay as they were, unless `my` has no run queue: then the task is lost.
     */
    method WorkSteal(my: nat, ncpus: nat) returns (r: Option<nat>, ghost victim: nat)
      requires Valid() && my < MAX_CPUS
      modifies this, Queues()
      ensures Valid()
      ensures r.None? <==> old(NothingToSteal(my, ncpus))
      ensures r.None? ==> tasks == old(tasks) && View() == old(View())
      ensures r.Some? ==>
                && old(IsBusiest(my, ncpus, victim))
                && MostUrgent(old(tasks), victim, r.value) && Waited(old(View()), victim, r.value)
      ensures r.Some? && rqs[my] != null ==>
                && tasks == old(tasks).(home := old(tasks).home[r.value := my])
                && View() == AfterAdd(AfterRemove(old(View()), victim, r.value), my, old(tasks).entity[r.value])
      ensures r.Some? && rqs[my] == null ==>
        tasks == Removed(old(tasks), r.value) && View() == AfterRemove(old(View()), victim, r.value)
      ensures TotalRunning(rqs) == old(TotalRunning(rqs)) <==> r.None? || rqs[my] != null
    {
      hide Balanced, Indexed, Placed, IsBusiest, NothingToSteal, MostUrgent, Waited, AfterRemove, AfterAdd;
      hide TotalRunning;
      RunningIsReady();
      var busiest, maxLoad := Busiest(my, ncpus);
      victim := busiest;
      assert maxLoad < 2 <==> old(NothingToSteal(my, ncpus));
      if maxLoad < 2 { return None, victim; }
      assert old(IsBusiest(my, ncpus, victim));
      var ent := TakeAway(busiest);
      r := Some(ent.pid);
      if rqs[my] != null {
        MoveKeepsTasks(old(tasks), ent.pid, my);
        PutBack(my, ent);
      }
      RunningIsReady();
    }

    /** Give a task without an entity to a CPU. */
    method PutBack(my: nat, ent: Entity)
      requires Valid() && my < MAX_CPUS && rqs[my] != null && ent.pid !in tasks.home && ent.prio < LEVELS
      modifies this, Queues()
      ensures Valid() && tasks == Added(old(tasks), ent.pid, my, ent) && View() == AfterAdd(old(View()), my, ent)
    {
      hide Balanced, Indexed, Placed;
      AddKeeps(View(), tasks, my, ent.pid, ent);
      var rq := rqs[my];
      rq.Add(ent);
      tasks := Added(tasks, ent.pid, my, ent);
      assert View() == old(View())[my := ViewOf(rq)];
    }
  }

  /** The CPUs' own counts of runnable tasks, added up. */
  ghost function TotalRunning(rqs: seq<RunQueue?>): nat
    reads rqs
  {
    if rqs == [] then 0 else (if rqs[0] == null then 0 else rqs[0].nrRunning) + TotalRunning(rqs[1..])
  }

  lemma {:induction false} TotalRunningIsQueued(rqs: seq<RunQueue?>, view: seq<Cpu>)
    requires |view| == |rqs|
    requires forall i :: 0 <= i < |rqs| ==> view[i] == ViewOf(rqs[i]) && (rqs[i] != null ==> rqs[i].Valid())
    ensures TotalRunning(rqs) == Queued(view)
  {
    hide TotalLength;
    if rqs == [] {
    } else {
      if rqs[0] != null { IndexedShape(rqs[0].queues, rqs[0].bitmap, rqs[0].nrRunning); }
      TotalRunningIsQueued(rqs[1..], view[1..]);
    }
  }

  ghost predicate Idle(cpu: Cpu) {
    cpu.On? ==> |cpu.queues| == LEVELS && cpu.entities == map[] && forall i :: 0 <= i < LEVELS ==> cpu.queues[i] == []
  }

  lemma NewIsIdle(rq: RunQueue)
    requires rq.Valid() && rq.entities == map[] && forall i :: 0 <= i < LEVELS && i < |rq.queues| ==> rq.queues[i] == []
    ensures Idle(ViewOf(rq))
  {
  }

  lemma OffIsIdle()
    ensures Idle(Off)
  {
  }

  lemma IdleBalanced(view: seq<Cpu>)
    requires forall i :: 0 <= i < |view| ==> Idle(view[i])
    ensures Balanced(view, Tasks(map[], map[], {}))
  {
    IdleQueued(view);
  }

  lemma {:induction false} IdleQueued(view: seq<Cpu>)
    requires forall i :: 0 <= i < |view| ==> Idle(view[i])
    ensures Queued(view) == 0
  {
    if view == [] {
    } else {
      if view[0].On? { TotalLengthEmpty(view[0].queues); }
      IdleQueued(view[1..]);
    }
  }

  lemma StartBooks(view: seq<Cpu>, t: Tasks, c: nat, pid: nat, e: Entity)
    requires Balanced(view, t) && c < |view| && view[c].On? && e.pid == pid && e.prio < LEVELS
    ensures |view[c].queues| == LEVELS
    ensures CanAdd(t, pid, c, e.prio) ==> Balanced(AfterAdd(view, c, e), Added(t, pid, c, e))
    ensures !CanAdd(t, pid, c, e.prio) ==>
      !Balanced(AfterAdd(view, c, e), t) && forall u :: !Placed(AfterAdd(view, c, e), u)
  {
    hide Placed, CanAdd;
    CpuShape(view, t, c);
    if CanAdd(t, pid, c, e.prio) {
      AddKeeps(view, t, c, pid, e);
    } else {
      forall u ensures !Placed(AfterAdd(view, c, e), u) { CannotAdd(view, t, c, pid, e, u); }
    }
  }

  lemma HomeIs(view: seq<Cpu>, t: Tasks, c: nat, pid: nat)
    requires Balanced(view, t) && c < |view| && view[c].On? && pid in view[c].entities
    ensures pid in t.home && t.home[pid] == c
  {
    assert CpuOk(view[c], c, t);
  }

  lemma NoHome(view: seq<Cpu>, t: Tasks, pid: nat)
    requires Balanced(view, t) && forall k: nat :: k < |view| && view[k].On? ==> pid !in view[k].entities
    ensures pid !in t.home
  {
    assert TaskOk(view, pid, t);
  }

  lemma HomeBooks(view: seq<Cpu>, t: Tasks, pid: nat, c: nat)
    requires Balanced(view, t) && pid in t.home && t.home[pid] == c
    ensures c < |view| && view[c].On? && pid in t.entity && pid in view[c].entities
    ensures view[c].entities[pid] == t.entity[pid]
    ensures Holds(view, c, pid)
  {
    HomeShape(view, t, pid, c);
  }

  lemma RemovedAbsent(view: seq<Cpu>, t: Tasks, pid: nat)
    requires Balanced(view, t) && pid !in t.home
    ensures Removed(t, pid) == t
  {
    ReadyHome(view, t);
    assert t.home - {pid} == t.home && t.entity - {pid} == t.entity;
  }

  /** The task is at the head of its level. */
  ghost predicate Waited(view: seq<Cpu>, c: nat, pid: nat) {
    Holds(view, c, pid) && var queue := view[c].queues[view[c].entities[pid].prio]; queue != [] && queue[0] == pid
  }

  /** What picking from CPU `c` does to the books. */
  lemma PickBooks(view: seq<Cpu>, t: Tasks, c: nat)
    requires Balanced(view, t) && c < |view| && view[c].On?
    ensures match Scan(view[c].queues, 0)
            case None => forall q: nat :: q in t.ready && q in t.home ==> t.home[q] != c
            case Some(prio) =>
              var queues := view[c].queues[prio := view[c].queues[prio][1..]];
              var pid := view[c].queues[prio][0];
              && MostUrgent(t, c, pid) && Waited(view, c, pid)
              && AfterPick(view, c, pid) == view[c := On(queues, view[c].entities)]
              && Balanced(AfterPick(view, c, pid), Unreadied(t, pid))
  {
    hide Placed;
    CpuShape(view, t, c);
    match Scan(view[c].queues, 0) {
      case None => NothingReady(view, t, c);
      case Some(prio) =>
        HeadIsMostUrgent(view, t, c, prio);
        HomeShape(view, t, view[c].queues[prio][0], c);
        UnreadyKeeps(view, t, c, view[c].queues[prio][0]);
    }
  }

  lemma TakeBooks(view: seq<Cpu>, t: Tasks, c: nat)
    requires Balanced(view, t) && c < |view| && view[c].On?
    ensures match Scan(view[c].queues, 0)
            case None => true
            case Some(prio) =>
              var queues := view[c].queues[prio := view[c].queues[prio][1..]];
              var pid := view[c].queues[prio][0];
              && MostUrgent(t, c, pid) && Waited(view, c, pid)
              && pid in view[c].entities && view[c].entities[pid] == t.entity[pid]
              && t.entity[pid].pid == pid && t.entity[pid].prio < LEVELS
              && AfterRemove(view, c, pid) == view[c := On(queues, view[c].entities - {pid})]
              && Balanced(AfterRemove(view, c, pid), Removed(t, pid))
  {
    hide Placed;
    CpuShape(view, t, c);
    match Scan(view[c].queues, 0) {
      case None =>
      case Some(prio) =>
        HeadIsMostUrgent(view, t, c, prio);
        HomeShape(view, t, view[c].queues[prio][0], c);
        RemoveKeeps(view, t, c, view[c].queues[prio][0]);
    }
  }
}
