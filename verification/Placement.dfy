/**
 Where the tasks of a multiprocessor are. Each task has one scheduling entity, on its home
 CPU; a ready task is queued once, on that CPU, at its entity's level.
 */
module Placement {
  import opened Wrappers
  import opened RunQueues
  import opened Totals

  /** What one CPU holds. A CPU without a run queue is off. */
  datatype Cpu = Off | On(queues: seq<seq<nat>>, entities: map<nat, Entity>)

  /** All tasks, the CPU each lives on, and those waiting to run. */
  datatype Tasks = Tasks(home: map<nat, nat>, entity: map<nat, Entity>, ready: set<nat>) {
    function Home(pid: nat): Option<nat> {
      if pid in home then Some(home[pid]) else None
    }
  }

  /** Everything `cpu` number `c` holds is accounted for. */
  ghost predicate CpuOk(cpu: Cpu, c: nat, t: Tasks) {
    cpu.On? ==>
      && |cpu.queues| == LEVELS
      && (forall prio :: 0 <= prio < LEVELS ==> Distinct(cpu.queues[prio]))
      && (forall pid: nat :: pid in cpu.entities ==> pid in t.home && t.home[pid] == c)
      && (forall prio: nat, pid: nat :: prio < LEVELS && pid in cpu.queues[prio] ==>
            pid in t.ready && pid in t.home && t.home[pid] == c && pid in t.entity && t.entity[pid].prio == prio)
  }

  /** The task is where the books say it is. */
  ghost predicate TaskAt(cpu: Cpu, pid: nat, t: Tasks) {
    && cpu.On? && |cpu.queues| == LEVELS
    && pid in t.entity && t.entity[pid].pid == pid && t.entity[pid].prio < LEVELS
    && pid in cpu.entities && cpu.entities[pid] == t.entity[pid]
    && (pid in t.ready ==> pid in cpu.queues[t.entity[pid].prio])
  }

  ghost predicate TaskOk(view: seq<Cpu>, pid: nat, t: Tasks) {
    pid in t.home ==> t.home[pid] < |view| && TaskAt(view[t.home[pid]], pid, t)
  }

  ghost predicate Placed(view: seq<Cpu>, t: Tasks) {
    && t.home.Keys == t.entity.Keys && t.ready <= t.home.Keys
    && (forall c: nat :: c < |view| ==> CpuOk(view[c], c, t))
    && (forall pid: nat :: TaskOk(view, pid, t))
  }

  /** No task has two entities, */
  lemma OneEntity(view: seq<Cpu>, t: Tasks, c: nat, d: nat, pid: nat)
    requires Placed(view, t) && c < |view| && d < |view| && view[c].On? && view[d].On?
    requires pid in view[c].entities && pid in view[d].entities
    ensures c == d
  {
    assert CpuOk(view[c], c, t) && CpuOk(view[d], d, t);
  }

  /** and none is queued twice. */
  lemma QueuedOnce(view: seq<Cpu>, t: Tasks, c: nat, p: nat, i: nat, d: nat, q: nat, j: nat)
    requires Placed(view, t) && c < |view| && d < |view| && view[c].On? && view[d].On?
    requires p < |view[c].queues| && i < |view[c].queues[p]| && q < |view[d].queues| && j < |view[d].queues[q]|
    requires view[c].queues[p][i] == view[d].queues[q][j]
    ensures c == d && p == q && i == j
  {
    var pid := view[c].queues[p][i];
    ReadyIffQueued(view, t, pid, c, p);
    ReadyIffQueued(view, t, pid, d, q);
    CpuShape(view, t, c);
    assert Distinct(view[c].queues[p]);
  }

  /** The two books say the same of tasks that are not on `c`. */
  ghost predicate SameElsewhere(c: nat, t: Tasks, u: Tasks) {
    && (forall pid: nat :: pid in t.home && t.home[pid] != c ==>
          pid in u.home && u.home[pid] == t.home[pid] && pid in t.entity && pid in u.entity
          && u.entity[pid] == t.entity[pid] && (pid in u.ready <==> pid in t.ready))
    && (forall pid: nat :: pid in u.home && u.home[pid] != c ==> pid in t.home && t.home[pid] == u.home[pid])
  }

  /** A change on one CPU need only be checked there. */
  lemma PlacedUpdate(view: seq<Cpu>, c: nat, cpu: Cpu, t: Tasks, u: Tasks)
    requires Placed(view, t) && c < |view| && SameElsewhere(c, t, u)
    requires u.home.Keys == u.entity.Keys && u.ready <= u.home.Keys
    requires CpuOk(cpu, c, u) && forall pid: nat :: pid in u.home && u.home[pid] == c ==> TaskAt(cpu, pid, u)
    ensures Placed(view[c := cpu], u)
  {
    hide Distinct;
    var after := view[c := cpu];
    forall d: nat | d < |view| ensures CpuOk(after[d], d, u) {
      if d != c { assert CpuOk(view[d], d, t); OtherCpu(view[d], c, d, t, u); }
    }
    forall pid: nat ensures TaskOk(after, pid, u) {
      if pid in u.home && u.home[pid] != c { assert TaskOk(view, pid, t); }
    }
  }

  lemma OtherCpu(cpu: Cpu, c: nat, d: nat, t: Tasks, u: Tasks)
    requires CpuOk(cpu, d, t) && c != d && SameElsewhere(c, t, u)
    ensures CpuOk(cpu, d, u)
  {
    hide Distinct;
  }

  /** Tasks queued on all CPUs. */
  ghost function Queued(view: seq<Cpu>): nat {
    if view == [] then 0 else (if view[0].On? then TotalLength(view[0].queues) else 0) + Queued(view[1..])
  }

  lemma {:induction false} QueuedUpdate(view: seq<Cpu>, c: nat, cpu: Cpu)
    requires c < |view| && view[c].On? && cpu.On?
    ensures Queued(view[c := cpu]) == Queued(view) - TotalLength(view[c].queues) + TotalLength(cpu.queues)
  {
    hide TotalLength;
    if c == 0 {
      assert view[c := cpu][1..] == view[1..];
    } else {
      assert view[c := cpu][1..] == view[1..][c - 1 := cpu];
      QueuedUpdate(view[1..], c - 1, cpu);
    }
  }

  /** The books of a machine: every task placed once, and the counts of all run queues add up to the ready tasks. */
  ghost predicate Balanced(view: seq<Cpu>, t: Tasks) {
    Placed(view, t) && Queued(view) == |t.ready|
  }

  // ---- The books after each operation ----

  ghost function Added(t: Tasks, pid: nat, c: nat, e: Entity): Tasks {
    Tasks(t.home[pid := c], t.entity[pid := e], t.ready + {pid})
  }

  ghost function Removed(t: Tasks, pid: nat): Tasks {
    Tasks(t.home - {pid}, t.entity - {pid}, t.ready - {pid})
  }

  ghost function Unreadied(t: Tasks, pid: nat): Tasks {
    t.(ready := t.ready - {pid})
  }

  ghost function Readied(t: Tasks, pid: nat): Tasks {
    if pid in t.home then t.(ready := t.ready + {pid}) else t
  }

  ghost function Reprioritised(t: Tasks, pid: nat, prio: nat): Tasks {
    if pid in t.home && pid in t.entity then
      var e := t.entity[pid].(prio := prio, timesliceUs := TimesliceFor(prio, t.entity[pid].policy));
      t.(entity := t.entity[pid := e], ready := t.ready + {pid})
    else t
  }

  // ---- What the CPUs hold after each operation ----

  /** Task `pid` is on CPU `c`, at a level that exists. */
  ghost predicate Holds(view: seq<Cpu>, c: nat, pid: nat) {
    && c < |view| && view[c].On? && |view[c].queues| == LEVELS
    && pid in view[c].entities && view[c].entities[pid].prio < LEVELS
  }

  ghost function AfterAdd(view: seq<Cpu>, c: nat, e: Entity): seq<Cpu> {
    if c < |view| && view[c].On? && e.prio < |view[c].queues| then
      view[c := On(Push(view[c].queues, e.prio, e.pid), view[c].entities[e.pid := e])]
    else view
  }

  ghost function AfterRemove(view: seq<Cpu>, c: nat, pid: nat): seq<Cpu> {
    if Holds(view, c, pid) then
      view[c := On(Drop(view[c].queues, view[c].entities[pid].prio, pid), view[c].entities - {pid})]
    else view
  }

  ghost function AfterReady(view: seq<Cpu>, c: nat, pid: nat): seq<Cpu> {
    if Holds(view, c, pid) then
      view[c := On(Push(view[c].queues, view[c].entities[pid].prio, pid), view[c].entities)]
    else view
  }

  ghost function AfterSetPriority(view: seq<Cpu>, c: nat, pid: nat, prio: nat): seq<Cpu> {
    if Holds(view, c, pid) && prio < LEVELS then
      var e := view[c].entities[pid];
      var queues := Push(Drop(view[c].queues, e.prio, pid), prio, pid);
      view[c := On(queues, view[c].entities[pid := e.(prio := prio, timesliceUs := TimesliceFor(prio, e.policy))])]
    else view
  }

  ghost function AfterPick(view: seq<Cpu>, c: nat, pid: nat): seq<Cpu> {
    if Holds(view, c, pid) then
      view[c := On(Drop(view[c].queues, view[c].entities[pid].prio, pid), view[c].entities)]
    else view
  }

  lemma QueuedPush(queues: seq<seq<nat>>, prio: nat, pid: nat)
    requires prio < |queues|
    ensures TotalLength(Push(queues, prio, pid)) == TotalLength(queues) + if pid in queues[prio] then 0 else 1
  {
    TotalLengthUpdate(queues, prio, Push(queues, prio, pid)[prio]);
  }

  lemma QueuedDrop(queues: seq<seq<nat>>, prio: nat, pid: nat)
    requires prio < |queues| && Distinct(queues[prio])
    ensures TotalLength(Drop(queues, prio, pid)) == TotalLength(queues) - if pid in queues[prio] then 1 else 0
  {
    WithoutKeeps(queues[prio], pid);
    TotalLengthUpdate(queues, prio, Without(queues[prio], pid));
  }

  /** The entity may be new, or replace one on the same CPU that is not queued elsewhere. */
  ghost predicate CanAdd(t: Tasks, pid: nat, c: nat, prio: nat) {
    pid in t.home ==> t.home[pid] == c && (pid in t.ready ==> pid in t.entity && t.entity[pid].prio == prio)
  }

  lemma AddCpu(cpu: Cpu, t: Tasks, c: nat, pid: nat, e: Entity)
    requires CpuOk(cpu, c, t) && cpu.On? && t.ready <= t.home.Keys && CanAdd(t, pid, c, e.prio) && e.prio < LEVELS
    ensures CpuOk(On(Push(cpu.queues, e.prio, pid), cpu.entities[pid := e]), c, Added(t, pid, c, e))
  {
    hide Distinct;
    PushDistinct(cpu.queues[e.prio], pid);
  }

  lemma AddTaskAt(cpu: Cpu, t: Tasks, c: nat, pid: nat, e: Entity, q: nat)
    requires cpu.On? && |cpu.queues| == LEVELS && e.prio < LEVELS && e.pid == pid
    requires q != pid ==> TaskAt(cpu, q, t)
    ensures TaskAt(On(Push(cpu.queues, e.prio, pid), cpu.entities[pid := e]), q, Added(t, pid, c, e))
  {
    var queue := cpu.queues[e.prio];
    assert forall x: nat :: x in queue ==> x in queue + [pid];
    assert pid in queue + [pid];
  }

  lemma AddPlaced(view: seq<Cpu>, t: Tasks, c: nat, pid: nat, e: Entity)
    requires Placed(view, t) && c < |view| && view[c].On? && CanAdd(t, pid, c, e.prio) && e.pid == pid
    requires e.prio < LEVELS
    ensures |view[c].queues| == LEVELS
    ensures Placed(view[c := On(Push(view[c].queues, e.prio, pid), view[c].entities[pid := e])], Added(t, pid, c, e))
  {
    hide CpuOk, TaskAt, Push;
    var cpu := view[c];
    CpuShape(view, t, c);
    var next := On(Push(cpu.queues, e.prio, pid), cpu.entities[pid := e]);
    var u := Added(t, pid, c, e);
    AddCpu(cpu, t, c, pid, e);
    forall q: nat | q in u.home && u.home[q] == c ensures TaskAt(next, q, u) {
      if q != pid { assert TaskOk(view, q, t); }
      AddTaskAt(cpu, t, c, pid, e, q);
    }
    PlacedUpdate(view, c, next, t, u);
  }

  lemma CpuShape(view: seq<Cpu>, t: Tasks, c: nat)
    requires Placed(view, t) && c < |view| && view[c].On?
    ensures CpuOk(view[c], c, t) && |view[c].queues| == LEVELS
    ensures forall prio :: 0 <= prio < LEVELS ==> Distinct(view[c].queues[prio])
  {
    assert CpuOk(view[c], c, t);
  }

  /** A ready task is queued at its level; any other task is not queued there. */
  lemma ReadyIffQueued(view: seq<Cpu>, t: Tasks, pid: nat, c: nat, prio: nat)
    requires Placed(view, t) && c < |view| && view[c].On? && prio < |view[c].queues|
    ensures pid in view[c].queues[prio] <==> pid in t.ready && t.home[pid] == c && t.entity[pid].prio == prio
  {
    hide Distinct;
    assert CpuOk(view[c], c, t) && TaskOk(view, pid, t);
  }

  lemma AddKeeps(view: seq<Cpu>, t: Tasks, c: nat, pid: nat, e: Entity)
    requires Balanced(view, t) && c < |view| && view[c].On? && CanAdd(t, pid, c, e.prio) && e.pid == pid
    requires e.prio < LEVELS
    ensures |view[c].queues| == LEVELS
    ensures Balanced(view[c := On(Push(view[c].queues, e.prio, pid), view[c].entities[pid := e])], Added(t, pid, c, e))
  {
    hide Queued, TotalLength, Placed, Push;
    AddPlaced(view, t, c, pid, e);
    ReadyHome(view, t);
    ReadyIffQueued(view, t, pid, c, e.prio);
    QueuedPush(view[c].queues, e.prio, pid);
    QueuedUpdate(view, c, On(Push(view[c].queues, e.prio, pid), view[c].entities[pid := e]));
    assert pid in t.ready ==> t.ready + {pid} == t.ready;
  }

  /** Otherwise the task ends up with two entities, or queued at two levels. */
  lemma CannotAdd(view: seq<Cpu>, t: Tasks, c: nat, pid: nat, e: Entity, u: Tasks)
    requires Placed(view, t) && c < |view| && view[c].On? && !CanAdd(t, pid, c, e.prio) && e.pid == pid
    requires e.prio < LEVELS
    ensures !Placed(AfterAdd(view, c, e), u)
  {
    hide Placed;
    var after := AfterAdd(view, c, e);
    CpuShape(view, t, c);
    if Placed(after, u) {
      var d := t.home[pid];
      ReadyHome(view, t);
      HomeShape(view, t, pid, d);
      if d != c {
        OneEntity(after, u, c, d, pid);
      } else {
        ReadyIffQueued(view, t, pid, c, t.entity[pid].prio);
        ReadyIffQueued(after, u, pid, c, t.entity[pid].prio);
        ReadyIffQueued(after, u, pid, c, e.prio);
      }
    }
  }

  lemma ReadyHome(view: seq<Cpu>, t: Tasks)
    requires Placed(view, t)
    ensures t.home.Keys == t.entity.Keys && t.ready <= t.home.Keys
  {
  }

  lemma PushDistinct(q: seq<nat>, pid: nat)
    requires Distinct(q)
    ensures Distinct(if pid in q then q else q + [pid])
  {
  }

  lemma RemoveCpu(cpu: Cpu, t: Tasks, c: nat, pid: nat)
    requires CpuOk(cpu, c, t) && TaskAt(cpu, pid, t)
    ensures CpuOk(On(Drop(cpu.queues, t.entity[pid].prio, pid), cpu.entities - {pid}), c, Removed(t, pid))
  {
    hide Distinct, Without;
    WithoutKeeps(cpu.queues[t.entity[pid].prio], pid);
  }

  lemma RemoveTaskAt(cpu: Cpu, t: Tasks, pid: nat, prio: nat, q: nat)
    requires TaskAt(cpu, q, t) && q != pid && prio < LEVELS && Distinct(cpu.queues[prio])
    ensures TaskAt(On(Drop(cpu.queues, prio, pid), cpu.entities - {pid}), q, Removed(t, pid))
  {
    hide Distinct, Without;
    WithoutKeeps(cpu.queues[prio], pid);
  }

  lemma HomeShape(view: seq<Cpu>, t: Tasks, pid: nat, c: nat)
    requires Placed(view, t) && pid in t.home && t.home[pid] == c
    ensures c < |view| && view[c].On? && |view[c].queues| == LEVELS && TaskAt(view[c], pid, t)
    ensures pid in t.entity && t.entity[pid].pid == pid && t.entity[pid].prio < LEVELS
    ensures pid in view[c].entities && view[c].entities[pid] == t.entity[pid]
  {
    assert TaskOk(view, pid, t);
  }

  lemma RemovePlaced(view: seq<Cpu>, t: Tasks, c: nat, pid: nat)
    requires Placed(view, t) && pid in t.home && t.home[pid] == c
    ensures c < |view| && view[c].On? && |view[c].queues| == LEVELS && pid in t.entity && t.entity[pid].prio < LEVELS
    ensures var cpu := On(Drop(view[c].queues, t.entity[pid].prio, pid), view[c].entities - {pid});
      Placed(view[c := cpu], Removed(t, pid))
  {
    hide CpuOk, TaskAt, Drop;
    HomeShape(view, t, pid, c);
    CpuShape(view, t, c);
    var cpu := view[c];
    var prio := t.entity[pid].prio;
    var next := On(Drop(cpu.queues, prio, pid), cpu.entities - {pid});
    var u := Removed(t, pid);
    RemoveCpu(cpu, t, c, pid);
    forall q: nat | q in u.home && u.home[q] == c ensures TaskAt(next, q, u) {
      assert TaskOk(view, q, t);
      RemoveTaskAt(cpu, t, pid, prio, q);
    }
    PlacedUpdate(view, c, next, t, u);
  }

  lemma RemoveKeeps(view: seq<Cpu>, t: Tasks, c: nat, pid: nat)
    requires Balanced(view, t) && pid in t.home && t.home[pid] == c
    ensures c < |view| && view[c].On? && |view[c].queues| == LEVELS && pid in t.entity && t.entity[pid].prio < LEVELS
    ensures var cpu := On(Drop(view[c].queues, t.entity[pid].prio, pid), view[c].entities - {pid});
      Balanced(view[c := cpu], Removed(t, pid))
  {
    hide Queued, TotalLength, Placed, Drop;
    RemovePlaced(view, t, c, pid);
    CpuShape(view, t, c);
    var prio := t.entity[pid].prio;
    ReadyIffQueued(view, t, pid, c, prio);
    QueuedDrop(view[c].queues, prio, pid);
    QueuedUpdate(view, c, On(Drop(view[c].queues, prio, pid), view[c].entities - {pid}));
  }

  lemma ReadyKeeps(view: seq<Cpu>, t: Tasks, c: nat, pid: nat)
    requires Balanced(view, t) && pid in t.home && t.home[pid] == c
    ensures c < |view| && view[c].On? && |view[c].queues| == LEVELS && pid in t.entity && t.entity[pid].prio < LEVELS
    ensures Balanced(view[c := On(Push(view[c].queues, t.entity[pid].prio, pid), view[c].entities)], Readied(t, pid))
  {
    hide Queued, Placed, Push;
    HomeShape(view, t, pid, c);
    var e := t.entity[pid];
    AddKeeps(view, t, c, pid, e);
    assert view[c].entities[pid := e] == view[c].entities;
    assert Added(t, pid, c, e) == Readied(t, pid) by {
      assert t.home[pid := c] == t.home && t.entity[pid := e] == t.entity;
    }
  }

  /** Taking the entity out at the old level and putting it back at the new one. */
  lemma ReprioritiseKeeps(view: seq<Cpu>, t: Tasks, c: nat, pid: nat, prio: nat)
    requires Balanced(view, t) && pid in t.home && t.home[pid] == c && prio < LEVELS
    ensures c < |view| && view[c].On? && |view[c].queues| == LEVELS && pid in t.entity && t.entity[pid].prio < LEVELS
    ensures var u := Reprioritised(t, pid, prio);
            var queues := Push(Drop(view[c].queues, t.entity[pid].prio, pid), prio, pid);
            Balanced(view[c := On(queues, view[c].entities[pid := u.entity[pid]])], u)
  {
    hide Balanced, Push, Drop, Reprioritised, Added, Removed, CanAdd;
    RemoveKeeps(view, t, c, pid);
    PidOfEntity(view, t, pid, c);
    ReprioritisedBooks(t, pid, c, prio);
    var e := Reprioritised(t, pid, prio).entity[pid];
    var cpu := view[c];
    var gone := On(Drop(cpu.queues, t.entity[pid].prio, pid), cpu.entities - {pid});
    AddKeeps(view[c := gone], Removed(t, pid), c, pid, e);
    assert gone.entities[pid := e] == cpu.entities[pid := e];
    var next := On(Push(gone.queues, prio, pid), gone.entities[pid := e]);
    assert view[c := gone][c := next] == view[c := next];
  }

  lemma PidOfEntity(view: seq<Cpu>, t: Tasks, pid: nat, c: nat)
    requires Balanced(view, t) && pid in t.home && t.home[pid] == c
    ensures pid in t.entity && t.entity[pid].pid == pid
  {
    HomeShape(view, t, pid, c);
  }

  lemma ReprioritisedBooks(t: Tasks, pid: nat, c: nat, prio: nat)
    requires pid in t.home && t.home[pid] == c && pid in t.entity && t.entity[pid].pid == pid
    ensures var u := Reprioritised(t, pid, prio);
      && pid in u.entity && u.entity[pid].pid == pid && u.entity[pid].prio == prio
      && CanAdd(Removed(t, pid), pid, c, prio) && Added(Removed(t, pid), pid, c, u.entity[pid]) == u
  {
    var e := Reprioritised(t, pid, prio).entity[pid];
    assert (t.home - {pid})[pid := c] == t.home;
    assert (t.entity - {pid})[pid := e] == t.entity[pid := e];
    assert t.ready - {pid} + {pid} == t.ready + {pid};
  }

  lemma UnreadyCpu(cpu: Cpu, t: Tasks, c: nat, pid: nat)
    requires CpuOk(cpu, c, t) && TaskAt(cpu, pid, t)
    ensures CpuOk(On(Drop(cpu.queues, t.entity[pid].prio, pid), cpu.entities), c, Unreadied(t, pid))
  {
    hide Distinct, Without;
    WithoutKeeps(cpu.queues[t.entity[pid].prio], pid);
  }

  lemma UnreadyTaskAt(cpu: Cpu, t: Tasks, pid: nat, prio: nat, q: nat)
    requires TaskAt(cpu, q, t) && prio < LEVELS && Distinct(cpu.queues[prio])
    ensures TaskAt(On(Drop(cpu.queues, prio, pid), cpu.entities), q, Unreadied(t, pid))
  {
    hide Distinct, Without;
    WithoutKeeps(cpu.queues[prio], pid);
  }

  lemma UnreadyPlaced(view: seq<Cpu>, t: Tasks, c: nat, pid: nat)
    requires Placed(view, t) && pid in t.home && t.home[pid] == c
    ensures c < |view| && view[c].On? && |view[c].queues| == LEVELS && pid in t.entity && t.entity[pid].prio < LEVELS
    ensures Placed(view[c := On(Drop(view[c].queues, t.entity[pid].prio, pid), view[c].entities)], Unreadied(t, pid))
  {
    hide CpuOk, TaskAt, Drop;
    HomeShape(view, t, pid, c);
    CpuShape(view, t, c);
    var cpu := view[c];
    var prio := t.entity[pid].prio;
    var next := On(Drop(cpu.queues, prio, pid), cpu.entities);
    var u := Unreadied(t, pid);
    UnreadyCpu(cpu, t, c, pid);
    forall q: nat | q in u.home && u.home[q] == c ensures TaskAt(next, q, u) {
      assert TaskOk(view, q, t);
      UnreadyTaskAt(cpu, t, pid, prio, q);
    }
    PlacedUpdate(view, c, next, t, u);
  }

  lemma UnreadyKeeps(view: seq<Cpu>, t: Tasks, c: nat, pid: nat)
    requires Balanced(view, t) && pid in t.home && t.home[pid] == c
    ensures c < |view| && view[c].On? && |view[c].queues| == LEVELS && pid in t.entity && t.entity[pid].prio < LEVELS
    ensures Balanced(view[c := On(Drop(view[c].queues, t.entity[pid].prio, pid), view[c].entities)], Unreadied(t, pid))
  {
    hide Queued, TotalLength, Placed, Drop;
    UnreadyPlaced(view, t, c, pid);
    CpuShape(view, t, c);
    var prio := t.entity[pid].prio;
    ReadyIffQueued(view, t, pid, c, prio);
    QueuedDrop(view[c].queues, prio, pid);
    QueuedUpdate(view, c, On(Drop(view[c].queues, prio, pid), view[c].entities));
  }

  lemma {:induction false} WithoutAbsent(q: seq<nat>, pid: nat)
    requires pid !in q
    ensures Without(q, pid) == q
  {
    if q == [] {
    } else {
      WithoutAbsent(q[..|q| - 1], pid);
    }
  }

  /** Popping the head takes that task out of the queue. */
  lemma {:induction false} WithoutHead(q: seq<nat>)
    requires Distinct(q) && q != []
    ensures Without(q, q[0]) == q[1..]
  {
    var front := q[..|q| - 1];
    if |q| == 1 {
    } else {
      WithoutHead(front);
      assert q[1..] == front[1..] + [q[|q| - 1]];
    }
  }

  /** The head of the first non-empty level is a ready task of that CPU, and none of its ready tasks is more urgent. */
  lemma HeadIsMostUrgent(view: seq<Cpu>, t: Tasks, c: nat, prio: nat)
    requires Placed(view, t) && c < |view| && view[c].On? && prio < |view[c].queues| && view[c].queues[prio] != []
    requires forall i :: 0 <= i < prio ==> view[c].queues[i] == []
    ensures var pid := view[c].queues[prio][0];
            && pid in t.ready && t.home[pid] == c && t.entity[pid].prio == prio
            && Drop(view[c].queues, prio, pid) == view[c].queues[prio := view[c].queues[prio][1..]]
    ensures MostUrgent(t, c, view[c].queues[prio][0])
  {
    hide Placed, Without;
    var pid := view[c].queues[prio][0];
    ReadyIffQueued(view, t, pid, c, prio);
    CpuShape(view, t, c);
    WithoutHead(view[c].queues[prio]);
    ReadyHome(view, t);
    forall q: nat | q in t.ready && t.home[q] == c ensures t.entity[q].prio >= prio {
      HomeShape(view, t, q, c);
      ReadyIffQueued(view, t, q, c, t.entity[q].prio);
    }
  }

  /** `pid` waits on CPU `c`, and no task that waits there has a lower priority number. */
  ghost predicate MostUrgent(t: Tasks, c: nat, pid: nat) {
    && pid in t.ready && pid in t.home && t.home[pid] == c && pid in t.entity
    && forall q: nat :: q in t.ready && q in t.home && t.home[q] == c && q in t.entity ==>
      t.entity[pid].prio <= t.entity[q].prio
  }

  lemma NothingReady(view: seq<Cpu>, t: Tasks, c: nat)
    requires Placed(view, t) && c < |view| && view[c].On?
    requires forall i :: 0 <= i < |view[c].queues| ==> view[c].queues[i] == []
    ensures forall q: nat :: q in t.ready && q in t.home ==> t.home[q] != c
  {
    hide Placed;
    forall q: nat | q in t.ready && q in t.home && t.home[q] == c ensures false {
      HomeShape(view, t, q, c);
      ReadyIffQueued(view, t, q, c, t.entity[q].prio);
    }
  }

  /** Moving a task to another CPU changes where it lives and nothing else. */
  lemma MoveKeepsTasks(t: Tasks, pid: nat, c: nat)
    requires pid in t.ready && pid in t.home && pid in t.entity
    ensures Added(Removed(t, pid), pid, c, t.entity[pid]) == t.(home := t.home[pid := c])
  {
    assert (t.home - {pid})[pid := c] == t.home[pid := c];
    assert (t.entity - {pid})[pid := t.entity[pid]] == t.entity;
    assert t.ready - {pid} + {pid} == t.ready;
  }

  // ---- Loads ----

  /** The tasks that wait on CPU `c`. */
  ghost function ReadyAt(t: Tasks, c: nat): set<nat> {
    set pid: nat | pid in t.ready && pid in t.home && t.home[pid] == c
  }

  /** Those of them at level `k` or a later one. */
  ghost function ReadyFrom(t: Tasks, c: nat, k: nat): set<nat> {
    set pid: nat | pid in ReadyAt(t, c) && pid in t.entity && t.entity[pid].prio >= k
  }

  lemma {:induction false} DistinctCount(q: seq<nat>)
    requires Distinct(q)
    ensures |set x: nat | x in q| == |q|
  {
    if q == [] {
    } else {
      var front, last := q[..|q| - 1], q[|q| - 1];
      DistinctCount(front);
      assert q == front + [last];
      assert (set x: nat | x in q) == (set x: nat | x in front) + {last};
    }
  }

  lemma {:induction false} LevelsCount(view: seq<Cpu>, t: Tasks, c: nat, k: nat)
    requires Placed(view, t) && c < |view| && view[c].On? && k <= LEVELS
    ensures |view[c].queues| == LEVELS && TotalLength(view[c].queues[k..]) == |ReadyFrom(t, c, k)|
    decreases LEVELS - k
  {
    hide Placed, Distinct;
    CpuShape(view, t, c);
    ReadyHome(view, t);
    forall pid: nat | pid in t.home && t.home[pid] == c ensures pid in t.entity && t.entity[pid].prio < LEVELS {
      HomeShape(view, t, pid, c);
    }
    if k == LEVELS {
      assert ReadyFrom(t, c, k) == {};
    } else {
      var queue := view[c].queues[k];
      LevelsCount(view, t, c, k + 1);
      DistinctCount(queue);
      forall pid: nat ensures pid in queue <==> pid in ReadyFrom(t, c, k) && t.entity[pid].prio == k {
        ReadyIffQueued(view, t, pid, c, k);
      }
      assert ReadyFrom(t, c, k) == (set pid: nat | pid in queue) + ReadyFrom(t, c, k + 1);
      assert view[c].queues[k..][1..] == view[c].queues[k + 1..];
    }
  }

  /** A CPU has as many tasks queued as wait there. */
  lemma QueuedIsReadyAt(view: seq<Cpu>, t: Tasks, c: nat)
    requires Placed(view, t) && c < |view| && view[c].On?
    ensures TotalLength(view[c].queues) == |ReadyAt(t, c)|
  {
    hide Placed, TotalLength;
    LevelsCount(view, t, c, 0);
    assert view[c].queues[0..] == view[c].queues;
    forall pid: nat | pid in ReadyAt(t, c) ensures pid in t.entity { HomeShape(view, t, pid, c); }
    assert ReadyFrom(t, c, 0) == ReadyAt(t, c);
  }
}
