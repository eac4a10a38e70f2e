/**
 Whole runs of the scheduler, on any set of CPUs with run queues. The books alone make an
 abstract machine: the load of a CPU is the number of tasks that wait there, and a call may
 give a result only if the books allow it. Every run of the real queues, bitmaps and counts
 is a run of that machine. The books also note when each task last began to wait; what a CPU
 runs next, or loses to another one, is always the most urgent task that has waited longest.

 Which tasks exist depends on the tasks started, stopped and re-prioritised, and on two ways
 of losing one: a start on a CPU without a run queue, and a steal by such a CPU. A run
 conserves tasks exactly when neither happens.
 */
module SchedulerRuns {
  import opened Wrappers
  import opened RunQueues
  import opened Placement
  import opened Scheduler
  import opened TurnOrder

  datatype Op =
    | Start(pid: nat, prio: nat, policy: nat, ncpus: nat)
    | Stop(pid: nat)
    | Wake(pid: nat)
    | SetPrio(pid: nat, prio: nat)
    | Pick(cpu: nat)
    | Steal(cpu: nat, ncpus: nat)

  /** What callers owe: levels and CPUs exist. */
  predicate Legal(op: Op) {
    match op
    case Start(_, prio, _, _) => prio < LEVELS
    case SetPrio(_, prio) => prio < LEVELS
    case Pick(cpu) => cpu < MAX_CPUS
    case Steal(cpu, _) => cpu < MAX_CPUS
    case _ => true
  }

  // ---- The abstract machine; `online` are the CPUs with a run queue ----

  /** The books, when each task last began to wait, and the time. */
  datatype Moment = Moment(tasks: Tasks, since: map<nat, nat>, now: nat)

  ghost function LoadAt(t: Tasks, online: set<nat>, c: nat): nat {
    if c in online then Min(|ReadyAt(t, c)|, U32_MAX) else U32_MAX
  }

  /** The first of the CPUs on which the fewest tasks wait. */
  ghost predicate Chosen(t: Tasks, online: set<nat>, ncpus: nat, best: nat) {
    && (best == 0 || best < Min(ncpus, MAX_CPUS))
    && (forall c: nat :: c < Min(ncpus, MAX_CPUS) ==> LoadAt(t, online, best) <= LoadAt(t, online, c))
    && (forall c: nat :: c < best ==> LoadAt(t, online, best) < LoadAt(t, online, c))
  }

  ghost predicate Rival(online: set<nat>, my: nat, ncpus: nat, c: nat) {
    c < Min(ncpus, MAX_CPUS) && c != my && c in online
  }

  /** No other CPU has two tasks waiting. */
  ghost predicate Calm(t: Tasks, online: set<nat>, my: nat, ncpus: nat) {
    forall c: nat :: Rival(online, my, ncpus, c) ==> |ReadyAt(t, c)| < 2
  }

  /** The first of the other CPUs on which the most tasks wait. */
  ghost predicate Victim(t: Tasks, online: set<nat>, my: nat, ncpus: nat, v: nat) {
    && Rival(online, my, ncpus, v)
    && forall c: nat :: Rival(online, my, ncpus, c) ==>
         |ReadyAt(t, c)| <= |ReadyAt(t, v)| && (|ReadyAt(t, c)| == |ReadyAt(t, v)| ==> v <= c)
  }

  /** Of the most urgent tasks that wait on `c`, the one that began to wait first. */
  ghost predicate Eldest(t: Tasks, since: map<nat, nat>, c: nat, pid: nat) {
    && MostUrgent(t, c, pid) && pid in since
    && forall q :: q in ReadyAt(t, c) && q in t.entity && t.entity[q].prio == t.entity[pid].prio ==>
         q in since && since[pid] <= since[q]
  }

  /** The result of a start is the CPU chosen, that of a pick or a steal the task taken. */
  ghost predicate Allowed(m: Moment, op: Op, result: Option<nat>, online: set<nat>) {
    var t := m.tasks;
    match op
    case Start(_, _, _, ncpus) => result.Some? && Chosen(t, online, ncpus, result.value)
    case Pick(cpu) =>
      if cpu !in online then result.None?
      else if result.None? then ReadyAt(t, cpu) == {} else Eldest(t, m.since, cpu, result.value)
    case Steal(cpu, ncpus) =>
      && (result.None? <==> Calm(t, online, cpu, ncpus))
      && (result.Some? ==> exists v :: Victim(t, online, cpu, ncpus, v) && Eldest(t, m.since, v, result.value))
    case _ => result.None?
  }

  /** The task that begins to wait by the call; one that waits already keeps its turn, unless it changes queues. */
  ghost function Begins(t: Tasks, op: Op, result: Option<nat>, online: set<nat>): Option<nat> {
    match op
    case Start(pid, _, _, _) =>
      if result.Some? && result.value in online && pid !in t.ready then Some(pid) else None
    case Wake(pid) => if pid in t.home && pid !in t.ready then Some(pid) else None
    case SetPrio(pid, _) => if pid in t.home then Some(pid) else None
    case Steal(cpu, _) => if cpu in online then result else None
    case _ => None
  }

  ghost function Later(m: Moment, op: Op, result: Option<nat>, online: set<nat>): Moment {
    var began := Begins(m.tasks, op, result, online);
    var since := if began.Some? then m.since[began.value := m.now] else m.since;
    Moment(After(m.tasks, op, result, online), since, m.now + 1)
  }

  ghost function After(t: Tasks, op: Op, result: Option<nat>, online: set<nat>): Tasks {
    match op
    case Start(pid, prio, policy, _) =>
      if result.Some? && result.value in online then Added(t, pid, result.value, NewEntity(pid, prio, policy)) else t
    case Stop(pid) => Removed(t, pid)
    case Wake(pid) => Readied(t, pid)
    case SetPrio(pid, prio) => Reprioritised(t, pid, prio)
    case Pick(_) => if result.Some? then Unreadied(t, result.value) else t
    case Steal(cpu, _) =>
      if result.None? then t
      else if cpu in online then t.(home := t.home[result.value := cpu]) else Removed(t, result.value)
  }

  /** A start of a task whose entity is elsewhere, or which waits at another level: it would be placed twice. */
  ghost predicate Doubles(t: Tasks, op: Op, online: set<nat>) {
    op.Start? && exists c :: Chosen(t, online, op.ncpus, c) && c in online && !CanAdd(t, op.pid, c, op.prio)
  }

  lemma OneChosen(t: Tasks, online: set<nat>, ncpus: nat, c: nat, d: nat)
    requires Chosen(t, online, ncpus, c) && Chosen(t, online, ncpus, d)
    ensures c == d
  {
    assert c < d ==> LoadAt(t, online, d) < LoadAt(t, online, c);
    assert d < c ==> LoadAt(t, online, c) < LoadAt(t, online, d);
  }

  // ---- The queues follow the books ----

  ghost function Online(rqs: seq<RunQueue?>): set<nat> {
    set c: nat | c < |rqs| && rqs[c] != null
  }

  lemma RunningIsReadyAt(s: Scheduler, c: nat)
    requires s.Valid() && c < MAX_CPUS && s.rqs[c] != null
    ensures s.rqs[c].nrRunning == |ReadyAt(s.tasks, c)|
  {
    hide Placed;
    IndexedShape(s.rqs[c].queues, s.rqs[c].bitmap, s.rqs[c].nrRunning);
    QueuedIsReadyAt(s.View(), s.tasks, c);
  }

  /** The CPU a start chooses, and whether and where there is something to steal, follow from the books. */
  lemma LoadsFollow(s: Scheduler)
    requires s.Valid()
    ensures |s.rqs| == MAX_CPUS && s.tasks.home.Keys == s.tasks.entity.Keys && s.tasks.ready <= s.tasks.home.Keys
    ensures forall c: nat, n: nat :: c < MAX_CPUS && s.LeastLoaded(c, n) ==> Chosen(s.tasks, Online(s.rqs), n, c)
    ensures forall my: nat, n: nat :: s.NothingToSteal(my, n) <==> Calm(s.tasks, Online(s.rqs), my, n)
    ensures forall my: nat, n: nat, v: nat :: s.IsBusiest(my, n, v) ==> Victim(s.tasks, Online(s.rqs), my, n, v)
  {
    ReadyHome(s.View(), s.tasks);
    hide Balanced, s.Separate, ReadyAt;
    ghost var t, online := s.tasks, Online(s.rqs);
    forall c: nat | c in online ensures s.rqs[c].nrRunning == |ReadyAt(t, c)| { RunningIsReadyAt(s, c); }
    assert forall c: nat :: c < MAX_CPUS ==> s.Load(c) == LoadAt(t, online, c);
    assert forall my: nat, n: nat, c: nat :: s.Other(my, n, c) <==> Rival(online, my, n, c);
  }

  /** The books are the scheduler's and the queues are in turn. */
  ghost predicate Keeps(s: Scheduler, m: Moment)
    reads s, s.rqs
  {
    s.Valid() && m.tasks == s.tasks && InTurn(s.View(), m.since, m.now)
  }

  lemma TakenIsEldest(view: seq<Cpu>, m: Moment, c: nat, pid: nat)
    requires Placed(view, m.tasks) && InTurn(view, m.since, m.now)
    requires MostUrgent(m.tasks, c, pid) && Waited(view, c, pid)
    ensures Eldest(m.tasks, m.since, c, pid)
  {
    hide Placed, InTurn;
    HomeShape(view, m.tasks, pid, c);
    HeadIsEldest(view, m.tasks, m.since, m.now, c, pid, pid);
    forall q | q in ReadyAt(m.tasks, c) && q in m.tasks.entity && m.tasks.entity[q].prio == m.tasks.entity[pid].prio
      ensures q in m.since && m.since[pid] <= m.since[q]
    {
      HeadIsEldest(view, m.tasks, m.since, m.now, c, pid, q);
    }
  }

  lemma RemoveTurn(view: seq<Cpu>, m: Moment, pid: nat)
    requires Placed(view, m.tasks) && InTurn(view, m.since, m.now) && pid in m.tasks.home
    ensures var c := m.tasks.home[pid];
      InTurn(AfterRemove(view, c, pid), m.since, m.now + 1) && InTurn(AfterPick(view, c, pid), m.since, m.now + 1)
  {
    hide Placed, InTurn, AfterRemove, AfterPick;
    var c := m.tasks.home[pid];
    TurnRemove(view, m.tasks, c, pid, m.since, m.now);
    TurnLater(AfterRemove(view, c, pid), m.since, m.now);
    TurnLater(AfterPick(view, c, pid), m.since, m.now);
  }

  method ServeSteal(s: Scheduler, cpu: nat, ncpus: nat, ghost m: Moment) returns (result: Option<nat>)
    requires Keeps(s, m) && cpu < MAX_CPUS
    modifies s, s.Queues()
    ensures var op, online := Steal(cpu, ncpus), Online(s.rqs);
      Allowed(m, op, result, online) && Keeps(s, Later(m, op, result, online))
  {
    hide s.Separate, AfterAdd, AfterRemove, Placed, Queued, s.NothingToSteal, s.IsBusiest, Calm, Victim;
    hide TotalRunning, Waited, InTurn, Eldest;
    LoadsFollow(s);
    ghost var view := s.View();
    TurnLater(view, m.since, m.now);
    ghost var victim;
    result, victim := s.WorkSteal(cpu, ncpus);
    if result.Some? {
      TakenIsEldest(view, m, victim, result.value);
      if s.rqs[cpu] != null {
        TurnMove(view, m.tasks, victim, cpu, result.value, m.since, m.now);
      } else {
        RemoveTurn(view, m, result.value);
      }
    }
  }

  method ServeStart(s: Scheduler, op: Op, ghost m: Moment) returns (result: Option<nat>)
    requires op.Start? && Keeps(s, m) && Legal(op) && !Doubles(s.tasks, op, Online(s.rqs))
    modifies s, s.Queues()
    ensures Allowed(m, op, result, Online(s.rqs)) && Keeps(s, Later(m, op, result, Online(s.rqs)))
  {
    hide s.Separate, AfterAdd, s.LeastLoaded, Placed, Queued, Chosen, CanAdd, InTurn, TotalRunning;
    hide s.NothingToSteal, s.IsBusiest, Calm, Victim;
    LoadsFollow(s);
    ghost var view := s.View();
    TurnLater(view, m.since, m.now);
    var c := s.AddTask(op.pid, op.prio, op.policy, op.ncpus);
    result := Some(c);
    if s.rqs[c] != null { TurnAdd(view, m.tasks, c, NewEntity(op.pid, op.prio, op.policy), m.since, m.now); }
  }

  method ServePick(s: Scheduler, cpu: nat, ghost m: Moment) returns (result: Option<nat>)
    requires Keeps(s, m) && cpu < MAX_CPUS
    modifies s, s.Queues()
    ensures Allowed(m, Pick(cpu), result, Online(s.rqs)) && Keeps(s, Later(m, Pick(cpu), result, Online(s.rqs)))
  {
    hide s.Separate, AfterPick, AfterRemove, Placed, Queued, Waited, InTurn, Eldest, TotalRunning;
    ghost var view := s.View();
    TurnLater(view, m.since, m.now);
    result := None;
    BooksShape(s);
    if s.rqs[cpu] != null {
      result := s.PickNext(cpu);
      if result.Some? {
        TakenIsEldest(view, m, cpu, result.value);
        RemoveTurn(view, m, result.value);
      }
    }
  }

  /** Stopping, waking and re-prioritising a task. */
  method ServeTask(s: Scheduler, op: Op, ghost m: Moment)
    requires (op.Stop? || op.Wake? || op.SetPrio?) && Keeps(s, m) && Legal(op)
    modifies s, s.Queues()
    ensures Keeps(s, Later(m, op, None, Online(s.rqs)))
  {
    hide s.Separate, AfterRemove, AfterReady, AfterSetPriority, AfterPick, Placed, Queued, InTurn, TotalRunning;
    ghost var view := s.View();
    TurnLater(view, m.since, m.now);
    match op {
      case Stop(pid) =>
        s.RemoveTask(pid);
        if pid in m.tasks.home { RemoveTurn(view, m, pid); }
      case Wake(pid) =>
        s.Enqueue(pid);
        if pid in m.tasks.home { TurnReady(view, m.tasks, m.tasks.home[pid], pid, m.since, m.now); }
      case SetPrio(pid, prio) =>
        BooksShape(s);
        s.SetPriority(pid, prio);
        if pid in m.tasks.home { TurnSetPriority(view, m.tasks, m.tasks.home[pid], pid, prio, m.since, m.now); }
    }
  }

  /** Serve a call that places no task twice. */
  method Serve(s: Scheduler, op: Op, ghost m: Moment) returns (result: Option<nat>)
    requires Keeps(s, m) && Legal(op) && !Doubles(s.tasks, op, Online(s.rqs))
    modifies s, s.Queues()
    ensures Allowed(m, op, result, Online(s.rqs)) && Keeps(s, Later(m, op, result, Online(s.rqs)))
  {
    hide Keeps, Later, Doubles;
    match op {
      case Start(_, _, _, _) => result := ServeStart(s, op, m);
      case Pick(cpu) => result := ServePick(s, cpu, m);
      case Steal(cpu, ncpus) => result := ServeSteal(s, cpu, ncpus, m);
      case _ =>
        ServeTask(s, op, m);
        result := None;
    }
  }

  /** Decide whether the next call would place a task twice. */
  method WouldDouble(s: Scheduler, op: Op) returns (b: bool)
    requires s.Valid() && Legal(op)
    ensures b <==> Doubles(s.tasks, op, Online(s.rqs))
  {
    hide s.Separate, s.LeastLoaded, Placed, Chosen, s.NothingToSteal, s.IsBusiest, Calm, Victim;
    if !op.Start? { return false; }
    LoadsFollow(s);
    var c := s.SelectCpu(op.ncpus);
    ghost var t, online := s.tasks, Online(s.rqs);
    BestExists(s, op.ncpus, c);
    forall d | Chosen(t, online, op.ncpus, d) ensures d == c { OneChosen(t, online, op.ncpus, c, d); }
    var found := s.Find(op.pid);
    if s.rqs[c] == null || found.None? { return false; }
    HomeBooks(s.View(), t, op.pid, found.value);
    var rq := s.rqs[found.value];
    var prio := rq.entities[op.pid].prio;
    assert s.View()[found.value] == ViewOf(rq);
    ReadyIffQueued(s.View(), t, op.pid, found.value, prio);
    b := found.value != c || (op.pid in rq.queues[prio] && prio != op.prio);
  }

  lemma BestExists(s: Scheduler, ncpus: nat, c: nat)
    requires s.Valid() && s.LeastLoaded(c, ncpus)
    ensures c < MAX_CPUS && Chosen(s.tasks, Online(s.rqs), ncpus, c)
  {
    LoadsFollow(s);
  }

  // ---- Runs ----

  /** One moment for every point of the run, each following from the one before. */
  ghost predicate Runs(trace: seq<Moment>, ops: seq<Op>, results: seq<Option<nat>>, online: set<nat>) {
    && |trace| == |ops| + 1 == |results| + 1
    && (forall i :: 0 <= i < |trace| ==> BooksOk(trace[i].tasks))
    && (forall i :: 0 <= i < |ops| ==>
          && !Doubles(trace[i].tasks, ops[i], online) && Allowed(trace[i], ops[i], results[i], online)
          && trace[i + 1] == Later(trace[i], ops[i], results[i], online))
  }

  ghost predicate BooksOk(t: Tasks) {
    t.home.Keys == t.entity.Keys && t.ready <= t.home.Keys
  }

  lemma RunsOn(trace: seq<Moment>, ops: seq<Op>, results: seq<Option<nat>>, online: set<nat>, op: Op, r: Option<nat>)
    requires Runs(trace, ops, results, online)
    requires !Doubles(trace[|ops|].tasks, op, online) && Allowed(trace[|ops|], op, r, online)
    requires BooksOk(Later(trace[|ops|], op, r, online).tasks)
    ensures Runs(trace + [Later(trace[|ops|], op, r, online)], ops + [op], results + [r], online)
  {
    hide Doubles, Allowed, Later, BooksOk;
  }

  /**
   Any calls, on any CPUs, up to a start that would place a task twice, are a run of the
   abstract machine. Tasks that wait when the run begins have times before it, in an order
   of their own.
   */
  method Replay(s: Scheduler, ops: seq<Op>) returns (results: seq<Option<nat>>, ghost trace: seq<Moment>)
    requires s.Valid() && forall i :: 0 <= i < |ops| ==> Legal(ops[i])
    modifies s, s.Queues()
    ensures s.Valid() && |results| <= |ops| && Runs(trace, ops[..|results|], results, Online(s.rqs))
    ensures trace[0].tasks == old(s.tasks) && trace[|results|].tasks == s.tasks
    ensures forall pid :: pid in old(s.tasks).ready ==> pid in trace[0].since && trace[0].since[pid] < trace[0].now
    ensures |results| < |ops| ==> Doubles(s.tasks, ops[|results|], Online(s.rqs))
    ensures TotalRunning(s.rqs) == |s.tasks.ready|
  {
    hide Legal, TotalRunning, Indexed, s.Separate, Online, Doubles, Allowed, Later, Placed, Queued, InTurn, BooksOk;
    ghost var since, now := TimesExist(s.View(), s.tasks);
    results, trace := [], [Moment(s.tasks, since, now)];
    WaitersKnown(s.View(), s.tasks, since, now);
    BooksShape(s);
    for i := 0 to |ops|
      invariant |results| == i && |trace| == i + 1 && Keeps(s, trace[i])
      invariant Runs(trace, ops[..i], results, Online(s.rqs))
      invariant trace[0] == Moment(old(s.tasks), since, now)
    {
      var double := WouldDouble(s, ops[i]);
      if double { s.RunningIsReady(); return; }
      var result := Serve(s, ops[i], trace[i]);
      BooksShape(s);
      RunsOn(trace, ops[..i], results, Online(s.rqs), ops[i], result);
      assert ops[..i + 1] == ops[..i] + [ops[i]];
      trace := trace + [Later(trace[i], ops[i], result, Online(s.rqs))];
      results := results + [result];
    }
    s.RunningIsReady();
  }

  lemma WaitersKnown(view: seq<Cpu>, t: Tasks, since: map<nat, nat>, now: nat)
    requires Placed(view, t) && InTurn(view, since, now)
    ensures forall pid :: pid in t.ready ==> pid in since && since[pid] < now
  {
    hide Placed;
    ReadyHome(view, t);
    forall pid | pid in t.ready ensures pid in since && since[pid] < now {
      var c := t.home[pid];
      HomeShape(view, t, pid, c);
      ReadyIffQueued(view, t, pid, c, t.entity[pid].prio);
      assert Lined(view[c].queues[t.entity[pid].prio], since, now);
    }
  }

  lemma BooksShape(s: Scheduler)
    requires s.Valid()
    ensures BooksOk(s.tasks) && |s.rqs| == MAX_CPUS
  {
    ReadyHome(s.View(), s.tasks);
  }

  /** What is started waits where the start chose, at the level and with the policy and slice asked for. */
  lemma StartedAs(m: Moment, op: Op, r: Option<nat>, online: set<nat>)
    requires op.Start? && r.Some? && r.value in online
    ensures var t := Later(m, op, r, online).tasks;
      && op.pid in t.ready && op.pid in t.home && t.home[op.pid] == r.value && op.pid in t.entity
      && var e := t.entity[op.pid];
        && e.pid == op.pid && e.prio == op.prio && e.staticPrio == op.prio && e.policy == op.policy
        && e.timesliceUs == TimesliceFor(op.prio, op.policy)
  {
  }

  /** A task whose priority is set waits at that level, with its policy and the slice of the level. */
  lemma MovedTo(m: Moment, op: Op, online: set<nat>)
    requires op.SetPrio? && op.pid in m.tasks.home && op.pid in m.tasks.entity
    ensures var t := Later(m, op, None, online).tasks;
      && op.pid in t.ready && t.home == m.tasks.home && op.pid in t.entity
      && var was, e := m.tasks.entity[op.pid], t.entity[op.pid];
        e.prio == op.prio && e.policy == was.policy && e.timesliceUs == TimesliceFor(op.prio, was.policy)
  {
  }

  // ---- Conservation ----

  /** The tasks that should exist after `op`. */
  ghost function Ideal(m: map<nat, Entity>, op: Op): map<nat, Entity> {
    match op
    case Start(pid, prio, policy, _) => m[pid := NewEntity(pid, prio, policy)]
    case Stop(pid) => m - {pid}
    case SetPrio(pid, prio) =>
      if pid in m then m[pid := m[pid].(prio := prio, timesliceUs := TimesliceFor(prio, m[pid].policy))] else m
    case _ => m
  }

  ghost function IdealAfter(m: map<nat, Entity>, ops: seq<Op>): map<nat, Entity> {
    if ops == [] then m else Ideal(IdealAfter(m, ops[..|ops| - 1]), ops[|ops| - 1])
  }

  /** The call will lose a task: every CPU a start may choose is off or full, or the stealing CPU is off. */
  ghost predicate Loses(t: Tasks, op: Op, online: set<nat>) {
    match op
    case Start(_, _, _, ncpus) =>
      0 !in online && forall c: nat :: c < Min(ncpus, MAX_CPUS) && c in online ==> |ReadyAt(t, c)| >= U32_MAX
    case Steal(cpu, ncpus) => cpu !in online && !Calm(t, online, cpu, ncpus)
    case _ => false
  }

  /** A start chooses a CPU that is off exactly when CPU 0 is off and no other will do. */
  lemma StartLostIff(t: Tasks, op: Op, online: set<nat>, c: nat)
    requires op.Start? && Chosen(t, online, op.ncpus, c)
    ensures c !in online <==> Loses(t, op, online)
  {
    hide ReadyAt;
    assert c > 0 ==> LoadAt(t, online, c) < LoadAt(t, online, 0);
    if c !in online {
      forall k: nat | k < Min(op.ncpus, MAX_CPUS) && k in online ensures |ReadyAt(t, k)| >= U32_MAX {
        assert LoadAt(t, online, c) <= LoadAt(t, online, k);
      }
    }
  }

  /** With a run queue on CPU 0 no start is dropped. */
  lemma StartsLand(t: Tasks, op: Op, online: set<nat>, c: nat)
    requires op.Start? && Chosen(t, online, op.ncpus, c) && 0 in online
    ensures c in online
  {
    StartLostIff(t, op, online, c);
  }

  lemma StepIdeal(m: Moment, op: Op, r: Option<nat>, online: set<nat>)
    requires BooksOk(m.tasks) && Allowed(m, op, r, online) && (op.Start? ==> op.pid !in m.tasks.entity)
    ensures var entity := Later(m, op, r, online).tasks.entity;
      && entity.Keys <= Ideal(m.tasks.entity, op).Keys
      && (entity == Ideal(m.tasks.entity, op) <==> !Loses(m.tasks, op, online))
  {
    var t := m.tasks;
    hide Chosen, Calm, Victim, ReadyAt;
    match op {
      case Start(pid, prio, policy, ncpus) =>
        StartLostIff(t, op, online, r.value);
        assert pid in Ideal(t.entity, op);
      case Steal(cpu, ncpus) =>
        if r.Some? { assert r.value in t.entity; }
      case _ =>
    }
  }

  /** Callers start a task only when it should not exist at the time. */
  ghost predicate StartsFresh(m: map<nat, Entity>, ops: seq<Op>) {
    forall i :: 0 <= i < |ops| && ops[i].Start? ==> ops[i].pid !in IdealAfter(m, ops[..i])
  }

  /** Losses only make the tasks fewer than they should be. */
  lemma {:induction false} KnownWithinIdeal(
      trace: seq<Moment>, ops: seq<Op>, results: seq<Option<nat>>, online: set<nat>, i: nat)
    requires Runs(trace, ops, results, online) && StartsFresh(trace[0].tasks.entity, ops) && i <= |ops|
    ensures trace[i].tasks.entity.Keys <= IdealAfter(trace[0].tasks.entity, ops[..i]).Keys
  {
    hide Allowed, Later, Loses, Doubles;
    if i == 0 {
    } else {
      KnownWithinIdeal(trace, ops, results, online, i - 1);
      assert ops[..i][..i - 1] == ops[..i - 1];
      StepIdeal(trace[i - 1], ops[i - 1], results[i - 1], online);
      IdealGrows(trace[i - 1].tasks.entity, IdealAfter(trace[0].tasks.entity, ops[..i - 1]), ops[i - 1]);
    }
  }

  lemma IdealGrows(m: map<nat, Entity>, n: map<nat, Entity>, op: Op)
    requires m.Keys <= n.Keys
    ensures Ideal(m, op).Keys <= Ideal(n, op).Keys
  {
  }

  /** At every point of the run exactly the tasks exist that should. */
  ghost predicate Conserves(trace: seq<Moment>, ops: seq<Op>)
    requires |trace| == |ops| + 1
  {
    forall i :: 0 <= i <= |ops| ==> trace[i].tasks.entity == IdealAfter(trace[0].tasks.entity, ops[..i])
  }

  /** A run conserves tasks exactly when no call of it is made where it loses one. */
  lemma ConservesIff(trace: seq<Moment>, ops: seq<Op>, results: seq<Option<nat>>, online: set<nat>)
    requires Runs(trace, ops, results, online) && StartsFresh(trace[0].tasks.entity, ops)
    ensures Conserves(trace, ops) <==> forall i :: 0 <= i < |ops| ==> !Loses(trace[i].tasks, ops[i], online)
  {
    hide Allowed, Later, Loses, Doubles, Ideal;
    if forall i :: 0 <= i < |ops| ==> !Loses(trace[i].tasks, ops[i], online) {
      forall i | 0 <= i <= |ops| ensures trace[i].tasks.entity == IdealAfter(trace[0].tasks.entity, ops[..i]) {
        NoLoss(trace, ops, results, online, i);
      }
    }
    if Conserves(trace, ops) {
      forall i | 0 <= i < |ops| ensures !Loses(trace[i].tasks, ops[i], online) {
        assert ops[..i + 1][..i] == ops[..i];
        assert trace[i].tasks.entity == IdealAfter(trace[0].tasks.entity, ops[..i]);
        assert trace[i + 1].tasks.entity == IdealAfter(trace[0].tasks.entity, ops[..i + 1]);
        StepIdeal(trace[i], ops[i], results[i], online);
      }
    }
  }

  lemma {:induction false} NoLoss(
      trace: seq<Moment>, ops: seq<Op>, results: seq<Option<nat>>, online: set<nat>, i: nat)
    requires Runs(trace, ops, results, online) && StartsFresh(trace[0].tasks.entity, ops) && i <= |ops|
    requires forall i :: 0 <= i < |ops| ==> !Loses(trace[i].tasks, ops[i], online)
    ensures trace[i].tasks.entity == IdealAfter(trace[0].tasks.entity, ops[..i])
  {
    hide Allowed, Later, Loses, Doubles, Ideal;
    if i == 0 {
    } else {
      NoLoss(trace, ops, results, online, i - 1);
      assert ops[..i][..i - 1] == ops[..i - 1];
      StepIdeal(trace[i - 1], ops[i - 1], results[i - 1], online);
    }
  }

  /** As the kernel boots, with a run queue on CPU 0, only a steal for a CPU without one can lose a task. */
  lemma ConservesFromBoot(trace: seq<Moment>, ops: seq<Op>, results: seq<Option<nat>>, online: set<nat>)
    requires Runs(trace, ops, results, online) && StartsFresh(trace[0].tasks.entity, ops) && 0 in online
    ensures Conserves(trace, ops) <==>
      forall i :: 0 <= i < |ops| && ops[i].Steal? && ops[i].cpu !in online ==>
        Calm(trace[i].tasks, online, ops[i].cpu, ops[i].ncpus)
  {
    hide Runs, StartsFresh, Conserves, Calm;
    ConservesIff(trace, ops, results, online);
    assert |trace| == |ops| + 1 by { SameLength(trace, ops, results, online); }
  }

  lemma SameLength(trace: seq<Moment>, ops: seq<Op>, results: seq<Option<nat>>, online: set<nat>)
    requires Runs(trace, ops, results, online)
    ensures |trace| == |ops| + 1 == |results| + 1
  {
  }
}
