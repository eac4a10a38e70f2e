/** Runs of the scheduler that show what its promises leave out. */
module SchedulerExamples {
  import opened Wrappers
  import opened RunQueues
  import opened Placement
  import opened Scheduler
  import opened StealSections
  import opened SchedulerRuns
  import opened TurnOrder

  ghost predicate OnlyFirst(rqs: seq<RunQueue?>) {
    |rqs| == MAX_CPUS && forall c :: 0 <= c < MAX_CPUS ==> (rqs[c] != null <==> c == 0)
  }

  lemma {:induction false} NobodyRuns(rqs: seq<RunQueue?>)
    requires forall c :: 0 <= c < |rqs| ==> rqs[c] == null
    ensures TotalRunning(rqs) == 0
  {
    if rqs == [] {
    } else {
      NobodyRuns(rqs[1..]);
    }
  }

  /** With run queues on CPU 0 only, it runs everything, and new tasks go there. */
  lemma FirstRunsAll(s: Scheduler)
    requires s.Valid() && OnlyFirst(s.rqs) && |s.tasks.ready| < U32_MAX
    ensures s.rqs[0].nrRunning == |s.tasks.ready|
    ensures forall c: nat :: s.LeastLoaded(c, 2) ==> c == 0
  {
    hide Balanced, s.Separate;
    s.RunningIsReady();
    NobodyRuns(s.rqs[1..]);
    forall c: nat | s.LeastLoaded(c, 2) ensures c == 0 { assert s.Load(c) <= s.Load(0); }
  }

  /** Two tasks wait on CPU 0. */
  method BootTwo() returns (s: Scheduler)
    ensures s.Valid() && OnlyFirst(s.rqs) && fresh(s) && fresh(s.Queues())
    ensures s.tasks.ready == {1, 2} && s.tasks.entity.Keys == {1, 2}
  {
    hide Balanced, AfterAdd, Placed, Indexed;
    s := new Scheduler({0});
    hide s.Separate, s.LeastLoaded;
    FirstRunsAll(s);
    var c := s.AddTask(1, 120, 0, 2);
    FirstRunsAll(s);
    c := s.AddTask(2, 120, 0, 2);
  }

  /**
   Only CPU 0 has a run queue. With two CPUs counted and two tasks waiting, a steal by
   CPU 1 takes one of them and loses it.
   */
  method BootSteal() returns (s: Scheduler, stolen: Option<nat>)
    ensures s.Valid() && OnlyFirst(s.rqs)
    ensures stolen.Some? && stolen.value in {1, 2} && s.tasks.entity.Keys == {1, 2} - {stolen.value}
  {
    hide Balanced, AfterAdd, AfterRemove, Placed, Indexed;
    s := BootTwo();
    hide s.Separate, s.LeastLoaded;
    FirstRunsAll(s);
    assert s.Other(1, 2, 0);
    ghost var victim;
    stolen, victim := s.WorkSteal(1, 2);
  }

  /**
   Two CPUs have run queues. A task that is started again while it waits goes to the other
   CPU and is placed twice: stopping by a signal leaves it queued, and continuing it starts it again.
   */
  method DoubledTask() returns (s: Scheduler, first: nat, second: nat)
    ensures first == 0 && second == 1 && !s.Valid() && forall u :: !Placed(s.View(), u)
  {
    hide Balanced, AfterAdd, Placed, Indexed;
    s := new Scheduler({0, 1});
    hide s.Separate, s.LeastLoaded, s.NothingToSteal, s.IsBusiest, Calm, Victim;
    ghost var online := Online(s.rqs);
    EmptyLoads(s.tasks, online);
    BestIsChosen(s, 2);
    first := s.AddTask(1, 120, 0, 2);
    OneLoad(s.tasks, online, 1);
    BestIsChosen(s, 2);
    second := s.AddTask(1, 120, 0, 2);
  }

  lemma BestIsChosen(s: Scheduler, n: nat)
    requires s.Valid()
    ensures forall c: nat :: c < MAX_CPUS && s.LeastLoaded(c, n) ==> Chosen(s.tasks, Online(s.rqs), n, c)
  {
    LoadsFollow(s);
  }

  lemma EmptyLoads(t: Tasks, online: set<nat>)
    requires t.ready == {} && 0 in online
    ensures forall c: nat :: Chosen(t, online, 2, c) ==> c == 0
  {
    assert ReadyAt(t, 0) == {};
    forall c: nat | Chosen(t, online, 2, c) ensures c == 0 {
      assert c > 0 ==> LoadAt(t, online, c) < LoadAt(t, online, 0);
    }
  }

  lemma OneLoad(t: Tasks, online: set<nat>, pid: nat)
    requires t.ready == {pid} && pid in t.home && t.home[pid] == 0 && 0 in online && 1 in online
    ensures forall c: nat :: Chosen(t, online, 2, c) ==> c == 1
  {
    assert ReadyAt(t, 0) == {pid} && ReadyAt(t, 1) == {};
    forall c: nat | Chosen(t, online, 2, c) ensures c == 1 {
      assert LoadAt(t, online, c) <= LoadAt(t, online, 1) < LoadAt(t, online, 0);
    }
  }

  /** Two CPUs have run queues, and two tasks wait on CPU 0. */
  method TwoWaiting() returns (s: Scheduler)
    ensures s.Valid() && s.tasks.ready == {1, 2} && s.tasks.home == map[1 := 0, 2 := 0] && s.rqs[1] != null
  {
    hide Balanced, AfterAdd, Placed, Indexed;
    s := new Scheduler({0, 1});
    hide s.Separate;
    var c := s.AddTask(1, 120, 0, 1);
    assert s.tasks.ready == {1} && s.tasks.home == map[1 := 0];
    c := s.AddTask(2, 120, 0, 1);
    assert s.tasks.ready == {1, 2};
  }

  /** A steal by CPU 1 during which the stolen task is woken places it twice. */
  method RacingSteal() returns (s: Scheduler)
    ensures s.Valid() && s.tasks.ready == {1, 2} && s.tasks.home == map[1 := 0, 2 := 0]
    ensures !Sound(StealSections.Steal(s.View(), s.tasks, 0, 1, 1, [StealSections.Wake(1)], []))
  {
    hide Balanced, Sound, StealSections.Steal;
    s := TwoWaiting();
    var ops := [StealSections.Wake(1)];
    assert ops[0].pid == 1;
    StealIff(s.View(), s.tasks, 0, 1, 1, ops, []);
  }

  /** A steal by CPU 1 that misses a stop of the stolen task: it is there afterwards. */
  method MissedStop() returns (s: Scheduler)
    ensures s.Valid() && s.tasks.ready == {1, 2} && s.tasks.home == map[1 := 0, 2 := 0]
    ensures !Gone(StealSections.Steal(s.View(), s.tasks, 0, 1, 1, [], [StealSections.Stop(1)]), 1)
  {
    hide Balanced, Gone, StealSections.Steal;
    s := TwoWaiting();
    StopObeyedIff(s.View(), s.tasks, 0, 1, 1, [], [StealSections.Stop(1)]);
  }

  /** Of two tasks started one after the other at one level, the first is picked. */
  method FirstServed() returns (picked: Option<nat>)
    ensures picked == Some(1)
  {
    hide Balanced, Placed, InTurn, Allowed, Doubles, Later, TotalRunning, Indexed;
    var s := new Scheduler({0});
    ghost var online := Online(s.rqs);
    ghost var m := Started(s);
    FreshStart(m, 1, online);
    var first := Serve(s, Start(1, 120, 0, 1), m);
    OnlyCpu(m, Start(1, 120, 0, 1), first, online);
    m := Later(m, Start(1, 120, 0, 1), first, online);
    FreshStart(m, 2, online);
    var second := Serve(s, Start(2, 120, 0, 1), m);
    OnlyCpu(m, Start(2, 120, 0, 1), second, online);
    m := Later(m, Start(2, 120, 0, 1), second, online);
    NotAStart(m, online);
    picked := Serve(s, Pick(0), m);
    FirstIsEldest(m, picked, online);
  }

  lemma Started(s: Scheduler) returns (m: Moment)
    requires s.Valid() && s.tasks == Tasks(map[], map[], {})
    ensures Keeps(s, m) && m.tasks == s.tasks
  {
    var since, now := TimesExist(s.View(), s.tasks);
    m := Moment(s.tasks, since, now);
  }

  lemma FreshStart(m: Moment, pid: nat, online: set<nat>)
    requires pid !in m.tasks.home
    ensures !Doubles(m.tasks, Start(pid, 120, 0, 1), online)
  {
  }

  lemma NotAStart(m: Moment, online: set<nat>)
    ensures !Doubles(m.tasks, Pick(0), online)
  {
  }

  /** With one CPU counted, that is where the task goes, and it begins to wait now. */
  lemma OnlyCpu(m: Moment, op: Op, r: Option<nat>, online: set<nat>)
    requires op.Start? && op.ncpus == 1 && 0 in online && Allowed(m, op, r, online) && op.pid !in m.tasks.ready
    ensures var next := Later(m, op, r, online);
      && next.tasks == Added(m.tasks, op.pid, 0, NewEntity(op.pid, op.prio, op.policy))
      && next.since == m.since[op.pid := m.now] && next.now == m.now + 1
  {
  }

  lemma FirstIsEldest(m: Moment, r: Option<nat>, online: set<nat>)
    requires Allowed(m, Pick(0), r, online) && 0 in online
    requires m.tasks.ready == {1, 2} && m.tasks.home == map[1 := 0, 2 := 0] && m.tasks.entity.Keys == {1, 2}
    requires m.tasks.entity[1].prio == m.tasks.entity[2].prio == 120
    requires 1 in m.since && 2 in m.since && m.since[1] < m.since[2]
    ensures r == Some(1)
  {
    assert 1 in ReadyAt(m.tasks, 0) && 2 in ReadyAt(m.tasks, 0);
  }
}
