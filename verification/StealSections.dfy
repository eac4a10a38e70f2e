/**
 A steal takes its locks in three sections: pick a task from CPU `v`, remove its entity
 there, and add it on CPU `my`. Between them other CPUs may wake, re-prioritise or stop
 tasks. The steal leaves every task placed once exactly when the calls before the second
 section do not make the stolen task wait on `v` again, and a stop of it is obeyed exactly
 when it comes before the second section.
 */
module StealSections {
  import opened Wrappers
  import opened RunQueues
  import opened Placement

  // ---- What may come between ----

  datatype Between = Wake(pid: nat) | SetPrio(pid: nat, prio: nat) | Stop(pid: nat)

  ghost function ViewAfter(view: seq<Cpu>, t: Tasks, op: Between): seq<Cpu> {
    match t.Home(op.pid)
    case None => view
    case Some(c) =>
      match op
      case Wake(pid) => AfterReady(view, c, pid)
      case SetPrio(pid, prio) => AfterSetPriority(view, c, pid, prio)
      case Stop(pid) => AfterRemove(view, c, pid)
  }

  ghost function BooksAfter(t: Tasks, op: Between): Tasks {
    match op
    case Wake(pid) => Readied(t, pid)
    case SetPrio(pid, prio) => Reprioritised(t, pid, prio)
    case Stop(pid) => if pid in t.home then Removed(t, pid) else t
  }

  ghost predicate Levels(ops: seq<Between>) {
    forall i :: 0 <= i < |ops| && ops[i].SetPrio? ==> ops[i].prio < LEVELS
  }

  lemma BetweenKeeps(view: seq<Cpu>, t: Tasks, op: Between)
    requires Balanced(view, t) && (op.SetPrio? ==> op.prio < LEVELS)
    ensures Balanced(ViewAfter(view, t, op), BooksAfter(t, op))
  {
    hide Placed, Queued;
    ReadyHome(view, t);
    if op.pid in t.home {
      var c := t.home[op.pid];
      HomeShape(view, t, op.pid, c);
      match op {
        case Wake(pid) => ReadyKeeps(view, t, c, pid);
        case SetPrio(pid, prio) => ReprioritiseKeeps(view, t, c, pid, prio);
        case Stop(pid) => RemoveKeeps(view, t, c, pid);
      }
    }
  }

  /** The CPUs and the books after a sequence of calls. */
  ghost function RunView(view: seq<Cpu>, t: Tasks, ops: seq<Between>): seq<Cpu>
    decreases |ops|
  {
    if ops == [] then view else RunView(ViewAfter(view, t, ops[0]), BooksAfter(t, ops[0]), ops[1..])
  }

  ghost function RunBooks(t: Tasks, ops: seq<Between>): Tasks
    decreases |ops|
  {
    if ops == [] then t else RunBooks(BooksAfter(t, ops[0]), ops[1..])
  }

  lemma SameCpus(view: seq<Cpu>, t: Tasks, op: Between)
    ensures |ViewAfter(view, t, op)| == |view|
    ensures forall c :: 0 <= c < |view| ==> (ViewAfter(view, t, op)[c].On? <==> view[c].On?)
  {
  }

  lemma {:induction false} RunSameCpus(view: seq<Cpu>, t: Tasks, ops: seq<Between>)
    ensures |RunView(view, t, ops)| == |view|
    ensures forall c :: 0 <= c < |view| ==> (RunView(view, t, ops)[c].On? <==> view[c].On?)
    decreases |ops|
  {
    hide ViewAfter, BooksAfter;
    if ops == [] {
    } else {
      SameCpus(view, t, ops[0]);
      RunSameCpus(ViewAfter(view, t, ops[0]), BooksAfter(t, ops[0]), ops[1..]);
    }
  }

  lemma {:induction false} RunKeeps(view: seq<Cpu>, t: Tasks, ops: seq<Between>)
    requires Balanced(view, t) && Levels(ops)
    ensures Balanced(RunView(view, t, ops), RunBooks(t, ops))
    decreases |ops|
  {
    hide Balanced, ViewAfter, BooksAfter;
    if ops == [] {
    } else {
      BetweenKeeps(view, t, ops[0]);
      RunKeeps(ViewAfter(view, t, ops[0]), BooksAfter(t, ops[0]), ops[1..]);
    }
  }

  /** Where `pid` stands after the calls: gone if stopped, else at home as before, waiting if it was woken. */
  lemma {:induction false} RunPid(t: Tasks, ops: seq<Between>, pid: nat)
    requires t.ready <= t.home.Keys && t.home.Keys == t.entity.Keys
    ensures var u := RunBooks(t, ops);
      && (pid in u.home <==> pid in t.home && Stop(pid) !in ops)
      && (pid in u.home ==> u.home[pid] == t.home[pid])
      && (pid in u.ready <==> pid in u.home && (pid in t.ready || exists i :: 0 <= i < |ops| && ops[i].pid == pid))
    decreases |ops|
  {
    if ops == [] {
    } else {
      var rest := ops[1..];
      assert ops == [ops[0]] + rest;
      RunPid(BooksAfter(t, ops[0]), rest, pid);
      if i :| 0 <= i < |rest| && rest[i].pid == pid { assert ops[i + 1].pid == pid; }
      if i :| 0 <= i < |ops| && ops[i].pid == pid && i > 0 { assert rest[i - 1].pid == pid; }
    }
  }

  // ---- The last two sections, with calls between them ----

  /** The entity goes, whatever the queues hold. */
  ghost function AfterForget(view: seq<Cpu>, v: nat, pid: nat): seq<Cpu> {
    if v < |view| && view[v].On? then view[v := On(view[v].queues, view[v].entities - {pid})] else view
  }

  /** Remove the entity from `v`; if there was one, add it on `my` after the calls `late`. */
  ghost function Finish(view: seq<Cpu>, t: Tasks, v: nat, my: nat, pid: nat, late: seq<Between>): seq<Cpu> {
    if Holds(view, v, pid)
    then AfterAdd(RunView(AfterForget(view, v, pid), Removed(t, pid), late), my, view[v].entities[pid])
    else RunView(view, t, late)
  }

  /** With nothing between them the three sections are a move. */
  lemma SectionsMove(view: seq<Cpu>, t: Tasks, v: nat, my: nat, pid: nat)
    requires Holds(view, v, pid)
    ensures Finish(AfterPick(view, v, pid), t, v, my, pid, []) ==
      AfterAdd(AfterRemove(view, v, pid), my, view[v].entities[pid])
  {
    hide Drop, Push;
    DropShape(view[v].queues, view[v].entities[pid].prio, pid);
    assert AfterForget(AfterPick(view, v, pid), v, pid) == AfterRemove(view, v, pid);
  }

  lemma DropShape(queues: seq<seq<nat>>, prio: nat, pid: nat)
    requires prio < |queues|
    ensures |Drop(queues, prio, pid)| == |queues|
  {
  }

  /** Some books account for everything the CPUs hold. */
  ghost predicate Sound(view: seq<Cpu>) {
    exists u :: Placed(view, u)
  }

  /** `pid` is queued on `v` and has no entity there. */
  ghost predicate Stray(view: seq<Cpu>, v: nat, prio: nat, pid: nat) {
    && v < |view| && view[v].On? && |view[v].queues| == LEVELS && prio < LEVELS
    && pid in view[v].queues[prio] && pid !in view[v].entities
  }

  lemma StrayIsUnsound(view: seq<Cpu>, v: nat, prio: nat, pid: nat)
    requires Stray(view, v, prio, pid)
    ensures !Sound(view)
  {
    hide Placed;
    forall u ensures !Placed(view, u) {
      if Placed(view, u) {
        ReadyIffQueued(view, u, pid, v, prio);
        ReadyHome(view, u);
        HomeShape(view, u, pid, v);
      }
    }
  }

  lemma {:induction false} WithoutOther(queue: seq<nat>, q: nat, pid: nat)
    requires q != pid && pid in queue
    ensures pid in Without(queue, q)
  {
    var front, last := queue[..|queue| - 1], queue[|queue| - 1];
    assert queue == front + [last];
    if last == pid {
    } else {
      WithoutOther(front, q, pid);
    }
  }

  lemma DropOther(queues: seq<seq<nat>>, p: nat, q: nat, prio: nat, pid: nat)
    requires p < |queues| && prio < |queues| && q != pid && pid in queues[prio]
    ensures pid in Drop(queues, p, q)[prio]
  {
    hide Without;
    if p == prio { WithoutOther(queues[prio], q, pid); }
  }

  lemma StrayStep(view: seq<Cpu>, t: Tasks, op: Between, v: nat, prio: nat, pid: nat)
    requires Stray(view, v, prio, pid) && pid !in t.home
    ensures Stray(ViewAfter(view, t, op), v, prio, pid) && pid !in BooksAfter(t, op).home
  {
    hide Without;
    var q := op.pid;
    if q in t.home && t.home[q] == v && Holds(view, v, q) {
      DropOther(view[v].queues, view[v].entities[q].prio, q, prio, pid);
    }
  }

  lemma {:induction false} StrayStays(
      view: seq<Cpu>, t: Tasks, ops: seq<Between>, v: nat, prio: nat, pid: nat)
    requires Stray(view, v, prio, pid) && pid !in t.home
    ensures Stray(RunView(view, t, ops), v, prio, pid)
    decreases |ops|
  {
    hide ViewAfter, BooksAfter, Stray;
    if ops == [] {
    } else {
      StrayStep(view, t, ops[0], v, prio, pid);
      StrayStays(ViewAfter(view, t, ops[0]), BooksAfter(t, ops[0]), ops[1..], v, prio, pid);
    }
  }

  /** Of a task that does not wait, forgetting the entity is all there is to remove. */
  lemma ForgetIsRemove(view: seq<Cpu>, t: Tasks, v: nat, pid: nat)
    requires Balanced(view, t) && pid in t.home && t.home[pid] == v && pid !in t.ready
    ensures Holds(view, v, pid) && view[v].entities[pid].pid == pid
    ensures Balanced(AfterForget(view, v, pid), Removed(t, pid))
  {
    hide Placed, Without, Queued;
    HomeShape(view, t, pid, v);
    var prio := t.entity[pid].prio;
    ReadyIffQueued(view, t, pid, v, prio);
    WithoutAbsent(view[v].queues[prio], pid);
    assert Drop(view[v].queues, prio, pid) == view[v].queues;
    RemoveKeeps(view, t, v, pid);
  }

  /** A task that waits on `v` stays in the queue there without an entity. */
  lemma WaitingBreaks(view: seq<Cpu>, t: Tasks, v: nat, my: nat, pid: nat, late: seq<Between>)
    requires Balanced(view, t) && my != v && pid in t.ready && pid in t.home && t.home[pid] == v
    ensures !Sound(Finish(view, t, v, my, pid, late))
  {
    hide Placed, Queued, RunView, Sound;
    HomeShape(view, t, pid, v);
    var prio := t.entity[pid].prio;
    ReadyIffQueued(view, t, pid, v, prio);
    StrayStays(AfterForget(view, v, pid), Removed(t, pid), late, v, prio, pid);
    StrayIsUnsound(Finish(view, t, v, my, pid, late), v, prio, pid);
  }

  lemma NotHere(view: seq<Cpu>, t: Tasks, c: nat, pid: nat)
    requires Balanced(view, t) && c < |view| && view[c].On? && !(pid in t.home && t.home[pid] == c)
    ensures pid !in view[c].entities
  {
    assert CpuOk(view[c], c, t);
  }

  lemma QuietFinishes(view: seq<Cpu>, t: Tasks, v: nat, my: nat, pid: nat, late: seq<Between>)
    requires Balanced(view, t) && my < |view| && v < |view| && my != v && Levels(late)
    requires !(pid in t.ready && pid in t.home && t.home[pid] == v)
    ensures Sound(Finish(view, t, v, my, pid, late))
    ensures pid in t.home && t.home[pid] == v && view[my].On? ==>
      var after := Finish(view, t, v, my, pid, late);
      my < |after| && after[my].On? && pid in after[my].entities
  {
    hide Placed, Queued, RunView, RunBooks;
    if pid in t.home && t.home[pid] == v {
      ForgetIsRemove(view, t, v, pid);
      var e, u, gone := view[v].entities[pid], Removed(t, pid), AfterForget(view, v, pid);
      ReadyHome(gone, u);
      RunKeeps(gone, u, late);
      RunSameCpus(gone, u, late);
      RunPid(u, late, pid);
      var after := RunView(gone, u, late);
      if after[my].On? {
        CpuShape(after, RunBooks(u, late), my);
        AddPlaced(after, RunBooks(u, late), my, pid, e);
      }
    } else {
      if view[v].On? { NotHere(view, t, v, pid); }
      RunKeeps(view, t, late);
    }
  }

  /** The last two sections leave every task placed once exactly unless the task waits on `v` before them. */
  lemma FinishIff(view: seq<Cpu>, t: Tasks, v: nat, my: nat, pid: nat, late: seq<Between>)
    requires Balanced(view, t) && my < |view| && v < |view| && my != v && Levels(late)
    ensures Sound(Finish(view, t, v, my, pid, late)) <==> !(pid in t.ready && pid in t.home && t.home[pid] == v)
  {
    hide Balanced, Sound, Finish;
    if pid in t.ready && pid in t.home && t.home[pid] == v {
      WaitingBreaks(view, t, v, my, pid, late);
    } else {
      QuietFinishes(view, t, v, my, pid, late);
    }
  }

  // ---- The whole steal ----

  /** The calls stop `pid`, or none of them wakes it or changes its priority. */
  predicate Quiet(ops: seq<Between>, pid: nat) {
    || (exists i :: 0 <= i < |ops| && ops[i] == Stop(pid))
    || (forall i :: 0 <= i < |ops| ==> ops[i].pid != pid)
  }

  lemma QuietIs(ops: seq<Between>, pid: nat)
    ensures Quiet(ops, pid) <==> Stop(pid) in ops || !(exists i :: 0 <= i < |ops| && ops[i].pid == pid)
  {
  }

  /** Pick `pid` from `v`, let the calls `ops` come, remove the entity, let `late` come, and add it on `my`. */
  ghost function Steal(
      view: seq<Cpu>, t: Tasks, v: nat, my: nat, pid: nat, ops: seq<Between>, late: seq<Between>): seq<Cpu>
  {
    var picked, u := AfterPick(view, v, pid), Unreadied(t, pid);
    Finish(RunView(picked, u, ops), RunBooks(u, ops), v, my, pid, late)
  }

  lemma Picked(view: seq<Cpu>, t: Tasks, v: nat, pid: nat, ops: seq<Between>)
    requires Balanced(view, t) && pid in t.ready && pid in t.home && t.home[pid] == v && Levels(ops)
    ensures v < |view|
    ensures var between := RunView(AfterPick(view, v, pid), Unreadied(t, pid), ops);
      var u := RunBooks(Unreadied(t, pid), ops);
      && Balanced(between, u) && |between| == |view|
      && (forall c :: 0 <= c < |view| ==> (between[c].On? <==> view[c].On?))
      && (pid in u.home <==> Stop(pid) !in ops) && (pid in u.home ==> u.home[pid] == v)
      && (pid in u.ready <==> !Quiet(ops, pid)) && (pid in u.ready ==> pid in u.home)
  {
    hide Placed, Queued, RunView, RunBooks;
    ReadyHome(view, t);
    HomeShape(view, t, pid, v);
    UnreadyKeeps(view, t, v, pid);
    var picked, u := AfterPick(view, v, pid), Unreadied(t, pid);
    RunKeeps(picked, u, ops);
    RunSameCpus(picked, u, ops);
    RunPid(u, ops, pid);
    QuietIs(ops, pid);
  }

  /** Every task is placed once exactly when the calls after the pick stop `pid` or leave it alone. */
  lemma StealIff(view: seq<Cpu>, t: Tasks, v: nat, my: nat, pid: nat, ops: seq<Between>, late: seq<Between>)
    requires Balanced(view, t) && pid in t.ready && pid in t.home && t.home[pid] == v
    requires my < |view| && my != v && Levels(ops) && Levels(late)
    ensures Sound(Steal(view, t, v, my, pid, ops, late)) <==> Quiet(ops, pid)
  {
    hide Balanced, RunView, RunBooks, Finish, Sound, Quiet, AfterPick, Unreadied;
    Picked(view, t, v, pid, ops);
    var u := Unreadied(t, pid);
    FinishIff(RunView(AfterPick(view, v, pid), u, ops), RunBooks(u, ops), v, my, pid, late);
  }

  /** No CPU has an entity for the task. */
  ghost predicate Gone(view: seq<Cpu>, pid: nat) {
    forall c :: 0 <= c < |view| && view[c].On? ==> pid !in view[c].entities
  }

  /** The stolen task is gone afterwards exactly when it was stopped before its entity was removed. */
  lemma StopObeyedIff(view: seq<Cpu>, t: Tasks, v: nat, my: nat, pid: nat, ops: seq<Between>, late: seq<Between>)
    requires Balanced(view, t) && pid in t.ready && pid in t.home && t.home[pid] == v
    requires my < |view| && my != v && view[my].On? && Levels(ops) && Levels(late) && Quiet(ops, pid)
    ensures Gone(Steal(view, t, v, my, pid, ops, late), pid) <==> Stop(pid) in ops
  {
    hide Placed, Queued, RunView, RunBooks, Sound, Quiet, AfterPick, Unreadied;
    Picked(view, t, v, pid, ops);
    var between, u := RunView(AfterPick(view, v, pid), Unreadied(t, pid), ops), RunBooks(Unreadied(t, pid), ops);
    if Stop(pid) in ops {
      ReadyHome(between, u);
      if between[v].On? { NotHere(between, u, v, pid); }
      RunKeeps(between, u, late);
      RunPid(u, late, pid);
      var after := RunView(between, u, late);
      forall c | 0 <= c < |after| && after[c].On? ensures pid !in after[c].entities {
        NotHere(after, RunBooks(u, late), c, pid);
      }
    } else {
      QuietFinishes(between, u, v, my, pid, late);
    }
  }
}
