/**
 One CPU's run queue: 140 FIFO levels and a bitmap of the levels that are not empty.
 Looking for the first set bit finds what a scan of all levels would find.
 */
module RunQueues {
  import opened Wrappers
  import opened Totals
  import opened Words

  const LEVELS := 140

  const SCHED_FIFO := 1
  const SCHED_RR := 2
  const SCHED_IDLE := 5

  /** Time slice in microseconds. */
  function TimesliceFor(prio: nat, policy: nat): (us: nat)
    ensures 200 <= us <= 4000
  {
    if policy == SCHED_FIFO || policy == SCHED_RR then 1000
    else if policy == SCHED_IDLE then 200
    else if prio < 100 then 1000
    else Max(Max(4000 - (prio - 100) * 100, 0), 200)
  }

  /**
   Real-time tasks get a millisecond and idle ones the least; of the others those below level
   100 get a millisecond, and from there on four less a tenth for each level, down to the least.
   */
  lemma Slices(prio: nat, policy: nat)
    ensures policy in {1, 2} ==> TimesliceFor(prio, policy) == 1000
    ensures policy == 5 ==> TimesliceFor(prio, policy) == 200
    ensures policy !in {1, 2, 5} && prio < 100 ==> TimesliceFor(prio, policy) == 1000
    ensures policy !in {1, 2, 5} && 100 <= prio <= 138 ==> TimesliceFor(prio, policy) + 100 * (prio - 100) == 4000
    ensures policy !in {1, 2, 5} && prio >= 138 ==> TimesliceFor(prio, policy) == 200
  {
  }

  datatype Entity = Entity(pid: nat, prio: nat, staticPrio: nat, policy: nat, timesliceUs: nat)

  function NewEntity(pid: nat, prio: nat, policy: nat): Entity {
    Entity(pid, prio, prio, policy, TimesliceFor(prio, policy))
  }

  // ---- Bitmap ----

  ghost predicate BitmapOk(bm: seq<nat>) {
    |bm| == 3 && forall i :: 0 <= i < 3 ==> bm[i] < Pow2(WORD)
  }

  predicate Test(bm: seq<nat>, prio: nat)
    requires |bm| == 3 && prio < 3 * WORD
  {
    Bit(bm[prio / WORD], prio % WORD)
  }

  function BitmapSet(bm: seq<nat>, prio: nat): (r: seq<nat>)
    requires |bm| == 3 && prio < 3 * WORD
    ensures |r| == 3
  {
    bm[prio / WORD := Or(bm[prio / WORD], Pow2(prio % WORD))]
  }

  function BitmapClr(bm: seq<nat>, prio: nat): (r: seq<nat>)
    requires |bm| == 3 && prio < 3 * WORD
    ensures |r| == 3
  {
    bm[prio / WORD := AndNot(bm[prio / WORD], Pow2(prio % WORD))]
  }

  lemma BitmapSetBits(bm: seq<nat>, prio: nat, j: nat)
    requires BitmapOk(bm) && prio < 3 * WORD && j < 3 * WORD
    ensures BitmapOk(BitmapSet(bm, prio))
    ensures Test(BitmapSet(bm, prio), j) <==> j == prio || Test(bm, j)
  {
    hide Pow2, Or, Bit;
    Pow2Increases(prio % WORD, WORD);
    OrFits(bm[prio / WORD], Pow2(prio % WORD), WORD);
    if j / WORD == prio / WORD { SetBit(bm[prio / WORD], prio % WORD, j % WORD); }
  }

  lemma BitmapClrBits(bm: seq<nat>, prio: nat, j: nat)
    requires BitmapOk(bm) && prio < 3 * WORD && j < 3 * WORD
    ensures BitmapOk(BitmapClr(bm, prio))
    ensures Test(BitmapClr(bm, prio), j) <==> j != prio && Test(bm, j)
  {
    hide Pow2, AndNot, Bit;
    AndNotFits(bm[prio / WORD], Pow2(prio % WORD));
    if j / WORD == prio / WORD { ClearBit(bm[prio / WORD], prio % WORD, j % WORD); }
  }

  /** The lowest set bit: the first word that is not zero, and its lowest bit. */
  method FindFirst(bm: seq<nat>) returns (r: Option<nat>)
    requires BitmapOk(bm)
    ensures r.None? ==> forall j: nat :: j < 3 * WORD ==> !Test(bm, j)
    ensures r.Some? ==> r.value < 3 * WORD && Test(bm, r.value) && forall j: nat :: j < r.value ==> !Test(bm, j)
  {
    hide Pow2, Bit, TrailingZeros;
    for i := 0 to 3
      invariant forall j: nat :: j < i * WORD ==> !Test(bm, j)
    {
      var w := bm[i];
      if w != 0 {
        var k := TrailingZeros(w);
        TrailingZerosFits(w, WORD);
        assert (i * WORD + k) / WORD == i && (i * WORD + k) % WORD == k;
        forall j: nat | i * WORD <= j < i * WORD + k ensures !Test(bm, j) {
          assert j / WORD == i && j % WORD == j - i * WORD;
        }
        return Some(i * WORD + k);
      }
      forall j: nat | i * WORD <= j < (i + 1) * WORD ensures !Test(bm, j) {
        assert j / WORD == i;
        ZeroHasNoBits(j % WORD);
      }
    }
    r := None;
  }

  // ---- Queues ----

  /** The lowest level that is not empty, by scanning them all. */
  function Scan(queues: seq<seq<nat>>, from: nat): (r: Option<nat>)
    requires from <= |queues|
    ensures r.None? ==> forall i :: from <= i < |queues| ==> queues[i] == []
    ensures r.Some? ==>
      from <= r.value < |queues| && queues[r.value] != [] && forall i :: from <= i < r.value ==> queues[i] == []
    decreases |queues| - from
  {
    if from == |queues| then None
    else if queues[from] != [] then Some(from)
    else Scan(queues, from + 1)
  }

  ghost predicate Distinct(q: seq<nat>) {
    forall i, j :: 0 <= i < j < |q| ==> q[i] != q[j]
  }

  /** The queue without `pid`. */
  function Without(q: seq<nat>, pid: nat): seq<nat> {
    if q == [] then [] else Without(q[..|q| - 1], pid) + if q[|q| - 1] == pid then [] else [q[|q| - 1]]
  }

  lemma {:induction false} WithoutKeeps(q: seq<nat>, pid: nat)
    requires Distinct(q)
    ensures Distinct(Without(q, pid)) && forall x :: x in Without(q, pid) <==> x in q && x != pid
    ensures |Without(q, pid)| == |q| - if pid in q then 1 else 0
  {
    if q == [] {
    } else {
      var front, last := q[..|q| - 1], q[|q| - 1];
      assert q == front + [last];
      WithoutKeeps(front, pid);
      assert last !in front;
    }
  }

  /** Queues, bitmap and count agree. */
  ghost predicate Indexed(queues: seq<seq<nat>>, bitmap: seq<nat>, nrRunning: nat) {
    && |queues| == LEVELS && BitmapOk(bitmap)
    && (forall prio: nat :: prio < 3 * WORD ==> (Test(bitmap, prio) <==> prio < LEVELS && queues[prio] != []))
    && (forall prio :: 0 <= prio < LEVELS ==> Distinct(queues[prio]))
    && nrRunning == TotalLength(queues)
  }

  lemma IndexedPush(queues: seq<seq<nat>>, bitmap: seq<nat>, n: nat, prio: nat, pid: nat)
    requires Indexed(queues, bitmap, n) && prio < LEVELS && pid !in queues[prio]
    ensures Indexed(queues[prio := queues[prio] + [pid]], BitmapSet(bitmap, prio), n + 1)
  {
    hide Test, BitmapSet, TotalLength, Pow2;
    TotalLengthUpdate(queues, prio, queues[prio] + [pid]);
    forall j: nat | j < 3 * WORD
      ensures BitmapOk(BitmapSet(bitmap, prio)) && (Test(BitmapSet(bitmap, prio), j) <==> j == prio || Test(bitmap, j))
    {
      BitmapSetBits(bitmap, prio, j);
    }
    BitmapSetBits(bitmap, prio, 0);
  }

  /** Replacing one level by a shorter queue, clearing its bit when nothing is left. */
  lemma IndexedShrink(queues: seq<seq<nat>>, bitmap: seq<nat>, n: nat, prio: nat, q: seq<nat>)
    requires Indexed(queues, bitmap, n) && prio < LEVELS && Distinct(q) && |q| <= |queues[prio]|
    ensures n >= |queues[prio]| - |q|
    ensures Indexed(queues[prio := q], if q == [] then BitmapClr(bitmap, prio) else bitmap, n - (|queues[prio]| - |q|))
  {
    hide Test, BitmapClr, TotalLength, Pow2;
    TotalLengthUpdate(queues, prio, q);
    forall j: nat | j < 3 * WORD
      ensures BitmapOk(BitmapClr(bitmap, prio)) && (Test(BitmapClr(bitmap, prio), j) <==> j != prio && Test(bitmap, j))
    {
      BitmapClrBits(bitmap, prio, j);
    }
    BitmapClrBits(bitmap, prio, 0);
  }

  function Push(queues: seq<seq<nat>>, prio: nat, pid: nat): seq<seq<nat>>
    requires prio < |queues|
  {
    queues[prio := if pid in queues[prio] then queues[prio] else queues[prio] + [pid]]
  }

  function Drop(queues: seq<seq<nat>>, prio: nat, pid: nat): seq<seq<nat>>
    requires prio < |queues|
  {
    queues[prio := Without(queues[prio], pid)]
  }

  method Retain(q: seq<nat>, pid: nat) returns (kept: seq<nat>)
    ensures kept == Without(q, pid)
  {
    kept := [];
    for i := 0 to |q|
      invariant kept == Without(q[..i], pid)
    {
      assert q[..i + 1][..i] == q[..i];
      if q[i] != pid { kept := kept + [q[i]]; }
    }
    assert q[..|q|] == q;
  }

  lemma NothingQueued(queues: seq<seq<nat>>, bitmap: seq<nat>)
    requires |queues| == LEVELS && (forall i :: 0 <= i < LEVELS ==> queues[i] == []) && bitmap == [0, 0, 0]
    ensures Indexed(queues, bitmap, 0)
  {
    hide Pow2, Bit, TotalLength;
    forall prio: nat | prio < 3 * WORD ensures !Test(bitmap, prio) {
      assert bitmap[prio / WORD] == 0;
      ZeroHasNoBits(prio % WORD);
    }
    TotalLengthEmpty(queues);
  }

  lemma IndexedShape(queues: seq<seq<nat>>, bitmap: seq<nat>, n: nat)
    requires Indexed(queues, bitmap, n)
    ensures |queues| == LEVELS && BitmapOk(bitmap) && forall prio :: 0 <= prio < LEVELS ==> Distinct(queues[prio])
    ensures n == TotalLength(queues)
  {
  }

  /** The first set bit is the first non-empty level. */
  lemma FirstIsScan(queues: seq<seq<nat>>, bitmap: seq<nat>, n: nat, first: Option<nat>)
    requires Indexed(queues, bitmap, n)
    requires first.None? ==> forall j: nat :: j < 3 * WORD ==> !Test(bitmap, j)
    requires first.Some? ==>
      first.value < 3 * WORD && Test(bitmap, first.value) && forall j: nat :: j < first.value ==> !Test(bitmap, j)
    ensures first == Scan(queues, 0)
    ensures first.None? ==> n == 0
    ensures first.Some? ==> n > 0
  {
    hide Test;
    match Scan(queues, 0) {
      case None =>
        TotalLengthEmpty(queues);
      case Some(prio) =>
        assert Test(bitmap, prio);
        TotalLengthUpdate(queues, prio, []);
    }
  }

  class RunQueue {
    var queues: seq<seq<nat>>
    var bitmap: seq<nat>
    var nrRunning: nat
    var entities: map<nat, Entity>

    ghost predicate Valid()
      reads this
    {
      Indexed(queues, bitmap, nrRunning)
    }

    constructor ()
      ensures Valid() && entities == map[] && nrRunning == 0 && forall i :: 0 <= i < LEVELS ==> queues[i] == []
    {
      queues := seq(LEVELS, _ => []);
      bitmap := [0, 0, 0];
      nrRunning, entities := 0, map[];
      new;
      NothingQueued(queues, bitmap);
    }

    /** Append a task to a level unless it is already there. */
    method Enqueue(pid: nat, prio: nat)
      requires Valid() && prio < LEVELS
      modifies this`queues, this`bitmap, this`nrRunning
      ensures Valid()
      ensures queues == Push(old(queues), prio, pid)
      ensures pid !in old(queues[prio]) ==> queues[prio] == old(queues[prio]) + [pid]
    {
      hide Indexed;
      IndexedShape(queues, bitmap, nrRunning);
      if pid !in queues[prio] {
        IndexedPush(queues, bitmap, nrRunning, prio, pid);
        queues := queues[prio := queues[prio] + [pid]];
        bitmap := BitmapSet(bitmap, prio);
        nrRunning := nrRunning + 1;
      }
    }

    /** Remove a task from a level if it is there. */
    method Dequeue(pid: nat, prio: nat)
      requires Valid() && prio < LEVELS
      modifies this`queues, this`bitmap, this`nrRunning
      ensures Valid()
      ensures queues == Drop(old(queues), prio, pid)
    {
      hide Indexed;
      IndexedShape(queues, bitmap, nrRunning);
      var before := |queues[prio]|;
      var q := Retain(queues[prio], pid);
      WithoutKeeps(queues[prio], pid);
      IndexedShrink(queues, bitmap, nrRunning, prio, q);
      var removed := before - |q|;
      queues := queues[prio := q];
      if q == [] { bitmap := BitmapClr(bitmap, prio); }
      if removed > 0 && nrRunning > 0 { nrRunning := nrRunning - 1; }
    }

    method Add(ent: Entity)
      requires Valid() && ent.prio < LEVELS
      modifies this
      ensures Valid() && queues == Push(old(queues), ent.prio, ent.pid) && entities == old(entities)[ent.pid := ent]
    {
      entities := entities[ent.pid := ent];
      Enqueue(ent.pid, ent.prio);
    }

    method Remove(pid: nat)
      requires Valid() && pid in entities && entities[pid].prio < LEVELS
      modifies this
      ensures Valid() && queues == Drop(old(queues), old(entities)[pid].prio, pid) && entities == old(entities) - {pid}
    {
      var ent := entities[pid];
      entities := entities - {pid};
      Dequeue(pid, ent.prio);
    }

    /** Give the task's entity another level and time slice, and queue it there. */
    method Reprioritise(pid: nat, newPrio: nat)
      requires Valid() && pid in entities && entities[pid].prio < LEVELS && newPrio < LEVELS
      modifies this
      ensures Valid() && queues == Push(Drop(old(queues), old(entities)[pid].prio, pid), newPrio, pid)
      ensures var e := old(entities)[pid];
        entities == old(entities)[pid := e.(prio := newPrio, timesliceUs := TimesliceFor(newPrio, e.policy))]
    {
      var ent := entities[pid];
      entities := entities[pid := ent.(prio := newPrio, timesliceUs := TimesliceFor(newPrio, ent.policy))];
      Dequeue(pid, ent.prio);
      Enqueue(pid, newPrio);
    }

    /** Take the oldest task of the first non-empty level, which is what a scan of all levels would take. */
    method PickNext() returns (r: Option<nat>)
      requires Valid()
      modifies this`queues, this`bitmap, this`nrRunning
      ensures Valid()
      ensures match Scan(old(queues), 0)
              case None => r == None && queues == old(queues) && nrRunning == old(nrRunning) == 0
              case Some(prio) =>
                && r == Some(old(queues[prio][0])) && nrRunning == old(nrRunning) - 1
                && queues == old(queues)[prio := old(queues[prio])[1..]]
    {
      hide Indexed, Test;
      IndexedShape(queues, bitmap, nrRunning);
      var first := FindFirst(bitmap);
      FirstIsScan(queues, bitmap, nrRunning, first);
      if first.None? { return None; }
      var prio := first.value;
      var q := queues[prio];
      if q == [] { return None; }
      var pid := q[0];
      q := q[1..];
      IndexedShrink(queues, bitmap, nrRunning, prio, q);
      queues := queues[prio := q];
      if q == [] { bitmap := BitmapClr(bitmap, prio); }
      if nrRunning > 0 { nrRunning := nrRunning - 1; }
      r := Some(pid);
    }
  }
}
