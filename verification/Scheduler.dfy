/**
 The fair scheduler on several processors, with the root container only. Each action is
 one critical section under the scheduler lock. The run queue is the in-order walk of the
 red-black tree, ordered by virtual run time and then by address.
 */
module Scheduler {
  import opened Bits
  import opened Products
  import opened Sums

  datatype Status = Unused | Runnable | Running | Sleeping | DeepSleeping | Zombie

  datatype Proc = Proc(status: Status, vruntime: nat, weight: nat, idle: bool, killed: bool)

  type Procs = map<nat, Proc>

  datatype State = State(procs: Procs, queue: seq<nat>, cur: seq<nat>, idles: seq<nat>, weightSum: int)

  const DEFAULT_WEIGHT: nat := 820

  /** `cmp`. */
  predicate Less(procs: Procs, a: nat, b: nat)
  {
    a in procs && b in procs && if procs[a].vruntime == procs[b].vruntime then a < b
        else procs[a].vruntime < procs[b].vruntime
  }

  /** Where the tree puts a node. */
  function Placed(procs: Procs, queue: seq<nat>, p: nat): seq<nat>
  {
    if queue == [] || Less(procs, p, queue[0]) then [p] + queue else [queue[0]] + Placed(procs, queue[1..], p)
  }

  datatype Action =
    | Create(p: nat, weight: nat)
    | Kill(p: nat)
    | Activate(cpu: nat, p: nat, onalert: bool)
    | Sched(cpu: nat, status: Status, elapsed: nat)
    | Reap(p: nat)

  predicate OnCpu(s: State, cpu: nat)
  {
    cpu < |s.cur| == |s.idles| && s.cur[cpu] in s.procs && s.idles[cpu] in s.procs
  }

  /** What callers see to: an idle process only ever yields, and only a zombie is freed. */
  predicate Enabled(s: State, act: Action)
  {
    match act
    case Create(p, weight) => p !in s.procs && weight > 0
    case Kill(p) => p in s.procs && !s.procs[p].idle
    case Activate(cpu, p, _) => OnCpu(s, cpu) && p in s.procs
    case Sched(cpu, status, _) =>
      OnCpu(s, cpu) && status != Unused && status != Running && (s.procs[s.cur[cpu]].idle ==> status == Runnable)
    case Reap(p) => p in s.procs && s.procs[p].status == Zombie
  }

  // `_activate_proc`.

  function MinVruntime(s: State, cpu: nat): nat
    requires OnCpu(s, cpu)
  {
    if s.queue == [] || s.queue[0] !in s.procs then s.procs[s.cur[cpu]].vruntime else s.procs[s.queue[0]].vruntime
  }

  predicate Dormant(q: Proc, onalert: bool)
  {
    q.status == Unused || q.status == Sleeping || (q.status == DeepSleeping && !onalert)
  }

  function Activated(s: State, cpu: nat, p: nat): State
    requires OnCpu(s, cpu) && p in s.procs
  {
    var q := s.procs[p];
    var procs := s.procs[p := q.(status := Runnable, vruntime := MinVruntime(s, cpu))];
    s.(procs := procs, queue := Placed(procs, s.queue, p), weightSum := s.weightSum + q.weight)
  }

  // `simple_sched`.

  /** The virtual run time after `elapsed` more milliseconds, in 64-bit arithmetic. */
  function Charged(q: Proc, elapsed: nat): nat
    requires q.weight > 0
  {
    (q.vruntime + elapsed * DEFAULT_WEIGHT % U64 / q.weight) % U64
  }

  /** `update_this_state`. */
  function Yielded(s: State, cpu: nat, status: Status, elapsed: nat): State
    requires OnCpu(s, cpu) && s.procs[s.cur[cpu]].weight > 0
  {
    var p := s.cur[cpu];
    var q := s.procs[p];
    if q.idle then s.(procs := s.procs[p := q.(status := status)])
    else
      var procs := s.procs[p := q.(status := status, vruntime := Charged(q, elapsed))];
      if status == Runnable then s.(procs := procs, queue := Placed(procs, s.queue, p))
      else s.(procs := procs, weightSum := s.weightSum - q.weight)
  }

  /** `pick_next`. */
  function Next(s: State, cpu: nat): nat
    requires cpu < |s.idles|
  {
    if s.queue == [] then s.idles[cpu] else s.queue[0]
  }

  /** `pick_next`, `update_this_proc` and the end of `simple_sched`. */
  function Picked(s: State, cpu: nat): State
    requires cpu < |s.cur| == |s.idles| && Next(s, cpu) in s.procs
  {
    var n := Next(s, cpu);
    s.(queue := if s.queue == [] then []
        else s.queue[1..], cur := s.cur[cpu := n], procs := s.procs[n := s.procs[n].(status := Running)])
  }

  // The invariant; `hole` is a processor whose process has just been put away.

  ghost predicate Sorted(procs: Procs, queue: seq<nat>)
  {
    forall i, j | 0 <= i < j < |queue| :: Less(procs, queue[i], queue[j])
  }

  /** The queue holds exactly the runnable processes that are not idle. */
  ghost predicate Queued(procs: Procs, queue: seq<nat>)
  {
    Sorted(procs, queue) && forall p :: p in queue <==> p in procs && procs[p].status == Runnable && !procs[p].idle
  }

  /** A process is running exactly if it is current on some processor, and then on one only. */
  ghost predicate Current(procs: Procs, cur: seq<nat>, hole: int)
  {
    && (forall c | 0 <= c < |cur| && c != hole :: cur[c] in procs && procs[cur[c]].status == Running)
    && (forall c, d | 0 <= c < d < |cur| && c != hole && d != hole :: cur[c] != cur[d])
    && (forall p <- procs | procs[p].status == Running :: exists c :: 0 <= c < |cur| && c != hole && cur[c] == p)
  }

  /** Each processor has its own idle process, which runs there or waits. */
  ghost predicate Idling(procs: Procs, cur: seq<nat>, idles: seq<nat>, hole: int)
  {
    && |idles| == |cur| && (forall c, d | 0 <= c < d < |idles| :: idles[c] != idles[d])
    && (forall c | 0 <= c < |idles| :: idles[c] in procs && procs[idles[c]].idle && !procs[idles[c]].killed)
    && (forall p <- procs | procs[p].idle :: p in idles)
    && (forall c | 0 <= c < |idles| ::
        procs[idles[c]].status == Runnable || (procs[idles[c]].status == Running && c != hole && cur[c] == idles[c]))
  }

  ghost predicate Active(q: Proc)
  {
    !q.idle && (q.status == Runnable || q.status == Running)
  }

  ghost function Weights(procs: Procs): map<nat, nat>
  {
    map p | p in procs && Active(procs[p]) :: procs[p].weight
  }

  ghost predicate Weighed(procs: Procs, weightSum: int)
  {
    weightSum == Sum(Weights(procs)) && forall p <- procs :: procs[p].weight > 0
  }

  ghost predicate InvBut(s: State, hole: int)
  {
    Queued(s.procs, s.queue) && Current(s.procs, s.cur, hole) && Idling(s.procs, s.cur, s.idles, hole)
      && Weighed(s.procs, s.weightSum)
  }

  ghost predicate Inv(s: State)
  {
    InvBut(s, -1)
  }

  // The queue.

  lemma {:induction false} PlacedHas(procs: Procs, queue: seq<nat>, p: nat)
    ensures |Placed(procs, queue, p)| == |queue| + 1
    ensures forall x :: x in Placed(procs, queue, p) <==> x == p || x in queue
  {
    if queue != [] && !Less(procs, p, queue[0]) {
      PlacedHas(procs, queue[1..], p);
      assert queue == [queue[0]] + queue[1..];
    }
  }

  /** No two nodes are equal to `cmp`, so insertion never fails and keeps the order. */
  lemma {:induction false} PlacedSorted(procs: Procs, queue: seq<nat>, p: nat)
    requires Sorted(procs, queue) && p in procs && p !in queue && forall x <- queue :: x in procs
    ensures Sorted(procs, Placed(procs, queue, p))
  {
    if queue == [] {
    } else if Less(procs, p, queue[0]) {
      var r := [p] + queue;
      forall j | 1 <= j < |r| ensures Less(procs, p, r[j]) {
        if j > 1 {
          assert Less(procs, queue[0], queue[j - 1]);
        }
      }
    } else {
      var rest := queue[1..];
      assert queue[0] in queue && forall x <- rest :: x in queue;
      PlacedSorted(procs, rest, p);
      PlacedHas(procs, rest, p);
      var t := Placed(procs, rest, p);
      assert Less(procs, queue[0], p);
      forall j | 0 <= j < |t| ensures Less(procs, queue[0], t[j]) {
        assert t[j] in t;
        if t[j] != p {
          var k :| 0 <= k < |rest| && rest[k] == t[j];
          assert rest[k] == queue[k + 1];
        }
      }
    }
  }

  /** Keys of queued processes do not change while they are queued. */
  lemma {:induction false} SortedSame(procs: Procs, procs': Procs, queue: seq<nat>)
    requires Sorted(procs, queue)
    requires forall x <- queue :: x in procs ==> x in procs' && procs'[x].vruntime == procs[x].vruntime
    ensures Sorted(procs', queue)
  {
    forall i, j | 0 <= i < j < |queue| ensures Less(procs', queue[i], queue[j]) {
      assert Less(procs, queue[i], queue[j]);
      assert queue[i] in queue && queue[j] in queue;
    }
  }

  // Weights.

  lemma {:induction false} WeightsUpdate(procs: Procs, p: nat, q: Proc)
    ensures Sum(Weights(procs[p := q])) + (if p in procs && Active(procs[p]) then procs[p].weight else 0)
            == Sum(Weights(procs)) + if Active(q) then q.weight else 0
  {
    var m, m' := Weights(procs), Weights(procs[p := q]);
    if Active(q) {
      assert m' == m[p := q.weight];
      SumUpdate(m, p, q.weight);
    } else if p in m {
      assert m' == m - {p};
      SumWithout(m, p);
    } else {
      assert m' == m;
    }
  }

  // Framing.

  ghost predicate Ready(procs: Procs, p: nat)
  {
    p in procs && procs[p].status == Runnable && !procs[p].idle
  }

  ghost predicate Runs(procs: Procs, p: nat)
  {
    p in procs && procs[p].status == Running
  }

  lemma {:induction false} QueuedSame(procs: Procs, procs': Procs, queue: seq<nat>)
    requires Queued(procs, queue) && forall p :: Ready(procs', p) <==> Ready(procs, p)
    requires forall p | Ready(procs, p) :: p in procs' && procs'[p].vruntime == procs[p].vruntime
    ensures Queued(procs', queue)
  {
    forall x <- queue ensures x in procs ==> x in procs' && procs'[x].vruntime == procs[x].vruntime {
      assert Ready(procs, x);
    }
    SortedSame(procs, procs', queue);
    forall p ensures p in queue <==> p in procs' && procs'[p].status == Runnable && !procs'[p].idle {
      assert p in queue <==> Ready(procs, p);
      assert Ready(procs', p) <==> Ready(procs, p);
    }
  }

  /** A process that was not queued becomes ready. */
  lemma {:induction false} QueuedMore(procs: Procs, procs': Procs, queue: seq<nat>, p: nat)
    requires Queued(procs, queue) && p !in queue && Ready(procs', p)
             && forall q | q != p :: (Ready(procs', q) <==> Ready(procs, q))
                                     && (Ready(procs, q) ==> procs'[q].vruntime == procs[q].vruntime)
    ensures Queued(procs', Placed(procs', queue, p))
  {
    hide Placed;
    forall x <- queue ensures x in procs && x in procs' && procs'[x].vruntime == procs[x].vruntime {
      assert Ready(procs, x);
      assert Ready(procs', x) <==> Ready(procs, x);
    }
    SortedSame(procs, procs', queue);
    PlacedHas(procs', queue, p);
    PlacedSorted(procs', queue, p);
    hide Sorted;
    forall q ensures q in Placed(procs', queue, p) <==> Ready(procs', q) {
      if q != p {
        assert q in queue <==> Ready(procs, q);
        assert Ready(procs', q) <==> Ready(procs, q);
      }
    }
  }

  lemma {:induction false} CurrentSame(procs: Procs, procs': Procs, cur: seq<nat>, hole: int)
    requires Current(procs, cur, hole) && forall p :: Runs(procs', p) <==> Runs(procs, p)
    ensures Current(procs', cur, hole)
  {
    forall c | 0 <= c < |cur| && c != hole ensures Runs(procs', cur[c]) {
      assert Runs(procs, cur[c]);
    }
    forall p <- procs' | procs'[p].status == Running ensures exists c :: 0 <= c < |cur| && c != hole && cur[c] == p {
      assert Runs(procs', p);
      assert Runs(procs, p);
    }
  }

  lemma {:induction false} IdlingSame(procs: Procs, procs': Procs, cur: seq<nat>, idles: seq<nat>, hole: int)
    requires Idling(procs, cur, idles, hole)
    requires forall p <- procs | procs[p].idle :: p in procs' && procs'[p] == procs[p]
    requires forall p <- procs' | procs'[p].idle :: p in procs && procs[p].idle
    ensures Idling(procs', cur, idles, hole)
  {
  }

  lemma {:induction false} IdleStatus(procs: Procs, cur: seq<nat>, idles: seq<nat>, hole: int, p: nat)
    requires Idling(procs, cur, idles, hole) && p in procs && procs[p].idle
    ensures procs[p].status == Runnable || procs[p].status == Running
  {
    var c :| 0 <= c < |idles| && idles[c] == p;
  }

  lemma {:induction false} AllWeigh(procs: Procs, p: nat, q: Proc, w: int)
    requires Weighed(procs, w) && q.weight > 0
    ensures Weighed(procs[p := q], w + (if Active(q) then q.weight else 0) - if p in procs && Active(procs[p])
              then procs[p].weight else 0)
  {
    hide Sum, Weights;
    WeightsUpdate(procs, p, q);
  }

  // Processes come, are killed and go.

  lemma {:induction false} OtherKeeps(s: State, p: nat, q: Proc)
    requires Inv(s) && !q.idle && q.weight > 0
             && (if p in s.procs then !s.procs[p].idle && q == s.procs[p].(killed := q.killed) else q.status == Unused)
    ensures Inv(s.(procs := s.procs[p := q]))
  {
    hide Queued, Current, Idling, Weighed;
    var procs' := s.procs[p := q];
    QueuedSame(s.procs, procs', s.queue);
    CurrentSame(s.procs, procs', s.cur, -1);
    IdlingSame(s.procs, procs', s.cur, s.idles, -1);
    AllWeigh(s.procs, p, q, s.weightSum);
  }

  lemma {:induction false} ReapKeeps(s: State, p: nat)
    requires Inv(s) && p in s.procs && s.procs[p].status == Zombie
    ensures Inv(s.(procs := s.procs - {p}))
  {
    hide Queued, Current, Idling, Sum;
    var procs' := s.procs - {p};
    assert Weights(procs') == Weights(s.procs);
    hide Weights;
    if s.procs[p].idle {
      IdleStatus(s.procs, s.cur, s.idles, -1, p);
    }
    QueuedSame(s.procs, procs', s.queue);
    CurrentSame(s.procs, procs', s.cur, -1);
    IdlingSame(s.procs, procs', s.cur, s.idles, -1);
  }

  // Waking up.

  lemma {:induction false} ActivateKeeps(s: State, cpu: nat, p: nat, onalert: bool)
    requires Inv(s) && OnCpu(s, cpu) && p in s.procs && Dormant(s.procs[p], onalert)
    ensures Inv(Activated(s, cpu, p)) && p !in s.queue
  {
    hide Current, Idling, Weighed, Placed, Sorted, MinVruntime;
    var s' := Activated(s, cpu, p);
    if s.procs[p].idle {
      IdleStatus(s.procs, s.cur, s.idles, -1, p);
    }
    assert s.procs[p].weight > 0 by { Weighs(s.procs, s.weightSum, p); }
    assert p !in s.queue;
    hide Queued;
    QueuedMore(s.procs, s'.procs, s.queue, p);
    CurrentSame(s.procs, s'.procs, s.cur, -1);
    IdlingSame(s.procs, s'.procs, s.cur, s.idles, -1);
    AllWeigh(s.procs, p, s'.procs[p], s.weightSum);
  }

  lemma {:induction false} Weighs(procs: Procs, w: int, p: nat)
    requires Weighed(procs, w) && p in procs
    ensures procs[p].weight > 0
  {
  }

  // Switching.

  /** The process that gives up the processor was running, and its re-insertion cannot fail. */
  lemma {:induction false} YieldKeeps(s: State, cpu: nat, status: Status, elapsed: nat)
    requires Inv(s) && Enabled(s, Sched(cpu, status, elapsed))
    ensures s.procs[s.cur[cpu]].status == Running && s.procs[s.cur[cpu]].weight > 0 && s.cur[cpu] !in s.queue
    ensures InvBut(Yielded(s, cpu, status, elapsed), cpu) && OnCpu(Yielded(s, cpu, status, elapsed), cpu)
  {
    hide Idling, Weighed, Placed, Sorted, Charged, Current, Queued;
    var p := s.cur[cpu];
    CallerRuns(s, cpu);
    Weighs(s.procs, s.weightSum, p);
    var s' := Yielded(s, cpu, status, elapsed);
    AllWeigh(s.procs, p, s'.procs[p], s.weightSum);
    YieldCurrent(s, s'.procs, cpu);
    YieldIdle(s, s'.procs, cpu);
    if !s.procs[p].idle && status == Runnable {
      QueuedMore(s.procs, s'.procs, s.queue, p);
    } else {
      QueuedSame(s.procs, s'.procs, s.queue);
    }
  }

  lemma {:induction false} CallerRuns(s: State, cpu: nat)
    requires Queued(s.procs, s.queue) && Current(s.procs, s.cur, -1) && cpu < |s.cur|
    ensures s.cur[cpu] in s.procs && s.procs[s.cur[cpu]].status == Running && s.cur[cpu] !in s.queue
  {
    hide Sorted;
  }

  lemma {:induction false} YieldIdle(s: State, procs': Procs, cpu: nat)
    requires Idling(s.procs, s.cur, s.idles, -1) && Current(s.procs, s.cur, -1) && cpu < |s.cur| && s.cur[cpu] in procs'
    requires procs' == s.procs[s.cur[cpu] := procs'[s.cur[cpu]]] && procs'[s.cur[cpu]].idle == s.procs[s.cur[cpu]].idle
    requires s.procs[s.cur[cpu]].idle ==> procs'[s.cur[cpu]] == s.procs[s.cur[cpu]].(status := Runnable)
    ensures Idling(procs', s.cur, s.idles, cpu)
  {
    var p := s.cur[cpu];
    forall c | 0 <= c < |s.idles|
      ensures procs'[s.idles[c]].status == Runnable
              || (procs'[s.idles[c]].status == Running && c != cpu && s.cur[c] == s.idles[c])
    {
      if s.idles[c] != p && c == cpu {
        assert s.procs[s.idles[c]].status == Runnable;
      }
    }
  }

  lemma {:induction false} YieldCurrent(s: State, procs': Procs, cpu: nat)
    requires Current(s.procs, s.cur, -1) && cpu < |s.cur| && s.cur[cpu] in procs'
             && procs' == s.procs[s.cur[cpu] := procs'[s.cur[cpu]]]
    requires procs'[s.cur[cpu]].status != Running
    ensures Current(procs', s.cur, cpu)
  {
    forall p <- procs' | procs'[p].status == Running ensures exists c :: 0 <= c < |s.cur| && c != cpu && s.cur[c] == p {
      var c :| 0 <= c < |s.cur| && s.cur[c] == p;
    }
  }

  /**
   The process picked is the least by (virtual run time, address), is runnable, and the
   time-slice divisor is positive.
   */
  lemma {:induction false} PickFacts(s: State, cpu: nat)
    requires InvBut(s, cpu) && cpu < |s.idles|
    ensures var n := Next(s, cpu); n in s.procs && s.procs[n].status == Runnable
    ensures var n := Next(s, cpu); s.queue == [] ==> n == s.idles[cpu] && s.procs[n].idle
    ensures var n := Next(s, cpu); s.queue != [] ==> !s.procs[n].idle && s.weightSum >= s.procs[n].weight > 0
    ensures forall p <- s.procs | s.procs[p].status == Runnable && !s.procs[p].idle && p != Next(s, cpu) ::
              Less(s.procs, Next(s, cpu), p)
  {
    hide Sum;
    var n := Next(s, cpu);
    if s.queue != [] {
      assert n in s.queue;
      assert n in Weights(s.procs);
      SumWithout(Weights(s.procs), n);
    }
    forall p <- s.procs | s.procs[p].status == Runnable && !s.procs[p].idle && p != n ensures Less(s.procs, n, p) {
      assert p in s.queue;
      var i :| 0 <= i < |s.queue| && s.queue[i] == p;
    }
  }

  lemma {:induction false} PickKeeps(s: State, cpu: nat)
    requires InvBut(s, cpu) && cpu < |s.idles| && Next(s, cpu) in s.procs
    ensures Inv(Picked(s, cpu))
  {
    hide Sum, Weights;
    PickFacts(s, cpu);
    var s', n := Picked(s, cpu), Next(s, cpu);
    WeightsUpdate(s.procs, n, s'.procs[n]);
    PickQueue(s, cpu);
    PickCurrent(s, cpu);
    PickIdle(s, cpu);
    hide Sorted, Current, Idling, Queued;
  }

  lemma {:induction false} PickQueue(s: State, cpu: nat)
    requires Queued(s.procs, s.queue) && cpu < |s.cur| == |s.idles| && Next(s, cpu) in s.procs
             && (s.queue == [] ==> s.procs[Next(s, cpu)].idle)
    ensures Queued(Picked(s, cpu).procs, Picked(s, cpu).queue)
  {
    var s', n := Picked(s, cpu), Next(s, cpu);
    if s.queue != [] {
      forall p ensures p in s.queue[1..] <==> p in s.queue && p != n {
        if p in s.queue && p != n {
          var i :| 0 <= i < |s.queue| && s.queue[i] == p;
          assert s.queue[1..][i - 1] == p;
        }
        if p in s.queue[1..] {
          var i :| 0 <= i < |s.queue[1..]| && s.queue[1..][i] == p;
          assert Less(s.procs, s.queue[0], s.queue[i + 1]);
        }
      }
      assert Sorted(s.procs, s.queue[1..]);
    }
    SortedSame(s.procs, s'.procs, s'.queue);
    hide Sorted;
  }

  lemma {:induction false} PickCurrent(s: State, cpu: nat)
    requires Current(s.procs, s.cur, cpu) && cpu < |s.cur| == |s.idles| && Next(s, cpu) in s.procs
             && s.procs[Next(s, cpu)].status == Runnable
    ensures Current(Picked(s, cpu).procs, Picked(s, cpu).cur, -1)
  {
    var s', n := Picked(s, cpu), Next(s, cpu);
    forall p <- s'.procs | s'.procs[p].status == Running ensures exists c :: 0 <= c < |s'.cur| && s'.cur[c] == p {
      if p == n {
        assert s'.cur[cpu] == p;
      } else {
        var c :| 0 <= c < |s.cur| && c != cpu && s.cur[c] == p;
        assert s'.cur[c] == p;
      }
    }
  }

  lemma {:induction false} PickIdle(s: State, cpu: nat)
    requires Idling(s.procs, s.cur, s.idles, cpu) && cpu < |s.cur| && Next(s, cpu) in s.procs
    requires s.queue != [] ==> !s.procs[Next(s, cpu)].idle
    ensures Idling(Picked(s, cpu).procs, Picked(s, cpu).cur, s.idles, -1)
  {
  }

  // Whole runs.

  function Apply(s: State, act: Action): State
    requires Enabled(s, act) && forall p <- s.procs :: s.procs[p].weight > 0
  {
    match act
    case Create(p, weight) => s.(procs := s.procs[p := Proc(Unused, 0, weight, false, false)])
    case Kill(p) => s.(procs := s.procs[p := s.procs[p].(killed := true)])
    case Activate(cpu, p, onalert) => if Dormant(s.procs[p], onalert) then Activated(s, cpu, p) else s
    case Sched(cpu, status, elapsed) =>
      if s.procs[s.cur[cpu]].killed && status != Zombie then s
      else
        var s1 := Yielded(s, cpu, status, elapsed);
        if Next(s1, cpu) in s1.procs then Picked(s1, cpu) else s1
    case Reap(p) => s.(procs := s.procs - {p})
  }

  lemma {:induction false} StepKeeps(s: State, act: Action)
    requires Inv(s) && Enabled(s, act)
    ensures (forall p <- s.procs :: s.procs[p].weight > 0) && Inv(Apply(s, act))
  {
    hide Queued, Current, Idling, Sum, Weights;
    match act
    case Create(p, weight) => OtherKeeps(s, p, Proc(Unused, 0, weight, false, false));
    case Kill(p) =>
      Weighs(s.procs, s.weightSum, p);
      OtherKeeps(s, p, s.procs[p].(killed := true));
    case Activate(cpu, p, onalert) =>
      if Dormant(s.procs[p], onalert) {
        ActivateKeeps(s, cpu, p, onalert);
      }
    case Sched(cpu, status, elapsed) =>
      YieldKeeps(s, cpu, status, elapsed);
      PickFacts(Yielded(s, cpu, status, elapsed), cpu);
      PickKeeps(Yielded(s, cpu, status, elapsed), cpu);
    case Reap(p) => ReapKeeps(s, p);
  }

  /** No step moves the key of a process in the queue, so the tree stays in order without re-sorting. */
  lemma {:induction false} KeysKept(s: State, act: Action, p: nat)
    requires Inv(s) && Enabled(s, act) && p in s.queue
    ensures (forall q <- s.procs :: s.procs[q].weight > 0)
    ensures p in s.procs && p in Apply(s, act).procs && Apply(s, act).procs[p].vruntime == s.procs[p].vruntime
  {
    hide Sum, Weights, Idling, Sorted, Placed, Charged;
    if act.Sched? {
      CallerRuns(s, act.cpu);
    }
  }

  ghost predicate Run(s: State, acts: seq<Action>, s': State)
    decreases |acts|
  {
    if acts == [] then s' == s
    else Enabled(s, acts[0]) && (forall p <- s.procs :: s.procs[p].weight > 0) && Run(Apply(s, acts[0]), acts[1..], s')
  }

  /** Any number of processors, each running its idle process. */
  function Boot(idles: seq<nat>): State
  {
    State(map p | p in idles :: Proc(Running, 0, 15, true, false), [], idles, idles, 0)
  }

  lemma {:induction false} BootOk(idles: seq<nat>)
    requires forall c, d | 0 <= c < d < |idles| :: idles[c] != idles[d]
    ensures Inv(Boot(idles))
  {
    var s := Boot(idles);
    assert Weights(s.procs) == map[];
  }

  lemma {:induction false} RunKeeps(s: State, acts: seq<Action>, s': State)
    requires Inv(s) && Run(s, acts, s')
    ensures Inv(s')
    decreases |acts|
  {
    hide Inv, Apply, Enabled;
    if acts != [] {
      StepKeeps(s, acts[0]);
      RunKeeps(Apply(s, acts[0]), acts[1..], s');
    }
  }

  /** In every run: the queue, the processors and the weight sum agree with the states of the processes. */
  lemma {:induction false} AlwaysConsistent(idles: seq<nat>, acts: seq<Action>, s: State)
    requires (forall c, d | 0 <= c < d < |idles| :: idles[c] != idles[d]) && Run(Boot(idles), acts, s)
    ensures Queued(s.procs, s.queue) && Current(s.procs, s.cur, -1) && Weighed(s.procs, s.weightSum)
  {
    hide Queued, Current, Idling, Run, Apply, Sum;
    BootOk(idles);
    RunKeeps(Boot(idles), acts, s);
  }

  /**
   In every run: when a process calls the scheduler, none of its assertions fails. The caller
   is running, its re-insertion finds no equal node, the process picked is runnable, and the
   time slice is not divided by zero.
   */
  lemma {:induction false} NoAssertionFails(idles: seq<nat>, acts: seq<Action>, s: State, cpu: nat, status: Status,
                                            elapsed: nat)
    requires (forall c, d | 0 <= c < d < |idles| :: idles[c] != idles[d]) && Run(Boot(idles), acts, s)
    requires Enabled(s, Sched(cpu, status, elapsed))
    ensures s.procs[s.cur[cpu]].status == Running && s.procs[s.cur[cpu]].weight > 0 && s.cur[cpu] !in s.queue
    ensures var s1 := Yielded(s, cpu, status, elapsed);
            && cpu < |s1.idles| && var n := Next(s1, cpu);
            && n in s1.procs && s1.procs[n].status == Runnable && (!s1.procs[n].idle ==> s1.weightSum > 0)
  {
    hide Queued, Current, Idling, Run, Apply, Sum, Weights;
    BootOk(idles);
    RunKeeps(Boot(idles), acts, s);
    YieldKeeps(s, cpu, status, elapsed);
    PickFacts(Yielded(s, cpu, status, elapsed), cpu);
  }

  // What running costs, and who runs next.

  /** The time taken, at 820 a millisecond, is `weight` times `d` up to rounding down, and `d` is added to `v`. */
  ghost predicate Costs(v: nat, r: nat, cost: nat, weight: nat, d: nat)
  {
    weight * d <= cost < weight * (d + 1) && r == (v + d) % U64
  }

  /** Neither the product nor the sum overflows. */
  ghost predicate Fits(q: Proc, elapsed: nat)
    requires q.weight > 0
  {
    820 * elapsed < U64 && q.vruntime + 820 * elapsed / q.weight < U64
  }

  /** The virtual run time has risen by the time taken, at 820 a millisecond, over the weight. */
  ghost predicate Paid(v: nat, r: nat, elapsed: nat, weight: nat)
  {
    v <= r && weight * (r - v) <= 820 * elapsed < weight * (r - v + 1)
  }

  lemma {:induction false} Quotient(a: nat, b: nat)
    requires b > 0
    ensures b * (a / b) <= a < b * (a / b + 1)
  {
    Divides(a, b);
    Distributes(b, a / b, 1);
  }

  lemma {:induction false} CostIs(v: nat, cost: nat, weight: nat)
    requires weight > 0
    ensures Costs(v, (v + cost / weight) % U64, cost, weight, cost / weight)
  {
    Quotient(cost, weight);
  }

  lemma {:induction false} PaidIs(v: nat, elapsed: nat, weight: nat, d: nat)
    requires weight > 0 && d == 820 * elapsed / weight && v + d < U64
    ensures Paid(v, (v + d) % U64, elapsed, weight)
  {
    Quotient(820 * elapsed, weight);
  }

  lemma {:induction false} ChargedIs(q: Proc, elapsed: nat)
    requires q.weight > 0
    ensures exists d :: Costs(q.vruntime, Charged(q, elapsed), 820 * elapsed % U64, q.weight, d)
    ensures Fits(q, elapsed) ==> Paid(q.vruntime, Charged(q, elapsed), elapsed, q.weight)
  {
    hide Costs, Paid;
    assert elapsed * DEFAULT_WEIGHT == 820 * elapsed;
    var c := 820 * elapsed % U64;
    CostIs(q.vruntime, c, q.weight);
    assert Costs(q.vruntime, Charged(q, elapsed), c, q.weight, c / q.weight);
    if Fits(q, elapsed) {
      assert c == 820 * elapsed;
      PaidIs(q.vruntime, elapsed, q.weight, c / q.weight);
    }
  }

  /** A millisecond costs 820 over the weight. */
  lemma {:induction false} RunningCosts(s: State, cpu: nat, status: Status, elapsed: nat)
    requires Inv(s) && Enabled(s, Sched(cpu, status, elapsed))
    ensures (forall p <- s.procs :: s.procs[p].weight > 0) && s.cur[cpu] in Apply(s, Sched(cpu, status, elapsed)).procs
    ensures var q := s.procs[s.cur[cpu]];
            var r := Apply(s, Sched(cpu, status, elapsed)).procs[s.cur[cpu]].vruntime;
            if q.idle || (q.killed && status != Zombie) then r == q.vruntime
            else && (exists d :: Costs(q.vruntime, r, 820 * elapsed % U64, q.weight, d))
                 && (Fits(q, elapsed) ==> Paid(q.vruntime, r, elapsed, q.weight))
  {
    hide Queued, Current, Idling, Charged, Placed, Costs, Fits, Paid, Sum, Weights;
    var q := s.procs[s.cur[cpu]];
    StepKeeps(s, Sched(cpu, status, elapsed));
    ChargedIs(q, elapsed);
  }

  /** `a` goes before `b`: it has run less, or as much and has the smaller address. */
  ghost predicate Ahead(procs: Procs, a: nat, b: nat)
  {
    && a in procs && b in procs
    && (procs[a].vruntime < procs[b].vruntime || (procs[a].vruntime == procs[b].vruntime && a < b))
  }

  /**
   A call of the scheduler: a killed process that is not exiting goes on. Otherwise the caller
   takes the new state and the process that runs next is the one ahead of all that are ready,
   or the idle process if none is; nobody else is touched.
   */
  lemma {:induction false} SchedIs(s: State, cpu: nat, status: Status, elapsed: nat)
    requires Inv(s) && Enabled(s, Sched(cpu, status, elapsed))
    ensures forall p <- s.procs :: s.procs[p].weight > 0
    ensures var s', p := Apply(s, Sched(cpu, status, elapsed)), s.cur[cpu];
            if s.procs[p].killed && status != Zombie then s' == s
            else && |s'.cur| == |s.cur| && s'.idles == s.idles && p in s'.procs && s'.cur[cpu] in s'.procs
                 && (forall c | 0 <= c < |s.cur| && c != cpu :: s'.cur[c] == s.cur[c])
                 && var n := s'.cur[cpu];
                    && s'.procs == s.procs[p := s'.procs[p]][n := s'.procs[n]]
                    && s'.procs[p] == s.procs[p].(vruntime := s'.procs[p].vruntime,
                                                  status := if n == p then Running else status)
                    && (n == p ==> status == Runnable)
                    && (n != p ==> s.procs[n].status == Runnable && s'.procs[n] == s.procs[n].(status := Running))
                    && (s'.procs[n].idle ==> n == s.idles[cpu] && s'.queue == [])
                    && forall x <- s'.procs | Ready(s'.procs, x) :: Ahead(s'.procs, n, x)
  {
    hide Queued, Current, Idling, Charged, Placed, Sum, Weights;
    StepKeeps(s, Sched(cpu, status, elapsed));
    YieldKeeps(s, cpu, status, elapsed);
    PickFacts(Yielded(s, cpu, status, elapsed), cpu);
  }

  /** A caller that yields goes on exactly if its new key is ahead of every queued process. */
  lemma {:induction false} GoesOnIff(s: State, cpu: nat, elapsed: nat)
    requires Inv(s) && Enabled(s, Sched(cpu, Runnable, elapsed)) && !s.procs[s.cur[cpu]].idle
             && !s.procs[s.cur[cpu]].killed
    ensures forall p <- s.procs :: s.procs[p].weight > 0
    ensures var s', p := Apply(s, Sched(cpu, Runnable, elapsed)), s.cur[cpu];
            cpu < |s'.cur| && (s'.cur[cpu] == p <==> forall x <- s.queue :: Ahead(s'.procs, p, x))
  {
    hide Current, Idling, Charged, Placed, Sum, Weights, Sorted;
    StepKeeps(s, Sched(cpu, Runnable, elapsed));
    SchedIs(s, cpu, Runnable, elapsed);
    CallerRuns(s, cpu);
    var s', p := Apply(s, Sched(cpu, Runnable, elapsed)), s.cur[cpu];
    var n := s'.cur[cpu];
    hide Apply, Enabled;
    if n == p {
      forall x <- s.queue ensures Ahead(s'.procs, p, x) {
        assert Ready(s'.procs, x);
      }
    } else {
      assert Ready(s'.procs, p);
      assert p in s'.queue && n in s.queue;
    }
  }

  /** In every run: each processor can call the scheduler, with any state but for its idle process, and wake anybody. */
  lemma {:induction false} MayCall(idles: seq<nat>, acts: seq<Action>, s: State, cpu: nat)
    requires (forall c, d | 0 <= c < d < |idles| :: idles[c] != idles[d]) && Run(Boot(idles), acts, s) && cpu < |s.cur|
    ensures s.cur[cpu] in s.procs
    ensures forall status, elapsed: nat | status in {Runnable, Sleeping, DeepSleeping, Zombie} ::
              status == Runnable || !s.procs[s.cur[cpu]].idle ==> Enabled(s, Sched(cpu, status, elapsed))
    ensures forall p <- s.procs, onalert :: Enabled(s, Activate(cpu, p, onalert))
  {
    hide Run, Apply, Queued, Weighed;
    BootOk(idles);
    RunKeeps(Boot(idles), acts, s);
    assert OnCpu(s, cpu);
  }

  // Killed for good.

  lemma {:induction false} KilledStays(s: State, act: Action, p: nat)
    requires Inv(s) && Enabled(s, act) && p in s.procs && act != Reap(p)
    ensures forall q <- s.procs :: s.procs[q].weight > 0
    ensures p in Apply(s, act).procs && (s.procs[p].killed || act == Kill(p) ==> Apply(s, act).procs[p].killed)
  {
    hide Queued, Current, Idling, Sum, Weights, Placed, Charged;
  }

  lemma {:induction false} KilledThrough(s: State, acts: seq<Action>, s': State, p: nat)
    requires Inv(s) && Run(s, acts, s') && p in s.procs && s.procs[p].killed && Reap(p) !in acts
    ensures Inv(s') && p in s'.procs && s'.procs[p].killed
    decreases |acts|
  {
    hide Inv, Apply, Enabled;
    if acts != [] {
      StepKeeps(s, acts[0]);
      assert acts[0] in acts && forall a <- acts[1..] :: a in acts;
      KilledStays(s, acts[0], p);
      KilledThrough(Apply(s, acts[0]), acts[1..], s', p);
    }
  }

  /** From the moment it is killed a process gives up its processor only to exit, until it is reaped. */
  lemma {:induction false} KilledNeverSleeps(s: State, acts: seq<Action>, s': State, p: nat, cpu: nat, status: Status,
                                             elapsed: nat)
    requires Inv(s) && Enabled(s, Kill(p)) && forall q <- s.procs :: s.procs[q].weight > 0
    requires Run(Apply(s, Kill(p)), acts, s') && Reap(p) !in acts
    requires Enabled(s', Sched(cpu, status, elapsed)) && s'.cur[cpu] == p && status != Zombie
    ensures (forall q <- s'.procs :: s'.procs[q].weight > 0) && Apply(s', Sched(cpu, status, elapsed)) == s'
  {
    hide Queued, Current, Idling, Sum, Weights, Run;
    StepKeeps(s, Kill(p));
    KilledStays(s, Kill(p), p);
    KilledThrough(Apply(s, Kill(p)), acts, s', p);
  }

  // Fairness.

  /**
   Waking up changes nothing about a process that is active, a zombie, or in deep sleep on an
   alert. Any other becomes runnable with the least virtual run time in the queue, or with the
   caller's if the queue is empty; nobody else is touched.
   */
  lemma {:induction false} ActivateIs(s: State, cpu: nat, p: nat, onalert: bool)
    requires Inv(s) && Enabled(s, Activate(cpu, p, onalert))
    ensures forall p <- s.procs :: s.procs[p].weight > 0
    ensures var s' := Apply(s, Activate(cpu, p, onalert));
            if s.procs[p].status in {Runnable, Running, Zombie} || (s.procs[p].status == DeepSleeping && onalert)
            then s' == s
            else && p in s'.procs && s'.procs == s.procs[p := s'.procs[p]] && s'.cur == s.cur && s'.idles == s.idles
                 && s'.procs[p] == s.procs[p].(status := Runnable, vruntime := s'.procs[p].vruntime)
                 && Inv(s') && (s.queue == [] ==> s'.procs[p].vruntime == s.procs[s.cur[cpu]].vruntime)
                 && (forall q <- s.queue :: q in s.procs && s'.procs[p].vruntime <= s.procs[q].vruntime)
                 && (s.queue != [] ==> exists q <- s.queue :: s'.procs[p].vruntime == s.procs[q].vruntime)
  {
    hide Current, Idling, Weights, Sum, Placed;
    StepKeeps(s, Activate(cpu, p, onalert));
    var s' := Apply(s, Activate(cpu, p, onalert));
    if s.queue != [] {
      assert s.queue[0] in s.queue;
      forall q <- s.queue ensures s.procs[s.queue[0]].vruntime <= s.procs[q].vruntime {
        var i :| 0 <= i < |s.queue| && s.queue[i] == q;
        assert i > 0 ==> Less(s.procs, s.queue[0], s.queue[i]);
      }
    }
  }
}
