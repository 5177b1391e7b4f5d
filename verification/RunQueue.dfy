/**
 The run queue as the code keeps it: the linked red-black tree with the scheduler's
 comparison. What the scheduler calls its queue is the in-order walk of that tree.
 */
module RunQueue {
  import opened RbModel
  import opened RbTree
  import opened Bits
  import S = Scheduler

  /** `cmp` on nodes; `nos` is `container_of`, from a tree node to its process. */
  predicate By(procs: S.Procs, nos: map<Node, nat>, a: Node, b: Node)
  {
    a in nos && b in nos && S.Less(procs, nos[a], nos[b])
  }

  function Cmp(procs: S.Procs, nos: map<Node, nat>): (Node, Node) -> bool
  {
    (a: Node, b: Node) => By(procs, nos, a, b)
  }

  ghost function Ids(nos: map<Node, nat>, s: seq<Node>): (ids: seq<nat>)
    requires forall n <- s :: n in nos
    ensures |ids| == |s| && forall i | 0 <= i < |s| :: ids[i] == nos[s[i]]
  {
    seq(|s|, i requires 0 <= i < |s| => nos[s[i]])
  }

  /** Different nodes belong to different processes. */
  ghost predicate Injective(nos: map<Node, nat>)
  {
    forall a <- nos, b <- nos :: nos[a] == nos[b] ==> a == b
  }

  lemma {:induction false} SortedTail(procs: S.Procs, q: seq<nat>)
    requires q != [] && S.Sorted(procs, q)
    ensures S.Sorted(procs, q[1..])
  {
    forall i, j | 0 <= i < j < |q[1..]| ensures S.Less(procs, q[1..][i], q[1..][j]) {
      assert q[1..][i] == q[i + 1] && q[1..][j] == q[j + 1];
    }
  }

  /** A sorted queue has one place only for a process, and the scheduler's insertion finds it. */
  lemma {:induction false} PlacedAt(procs: S.Procs, q: seq<nat>, p: nat, i: nat)
    requires i <= |q| && S.Sorted(procs, q[..i] + [p] + q[i..])
    ensures S.Placed(procs, q, p) == q[..i] + [p] + q[i..]
    decreases i
  {
    var q' := q[..i] + [p] + q[i..];
    if i == 0 {
      if q != [] {
        assert S.Less(procs, q'[0], q'[1]);
      }
    } else {
      assert S.Less(procs, q'[0], q'[i]);
      SortedTail(procs, q');
      hide S.Sorted, S.Less;
      assert q'[1..] == q[1..][..i - 1] + [p] + q[1..][i - 1..];
      PlacedAt(procs, q[1..], p, i - 1);
      assert q' == [q[0]] + q'[1..];
    }
  }

  lemma {:induction false} IdsWith(nos: map<Node, nat>, s: seq<Node>, x: Node, i: nat)
    requires (forall n <- s :: n in nos) && x in nos && i <= |s|
    ensures Ids(nos, s[..i] + [x] + s[i..]) == Ids(nos, s)[..i] + [nos[x]] + Ids(nos, s)[i..]
  {
  }

  lemma {:induction false} SortedIds(procs: S.Procs, nos: map<Node, nat>, s: seq<Node>)
    requires forall n <- s :: n in nos
    ensures Sorted(Cmp(procs, nos), s) <==> S.Sorted(procs, Ids(nos, s))
  {
    var ids := Ids(nos, s);
    if S.Sorted(procs, ids) {
      forall i, j | 0 <= i < j < |s| ensures By(procs, nos, s[i], s[j]) {
        assert S.Less(procs, ids[i], ids[j]);
      }
    }
    if Sorted(Cmp(procs, nos), s) {
      forall i, j | 0 <= i < j < |s| ensures S.Less(procs, ids[i], ids[j]) {
        assert By(procs, nos, s[i], s[j]);
      }
    }
  }

  lemma {:induction false} Ordered(procs: S.Procs, nos: map<Node, nat>, s: set<Node>)
    requires Injective(nos) && forall n <- s :: n in nos && nos[n] in procs
    ensures OrderOn(Cmp(procs, nos), s)
  {
    forall a <- s, b <- s, c <- s ensures By(procs, nos, a, b) && By(procs, nos, b, c) ==> By(procs, nos, a, c) {
    }
    forall a <- s, b <- s, c <- s ensures !By(procs, nos, a, b) && !By(procs, nos, b, c) ==> !By(procs, nos, a, c) {
    }
  }

  lemma {:induction false} InQueue(nos: map<Node, nat>, s: seq<Node>)
    requires forall n <- s :: n in nos
    ensures forall n <- s :: nos[n] in Ids(nos, s)
  {
    forall n <- s ensures nos[n] in Ids(nos, s) {
      var i :| 0 <= i < |s| && s[i] == n;
      assert Ids(nos, s)[i] == nos[n];
    }
  }

  /** Two processes are never equal to `cmp`. */
  lemma {:induction false} NoneEqual(procs: S.Procs, nos: map<Node, nat>, s: set<Node>, x: Node)
    requires x in nos && nos[x] in procs && forall n <- s :: n in nos && nos[n] in procs && nos[n] != nos[x]
    ensures forall n <- s :: Cmp(procs, nos)(x, n) || Cmp(procs, nos)(n, x)
  {
  }

  /** A walk with one node more, in order, is what the scheduler's insertion makes of the queue. */
  lemma {:induction false} Inserted(procs: S.Procs, nos: map<Node, nat>, s: seq<Node>, x: Node, s': seq<Node>)
    requires (forall n <- s :: n in nos) && x in nos && InsertedInto(s, x, s') && Sorted(Cmp(procs, nos), s')
    ensures (forall n <- s' :: n in nos) && Ids(nos, s') == S.Placed(procs, Ids(nos, s), nos[x])
    ensures S.Sorted(procs, Ids(nos, s')) && forall p <- Ids(nos, s') :: p == nos[x] || p in Ids(nos, s)
    ensures forall n <- s' :: n in s || n == x
  {
    hide Cmp, S.Sorted, Sorted;
    var i :| 0 <= i <= |s| && s' == s[..i] + [x] + s[i..];
    assert forall n <- s' :: n in s || n == x;
    IdsWith(nos, s, x, i);
    SortedIds(procs, nos, s');
    PlacedAt(procs, Ids(nos, s), nos[x], i);
    S.PlacedHas(procs, Ids(nos, s), nos[x]);
  }

  class Queue {
    const root: Root
    const nos: map<Node, nat>

    constructor (nos: map<Node, nat>)
      requires Injective(nos)
      ensures this.nos == nos && fresh(root) && root.m == map[] && forall procs :: Holds(procs, [])
    {
      root := new Root();
      this.nos := nos;
    }

    /** The tree stands for `queue`, which is in order. */
    ghost predicate Holds(procs: S.Procs, queue: seq<nat>)
      reads root, root.m.Keys
    {
      && root.Valid() && Injective(nos) && (forall n <- InOrder(root.tree) :: n in nos)
      && Ids(nos, InOrder(root.tree)) == queue && S.Sorted(procs, queue) && forall p <- queue :: p in procs
    }

    /** Steps that leave the keys of queued processes alone leave the tree in order. */
    lemma Rekeyed(procs: S.Procs, procs': S.Procs, queue: seq<nat>)
      requires Holds(procs, queue) && forall p <- queue :: p in procs' && procs'[p].vruntime == procs[p].vruntime
      ensures Holds(procs', queue)
    {
      S.SortedSame(procs, procs', queue);
    }

    /** `_activate_proc` on the tree. */
    method Activate(s: S.State, cpu: nat, node: Node, onalert: bool) returns (ok: bool, s': S.State)
      requires S.Inv(s) && Holds(s.procs, s.queue) && node in nos && S.Enabled(s, S.Activate(cpu, nos[node], onalert))
      requires forall p <- s.procs :: s.procs[p].weight > 0
      modifies root, node, root.m.Keys
      ensures s' == S.Apply(s, S.Activate(cpu, nos[node], onalert)) && Holds(s'.procs, s'.queue)
      ensures !ok <==> var status := s.procs[nos[node]].status;
                       status in {S.Runnable, S.Running, S.Zombie} || (status == S.DeepSleeping && onalert)
    {
      hide S.Placed, S.Sorted, S.Current, S.Idling, S.Weighed, Injective;
      var p := nos[node];
      var q := s.procs[p];
      if q.status in {S.Runnable, S.Running, S.Zombie} || (q.status == S.DeepSleeping && onalert) {
        return false, s;
      }
      var first := First(s.procs, s.queue);
      var least := if first == null then s.procs[s.cur[cpu]].vruntime else s.procs[nos[first]].vruntime;
      var procs := s.procs[p := q.(status := S.Runnable, vruntime := least)];
      ok, s' := true, s.(procs := procs, queue := S.Placed(procs, s.queue, p), weightSum := s.weightSum + q.weight);
      S.ActivateKeeps(s, cpu, p, onalert);
      Rekeyed(s.procs, procs, s.queue);
      var r := Insert(procs, node, s.queue);
    }

    /** `update_this_state` on the tree. */
    method Yield(s: S.State, cpu: nat, status: S.Status, elapsed: nat, node: Node) returns (s': S.State)
      requires S.Inv(s) && S.Enabled(s, S.Sched(cpu, status, elapsed)) && s.procs[s.cur[cpu]].weight > 0
      requires Holds(s.procs, s.queue) && node in nos && nos[node] == s.cur[cpu]
      modifies root, node, root.m.Keys
      ensures s' == S.Yielded(s, cpu, status, elapsed) && Holds(s'.procs, s'.queue)
      ensures root.m.Keys <= old(root.m.Keys) + {node}
      ensures var q := s.procs[s.cur[cpu]];
              !q.idle && S.Fits(q, elapsed) ==>
                S.Paid(q.vruntime, s'.procs[s.cur[cpu]].vruntime, elapsed, q.weight)
    {
      hide S.Placed, S.Sorted, S.Current, S.Idling, S.Weighed, Injective, S.Fits, S.Paid;
      S.CallerRuns(s, cpu);
      var p := s.cur[cpu];
      var q := s.procs[p];
      if q.idle {
        s' := s.(procs := s.procs[p := q.(status := status)]);
        Rekeyed(s.procs, s'.procs, s.queue);
        return;
      }
      S.ChargedIs(q, elapsed);
      var charge := elapsed * S.DEFAULT_WEIGHT % U64 / q.weight;
      var procs := s.procs[p := q.(status := status, vruntime := (q.vruntime + charge) % U64)];
      Rekeyed(s.procs, procs, s.queue);
      if status == S.Runnable {
        var r := Insert(procs, node, s.queue);
        s' := s.(procs := procs, queue := S.Placed(procs, s.queue, p));
      } else {
        s' := s.(procs := procs, weightSum := s.weightSum - q.weight);
      }
    }

    /** `pick_next` on the tree: the node of the next process comes out, if there is one. */
    method Pick(s: S.State, cpu: nat) returns (n: Node?)
      requires S.InvBut(s, cpu) && cpu < |s.cur| == |s.idles| && S.Next(s, cpu) in s.procs && Holds(s.procs, s.queue)
      modifies root, root.m.Keys
      ensures n == null <==> s.queue == []
      ensures n != null ==> n in nos && nos[n] == S.Next(s, cpu)
      ensures var s' := S.Picked(s, cpu); Holds(s'.procs, s'.queue)
    {
      hide S.Placed, S.Sorted, S.Current, S.Idling, S.Weighed, Injective;
      n := First(s.procs, s.queue);
      if n != null {
        TakeFirst(s.procs, n, s.queue);
        Rekeyed(s.procs, S.Picked(s, cpu).procs, s.queue[1..]);
      } else {
        Rekeyed(s.procs, S.Picked(s, cpu).procs, s.queue);
      }
    }

    /** `simple_sched` on the tree. */
    method Sched(s: S.State, cpu: nat, status: S.Status, elapsed: nat, node: Node) returns (s': S.State)
      requires S.Inv(s) && S.Enabled(s, S.Sched(cpu, status, elapsed)) && forall p <- s.procs :: s.procs[p].weight > 0
      requires Holds(s.procs, s.queue) && node in nos && nos[node] == s.cur[cpu]
      modifies root, node, root.m.Keys
      ensures s' == S.Apply(s, S.Sched(cpu, status, elapsed)) && Holds(s'.procs, s'.queue)
    {
      hide S.Queued, S.Current, S.Idling, S.Weighed, S.Yielded, Injective;
      if s.procs[s.cur[cpu]].killed && status != S.Zombie {
        return s;
      }
      S.YieldKeeps(s, cpu, status, elapsed);
      s' := Yield(s, cpu, status, elapsed, node);
      S.PickFacts(s', cpu);
      ghost var s1 := s';
      var n := Pick(s', cpu);
      var next := if n == null then s'.idles[cpu] else nos[n];
      s' := s'.(queue := if n == null then [] else s'.queue[1..], cur := s'.cur[cpu := next],
          procs := s'.procs[next := s'.procs[next].(status := S.Running)]);
    }

    /** `_rb_insert` of a process that is not queued always succeeds and puts it in its place. */
    method Insert(procs: S.Procs, node: Node, ghost queue: seq<nat>) returns (r: int)
      requires Holds(procs, queue) && node in nos && nos[node] in procs && nos[node] !in queue
      modifies root, node, root.m.Keys
      ensures r == 0 && Holds(procs, S.Placed(procs, queue, nos[node])) && root.m.Keys <= old(root.m.Keys) + {node}
    {
      hide Injective, S.Sorted, Sorted, OrderOn;
      ghost var s := InOrder(root.tree);
      InQueue(nos, s);
      InOrderNodes(root.tree);
      SortedIds(procs, nos, s);
      Ordered(procs, nos, Nodes(root.tree) + {node});
      NoneEqual(procs, nos, Nodes(root.tree), node);
      r := root.Insert(node, Cmp(procs, nos));
      Inserted(procs, nos, s, node, InOrder(root.tree));
      InOrderNodes(root.tree);
    }

    /** `_rb_first`: the process that runs next. */
    method First(ghost procs: S.Procs, ghost queue: seq<nat>) returns (n: Node?)
      requires Holds(procs, queue)
      ensures n == null <==> queue == []
      ensures n != null ==> n in root.m && n in nos && nos[n] == queue[0]
    {
      n := root.First();
      InOrderNodes(root.tree);
      if n != null {
        assert InOrder(root.tree)[0] in InOrder(root.tree);
      }
    }

    /** `_rb_erase` of the process that runs next. */
    method TakeFirst(ghost procs: S.Procs, node: Node, ghost queue: seq<nat>)
      requires Holds(procs, queue) && queue != [] && node in root.m && node in nos && nos[node] == queue[0]
      modifies root, root.m.Keys
      ensures Holds(procs, queue[1..])
    {
      hide Injective, S.Sorted, InsertedInto;
      ghost var s := InOrder(root.tree);
      root.Erase(node);
      FirstTaken(procs, nos, s, node, InOrder(root.tree));
    }
  }

  lemma {:induction false} FirstTaken(procs: S.Procs, nos: map<Node, nat>, s: seq<Node>, x: Node, t: seq<Node>)
    requires (forall n <- s :: n in nos) && InsertedInto(t, x, s) && x in nos && nos[x] == nos[s[0]]
    requires S.Sorted(procs, Ids(nos, s))
    ensures (forall n <- t :: n in nos) && Ids(nos, t) == Ids(nos, s)[1..] && S.Sorted(procs, Ids(nos, t))
  {
    var i :| 0 <= i <= |t| && s == t[..i] + [x] + t[i..];
    if i > 0 {
      OnlyFirst(procs, Ids(nos, s), i);
    }
    hide S.Sorted;
    assert t == s[1..] && Ids(nos, t) == Ids(nos, s)[1..];
    SortedTail(procs, Ids(nos, s));
  }

  lemma {:induction false} OnlyFirst(procs: S.Procs, q: seq<nat>, i: nat)
    requires 0 < i < |q| && S.Sorted(procs, q)
    ensures q[i] != q[0]
  {
    assert S.Less(procs, q[0], q[i]);
  }
}
