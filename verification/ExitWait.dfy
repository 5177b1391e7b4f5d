/**
 Process exit and reaping as interleaved steps. The process tree lock is held over a whole
 exit and the scheduler lock from its end until the process is a zombie; semaphore
 operations on `childexit` slip in between at any time.
 */
module ExitWait {
  import opened Options

  /** `Leaving` is on its way into `sched(ZOMBIE)`, with the scheduler lock held. */
  datatype Status = Live | Leaving | Zombie

  /** Where a process is in `wait`: not waiting, asleep on `childexit`, or past it. */
  datatype Waiting = Idle | Asleep | Granted

  const INIT: nat := 0   // `root_proc`

  /** Processes are numbered in order of creation. */
  datatype Proc = Proc(parent: nat, kids: seq<nat>, status: Status, val: int, wait: Waiting, top: nat)

  datatype State = State(procs: map<nat, Proc>, next: nat, tree: Option<nat>, sched: Option<nat>)

  datatype Action =
    | Fork(p: nat, top: nat)   // into the container whose root process is `top`, or as the root of a new one
    | WaitSem(p: nat)
    | Interrupt(p: nat)
    | Reap(p: nat)
    | ExitLock(p: nat)
    | ExitMove(p: nat)
    | ExitSelf(p: nat)
    | ExitZombie(p: nat)

  /** `_post_sem` on a semaphore that only its owner waits on. */
  function Posted(q: Proc): Proc
  {
    q.(val := q.val + 1, wait := if q.val + 1 <= 0 then Granted else q.wait)
  }

  function IndexOf(s: seq<nat>, x: nat): (i: nat)
    requires x in s
    ensures i < |s| && s[i] == x
  {
    if s[0] == x then 0 else 1 + IndexOf(s[1..], x)
  }

  function Without(s: seq<nat>, x: nat): seq<nat>
    requires x in s
  {
    s[..IndexOf(s, x)] + s[IndexOf(s, x) + 1..]
  }

  /** `t` is the root process of a container. */
  predicate IsRoot(procs: map<nat, Proc>, t: nat)
  {
    t in procs && procs[t].top == t
  }

  /** A process forks while it runs; any thread may start one as a child of `root_proc`, also while that waits. */
  predicate Enabled(s: State, act: Action)
  {
    && act.p in s.procs && var q := s.procs[act.p];
    match act
    case Fork(p, top) =>
      && q.status == Live && (q.wait == Idle || p == INIT) && s.tree == None
      && (top == s.next || IsRoot(s.procs, top))
    case WaitSem(p) => q.status == Live && q.wait == Idle && q.kids != [] && s.tree != Some(p)
    case Interrupt(p) => q.wait == Asleep
    case Reap(p) => q.wait == Granted && q.kids != [] && s.tree == None && s.sched == None
      && q.kids[|q.kids| - 1] in s.procs
    case ExitLock(p) => q.status == Live && q.wait == Idle && s.tree == None && p != q.top
    case ExitMove(p) => s.tree == Some(p) && q.kids != [] && s.sched == None && q.kids[0] in s.procs && q.top in s.procs
    case ExitSelf(p) => s.tree == Some(p) && q.kids == [] && s.sched == None && q.parent in s.procs
      && p in s.procs[q.parent].kids
    case ExitZombie(p) => s.sched == Some(p)
  }

  function AfterFork(s: State, p: nat, top: nat): State
    requires p in s.procs
  {
    var q, c := s.procs[p], s.next;
    s.(procs := s.procs[p := q.(kids := [c] + q.kids)][c := Proc(p, [], Live, 0, Idle, top)], next := c + 1)
  }

  function AfterReap(s: State, p: nat): State
    requires p in s.procs && s.procs[p].kids != [] && s.procs[p].kids[|s.procs[p].kids| - 1] in s.procs
  {
    var q := s.procs[p];
    var z := q.kids[|q.kids| - 1];
    if s.procs[z].status == Zombie
        then s.(procs := s.procs[p := q.(kids := q.kids[..|q.kids| - 1], wait := Idle)] - {z})
    else s.(procs := s.procs[p := q.(wait := Idle)])
  }

  /** One child goes to the container's root process: zombies to the tail, with a post, others to the head. */
  function AfterMove(s: State, p: nat): State
    requires p in s.procs && s.procs[p].kids != [] && s.procs[p].kids[0] in s.procs && s.procs[p].top in s.procs
  {
    var q := s.procs[p];
    var c, r := q.kids[0], q.top;
    var procs1 := s.procs[p := q.(kids := q.kids[1..])][c := s.procs[c].(parent := r)];
    var root := procs1[r];
    s.(procs := procs1[r := if s.procs[c].status == Zombie then Posted(root.(kids := root.kids + [c]))
        else root.(kids := [c] + root.kids)])
  }

  function AfterSelf(s: State, p: nat): State
    requires p in s.procs && s.procs[p].parent in s.procs && p in s.procs[s.procs[p].parent].kids
  {
    var q := s.procs[p];
    var f := s.procs[q.parent];
    s.(procs := s.procs[q.parent := Posted(f.(kids := Without(f.kids, p) + [p]))][p := q.(status := Leaving)],
      tree := None, sched := Some(p))
  }

  function Apply(s: State, act: Action): State
    requires Enabled(s, act)
  {
    var p := act.p;
    var q := s.procs[p];
    match act
    case Fork(_, top) => AfterFork(s, p, top)
    case WaitSem(_) => s.(procs := s.procs[p := q.(val := q.val - 1, wait := if q.val - 1 >= 0 then Granted
        else Asleep)])
    case Interrupt(_) => s.(procs := s.procs[p := q.(val := q.val + 1, wait := Idle)])
    case Reap(_) => AfterReap(s, p)
    case ExitLock(_) => s.(tree := Some(p))
    case ExitMove(_) => AfterMove(s, p)
    case ExitSelf(_) => AfterSelf(s, p)
    case ExitZombie(_) => s.(procs := s.procs[p := q.(status := Zombie)], sched := None)
  }

  // The invariant.

  /** The children of `p` know it, are younger and all different; only the living have any. */
  ghost predicate KidsOk(procs: map<nat, Proc>, p: nat)
    requires p in procs
  {
    var kids := procs[p].kids;
    && (forall i | 0 <= i < |kids| :: kids[i] in procs && procs[kids[i]].parent == p && p < kids[i])
    && (forall i, j | 0 <= i < j < |kids| :: kids[i] != kids[j])
    && (kids != [] ==> procs[p].status == Live)
  }

  ghost predicate HasParent(procs: map<nat, Proc>, c: nat)
    requires c in procs
  {
    c == INIT || (procs[c].parent in procs && c in procs[procs[c].parent].kids)
  }

  ghost predicate Linked(procs: map<nat, Proc>)
  {
    (forall p <- procs :: KidsOk(procs, p)) && forall c <- procs :: HasParent(procs, c)
  }

  /** Container roots are live and older than what they contain. */
  ghost predicate TopOk(procs: map<nat, Proc>, p: nat)
    requires p in procs
  {
    var t := procs[p].top;
    t in procs && t <= p && procs[t].status == Live && procs[t].top == t
  }

  ghost predicate Rooted(procs: map<nat, Proc>)
  {
    forall p <- procs :: TopOk(procs, p)
  }

  ghost predicate Gone(procs: map<nat, Proc>, c: nat)
  {
    c in procs && procs[c].status != Live
  }

  /** The children on their way out are the last `n`. */
  ghost predicate LastGone(procs: map<nat, Proc>, kids: seq<nat>, n: int)
  {
    0 <= n <= |kids| && forall i | 0 <= i < |kids| :: Gone(procs, kids[i]) <==> i >= |kids| - n
  }

  /** Tokens, and the one a waiter has or wants. */
  ghost function Due(q: Proc): int
  {
    q.val + if q.wait == Idle then 0 else 1
  }

  /** For every process but the one that is exiting: tokens and granted waits are its zombies. */
  ghost predicate Counted(procs: map<nat, Proc>, exiting: Option<nat>)
  {
    forall p <- procs | procs[p].status == Live && exiting != Some(p) ::
      LastGone(procs, procs[p].kids, Due(procs[p])) && (procs[p].wait == Asleep <==> procs[p].val < 0)
  }

  ghost predicate Locks(procs: map<nat, Proc>, next: nat, tree: Option<nat>, sched: Option<nat>)
  {
    && (forall p <- procs ::
        p < next && (procs[p].status == Leaving <==> sched == Some(p))
        && (procs[p].wait != Idle ==> procs[p].status == Live))
    && (tree.Some? ==> tree.value in procs && procs[tree.value].status == Live && procs[tree.value].wait == Idle
                       && procs[tree.value].top != tree.value)
    && (sched.Some? ==> sched.value in procs) && INIT in procs && procs[INIT].top == INIT
  }

  ghost predicate Inv(s: State)
  {
    Linked(s.procs) && Rooted(s.procs) && Counted(s.procs, s.tree) && Locks(s.procs, s.next, s.tree, s.sched)
  }

  function Boot(): State
  {
    State(map[INIT := Proc(INIT, [], Live, 0, Idle, INIT)], 1, None, None)
  }

  lemma {:induction false} BootOk()
    ensures Inv(Boot())
  {
  }

  // What every step keeps.

  /** Only semaphores have changed. */
  ghost predicate SameShape(procs: map<nat, Proc>, procs': map<nat, Proc>)
  {
    && procs'.Keys == procs.Keys
    && forall p <- procs :: procs'[p] == procs[p].(val := procs'[p].val, wait := procs'[p].wait)
  }

  lemma {:induction false} ShapeKeeps(procs: map<nat, Proc>, procs': map<nat, Proc>)
    requires SameShape(procs, procs') && Linked(procs) && Rooted(procs)
    ensures Linked(procs') && Rooted(procs') && forall c :: Gone(procs', c) <==> Gone(procs, c)
  {
    forall p <- procs ensures KidsOk(procs', p) && HasParent(procs', p) && TopOk(procs', p) {
      assert KidsOk(procs, p) && HasParent(procs, p) && TopOk(procs, p);
    }
  }

  lemma {:induction false} SameGone(procs: map<nat, Proc>, procs': map<nat, Proc>, kids: seq<nat>, n: int)
    requires LastGone(procs, kids, n) && forall c <- kids :: Gone(procs', c) <==> Gone(procs, c)
    ensures LastGone(procs', kids, n)
  {
    hide Gone;
  }

  lemma {:induction false} SemKeeps(s: State, procs': map<nat, Proc>, p: nat)
    requires Inv(s) && SameShape(s.procs, procs') && p in s.procs && s.tree != Some(p)
             && (forall q <- s.procs | q != p :: procs'[q] == s.procs[q])
    requires s.procs[p].status == Live && Due(procs'[p]) == Due(s.procs[p])
             && (procs'[p].wait == Asleep <==> procs'[p].val < 0)
    ensures Inv(s.(procs := procs'))
  {
    hide LastGone, Linked, Rooted;
    ShapeKeeps(s.procs, procs');
    forall q <- procs' | procs'[q].status == Live && s.tree != Some(q)
      ensures LastGone(procs', procs'[q].kids, Due(procs'[q]))
    {
      SameGone(s.procs, procs', s.procs[q].kids, Due(s.procs[q]));
    }
  }

  lemma {:induction false} WaitKeeps(s: State, p: nat)
    requires Inv(s) && Enabled(s, WaitSem(p))
    ensures Inv(Apply(s, WaitSem(p)))
  {
    hide LastGone, Linked, Rooted;
    SemKeeps(s, Apply(s, WaitSem(p)).procs, p);
  }

  lemma {:induction false} InterruptKeeps(s: State, p: nat)
    requires Inv(s) && Enabled(s, Interrupt(p))
    ensures Inv(Apply(s, Interrupt(p)))
  {
    hide Gone, Linked, Rooted;
    assert LastGone(s.procs, s.procs[p].kids, Due(s.procs[p]));
    SemKeeps(s, Apply(s, Interrupt(p)).procs, p);
  }

  // Framing.

  lemma {:induction false} KidsFrame(procs: map<nat, Proc>, procs': map<nat, Proc>, q: nat)
    requires q in procs && q in procs' && KidsOk(procs, q) && procs'[q].kids == procs[q].kids
             && procs'[q].status == procs[q].status
    requires forall c <- procs[q].kids :: c in procs && c in procs' && procs'[c].parent == procs[c].parent
    ensures KidsOk(procs', q)
  {
  }

  lemma {:induction false} ParentFrame(procs: map<nat, Proc>, procs': map<nat, Proc>, c: nat)
    requires c in procs && c in procs' && HasParent(procs, c) && procs'[c].parent == procs[c].parent
    requires c != INIT ==> procs[c].parent in procs'
                           && (c in procs[procs[c].parent].kids ==> c in procs'[procs[c].parent].kids)
    ensures HasParent(procs', c)
  {
  }

  lemma {:induction false} TopFrame(procs: map<nat, Proc>, procs': map<nat, Proc>, q: nat)
    requires q in procs && q in procs' && TopOk(procs, q) && procs'[q].top == procs[q].top
    requires procs[q].top in procs' && procs'[procs[q].top].status == Live
             && procs'[procs[q].top].top == procs[procs[q].top].top
    ensures TopOk(procs', q)
  {
  }

  lemma {:induction false} KidFacts(procs: map<nat, Proc>, q: nat, c: nat)
    requires Linked(procs) && q in procs && c in procs[q].kids
    ensures c in procs && procs[c].parent == q && q < c && procs[q].status == Live && c != INIT
  {
    assert KidsOk(procs, q);
    hide HasParent;
    var i :| 0 <= i < |procs[q].kids| && procs[q].kids[i] == c;
  }

  lemma {:induction false} TopFacts(procs: map<nat, Proc>, q: nat)
    requires Rooted(procs) && q in procs
    ensures procs[q].top in procs && procs[q].top <= q && procs[procs[q].top].status == Live
            && procs[procs[q].top].top == procs[q].top
  {
    assert TopOk(procs, q);
  }

  lemma {:induction false} LinkedAt(procs: map<nat, Proc>, q: nat)
    requires Linked(procs) && Rooted(procs) && q in procs
    ensures KidsOk(procs, q) && HasParent(procs, q) && TopOk(procs, q)
  {
    hide KidsOk, HasParent, TopOk;
  }

  lemma {:induction false} ForkKeeps(s: State, p: nat, top: nat)
    requires Inv(s) && Enabled(s, Fork(p, top))
    ensures Inv(AfterFork(s, p, top))
  {
    hide KidsOk, HasParent, TopOk, Counted, LastGone;
    var s' := AfterFork(s, p, top);
    var c := s.next;
    assert c !in s.procs;
    ForkLinks(s, p, top);
    ForkCounts(s, p, top);
  }

  lemma {:induction false} ForkLinks(s: State, p: nat, top: nat)
    requires Linked(s.procs) && Rooted(s.procs) && Locks(s.procs, s.next, s.tree, s.sched) && Enabled(s, Fork(p, top))
    ensures Linked(AfterFork(s, p, top).procs) && Rooted(AfterFork(s, p, top).procs)
  {
    hide KidsOk, HasParent, TopOk;
    var procs, procs', c := s.procs, AfterFork(s, p, top).procs, s.next;
    if top != c {
      TopFacts(procs, top);
    }
    forall q <- procs' ensures KidsOk(procs', q) && HasParent(procs', q) && TopOk(procs', q) {
      if q != c {
        LinkedAt(procs, q);
        forall k <- procs[q].kids ensures k in procs && k != c {
          KidFacts(procs, q, k);
        }
        TopFacts(procs, q);
        ParentFacts(procs, q);
        ParentFrame(procs, procs', q);
        TopFrame(procs, procs', q);
        if q == p {
          ForkKids(procs, procs', p, c);
        } else {
          KidsFrame(procs, procs', q);
        }
      } else {
        NewOk(procs', p, c);
      }
    }
  }

  lemma {:induction false} ParentFacts(procs: map<nat, Proc>, c: nat)
    requires Linked(procs) && c in procs
    ensures c != INIT ==> procs[c].parent in procs && c in procs[procs[c].parent].kids
  {
    hide KidsOk;
    assert HasParent(procs, c);
  }

  lemma {:induction false} ForkKids(procs: map<nat, Proc>, procs': map<nat, Proc>, p: nat, c: nat)
    requires p in procs && KidsOk(procs, p) && p in procs' && c in procs' && procs'[p].kids == [c] + procs[p].kids
             && procs'[p].status == Live
    requires procs'[c].parent == p < c && c !in procs[p].kids
             && forall k <- procs[p].kids :: k in procs && k in procs' && procs'[k].parent == procs[k].parent
    ensures KidsOk(procs', p)
  {
  }

  lemma {:induction false} NewOk(procs: map<nat, Proc>, p: nat, c: nat)
    requires p in procs && c in procs && procs[c].parent == p && procs[c].kids == [] && procs[p].kids != []
             && procs[p].kids[0] == c
    requires procs[c].top == c
             || (procs[c].top <= c && procs[c].top in procs && procs[procs[c].top].top == procs[c].top
             && procs[procs[c].top].status == Live)
    requires procs[c].status == Live
    ensures KidsOk(procs, c) && HasParent(procs, c) && TopOk(procs, c)
  {
  }

  lemma {:induction false} ForkCounts(s: State, p: nat, top: nat)
    requires Linked(s.procs) && Counted(s.procs, s.tree) && Locks(s.procs, s.next, s.tree, s.sched)
             && Enabled(s, Fork(p, top))
    ensures Counted(AfterFork(s, p, top).procs, s.tree)
  {
    hide LastGone, HasParent;
    var s' := AfterFork(s, p, top);
    var c := s.next;
    forall q <- s'.procs | s'.procs[q].status == Live ensures LastGone(s'.procs, s'.procs[q].kids, Due(s'.procs[q])) {
      if q == c {
        NoneGone(s'.procs);
      } else {
        var kids, n := s.procs[q].kids, Due(s.procs[q]);
        assert KidsOk(s.procs, q);
        SameGone(s.procs, s'.procs, kids, n);
        if q == p {
          GoneFront(s'.procs, kids, n, c);
        }
      }
    }
  }

  lemma {:induction false} NoneGone(procs: map<nat, Proc>)
    ensures LastGone(procs, [], 0)
  {
  }

  lemma {:induction false} GoneFront(procs: map<nat, Proc>, kids: seq<nat>, n: int, c: nat)
    requires LastGone(procs, kids, n) && !Gone(procs, c)
    ensures LastGone(procs, [c] + kids, n)
  {
    hide Gone;
    var t := [c] + kids;
    forall i | 0 <= i < |t| ensures Gone(procs, t[i]) <==> i >= |t| - n {
      if i > 0 {
        assert t[i] == kids[i - 1];
      }
    }
  }

  lemma {:induction false} GoneBack(procs: map<nat, Proc>, kids: seq<nat>, n: int, c: nat)
    requires LastGone(procs, kids, n) && Gone(procs, c)
    ensures LastGone(procs, kids + [c], n + 1)
  {
    hide Gone;
  }

  lemma {:induction false} LockKeeps(s: State, p: nat)
    requires Inv(s) && Enabled(s, ExitLock(p))
    ensures Inv(s.(tree := Some(p)))
  {
    hide LastGone, Linked, Rooted;
  }

  lemma {:induction false} ZombieKeeps(s: State, p: nat)
    requires Inv(s) && Enabled(s, ExitZombie(p))
    ensures Inv(Apply(s, ExitZombie(p)))
  {
    hide LastGone, KidsOk, HasParent, TopOk;
    var procs, procs' := s.procs, s.procs[p := s.procs[p].(status := Zombie)];
    Childless(procs, p);
    forall q <- procs' ensures KidsOk(procs', q) && HasParent(procs', q) && TopOk(procs', q) {
      LinkedAt(procs, q);
      TopFacts(procs, q);
      ParentFacts(procs, q);
      ParentFrame(procs, procs', q);
      TopFrame(procs, procs', q);
      if q == p {
        NoKids(procs', q);
      } else {
        forall k <- procs[q].kids ensures k in procs {
          KidFacts(procs, q, k);
        }
        KidsFrame(procs, procs', q);
      }
    }
    forall q <- procs' | procs'[q].status == Live && s.tree != Some(q)
      ensures LastGone(procs', procs'[q].kids, Due(procs'[q]))
    {
      SameGone(procs, procs', procs[q].kids, Due(procs[q]));
    }
  }

  lemma {:induction false} NoKids(procs: map<nat, Proc>, q: nat)
    requires q in procs && procs[q].kids == []
    ensures KidsOk(procs, q)
  {
  }

  lemma {:induction false} Childless(procs: map<nat, Proc>, q: nat)
    requires Linked(procs) && q in procs && procs[q].status != Live
    ensures procs[q].kids == []
  {
    assert KidsOk(procs, q);
  }

  // Reaping.

  /** A granted wait always finds a zombie at the tail. */
  lemma {:induction false} GrantedFindsZombie(s: State, p: nat)
    requires Inv(s) && p in s.procs && s.procs[p].wait == Granted
    ensures var kids := s.procs[p].kids; kids != [] && kids[|kids| - 1] in s.procs
                                         && s.procs[kids[|kids| - 1]].status != Live
    ensures var kids := s.procs[p].kids; s.sched == None ==> s.procs[kids[|kids| - 1]].status == Zombie
  {
    hide Rooted;
    assert LastGone(s.procs, s.procs[p].kids, Due(s.procs[p]));
    var kids := s.procs[p].kids;
    assert Gone(s.procs, kids[|kids| - 1]);
  }

  lemma {:induction false} ReapKeeps(s: State, p: nat)
    requires Inv(s) && Enabled(s, Reap(p))
    ensures Inv(AfterReap(s, p))
  {
    hide KidsOk, HasParent, TopOk, Counted, Gone, LastGone;
    GrantedFindsZombie(s, p);
    ReapLinks(s, p);
    ReapCounts(s, p);
    KidFacts(s.procs, p, s.procs[p].kids[|s.procs[p].kids| - 1]);
  }

  lemma {:induction false} ReapLinks(s: State, p: nat)
    requires Linked(s.procs) && Rooted(s.procs) && Enabled(s, Reap(p))
    requires s.procs[s.procs[p].kids[|s.procs[p].kids| - 1]].status == Zombie
    ensures Linked(AfterReap(s, p).procs) && Rooted(AfterReap(s, p).procs)
  {
    hide KidsOk, HasParent, TopOk;
    var procs, procs' := s.procs, AfterReap(s, p).procs;
    var kids := procs[p].kids;
    var z := kids[|kids| - 1];
    KidFacts(procs, p, z);
    Childless(procs, z);
    forall q <- procs' ensures KidsOk(procs', q) && HasParent(procs', q) && TopOk(procs', q) {
      LinkedAt(procs, q);
      TopFacts(procs, q);
      ParentFacts(procs, q);
      if q in kids {
        var i :| 0 <= i < |kids| && kids[i] == q;
        assert kids[..|kids| - 1][i] == q;
      }
      ParentFrame(procs, procs', q);
      TopFrame(procs, procs', q);
      forall k <- procs[q].kids ensures k in procs && procs[k].parent == q {
        KidFacts(procs, q, k);
      }
      if q == p {
        DistinctLast(procs, p);
        assert forall k <- procs'[q].kids :: k in kids && k != z;
        FewerKids(procs, procs', q);
      } else {
        KidsFrame(procs, procs', q);
      }
    }
  }

  lemma {:induction false} FewerKids(procs: map<nat, Proc>, procs': map<nat, Proc>, q: nat)
    requires q in procs && q in procs' && KidsOk(procs, q) && procs[q].kids != [] && procs'[q].status == procs[q].status
    requires procs'[q].kids == procs[q].kids[..|procs[q].kids| - 1] || procs'[q].kids == procs[q].kids[1..]
    requires forall c <- procs'[q].kids :: c in procs' && procs'[c].parent == q
    ensures KidsOk(procs', q)
  {
    var kids, kids' := procs[q].kids, procs'[q].kids;
    forall i | 0 <= i < |kids'| ensures kids'[i] in procs' && procs'[kids'[i]].parent == q && q < kids'[i] {
      assert kids'[i] in kids';
    }
  }

  lemma {:induction false} ReapCounts(s: State, p: nat)
    requires Linked(s.procs) && Counted(s.procs, s.tree) && Enabled(s, Reap(p)) && s.procs[p].status == Live
    requires s.procs[s.procs[p].kids[|s.procs[p].kids| - 1]].status == Zombie
    ensures Counted(AfterReap(s, p).procs, s.tree)
  {
    hide KidsOk, HasParent, LastGone;
    var procs, procs' := s.procs, AfterReap(s, p).procs;
    var kids := procs[p].kids;
    var z := kids[|kids| - 1];
    KidFacts(procs, p, z);
    forall q <- procs' | procs'[q].status == Live
      ensures LastGone(procs', procs'[q].kids, Due(procs'[q])) && (procs'[q].wait == Asleep <==> procs'[q].val < 0)
    {
      assert LastGone(procs, procs[q].kids, Due(procs[q]));
      if q == p {
        DropLast(procs, procs[q].kids, Due(procs[q]));
        DistinctLast(procs, p);
      }
      forall k <- procs'[q].kids ensures k != z && k in procs {
        assert k in procs[q].kids;
        KidFacts(procs, q, k);
      }
      SameGone(procs, procs', procs'[q].kids, Due(procs'[q]));
    }
  }

  lemma {:induction false} DropLast(procs: map<nat, Proc>, kids: seq<nat>, n: int)
    requires LastGone(procs, kids, n) && kids != [] && Gone(procs, kids[|kids| - 1])
    ensures n > 0 && LastGone(procs, kids[..|kids| - 1], n - 1)
  {
    hide Gone;
  }

  lemma {:induction false} DistinctLast(procs: map<nat, Proc>, q: nat)
    requires Linked(procs) && q in procs && procs[q].kids != []
    ensures var kids := procs[q].kids; kids[|kids| - 1] !in kids[..|kids| - 1] && kids[0] !in kids[1..]
  {
    assert KidsOk(procs, q);
    hide HasParent;
  }

  // Exiting.

  lemma {:induction false} PostCounts(procs: map<nat, Proc>, q: Proc)
    requires q.wait == Asleep <==> q.val < 0
    requires Due(q) >= 0
    ensures Due(Posted(q)) == Due(q) + 1 && (Posted(q).wait == Asleep <==> Posted(q).val < 0)
  {
  }

  /** The root process is neither the exiting one nor its child. */
  lemma {:induction false} MoveFacts(s: State, p: nat, c: nat, r: nat)
    requires Enabled(s, ExitMove(p)) && c == s.procs[p].kids[0] && r == s.procs[p].top && r in s.procs && c in s.procs
    requires Linked(s.procs) && Rooted(s.procs) && Locks(s.procs, s.next, s.tree, s.sched)
    ensures r < p < c && s.procs[r].status == Live && s.procs[c].parent == p && c !in s.procs[r].kids
    ensures s.procs[c].status != Leaving
  {
    hide KidsOk, HasParent, TopOk;
    TopFacts(s.procs, p);
    KidFacts(s.procs, p, c);
    if c in s.procs[r].kids {
      KidFacts(s.procs, r, c);
    }
  }

  lemma {:induction false} MoveLinks(s: State, p: nat, s': State)
    requires Enabled(s, ExitMove(p)) && s' == AfterMove(s, p)
    requires Linked(s.procs) && Rooted(s.procs) && Locks(s.procs, s.next, s.tree, s.sched)
    ensures Linked(s'.procs) && Rooted(s'.procs)
  {
    hide KidsOk, HasParent, TopOk;
    MoveFacts(s, p, s.procs[p].kids[0], s.procs[p].top);
    var procs, procs' := s.procs, AfterMove(s, p).procs;
    var c, r := procs[p].kids[0], procs[p].top;
    assert procs'.Keys == procs.Keys;
    DistinctLast(procs, p);
    forall q <- procs' ensures KidsOk(procs', q) && HasParent(procs', q) && TopOk(procs', q) {
      MovedParent(s, p, q, s');
      LinkedAt(procs, q);
      TopFacts(procs, q);
      TopFrame(procs, procs', q);
      forall k <- procs[q].kids ensures k in procs && procs[k].parent == q {
        KidFacts(procs, q, k);
      }
      if q == p {
        assert forall k <- procs'[q].kids :: k in procs[q].kids && k != c;
        FewerKids(procs, procs', q);
      } else if q == r {
        MoreKids(procs, procs', q, c);
      } else {
        KidsFrame(procs, procs', q);
      }
    }
  }

  /** What handing over the first child changes. */
  lemma {:induction false} MoveShape(s: State, p: nat, c: nat, r: nat, s': State)
    requires Enabled(s, ExitMove(p)) && s' == AfterMove(s, p) && c == s.procs[p].kids[0] && r == s.procs[p].top
    requires r < p < c
    ensures s'.procs.Keys == s.procs.Keys && s'.procs[p] == s.procs[p].(kids := s.procs[p].kids[1..])
    ensures s'.procs[c] == s.procs[c].(parent := r) && s'.procs[r].parent == s.procs[r].parent
    ensures s'.procs[r].kids == s.procs[r].kids + [c] || s'.procs[r].kids == [c] + s.procs[r].kids
    ensures forall q <- s.procs :: q != p && q != c && q != r ==> s'.procs[q] == s.procs[q]
  {
  }

  lemma {:induction false} MovedParent(s: State, p: nat, q: nat, s': State)
    requires Enabled(s, ExitMove(p)) && s' == AfterMove(s, p) && q in s.procs && q in s'.procs
    requires Linked(s.procs) && Rooted(s.procs) && Locks(s.procs, s.next, s.tree, s.sched)
    ensures HasParent(s'.procs, q)
  {
    hide KidsOk, TopOk, AfterMove;
    var procs, procs' := s.procs, s'.procs;
    var c, r, kids := procs[p].kids[0], procs[p].top, procs[p].kids;
    MoveFacts(s, p, c, r);
    MoveShape(s, p, c, r, s');
    ParentFacts(procs, q);
    hide Linked, Rooted, Locks, Enabled;
    if q == c {
      assert c in procs'[r].kids by {
        assert procs'[r].kids[0] == c || procs'[r].kids[|procs'[r].kids| - 1] == c;
      }
    } else if q in kids {
      var i :| 0 <= i < |kids| && kids[i] == q;
      assert kids[1..][i - 1] == q;
    }
  }

  lemma {:induction false} MoreKids(procs: map<nat, Proc>, procs': map<nat, Proc>, q: nat, c: nat)
    requires q in procs && q in procs' && KidsOk(procs, q) && procs'[q].status == Live && c in procs'
             && procs'[c].parent == q && q < c && c !in procs[q].kids
    requires procs'[q].kids == [c] + procs[q].kids || procs'[q].kids == procs[q].kids + [c]
    requires forall k <- procs[q].kids :: k in procs' && procs'[k].parent == q
    ensures KidsOk(procs', q)
  {
    var kids, kids' := procs[q].kids, procs'[q].kids;
    forall i | 0 <= i < |kids'| ensures kids'[i] == c || kids'[i] in kids {
    }
  }

  lemma {:induction false} MoveCounts(s: State, p: nat)
    requires Inv(s) && Enabled(s, ExitMove(p))
    ensures Counted(AfterMove(s, p).procs, s.tree)
  {
    hide KidsOk, HasParent, TopOk, LastGone;
    MoveFacts(s, p, s.procs[p].kids[0], s.procs[p].top);
    var procs, procs' := s.procs, AfterMove(s, p).procs;
    var c, r := procs[p].kids[0], procs[p].top;
    assert forall k <- procs :: Gone(procs', k) <==> Gone(procs, k);
    forall q <- procs' | procs'[q].status == Live && q != p
      ensures LastGone(procs', procs'[q].kids, Due(procs'[q])) && (procs'[q].wait == Asleep <==> procs'[q].val < 0)
    {
      var kids, n := procs[q].kids, Due(procs[q]);
      forall k <- kids ensures k in procs {
        KidFacts(procs, q, k);
      }
      SameGone(procs, procs', kids, n);
      if q == r {
        DueBound(procs, kids, n);
        PostCounts(procs, procs[r]);
        if procs[c].status == Zombie {
          GoneBack(procs', kids, n, c);
        } else {
          GoneFront(procs', kids, n, c);
        }
      }
    }
  }

  lemma {:induction false} DueBound(procs: map<nat, Proc>, kids: seq<nat>, n: int)
    requires LastGone(procs, kids, n)
    ensures n >= 0
  {
  }

  lemma {:induction false} MoveKeeps(s: State, p: nat)
    requires Inv(s) && Enabled(s, ExitMove(p))
    ensures Inv(AfterMove(s, p))
  {
    hide KidsOk, HasParent, TopOk, LastGone, Counted;
    MoveFacts(s, p, s.procs[p].kids[0], s.procs[p].top);
    MoveLinks(s, p, AfterMove(s, p));
    MoveCounts(s, p);
  }

  lemma {:induction false} WithoutOne(s: seq<nat>, x: nat)
    requires x in s && forall i, j | 0 <= i < j < |s| :: s[i] != s[j]
    ensures |Without(s, x)| == |s| - 1 && x !in Without(s, x) && (forall y :: y in Without(s, x) <==> y in s && y != x)
    ensures forall i, j | 0 <= i < j < |s| - 1 :: Without(s, x)[i] != Without(s, x)[j]
  {
    hide IndexOf;
    var k, t := IndexOf(s, x), Without(s, x);
    assert forall i | 0 <= i < |t| :: t[i] == if i < k then s[i] else s[i + 1];
    forall y ensures y in t <==> y in s && y != x {
      if y in s && y != x {
        var i :| 0 <= i < |s| && s[i] == y;
        assert t[if i < k then i else i - 1] == y;
      }
    }
  }

  /** Taking out a child that has not left changes nothing about the others. */
  lemma {:induction false} GoneWithout(procs: map<nat, Proc>, kids: seq<nat>, n: int, x: nat)
    requires LastGone(procs, kids, n) && x in kids && !Gone(procs, x)
    ensures LastGone(procs, Without(kids, x), n)
  {
    hide Gone, IndexOf;
    var k, t := IndexOf(kids, x), Without(kids, x);
    assert forall i | 0 <= i < |t| :: t[i] == if i < k then kids[i] else kids[i + 1];
  }

  lemma {:induction false} DistinctKids(procs: map<nat, Proc>, q: nat)
    requires Linked(procs) && q in procs
    ensures forall i, j | 0 <= i < j < |procs[q].kids| :: procs[q].kids[i] != procs[q].kids[j]
  {
    assert KidsOk(procs, q);
    hide HasParent;
  }

  lemma {:induction false} SelfFacts(s: State, p: nat)
    requires Enabled(s, ExitSelf(p))
    requires Linked(s.procs) && Rooted(s.procs) && Locks(s.procs, s.next, s.tree, s.sched)
    ensures var f := s.procs[p].parent; f < p && s.procs[f].status == Live && p != INIT
                                        && forall q <- s.procs :: s.procs[q].top != p
  {
    hide KidsOk, HasParent, TopOk;
    KidFacts(s.procs, s.procs[p].parent, p);
    forall q <- s.procs ensures s.procs[q].top != p {
      TopFacts(s.procs, q);
    }
  }

  lemma {:induction false} SelfLinks(s: State, p: nat, s': State)
    requires Enabled(s, ExitSelf(p)) && s' == AfterSelf(s, p)
    requires Linked(s.procs) && Rooted(s.procs) && Locks(s.procs, s.next, s.tree, s.sched)
    ensures Linked(s'.procs) && Rooted(s'.procs)
  {
    hide KidsOk, HasParent, TopOk, Without;
    SelfFacts(s, p);
    var procs, procs' := s.procs, s'.procs;
    var f := procs[p].parent;
    DistinctKids(procs, f);
    WithoutOne(procs[f].kids, p);
    assert procs'.Keys == procs.Keys;
    assert forall k :: k in procs'[f].kids <==> k in procs[f].kids;
    forall q <- procs' ensures KidsOk(procs', q) && HasParent(procs', q) && TopOk(procs', q) {
      LinkedAt(procs, q);
      TopFacts(procs, q);
      ParentFacts(procs, q);
      ParentFrame(procs, procs', q);
      TopFrame(procs, procs', q);
      forall k <- procs[q].kids ensures k in procs && procs[k].parent == q {
        KidFacts(procs, q, k);
      }
      if q == p {
        NoKids(procs', q);
      } else if q == f {
        SameKids(procs, procs', q);
      } else {
        KidsFrame(procs, procs', q);
      }
    }
  }

  /** The same children in another order. */
  lemma {:induction false} SameKids(procs: map<nat, Proc>, procs': map<nat, Proc>, q: nat)
    requires q in procs && q in procs' && KidsOk(procs, q) && procs'[q].status == Live
             && (forall k <- procs'[q].kids :: k in procs[q].kids)
    requires forall i, j | 0 <= i < j < |procs'[q].kids| :: procs'[q].kids[i] != procs'[q].kids[j]
    requires forall k <- procs[q].kids :: k in procs' && procs'[k].parent == q
    ensures KidsOk(procs', q)
  {
    var kids' := procs'[q].kids;
    forall i | 0 <= i < |kids'| ensures kids'[i] in procs' && procs'[kids'[i]].parent == q && q < kids'[i] {
      assert kids'[i] in kids';
    }
  }

  lemma {:induction false} SelfCounts(s: State, p: nat, s': State)
    requires Enabled(s, ExitSelf(p)) && s' == AfterSelf(s, p)
    requires Inv(s)
    ensures Counted(s'.procs, None)
  {
    hide KidsOk, HasParent, TopOk, LastGone, Without;
    SelfFacts(s, p);
    var procs, procs' := s.procs, s'.procs;
    var f := procs[p].parent;
    DistinctKids(procs, f);
    WithoutOne(procs[f].kids, p);
    assert forall k <- procs :: k != p ==> (Gone(procs', k) <==> Gone(procs, k));
    forall q <- procs' | procs'[q].status == Live
      ensures LastGone(procs', procs'[q].kids, Due(procs'[q])) && (procs'[q].wait == Asleep <==> procs'[q].val < 0)
    {
      var kids, n := procs[q].kids, Due(procs[q]);
      forall k <- kids ensures k in procs && procs[k].parent == q {
        KidFacts(procs, q, k);
      }
      if q == f {
        DueBound(procs, kids, n);
        PostCounts(procs, procs[f]);
        GoneWithout(procs, kids, n, p);
        SameGone(procs, procs', Without(kids, p), n);
        GoneBack(procs', Without(kids, p), n, p);
      } else {
        SameGone(procs, procs', kids, n);
      }
    }
  }

  lemma {:induction false} SelfKeeps(s: State, p: nat, s': State)
    requires Enabled(s, ExitSelf(p)) && s' == AfterSelf(s, p)
    requires Inv(s)
    ensures Inv(s')
  {
    hide KidsOk, HasParent, TopOk, LastGone, Counted, Without;
    SelfFacts(s, p);
    SelfLinks(s, p, s');
    SelfCounts(s, p, s');
  }

  // Whole runs.

  lemma {:induction false} StepKeeps(s: State, act: Action)
    requires Inv(s) && Enabled(s, act)
    ensures Inv(Apply(s, act))
  {
    hide Inv;
    match act
    case Fork(p, top) => ForkKeeps(s, p, top);
    case WaitSem(p) => WaitKeeps(s, p);
    case Interrupt(p) => InterruptKeeps(s, p);
    case Reap(p) => ReapKeeps(s, p);
    case ExitLock(p) => LockKeeps(s, p);
    case ExitMove(p) => MoveKeeps(s, p);
    case ExitSelf(p) => SelfKeeps(s, p, AfterSelf(s, p));
    case ExitZombie(p) => ZombieKeeps(s, p);
  }

  ghost predicate Run(s: State, acts: seq<Action>, s': State)
    decreases |acts|
  {
    if acts == [] then s' == s else Enabled(s, acts[0]) && Run(Apply(s, acts[0]), acts[1..], s')
  }

  lemma {:induction false} RunKeeps(s: State, acts: seq<Action>, s': State)
    requires Inv(s) && Run(s, acts, s')
    ensures Inv(s')
    decreases |acts|
  {
    hide Inv, Apply, Enabled;
    if acts != [] {
      StepKeeps(s, acts[0]);
      RunKeeps(Apply(s, acts[0]), acts[1..], s');
    }
  }

  /** In every interleaving: whenever a wait is past its semaphore, the tail of its child list has exited. */
  lemma {:induction false} WaitNeverMisses(acts: seq<Action>, s: State, p: nat)
    requires Run(Boot(), acts, s) && p in s.procs && s.procs[p].wait == Granted && s.tree == None && s.sched == None
    ensures Enabled(s, Reap(p)) && s.procs[s.procs[p].kids[|s.procs[p].kids| - 1]].status == Zombie
  {
    BootOk();
    RunKeeps(Boot(), acts, s);
    hide Inv, Run;
    GrantedFindsZombie(s, p);
  }

  /**
   In every interleaving: the zombies of a process are a suffix of its children, one for each
   token and granted wait.
   */
  lemma {:induction false} ZombiesAreTokens(acts: seq<Action>, s: State, p: nat)
    requires Run(Boot(), acts, s) && p in s.procs && s.procs[p].status == Live && s.tree == None && s.sched == None
    ensures var q := s.procs[p];
            && var n := (if q.val > 0 then q.val else 0) + (if q.wait == Granted then 1 else 0);
            && n <= |q.kids| && forall i | 0 <= i < |q.kids| ::
                q.kids[i] in s.procs && (s.procs[q.kids[i]].status == Zombie <==> i >= |q.kids| - n)
  {
    BootOk();
    RunKeeps(Boot(), acts, s);
    hide Run, Rooted, HasParent;
    assert LastGone(s.procs, s.procs[p].kids, Due(s.procs[p]));
    var kids := s.procs[p].kids;
    forall i | 0 <= i < |kids|
      ensures kids[i] in s.procs && (Gone(s.procs, kids[i]) <==> s.procs[kids[i]].status == Zombie)
    {
      assert kids[i] in kids;
      KidFacts(s.procs, p, kids[i]);
    }
  }

  /** In every interleaving: a process that has exited hangs on a live parent, so somebody can reap it. */
  lemma {:induction false} ZombiesHaveParents(acts: seq<Action>, s: State, z: nat)
    requires Run(Boot(), acts, s) && z in s.procs && z != INIT
    ensures s.procs[z].parent in s.procs && z in s.procs[s.procs[z].parent].kids
            && s.procs[s.procs[z].parent].status == Live
  {
    BootOk();
    RunKeeps(Boot(), acts, s);
    hide Run, Rooted, KidsOk, HasParent, Counted, Locks;
    ParentFacts(s.procs, z);
    KidFacts(s.procs, s.procs[z].parent, z);
  }

  /** An exit that holds the tree lock can always go on once the scheduler lock is free. */
  lemma {:induction false} ExitGoesOn(s: State, p: nat)
    requires Inv(s) && s.tree == Some(p) && s.sched == None
    ensures Enabled(s, ExitMove(p)) || Enabled(s, ExitSelf(p))
  {
    hide KidsOk, HasParent, TopOk, Counted;
    TopFacts(s.procs, p);
    ParentFacts(s.procs, p);
    if s.procs[p].kids != [] {
      KidFacts(s.procs, p, s.procs[p].kids[0]);
    }
  }

  /** `wait` past its semaphore takes the tail of its children away, and changes nothing else. */
  lemma {:induction false} ReapTakesTail(s: State, p: nat)
    requires Inv(s) && Enabled(s, Reap(p))
    ensures var q, s' := s.procs[p], Apply(s, Reap(p));
            var z := q.kids[|q.kids| - 1];
            && s.procs[z].status == Zombie && z != p
            && s' == s.(procs := s.procs[p := q.(kids := q.kids[..|q.kids| - 1], wait := Idle)] - {z})
  {
    hide Linked, Rooted;
    GrantedFindsZombie(s, p);
  }

  // Where the children of an exiting process go.

  /** A process keeps its parent and its container, or the parent is exiting and its container's root takes over. */
  lemma {:induction false} ParentsChange(s: State, act: Action, c: nat)
    requires Inv(s) && Enabled(s, act) && c in s.procs && c in Apply(s, act).procs
    ensures var q, q' := s.procs[c], Apply(s, act).procs[c];
            q'.top == q.top && (q'.parent == q.parent || (s.tree == Some(q.parent) && act == ExitMove(q.parent)
                                                          && q'.parent == s.procs[q.parent].top))
  {
    hide Rooted, Counted, HasParent;
    if act.ExitMove? {
      KidFacts(s.procs, act.p, s.procs[act.p].kids[0]);
    }
  }

  lemma {:induction false} NumbersStay(s: State, act: Action, c: nat)
    requires Inv(s) && Enabled(s, act) && c !in s.procs && c < s.next
    ensures c !in Apply(s, act).procs && c < Apply(s, act).next
  {
    hide Rooted, Counted, Linked;
  }

  /** `c` is gone, or still hangs on `p`, or has gone over to `r`. */
  ghost predicate GoesOver(s: State, p: nat, r: nat, c: nat)
  {
    && c < s.next && (p in s.procs ==> s.procs[p].top == r) && r in s.procs && s.procs[r].top == r
    && (c in s.procs ==> s.procs[c].parent == p || s.procs[c].parent == r)
  }

  lemma {:induction false} GoesOverStep(s: State, act: Action, p: nat, r: nat, c: nat)
    requires Inv(s) && Enabled(s, act) && GoesOver(s, p, r, c) && p < s.next
    ensures GoesOver(Apply(s, act), p, r, c) && p < Apply(s, act).next
  {
    hide Linked, Rooted, Counted;
    var s' := Apply(s, act);
    RootStays(s, act, r);
    hide Apply, Enabled;
    if c in s.procs && c in s'.procs {
      ParentsChange(s, act, c);
    }
    if p in s.procs && p in s'.procs {
      ParentsChange(s, act, p);
    }
    if p !in s.procs {
      NumbersStay(s, act, p);
    }
    if c !in s.procs {
      NumbersStay(s, act, c);
    }
    ParentsChange(s, act, r);
  }

  lemma {:induction false} RootStays(s: State, act: Action, r: nat)
    requires Inv(s) && Enabled(s, act) && r in s.procs && s.procs[r].top == r
    ensures r in Apply(s, act).procs && s.next <= Apply(s, act).next
  {
    hide Linked, Counted;
    TopFacts(s.procs, r);
    if act.Reap? {
      hide Rooted;
      GrantedFindsZombie(s, act.p);
    }
  }

  lemma {:induction false} GoesOverRun(s: State, acts: seq<Action>, s': State, p: nat, r: nat, c: nat)
    requires Inv(s) && Run(s, acts, s') && GoesOver(s, p, r, c) && p < s.next
    ensures Inv(s') && GoesOver(s', p, r, c)
    decreases |acts|
  {
    hide Inv, Apply, Enabled, GoesOver;
    if acts != [] {
      StepKeeps(s, acts[0]);
      GoesOverStep(s, acts[0], p, r, c);
      GoesOverRun(Apply(s, acts[0]), acts[1..], s', p, r, c);
    }
  }

  /**
   In every interleaving: once a process has exited, each child it had is a child of the root
   process of its container, or has been reaped.
   */
  lemma {:induction false} OrphansGoToRoot(before: seq<Action>, s: State, acts: seq<Action>, s': State, p: nat, c: nat)
    requires Run(Boot(), before, s) && Run(s, acts, s') && p in s.procs && c in s.procs[p].kids
    requires p !in s'.procs || s'.procs[p].status != Live
    ensures c in s'.procs ==> s'.procs[c].parent == s.procs[p].top
  {
    BootOk();
    RunKeeps(Boot(), before, s);
    hide Run, Counted, HasParent, KidsOk, TopOk;
    KidFacts(s.procs, p, c);
    TopFacts(s.procs, p);
    GoesOverRun(s, acts, s', p, s.procs[p].top, c);
    if c in s'.procs && s'.procs[c].parent == p {
      ParentFacts(s'.procs, c);
      KidFacts(s'.procs, p, c);
    }
  }

  lemma {:induction false} CanWait(s: State, p: nat)
    requires p in s.procs
    ensures var q := s.procs[p];
            && (q.wait == Asleep ==> Enabled(s, Interrupt(p)))
            && (q.status == Live && q.wait == Idle && q.kids != [] && s.tree != Some(p) ==> Enabled(s, WaitSem(p)))
            && (s.sched == Some(p) ==> Enabled(s, ExitZombie(p)))
  {
  }

  lemma {:induction false} CanFork(s: State, p: nat)
    requires Rooted(s.procs) && p in s.procs && s.procs[p].status == Live && s.procs[p].wait == Idle && s.tree == None
    ensures Enabled(s, Fork(p, s.procs[p].top)) && Enabled(s, Fork(p, s.next))
    ensures p != s.procs[p].top ==> Enabled(s, ExitLock(p))
  {
    hide Rooted;
    TopFacts(s.procs, p);
  }

  lemma {:induction false} CanReap(s: State, p: nat)
    requires Inv(s) && p in s.procs && s.procs[p].wait == Granted && s.tree == None && s.sched == None
    ensures Enabled(s, Reap(p))
  {
    hide Inv;
    GrantedFindsZombie(s, p);
  }

  /** In every interleaving: no step has to wait for more than a lock, a child or a post. */
  lemma {:induction false} Progress(acts: seq<Action>, s: State, p: nat)
    requires Run(Boot(), acts, s) && p in s.procs
    ensures s.procs[p].wait == Asleep ==> Enabled(s, Interrupt(p))
    ensures var q := s.procs[p];
            q.status == Live && q.wait == Idle && q.kids != [] && s.tree != Some(p) ==> Enabled(s, WaitSem(p))
    ensures var q := s.procs[p];
            q.status == Live && q.wait == Idle && s.tree == None ==>
              Enabled(s, Fork(p, q.top)) && Enabled(s, Fork(p, s.next)) && (p != q.top ==> Enabled(s, ExitLock(p)))
    ensures s.procs[p].wait == Granted && s.tree == None && s.sched == None ==> Enabled(s, Reap(p))
    ensures s.tree == Some(p) && s.sched == None ==> Enabled(s, ExitMove(p)) || Enabled(s, ExitSelf(p))
    ensures s.sched == Some(p) ==> Enabled(s, ExitZombie(p))
  {
    BootOk();
    RunKeeps(Boot(), acts, s);
    hide Run, Linked, Counted, Rooted, Locks, Enabled;
    CanWait(s, p);
    var q := s.procs[p];
    if q.status == Live && q.wait == Idle && s.tree == None {
      CanFork(s, p);
    }
    if q.wait == Granted && s.tree == None && s.sched == None {
      CanReap(s, p);
    }
    if s.tree == Some(p) && s.sched == None {
      ExitGoesOn(s, p);
    }
  }
}
