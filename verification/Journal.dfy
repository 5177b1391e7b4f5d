/** What one operation has asked of the block cache: blocks changed and synced, in order. */
module Journal {
  import opened Blocks
  import opened FsLayout
  import opened Files

  /** What the inode layer sees of the cache: the synced contents, the header entries, its reservation. */
  datatype Client = Client(view: Disk, logged: set<nat>, rm: nat)

  datatype Change = Change(b: nat, data: Block)

  predicate MayPut(c: Client, b: nat)
  {
    b in c.logged || c.rm > 0
  }

  function AfterPut(c: Client, p: Change): Client
    requires MayPut(c, p.b)
  {
    Client(c.view[p.b := p.data], c.logged + {p.b}, if p.b in c.logged then c.rm else c.rm - 1)
  }

  /** The changes `ps`, all to blocks of the file system, lead from `c` to `c'`. */
  ghost predicate Puts(lay: Layout, c: Client, ps: seq<Change>, c': Client)
    decreases |ps|
  {
    if ps == [] then c' == c
    else
      && lay.inodeStart <= ps[0].b < SWAP_START && MayPut(c, ps[0].b)
      && Puts(lay, AfterPut(c, ps[0]), ps[1..], c')
  }

  lemma {:induction false} PutsMore(lay: Layout, c: Client, ps: seq<Change>, c': Client, p: Change)
    requires Puts(lay, c, ps, c') && lay.inodeStart <= p.b < SWAP_START && MayPut(c', p.b)
    ensures Puts(lay, c, ps + [p], AfterPut(c', p))
    decreases |ps|
  {
    hide AfterPut;
    if ps == [] {
      assert Puts(lay, AfterPut(c, p), [], AfterPut(c', p));
    } else {
      PutsMore(lay, AfterPut(c, ps[0]), ps[1..], c', p);
      assert (ps + [p])[1..] == ps[1..] + [p];
    }
  }

  /** What an operation adds to the header it takes from its reservation. */
  lemma {:induction false} PutsBudget(lay: Layout, c: Client, ps: seq<Change>, c': Client)
    requires Puts(lay, c, ps, c')
    ensures c'.rm + |c'.logged| == c.rm + |c.logged| && c.logged <= c'.logged
    decreases |ps|
  {
    if ps != [] {
      assert ps[0].b in c.logged ==> c.logged + {ps[0].b} == c.logged;
      PutsBudget(lay, AfterPut(c, ps[0]), ps[1..], c');
    }
  }

  // What an operation costs.

  /**
   Syncing the blocks `w` took the header entries from `l0` to `l1`: all of them, or as many
   as the reservation allowed.
   */
  ghost predicate Spent(l0: set<nat>, w: set<nat>, l1: set<nat>, rm: nat, ok: bool)
  {
    l0 <= l1 <= l0 + w && if ok then w <= l1 else rm == 0 && !(w <= l1)
  }

  lemma {:induction false} SpentMore(l0: set<nat>, w: set<nat>, l1: set<nat>, v: set<nat>, l2: set<nat>, rm: nat,
                                     ok: bool)
    requires l0 <= l1 <= l0 + w && w <= l1 && Spent(l1, v, l2, rm, ok)
    ensures Spent(l0, w + v, l2, rm, ok)
  {
    if !ok {
      var b :| b in v && b !in l2;
      assert b in w + v;
    }
  }

  lemma {:induction false} SpentFirst(l0: set<nat>, w: set<nat>, v: set<nat>, l1: set<nat>, rm: nat)
    requires Spent(l0, w, l1, rm, false)
    ensures Spent(l0, w + v, l1, rm, false)
  {
    var b :| b in w && b !in l1;
    assert b in w + v;
  }

  /** The blocks are all synced exactly if the reservation covers those that are new to the header. */
  lemma {:induction false} SpentExactly(l0: set<nat>, w: set<nat>, l1: set<nat>, rm0: nat, rm1: nat, ok: bool)
    requires Spent(l0, w, l1, rm1, ok) && rm1 + |l1| == rm0 + |l0|
    ensures ok <==> |w - l0| <= rm0
  {
    assert l1 == l0 + (l1 - l0);
    Sizes(l0, l1 - l0);
    if ok {
      assert l1 - l0 == w - l0;
    } else {
      var b :| b in w && b !in l1;
      Smaller(l1 - l0, w - l0, b);
    }
  }

  lemma {:induction false} Sizes(a: set<nat>, b: set<nat>)
    requires a !! b
    ensures |a + b| == |a| + |b|
  {
  }

  lemma {:induction false} Smaller(a: set<nat>, b: set<nat>, x: nat)
    requires a <= b && x in b && x !in a
    ensures |a| < |b|
  {
    Sizes(a, b - a);
    assert a + (b - a) == b;
    assert x in b - a;
  }

  // The blocks that allocation hands out.

  ghost predicate IsLeast(s: set<nat>, b: nat)
  {
    b in s && forall j <- s :: b <= j
  }

  ghost function Least(s: set<nat>): (b: nat)
    requires s != {}
    ensures IsLeast(s, b)
  {
    HasLeast(s);
    var b :| IsLeast(s, b);
    b
  }

  lemma {:induction false} HasLeast(s: set<nat>)
    requires s != {}
    ensures exists b :: IsLeast(s, b)
    decreases |s|
  {
    var x :| x in s;
    if s == {x} {
      assert IsLeast(s, x);
    } else {
      assert s - {x} != {};
      HasLeast(s - {x});
      var y :| IsLeast(s - {x}, y);
      var b := if x < y then x else y;
      assert forall j <- s :: j == x || j in s - {x};
      assert IsLeast(s, b);
    }
  }

  lemma {:induction false} LeftOver(s: set<nat>, r: set<nat>)
    requires r <= s
    ensures |s - r| == |s| - |r| && (|r| < |s| ==> s - r != {})
  {
    Sizes(r, s - r);
    assert r + (s - r) == s;
  }

  /** The `m` least members of a set. */
  ghost function Lowest(s: set<nat>, m: nat): (r: set<nat>)
    requires m <= |s|
    ensures r <= s && |r| == m
  {
    if m == 0 then {} else
      var r := Lowest(s, m - 1);
      LeftOver(s, r);
      r + {Least(s - r)}
  }

  lemma {:induction false} LowestStep(s: set<nat>, m: nat)
    requires 0 < m <= |s|
    ensures s - Lowest(s, m - 1) != {}
            && Lowest(s, m) == Lowest(s, m - 1) + {Least(s - Lowest(s, m - 1))}
  {
    hide Least;
    LeftOver(s, Lowest(s, m - 1));
  }

  /** Every one of them is below every other member. */
  lemma {:induction false} LowestBelow(s: set<nat>, m: nat, a: nat, b: nat)
    requires m <= |s| && a in Lowest(s, m) && b in s - Lowest(s, m)
    ensures a < b
  {
    LowestStep(s, m);
    hide Lowest, Least;
    var r := Lowest(s, m - 1);
    if a in r {
      LowestBelow(s, m - 1, a, b);
    } else {
      assert IsLeast(s - r, Least(s - r)) && b in s - r;
    }
  }
}
