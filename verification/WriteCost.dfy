/**
 Which blocks a write to a file syncs, told from the state before it. With this the panic
 for a spent reservation has an exact condition.
 */
module WriteCost {
  import opened Blocks
  import opened FsLayout
  import opened Files
  import opened FileClear
  import opened Journal

  function Max(a: nat, b: nat): nat
  {
    if a < b then b else a
  }

  /** What `n` mapped blocks cost, with the address table. */
  function Cost(n: nat): nat
  {
    n + if n > NUM_DIRECT then 1 else 0
  }

  /** The blocks at places `a` to `b`. */
  ghost function OldBlocks(view: Disk, e: Entry, a: nat, b: nat): (s: set<nat>)
    requires |e.addrs| == NUM_DIRECT && b <= MAX_BLOCKS
    ensures |s| <= if a < b then b - a else 0
  {
    if b <= a then {} else OldBlocks(view, e, a, b - 1) + {Addr(view, e, b - 1)}
  }

  /**
   Growing from `n` to `m` blocks: the bitmap, the blocks that become free next, and the
   address table `t` if there is one.
   */
  ghost function Growth(lay: Layout, free: set<nat>, t: nat, n: nat, m: nat): (s: set<nat>)
    requires Cost(m) <= |free| + Cost(n)
    ensures n < m ==> |s| <= Cost(m) - Cost(n) + if m > NUM_DIRECT && t != 0 then 2 else 1
  {
    if m <= n then {}
    else {lay.bitmapStart} + Lowest(free, Cost(m) - Cost(n)) + Listing(t, m)
  }

  /** The address table, if there is one and the block before place `m` is listed in it. */
  ghost function Listing(t: nat, m: nat): set<nat>
  {
    if m > NUM_DIRECT && t != 0 then {t} else {}
  }

  lemma {:induction false} LowestNone(s: set<nat>)
    ensures Lowest(s, 0) == {}
  {
  }

  lemma {:induction false} LowestNext(s: set<nat>, m: nat)
    requires m < |s|
    ensures s - Lowest(s, m) != {} && Lowest(s, m + 1) == Lowest(s, m) + {Least(s - Lowest(s, m))}
  {
    hide Least;
    LeftOver(s, Lowest(s, m));
  }

  lemma {:induction false} LowestMore(s: set<nat>, a: nat, b: nat)
    requires a + b <= |s|
    ensures |s - Lowest(s, a)| == |s| - a && Lowest(s, a + b) == Lowest(s, a) + Lowest(s - Lowest(s, a), b)
  {
    hide Lowest;
    LeftOver(s, Lowest(s, a));
    LowestFrom(s, a, b, Lowest(s, a), s - Lowest(s, a));
  }

  lemma {:induction false} LowestFrom(s: set<nat>, a: nat, b: nat, r: set<nat>, t: set<nat>)
    requires a + b <= |s| && r == Lowest(s, a) && t == s - r && |t| == |s| - a
    ensures Lowest(s, a + b) == r + Lowest(t, b)
    decreases b
  {
    hide Lowest, Least;
    if b == 0 {
      LowestNone(t);
    } else {
      LowestFrom(s, a, b - 1, r, t);
      LowestNext(s, a + b - 1);
      LowestNext(t, b - 1);
      NextFrom(s, r, t, Lowest(t, b - 1), Lowest(s, a + b - 1), Lowest(s, a + b), Lowest(t, b));
    }
  }

  lemma {:induction false} NextFrom(s: set<nat>, r: set<nat>, t: set<nat>, q: set<nat>, p: set<nat>, p': set<nat>,
                                    q': set<nat>)
    requires t == s - r && p == r + q && s - p != {} && t - q != {}
    requires p' == p + {Least(s - p)} && q' == q + {Least(t - q)}
    ensures p' == r + q'
  {
    hide Least;
    assert s - p == t - q;
  }

  lemma {:induction false} LowestOne(s: set<nat>)
    requires s != {}
    ensures |s| > 0 && Lowest(s, 1) == {Least(s)}
  {
    assert s - {} == s;
    assert Lowest(s, 0) == {};
  }

  lemma LeastIs(s: set<nat>, b: nat)
    requires IsLeast(s, b)
    ensures Least(s) == b
  {
  }

  lemma {:induction false} Unions(b: set<nat>, r: set<nat>, q: set<nat>, t: nat, t': nat, n: nat, m: nat, l: set<nat>)
    requires n <= m && l == r + q && (m == n ==> r == {}) && (t' == t || (t == 0 && t' in r))
    ensures b + l + Listing(t, m + 1) == (if m <= n then {} else b + r + Listing(t, m)) + (b + q + Listing(t', m + 1))
  {
    hide Listing;
    assert Listing(t, m) <= Listing(t, m + 1) by { Lists(t, m, t'); }
    assert Listing(t', m + 1) <= Listing(t, m + 1) + r
      && Listing(t, m + 1) <= Listing(t', m + 1) by { Lists(t, m, t'); }
  }

  lemma {:induction false} Lists(t: nat, m: nat, t': nat)
    ensures Listing(t, m) <= Listing(t, m + 1) && Listing(t', m + 1) <= {t'} && (t == 0 ==> Listing(t, m + 1) == {})
  {
  }

  /** One block more. */
  lemma {:induction false} GrowthMore(lay: Layout, free: set<nat>, t: nat, n: nat, m: nat, t': nat)
    requires n <= m && Cost(m + 1) <= |free| + Cost(n) && Cost(m) <= |free| + Cost(n)
    requires t' == t || (t == 0 && t' in Lowest(free, Cost(m) - Cost(n)))
    ensures var free' := free - Lowest(free, Cost(m) - Cost(n));
            && Cost(m + 1) <= |free'| + Cost(m)
            && Growth(lay, free, t, n, m + 1) == Growth(lay, free, t, n, m) + Growth(lay, free', t', m, m + 1)
            && free' - Lowest(free', Cost(m + 1) - Cost(m)) == free - Lowest(free, Cost(m + 1) - Cost(n))
  {
    hide Lowest;
    CostGrows(n, m);
    CostGrows(m, m + 1);
    var a, b := Cost(m) - Cost(n), Cost(m + 1) - Cost(m);
    LowestMore(free, a, b);
    hide Cost;
    var r, q := Lowest(free, a), Lowest(free - Lowest(free, a), b);
    assert free - r - q == free - (r + q);
    if m == n {
      LowestNone(free);
    }
    hide *;
    Unions({lay.bitmapStart}, r, q, t, t', n, m, r + q);
  }

  /** The blocks that a write from place `first` up to place `i` has synced, in a file that had `n` blocks. */
  ghost function LoopCost(lay: Layout, view: Disk, e: Entry, free: set<nat>, n: nat, first: nat, i: nat): set<nat>
    requires |e.addrs| == NUM_DIRECT && n <= MAX_BLOCKS && Cost(Max(n, i)) <= |free| + Cost(n)
  {
    OldBlocks(view, e, first, if i < n then i else n) + Growth(lay, free, e.indirect, n, Max(n, i))
  }

  lemma {:induction false} CostGrows(m: nat, n: nat)
    requires m <= n
    ensures Cost(m) <= Cost(n)
  {
  }

  lemma {:induction false} GrowthWider(lay: Layout, free: set<nat>, t: nat, n: nat, m: nat, m': nat)
    requires m <= m' && Cost(m') <= |free| + Cost(n)
    ensures Cost(m) <= |free| + Cost(n) && Growth(lay, free, t, n, m) <= Growth(lay, free, t, n, m')
  {
    hide Lowest;
    CostGrows(m, m');
    if n < m {
      CostGrows(n, m);
      LowestMore(free, Cost(m) - Cost(n), Cost(m') - Cost(m));
    }
  }

  lemma {:induction false} OldWider(view: Disk, e: Entry, a: nat, b: nat, b': nat)
    requires |e.addrs| == NUM_DIRECT && b <= b' <= MAX_BLOCKS
    ensures OldBlocks(view, e, a, b) <= OldBlocks(view, e, a, b')
    decreases b'
  {
    if b < b' {
      OldWider(view, e, a, b, b' - 1);
    }
  }

  lemma {:induction false} LoopWider(lay: Layout, view: Disk, e: Entry, free: set<nat>, n: nat, first: nat, i: nat,
                                     j: nat)
    requires |e.addrs| == NUM_DIRECT && n <= MAX_BLOCKS && i <= j && Cost(Max(n, j)) <= |free| + Cost(n)
    ensures Cost(Max(n, i)) <= |free| + Cost(n)
    ensures LoopCost(lay, view, e, free, n, first, i) <= LoopCost(lay, view, e, free, n, first, j)
  {
    GrowthWider(lay, free, e.indirect, n, Max(n, i), Max(n, j));
    OldWider(view, e, first, if i < n then i else n, if j < n then j else n);
    hide Growth, OldBlocks;
  }

  lemma {:induction false} NoGrowth(lay: Layout, free: set<nat>, n: nat, m: nat, t: nat, t': nat)
    requires m <= n
    ensures Cost(m) <= |free| + Cost(n) && Growth(lay, free, t, n, m) == {} == Growth(lay, free, t', n, m)
  {
  }

  /** What one round of the loop syncs, at place `i` of a file with `n` blocks. */
  ghost function RoundCost(lay: Layout, view: Disk, e: Entry, free: set<nat>, n: nat, i: nat): set<nat>
    requires |e.addrs| == NUM_DIRECT && i <= TABLE && Cost(Max(n, i + 1)) <= |free| + Cost(n)
  {
    (if i < n then {Addr(view, e, i)} else {}) + Growth(lay, free, e.indirect, n, Max(n, i + 1))
  }

  lemma {:induction false} LoopMore(lay: Layout, view: Disk, e: Entry, free: set<nat>, n: nat, first: nat, i: nat,
                                    view': Disk, e': Entry, free': set<nat>)
    requires |e.addrs| == |e'.addrs| == NUM_DIRECT && n <= MAX_BLOCKS && first <= i <= TABLE
    requires Cost(Max(n, i)) <= |free| + Cost(n) && Cost(Max(n, i + 1)) <= |free| + Cost(n)
    requires Moved(free, n, Max(n, i), view, e, view', e', free')
    ensures Cost(Max(Max(n, i), i + 1)) <= |free'| + Cost(Max(n, i))
    ensures LoopCost(lay, view, e, free, n, first, i + 1) ==
            LoopCost(lay, view, e, free, n, first, i) + RoundCost(lay, view', e', free', Max(n, i), i)
    ensures free' - Lowest(free', Cost(Max(Max(n, i), i + 1)) - Cost(Max(n, i))) ==
            free - Lowest(free, Cost(Max(n, i + 1)) - Cost(n))
  {
    hide Lowest, LoopCost, RoundCost, Moved, Cost;
    if i < n {
      assert Max(n, i) == n && Max(n, i + 1) == n;
      LoopOld(lay, view, e, free, n, first, i, view', e', free');
    } else {
      assert Max(n, i) == i && Max(n, i + 1) == Max(i, i + 1) == i + 1;
      LoopNew(lay, view, e, free, n, first, i, view', e', free');
    }
  }

  lemma {:induction false} LoopOld(lay: Layout, view: Disk, e: Entry, free: set<nat>, n: nat, first: nat, i: nat,
                                   view': Disk, e': Entry, free': set<nat>)
    requires |e.addrs| == |e'.addrs| == NUM_DIRECT && first <= i < n <= MAX_BLOCKS
    requires Moved(free, n, n, view, e, view', e', free')
    ensures free' == free && Lowest(free, 0) == {}
    ensures LoopCost(lay, view, e, free, n, first, i + 1) ==
            LoopCost(lay, view, e, free, n, first, i) + RoundCost(lay, view', e', free', n, i)
  {
    hide Growth, Lowest, Cost, Addr, OldBlocks, SamePlaces, LoopCost, RoundCost;
    LowestNone(free);
    assert free - {} == free;
    OldNext(view, e, view', e', n, first, i);
    LoopWithin(lay, view, e, free, n, first, i);
    LoopWithin(lay, view, e, free, n, first, i + 1);
    RoundWithin(lay, view', e', free, n, i);
  }

  lemma {:induction false} LoopWithin(lay: Layout, view: Disk, e: Entry, free: set<nat>, n: nat, first: nat, i: nat)
    requires |e.addrs| == NUM_DIRECT && i <= n <= MAX_BLOCKS
    ensures Cost(Max(n, i)) <= |free| + Cost(n)
            && LoopCost(lay, view, e, free, n, first, i) == OldBlocks(view, e, first, i)
  {
    hide Growth, OldBlocks;
    NoGrowth(lay, free, n, n, e.indirect, e.indirect);
  }

  lemma {:induction false} RoundWithin(lay: Layout, view: Disk, e: Entry, free: set<nat>, n: nat, i: nat)
    requires |e.addrs| == NUM_DIRECT && i < n && i <= TABLE
    ensures Cost(Max(n, i + 1)) <= |free| + Cost(n) && RoundCost(lay, view, e, free, n, i) == {Addr(view, e, i)}
  {
    hide Growth, Addr;
    NoGrowth(lay, free, n, n, e.indirect, e.indirect);
  }

  lemma {:induction false} OldNext(view: Disk, e: Entry, view': Disk, e': Entry, n: nat, first: nat, i: nat)
    requires |e.addrs| == |e'.addrs| == NUM_DIRECT && first <= i < n <= MAX_BLOCKS && SamePlaces(view, e, view', e', n)
    ensures OldBlocks(view, e, first, i + 1) == OldBlocks(view, e, first, i) + {Addr(view, e, i)}
    ensures Addr(view', e', i) == Addr(view, e, i)
  {
    hide Addr;
  }

  lemma {:induction false} Joined(o: set<nat>, g: set<nat>, h: set<nat>, all: set<nat>)
    requires all == o + (g + h)
    ensures all == o + g + h
  {
  }

  lemma {:induction false} LoopNew(lay: Layout, view: Disk, e: Entry, free: set<nat>, n: nat, first: nat, i: nat,
                                   view': Disk, e': Entry, free': set<nat>)
    requires |e.addrs| == |e'.addrs| == NUM_DIRECT && n <= MAX_BLOCKS && first <= i <= TABLE && n <= i
    requires Cost(i) <= |free| + Cost(n) && Cost(i + 1) <= |free| + Cost(n)
    requires Moved(free, n, i, view, e, view', e', free')
    ensures Cost(i + 1) <= |free'| + Cost(i)
    ensures LoopCost(lay, view, e, free, n, first, i + 1) ==
            LoopCost(lay, view, e, free, n, first, i) + RoundCost(lay, view', e', free', i, i)
    ensures free' - Lowest(free', Cost(i + 1) - Cost(i)) == free - Lowest(free, Cost(i + 1) - Cost(n))
  {
    hide Growth, Lowest, Cost, Addr, OldBlocks, LoopCost, RoundCost, Moved;
    MovedFacts(free, n, i, view, e, view', e', free');
    GrowthMore(lay, free, e.indirect, n, i, e'.indirect);
    LoopBeyond(lay, view, e, free, n, first, i);
    LoopBeyond(lay, view, e, free, n, first, i + 1);
    RoundBeyond(lay, view', e', free', i);
    Joined(OldBlocks(view, e, first, n), Growth(lay, free, e.indirect, n, i), Growth(lay, free', e'.indirect, i, i + 1),
      LoopCost(lay, view, e, free, n, first, i + 1));
  }

  lemma {:induction false} MovedFacts(free: set<nat>, n: nat, m: nat, view: Disk, e: Entry, view': Disk, e': Entry,
                                      free': set<nat>)
    requires |e.addrs| == |e'.addrs| == NUM_DIRECT && Moved(free, n, m, view, e, view', e', free')
    ensures Cost(n) <= Cost(m) <= |free| + Cost(n) && free' == free - Lowest(free, Cost(m) - Cost(n))
    ensures e'.indirect == e.indirect || (e.indirect == 0 && e'.indirect in Lowest(free, Cost(m) - Cost(n)))
  {
    hide Lowest, Cost, SamePlaces;
  }

  lemma {:induction false} LoopBeyond(lay: Layout, view: Disk, e: Entry, free: set<nat>, n: nat, first: nat, i: nat)
    requires |e.addrs| == NUM_DIRECT && n <= MAX_BLOCKS && n <= i && Cost(i) <= |free| + Cost(n)
    ensures Max(n, i) == i
    ensures LoopCost(lay, view, e, free, n, first, i) ==
              OldBlocks(view, e, first, n) + Growth(lay, free, e.indirect, n, i)
  {
    hide Growth, OldBlocks, Cost;
  }

  lemma {:induction false} RoundBeyond(lay: Layout, view: Disk, e: Entry, free: set<nat>, i: nat)
    requires |e.addrs| == NUM_DIRECT && i <= TABLE && Cost(i + 1) <= |free| + Cost(i)
    ensures Max(i, i + 1) == i + 1
    ensures RoundCost(lay, view, e, free, i, i) == Growth(lay, free, e.indirect, i, i + 1)
  {
    hide Growth, Addr, Cost;
  }

  // What the steps of a write do to free blocks and to the places of its file.

  /** The file keeps its first `n` blocks. */
  ghost predicate SamePlaces(view: Disk, e: Entry, view': Disk, e': Entry, n: nat)
    requires |e.addrs| == |e'.addrs| == NUM_DIRECT
  {
    forall j | 0 <= j < n && j <= TABLE :: Addr(view', e', j) == Addr(view, e, j)
  }

  /** A file with `n` blocks now has `m`: the next free blocks are taken, and the rest stays. */
  ghost predicate Moved(free: set<nat>, n: nat, m: nat, view: Disk, e: Entry, view': Disk, e': Entry, free': set<nat>)
    requires |e.addrs| == |e'.addrs| == NUM_DIRECT
  {
    && n <= m && Cost(m) <= |free| + Cost(n) && Cost(n) <= Cost(m) && free' == free - Lowest(free, Cost(m) - Cost(n))
    && SamePlaces(view, e, view', e', n)
    && (e'.indirect == e.indirect || (e.indirect == 0 && e'.indirect in Lowest(free, Cost(m) - Cost(n))))
  }

  lemma {:induction false} MovedNot(free: set<nat>, n: nat, view: Disk, e: Entry)
    requires |e.addrs| == NUM_DIRECT
    ensures Moved(free, n, n, view, e, view, e, free)
  {
    hide Lowest, Addr;
    LowestNone(free);
    assert free - {} == free;
  }

  lemma {:induction false} MovedOne(free: set<nat>, n: nat, m: nat, view: Disk, e: Entry, view': Disk, e': Entry,
                                    free': set<nat>)
    requires |e.addrs| == |e'.addrs| == NUM_DIRECT && free != {} && free' == free - {Least(free)}
    requires m == n + 1 && Cost(m) == Cost(n) + 1 && SamePlaces(view, e, view', e', n) && e'.indirect == e.indirect
    ensures Moved(free, n, m, view, e, view', e', free')
  {
    hide Lowest, Addr, Cost;
    LowestOne(free);
  }

  /** Two steps make one. */
  lemma {:induction false} MovedMore(free: set<nat>, n: nat, m: nat, l: nat, view: Disk, e: Entry, view1: Disk,
                                     e1: Entry,
                                     free1: set<nat>, view2: Disk, e2: Entry, free2: set<nat>)
    requires |e.addrs| == |e1.addrs| == |e2.addrs| == NUM_DIRECT
    requires Moved(free, n, m, view, e, view1, e1, free1) && Moved(free1, m, l, view1, e1, view2, e2, free2)
    ensures Moved(free, n, l, view, e, view2, e2, free2)
  {
    hide Lowest, Addr, Cost, SamePlaces;
    SamePlacesLess(view, e, view1, e1, view2, e2, n, m);
    LowestMore(free, Cost(m) - Cost(n), Cost(l) - Cost(m));
    Minus(free, Lowest(free, Cost(m) - Cost(n)), free1, Lowest(free1, Cost(l) - Cost(m)), free2);
  }

  lemma {:induction false} DirectPlaces(view: Disk, e: Entry, view': Disk, i: nat, b: nat)
    requires |e.addrs| == NUM_DIRECT && i < NUM_DIRECT && SameAddrs(view, view', e)
    ensures SamePlaces(view, e, view', e.(addrs := e.addrs[i := b]), i)
  {
    forall j | 0 <= j < i ensures Addr(view', e.(addrs := e.addrs[i := b]), j) == Addr(view, e, j) {
      assert Addr(view', e, j) == Addr(view, e, j);
    }
  }

  lemma {:induction false} TablePlaces(view: Disk, e: Entry, view': Disk, b: nat)
    requires |e.addrs| == NUM_DIRECT && SameAddrs(view, view', e)
    ensures SamePlaces(view, e, view', e.(indirect := b), NUM_DIRECT)
  {
    forall j | 0 <= j < NUM_DIRECT ensures Addr(view', e.(indirect := b), j) == Addr(view, e, j) {
      assert Addr(view', e, j) == Addr(view, e, j);
    }
  }

  lemma {:induction false} ListedPlaces(view: Disk, view': Disk, e: Entry, i: nat, b: nat)
    requires |e.addrs| == NUM_DIRECT && NUM_DIRECT <= i < MAX_BLOCKS && e.indirect != 0 && b < SWAP_START
    requires SameAddrs(view, view', e)
    ensures SamePlaces(view, e, Listed(view', e, i, b), e, i) && Addr(Listed(view', e, i, b), e, i) == b
  {
    ListedAddrs(view', e, i, b);
    hide Addr, Listed;
  }

  lemma {:induction false} SamePlacesLess(view: Disk, e: Entry, view1: Disk, e1: Entry, view2: Disk, e2: Entry, n: nat,
                                          m: nat)
    requires |e.addrs| == |e1.addrs| == |e2.addrs| == NUM_DIRECT && n <= m
    requires SamePlaces(view, e, view1, e1, n) && SamePlaces(view1, e1, view2, e2, m)
    ensures SamePlaces(view, e, view2, e2, n)
  {
    hide Addr;
  }

  lemma {:induction false} Minus(a: set<nat>, r: set<nat>, b: set<nat>, q: set<nat>, c: set<nat>)
    requires b == a - r && c == b - q
    ensures c == a - (r + q)
  {
  }

  lemma {:induction false} SamePlacesTrans(view: Disk, e: Entry, view1: Disk, e1: Entry, view2: Disk, e2: Entry, n: nat)
    requires |e.addrs| == |e1.addrs| == |e2.addrs| == NUM_DIRECT
    requires SamePlaces(view, e, view1, e1, n) && SamePlaces(view1, e1, view2, e2, n)
    ensures SamePlaces(view, e, view2, e2, n)
  {
    hide Addr;
  }

  lemma {:induction false} SpentWider(l0: set<nat>, w: set<nat>, w': set<nat>, l1: set<nat>, rm: nat)
    requires Spent(l0, w, l1, rm, false) && w <= w'
    ensures Spent(l0, w', l1, rm, false)
  {
    assert w + w' == w';
    SpentFirst(l0, w, w', l1, rm);
  }

  /** A block that is not the first one listed. */
  lemma {:induction false} GrowthOne(lay: Layout, free: set<nat>, t: nat, n: nat)
    requires n != NUM_DIRECT
    ensures Cost(n + 1) == Cost(n) + 1 && (Cost(n + 1) <= |free| + Cost(n) <==> free != {})
    ensures free != {} ==> Growth(lay, free, t, n, n + 1) == {lay.bitmapStart, Least(free)} + Listing(t, n + 1)
  {
    hide Lowest, Least, Listing;
    if free != {} {
      LowestOne(free);
    }
  }

  /** The first block listed, with its table. */
  lemma {:induction false} GrowthTwo(lay: Layout, free: set<nat>)
    ensures Cost(NUM_DIRECT + 1) <= |free| + Cost(NUM_DIRECT) <==> free != {} && free - {Least(free)} != {}
    ensures free != {} && free - {Least(free)} != {} ==>
              var f := Least(free); var g := Least(free - {f});
              && |free| >= 2 && Lowest(free, 2) == {f, g}
              && Growth(lay, free, 0, NUM_DIRECT, NUM_DIRECT + 1) == {lay.bitmapStart, f} + ({lay.bitmapStart, g} + {f})
  {
    hide Lowest, Least;
    if free != {} {
      LeftOver(free, {Least(free)});
      if free - {Least(free)} != {} {
        LowestOne(free);
        LowestNext(free, 1);
      }
    }
  }

  lemma NotListed(t: nat, m: nat, s: set<nat>)
    requires m <= NUM_DIRECT
    ensures s + Listing(t, m) == s
  {
  }

  lemma IsListed(t: nat, m: nat)
    requires m > NUM_DIRECT && t != 0
    ensures Listing(t, m) == {t}
  {
  }

  // The three ways `inode_map` goes.

  lemma {:induction false} NothingCost(lay: Layout, free: set<nat>, n: nat, view: Disk, e: Entry, l: set<nat>, rm: nat)
    requires |e.addrs| == NUM_DIRECT
    ensures Moved(free, n, n, view, e, view, e, free) && Spent(l, Growth(lay, free, e.indirect, n, n), l, rm, true)
  {
    hide Lowest, Moved;
    MovedNot(free, n, view, e);
  }

  /** One block, with the table `t` if it is listed there. */
  lemma {:induction false} OneCost(lay: Layout, free: set<nat>, n: nat, t: nat, view: Disk, e: Entry, view': Disk,
                                   e': Entry,
                                   free': set<nat>, l0: set<nat>, l1: set<nat>, rm: nat, ok: bool)
    requires |e.addrs| == |e'.addrs| == NUM_DIRECT && n != NUM_DIRECT && t == e.indirect
    requires free != {} ==> Spent(l0, {lay.bitmapStart, Least(free)} + Listing(t, n + 1), l1, rm, ok)
    requires ok ==> free != {} && free' == free - {Least(free)} && SamePlaces(view, e, view', e', n) && e'.indirect == t
    ensures ok ==> Moved(free, n, n + 1, view, e, view', e', free') && Least(free) in l1
    ensures Cost(n + 1) <= |free| + Cost(n) ==> Spent(l0, Growth(lay, free, t, n, n + 1), l1, rm, ok)
  {
    hide Lowest, Moved, Growth, Listing, SamePlaces, Cost;
    GrowthOne(lay, free, t, n);
    if ok {
      MovedOne(free, n, n + 1, view, e, view', e', free');
      assert Least(free) in {lay.bitmapStart, Least(free)} + Listing(t, n + 1);
    }
  }

  /** The table first, then the block. */
  lemma {:induction false} TwoCost(lay: Layout, free: set<nat>, view: Disk, e: Entry, l0: set<nat>,
                                   view1: Disk, e1: Entry, free1: set<nat>, l1: set<nat>, rm1: nat, ok1: bool,
                                   view2: Disk, e2: Entry, free2: set<nat>, l2: set<nat>, rm2: nat, ok2: bool)
    requires |e.addrs| == |e1.addrs| == |e2.addrs| == NUM_DIRECT && e.indirect == 0
    requires free != {} ==> Spent(l0, {lay.bitmapStart, Least(free)}, l1, rm1, ok1)
    requires ok1 ==> free != {} && free1 == free - {Least(free)} && e1.indirect == Least(free)
                     && SamePlaces(view, e, view1, e1, NUM_DIRECT)
    requires ok1 && free1 != {} ==> Spent(l1, {lay.bitmapStart, Least(free1)} + {e1.indirect}, l2, rm2, ok2)
    requires ok2 ==> ok1 && free1 != {} && free2 == free1 - {Least(free1)} && e2.indirect == e1.indirect
                     && SamePlaces(view1, e1, view2, e2, NUM_DIRECT)
    requires !ok1 ==> !ok2 && l2 == l1 && rm2 == rm1
    ensures ok2 ==> Moved(free, NUM_DIRECT, NUM_DIRECT + 1, view, e, view2, e2, free2) && Least(free1) in l2
    ensures Cost(NUM_DIRECT + 1) <= |free| + Cost(NUM_DIRECT) ==>
              Spent(l0, Growth(lay, free, 0, NUM_DIRECT, NUM_DIRECT + 1), l2, rm2, ok2)
  {
    hide Lowest, Growth, SamePlaces, Least;
    GrowthTwo(lay, free);
    if free != {} && free - {Least(free)} != {} {
      var f := Least(free);
      var g := Least(free - {f});
      if ok1 {
        SpentMore(l0, {lay.bitmapStart, f}, l1, {lay.bitmapStart, g} + {f}, l2, rm2, ok2);
      } else {
        SpentFirst(l0, {lay.bitmapStart, f}, {lay.bitmapStart, g} + {f}, l1, rm1);
      }
      if ok2 {
        SamePlacesTrans(view, e, view1, e1, view2, e2, NUM_DIRECT);
        assert free - {f} - {g} == free - {f, g};
        assert g in {lay.bitmapStart, g} + {f};
      }
    }
  }

  // The loop of `inode_write`.

  lemma {:induction false} MovedSame(free: set<nat>, n: nat, m: nat, view: Disk, e: Entry, view1: Disk, e1: Entry,
                                     free1: set<nat>, view2: Disk)
    requires |e.addrs| == |e1.addrs| == NUM_DIRECT && n <= TABLE
    requires Moved(free, n, m, view, e, view1, e1, free1) && SameAddrs(view1, view2, e1)
    ensures Moved(free, n, m, view, e, view2, e1, free1)
  {
    hide Lowest, Addr, Cost;
  }

  lemma {:induction false} MovedCount(free: set<nat>, n: nat, m: nat, view: Disk, e: Entry, view': Disk, e': Entry,
                                      free': set<nat>)
    requires |e.addrs| == |e'.addrs| == NUM_DIRECT && Moved(free, n, m, view, e, view', e', free')
    ensures Cost(m) <= |free| + Cost(n) && |free'| + Cost(m) == |free| + Cost(n)
  {
    hide Lowest, Addr, Cost, SamePlaces;
    LeftOver(free, Lowest(free, Cost(m) - Cost(n)));
  }

  /** Mapping the block, then overwriting it. */
  lemma {:induction false} RoundSpent(lay: Layout, view: Disk, e: Entry, free: set<nat>, n: nat, i: nat, b: nat,
                                      l0: set<nat>, l1: set<nat>, rm1: nat, ok1: bool, l2: set<nat>, rm2: nat,
                                        ok2: bool)
    requires |e.addrs| == NUM_DIRECT && i <= TABLE && Cost(Max(n, i + 1)) <= |free| + Cost(n)
    requires Spent(l0, Growth(lay, free, e.indirect, n, Max(n, i + 1)), l1, rm1, ok1)
    requires ok1 ==> Spent(l1, {b}, l2, rm2, ok2) && if i < n then b == Addr(view, e, i) else b in l1
    requires !ok1 ==> !ok2 && l2 == l1 && rm2 == rm1
    ensures Spent(l0, RoundCost(lay, view, e, free, n, i), l2, rm2, ok2)
  {
    hide Growth, Addr, Cost;
    var g := Growth(lay, free, e.indirect, n, Max(n, i + 1));
    if ok1 {
      SpentMore(l0, g, l1, {b}, l2, rm2, ok2);
      assert g + {b} == {b} + g;
      if i >= n {
        assert l2 == l1;
      }
    } else if i < n {
      SpentFirst(l0, g, {Addr(view, e, i)}, l1, rm1);
      assert g + {Addr(view, e, i)} == {Addr(view, e, i)} + g;
    }
  }

  lemma {:induction false} LoopStart(lay: Layout, view: Disk, e: Entry, free: set<nat>, n: nat, first: nat,
                                     l: set<nat>, rm: nat)
    requires |e.addrs| == NUM_DIRECT && n <= MAX_BLOCKS && first <= n
    ensures Max(n, first) == n && Cost(Max(n, first)) <= |free| + Cost(n)
    ensures Moved(free, n, Max(n, first), view, e, view, e, free)
    ensures Spent(l, LoopCost(lay, view, e, free, n, first, first), l, rm, true)
  {
    hide Moved, Cost, Addr;
    MovedNot(free, n, view, e);
    NoGrowth(lay, free, n, n, e.indirect, e.indirect);
    hide Growth;
  }

  /** A round that succeeds. */
  lemma {:induction false} RoundOk(lay: Layout, view: Disk, e: Entry, free: set<nat>, n: nat, first: nat, i: nat,
                                   l0: set<nat>,
                                   view1: Disk, e1: Entry, free1: set<nat>, l1: set<nat>, rm1: nat,
                                   view2: Disk, e2: Entry, free2: set<nat>, l2: set<nat>, rm2: nat)
    requires |e.addrs| == |e1.addrs| == |e2.addrs| == NUM_DIRECT && n <= MAX_BLOCKS && first <= i < MAX_BLOCKS
    requires Cost(Max(n, i)) <= |free| + Cost(n) && Moved(free, n, Max(n, i), view, e, view1, e1, free1)
    requires Spent(l0, LoopCost(lay, view, e, free, n, first, i), l1, rm1, true)
    requires Moved(free1, Max(n, i), Max(Max(n, i), i + 1), view1, e1, view2, e2, free2)
    requires Cost(Max(Max(n, i), i + 1)) <= |free1| + Cost(Max(n, i)) ==>
               Spent(l1, RoundCost(lay, view1, e1, free1, Max(n, i), i), l2, rm2, true)
    ensures Cost(Max(n, i + 1)) <= |free| + Cost(n) && Moved(free, n, Max(n, i + 1), view, e, view2, e2, free2)
    ensures Spent(l0, LoopCost(lay, view, e, free, n, first, i + 1), l2, rm2, true)
  {
    hide Moved, Cost, LoopCost, RoundCost, Addr, Spent;
    MovedMore(free, n, Max(n, i), Max(Max(n, i), i + 1), view, e, view1, e1, free1, view2, e2, free2);
    MovedCount(free, n, Max(n, i + 1), view, e, view2, e2, free2);
    LoopMore(lay, view, e, free, n, first, i, view1, e1, free1);
    SpentThen(l0, LoopCost(lay, view, e, free, n, first, i), l1, rm1, RoundCost(lay, view1, e1, free1, Max(n, i), i),
      l2,
      rm2, true);
  }

  /** A round that fails for want of a reservation. */
  lemma {:induction false} RoundFails(lay: Layout, view: Disk, e: Entry, free: set<nat>, n: nat, first: nat, i: nat,
                                      stop: nat,
                                      l0: set<nat>, view1: Disk, e1: Entry, free1: set<nat>, l1: set<nat>, rm1: nat,
                                      l2: set<nat>, rm2: nat)
    requires |e.addrs| == |e1.addrs| == NUM_DIRECT && n <= MAX_BLOCKS && first <= i < stop <= MAX_BLOCKS
    requires Cost(Max(n, stop)) <= |free| + Cost(n)
    requires Cost(Max(n, i)) <= |free| + Cost(n) && Moved(free, n, Max(n, i), view, e, view1, e1, free1)
    requires Spent(l0, LoopCost(lay, view, e, free, n, first, i), l1, rm1, true)
    requires Cost(Max(Max(n, i), i + 1)) <= |free1| + Cost(Max(n, i)) ==>
               Spent(l1, RoundCost(lay, view1, e1, free1, Max(n, i), i), l2, rm2, false)
    ensures Spent(l0, LoopCost(lay, view, e, free, n, first, stop), l2, rm2, false)
  {
    hide Moved, Cost, LoopCost, RoundCost, Addr, Spent;
    LoopWider(lay, view, e, free, n, first, i + 1, stop);
    LoopMore(lay, view, e, free, n, first, i, view1, e1, free1);
    SpentThen(l0, LoopCost(lay, view, e, free, n, first, i), l1, rm1, RoundCost(lay, view1, e1, free1, Max(n, i), i),
      l2,
      rm2, false);
    SpentWider(l0, LoopCost(lay, view, e, free, n, first, i + 1), LoopCost(lay, view, e, free, n, first, stop), l2,
      rm2);
  }

  lemma {:induction false} SpentThen(l0: set<nat>, w: set<nat>, l1: set<nat>, rm1: nat, v: set<nat>, l2: set<nat>,
                                     rm2: nat,
                                     ok: bool)
    requires Spent(l0, w, l1, rm1, true) && Spent(l1, v, l2, rm2, ok)
    ensures Spent(l0, w + v, l2, rm2, ok)
  {
    SpentMore(l0, w, l1, v, l2, rm2, ok);
  }

  // A whole write.

  /** The blocks that writing up to byte `end` of inode `k` syncs. */
  ghost function WriteSet(lay: Layout, view: Disk, e: Entry, free: set<nat>, k: nat, offset: nat, end: nat): set<nat>
    requires |e.addrs| == NUM_DIRECT && e.size <= MAX_BYTES
    requires Cost(Max(BlocksFor(e.size), BlocksFor(end))) <= |free| + Cost(BlocksFor(e.size))
  {
    LoopCost(lay, view, e, free, BlocksFor(e.size), offset / 512, BlocksFor(end))
      + if end > e.size then {InodeBlock(lay, k)} else {}
  }

  /**
   These are the blocks written over; if the file grows by blocks, also the bitmap, the first
   free blocks, one more of them for the first address table, and the table that is there; and
   the inode if its size changes.
   */
  lemma {:induction false} WriteSetIs(lay: Layout, view: Disk, e: Entry, free: set<nat>, k: nat, offset: nat, end: nat,
                                      b: nat)
    requires |e.addrs| == NUM_DIRECT && e.size <= MAX_BYTES
    requires Cost(Max(BlocksFor(e.size), BlocksFor(end))) <= |free| + Cost(BlocksFor(e.size))
    ensures var n, m := (e.size + 511) / 512, (end + 511) / 512;
            && (m > n ==> m - n + (if n <= 12 < m then 1 else 0) <= |free|)
            && (b in WriteSet(lay, view, e, free, k, offset, end) <==>
                || (exists i :: offset / 512 <= i < n && i < m && i <= TABLE && Addr(view, e, i) == b)
                || (m > n && (b == lay.bitmapStart || b in Lowest(free, m - n + if n <= 12 < m then 1 else 0)))
                || (m > n && m > 12 && e.indirect != 0 && b == e.indirect)
                || (end > e.size && b == InodeBlock(lay, k)))
  {
    hide Lowest, Addr, OldBlocks, InodeBlock, Growth, Cost;
    var n, m := BlocksFor(e.size), BlocksFor(end);
    OldAre(view, e, offset / 512, if m < n then m else n, b);
    GrowthIs(lay, free, e.indirect, n, Max(n, m), b);
  }

  lemma {:induction false} GrowthIs(lay: Layout, free: set<nat>, t: nat, n: nat, m: nat, b: nat)
    requires Cost(m) <= |free| + Cost(n)
    ensures m > n ==> m - n + (if n <= 12 < m then 1 else 0) <= |free|
    ensures b in Growth(lay, free, t, n, m) <==>
            && m > n && (|| b == lay.bitmapStart || b in Lowest(free, m - n + if n <= 12 < m then 1 else 0)
                         || (m > 12 && t != 0 && b == t))
  {
    hide Lowest;
  }

  lemma {:induction false} OldAre(view: Disk, e: Entry, a: nat, b: nat, x: nat)
    requires |e.addrs| == NUM_DIRECT && b <= MAX_BLOCKS
    ensures x in OldBlocks(view, e, a, b) <==> exists i :: a <= i < b && i <= TABLE && Addr(view, e, i) == x
    decreases b
  {
    hide Addr;
    if a < b {
      OldAre(view, e, a, b - 1, x);
    }
  }

  /** The disk has the blocks for writing up to byte `end`. */
  ghost predicate Affordable(lay: Layout, view: Disk, e: Entry, end: nat)
  {
    Cost(Max(BlocksFor(e.size), BlocksFor(end))) <= |FreeBlocks(lay, view)| + Cost(BlocksFor(e.size))
  }

  /** The header gains the blocks that writing up to byte `end` syncs. */
  ghost predicate SyncsExactly(lay: Layout, view: Disk, e: Entry, k: nat, offset: nat, end: nat, logged: set<nat>,
                               logged': set<nat>)
    requires |e.addrs| == NUM_DIRECT && e.size <= MAX_BYTES
  {
    Affordable(lay, view, e, end) && logged' == logged + WriteSet(lay, view, e, FreeBlocks(lay, view), k, offset, end)
  }

  /** The disk or the reservation is too small for writing up to byte `end`. */
  ghost predicate Unaffordable(lay: Layout, view: Disk, e: Entry, k: nat, logged: set<nat>, rm: nat, offset: nat,
                               end: nat)
    requires |e.addrs| == NUM_DIRECT && e.size <= MAX_BYTES
  {
    || !Affordable(lay, view, e, end)
    || |WriteSet(lay, view, e, FreeBlocks(lay, view), k, offset, end) - logged| > rm
  }

  lemma {:induction false} Verdict(lay: Layout, view: Disk, e: Entry, k: nat, offset: nat, end: nat, l0: set<nat>,
                                   rm0: nat,
                                   l1: set<nat>, rm1: nat, ok1: bool, l2: set<nat>, rm2: nat, ok2: bool)
    requires |e.addrs| == NUM_DIRECT && e.size <= MAX_BYTES && BlocksFor(e.size) <= MAX_BLOCKS
    requires var n, free := BlocksFor(e.size), FreeBlocks(lay, view);
             Cost(Max(n, BlocksFor(end))) <= |free| + Cost(n) ==>
               Spent(l0, LoopCost(lay, view, e, free, n, offset / 512, BlocksFor(end)), l1, rm1, ok1)
    requires ok1 ==> Spent(l1, if end > e.size then {InodeBlock(lay, k)} else {}, l2, rm2, ok2)
    requires !ok1 ==> !ok2 && l2 == l1 && rm2 == rm1
    requires ok1 ==> Cost(Max(BlocksFor(e.size), BlocksFor(end))) <= |FreeBlocks(lay, view)| + Cost(BlocksFor(e.size))
    requires rm2 + |l2| == rm0 + |l0|
    ensures ok2 <==> !Unaffordable(lay, view, e, k, l0, rm0, offset, end)
    ensures ok2 ==> SyncsExactly(lay, view, e, k, offset, end, l0, l2)
  {
    hide LoopCost, FreeBlocks, BlocksFor, Cost, Spent;
    var n, free := BlocksFor(e.size), FreeBlocks(lay, view);
    if Cost(Max(n, BlocksFor(end))) <= |free| + Cost(n) {
      var w, v := LoopCost(lay, view, e, free, n, offset / 512, BlocksFor(end)),
                  if end > e.size then {InodeBlock(lay, k)} else {};
      if ok1 {
        SpentThen(l0, w, l1, rm1, v, l2, rm2, ok2);
      } else {
        SpentFirst(l0, w, v, l1, rm1);
      }
      SpentExactly(l0, w + v, l2, rm0, rm2, ok2);
    }
  }

  lemma {:induction false} ClearedSpent(s: Snap, k: nat, view: Disk, owner: map<nat, (nat, nat)>,
                                        reserved: set<nat>, logged: set<nat>, rm: nat)
    requires Startable(s, k) && Cleared(s, k, TABLE + 1, view, owner, reserved, logged, rm)
    ensures Spent(s.logged, if s.inodes[k].size > 0 then {s.lay.bitmapStart} else {}, logged, rm, true)
  {
    hide World, SameFile, Begun, Mine;
    BegunIff(s, k);
  }

  lemma {:induction false} StuckSpent(s: Snap, k: nat, rm: nat)
    requires Startable(s, k) && Begun(s, k, TABLE + 1) && rm == 0 && s.lay.bitmapStart !in s.logged
    ensures Spent(s.logged, if s.inodes[k].size > 0 then {s.lay.bitmapStart} else {}, s.logged, rm, false)
  {
    hide World, Begun;
    BegunIff(s, k);
  }

  /** Clearing succeeds exactly if the reservation covers the bitmap, if there is a block, and the inode. */
  lemma {:induction false} ClearVerdict(lay: Layout, size: nat, k: nat, l0: set<nat>, rm0: nat, l1: set<nat>, rm1: nat,
                                        ok1: bool, l2: set<nat>, rm2: nat, ok2: bool)
    requires Spent(l0, if size > 0 then {lay.bitmapStart} else {}, l1, rm1, ok1)
    requires if ok1 then Spent(l1, {InodeBlock(lay, k)}, l2, rm2, ok2) else !ok2 && l2 == l1 && rm2 == rm1
    requires rm2 + |l2| == rm0 + |l0|
    ensures ok2 <==> |ClearSet(lay, size, k) - l0| <= rm0
    ensures !ok2 ==> rm0 < 2
  {
    hide Spent;
    var w, v := if size > 0 then {lay.bitmapStart} else {}, {InodeBlock(lay, k)};
    if ok1 {
      SpentThen(l0, w, l1, rm1, v, l2, rm2, ok2);
    } else {
      SpentFirst(l0, w, v, l1, rm1);
    }
    SpentExactly(l0, w + v, l2, rm0, rm2, ok2);
    ClearSetSmall(lay, size, k, l0);
  }
}
