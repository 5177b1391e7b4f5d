/** The list of cached blocks and what the eviction loop leaves of it. */
module Lru {
  import opened Blocks

  const EVICTION_THRESHOLD: nat := 20

  /** `Block`, in list order: the most recently acquired first. */
  datatype Buf = Buf(no: nat, acquired: bool, pinned: bool, data: Block)

  predicate Evictable(b: Buf)
  {
    !b.pinned && !b.acquired
  }

  ghost predicate Distinct(list: seq<Buf>)
  {
    forall i, j :: 0 <= i < j < |list| ==> list[i].no != list[j].no
  }

  // Eviction.

  /** The blocks that may not be evicted. */
  function Kept(list: seq<Buf>): seq<Buf>
  {
    if list == [] then [] else (if Evictable(list[0]) then [] else [list[0]]) + Kept(list[1..])
  }

  /** How far from the tail the eviction loop gets: it stops once fewer than the threshold remain. */
  function Cut(list: seq<Buf>, p: nat): (cut: nat)
    requires p <= |list|
    ensures cut <= p
  {
    if p == 0 || p + |Kept(list[p..])| < EVICTION_THRESHOLD then p else Cut(list, p - 1)
  }

  /** What a miss leaves of the list. */
  function Trimmed(list: seq<Buf>): seq<Buf>
  {
    var cut := Cut(list, |list|);
    list[..cut] + Kept(list[cut..])
  }

  lemma {:induction false} KeptSpec(list: seq<Buf>)
    ensures forall b :: b in Kept(list) <==> b in list && !Evictable(b)
    ensures Distinct(list) ==> Distinct(Kept(list))
  {
    if list != [] {
      KeptSpec(list[1..]);
      assert list == [list[0]] + list[1..];
      if Distinct(list) {
        forall j | 0 <= j < |Kept(list[1..])| ensures list[0].no != Kept(list[1..])[j].no {
          assert Kept(list[1..])[j] in list[1..];
        }
      }
    }
  }

  /** The cut is the largest point that leaves few enough blocks, if there is one. */
  lemma {:induction false} CutIsLargest(list: seq<Buf>, p: nat)
    requires p <= |list|
    ensures var cut := Cut(list, p);
            && (cut == 0 || cut + |Kept(list[cut..])| < EVICTION_THRESHOLD)
            && forall q :: cut < q <= p ==> q + |Kept(list[q..])| >= EVICTION_THRESHOLD
  {
    hide Kept;
    if p != 0 && p + |Kept(list[p..])| >= EVICTION_THRESHOLD {
      CutIsLargest(list, p - 1);
    }
  }

  /** A miss drops only evictable blocks, until fewer than the threshold remain or every survivor is pinned or held. */
  lemma {:induction false} TrimmedKeeps(list: seq<Buf>)
    ensures |Trimmed(list)| < EVICTION_THRESHOLD || forall b <- Trimmed(list) :: !Evictable(b)
    ensures forall b <- list :: !Evictable(b) ==> b in Trimmed(list)
    ensures forall b <- Trimmed(list) :: b in list
    ensures |list| < EVICTION_THRESHOLD ==> Trimmed(list) == list
    ensures Distinct(list) ==> Distinct(Trimmed(list))
  {
    var cut := Cut(list, |list|);
    CutIsLargest(list, |list|);
    KeptSpec(list[cut..]);
    if |list| < EVICTION_THRESHOLD {
      assert list[|list|..] == [];
    }
    hide Kept, Cut;
    assert forall b :: b in list <==> b in list[..cut] || b in list[cut..];
    if Distinct(list) {
      TrimmedDistinct(list, cut);
    }
  }

  /** Among the evictable blocks, the ones dropped are those furthest back in the list. */
  lemma {:induction false} TrimmedIsLru(list: seq<Buf>, i: nat, j: nat)
    requires Distinct(list) && i < j < |list| && Evictable(list[j]) && list[j] in Trimmed(list)
    ensures list[i] in Trimmed(list)
  {
    var cut := Cut(list, |list|);
    KeptSpec(list[cut..]);
    hide Kept, Cut;
    assert list[j] in list[..cut];
    var k :| 0 <= k < cut && list[..cut][k] == list[j];
    assert list[k].no == list[j].no;
    assert list[..cut][i] in Trimmed(list);
  }

  lemma {:induction false} TrimmedDistinct(list: seq<Buf>, cut: nat)
    requires Distinct(list) && cut <= |list|
    ensures Distinct(list[..cut] + Kept(list[cut..]))
  {
    var a, k := list[..cut], Kept(list[cut..]);
    KeptSpec(list[cut..]);
    assert Distinct(list[cut..]);
    var r: seq<Buf> := a + k;
    forall i, j | 0 <= i < j < |r| ensures r[i].no != r[j].no {
      if i < cut <= j {
        assert k[j - cut] in list[cut..];
        var q :| 0 <= q < |list[cut..]| && list[cut..][q] == k[j - cut];
        assert list[cut + q] == k[j - cut];
      }
    }
  }

  // What eviction amounts to, without the loop.

  /** `kept` is what `list` has at the places `at`, in order. */
  ghost predicate Picks(list: seq<Buf>, kept: seq<Buf>, at: seq<nat>)
  {
    && |at| == |kept| && (forall i | 0 <= i < |at| :: at[i] < |list| && kept[i] == list[at[i]])
    && forall i, j | 0 <= i < j < |at| :: at[i] < at[j]
  }

  /** The places from `p` on whose block may not be evicted. */
  ghost function Fixed(list: seq<Buf>, p: nat): set<nat>
  {
    set i | p <= i < |list| && !Evictable(list[i])
  }

  /** How many blocks a miss may leave: it stops at 19, and pinned and held blocks stay. */
  ghost function Left(list: seq<Buf>): nat
  {
    if |list| < 20 then |list| else if |Fixed(list, 0)| < 20 then 19 else |Fixed(list, 0)|
  }

  /**
   `kept` is a subsequence of `list` with as many blocks as must be left. The pinned and held
   ones stay, and no evictable one stays behind one that goes.
   */
  ghost predicate EvictedTo(list: seq<Buf>, kept: seq<Buf>)
  {
    exists at: seq<nat> :: Picks(list, kept, at) && Spares(list, at) && |kept| == Left(list)
  }

  ghost predicate Spares(list: seq<Buf>, at: seq<nat>)
  {
    && (forall i: nat | i < |list| && !Evictable(list[i]) :: i in at)
    && forall i: nat, j: nat | i < j < |list| && Evictable(list[j]) && j in at :: i in at
  }

  /** The places of what `Kept` keeps from `p` on. */
  ghost function KeptAt(list: seq<Buf>, p: nat): (at: seq<nat>)
    requires p <= |list|
    ensures forall i | 0 <= i < |at| :: p <= at[i] < |list|
    ensures forall i, j | 0 <= i < j < |at| :: at[i] < at[j]
    ensures forall i: nat :: i in at <==> p <= i < |list| && !Evictable(list[i])
    decreases |list| - p
  {
    if p == |list| then [] else (if Evictable(list[p]) then [] else [p]) + KeptAt(list, p + 1)
  }

  lemma {:induction false} FixedStep(list: seq<Buf>, p: nat)
    requires p < |list|
    ensures |Fixed(list, p)| == |Fixed(list, p + 1)| + if Evictable(list[p]) then 0 else 1
  {
    hide Evictable;
    assert Fixed(list, p) == Fixed(list, p + 1) + if Evictable(list[p]) then {} else {p};
  }

  lemma {:induction false} KeptStep(list: seq<Buf>, p: nat)
    requires p < |list|
    ensures Kept(list[p..]) == (if Evictable(list[p]) then [] else [list[p]]) + Kept(list[p + 1..])
  {
    assert list[p..][1..] == list[p + 1..] && list[p..][0] == list[p];
  }

  lemma {:induction false} PicksMore(list: seq<Buf>, a: seq<Buf>, p: seq<nat>, b: seq<Buf>, q: seq<nat>)
    requires Picks(list, a, p) && Picks(list, b, q) && forall i <- p, j <- q :: i < j
    ensures Picks(list, a + b, p + q)
  {
    var at := p + q;
    forall i, j | 0 <= i < j < |at| ensures at[i] < at[j] {
      if i < |p| <= j {
        assert at[i] in p && at[j] in q;
      }
    }
  }

  lemma {:induction false} KeptPicks(list: seq<Buf>, p: nat)
    requires p <= |list|
    ensures Picks(list, Kept(list[p..]), KeptAt(list, p)) && |Fixed(list, p)| == |Kept(list[p..])|
    decreases |list| - p
  {
    if p == |list| {
      NoneFixed(list);
    } else {
      KeptPicks(list, p + 1);
      KeptStep(list, p);
      FixedStep(list, p);
      var rest, at := Kept(list[p + 1..]), KeptAt(list, p + 1);
      assert KeptAt(list, p) == (if Evictable(list[p]) then [] else [p]) + at;
      hide Kept, Fixed, Evictable, KeptAt;
      if !Evictable(list[p]) {
        PicksOne(list, p);
        PicksMore(list, [list[p]], [p], rest, at);
      } else {
        assert [] + rest == rest && [] + at == at;
      }
    }
  }

  lemma PicksOne(list: seq<Buf>, p: nat)
    requires p < |list|
    ensures Picks(list, [list[p]], [p])
  {
  }

  lemma NoneFixed(list: seq<Buf>)
    ensures Fixed(list, |list|) == {}
  {
  }

  ghost function Upto(n: nat): (at: seq<nat>)
    ensures |at| == n && forall i | 0 <= i < n :: at[i] == i
  {
    seq(n, i requires 0 <= i < n => i)
  }

  lemma {:induction false} UptoPicks(list: seq<Buf>, n: nat)
    requires n <= |list|
    ensures Picks(list, list[..n], Upto(n)) && forall i: nat :: i in Upto(n) <==> i < n
  {
    forall i: nat | i < n ensures i in Upto(n) {
      assert Upto(n)[i] == i;
    }
  }

  /** The blocks up to the cut stay, and of the others those that must. */
  lemma {:induction false} TrimmedPicks(list: seq<Buf>, cut: nat)
    requires cut <= |list|
    ensures var at := Upto(cut) + KeptAt(list, cut);
            Picks(list, list[..cut] + Kept(list[cut..]), at) && Spares(list, at)
  {
    KeptPicks(list, cut);
    UptoPicks(list, cut);
    var k, u := KeptAt(list, cut), Upto(cut);
    hide Kept, KeptAt, Upto, Evictable;
    PicksMore(list, list[..cut], u, Kept(list[cut..]), k);
    assert forall i: nat :: i in u + k <==> i in u || i in k;
  }

  lemma {:induction false} FixedFew(list: seq<Buf>, cut: nat)
    requires cut <= |list|
    ensures |Fixed(list, 0)| <= cut + |Fixed(list, cut)|
  {
    hide Fixed, Evictable;
    if cut > 0 {
      FixedFew(list, cut - 1);
      FixedStep(list, cut - 1);
    }
  }

  /** A miss evicts what it must, and no more. */
  lemma {:induction false} TrimmedIsLeast(list: seq<Buf>)
    ensures EvictedTo(list, Trimmed(list))
  {
    hide Kept, Cut, Fixed, Picks, Spares, Evictable, Upto, KeptAt;
    var cut := Cut(list, |list|);
    CutIsLargest(list, |list|);
    TrimmedPicks(list, cut);
    assert |Trimmed(list)| == Left(list) by { TrimmedLeft(list, cut); }
  }

  lemma {:induction false} TrimmedLeft(list: seq<Buf>, cut: nat)
    requires cut <= |list| && (cut == 0 || cut + |Kept(list[cut..])| < EVICTION_THRESHOLD)
    requires forall q :: cut < q <= |list| ==> q + |Kept(list[q..])| >= EVICTION_THRESHOLD
    ensures cut + |Kept(list[cut..])| == Left(list)
  {
    hide Kept, Fixed, Picks, Evictable, KeptAt;
    KeptPicks(list, cut);
    FixedFew(list, cut);
    NoneFixed(list);
    KeptPicks(list, |list|);
    if cut < |list| {
      KeptPicks(list, cut + 1);
      FixedStep(list, cut);
    }
  }
}
