/** The page directory as code: walking, mapping and freeing table pages in place. */
module PageDir {
  import opened Pages
  import opened PageTable

  /** Table pages are handed out from here. */
  ghost predicate PoolOk(pool: seq<nat>, mem: Mem)
  {
    && (forall i | 0 <= i < |pool| :: Frame(pool[i]) && pool[i] !in mem)
    && forall i, j | 0 <= i < j < |pool| :: pool[i] != pool[j]
  }

  /** `k` pages are taken from the pool if it has so many. */
  ghost predicate Taken(pool: seq<nat>, k: nat, ok: bool, pool': seq<nat>)
  {
    (ok <==> k <= |pool|) && (ok ==> pool' == pool[k..])
  }

  /** Tables stay where they hang. */
  ghost predicate Kept(mem: Mem, at: map<nat, Place>, mem': Mem, at': map<nat, Place>)
  {
    forall x <- mem :: x in mem' && x in at && x in at' && at'[x] == at[x]
  }

  lemma {:induction false} KeptAt(mem: Mem, at: map<nat, Place>, mem': Mem, at': map<nat, Place>, x: nat)
    requires Kept(mem, at, mem', at') && x in mem
    ensures x in mem' && x in at && x in at' && at'[x] == at[x]
  {
  }

  ghost predicate Suffix(a: seq<nat>, b: seq<nat>)
  {
    |b| <= |a| && b == a[|a| - |b|..]
  }

  lemma {:induction false} SuffixTwice(a: seq<nat>, b: seq<nat>, c: seq<nat>)
    requires Suffix(a, b) && Suffix(b, c)
    ensures Suffix(a, c)
  {
  }

  lemma {:induction false} AllTaken(mem: Mem, pool: seq<nat>, pool': seq<nat>, k: nat, t: nat, va: nat)
    requires Suffix(pool, pool') && t in mem && |mem[t]| == ENTRIES && |pool| + Missing(mem, t, va, 3) == |pool'| + k
    ensures Taken(pool, k, true, pool')
  {
  }

  lemma {:induction false} PoolStep(pool: seq<nat>, mem: Mem, mem': Mem)
    requires PoolOk(pool, mem) && pool != [] && mem'.Keys <= mem.Keys + {pool[0]}
    ensures PoolOk(pool[1..], mem')
  {
  }

  class Pgdir {
    var root: nat           // `pt`, 0 for NULL
    var mem: Mem
    var pool: seq<nat>      // the free pages
    var released: set<nat>  // what went back to the page allocator
    ghost var at: map<nat, Place>

    ghost predicate Valid()
      reads this
    {
      Tree(mem, at, root) && PoolOk(pool, mem)
    }

    /** `init_pgdir`: one empty table, if there is a page for it, and nothing mapped. */
    constructor (pool: seq<nat>)
      requires PoolOk(pool, map[])
      ensures Valid() && released == {} && (root == 0 <==> pool == []) && forall v :: Entry(v) == 0
      ensures this.pool == if pool == [] then [] else pool[1..]
    {
      root, mem, at, this.pool, released := 0, map[], map[], pool, {};
      new;
      hide Value;
      forall v ensures Entry(v) == 0 {
        NoValue(mem, v);
      }
      var ok := NewRoot();
    }

    /** The flat map that the page table stands for. */
    ghost function Entry(va: nat): nat
      reads this
    {
      Value(mem, root, va, 0)
    }

    /** A table page for entry `i` of table `t`; false if there is no page left. */
    method Grow(t: nat, i: nat) returns (ok: bool, c: nat)
      requires Valid() && t in mem && at[t].level < 3 && i < ENTRIES && |mem[t]| == ENTRIES && mem[t][i] == 0
      modifies this`mem, this`pool, this`at
      ensures Valid() && (ok <==> old(pool) != [])
              && (!ok ==> c == 0 && mem == old(mem) && at == old(at) && pool == old(pool))
      ensures ok ==> pool == old(pool)[1..] && c == old(pool)[0] && mem == Hung(old(mem), t, i, c)
                     && at == old(at)[c := Place(old(at)[t].level + 1, t, i)]
      ensures forall va :: Entry(va) == old(Entry(va))
    {
      hide TableOk, Value;
      ok := pool != [];
      c := 0;
      if ok {
        c := pool[0];
        RootLevel(mem, at, root, t);
        HangTree(mem, at, root, t, i, c);
        forall va ensures Value(Hung(mem, t, i, c), root, va, 0) == Value(mem, root, va, 0) {
          HangSame(mem, at, root, t, i, c, root, va, 0);
        }
        PoolStep(pool, mem, Hung(mem, t, i, c));
        at := at[c := Place(at[t].level + 1, t, i)];
        mem := Hung(mem, t, i, c);
        pool := pool[1..];
      }
    }

    /** One level down, allocating if asked to; 0 for NULL. */
    method Next(t: nat, va: nat, l: nat, alloc: bool) returns (c: nat)
      requires Valid() && t in mem && l < 3 && at[t].level == l
      modifies this`mem, this`pool, this`at
      ensures Valid() && (forall v :: Entry(v) == old(Entry(v))) && |pool| <= |old(pool)| && mem.Keys >= old(mem).Keys
      ensures Kept(old(mem), old(at), mem, at)
      ensures c != 0 ==> c in mem && at[c] == Place(l + 1, t, Index(va, l)) && |mem[t]| == ENTRIES
                         && mem[t][Index(va, l)] == c + TABLE
      ensures !alloc ==> mem == old(mem) && at == old(at) && pool == old(pool)
      ensures old(Walk(mem, t, va, l)) != 0 ==> mem == old(mem) && pool == old(pool) && at == old(at) && c != 0
      ensures c == 0 ==> if alloc then old(pool) == [] else Walk(mem, t, va, l) == 0
      ensures c != 0 ==> old(Walk(mem, t, va, l)) == old(Walk(mem, c, va, l + 1))
      ensures |pool| + 1 >= |old(pool)|
      ensures var k := old(Missing(mem, t, va, l));
              if c == 0 then k > 0
              else |old(pool)| + Missing(mem, c, va, l + 1) == |pool| + k && Suffix(old(pool), pool)
    {
      hide TableOk, Value, Index;
      TableFacts(mem, at, root, t);
      EntryCases(mem, at, root, t, Index(va, l));
      if Present(mem[t][Index(va, l)]) {
        c := Address(mem[t][Index(va, l)]);
        NonNull(mem, at, root, c);
      } else if alloc {
        var ok;
        ok, c := Grow(t, Index(va, l));
        if ok {
          NonNull(mem, at, root, c);
          NotThere(old(mem), old(at), root, c, va, l + 1);
          EmptyMissing(mem, c, va, l + 1);
        }
      } else {
        c := 0;
      }
    }

    /** `get_pte`: the last table for `va`, 0 for NULL. */
    method GetPte(va: nat, alloc: bool) returns (t: nat)
      requires Valid()
      modifies this
      ensures Valid() && forall v :: Entry(v) == old(Entry(v))
      ensures t != 0 ==> t == Walk(mem, root, va, 0) && t in mem && at[t].level == 3 && |mem[t]| == ENTRIES
                         && mem[t][Index(va, 3)] == Entry(va)
      ensures !alloc || old(Walk(mem, root, va, 0)) != 0 ==>
                mem == old(mem) && root == old(root) && pool == old(pool) && at == old(at)
      ensures !alloc ==> (t != 0 <==> Walk(mem, root, va, 0) != 0)
      ensures alloc && t == 0 ==> |old(pool)| < if old(root) == 0 then 4 else 3
      ensures |pool| + (if old(root) == 0 then 4 else 3) >= |old(pool)| && (old(root) != 0 ==> root != 0)
      ensures old(Walk(mem, root, va, 0)) != 0 ==> t != 0
      ensures t != 0 ==> root != 0 && mem.Keys >= old(mem).Keys
      ensures alloc ==> Taken(old(pool), old(Missing(mem, root, va, 0)), t != 0, pool)
    {
      hide TableOk, Value, Index, PoolOk;
      t := 0;
      if root == 0 {
        NoTables(mem, root, va);
        if !alloc {
          return;
        }
        var ok := NewRoot();
        if !ok {
          return;
        }
        EmptyMissing(mem, root, va, 0);
      }
      t := Descend(va, alloc);
    }

    /** The first two steps of the walk. */
    method DescendTwo(va: nat, alloc: bool) returns (t1: nat, t2: nat)
      requires Valid() && root != 0
      modifies this`mem, this`pool, this`at
      ensures Valid() && forall v :: Entry(v) == old(Entry(v))
      ensures t2 != 0 ==> root in mem && t1 in mem && t2 in mem && at[t1] == Place(1, root, Index(va, 0))
                          && at[t2] == Place(2, t1, Index(va, 1))
      ensures !alloc || old(Walk(mem, root, va, 0)) != 0 ==> mem == old(mem) && pool == old(pool) && at == old(at)
      ensures old(Walk(mem, root, va, 0)) != 0 ==> t2 != 0
      ensures t2 != 0 && (!alloc || old(Walk(mem, root, va, 0)) != 0) ==>
                Walk(mem, root, va, 0) == Walk(mem, t2, va, 2)
      ensures t2 == 0 ==> if alloc then |old(pool)| < 2 else Walk(mem, root, va, 0) == 0
      ensures |pool| + 2 >= |old(pool)| && mem.Keys >= old(mem).Keys
      ensures var k := old(Missing(mem, root, va, 0));
              if t2 == 0 then alloc ==> |old(pool)| < k
              else |old(pool)| + Missing(mem, t2, va, 2) == |pool| + k && Suffix(old(pool), pool)
    {
      hide TableOk, Value, Index, PoolOk, Walk, Missing, Suffix, Kept;
      t2 := 0;
      RootLevel(mem, at, root, root);
      t1 := Next(root, va, 0, alloc);
      if t1 == 0 {
        return;
      }
      ghost var pool1, mem1, at1 := pool, mem, at;
      t2 := Next(t1, va, 1, alloc);
      if t2 != 0 {
        SuffixTwice(old(pool), pool1, pool);
        KeptAt(mem1, at1, mem, at, root);
        KeptAt(mem1, at1, mem, at, t1);
      }
    }

    /** The walk from an existing root. */
    method Descend(va: nat, alloc: bool) returns (t: nat)
      requires Valid() && root != 0
      modifies this`mem, this`pool, this`at
      ensures Valid() && forall v :: Entry(v) == old(Entry(v))
      ensures t != 0 ==> t == Walk(mem, root, va, 0) && t in mem && at[t].level == 3 && |mem[t]| == ENTRIES
                         && mem[t][Index(va, 3)] == Entry(va)
      ensures !alloc || old(Walk(mem, root, va, 0)) != 0 ==> mem == old(mem) && pool == old(pool) && at == old(at)
      ensures !alloc ==> (t != 0 <==> Walk(mem, root, va, 0) != 0)
      ensures alloc && t == 0 ==> |old(pool)| < 3
      ensures |pool| + 3 >= |old(pool)|
      ensures old(Walk(mem, root, va, 0)) != 0 ==> t != 0
      ensures mem.Keys >= old(mem).Keys
      ensures alloc ==> Taken(old(pool), old(Missing(mem, root, va, 0)), t != 0, pool)
    {
      hide TableOk, Value, Index, PoolOk, Walk, Missing, Suffix, Kept;
      t := 0;
      var t1, t2 := DescendTwo(va, alloc);
      if t2 == 0 {
        return;
      }
      ghost var pool2, mem2, at2 := pool, mem, at;
      var t3 := Next(t2, va, 2, alloc);
      if t3 == 0 {
        return;
      }
      KeptAt(mem2, at2, mem, at, t1);
      KeptAt(mem2, at2, mem, at, t2);
      WalkDown(mem, at, root, t1, t2, t3, va);
      RootLevel(mem, at, root, root);
      SuffixTwice(old(pool), pool2, pool);
      AllTaken(mem, old(pool), pool, old(Missing(mem, root, va, 0)), t3, va);
      ValueIsLookup(mem, at, root, root, va, 0);
      NonNull(mem, at, root, t3);
      t := t3;
    }

    /** `vmmap`; false if there is no page left for a table. */
    method Vmmap(va: nat, pa: nat, flags: nat) returns (ok: bool)
      requires Valid() && Frame(pa) && flags < 0x1_0000_0000_0000_0000
      modifies this
      ensures |pool| + (if old(root) == 0 then 4 else 3) >= |old(pool)| && (ok || old(root) != 0 ==> root != 0)
      ensures Valid() && (!ok ==> |old(pool)| < 4)
              && (old(Walk(mem, root, va, 0)) != 0 ==> ok && pool == old(pool) && root == old(root))
      ensures Taken(old(pool), old(Missing(mem, root, va, 0)), ok, pool)
      ensures ok ==> forall v: nat :: Entry(v) == if PageNo(v) == PageNo(va) then MapEntry(pa, flags) else old(Entry(v))
      ensures !ok ==> forall v :: Entry(v) == old(Entry(v))
    {
      hide TableOk, Value, Index, PoolOk, PageNo, MapEntry;
      var t := GetPte(va, true);
      ok := t != 0;
      if ok {
        var i := Index(va, 3);
        RootLevel(mem, at, root, t);
        StoreTree(mem, at, root, t, i, MapEntry(pa, flags));
        forall v: nat ensures Value(Stored(mem, t, i, MapEntry(pa, flags)), root, v, 0) == if PageNo(v) == PageNo(va)
            then MapEntry(pa, flags) else Value(mem, root, v, 0)
        {
          StoreValue(mem, at, root, t, i, MapEntry(pa, flags), root, v, 0);
          SameSlot(mem, at, root, va, v);
        }
        SamePool(pool, mem, Stored(mem, t, i, MapEntry(pa, flags)));
        mem := Stored(mem, t, i, MapEntry(pa, flags));
      }
    }

    /** The table of level 0. */
    method NewRoot() returns (ok: bool)
      requires Valid() && root == 0
      modifies this
      ensures Valid() && forall v :: Entry(v) == old(Entry(v))
      ensures released == old(released) && (ok <==> old(pool) != [])
      ensures ok ==> root != 0 && pool == old(pool)[1..]
      ensures !ok ==> root == 0 && mem == old(mem) && at == old(at) && pool == old(pool)
      ensures mem.Keys >= old(mem).Keys && (ok ==> root in mem && mem[root] == EmptyTable() && mem.Keys == {root})
    {
      hide TableOk, Value;
      ok := pool != [];
      if ok {
        RootTree(pool[0]);
        forall v ensures Value(mem, 0, v, 0) == 0 {
          NoValue(mem, v);
        }
        PoolStep(pool, mem, map[pool[0] := EmptyTable()]);
        root := pool[0];
        mem, at := map[root := EmptyTable()], map[root := Place(0, 0, 0)];
        pool := pool[1..];
      }
    }

    // Freeing. `released` collects what `kfree_page` is called with; no page goes back twice.

    method Release(p: nat)
      requires p !in released
      modifies this`released
      ensures released == old(released) + {p}
    {
      released := released + {p};
    }

    method FreeLevel2(t: nat)
      requires Tree(mem, at, root) && t in mem && at[t].level == 2 && released !! Whole(at, t, 2)
      modifies this`released
      ensures released == old(released) + Whole(at, t, 2)
    {
      hide TableOk, Under, Whole;
      TableFacts(mem, at, root, t);
      NothingUnder(at, t, 2);
      WholeIs(mem, at, root, t, 2);
      var k := 0;
      while k < ENTRIES
        invariant 0 <= k <= ENTRIES && released == old(released) + Under(at, t, 2, k)
      {
        UnderStep(mem, at, root, t, 2, k);
        UnderGrows(at, t, 2, k + 1);
        if Present(mem[t][k]) {
          EntryCases(mem, at, root, t, k);
          LeafWhole(mem, at, root, Address(mem[t][k]));
          Release(Address(mem[t][k]));
        }
        k := k + 1;
      }
      Release(t);
    }

    method FreeLevel1(t: nat)
      requires Tree(mem, at, root) && t in mem && at[t].level == 1 && released !! Whole(at, t, 1)
      modifies this`released
      ensures released == old(released) + Whole(at, t, 1)
    {
      hide TableOk, Under, Whole;
      TableFacts(mem, at, root, t);
      NothingUnder(at, t, 1);
      WholeIs(mem, at, root, t, 1);
      var j := 0;
      while j < ENTRIES
        invariant 0 <= j <= ENTRIES && released == old(released) + Under(at, t, 1, j)
      {
        UnderStep(mem, at, root, t, 1, j);
        UnderGrows(at, t, 1, j + 1);
        if Present(mem[t][j]) {
          EntryCases(mem, at, root, t, j);
          FreeLevel2(Address(mem[t][j]));
        }
        j := j + 1;
      }
      Release(t);
    }

    method FreeLevel0(t: nat)
      requires Tree(mem, at, root) && t in mem && at[t].level == 0 && released !! Whole(at, t, 0)
      modifies this`released
      ensures released == old(released) + Whole(at, t, 0)
    {
      hide TableOk, Under, Whole;
      TableFacts(mem, at, root, t);
      NothingUnder(at, t, 0);
      WholeIs(mem, at, root, t, 0);
      var i := 0;
      while i < ENTRIES
        invariant 0 <= i <= ENTRIES && released == old(released) + Under(at, t, 0, i)
      {
        UnderStep(mem, at, root, t, 0, i);
        UnderGrows(at, t, 0, i + 1);
        if Present(mem[t][i]) {
          EntryCases(mem, at, root, t, i);
          FreeLevel1(Address(mem[t][i]));
        }
        i := i + 1;
      }
      Release(t);
    }

    /** `free_pgdir` without sections: every table page goes back, once, and nothing else does. */
    method FreePgdir()
      requires Valid() && released == {}
      modifies this
      ensures released == old(mem).Keys && root == 0 && mem == map[] && Valid()
    {
      hide TableOk, Under, Whole;
      if root != 0 {
        RootHoldsAll(mem, at, root);
        RootLevel(mem, at, root, root);
        FreeLevel0(root);
        root, mem, at := 0, map[], map[];
      }
    }
  }

  lemma {:induction false} NothingUnder(at: map<nat, Place>, t: nat, l: nat)
    ensures Under(at, t, l, 0) == {}
  {
  }

  lemma {:induction false} UnderGrows(at: map<nat, Place>, t: nat, l: nat, i: nat)
    requires i <= ENTRIES
    ensures Under(at, t, l, i) <= Under(at, t, l, ENTRIES)
  {
  }

  lemma {:induction false} LeafWhole(mem: Mem, at: map<nat, Place>, root: nat, t: nat)
    requires Tree(mem, at, root) && t in mem && at[t].level == 3
    ensures Whole(at, t, 3) == {t}
  {
    hide TableOk;
    forall x <- mem ensures at[x].level <= 3 {
      TableFacts(mem, at, root, x);
    }
  }

  lemma {:induction false} SamePool(pool: seq<nat>, mem: Mem, mem': Mem)
    requires PoolOk(pool, mem) && mem'.Keys == mem.Keys
    ensures PoolOk(pool, mem')
  {
  }

  /** An address walks to the entry of `va` exactly if it lies in the same page. */
  lemma {:induction false} SameSlot(mem: Mem, at: map<nat, Place>, root: nat, va: nat, v: nat)
    requires Tree(mem, at, root) && root != 0 && Walk(mem, root, va, 0) != 0
    ensures Walk(mem, root, v, 0) == Walk(mem, root, va, 0) && Index(v, 3) == Index(va, 3) <==> PageNo(v) == PageNo(va)
  {
    hide TableOk, Index, PageNo, Walk;
    if Walk(mem, root, v, 0) != 0 {
      SlotsApart(mem, at, root, va, v);
    } else if PageNo(v) == PageNo(va) {
      SameDigits(va, v);
      SameWalk(mem, root, va, v, 0);
    }
  }

  lemma {:induction false} NoTables(mem: Mem, root: nat, va: nat)
    requires root !in mem
    ensures Walk(mem, root, va, 0) == 0
  {
  }

  lemma {:induction false} NoValue(mem: Mem, va: nat)
    requires 0 !in mem
    ensures Value(mem, 0, va, 0) == 0
  {
  }

  lemma {:induction false} WalkDown(mem: Mem, at: map<nat, Place>, root: nat, t1: nat, t2: nat, t3: nat, va: nat)
    requires Tree(mem, at, root) && root in mem && t1 in mem && t2 in mem && t3 in mem
    requires at[t1] == Place(1, root, Index(va, 0)) && at[t2] == Place(2, t1, Index(va, 1))
             && at[t3] == Place(3, t2, Index(va, 2))
    ensures Walk(mem, root, va, 0) == t3 && |mem[t3]| == ENTRIES
  {
    hide TableOk, Index;
    TableFacts(mem, at, root, root);
    TableFacts(mem, at, root, t1);
    TableFacts(mem, at, root, t2);
    TableFacts(mem, at, root, t3);
    HangsThere(mem, at, root, t1);
    HangsThere(mem, at, root, t2);
    HangsThere(mem, at, root, t3);
    assert Walk(mem, t2, va, 2) == t3;
    assert Walk(mem, t1, va, 1) == t3;
  }

  lemma {:induction false} RootLevel(mem: Mem, at: map<nat, Place>, root: nat, t: nat)
    requires Tree(mem, at, root) && t in mem
    ensures root in mem && at[root].level == 0
  {
    TableFacts(mem, at, root, root);
  }

  lemma {:induction false} NonNull(mem: Mem, at: map<nat, Place>, root: nat, c: nat)
    requires Tree(mem, at, root) && c in mem
    ensures c != 0
  {
    TableFacts(mem, at, root, c);
  }

  lemma {:induction false} NotThere(mem: Mem, at: map<nat, Place>, root: nat, c: nat, va: nat, l: nat)
    requires c !in mem && l <= 3
    ensures Walk(mem, c, va, l) == 0
  {
  }
}
