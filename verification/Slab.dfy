/**
 The slab allocator: pages carved into chunks of one size, free chunks on one stack per
 size class, and the chunk size in the first word of each page.
 */
module Slab {
  import opened Pages
  import opened Products

  const UNIT: nat := 16
  const HEADER: nat := 8
  const CLASSES: nat := 256

  /** The page of an address, as `kfree` masks it out. */
  function PageOf(a: nat): (r: nat)
    ensures r % 4096 == 0 && r <= a < r + 4096
  {
    a / PAGE * PAGE
  }

  /** Sizes are rounded up to a multiple of the unit. */
  function Rounded(n: nat): (r: nat)
    ensures r % 16 == 0 && n <= r < n + 16
  {
    (n + UNIT - 1) / UNIT * UNIT
  }

  function Nth(base: nat, size: nat, k: nat): nat
  {
    base + HEADER + k * size
  }

  /** Chunks follow the header word back to back, and must end before the last byte of the page. */
  ghost predicate Chunk(base: nat, size: nat, a: nat)
  {
    a + size < base + PAGE && exists k: nat :: a == Nth(base, size, k)
  }

  /** The chunks lie from the ninth byte on, whole sizes apart, and none touches the last byte. */
  lemma {:induction false} ChunkIs(base: nat, size: nat, a: nat)
    requires size > 0
    ensures Chunk(base, size, a) <==> base + 8 <= a && (a - base - 8) % size == 0 && a + size < base + 4096
  {
    if Chunk(base, size, a) {
      var k: nat :| a == Nth(base, size, k);
      assert k * size >= 0;
      QuotientIs(a - base - 8, size, k, 0);
    }
    if base + 8 <= a && (a - base - 8) % size == 0 {
      Divides(a - base - 8, size);
      assert a == Nth(base, size, (a - base - 8) / size);
    }
  }

  lemma {:induction false} ChunkPage(base: nat, size: nat, a: nat)
    requires size > 0 && base % PAGE == 0 && Chunk(base, size, a)
    ensures PageOf(a) == base && PageOf(a + size - 1) == base && a >= base + HEADER
  {
    var k: nat :| a == Nth(base, size, k);
    assert k * size >= 0;
  }

  lemma {:induction false} NthApart(base: nat, size: nat, j: nat, k: nat)
    ensures j < k ==> Nth(base, size, j) + size <= Nth(base, size, k)
    ensures j == k ==> Nth(base, size, j) == Nth(base, size, k)
  {
    if j < k {
      Grows(size, j + 1, k);
      Distributes(size, j, 1);
    }
  }

  lemma {:induction false} ChunksApart(base: nat, size: nat, a: nat, b: nat)
    requires size > 0 && Chunk(base, size, a) && Chunk(base, size, b) && a < b
    ensures a + size <= b
  {
    var j: nat :| a == Nth(base, size, j);
    var k: nat :| b == Nth(base, size, k);
    NthApart(base, size, j, k);
    NthApart(base, size, k, j);
  }

  lemma {:induction false} ChunkAligned(base: nat, size: nat, a: nat)
    requires size > 0 && size % UNIT == 0 && base % PAGE == 0 && Chunk(base, size, a)
    ensures a % 8 == 0
  {
    var k: nat :| a == Nth(base, size, k);
    var u := size / UNIT;
    assert k * size == 8 * (2 * k * u) by { assert size == UNIT * u; }
    assert base == 8 * (512 * (base / PAGE));
    MultipleOf8(512 * (base / PAGE) + 1 + 2 * k * u);
  }

  lemma {:induction false} MultipleOf8(k: int)
    ensures 8 * k % 8 == 0
  {
  }

  lemma {:induction false} ChunkFits(base: nat, size: nat, a: nat)
    requires Chunk(base, size, a)
    ensures size + HEADER < PAGE
  {
    var k: nat :| a == Nth(base, size, k);
    assert k * size >= 0;
  }

  /**
   Requests up to 4080 bytes are exactly those that have a stack of their own, and exactly
   those for which a fresh page gives a chunk. Beyond that `kalloc` indexes past `slab`.
   */
  lemma {:induction false} CarvesSomething(base: nat, n: nat)
    requires n > 0
    ensures (exists a: nat :: Chunk(base, Rounded(n), a)) <==> n <= 4080
    ensures Rounded(n) / UNIT < CLASSES <==> n <= 4080
  {
    if n <= 4080 {
      assert base + HEADER == Nth(base, Rounded(n), 0);
      assert Chunk(base, Rounded(n), base + HEADER);
    }
    forall a: nat | Chunk(base, Rounded(n), a) ensures n <= 4080 {
      ChunkFits(base, Rounded(n), a);
    }
  }

  /** The chunk size of the page that holds `a`. */
  ghost function SizeOf(sizes: map<nat, nat>, a: nat): nat
  {
    if PageOf(a) in sizes then sizes[PageOf(a)] else 0
  }

  ghost predicate PagesOk(pages: seq<nat>, sizes: map<nat, nat>)
  {
    && (forall i | 0 <= i < |pages| :: pages[i] % PAGE == 0 && pages[i] > 0 && pages[i] !in sizes)
    && (forall i, j | 0 <= i < j < |pages| :: pages[i] != pages[j])
    && (forall base <- sizes :: base % PAGE == 0 && base > 0 && sizes[base] % UNIT == 0 && 0 < sizes[base] <= 4080)
  }

  ghost predicate InPlace(sizes: map<nat, nat>, a: nat)
  {
    PageOf(a) in sizes && sizes[PageOf(a)] > 0 && Chunk(PageOf(a), sizes[PageOf(a)], a)
  }

  /** Every free chunk is on the stack of its own size, once. */
  ghost predicate Stacked(slab: seq<seq<nat>>, sizes: map<nat, nat>)
  {
    && |slab| == CLASSES
    && (forall c, i | 0 <= c < CLASSES && 0 <= i < |slab[c]| ::
        InPlace(sizes, slab[c][i]) && SizeOf(sizes, slab[c][i]) == UNIT * c)
    && (forall c, i, j | 0 <= c < CLASSES && 0 <= i < j < |slab[c]| :: slab[c][i] != slab[c][j])
  }

  ghost predicate Free(slab: seq<seq<nat>>, sizes: map<nat, nat>, a: nat)
    requires |slab| == CLASSES
  {
    SizeOf(sizes, a) / UNIT < CLASSES && a in slab[SizeOf(sizes, a) / UNIT]
  }

  /** The chunks of the carved pages are the live and the free ones, never both. */
  ghost predicate Partition(slab: seq<seq<nat>>, sizes: map<nat, nat>, live: set<nat>)
    requires |slab| == CLASSES
  {
    && (forall a <- live :: InPlace(sizes, a) && !Free(slab, sizes, a))
    && (forall a: nat | InPlace(sizes, a) :: a in live || Free(slab, sizes, a))
  }

  lemma {:induction false} ChunkEnds(base: nat, size: nat, a: nat)
    requires Chunk(base, size, a)
    ensures base + HEADER <= a && a + size < base + PAGE
  {
    var k: nat :| a == Nth(base, size, k);
    assert k * size >= 0;
  }

  /** Live blocks are pairwise disjoint and keep clear of the header word. */
  lemma {:induction false} LiveApart(slab: seq<seq<nat>>, sizes: map<nat, nat>, pages: seq<nat>, live: set<nat>,
                                     a: nat, b: nat)
    requires |slab| == CLASSES && Partition(slab, sizes, live) && PagesOk(pages, sizes) && a in live && b in live
             && a < b
    ensures a + SizeOf(sizes, a) <= b
    ensures a >= PageOf(a) + HEADER && a + SizeOf(sizes, a) < PageOf(a) + PAGE && a % 8 == 0
  {
    hide Free, Chunk;
    assert InPlace(sizes, a) && InPlace(sizes, b);
    ChunkAligned(PageOf(a), SizeOf(sizes, a), a);
    ChunkPage(PageOf(a), SizeOf(sizes, a), a);
    ChunkEnds(PageOf(a), SizeOf(sizes, a), a);
    if PageOf(a) == PageOf(b) {
      ChunksApart(PageOf(a), SizeOf(sizes, a), a, b);
    }
  }

  // How the operations change the partition.

  /** A new page, all of whose chunks have been pushed onto the stack of its size. */
  lemma {:induction false} Carved(slab: seq<seq<nat>>, sizes: map<nat, nat>, live: set<nat>, base: nat, c: nat,
                                  stack: seq<nat>)
    requires Stacked(slab, sizes) && Partition(slab, sizes, live) && base !in sizes && base % PAGE == 0
             && 0 < c < CLASSES
    requires (forall a: nat :: a in stack <==> Chunk(base, UNIT * c, a))
             && forall i, j | 0 <= i < j < |stack| :: stack[i] != stack[j]
    ensures Stacked(slab[c := stack + slab[c]], sizes[base := UNIT * c])
            && Partition(slab[c := stack + slab[c]], sizes[base := UNIT * c], live)
  {
    var slab', sizes' := slab[c := stack + slab[c]], sizes[base := UNIT * c];
    forall a | InPlace(sizes, a) ensures InPlace(sizes', a) && SizeOf(sizes', a) == SizeOf(sizes, a) {
      assert PageOf(a) != base;
    }
    forall a | a in stack ensures InPlace(sizes', a) && SizeOf(sizes', a) == UNIT * c && !InPlace(sizes, a) {
      ChunkPage(base, UNIT * c, a);
    }
    hide Chunk, PageOf;
    forall i, j | 0 <= i < |stack| && 0 <= j < |slab[c]| ensures stack[i] != slab[c][j] {
      assert stack[i] in stack && InPlace(sizes, slab[c][j]);
    }
    forall d, i | 0 <= d < CLASSES && 0 <= i < |slab'[d]|
      ensures InPlace(sizes', slab'[d][i]) && SizeOf(sizes', slab'[d][i]) == UNIT * d
    {
      if d == c && i < |stack| {
        assert slab'[d][i] in stack;
      } else {
        assert InPlace(sizes, slab[d][if d == c then i - |stack| else i]);
      }
    }
    forall a <- live ensures InPlace(sizes', a) && !Free(slab', sizes', a) {
      assert InPlace(sizes, a) && !Free(slab, sizes, a);
    }
    forall a: nat | InPlace(sizes', a) ensures a in live || Free(slab', sizes', a) {
      if PageOf(a) != base {
        assert InPlace(sizes, a);
        if a !in live {
          assert Free(slab, sizes, a);
        }
      }
    }
  }

  lemma {:induction false} Popped(slab: seq<seq<nat>>, sizes: map<nat, nat>, live: set<nat>, c: nat)
    requires Stacked(slab, sizes) && Partition(slab, sizes, live) && c < CLASSES && slab[c] != []
    ensures var a := slab[c][0]; a !in live && Stacked(slab[c := slab[c][1..]], sizes)
                                 && Partition(slab[c := slab[c][1..]], sizes, live + {a})
  {
    hide Chunk, PageOf;
    var a, slab' := slab[c][0], slab[c := slab[c][1..]];
    assert Free(slab, sizes, a);
    assert a !in slab[c][1..];
    forall b: nat | InPlace(sizes, b) && b !in live + {a} ensures Free(slab', sizes, b) {
      assert Free(slab, sizes, b);
      assert slab[c] == [a] + slab[c][1..];
    }
  }

  lemma {:induction false} Pushed(slab: seq<seq<nat>>, sizes: map<nat, nat>, live: set<nat>, a: nat, c: nat)
    requires Stacked(slab, sizes) && Partition(slab, sizes, live) && a in live && SizeOf(sizes, a) == UNIT * c
             && c < CLASSES
    ensures Stacked(slab[c := [a] + slab[c]], sizes) && Partition(slab[c := [a] + slab[c]], sizes, live - {a})
  {
    hide Chunk, PageOf;
    var slab' := slab[c := [a] + slab[c]];
    assert InPlace(sizes, a) && !Free(slab, sizes, a);
    forall b | b in slab'[c] ensures b == a || b in slab[c] {
    }
    forall b: nat | InPlace(sizes, b) && b !in live - {a} ensures Free(slab', sizes, b) {
      if b != a {
        assert Free(slab, sizes, b);
      } else {
        assert slab'[c][0] == a;
      }
    }
  }

  class Allocator {
    var pages: seq<nat>           // the stack of free pages
    var slab: seq<seq<nat>>       // one stack of free chunks per size class
    var sizes: map<nat, nat>      // the first word of every carved page
    ghost var live: set<nat>      // what `kalloc` has returned and `kfree` has not taken back

    ghost predicate Valid()
      reads this
    {
      PagesOk(pages, sizes) && Stacked(slab, sizes) && Partition(slab, sizes, live)
    }

    /** All pages free and no chunk carved yet. */
    constructor (pages: seq<nat>)
      requires PagesOk(pages, map[])
      ensures Valid() && live == {} && this.pages == pages
    {
      this.pages, slab, sizes, live := pages, seq(CLASSES, _ => []), map[], {};
    }

    /** `_add_page`: carve a fresh page into chunks; false if there is no page left. */
    method AddPage(size: nat) returns (ok: bool)
      requires Valid() && size % UNIT == 0 && 0 < size <= 4080
      modifies this
      ensures Valid() && live == old(live) && (ok <==> old(pages) != [])
      ensures !ok ==> slab == old(slab) && sizes == old(sizes) && pages == old(pages)
      ensures ok ==> slab[size / UNIT] != [] && pages == old(pages)[1..] && sizes == old(sizes)[old(pages)[0] := size]
      ensures ok ==> exists stack: seq<nat> ::
                       && slab == old(slab)[size / UNIT := stack + old(slab)[size / UNIT]]
                       && forall a: nat :: a in stack <==> Chunk(old(pages)[0], size, a)
    {
      ok := pages != [];
      if !ok {
        return;
      }
      hide Stacked, Partition, Chunk;
      var base, c := pages[0], size / UNIT;
      assert base % PAGE == 0 && base !in sizes && |slab| == CLASSES by { SlabLength(slab, sizes); }
      var stack := Carve(base, size);
      Carved(slab, sizes, live, base, c, stack);
      assert base + HEADER in stack by { FirstChunk(base, size); }
      pages, slab, sizes := pages[1..], slab[c := stack + slab[c]], sizes[base := size];
    }

    /** The carving loop. */
    static method Carve(base: nat, size: nat) returns (stack: seq<nat>)
      requires size > 0
      ensures forall a: nat :: a in stack <==> Chunk(base, size, a)
      ensures forall i, j | 0 <= i < j < |stack| :: stack[i] != stack[j]
    {
      hide Chunk;
      stack := [];
      var it := base + HEADER;
      ghost var k: nat := 0;
      forall a: nat | Chunk(base, size, a) ensures a >= it {
        ChunkEnds(base, size, a);
      }
      while it + size < base + PAGE
        invariant it == Nth(base, size, k)
        invariant forall a: nat :: a in stack <==> Chunk(base, size, a) && a < it
        invariant forall i, j | 0 <= i < j < |stack| :: stack[i] != stack[j]
        decreases base + PAGE - it
      {
        Between(base, size, k);
        stack := [it] + stack;
        it := it + size;
        k := k + 1;
      }
      forall a: nat | Chunk(base, size, a) ensures a < it {
        ChunkEnds(base, size, a);
      }
    }

    /** `kalloc`; 0 if memory is exhausted. */
    method Kalloc(n: nat) returns (r: nat)
      requires Valid() && 0 < n <= 4080
      modifies this
      ensures Valid() && (r == 0 ==> live == old(live) && slab == old(slab) && pages == old(pages))
      ensures r != 0 ==> r !in old(live) && live == old(live) + {r} && r % 8 == 0
      ensures r != 0 ==> SizeOf(sizes, r) % 16 == 0 && n <= SizeOf(sizes, r) < n + 16
      ensures r != 0 ==> PageOf(r) + HEADER <= r && r + n < PageOf(r) + PAGE
      ensures r != 0 ==> forall b <- old(live) :: r + n <= b || b + SizeOf(sizes, b) <= r
      ensures r == 0 <==> old(pages) == [] && old(slab[(n + 15) / 16]) == []
      ensures old(slab[(n + 15) / 16]) != [] ==>
                && pages == old(pages) && r == old(slab[(n + 15) / 16])[0]
                && slab == old(slab)[(n + 15) / 16 := old(slab[(n + 15) / 16])[1..]]
      ensures r != 0 && old(slab[(n + 15) / 16]) == [] ==> pages == old(pages)[1..] && PageOf(r) == old(pages)[0]
      ensures forall b <- old(live) :: SizeOf(sizes, b) == old(SizeOf(sizes, b))
    {
      hide Stacked, Partition, Chunk, InPlace;
      var size := Rounded(n);
      var c := size / UNIT;
      assert |slab| == CLASSES by { SlabLength(slab, sizes); }
      while slab[c] == []
        invariant Valid() && live == old(live) && |slab| == CLASSES
        invariant if slab[c] == [] || old(slab[c]) != [] then slab == old(slab) && pages == old(pages)
                  else old(pages) != [] && pages == old(pages)[1..] && forall a <- slab[c] :: PageOf(a) == old(pages)[0]
        invariant forall b <- live :: SizeOf(sizes, b) == old(SizeOf(sizes, b))
        decreases |pages|
      {
        ghost var sizes0, slab0 := sizes, slab;
        var ok := AddPage(size);
        if !ok {
          return 0;
        }
        forall b <- live ensures SizeOf(sizes, b) == SizeOf(sizes0, b) {
          LiveCarved(slab0, sizes0, live, b);
        }
        assert |slab| == CLASSES by { SlabLength(slab, sizes); }
        forall a <- slab[c] ensures PageOf(a) == old(pages)[0] {
          assert slab0[c] == [] && Chunk(old(pages)[0], size, a);
          ChunkPage(old(pages)[0], size, a);
        }
      }
      r := slab[c][0];
      StackedAt(slab, sizes, c);
      Popped(slab, sizes, live, c);
      slab := slab[c := slab[c][1..]];
      live := live + {r};
      BlockFacts(slab, sizes, pages, live, r);
    }

    /** `kfree` of a block in use, or of 0. */
    method Kfree(p: nat)
      requires Valid() && (p != 0 ==> p in live)
      modifies this
      ensures Valid() && sizes == old(sizes) && pages == old(pages)
      ensures p == 0 ==> slab == old(slab) && live == old(live)
      ensures p != 0 ==> live == old(live) - {p}
      ensures p != 0 ==> |slab| == |old(slab)| && var c := SizeOf(sizes, p) / UNIT;
                c < |slab| && slab == old(slab)[c := [p] + old(slab)[c]]
    {
      hide Stacked, Chunk;
      if p != 0 {
        assert InPlace(sizes, p);
        var size := sizes[PageOf(p)];
        assert |slab| == CLASSES by { SlabLength(slab, sizes); }
        Pushed(slab, sizes, live, p, size / UNIT);
        slab := slab[size / UNIT := [p] + slab[size / UNIT]];
        live := live - {p};
      }
    }
  }

  lemma {:induction false} SlabLength(slab: seq<seq<nat>>, sizes: map<nat, nat>)
    requires Stacked(slab, sizes)
    ensures |slab| == CLASSES
  {
  }

  lemma {:induction false} FirstChunk(base: nat, size: nat)
    requires size + HEADER < PAGE
    ensures Chunk(base, size, base + HEADER)
  {
    assert base + HEADER == Nth(base, size, 0);
  }

  /** Between two neighbouring chunks there is no other. */
  lemma {:induction false} Between(base: nat, size: nat, k: nat)
    requires size > 0 && Nth(base, size, k) + size < base + PAGE
    ensures Nth(base, size, k) + size == Nth(base, size, k + 1) && Chunk(base, size, Nth(base, size, k))
    ensures forall a: nat :: Chunk(base, size, a) && a < Nth(base, size, k) + size ==> a <= Nth(base, size, k)
  {
    var x := Nth(base, size, k);
    assert (k + 1) * size == k * size + size;
    assert Chunk(base, size, x);
    forall a: nat | Chunk(base, size, a) && a < x + size ensures a <= x {
      if a > x {
        ChunksApart(base, size, x, a);
      }
    }
  }

  lemma {:induction false} LiveCarved(slab: seq<seq<nat>>, sizes: map<nat, nat>, live: set<nat>, b: nat)
    requires |slab| == CLASSES && Partition(slab, sizes, live) && b in live
    ensures PageOf(b) in sizes
  {
    assert InPlace(sizes, b);
  }

  lemma {:induction false} StackedAt(slab: seq<seq<nat>>, sizes: map<nat, nat>, c: nat)
    requires Stacked(slab, sizes) && c < CLASSES && slab[c] != []
    ensures SizeOf(sizes, slab[c][0]) == UNIT * c && InPlace(sizes, slab[c][0])
  {
  }

  /** What the owner of a block may rely on. */
  lemma {:induction false} BlockFacts(slab: seq<seq<nat>>, sizes: map<nat, nat>, pages: seq<nat>, live: set<nat>,
                                      a: nat)
    requires Stacked(slab, sizes) && Partition(slab, sizes, live) && PagesOk(pages, sizes) && a in live
    ensures a % 8 == 0 && a > 0 && PageOf(a) + HEADER <= a && a + SizeOf(sizes, a) < PageOf(a) + PAGE
    ensures forall b <- live | b != a :: a + SizeOf(sizes, a) <= b || b + SizeOf(sizes, b) <= a
  {
    hide Stacked, Chunk, Free;
    assert InPlace(sizes, a);
    ChunkAligned(PageOf(a), SizeOf(sizes, a), a);
    ChunkPage(PageOf(a), SizeOf(sizes, a), a);
    ChunkEnds(PageOf(a), SizeOf(sizes, a), a);
    assert |slab| == CLASSES by { SlabLength(slab, sizes); }
    forall b <- live | b != a ensures a + SizeOf(sizes, a) <= b || b + SizeOf(sizes, b) <= a {
      LiveApart(slab, sizes, pages, live, if a < b then a else b, if a < b then b else a);
    }
  }
}
